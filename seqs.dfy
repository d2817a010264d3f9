/**
 * The str/bytes operations both programs rely on (`in`, `find`, `split(sep)`,
 * `split(sep, 1)`, `sep.join`, `startswith`), stated once for sequences of any
 * element type so that they serve text and byte strings alike.
 */
module Seqs {
  import opened Wrappers

  /** `sep` occurs in `s` starting at index `i`. */
  predicate OccursAt<T(==)>(s: seq<T>, sep: seq<T>, i: int)
  {
    0 <= i && i + |sep| <= |s| && s[i..i + |sep|] == sep
  }

  /** The first occurrence of `sep` in `s` at or after index `from`. */
  function FindFrom<T(==)>(s: seq<T>, sep: seq<T>, from: nat): (r: Option<nat>)
    ensures r.Some? ==> from <= r.value && OccursAt(s, sep, r.value)
    ensures r.Some? ==> forall j :: from <= j < r.value ==> !OccursAt(s, sep, j)
    ensures r.None? ==> forall j :: from <= j ==> !OccursAt(s, sep, j)
    decreases |s| + 1 - from
  {
    if from + |sep| > |s| then None
    else if s[from..from + |sep|] == sep then Some(from)
    else FindFrom(s, sep, from + 1)
  }

  /** The first occurrence of `sep` in `s` (Python's `s.find(sep)`, with None for -1). */
  function Find<T(==)>(s: seq<T>, sep: seq<T>): (r: Option<nat>)
    ensures r.Some? ==> OccursAt(s, sep, r.value) && forall j :: 0 <= j < r.value ==> !OccursAt(s, sep, j)
    ensures r.None? <==> forall j :: 0 <= j ==> !OccursAt(s, sep, j)
  {
    FindFrom(s, sep, 0)
  }

  /** Python's `sep in s`. */
  predicate Contains<T(==)>(s: seq<T>, sep: seq<T>)
  {
    Find(s, sep).Some?
  }

  /** Python's `s.startswith(p)`. */
  predicate StartsWith<T(==)>(s: seq<T>, p: seq<T>)
  {
    |p| <= |s| && s[..|p|] == p
  }

  /**
   * Python's `s.split(sep, 1)` when it yields two parts: the text before the
   * first `sep` and the text after it; None when `sep` does not occur.
   */
  function SplitOnce<T(==)>(s: seq<T>, sep: seq<T>): (r: Option<(seq<T>, seq<T>)>)
    ensures r.None? <==> !Contains(s, sep)
    ensures r.Some? ==> s == r.value.0 + sep + r.value.1 && Find(s, sep) == Some(|r.value.0|)
  {
    match Find(s, sep)
    case None => None
    case Some(i) =>
      assert s == s[..i] + s[i..i + |sep|] + s[i + |sep|..];
      Some((s[..i], s[i + |sep|..]))
  }

  /** Python's `s.split(sep)` for a non-empty separator: never an empty list. */
  function Split<T(==)>(s: seq<T>, sep: seq<T>): (parts: seq<seq<T>>)
    requires |sep| > 0
    ensures |parts| >= 1
    decreases |s|
  {
    match SplitOnce(s, sep)
    case None => [s]
    case Some((head, rest)) => [head] + Split(rest, sep)
  }

  /** Python's `sep.join(parts)`. */
  function Join<T>(parts: seq<seq<T>>, sep: seq<T>): seq<T>
  {
    if |parts| == 0 then []
    else if |parts| == 1 then parts[0]
    else parts[0] + sep + Join(parts[1..], sep)
  }

  /** Every part followed by `eol`, concatenated: a block of terminated lines. */
  function Terminated<T>(parts: seq<seq<T>>, eol: seq<T>): seq<T>
  {
    if |parts| == 0 then [] else parts[0] + eol + Terminated(parts[1..], eol)
  }

  /** All parts concatenated in order (Python's `b"".join(parts)`). */
  function Concat<T>(parts: seq<seq<T>>): seq<T>
  {
    if |parts| == 0 then [] else parts[0] + Concat(parts[1..])
  }

  /** Splitting on a separator and joining with it gives back the original. */
  lemma {:induction false} JoinSplit<T>(s: seq<T>, sep: seq<T>)
    requires |sep| > 0
    ensures Join(Split(s, sep), sep) == s
    decreases |s|
  {
    match SplitOnce(s, sep)
    case None =>
    case Some((head, rest)) =>
      JoinSplit(rest, sep);
      var tail := Split(rest, sep);
      assert Split(s, sep) == [head] + tail;
      assert ([head] + tail)[1..] == tail;
  }

  /** Appending one part to a non-empty list adds exactly one separator and that part. */
  lemma {:induction false} JoinSnoc<T>(parts: seq<seq<T>>, sep: seq<T>, last: seq<T>)
    requires |parts| > 0
    ensures Join(parts + [last], sep) == Join(parts, sep) + sep + last
    decreases |parts|
  {
    if |parts| == 1 {
      assert (parts + [last])[1..] == [last];
    } else {
      JoinSnoc(parts[1..], sep, last);
      assert (parts + [last])[1..] == parts[1..] + [last];
    }
  }

  /** Concatenation of a list extended by one part. */
  lemma {:induction false} ConcatSnoc<T>(parts: seq<seq<T>>, last: seq<T>)
    ensures Concat(parts + [last]) == Concat(parts) + last
    decreases |parts|
  {
    if |parts| == 0 {
      assert parts + [last] == [last];
    } else {
      ConcatSnoc(parts[1..], last);
      assert (parts + [last])[1..] == parts[1..] + [last];
    }
  }

  /** An occurrence with none before it is what Find reports. */
  lemma FindIs<T>(s: seq<T>, sep: seq<T>, i: nat)
    requires OccursAt(s, sep, i)
    requires forall j :: 0 <= j < i ==> !OccursAt(s, sep, j)
    ensures Find(s, sep) == Some(i)
  {
  }

  /** An occurrence of a non-empty `sep` starts with `sep[0]`. */
  lemma OccursAtFirst<T>(s: seq<T>, sep: seq<T>, j: int)
    requires |sep| > 0
    ensures OccursAt(s, sep, j) ==> s[j] == sep[0]
  {
    if OccursAt(s, sep, j) {
      assert s[j..j + |sep|][0] == s[j];
    }
  }

  /** The first occurrence in `s` stays the first occurrence once text is appended. */
  lemma FindExtend<T>(s: seq<T>, t: seq<T>, sep: seq<T>)
    requires Find(s, sep).Some?
    ensures Find(s + t, sep) == Find(s, sep)
  {
    var i := Find(s, sep).value;
    assert (s + t)[i..i + |sep|] == s[i..i + |sep|];
    forall j | 0 <= j < i
      ensures !OccursAt(s + t, sep, j)
    {
      assert !OccursAt(s, sep, j);
      assert (s + t)[j..j + |sep|] == s[j..j + |sep|];
    }
    FindIs(s + t, sep, i);
  }

  /** Text appended after a separator does not move the first split. */
  lemma SplitOnceExtend<T>(s: seq<T>, t: seq<T>, sep: seq<T>)
    requires SplitOnce(s, sep).Some?
    ensures SplitOnce(s + t, sep) == Some((SplitOnce(s, sep).value.0, SplitOnce(s, sep).value.1 + t))
  {
    FindExtend(s, t, sep);
    var i := Find(s, sep).value;
    assert (s + t)[..i] == s[..i];
    assert (s + t)[i + |sep|..] == s[i + |sep|..] + t;
  }

  /** The text before the first occurrence of `sep` does not contain `sep`. */
  lemma BeforeFirst<T>(s: seq<T>, sep: seq<T>, i: nat)
    requires |sep| > 0 && Find(s, sep) == Some(i)
    ensures !Contains(s[..i], sep)
  {
    var t := s[..i];
    forall j | 0 <= j
      ensures !OccursAt(t, sep, j)
    {
      if j + |sep| <= i {
        assert !OccursAt(s, sep, j);
        assert t[j..j + |sep|] == s[j..j + |sep|];
      }
    }
  }

  /**
   * When the first element of `sep` does not appear in `a`, the first
   * occurrence of `sep` in `a + sep + b` is the one right after `a`.
   */
  lemma FindAfter<T>(a: seq<T>, sep: seq<T>, b: seq<T>)
    requires |sep| > 0 && sep[0] !in a
    ensures Find(a + sep + b, sep) == Some(|a|)
  {
    var s := a + sep + b;
    assert s[|a|..|a| + |sep|] == sep;
    forall j | 0 <= j < |a|
      ensures !OccursAt(s, sep, j)
    {
      assert s[j] == a[j];
      OccursAtFirst(s, sep, j);
    }
    FindIs(s, sep, |a|);
  }

  /** `s` split at its first `sep` when `sep[0]` is absent from `a`: the first part is `a`. */
  lemma SplitAfter<T>(a: seq<T>, sep: seq<T>, b: seq<T>)
    requires |sep| > 0 && sep[0] !in a
    ensures SplitOnce(a + sep + b, sep) == Some((a, b))
    ensures Split(a + sep + b, sep) == [a] + Split(b, sep)
  {
    FindAfter(a, sep, b);
    var s := a + sep + b;
    assert s[..|a|] == a;
    assert s[|a| + |sep|..] == b;
  }

  /** A sequence without `sep[0]` does not contain `sep` and splits into itself. */
  lemma SplitAbsent<T>(a: seq<T>, sep: seq<T>)
    requires |sep| > 0 && sep[0] !in a
    ensures !Contains(a, sep)
    ensures Split(a, sep) == [a]
  {
    forall j | 0 <= j
      ensures !OccursAt(a, sep, j)
    {
      OccursAtFirst(a, sep, j);
    }
  }

  /** Terminating one more line appends that line and the terminator. */
  lemma {:induction false} TerminatedSnoc<T>(parts: seq<seq<T>>, last: seq<T>, eol: seq<T>)
    ensures Terminated(parts + [last], eol) == Terminated(parts, eol) + last + eol
    decreases |parts|
  {
    if |parts| == 0 {
      assert parts + [last] == [last];
    } else {
      TerminatedSnoc(parts[1..], last, eol);
      assert (parts + [last])[1..] == parts[1..] + [last];
    }
  }

  /** A non-empty block of terminated lines is the lines joined by the terminator, plus one more. */
  lemma TerminatedCons<T>(first: seq<T>, parts: seq<seq<T>>, eol: seq<T>)
    ensures Terminated([first] + parts, eol) == first + eol + Terminated(parts, eol)
  {
    assert ([first] + parts)[1..] == parts;
  }

  lemma {:induction false} TerminatedJoin<T>(parts: seq<seq<T>>, eol: seq<T>)
    requires |parts| > 0
    ensures Terminated(parts, eol) == Join(parts, eol) + eol
    decreases |parts|
  {
    if |parts| > 1 {
      TerminatedJoin(parts[1..], eol);
    }
  }

  /** Joining parts that do not contain `sep[0]` and splitting again gives the parts back. */
  lemma {:induction false} SplitJoin<T>(parts: seq<seq<T>>, sep: seq<T>)
    requires |parts| > 0 && |sep| > 0
    requires forall i :: 0 <= i < |parts| ==> sep[0] !in parts[i]
    ensures Split(Join(parts, sep), sep) == parts
    decreases |parts|
  {
    if |parts| == 1 {
      SplitAbsent(parts[0], sep);
    } else {
      SplitJoin(parts[1..], sep);
      SplitAfter(parts[0], sep, Join(parts[1..], sep));
    }
  }

  /** The first three elements of an occurrence of `[cr, lf, cr, lf]`. */
  lemma OccursAtBlank<T>(s: seq<T>, cr: T, lf: T, j: int)
    ensures OccursAt(s, [cr, lf, cr, lf], j) ==> s[j] == cr && s[j + 1] == lf && s[j + 2] == cr
  {
    if OccursAt(s, [cr, lf, cr, lf], j) {
      var w := s[j..j + 4];
      assert w[0] == s[j] && w[1] == s[j + 1] && w[2] == s[j + 2];
    }
  }

  /**
   * In a block of non-empty lines free of `cr`, each terminated by `[cr, lf]`,
   * no blank line starts before the last terminator, whatever follows the block.
   */
  lemma {:induction false} NoBlankBefore<T>(lines: seq<seq<T>>, cr: T, lf: T, tail: seq<T>)
    requires cr != lf && |lines| > 0
    requires forall i :: 0 <= i < |lines| ==> |lines[i]| > 0 && cr !in lines[i]
    ensures forall j :: 0 <= j < |Terminated(lines, [cr, lf])| - 2
                     ==> !OccursAt(Terminated(lines, [cr, lf]) + tail, [cr, lf, cr, lf], j)
    decreases |lines|
  {
    var eol, blank := [cr, lf], [cr, lf, cr, lf];
    var l := lines[0];
    var more := Terminated(lines[1..], eol);
    var block := Terminated(lines, eol);
    var s := block + tail;
    assert block == l + eol + more;
    assert s == l + eol + (more + tail);
    if |lines| > 1 {
      NoBlankBefore(lines[1..], cr, lf, tail);
      assert more == lines[1] + eol + Terminated(lines[2..], eol);
    }
    forall j | 0 <= j < |block| - 2
      ensures !OccursAt(s, blank, j)
    {
      OccursAtBlank(s, cr, lf, j);
      if j < |l| {
        assert s[j] == l[j];
      } else if j == |l| {
        assert s[j + 2] == lines[1][0];
      } else if j == |l| + 1 {
        assert s[j] == lf;
      } else {
        var k := j - |l| - 2;
        if j + 4 <= |s| {
          assert !OccursAt(more + tail, blank, k);
          assert s[j..j + 4] == (more + tail)[k..k + 4];
        }
      }
    }
  }

  /**
   * A head made of non-empty lines free of `cr`, each terminated by `[cr, lf]`,
   * then one more `[cr, lf]`, then anything: Python's `split(b"\r\n\r\n", 1)`
   * separates exactly the lines (joined) from what follows, and splitting the
   * first part on `[cr, lf]` gives the lines back.
   */
  lemma FirstBlankLine<T>(lines: seq<seq<T>>, cr: T, lf: T, rest: seq<T>)
    requires cr != lf && |lines| > 0
    requires forall i :: 0 <= i < |lines| ==> |lines[i]| > 0 && cr !in lines[i]
    ensures SplitOnce(Terminated(lines, [cr, lf]) + [cr, lf] + rest, [cr, lf, cr, lf])
            == Some((Join(lines, [cr, lf]), rest))
    ensures Split(Join(lines, [cr, lf]), [cr, lf]) == lines
  {
    var eol, blank := [cr, lf], [cr, lf, cr, lf];
    var joined := Join(lines, eol);
    var s := Terminated(lines, eol) + eol + rest;
    TerminatedJoin(lines, eol);
    assert s == joined + blank + rest;
    NoBlankBefore(lines, cr, lf, eol + rest);
    assert Terminated(lines, eol) + (eol + rest) == s;
    assert s[|joined|..|joined| + 4] == blank;
    FindIs(s, blank, |joined|);
    assert s[..|joined|] == joined;
    assert s[|joined| + 4..] == rest;
    SplitJoin(lines, eol);
  }
}
