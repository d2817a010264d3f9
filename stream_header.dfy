/**
 * `extractStreamIdAndCleanRequest` (server.py:204-223): an optional leading
 * `STREAM-ID: <integer>` line selects framed delivery and is removed from the
 * request before it is handled.
 */
module StreamHeader {
  import opened Wrappers
  import opened Seqs
  import opened Chars
  import opened Http

  const STREAM_ID_PREFIX: string := "STREAM-ID:"

  /** The stream id found (None when absent or not an integer) and the request to handle. */
  datatype Extracted = Extracted(streamId: Option<int>, clean: string)

  /** A line that starts with the prefix has at least two colon-separated fields. */
  lemma PrefixFields(line: string)
    requires StartsWith(line, STREAM_ID_PREFIX)
    ensures Split(line, ":") == ["STREAM-ID"] + Split(line[10..], ":")
  {
    assert line == "STREAM-ID" + ":" + line[10..];
    SplitAfter("STREAM-ID", ":", line[10..]);
  }

  /** Python's `line.split(":")[1]`: the text between the first and the second colon. */
  function IdField(line: string): (field: string)
    requires StartsWith(line, STREAM_ID_PREFIX)
    ensures field == Split(line[10..], ":")[0]
  {
    PrefixFields(line);
    Split(line, ":")[1]
  }

  function ExtractStreamId(request: string): (r: Extracted)
    // No STREAM-ID line: no id, and the request comes back exactly as it was.
    ensures !StartsWith(FirstLine(request), STREAM_ID_PREFIX) ==> r == Extracted(None, request)
    // A STREAM-ID line whose value is not an integer: the line stays.
    ensures r.streamId.None? ==> r.clean == request
    // The id is the integer value of the field after the colon, when it has one.
    ensures StartsWith(FirstLine(request), STREAM_ID_PREFIX) ==>
              r.streamId == ParseInt(Strip(IdField(FirstLine(request))))
    // With an id, the clean request is the original minus its first line and that line's CRLF.
    ensures r.streamId.Some? && Contains(request, CRLF) ==> request == FirstLine(request) + CRLF + r.clean
    ensures r.streamId.Some? && !Contains(request, CRLF) ==> request == FirstLine(request) && r.clean == ""
  {
    var lines := Split(request, CRLF);
    JoinSplit(request, CRLF);
    if StartsWith(lines[0], STREAM_ID_PREFIX) then
      match ParseInt(Strip(IdField(lines[0])))
      case Some(id) =>
        RestAfterFirstLine(request);
        Extracted(Some(id), Join(lines[1..], CRLF))
      case None => Extracted(None, Join(lines, CRLF))
    else
      Extracted(None, Join(lines, CRLF))
  }

  /** The line a sender puts in front of a request to ask for framed delivery. */
  function StreamIdLine(id: int): string
  {
    "STREAM-ID: " + IntToString(id)
  }

  /** The value field of a stream-id line is one space and then the id's text. */
  lemma StreamIdLineField(id: int)
    ensures var line := StreamIdLine(id);
            '\r' !in line && StartsWith(line, STREAM_ID_PREFIX) && IdField(line) == " " + IntToString(id)
  {
    var line := StreamIdLine(id);
    var digits := IntToString(id);
    IntToStringChars(id);
    assert ':' !in " " + digits;
    assert '\r' !in line;
    assert line[10..] == " " + digits;
    SplitAbsent(" " + digits, ":");
  }

  /** `int(" <id>".strip()) == id`. */
  lemma SpacedIdParses(id: int)
    ensures ParseInt(Strip(" " + IntToString(id))) == Some(id)
  {
    var digits := IntToString(id);
    IntToStringChars(id);
    assert !IsSpace(digits[0]) && !IsSpace(digits[|digits| - 1]);
    assert (" " + digits)[1..] == digits;
    assert TrimStart(" " + digits) == TrimStart(digits);
    StripUnchanged(digits);
    assert Strip(" " + digits) == digits;
    ParseIntToString(id);
  }

  /** Tagging a request with a stream id and extracting it again gives back the id and the request. */
  lemma TagThenExtract(id: int, request: string)
    ensures ExtractStreamId(StreamIdLine(id) + CRLF + request) == Extracted(Some(id), request)
  {
    var line := StreamIdLine(id);
    StreamIdLineField(id);
    SpacedIdParses(id);
    SplitAfter(line, CRLF, request);
    JoinSplit(request, CRLF);
  }
}
