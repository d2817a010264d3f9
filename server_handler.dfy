/**
 * `handleRequest` and its handlers (server.py:81-201): the status decision
 * chain over a request, and `createResponse`, which writes the response text.
 *
 * The filesystem is a map from file name to what `open(...).read()` gives
 * (the text, or the message of the error it raises) and the file's mtime;
 * `datetime.strptime` is the parameter `parseDate`, which gives a time in the
 * same units as the mtime or the message of the ValueError it raises.
 */
module ServerHandler {
  import opened Wrappers
  import opened Seqs
  import opened Chars
  import opened Http

  datatype FileEntry = FileEntry(contents: Result<string, string>, mtime: int)
  type Files = map<string, FileEntry>

  /** What a handler chooses before `createResponse` writes it out. */
  datatype Reply = Reply(status: Status, body: string)

  const IMS_PREFIX: string := "If-Modified-Since:"

  /** The outcome of `handle304` on one header line. */
  datatype Check = Pass | NotModifiedSince | Raises(error: PyError)

  /**
   * `handle304` on a line starting with If-Modified-Since: the value after the
   * first ": " is parsed as a date, and the file counts as not modified when
   * its mtime is no later than that date. Other lines are skipped.
   */
  function CheckLine(line: string, mtime: int, parseDate: string -> Result<int, string>): Check
  {
    if !StartsWith(line, IMS_PREFIX) then Pass
    else match SplitOnce(line, ": ")
      case None => Raises(IndexOutOfRange)
      case Some((_, value)) =>
        match parseDate(value)
        case Err(message) => Raises(Raised(message))
        case Ok(clientTime) => if mtime <= clientTime then NotModifiedSince else Pass
  }

  /** Every line passes the check. */
  predicate AllPass(lines: seq<string>, mtime: int, parseDate: string -> Result<int, string>)
  {
    forall k :: 0 <= k < |lines| ==> CheckLine(lines[k], mtime, parseDate) == Pass
  }

  /** Line `k` gives `c`, and every line before it passes. */
  predicate DecidedAt(lines: seq<string>, k: int, c: Check, mtime: int, parseDate: string -> Result<int, string>)
  {
    && 0 <= k < |lines| && CheckLine(lines[k], mtime, parseDate) == c
    && forall j :: 0 <= j < k ==> CheckLine(lines[j], mtime, parseDate) == Pass
  }

  /** The header loop of `handleRequest`: the first line whose check is not Pass decides. */
  function ConditionalGet(lines: seq<string>, mtime: int, parseDate: string -> Result<int, string>): (c: Check)
    ensures c == Pass <==> AllPass(lines, mtime, parseDate)
    ensures c != Pass ==> exists k :: DecidedAt(lines, k, c, mtime, parseDate)
    decreases |lines|
  {
    if |lines| == 0 then Pass
    else
      var first := CheckLine(lines[0], mtime, parseDate);
      if first != Pass then
        assert DecidedAt(lines, 0, first, mtime, parseDate);
        first
      else
        var c := ConditionalGet(lines[1..], mtime, parseDate);
        ConditionalGetCons(lines, c, mtime, parseDate);
        c
  }

  /** A passing first line leaves the decision to the lines after it. */
  lemma ConditionalGetCons(lines: seq<string>, c: Check, mtime: int, parseDate: string -> Result<int, string>)
    requires |lines| > 0 && CheckLine(lines[0], mtime, parseDate) == Pass
    requires c == Pass <==> AllPass(lines[1..], mtime, parseDate)
    requires c != Pass ==> exists k :: DecidedAt(lines[1..], k, c, mtime, parseDate)
    ensures c == Pass <==> AllPass(lines, mtime, parseDate)
    ensures c != Pass ==> exists k :: DecidedAt(lines, k, c, mtime, parseDate)
  {
    assert forall k :: 1 <= k < |lines| ==> lines[k] == lines[1..][k - 1];
    if c != Pass {
      var k :| DecidedAt(lines[1..], k, c, mtime, parseDate);
      assert DecidedAt(lines, k + 1, c, mtime, parseDate);
    }
  }

  /** An If-Modified-Since line that `handle304` can read: it has ": " and a date that parses. */
  predicate ReadableIms(line: string, parseDate: string -> Result<int, string>)
  {
    StartsWith(line, IMS_PREFIX) ==>
      SplitOnce(line, ": ").Some? && parseDate(SplitOnce(line, ": ").value.1).Ok?
  }

  /** Every If-Modified-Since line among `lines` can be read. */
  predicate AllReadable(lines: seq<string>, parseDate: string -> Result<int, string>)
  {
    forall k :: 0 <= k < |lines| ==> ReadableIms(lines[k], parseDate)
  }

  /** A readable If-Modified-Since line whose date is no earlier than the mtime. */
  predicate NotModifiedBy(line: string, mtime: int, parseDate: string -> Result<int, string>)
  {
    && StartsWith(line, IMS_PREFIX)
    && SplitOnce(line, ": ").Some?
    && parseDate(SplitOnce(line, ": ").value.1).Ok?
    && mtime <= parseDate(SplitOnce(line, ": ").value.1).value
  }

  /** Some line is a readable If-Modified-Since line whose date is no earlier than the mtime. */
  predicate AnyNotModified(lines: seq<string>, mtime: int, parseDate: string -> Result<int, string>)
  {
    exists k :: 0 <= k < |lines| && NotModifiedBy(lines[k], mtime, parseDate)
  }

  /**
   * When every If-Modified-Since line can be read, the conditional GET never
   * fails, and it answers "not modified" exactly when some such line carries a
   * date no earlier than the file's mtime.
   */
  lemma NotModifiedIff(lines: seq<string>, mtime: int, parseDate: string -> Result<int, string>)
    requires AllReadable(lines, parseDate)
    ensures !ConditionalGet(lines, mtime, parseDate).Raises?
    ensures ConditionalGet(lines, mtime, parseDate) == NotModifiedSince <==> AnyNotModified(lines, mtime, parseDate)
  {
  }

  /** `handle200`: the whole file as the body, or the error `read` raises. */
  function Handle200(entry: FileEntry): (r: Result<Reply, PyError>)
    ensures r.Ok? <==> entry.contents.Ok?
    ensures r.Ok? ==> r.value == Reply(OK, entry.contents.value)
    ensures entry.contents.Err? ==> r == Err(Raised(entry.contents.error))
  {
    match entry.contents
    case Ok(text) => Ok(Reply(OK, text))
    case Err(message) => Err(Raised(message))
  }

  /** The body of `handleRequest`'s try block, with an exception as Err. */
  function Decide(request: string, files: Files, parseDate: string -> Result<int, string>): Result<Reply, PyError>
  {
    var lines := Split(request, CRLF);
    var words := Words(lines[0]);
    if |words| != 3 then Err(UnpackError(3, |words|))
    else
      var path := words[1];
      if words[2] != VERSION then Ok(Reply(VersionNotSupported, ""))
      else
        var fileName := FileNameOf(path);
        if fileName == PRIVATE_FILE then Ok(Reply(Forbidden, BODY_403))
        else if fileName !in files then Ok(Reply(NotFound, BODY_404))
        else
          var entry := files[fileName];
          match ConditionalGet(lines[1..], entry.mtime, parseDate)
          case NotModifiedSince => Ok(Reply(NotModified, ""))
          case Raises(e) => Err(e)
          case Pass => Handle200(entry)
  }

  /** `handleRequest`: the decision, with any exception turned into a 500 by `handle500`. */
  function HandleRequest(request: string, files: Files, parseDate: string -> Result<int, string>): (r: Reply)
    // A request line without exactly three words is a 500 carrying the unpacking error.
    ensures var words := Words(FirstLine(request));
            |words| != 3 ==> r == Reply(InternalServerError, ErrorPage(UnpackError(3, |words|)))
    // Otherwise any version but HTTP/1.1 is a 505 with no body, before any file is looked at.
    ensures var words := Words(FirstLine(request));
            |words| == 3 && words[2] != VERSION ==> r == Reply(VersionNotSupported, "")
    // The private file is refused whether or not it exists; a missing file is a 404.
    ensures var words := Words(FirstLine(request));
            |words| == 3 && words[2] == VERSION ==>
              && (FileNameOf(words[1]) == PRIVATE_FILE ==> r == Reply(Forbidden, BODY_403))
              && (FileNameOf(words[1]) != PRIVATE_FILE && FileNameOf(words[1]) !in files ==> r == Reply(NotFound, BODY_404))
    // An existing file: 304 when the conditional GET says so, its error as a 500 when it fails,
    // and otherwise the whole file with 200, or a 500 when the file cannot be read.
    ensures var words := Words(FirstLine(request));
            var lines := Split(request, CRLF);
            |words| == 3 && words[2] == VERSION && FileNameOf(words[1]) != PRIVATE_FILE && FileNameOf(words[1]) in files ==>
              var entry := files[FileNameOf(words[1])];
              match ConditionalGet(lines[1..], entry.mtime, parseDate)
              case NotModifiedSince => r == Reply(NotModified, "")
              case Raises(e) => r == Reply(InternalServerError, ErrorPage(e))
              case Pass =>
                && (entry.contents.Ok? ==> r == Reply(OK, entry.contents.value))
                && (entry.contents.Err? ==> r == Reply(InternalServerError, ErrorPage(Raised(entry.contents.error))))
    // A 200 always carries exactly the contents of the named file.
    ensures r.status == OK ==>
              exists name :: name in files && files[name].contents == Ok(r.body)
  {
    match Decide(request, files, parseDate)
    case Ok(reply) => reply
    case Err(e) => Reply(InternalServerError, ErrorPage(e))
  }

  /**
   * For an existing, public file whose If-Modified-Since lines can all be
   * read, the answer is 304 exactly when one of them carries a date no
   * earlier than the file's mtime, and otherwise the whole file with 200
   * (or a 500 when it cannot be read).
   */
  lemma ConditionalRequest(request: string, files: Files, parseDate: string -> Result<int, string>)
    requires var words := Words(FirstLine(request));
             |words| == 3 && words[2] == VERSION && FileNameOf(words[1]) != PRIVATE_FILE && FileNameOf(words[1]) in files
    requires AllReadable(Split(request, CRLF)[1..], parseDate)
    ensures var headers := Split(request, CRLF)[1..];
            var entry := files[FileNameOf(Words(FirstLine(request))[1])];
            var r := HandleRequest(request, files, parseDate);
            && (r.status == NotModified <==> AnyNotModified(headers, entry.mtime, parseDate))
            && (r.status != NotModified && entry.contents.Ok? ==> r == Reply(OK, entry.contents.value))
            && (r.status != NotModified && entry.contents.Err? ==>
                  r == Reply(InternalServerError, ErrorPage(Raised(entry.contents.error))))
  {
    var headers := Split(request, CRLF)[1..];
    var entry := files[FileNameOf(Words(FirstLine(request))[1])];
    var c := ConditionalGet(headers, entry.mtime, parseDate);
    NotModifiedIff(headers, entry.mtime, parseDate);
    ConditionalReply(c, entry, HandleRequest(request, files, parseDate));
  }

  /** The reply the conditional GET's outcome selects, read back from its status. */
  lemma ConditionalReply(c: Check, entry: FileEntry, r: Reply)
    requires !c.Raises?
    requires match c
             case NotModifiedSince => r == Reply(NotModified, "")
             case Raises(e) => r == Reply(InternalServerError, ErrorPage(e))
             case Pass =>
               && (entry.contents.Ok? ==> r == Reply(OK, entry.contents.value))
               && (entry.contents.Err? ==> r == Reply(InternalServerError, ErrorPage(Raised(entry.contents.error))))
    ensures r.status == NotModified <==> c == NotModifiedSince
    ensures r.status != NotModified && entry.contents.Ok? ==> r == Reply(OK, entry.contents.value)
    ensures r.status != NotModified && entry.contents.Err? ==>
              r == Reply(InternalServerError, ErrorPage(Raised(entry.contents.error)))
  {
  }

  /** The Content-Length `createResponse` sends: the body's length, only for a non-empty body. */
  function ContentLength(body: string): Option<nat>
  {
    if |body| > 0 then Some(|body|) else None
  }

  /** Joining one more header field adds its line and a CRLF. */
  lemma FieldLinesSnoc(fields: seq<(string, string)>, i: nat)
    requires i < |fields|
    ensures Terminated(FieldLines(fields[..i + 1]), CRLF)
            == Terminated(FieldLines(fields[..i]), CRLF) + fields[i].0 + ": " + fields[i].1 + CRLF
  {
    assert FieldLines(fields[..i + 1]) == FieldLines(fields[..i]) + [FieldLine(fields[i])];
    TerminatedSnoc(FieldLines(fields[..i]), FieldLine(fields[i]), CRLF);
  }

  /** The text `createResponse(status, body)` returns when the clock reads `date`. */
  function ResponseText(reply: Reply, date: string): string
  {
    Head(reply.status, date, ContentLength(reply.body)) + reply.body
  }

  /**
   * `createResponse`: the status line, the headers dict filled in insertion
   * order and joined line by line, the empty line, then the body.
   */
  method CreateResponse(status: Status, body: string, date: string) returns (response: string)
    ensures response == ResponseText(Reply(status, body), date)
  {
    var statusLine := VERSION + " " + NatToString(status.Code()) + " " + status.Title() + CRLF;
    var headers: seq<(string, string)> := [];
    headers := headers + [("Date", date)];
    headers := headers + [("Server", SERVER_NAME)];
    if |body| > 0 {
      headers := headers + [("Content-Length", NatToString(|body|))];
      headers := headers + [("Content-Type", "text/html")];
    }
    assert headers == HeaderFields(date, ContentLength(body));
    var headerLines := "";
    for i := 0 to |headers|
      invariant headerLines == Terminated(FieldLines(headers[..i]), CRLF)
    {
      FieldLinesSnoc(headers, i);
      headerLines := headerLines + headers[i].0 + ": " + headers[i].1 + CRLF;
    }
    assert headers[..|headers|] == headers;
    HeadText(status, date, ContentLength(body));
    response := statusLine + headerLines + CRLF + body;
  }

  /**
   * A response parses back: its head ends at the first empty line, the body
   * after it is exactly the one given, and the head lines are the status line,
   * Date, Server and, for a non-empty body, a Content-Length naming its length.
   */
  lemma ResponseParses(reply: Reply, date: string)
    requires '\r' !in date
    ensures var lines := HeadLines(reply.status, date, ContentLength(reply.body));
            && SplitOnce(ResponseText(reply, date), BLANK_LINE) == Some((Join(lines, CRLF), reply.body))
            && Split(Join(lines, CRLF), CRLF) == lines
            && lines[0] == VERSION + " " + NatToString(reply.status.Code()) + " " + reply.status.Title()
            && (|reply.body| > 0 ==> |lines| == 5 && lines[3] == "Content-Length: " + NatToString(|reply.body|))
            && (|reply.body| == 0 ==> |lines| == 3)
  {
    HeadParses(reply.status, date, ContentLength(reply.body), reply.body);
    HeadLinesShape(reply.status, date, ContentLength(reply.body));
  }
}
