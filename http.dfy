/**
 * What server.py and proxy.py share: the protocol constants, the STATUS table,
 * the head that `createResponse` writes, the path-to-file mapping and the text
 * of the Python exceptions both programs turn into 500 responses.
 */
module Http {
  import opened Wrappers
  import opened Seqs
  import opened Chars

  const CRLF: string := "\r\n"
  /** The empty line that ends a request head (section 2.1 of RFC 9112). */
  const BLANK_LINE: string := "\r\n\r\n"
  const VERSION: string := "HTTP/1.1"
  const DEFAULT_FILE: string := "test.html"
  const PRIVATE_FILE: string := "private.html"
  const SERVER_NAME: string := "TestServer/1.0"

  /** The status codes of the STATUS table. */
  datatype Status = OK | NotModified | Forbidden | NotFound | InternalServerError | VersionNotSupported
  {
    function Code(): nat
    {
      match this
      case OK => 200
      case NotModified => 304
      case Forbidden => 403
      case NotFound => 404
      case InternalServerError => 500
      case VersionNotSupported => 505
    }

    function Title(): string
    {
      match this
      case OK => "OK"
      case NotModified => "Not Modified"
      case Forbidden => "Forbidden"
      case NotFound => "Not Found"
      case InternalServerError => "Internal Server Error"
      case VersionNotSupported => "HTTP Version Not Supported"
    }
  }

  const BODY_403: string := "<h1>403 Forbidden</h1>"
  const BODY_404: string := "<h1>404 Not Found</h1>"
  const BODY_500: string := "<h1>500 Internal Server Error</h1>"
  const BODY_505: string := "<h1>505 HTTP Version Not Supported</h1>"

  /** The exceptions the request handlers catch, and `str(e)` for each. */
  datatype PyError =
    | UnpackError(expected: nat, got: nat)   // ValueError from `a, b, c = xs`
    | IndexOutOfRange                        // IndexError from `xs[1]`
    | InvalidIntLiteral(literal: string)     // ValueError from `int(s)`
    | UndecodableBytes                       // UnicodeDecodeError from `bytes.decode()`
    | MissingLockArgument(callee: string)    // TypeError from a call without `lock`
    | Raised(message: string)                // an error raised by I/O, the clock or strptime
  {
    /** `str(e)`, in CPython 3.12's wording. */
    function Message(): string
    {
      match this
      case UnpackError(expected, got) =>
        if got < expected then
          "not enough values to unpack (expected " + NatToString(expected) + ", got " + NatToString(got) + ")"
        else "too many values to unpack (expected " + NatToString(expected) + ")"
      case IndexOutOfRange => "list index out of range"
      case InvalidIntLiteral(literal) => "invalid literal for int() with base 10: '" + literal + "'"
      case UndecodableBytes => "'utf-8' codec can't decode bytes"
      case MissingLockArgument(callee) => callee + "() missing 1 required positional argument: 'lock'"
      case Raised(message) => message
    }
  }

  /** The body `handle500` sends: the 500 page with the error text in a paragraph. */
  function ErrorPage(e: PyError): (page: string)
    ensures |BODY_500| <= |page| && page[..|BODY_500|] == BODY_500
    ensures page[|BODY_500|..] == "<p>" + e.Message() + "</p>"
  {
    BODY_500 + "<p>" + e.Message() + "</p>"
  }

  /**
   * The file a request path names: the default file for "/" (and ""), otherwise
   * the path with every leading "/" removed.
   */
  function FileNameOf(path: string): (name: string)
    ensures path == "/" || path == "" ==> name == DEFAULT_FILE
    ensures path != "/" && path != "" ==>
              |name| <= |path| && name == path[|path| - |name|..] && forall i :: 0 <= i < |path| - |name| ==> path[i] == '/'
    ensures |name| > 0 ==> name[0] != '/'
  {
    LStrip(if path == "/" || path == "" then DEFAULT_FILE else path, '/')
  }

  /** The first line of a request: everything before its first CRLF. */
  function FirstLine(request: string): string
  {
    Split(request, CRLF)[0]
  }

  /** The lines after the first, joined again: the text after the first CRLF, or nothing. */
  lemma RestAfterFirstLine(request: string)
    ensures var lines := Split(request, CRLF);
            && (Contains(request, CRLF) ==> request == lines[0] + CRLF + Join(lines[1..], CRLF))
            && (!Contains(request, CRLF) ==> lines == [request])
  {
    match SplitOnce(request, CRLF)
    case None =>
    case Some((first, rest)) =>
      JoinSplit(rest, CRLF);
      assert Split(request, CRLF)[1..] == Split(rest, CRLF);
  }

  function StatusLine(status: Status): string
  {
    VERSION + " " + NatToString(status.Code()) + " " + status.Title()
  }

  /**
   * The header fields `createResponse` puts in its dict, in insertion order:
   * Date and Server always, Content-Length and Content-Type only for a body.
   */
  function HeaderFields(date: string, contentLength: Option<nat>): seq<(string, string)>
  {
    [("Date", date), ("Server", SERVER_NAME)]
    + if contentLength.Some? then
        [("Content-Length", NatToString(contentLength.value)), ("Content-Type", "text/html")]
      else []
  }

  function FieldLine(field: (string, string)): string
  {
    field.0 + ": " + field.1
  }

  function FieldLines(fields: seq<(string, string)>): (lines: seq<string>)
    ensures |lines| == |fields|
    ensures forall i :: 0 <= i < |fields| ==> lines[i] == FieldLine(fields[i])
  {
    seq(|fields|, i requires 0 <= i < |fields| => FieldLine(fields[i]))
  }

  /** The lines of a response head: the status line, then one line per header field. */
  function HeadLines(status: Status, date: string, contentLength: Option<nat>): seq<string>
  {
    [StatusLine(status)] + FieldLines(HeaderFields(date, contentLength))
  }

  /** A response head: every line ended by CRLF, then the empty line. */
  function Head(status: Status, date: string, contentLength: Option<nat>): string
  {
    Terminated(HeadLines(status, date, contentLength), CRLF) + CRLF
  }

  /** A head's text: the status line and CRLF, then each field line and CRLF. */
  lemma HeadText(status: Status, date: string, contentLength: Option<nat>)
    ensures Terminated(HeadLines(status, date, contentLength), CRLF)
            == StatusLine(status) + CRLF + Terminated(FieldLines(HeaderFields(date, contentLength)), CRLF)
  {
    assert HeadLines(status, date, contentLength)[1..] == FieldLines(HeaderFields(date, contentLength));
  }

  /** The head lines: the status line, Date, Server, and Content-Length and Content-Type only for a body. */
  lemma HeadLinesShape(status: Status, date: string, contentLength: Option<nat>)
    ensures var lines := HeadLines(status, date, contentLength);
            && lines[0] == StatusLine(status)
            && lines[1] == "Date: " + date
            && lines[2] == "Server: " + SERVER_NAME
            && (contentLength.None? ==> |lines| == 3)
            && (contentLength.Some? ==>
                  |lines| == 5 && lines[3] == "Content-Length: " + NatToString(contentLength.value)
                  && lines[4] == "Content-Type: text/html")
  {
    var fields := HeaderFields(date, contentLength);
    var lines := HeadLines(status, date, contentLength);
    assert lines[1..] == FieldLines(fields);
    assert fields[0] == ("Date", date) && fields[1] == ("Server", SERVER_NAME);
    assert lines[1] == "Date" + ": " + date;
    assert "Date" + ": " == "Date: ";
    assert lines[2] == "Server" + ": " + SERVER_NAME;
    assert "Server" + ": " == "Server: ";
    if contentLength.Some? {
      assert fields[2] == ("Content-Length", NatToString(contentLength.value));
      assert fields[3] == ("Content-Type", "text/html");
      assert lines[3] == "Content-Length" + ": " + NatToString(contentLength.value);
      assert "Content-Length" + ": " == "Content-Length: ";
      assert lines[4] == "Content-Type" + ": " + "text/html";
      assert "Content-Type" + ": " + "text/html" == "Content-Type: text/html";
    }
  }

  lemma NoCarriageReturnInDigits(s: string)
    requires AllDigits(s)
    ensures '\r' !in s
  {
  }

  lemma StatusLineWellFormed(status: Status)
    ensures |StatusLine(status)| > 0 && '\r' !in StatusLine(status)
  {
    var title := status.Title();
    NoCarriageReturnInDigits(NatToString(status.Code()));
    assert '\r' !in title by {
      match status
      case OK =>
      case NotModified =>
      case Forbidden =>
      case NotFound =>
      case InternalServerError =>
      case VersionNotSupported =>
    }
    assert '\r' !in VERSION + " ";
  }

  /** Every header field has a non-empty name and no CR, as long as the date has none. */
  lemma FieldsWellFormed(date: string, contentLength: Option<nat>)
    requires '\r' !in date
    ensures var fields := HeaderFields(date, contentLength);
            forall i :: 0 <= i < |fields| ==> |fields[i].0| > 0 && '\r' !in fields[i].0 && '\r' !in fields[i].1
  {
    if contentLength.Some? {
      NoCarriageReturnInDigits(NatToString(contentLength.value));
    }
  }

  /** Every head line is non-empty and free of CR, as long as the date is. */
  lemma HeadLinesWellFormed(status: Status, date: string, contentLength: Option<nat>)
    requires '\r' !in date
    ensures var lines := HeadLines(status, date, contentLength);
            |lines| > 0 && forall i :: 0 <= i < |lines| ==> |lines[i]| > 0 && '\r' !in lines[i]
  {
    var fields := HeaderFields(date, contentLength);
    var lines := HeadLines(status, date, contentLength);
    StatusLineWellFormed(status);
    FieldsWellFormed(date, contentLength);
    forall i | 1 <= i < |lines|
      ensures |lines[i]| > 0 && '\r' !in lines[i]
    {
      var f := fields[i - 1];
      assert lines[i] == f.0 + ": " + f.1;
    }
  }

  /**
   * A head followed by any body parses back: splitting at the first empty
   * line gives the head lines joined by CRLF and exactly the body, and
   * splitting the head on CRLF gives the status line and the header lines.
   */
  lemma HeadParses(status: Status, date: string, contentLength: Option<nat>, body: string)
    requires '\r' !in date
    ensures var lines := HeadLines(status, date, contentLength);
            SplitOnce(Head(status, date, contentLength) + body, BLANK_LINE) == Some((Join(lines, CRLF), body))
            && Split(Join(lines, CRLF), CRLF) == lines
  {
    var lines := HeadLines(status, date, contentLength);
    HeadLinesWellFormed(status, date, contentLength);
    FirstBlankLine(lines, '\r', '\n', body);
    assert Head(status, date, contentLength) + body == Terminated(lines, CRLF) + CRLF + body;
  }
}
