/**
 * The routing core of proxy.py: `handleRequest` (proxy.py:152-191) with its
 * helpers `createResponse`, `handle200`, `handle304`, `handle505`,
 * `handle500` and `createRequest` (proxy.py:76-133).
 *
 * The exchange with the origin server (`sendRequest`) is the parameter
 * `exchange`: it takes the request text and gives the raw response bytes, or
 * the message of the error it raised. Every `formatdate` reading of the clock
 * is the parameter `date`.
 */
module Proxy {
  import opened Wrappers
  import opened Seqs
  import opened Chars
  import opened Utf8
  import opened Http
  import opened ProxyCache

  const CRLF_BYTES: Bytes := [13, 10]
  const BLANK_BYTES: Bytes := [13, 10, 13, 10]
  const COLON_SPACE: Bytes := [58, 32]
  /** `b"last-modified:"`. */
  const LAST_MODIFIED: Bytes := [108, 97, 115, 116, 45, 109, 111, 100, 105, 102, 105, 101, 100, 58]

  /** The Content-Length the proxy sends: the body's length in bytes, only for a non-empty body. */
  function ContentLength(body: Bytes): Option<nat>
  {
    if |body| > 0 then Some(|body|) else None
  }

  /** `createResponse`: the head encoded as UTF-8, then the body bytes unchanged. */
  function CreateResponse(status: Status, body: Bytes, date: string): Bytes
  {
    Encode(Head(status, date, ContentLength(body))) + body
  }

  function Handle505(date: string): Bytes
  {
    CreateResponse(VersionNotSupported, Encode(BODY_505), date)
  }

  function Handle500(e: PyError, date: string): Bytes
  {
    CreateResponse(InternalServerError, Encode(ErrorPage(e)), date)
  }

  /** `handle304`: the cached content, sent to the client as a 200. */
  function Handle304(cached: CacheEntry, date: string): Bytes
  {
    CreateResponse(OK, cached.content, date)
  }

  const IMS_FIELD: string := "If-Modified-Since: "

  /**
   * `createRequest`: the header lines joined by CRLF with a final CRLF, with
   * one If-Modified-Since line added at the end when there is a cache entry.
   */
  function CreateRequest(headers: seq<string>, cached: Option<CacheEntry>): (request: string)
    ensures cached.None? ==> request == Join(headers, CRLF) + CRLF
    ensures cached.Some? && |headers| > 0 ==>
              request == Join(headers, CRLF) + CRLF + IMS_FIELD + cached.value.lastModified + CRLF
    ensures cached.Some? && |headers| == 0 ==> request == IMS_FIELD + cached.value.lastModified + CRLF
  {
    var lines := if cached.Some? then headers + [IMS_FIELD + cached.value.lastModified] else headers;
    if cached.Some? && |headers| > 0 then
      JoinSnoc(headers, CRLF, IMS_FIELD + cached.value.lastModified);
      Join(lines, CRLF) + CRLF
    else
      Join(lines, CRLF) + CRLF
  }

  /**
   * The status code of an upstream response: the second word of its first
   * line, read as an integer, with the error each step can raise.
   */
  function StatusCodeOf(response: Bytes): (r: Result<int, PyError>)
    // bytes.decode() raises UnicodeDecodeError on a first line that is not UTF-8.
    ensures Decode(Split(response, CRLF_BYTES)[0]).None? ==> r == Err(UndecodableBytes)
    ensures Decode(Split(response, CRLF_BYTES)[0]).Some? ==>
              var words := Words(Decode(Split(response, CRLF_BYTES)[0]).value);
              // `split()[1]` raises IndexError on fewer than two words.
              && (|words| < 2 ==> r == Err(IndexOutOfRange))
              // `int()` raises ValueError on a second word that is not an integer.
              && (|words| >= 2 && ParseInt(words[1]).None? ==> r == Err(InvalidIntLiteral(words[1])))
              // Otherwise the code is the second word's value.
              && (|words| >= 2 && ParseInt(words[1]).Some? ==> r == Ok(ParseInt(words[1]).value))
  {
    match Decode(Split(response, CRLF_BYTES)[0])
    case None => Err(UndecodableBytes)
    case Some(statusLine) =>
      var words := Words(statusLine);
      if |words| < 2 then Err(IndexOutOfRange)
      else match ParseInt(words[1])
        case None => Err(InvalidIntLiteral(words[1]))
        case Some(code) => Ok(code)
  }

  /**
   * A response whose head `createResponse` wrote, followed by any bytes,
   * has its status line first, and `handleRequest` reads back its code.
   */
  lemma StatusCodeOfHead(status: Status, date: string, contentLength: Option<nat>, body: Bytes)
    ensures StatusCodeOf(Encode(Head(status, date, contentLength)) + body) == Ok(status.Code())
  {
    EncodedStatusLineFirst(status, date, contentLength, body);
    DecodeEncode(StatusLine(status));
    StatusWords(status);
  }

  /** The first CRLF-separated line of an encoded head, whatever follows it, is the encoded status line. */
  lemma EncodedStatusLineFirst(status: Status, date: string, contentLength: Option<nat>, body: Bytes)
    ensures Split(Encode(Head(status, date, contentLength)) + body, CRLF_BYTES)[0] == Encode(StatusLine(status))
  {
    var lines := EncodeLines(HeadLines(status, date, contentLength));
    EncodedHead(status, date, contentLength);
    StatusLineWellFormed(status);
    EncodeWithout(StatusLine(status), '\r');
    FirstLineOf(lines, body);
  }

  /** Lines each ended by CR LF, then CR LF and anything: the first line comes first, if it has no CR. */
  lemma FirstLineOf(lines: seq<Bytes>, body: Bytes)
    requires |lines| > 0 && 13 !in lines[0]
    ensures Split(Terminated(lines, CRLF_BYTES) + CRLF_BYTES + body, CRLF_BYTES)[0] == lines[0]
  {
    var more := Terminated(lines[1..], CRLF_BYTES);
    TerminatedCons(lines[0], lines[1..], CRLF_BYTES);
    assert [lines[0]] + lines[1..] == lines;
    var rest := more + CRLF_BYTES + body;
    assert (lines[0] + CRLF_BYTES + more) + CRLF_BYTES + body == lines[0] + CRLF_BYTES + rest;
    SplitAfter(lines[0], CRLF_BYTES, rest);
  }

  /** An encoded head is its encoded lines, each ended by CR LF, then CR LF. */
  lemma EncodedHead(status: Status, date: string, contentLength: Option<nat>)
    ensures Encode(Head(status, date, contentLength))
            == Terminated(EncodeLines(HeadLines(status, date, contentLength)), CRLF_BYTES) + CRLF_BYTES
  {
    var text := HeadLines(status, date, contentLength);
    EncodeAppend(Terminated(text, CRLF), CRLF);
    EncodeTerminated(text);
    assert Encode(CRLF) == CRLF_BYTES;
  }

  /** The second word of a status line is the code's digits, which read back as the code. */
  lemma StatusWords(status: Status)
    ensures var words := Words(StatusLine(status));
            |words| >= 2 && ParseInt(words[1]) == Some(status.Code())
  {
    var digits := NatToString(status.Code());
    assert NoSpace(VERSION);
    DigitsNoSpace(digits);
    SecondWord(VERSION, digits, status.Title());
    ParseIntToString(status.Code());
  }

  /** A header line whose lowercase form starts with `last-modified:`. */
  predicate IsLastModified(line: Bytes)
  {
    StartsWith(Lower(line), LAST_MODIFIED)
  }

  /** The index of the first Last-Modified line at or after `from`. */
  function FirstLastModifiedFrom(lines: seq<Bytes>, from: nat): (r: Option<nat>)
    requires from <= |lines|
    ensures r.Some? ==> from <= r.value < |lines| && IsLastModified(lines[r.value])
                        && forall j :: from <= j < r.value ==> !IsLastModified(lines[j])
    ensures r.None? ==> forall j :: from <= j < |lines| ==> !IsLastModified(lines[j])
    decreases |lines| - from
  {
    if from == |lines| then None
    else if IsLastModified(lines[from]) then Some(from)
    else FirstLastModifiedFrom(lines, from + 1)
  }

  function FirstLastModified(lines: seq<Bytes>): Option<nat>
  {
    FirstLastModifiedFrom(lines, 0)
  }

  /**
   * What `handle200` reads from an upstream 200 before it stores anything:
   * the Last-Modified text (the clock's date when there is none or it is
   * empty) and the body after the first empty line, or the error raised.
   */
  function Upstream200(response: Bytes, date: string): (r: Result<(string, Bytes), PyError>)
    // No empty line: unpacking the split into two names fails.
    ensures !Contains(response, BLANK_BYTES) ==> r == Err(UnpackError(2, 1))
    // The body is exactly the bytes after the first empty line.
    ensures r.Ok? ==> SplitOnce(response, BLANK_BYTES).Some? && r.value.1 == SplitOnce(response, BLANK_BYTES).value.1
    // Without a Last-Modified line the clock's date is stored.
    ensures SplitOnce(response, BLANK_BYTES).Some?
            && FirstLastModified(Split(SplitOnce(response, BLANK_BYTES).value.0, CRLF_BYTES)).None?
            ==> r == Ok((date, SplitOnce(response, BLANK_BYTES).value.1))
    // Otherwise the value after ": " on the first Last-Modified line is stored, or the date when it is
    // empty; a Last-Modified line without ": " raises IndexError.
    ensures SplitOnce(response, BLANK_BYTES).Some? ==>
              var (head, body) := SplitOnce(response, BLANK_BYTES).value;
              var lines := Split(head, CRLF_BYTES);
              FirstLastModified(lines).Some? ==>
                var line := lines[FirstLastModified(lines).value];
                && (SplitOnce(line, COLON_SPACE).None? ==> r == Err(IndexOutOfRange))
                && (SplitOnce(line, COLON_SPACE).Some? && Decode(SplitOnce(line, COLON_SPACE).value.1).None? ==>
                      r == Err(UndecodableBytes))
                && (SplitOnce(line, COLON_SPACE).Some? && Decode(SplitOnce(line, COLON_SPACE).value.1).Some? ==>
                      var text := Decode(SplitOnce(line, COLON_SPACE).value.1).value;
                      r == Ok((if text == "" then date else text, body)))
  {
    match SplitOnce(response, BLANK_BYTES)
    case None => Err(UnpackError(2, 1))
    case Some((head, body)) =>
      var lines := Split(head, CRLF_BYTES);
      match FirstLastModified(lines)
      case None => Ok((date, body))
      case Some(k) =>
        match SplitOnce(lines[k], COLON_SPACE)
        case None => Err(IndexOutOfRange)
        case Some((_, value)) =>
          match Decode(value)
          case None => Err(UndecodableBytes)
          case Some(text) => Ok((if text == "" then date else text, body))
  }

  /**
   * `handle200` as it runs: splits off the body, scans the header lines for
   * the first Last-Modified line, stores the entry and answers 200 with the
   * body. An error leaves the cache as it was.
   */
  method Handle200(cache: OriginCache, fileName: string, response: Bytes, date: string)
    returns (r: Result<Bytes, PyError>)
    modifies cache
    ensures Upstream200(response, date).Err? ==>
              r == Err(Upstream200(response, date).error) && cache.entries == old(cache.entries)
    ensures Upstream200(response, date).Ok? ==>
              var (lastModified, body) := Upstream200(response, date).value;
              && r == Ok(CreateResponse(OK, body, date))
              && cache.entries == old(cache.entries)[fileName := CacheEntry(lastModified, body)]
  {
    var split := SplitOnce(response, BLANK_BYTES);
    if split.None? {
      return Err(UnpackError(2, 1));
    }
    var headers, body := split.value.0, split.value.1;
    var lines := Split(headers, CRLF_BYTES);
    var lastModified: Option<string> := None;
    var i := 0;
    while i < |lines|
      invariant 0 <= i <= |lines|
      invariant FirstLastModified(lines) == FirstLastModifiedFrom(lines, i)
      decreases |lines| - i
    {
      if IsLastModified(lines[i]) {
        var parts := SplitOnce(lines[i], COLON_SPACE);
        if parts.None? {
          return Err(IndexOutOfRange);
        }
        var text := Decode(parts.value.1);
        if text.None? {
          return Err(UndecodableBytes);
        }
        lastModified := Some(text.value);
        break;
      }
      i := i + 1;
    }
    var stamp := if lastModified.Some? && lastModified.value != "" then lastModified.value else date;
    cache.Store(fileName, CacheEntry(stamp, body));
    r := Ok(CreateResponse(OK, body, date));
  }

  /** What `handleRequest` does before it contacts the origin server. */
  datatype Plan =
    | Answer(response: Bytes)
    | Forward(key: string, upstreamRequest: string, cached: Option<CacheEntry>)

  /**
   * The request line is checked, the upstream request is built from the
   * path as sent, and the cache key is the path mapped to a file name.
   */
  function Prepare(request: string, entries: map<string, CacheEntry>, date: string): Plan
  {
    var words := Words(FirstLine(request));
    if |words| != 3 then Answer(Handle500(UnpackError(3, |words|), date))
    else if words[2] != VERSION then Answer(Handle505(date))
    else
      var key := FileNameOf(words[1]);
      var cached := Get(entries, key);
      Forward(key, CreateRequest(["GET " + words[1] + " " + VERSION], cached), cached)
  }

  /** What the origin server's answer leads to: a reply alone, or a reply after storing an entry. */
  datatype Outcome =
    | Reply(response: Bytes)
    | StoreAndReply(entry: CacheEntry, response: Bytes)

  /** What the proxy does with the origin server's answer. */
  function Relay(cached: Option<CacheEntry>, upstream: Result<Bytes, string>, date: string): Outcome
  {
    match upstream
    case Err(message) => Reply(Handle500(Raised(message), date))
    case Ok(response) =>
      match StatusCodeOf(response)
      case Err(e) => Reply(Handle500(e, date))
      case Ok(code) =>
        if code == 200 then
          match Upstream200(response, date)
          case Err(e) => Reply(Handle500(e, date))
          case Ok(stored) => StoreAndReply(CacheEntry(stored.0, stored.1), CreateResponse(OK, stored.1, date))
        else if code == 304 && cached.Some? then Reply(Handle304(cached.value, date))
        else Reply(response)
  }

  /** `handleRequest` as a function of the cache before it: the reply and the cache after. */
  function Respond(entries: map<string, CacheEntry>, request: string,
                   exchange: string -> Result<Bytes, string>, date: string): (Bytes, map<string, CacheEntry>)
  {
    match Prepare(request, entries, date)
    case Answer(response) => (response, entries)
    case Forward(key, upstreamRequest, cached) =>
      match Relay(cached, exchange(upstreamRequest), date)
      case Reply(response) => (response, entries)
      case StoreAndReply(entry, response) => (response, entries[key := entry])
  }

  /** `handleRequest`, updating the cache in place. */
  method HandleRequest(cache: OriginCache, request: string, exchange: string -> Result<Bytes, string>, date: string)
    returns (response: Bytes)
    modifies cache
    ensures (response, cache.entries) == Respond(old(cache.entries), request, exchange, date)
  {
    var lines := Split(request, CRLF);
    var words := Words(lines[0]);
    if |words| != 3 {
      return Handle500(UnpackError(3, |words|), date);
    }
    var path, version := words[1], words[2];
    if version != VERSION {
      return Handle505(date);
    }
    var headers := ["GET " + path + " " + VERSION];
    if path == "/" || path == "" {
      path := DEFAULT_FILE;
    }
    var fileName := LStrip(path, '/');
    var cached := cache.Lookup(fileName);
    var proxyRequest := CreateRequest(headers, cached);
    assert Prepare(request, old(cache.entries), date) == Forward(fileName, proxyRequest, cached);
    var upstream := exchange(proxyRequest);
    if upstream.Err? {
      return Handle500(Raised(upstream.error), date);
    }
    var statusCode := StatusCodeOf(upstream.value);
    if statusCode.Err? {
      return Handle500(statusCode.error, date);
    }
    if statusCode.value == 200 {
      assert Relay(cached, upstream, date) == match Upstream200(upstream.value, date)
        case Err(e) => Reply(Handle500(e, date))
        case Ok(stored) => StoreAndReply(CacheEntry(stored.0, stored.1), CreateResponse(OK, stored.1, date));
      var handled := Handle200(cache, fileName, upstream.value, date);
      if handled.Err? {
        return Handle500(handled.error, date);
      }
      response := handled.value;
    } else if statusCode.value == 304 && cached.Some? {
      response := Handle304(cached.value, date);
    } else {
      response := upstream.value;
    }
  }

  /** `handleClient`: the request bytes decoded as UTF-8, then handled; a decode error is a 500. */
  method HandleClient(cache: OriginCache, data: Bytes, exchange: string -> Result<Bytes, string>, date: string)
    returns (sent: Bytes)
    modifies cache
    ensures Decode(data).None? ==> sent == Handle500(UndecodableBytes, date) && cache.entries == old(cache.entries)
    ensures Decode(data).Some? ==> (sent, cache.entries) == Respond(old(cache.entries), Decode(data).value, exchange, date)
  {
    var request := Decode(data);
    if request.None? {
      return Handle500(UndecodableBytes, date);
    }
    sent := HandleRequest(cache, request.value, exchange, date);
  }

  /** The words of a request's first line. */
  function RequestWords(request: string): seq<string>
  {
    Words(FirstLine(request))
  }

  /**
   * A request line naming another HTTP version is answered 505 with the 505
   * page, whatever the origin server would say, and the cache is untouched.
   */
  lemma VersionRejected(entries: map<string, CacheEntry>, request: string,
                        exchange: string -> Result<Bytes, string>, date: string)
    requires |RequestWords(request)| == 3 && RequestWords(request)[2] != VERSION
    ensures Prepare(request, entries, date).Answer?
    ensures Respond(entries, request, exchange, date) == (CreateResponse(VersionNotSupported, Encode(BODY_505), date), entries)
  {
  }

  /**
   * For a well-formed HTTP/1.1 request line the origin server is sent
   * `GET <path> HTTP/1.1` with the path as the client wrote it, plus one
   * If-Modified-Since line carrying the stored date when the mapped file
   * name is cached.
   */
  lemma UpstreamRequestShape(request: string, entries: map<string, CacheEntry>, date: string)
    requires |RequestWords(request)| == 3 && RequestWords(request)[2] == VERSION
    ensures var path := RequestWords(request)[1];
            var plan := Prepare(request, entries, date);
            && plan.Forward?
            && plan.key == FileNameOf(path)
            && plan.cached == Get(entries, plan.key)
            && (plan.key !in entries ==> plan.upstreamRequest == "GET " + path + " " + VERSION + CRLF)
            && (plan.key in entries ==>
                  plan.upstreamRequest
                  == "GET " + path + " " + VERSION + CRLF + IMS_FIELD + entries[plan.key].lastModified + CRLF)
  {
    var path := RequestWords(request)[1];
    assert Join(["GET " + path + " " + VERSION], CRLF) == "GET " + path + " " + VERSION;
  }

  /**
   * An upstream 200 that `handle200` can read is stored under the key, with
   * its Last-Modified text and the bytes after the first empty line, and the
   * client gets a 200 carrying exactly those bytes.
   */
  lemma FreshContentStored(entries: map<string, CacheEntry>, request: string,
                           exchange: string -> Result<Bytes, string>, date: string)
    requires Prepare(request, entries, date).Forward?
    requires exchange(Prepare(request, entries, date).upstreamRequest).Ok?
    requires StatusCodeOf(exchange(Prepare(request, entries, date).upstreamRequest).value) == Ok(200)
    requires Upstream200(exchange(Prepare(request, entries, date).upstreamRequest).value, date).Ok?
    ensures var plan := Prepare(request, entries, date);
            var upstream := exchange(plan.upstreamRequest).value;
            var (lastModified, body) := Upstream200(upstream, date).value;
            && body == SplitOnce(upstream, BLANK_BYTES).value.1
            && Respond(entries, request, exchange, date)
               == (CreateResponse(OK, body, date), entries[plan.key := CacheEntry(lastModified, body)])
  {
  }

  /** An upstream 304 for a cached file is answered 200 with the cached content, and the cache is untouched. */
  lemma NotModifiedServedFromCache(entries: map<string, CacheEntry>, request: string,
                                   exchange: string -> Result<Bytes, string>, date: string)
    requires Prepare(request, entries, date).Forward?
    requires Prepare(request, entries, date).key in entries
    requires exchange(Prepare(request, entries, date).upstreamRequest).Ok?
    requires StatusCodeOf(exchange(Prepare(request, entries, date).upstreamRequest).value) == Ok(304)
    ensures Respond(entries, request, exchange, date)
            == (CreateResponse(OK, entries[Prepare(request, entries, date).key].content, date), entries)
  {
    var plan := Prepare(request, entries, date);
    PlanCached(request, entries, date);
    var upstream := exchange(plan.upstreamRequest);
    assert plan.cached == Some(entries[plan.key]);
    assert Relay(plan.cached, upstream, date) == Reply(Handle304(entries[plan.key], date));
  }

  /**
   * Any other status, a 304 for a file that is not cached included, is
   * passed to the client byte for byte, and the cache is untouched.
   */
  lemma OtherStatusRelayed(entries: map<string, CacheEntry>, request: string,
                           exchange: string -> Result<Bytes, string>, date: string)
    requires Prepare(request, entries, date).Forward?
    requires exchange(Prepare(request, entries, date).upstreamRequest).Ok?
    requires StatusCodeOf(exchange(Prepare(request, entries, date).upstreamRequest).value).Ok?
    requires var code := StatusCodeOf(exchange(Prepare(request, entries, date).upstreamRequest).value).value;
             code != 200 && !(code == 304 && Prepare(request, entries, date).key in entries)
    ensures Respond(entries, request, exchange, date)
            == (exchange(Prepare(request, entries, date).upstreamRequest).value, entries)
  {
  }

  /**
   * Every error on the way is answered with the 500 page carrying the error's
   * text, and none of them changes the cache: a request line without three
   * words, a failed exchange, an unreadable status code, an unreadable 200.
   */
  lemma FailuresAnswer500(entries: map<string, CacheEntry>, request: string,
                          exchange: string -> Result<Bytes, string>, date: string)
    ensures |RequestWords(request)| != 3 ==>
              Respond(entries, request, exchange, date)
              == (Handle500(UnpackError(3, |RequestWords(request)|), date), entries)
    ensures var plan := Prepare(request, entries, date);
            plan.Forward? && exchange(plan.upstreamRequest).Err? ==>
              Respond(entries, request, exchange, date)
              == (Handle500(Raised(exchange(plan.upstreamRequest).error), date), entries)
    ensures var plan := Prepare(request, entries, date);
            plan.Forward? && exchange(plan.upstreamRequest).Ok? && StatusCodeOf(exchange(plan.upstreamRequest).value).Err? ==>
              Respond(entries, request, exchange, date)
              == (Handle500(StatusCodeOf(exchange(plan.upstreamRequest).value).error, date), entries)
    ensures var plan := Prepare(request, entries, date);
            && plan.Forward? && exchange(plan.upstreamRequest).Ok?
            && StatusCodeOf(exchange(plan.upstreamRequest).value) == Ok(200)
            && Upstream200(exchange(plan.upstreamRequest).value, date).Err? ==>
              Respond(entries, request, exchange, date)
              == (Handle500(Upstream200(exchange(plan.upstreamRequest).value, date).error, date), entries)
  {
  }

  /** A request changes at most one cache entry: the one under its own key. */
  lemma OnlyKeyChanges(entries: map<string, CacheEntry>, request: string,
                       exchange: string -> Result<Bytes, string>, date: string)
    ensures var plan := Prepare(request, entries, date);
            var after := Respond(entries, request, exchange, date).1;
            forall name :: (plan.Answer? || name != plan.key) ==> Get(after, name) == Get(entries, name)
  {
  }

  /** A forwarded request carries the cache entry under its key, if any. */
  lemma PlanCached(request: string, entries: map<string, CacheEntry>, date: string)
    requires Prepare(request, entries, date).Forward?
    ensures Prepare(request, entries, date).cached == Get(entries, Prepare(request, entries, date).key)
  {
  }

  /**
   * Once a fetch has stored a file, the next request for the same path asks
   * the origin server conditionally, with the Last-Modified text stored.
   */
  lemma ConditionalAfterFetch(entries: map<string, CacheEntry>, request: string,
                              exchange: string -> Result<Bytes, string>, date: string,
                              next: string, nextDate: string)
    requires Prepare(request, entries, date).Forward?
    requires exchange(Prepare(request, entries, date).upstreamRequest).Ok?
    requires StatusCodeOf(exchange(Prepare(request, entries, date).upstreamRequest).value) == Ok(200)
    requires Upstream200(exchange(Prepare(request, entries, date).upstreamRequest).value, date).Ok?
    requires RequestWords(next) == RequestWords(request)
    ensures var after := Respond(entries, request, exchange, date).1;
            var path := RequestWords(request)[1];
            var stored := Upstream200(exchange(Prepare(request, entries, date).upstreamRequest).value, date).value.0;
            Prepare(next, after, nextDate).upstreamRequest
            == "GET " + path + " " + VERSION + CRLF + IMS_FIELD + stored + CRLF
  {
    var plan := Prepare(request, entries, date);
    var after := Respond(entries, request, exchange, date).1;
    FreshContentStored(entries, request, exchange, date);
    UpstreamRequestShape(next, after, nextDate);
  }

  /** Each line encoded as UTF-8. */
  function EncodeLines(lines: seq<string>): (encoded: seq<Bytes>)
    ensures |encoded| == |lines|
    ensures forall i :: 0 <= i < |lines| ==> encoded[i] == Encode(lines[i])
  {
    seq(|lines|, i requires 0 <= i < |lines| => Encode(lines[i]))
  }

  /** Encoding CRLF-terminated lines gives the encoded lines, each ended by the bytes CR LF. */
  lemma {:induction false} EncodeTerminated(lines: seq<string>)
    ensures Encode(Terminated(lines, CRLF)) == Terminated(EncodeLines(lines), CRLF_BYTES)
    decreases |lines|
  {
    if |lines| > 0 {
      EncodeTerminated(lines[1..]);
      EncodeAppend(lines[0] + CRLF, Terminated(lines[1..], CRLF));
      EncodeAppend(lines[0], CRLF);
      assert Encode(CRLF) == CRLF_BYTES;
      assert EncodeLines(lines)[1..] == EncodeLines(lines[1..]);
    }
  }

  /** A non-empty text starting with an ASCII character encodes to bytes starting with that character's code. */
  lemma EncodeFirstAscii(s: string)
    requires |s| > 0 && s[0] as int < 0x80
    ensures |Encode(s)| > 0 && Encode(s)[0] as int == s[0] as int
  {
  }

  /** Encoded lines that are non-empty and free of CR as text are non-empty and free of the byte 13. */
  lemma EncodedLinesWellFormed(lines: seq<string>)
    requires forall i :: 0 <= i < |lines| ==> |lines[i]| > 0 && '\r' !in lines[i]
    ensures forall i :: 0 <= i < |lines| ==> |EncodeLines(lines)[i]| > 0 && 13 !in EncodeLines(lines)[i]
  {
    forall i | 0 <= i < |lines|
      ensures |EncodeLines(lines)[i]| > 0 && 13 !in EncodeLines(lines)[i]
    {
      EncodeWithout(lines[i], '\r');
      assert |EncodeChar(lines[i][0])| > 0;
    }
  }

  /**
   * A head as `createResponse` encodes it, followed by any bytes, parses
   * back: the first empty line is the head's own, the bytes after it are
   * exactly the body, and the head splits into its encoded lines.
   */
  lemma EncodedHeadParses(status: Status, date: string, contentLength: Option<nat>, body: Bytes)
    requires '\r' !in date
    ensures var lines := EncodeLines(HeadLines(status, date, contentLength));
            && SplitOnce(Encode(Head(status, date, contentLength)) + body, BLANK_BYTES)
               == Some((Join(lines, CRLF_BYTES), body))
            && Split(Join(lines, CRLF_BYTES), CRLF_BYTES) == lines
  {
    var text := HeadLines(status, date, contentLength);
    var lines := EncodeLines(text);
    HeadLinesWellFormed(status, date, contentLength);
    EncodedLinesWellFormed(text);
    EncodedHead(status, date, contentLength);
    FirstBlankLine(lines, 13 as byte, 10 as byte, body);
  }

  /**
   * The client receives every proxy response as its encoded head lines, the
   * empty line and the body byte for byte; the head lines are the status
   * line, Date, Server and, for a non-empty body, a Content-Length giving
   * its length in bytes and the Content-Type.
   */
  lemma ProxyResponseParses(status: Status, body: Bytes, date: string)
    requires '\r' !in date
    ensures var lines := HeadLines(status, date, ContentLength(body));
            && SplitOnce(CreateResponse(status, body, date), BLANK_BYTES).Some?
            && SplitOnce(CreateResponse(status, body, date), BLANK_BYTES).value.1 == body
            && Split(SplitOnce(CreateResponse(status, body, date), BLANK_BYTES).value.0, CRLF_BYTES) == EncodeLines(lines)
            && lines[0] == StatusLine(status)
            && (|body| > 0 ==>
                  |lines| == 5 && lines[3] == "Content-Length: " + NatToString(|body|)
                  && lines[4] == "Content-Type: text/html")
            && (|body| == 0 ==> |lines| == 3)
  {
    EncodedHeadParses(status, date, ContentLength(body), body);
    HeadLinesShape(status, date, ContentLength(body));
  }

  /**
   * A response whose head was written by `createResponse` (the origin
   * server's head has the same lines) carries no Last-Modified line, so a
   * 200 of that shape is stored with the proxy's own date and its body.
   */
  lemma HeadWithoutLastModified(status: Status, date: string, contentLength: Option<nat>, body: Bytes, now: string)
    requires '\r' !in date
    ensures Upstream200(Encode(Head(status, date, contentLength)) + body, now) == Ok((now, body))
  {
    var text := HeadLines(status, date, contentLength);
    EncodedHeadParses(status, date, contentLength, body);
    HeadLineInitials(status, date, contentLength);
    NoLastModifiedLine(text);
  }

  /**
   * How the proxy treats a response whose head `createResponse` wrote: a 200
   * is stored with the proxy's own date and its body and answered 200 with
   * that body; a 304 for a cached file is answered from the cache; any other
   * status is passed on byte for byte.
   */
  lemma RelayServerResponse(cached: Option<CacheEntry>, status: Status, date: string,
                            contentLength: Option<nat>, body: Bytes, now: string)
    requires '\r' !in date
    ensures var response := Encode(Head(status, date, contentLength)) + body;
            && (status == OK ==>
                  Relay(cached, Ok(response), now) == StoreAndReply(CacheEntry(now, body), CreateResponse(OK, body, now)))
            && (status == NotModified && cached.Some? ==>
                  Relay(cached, Ok(response), now) == Reply(Handle304(cached.value, now)))
            && (status != OK && !(status == NotModified && cached.Some?) ==>
                  Relay(cached, Ok(response), now) == Reply(response))
  {
    var response := Encode(Head(status, date, contentLength)) + body;
    StatusCodeOfHead(status, date, contentLength, body);
    assert StatusCodeOf(response) == Ok(status.Code());
    if status == OK {
      HeadWithoutLastModified(status, date, contentLength, body, now);
      assert Upstream200(response, now) == Ok((now, body));
    } else {
      assert status.Code() != 200;
    }
  }

  /** Every head line starts with H (the status line), D, S or C (the header names). */
  lemma HeadLineInitials(status: Status, date: string, contentLength: Option<nat>)
    ensures var text := HeadLines(status, date, contentLength);
            forall i :: 0 <= i < |text| ==> |text[i]| > 0 && text[i][0] in "HDSC"
  {
    HeadLinesShape(status, date, contentLength);
  }

  /** Lines starting with H, D, S or C are never Last-Modified lines, in any letter case. */
  lemma NoLastModifiedLine(text: seq<string>)
    requires forall i :: 0 <= i < |text| ==> |text[i]| > 0 && text[i][0] in "HDSC"
    ensures FirstLastModified(EncodeLines(text)).None?
  {
    var lines := EncodeLines(text);
    forall i | 0 <= i < |lines|
      ensures !IsLastModified(lines[i])
    {
      EncodeFirstAscii(text[i]);
      assert Lower(lines[i])[0] != LAST_MODIFIED[0];
    }
  }
}
