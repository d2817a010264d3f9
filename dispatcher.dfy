/**
 * The connection side of server.py: `handleClient` (server.py:270-297), which
 * peels complete requests off a text buffer at each empty line, and
 * `handleRequestThread` (server.py:245-267), which answers one request either
 * framed or as plain text.
 *
 * The bytes `conn.recv` returns are the input sequence `received`; each
 * request would be answered on a thread of its own, and here the answer of one
 * request is the sequence of texts it passes to `sendall`.
 */
module Dispatcher {
  import opened Wrappers
  import opened Seqs
  import opened Utf8
  import opened Http
  import opened StreamHeader
  import opened Framing
  import opened ServerHandler

  /**
   * Every complete request in `s`, in order, and what is left after the last
   * empty line: what repeated `buffer.split("\r\n\r\n", 1)` produces.
   */
  function SplitAll(s: string): (seq<string>, string)
    decreases |s|
  {
    var split := SplitOnce(s, BLANK_LINE);
    if split.None? then ([], s)
    else
      var request, rest := split.value.0, split.value.1;
      SplitAllStep(s, request, rest);
      var r := SplitAll(rest);
      ([request] + r.0, r.1)
  }

  /**
   * The leftover holds no empty line, and neither does any request; the
   * requests, each followed by the empty line, then the leftover, give back
   * the input.
   */
  lemma {:induction false} SplitAllSound(s: string)
    ensures var r := SplitAll(s);
            && !Contains(r.1, BLANK_LINE)
            && (forall k :: 0 <= k < |r.0| ==> !Contains(r.0[k], BLANK_LINE))
            && Terminated(r.0, BLANK_LINE) + r.1 == s
    decreases |s|
  {
    var split := SplitOnce(s, BLANK_LINE);
    if split.Some? {
      var request, rest := split.value.0, split.value.1;
      SplitAllStep(s, request, rest);
      SplitAllSound(rest);
      SplitAllCons(s, request, rest);
      var r := SplitAll(rest);
      Reassembled(request, BLANK_LINE, rest, r.0, r.1);
    } else {
      SplitAllNone(s);
    }
  }

  /** A request split off at the first empty line holds none itself, and what follows it is shorter. */
  lemma SplitAllStep(s: string, request: string, rest: string)
    requires SplitOnce(s, BLANK_LINE) == Some((request, rest))
    ensures !Contains(request, BLANK_LINE) && |rest| < |s|
  {
    BeforeFirst(s, BLANK_LINE, |request|);
    assert s[..|request|] == request;
  }

  /** One more request in front of a split that reassembles `rest` reassembles `request + sep + rest`. */
  lemma Reassembled(request: string, sep: string, rest: string, requests: seq<string>, left: string)
    requires Terminated(requests, sep) + left == rest
    ensures Terminated([request] + requests, sep) + left == request + sep + rest
    ensures forall k :: 1 <= k < |[request] + requests| ==> ([request] + requests)[k] == requests[k - 1]
  {
    TerminatedCons(request, requests, sep);
  }

  /** Unfolding SplitAll once where the text has an empty line. */
  lemma SplitAllCons(s: string, request: string, rest: string)
    requires SplitOnce(s, BLANK_LINE) == Some((request, rest))
    ensures SplitAll(s) == ([request] + SplitAll(rest).0, SplitAll(rest).1)
  {
  }

  /** SplitAll of a text without an empty line: no request, all leftover. */
  lemma SplitAllNone(s: string)
    requires SplitOnce(s, BLANK_LINE).None?
    ensures SplitAll(s) == ([], s)
  {
  }

  /** Text arriving after a leftover: what was already complete stays, and the splitting goes on from the leftover. */
  lemma {:induction false} SplitAllAppend(s: string, t: string)
    ensures var r := SplitAll(s);
            var q := SplitAll(r.1 + t);
            SplitAll(s + t) == (r.0 + q.0, q.1)
    decreases |s|
  {
    var split := SplitOnce(s, BLANK_LINE);
    if split.Some? {
      var request, rest := split.value.0, split.value.1;
      SplitAllStep(s, request, rest);
      SplitAllAppend(rest, t);
      SplitOnceExtend(s, t, BLANK_LINE);
      SplitAllCons(s, request, rest);
      SplitAllCons(s + t, request, rest + t);
      SplitAllAppendCons(request, SplitAll(s), SplitAll(rest), SplitAll(s + t), SplitAll(rest + t), SplitAll(SplitAll(rest).1 + t));
    } else {
      SplitAllNone(s);
      assert [] + SplitAll(s + t).0 == SplitAll(s + t).0;
    }
  }

  /** The inductive step of SplitAllAppend, on the splits themselves. */
  lemma SplitAllAppendCons(request: string, whole: (seq<string>, string), rest: (seq<string>, string),
                           wholeT: (seq<string>, string), restT: (seq<string>, string), tail: (seq<string>, string))
    requires whole == ([request] + rest.0, rest.1)
    requires wholeT == ([request] + restT.0, restT.1)
    requires restT == (rest.0 + tail.0, tail.1)
    ensures wholeT == (whole.0 + tail.0, tail.1)
  {
    assert [request] + (rest.0 + tail.0) == ([request] + rest.0) + tail.0;
  }

  /**
   * The text the connection delivers: the decoded chunks up to the first empty
   * one (the peer closed) or the end of the input, and whether it stopped
   * because a chunk was not valid UTF-8 (the UnicodeDecodeError ends the handler).
   */
  function Received(chunks: seq<Bytes>): (r: (string, bool))
  {
    if |chunks| == 0 || chunks[0] == [] then ("", false)
    else match Decode(chunks[0])
      case None => ("", true)
      case Some(text) =>
        var (rest, failed) := Received(chunks[1..]);
        (text + rest, failed)
  }

  /** Decoding a connection that sends whole requests as UTF-8 loses nothing and never fails. */
  lemma {:induction false} ReceivedEncoded(texts: seq<string>)
    requires forall k :: 0 <= k < |texts| ==> texts[k] != ""
    ensures Received(seq(|texts|, k requires 0 <= k < |texts| => Encode(texts[k]))) == (Concat(texts), false)
    decreases |texts|
  {
    var chunks := seq(|texts|, k requires 0 <= k < |texts| => Encode(texts[k]));
    if |texts| > 0 {
      DecodeEncode(texts[0]);
      assert Encode(texts[0]) != [] by {
        assert |Encode([texts[0][0]] + texts[0][1..])| > 0 by {
          EncodeAppend([texts[0][0]], texts[0][1..]);
        }
        assert [texts[0][0]] + texts[0][1..] == texts[0];
      }
      assert chunks[1..] == seq(|texts[1..]|, k requires 0 <= k < |texts[1..]| => Encode(texts[1..][k]));
      ReceivedEncoded(texts[1..]);
    }
  }

  /** One decoded chunk more: its text joins what was received so far. */
  lemma ReceivedStep(chunks: seq<Bytes>, n: nat, text: string)
    requires n < |chunks| && chunks[n] != [] && Decode(chunks[n]).Some?
    requires Received(chunks) == (text + Received(chunks[n..]).0, Received(chunks[n..]).1)
    ensures Received(chunks)
            == (text + Decode(chunks[n]).value + Received(chunks[n + 1..]).0, Received(chunks[n + 1..]).1)
  {
    assert chunks[n..][1..] == chunks[n + 1..];
    assert Received(chunks[n..]) == (Decode(chunks[n]).value + Received(chunks[n + 1..]).0, Received(chunks[n + 1..]).1);
    assert text + (Decode(chunks[n]).value + Received(chunks[n + 1..]).0)
        == text + Decode(chunks[n]).value + Received(chunks[n + 1..]).0;
  }

  /** Moving one split-off request from the buffer's splits to the dispatched ones keeps the text's splits. */
  lemma DispatchOne(dispatched: seq<string>, request: string, whole: (seq<string>, string),
                    buffer: (seq<string>, string), rest: (seq<string>, string))
    requires whole == (dispatched + buffer.0, buffer.1)
    requires buffer == ([request] + rest.0, rest.1)
    ensures whole == ((dispatched + [request]) + rest.0, rest.1)
  {
    assert dispatched + ([request] + rest.0) == (dispatched + [request]) + rest.0;
  }

  /**
   * `handleClient`'s loops: returns the requests dispatched, in order, the
   * buffer left when the connection ends, and whether a decode error ended it.
   */
  method HandleClient(received: seq<Bytes>) returns (dispatched: seq<string>, buffer: string, failed: bool)
    ensures (dispatched, buffer) == SplitAll(Received(received).0)
    ensures failed == Received(received).1
  {
    dispatched := [];
    buffer := "";
    failed := false;
    ghost var text := "";
    var n := 0;
    assert received[n..] == received;
    assert "" + Received(received).0 == Received(received).0;
    while n < |received|
      invariant 0 <= n <= |received|
      invariant (dispatched, buffer) == SplitAll(text)
      invariant Received(received) == (text + Received(received[n..]).0, Received(received[n..]).1)
      decreases |received| - n
    {
      var data := received[n];
      if data == [] {
        assert Received(received[n..]) == ("", false);
        break;
      }
      var decoded := Decode(data);
      if decoded.None? {
        failed := true;
        assert Received(received[n..]) == ("", true);
        break;
      }
      ReceivedStep(received, n, text);
      SplitAllAppend(text, decoded.value);
      text := text + decoded.value;
      buffer := buffer + decoded.value;
      while Contains(buffer, BLANK_LINE)
        invariant SplitAll(text) == (dispatched + SplitAll(buffer).0, SplitAll(buffer).1)
        decreases |buffer|
      {
        var request, rest := SplitOnce(buffer, BLANK_LINE).value.0, SplitOnce(buffer, BLANK_LINE).value.1;
        SplitAllStep(buffer, request, rest);
        SplitAllCons(buffer, request, rest);
        DispatchOne(dispatched, request, SplitAll(text), SplitAll(buffer), SplitAll(rest));
        dispatched := dispatched + [request];
        buffer := rest;
      }
      SplitAllNone(buffer);
      assert dispatched + [] == dispatched;
      n := n + 1;
    }
    if n == |received| {
      assert Received(received[n..]) == ("", false);
    }
    assert text + "" == text;
  }

  /**
   * What one request's thread passes to `sendall`, as the corrected thread
   * does it: with a stream id, the frames of the response; otherwise the
   * response in one piece.
   */
  function Delivery(request: string, files: Files, parseDate: string -> Result<int, string>, date: string): seq<string>
  {
    var x := ExtractStreamId(request);
    var response := ResponseText(HandleRequest(x.clean, files, parseDate), date);
    match x.streamId
    case Some(id) => EncodeAll(FramesOf(id, response))
    case None => [response]
  }

  /** `handleRequestThread` with the write lock passed on to the senders. */
  method HandleRequestThread(request: string, files: Files, parseDate: string -> Result<int, string>, date: string)
    returns (writes: seq<string>)
    ensures writes == Delivery(request, files, parseDate, date)
  {
    var streamId, requestClean := ExtractStreamId(request).streamId, ExtractStreamId(request).clean;
    var reply := HandleRequest(requestClean, files, parseDate);
    var response := CreateResponse(reply.status, reply.body, date);
    if streamId.Some? {
      writes := SendFramedResponse(streamId.value, response);
    } else {
      writes := [response];
    }
  }

  /** How a request thread ends: the texts it sent, or the exception that ended it. */
  datatype ThreadOutcome = Sent(writes: seq<string>) | Crashed(error: PyError)

  /**
   * `handleRequestThread` as written: the sender is called without its `lock`
   * argument, which raises TypeError before anything is sent. The source first
   * computes the response, but `handleRequest` catches every exception, so that
   * step cannot change how the thread ends and is not repeated here.
   */
  function HandleRequestThreadAsWritten(request: string, files: Files, parseDate: string -> Result<int, string>, date: string)
    : ThreadOutcome
  {
    var x := ExtractStreamId(request);
    match x.streamId
    case Some(_) => Crashed(MissingLockArgument("sendFramedResponse"))
    case None => Crashed(MissingLockArgument("sendRegularResponse"))
  }

  /**
   * As written, no request is ever answered, while the corrected thread always
   * sends at least one non-empty text whose pieces make up the whole response.
   */
  lemma AsWrittenNeverResponds(request: string, files: Files, parseDate: string -> Result<int, string>, date: string)
    ensures HandleRequestThreadAsWritten(request, files, parseDate, date).Crashed?
    ensures HandleRequestThreadAsWritten(request, files, parseDate, date).error.MissingLockArgument?
    ensures var writes := Delivery(request, files, parseDate, date);
            |writes| > 0 && writes[0] != ""
  {
    var x := ExtractStreamId(request);
    var response := ResponseText(HandleRequest(x.clean, files, parseDate), date);
    ResponseNonEmpty(HandleRequest(x.clean, files, parseDate), date);
    if x.streamId.Some? {
      FirstFrameNonEmpty(x.streamId.value, response);
    }
  }

  /** Every response text holds at least its head's closing empty line. */
  lemma ResponseNonEmpty(reply: Reply, date: string)
    ensures |ResponseText(reply, date)| >= |CRLF|
  {
    var head := Head(reply.status, date, ContentLength(reply.body));
    assert head == Terminated(HeadLines(reply.status, date, ContentLength(reply.body)), CRLF) + CRLF;
  }

  /** A non-empty response is sent in at least one frame, and the first frame's text is not empty. */
  lemma FirstFrameNonEmpty(id: int, response: string)
    requires |response| > 0
    ensures var writes := EncodeAll(FramesOf(id, response));
            |writes| > 0 && writes[0] != ""
  {
    var frames := FramesOf(id, response);
    assert EncodeAll(frames)[0] == EncodeFrame(frames[0]);
  }

  /**
   * A request tagged with a stream id is answered in frames whose payloads
   * make up the response to the request without its tag.
   */
  lemma TaggedRequestFramed(id: int, request: string, files: Files, parseDate: string -> Result<int, string>, date: string)
    ensures var response := ResponseText(HandleRequest(request, files, parseDate), date);
            && Delivery(StreamIdLine(id) + CRLF + request, files, parseDate, date) == EncodeAll(FramesOf(id, response))
            && Payloads(FramesOf(id, response)) == response
  {
    TagThenExtract(id, request);
  }

  /** An untagged request is answered with the response text in one piece. */
  lemma UntaggedRequestPlain(request: string, files: Files, parseDate: string -> Result<int, string>, date: string)
    requires !StartsWith(FirstLine(request), STREAM_ID_PREFIX)
    ensures Delivery(request, files, parseDate, date) == [ResponseText(HandleRequest(request, files, parseDate), date)]
  {
  }
}
