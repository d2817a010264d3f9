/**
 * `sendFramedResponse` (server.py:226-242): a response cut into chunks of at
 * most MAX_CHUNK_SIZE characters, each sent as one `<id>|<endFlag>|<chunk>`
 * frame, with end flag 1 only on the last.
 */
module Framing {
  import opened Wrappers
  import opened Seqs
  import opened Chars

  const MAX_CHUNK_SIZE: nat := 512

  datatype Frame = Frame(streamId: int, last: bool, payload: string)

  /** The wire text of a frame: `<id>|<endFlag>|<payload>`. */
  function EncodeFrame(f: Frame): string
  {
    IntToString(f.streamId) + "|" + (if f.last then "1" else "0") + "|" + f.payload
  }

  function EncodeAll(frames: seq<Frame>): (wire: seq<string>)
    ensures |wire| == |frames|
    ensures forall k :: 0 <= k < |frames| ==> wire[k] == EncodeFrame(frames[k])
  {
    seq(|frames|, k requires 0 <= k < |frames| => EncodeFrame(frames[k]))
  }

  /**
   * Splitting a frame's text at its first two `|` gives back the id, the end
   * flag and the payload, whatever the payload holds.
   */
  lemma FrameFields(f: Frame)
    ensures var wire := EncodeFrame(f);
            var flag := if f.last then "1" else "0";
            SplitOnce(wire, "|") == Some((IntToString(f.streamId), flag + "|" + f.payload))
            && SplitOnce(flag + "|" + f.payload, "|") == Some((flag, f.payload))
            && ParseInt(IntToString(f.streamId)) == Some(f.streamId)
  {
    var id := IntToString(f.streamId);
    var flag := if f.last then "1" else "0";
    IntToStringChars(f.streamId);
    assert '|' !in id;
    assert EncodeFrame(f) == id + "|" + (flag + "|" + f.payload);
    SplitAfter(id, "|", flag + "|" + f.payload);
    SplitAfter(flag, "|", f.payload);
    ParseIntToString(f.streamId);
  }

  lemma EncodeAllSnoc(frames: seq<Frame>, f: Frame)
    ensures EncodeAll(frames + [f]) == EncodeAll(frames) + [EncodeFrame(f)]
  {
  }

  /** The payloads of the frames, concatenated in order. */
  function Payloads(frames: seq<Frame>): string
  {
    if |frames| == 0 then "" else frames[0].payload + Payloads(frames[1..])
  }

  /** The frames of one response, in the order they are written. */
  function FramesOf(streamId: int, response: string): (frames: seq<Frame>)
    // The payloads reassemble the response; an empty response gives no frame.
    ensures Payloads(frames) == response
    ensures |frames| == (|response| + MAX_CHUNK_SIZE - 1) / MAX_CHUNK_SIZE
    ensures forall k :: 0 <= k < |frames| ==> frames[k].streamId == streamId
    // Only the last frame carries the end flag.
    ensures forall k :: 0 <= k < |frames| ==> (frames[k].last <==> k == |frames| - 1)
    // Every chunk is non-empty and at most MAX_CHUNK_SIZE long; all but the last are full.
    ensures forall k :: 0 <= k < |frames| ==> 0 < |frames[k].payload| <= MAX_CHUNK_SIZE
    ensures forall k :: 0 <= k < |frames| - 1 ==> |frames[k].payload| == MAX_CHUNK_SIZE
    decreases |response|
  {
    if |response| == 0 then []
    else if |response| <= MAX_CHUNK_SIZE then [Frame(streamId, true, response)]
    else
      var rest := FramesOf(streamId, response[MAX_CHUNK_SIZE..]);
      assert response == response[..MAX_CHUNK_SIZE] + response[MAX_CHUNK_SIZE..];
      [Frame(streamId, false, response[..MAX_CHUNK_SIZE])] + rest
  }

  /** What is left of the response from index `i` on (nothing once `i` passes its end). */
  function Rest(response: string, i: nat): string
  {
    if i <= |response| then response[i..] else ""
  }

  /** One step of the loop: the next frame is the chunk at `i`, flagged last when it reaches the end. */
  lemma FramesStep(streamId: int, response: string, i: nat)
    requires i < |response|
    ensures FramesOf(streamId, Rest(response, i))
         == [Frame(streamId, i + MAX_CHUNK_SIZE >= |response|,
                   response[i..if i + MAX_CHUNK_SIZE < |response| then i + MAX_CHUNK_SIZE else |response|])]
            + FramesOf(streamId, Rest(response, i + MAX_CHUNK_SIZE))
  {
    var rest := response[i..];
    if i + MAX_CHUNK_SIZE < |response| {
      assert rest[..MAX_CHUNK_SIZE] == response[i..i + MAX_CHUNK_SIZE];
      assert rest[MAX_CHUNK_SIZE..] == Rest(response, i + MAX_CHUNK_SIZE);
    } else {
      assert rest == response[i..|response|];
      assert Rest(response, i + MAX_CHUNK_SIZE) == "";
    }
  }

  /** The loop's invariant carried over one frame. */
  lemma SendStep(streamId: int, response: string, i: nat, done: seq<Frame>)
    requires i < |response|
    requires FramesOf(streamId, response) == done + FramesOf(streamId, Rest(response, i))
    ensures FramesOf(streamId, response)
         == done + [Frame(streamId, i + MAX_CHUNK_SIZE >= |response|,
                          response[i..if i + MAX_CHUNK_SIZE < |response| then i + MAX_CHUNK_SIZE else |response|])]
            + FramesOf(streamId, Rest(response, i + MAX_CHUNK_SIZE))
  {
    FramesStep(streamId, response, i);
  }

  /** The chunking loop: returns the frames in the order they are written to the connection. */
  method SendFramedResponse(streamId: int, response: string) returns (sent: seq<string>)
    ensures sent == EncodeAll(FramesOf(streamId, response))
  {
    sent := [];
    ghost var done: seq<Frame> := [];
    var i := 0;
    while i < |response|
      invariant FramesOf(streamId, response) == done + FramesOf(streamId, Rest(response, i))
      invariant sent == EncodeAll(done)
      decreases |response| - i
    {
      var end := if i + MAX_CHUNK_SIZE < |response| then i + MAX_CHUNK_SIZE else |response|;
      var chunk := response[i..end];
      var endStream := i + MAX_CHUNK_SIZE >= |response|;
      var frame := IntToString(streamId) + "|" + (if endStream then "1" else "0") + "|" + chunk;
      SendStep(streamId, response, i, done);
      EncodeAllSnoc(done, Frame(streamId, endStream, chunk));
      sent := sent + [frame];
      done := done + [Frame(streamId, endStream, chunk)];
      i := i + MAX_CHUNK_SIZE;
    }
    assert Rest(response, i) == "";
  }
}
