/** FrameCodec and the MessageHandler that accumulates received bytes and drains them. */
module FrameCodecs {
  import opened Bytes
  import opened Frames
  import opened TcpConnections

  const MAX_MESSAGE := 1024 * 1024 * 100

  function DrainCodec(b: Data): Drained {
    Drain(b, 0, MAX_MESSAGE)
  }

  class FrameCodec {
    constructor () {}

    method EncodeFrame(message: Data) returns (frame: Data)
      ensures frame == Encode(message)
    {
      if message == [] {
        return [];
      }
      var networkLength := BigEndian(|message|, HEADER);
      frame := [];
      frame := frame + networkLength;
      frame := frame + message;
      assert [] + networkLength == networkLength;
    }

    /** Takes one frame off buffer into message; on false both are as they were. */
    method Decode(buffer: Data, message: Data) returns (ok: bool, buffer': Data, message': Data)
      ensures match Next(buffer, 0, MAX_MESSAGE)
        case Complete(body, rest) => ok && message' == body && buffer' == rest
        case _ => !ok && message' == message && buffer' == buffer
    {
      if |buffer| < HEADER {
        return false, buffer, message;
      }
      var length := FromBigEndian(buffer[..HEADER]);
      if length > MAX_MESSAGE {
        return false, buffer, message;
      }
      var total := HEADER + length;
      if |buffer| < total {
        return false, buffer, message;
      }
      return true, buffer[total..], buffer[HEADER..total];
    }
  }

  class MessageHandler {
    const codec: FrameCodec
    var receiveBuffer: Data
    var hasCallback: bool
    var delivered: seq<Data>

    constructor (codec: FrameCodec, callback: bool)
      ensures receiveBuffer == [] && delivered == [] && hasCallback == callback
    {
      this.codec := codec;
      receiveBuffer := [];
      hasCallback := callback;
      delivered := [];
    }

    method HandleData(data: Data)
      modifies this
      ensures hasCallback == old(hasCallback)
      ensures data == [] ==> receiveBuffer == old(receiveBuffer) && delivered == old(delivered)
      ensures var d := DrainCodec(old(receiveBuffer) + data);
        data != [] ==>
          && receiveBuffer == d.rest
          && delivered == old(delivered) + (if hasCallback then d.frames else [])
    {
      if data == [] {
        return;
      }
      hide Next;
      receiveBuffer := receiveBuffer + data;
      ghost var start := DrainCodec(receiveBuffer);
      ghost var taken: seq<Data> := [];
      while true
        invariant hasCallback == old(hasCallback)
        invariant start == Prepend(taken, DrainCodec(receiveBuffer))
        invariant delivered == old(delivered) + (if hasCallback then taken else [])
        decreases |receiveBuffer|
      {
        var ok, rest, message := codec.Decode(receiveBuffer, []);
        if !ok {
          assert taken + [] == taken;
          break;
        }
        ghost var d := DrainCodec(rest);
        assert taken + ([message] + d.frames) == (taken + [message]) + d.frames;
        taken := taken + [message];
        receiveBuffer := rest;
        if hasCallback {
          delivered := delivered + [message];
        }
      }
    }
  }

  /** What a run of handleData calls delivers and what it leaves. */
  function HandleChunks(chunks: seq<Data>): (seq<Data>, Data) {
    if chunks == [] then ([], [])
    else
      var (frames, kept) := HandleChunks(chunks[..|chunks| - 1]);
      var last := chunks[|chunks| - 1];
      if last == [] then (frames, kept)
      else
        var d := DrainCodec(kept + last);
        (frames + d.frames, d.rest)
  }

  /** The handler's result does not depend on the chunking, on any byte stream whatever. */
  lemma {:induction false} ChunkingNeverMatters(chunks: seq<Data>)
    ensures var d := DrainCodec(Concat(chunks)); HandleChunks(chunks) == (d.frames, d.rest)
  {
    if chunks != [] {
      var past, last := chunks[..|chunks| - 1], chunks[|chunks| - 1];
      ChunkingNeverMatters(past);
      var d := DrainCodec(Concat(past));
      if last == [] {
        assert Concat(chunks) == Concat(past);
      } else {
        DrainSplit(Concat(past), last, 0, MAX_MESSAGE);
        RestIsFinal(Concat(past), 0, MAX_MESSAGE);
        NextOfMore(d.rest, last, 0, MAX_MESSAGE);
        assert d.frames + [] == d.frames;
      }
    }
  }

  /** The codec takes a frame exactly when its body has at most 100 MiB; empty bodies are delivered. */
  lemma CodecTakesIff(body: Data)
    requires |body| < LENGTH_LIMIT
    ensures DrainCodec(Framed(body)) == Drained([body], [], false) <==> |body| <= 104_857_600
  {
    FramedIff(body, 0, MAX_MESSAGE);
  }

  /**
   The two decoders: what the server's decoder delivers, the codec delivers too, and unless the
   server meets a length it rejects they agree on every frame and on the rest.
   */
  lemma {:induction false} DecodersAgree(b: Data)
    ensures DrainServer(b).frames <= DrainCodec(b).frames
    ensures !DrainServer(b).bad ==> DrainServer(b) == DrainCodec(b)
    decreases |b|
  {
    hide FromBigEndian;
    match Next(b, MIN_FRAME_SIZE, MAX_FRAME_SIZE)
    case Complete(body, rest) =>
      assert Next(b, 0, MAX_MESSAGE) == Complete(body, rest);
      DecodersAgree(rest);
    case _ =>
  }

  /** On encoded messages of 1 byte to 10 MiB, in any chunks, handler and server deliver the same. */
  lemma HandlerAndServerAgree(ms: seq<Data>, mine: seq<Data>, theirs: seq<Data>)
    requires forall m | m in ms :: Sendable(m)
    requires Concat(mine) == Concat(theirs) <= EncodeAll(ms)
    ensures HandleChunks(mine) == ServeChunks(theirs)
    ensures HandleChunks(mine).0 <= ms
  {
    forall m | m in ms ensures Sized(m, MIN_FRAME_SIZE, MAX_FRAME_SIZE) {
      assert Sendable(m);
    }
    DrainPrefix(ms, Concat(mine), MIN_FRAME_SIZE, MAX_FRAME_SIZE);
    ChunkingNeverMatters(mine);
    ServeIsDrain(theirs);
    DecodersAgree(Concat(mine));
  }
}
