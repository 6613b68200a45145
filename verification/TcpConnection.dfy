/**
 The server's side of a connection: decodeFrame takes one frame off the input buffer,
 handleClientRead reads once and then drains. The frames handed to the message callback are kept
 in a log, in order.
 */
module TcpConnections {
  import opened Buffers
  import opened Bytes
  import opened Frames
  import opened Results

  const MIN_FRAME_SIZE := 1
  const MAX_FRAME_SIZE := 10 * 1024 * 1024
  const CAPACITY_BOUND := 11 * 1024 * 1024

  datatype ConnectionState = Disconnected | Connecting | Connected | Disconnecting

  /** The longest rest a drain can leave: one byte short of the longest frame. */
  const LONGEST_REST := MAX_FRAME_SIZE + HEADER - 1

  function DrainServer(b: Data): Drained {
    Drain(b, MIN_FRAME_SIZE, MAX_FRAME_SIZE)
  }

  /** What the input buffer holds after a drain: a bad header clears it. */
  function Kept(d: Drained): Data {
    if d.bad then [] else d.rest
  }

  lemma KeptIsShort(b: Data)
    ensures |Kept(DrainServer(b))| <= LONGEST_REST
  {
    RestIsShort(b, MIN_FRAME_SIZE, MAX_FRAME_SIZE);
  }

  class TcpConnection {
    var input: Buffer
    var state: ConnectionState
    var hasCallback: bool
    var delivered: seq<Data>

    ghost function Repr(): set<object>
      reads this, input
    {
      {this, input, input.buffer}
    }

    ghost predicate Valid()
      reads Repr()
    {
      input.Valid()
    }

    /** What a drained input buffer stays within, so that it never reaches the buffer's own limit. */
    ghost predicate Bounded()
      requires Valid()
      reads Repr()
    {
      |input.Contents()| <= LONGEST_REST && input.Capacity() < CAPACITY_BOUND
    }

    constructor (callback: bool)
      ensures Valid() && Bounded() && fresh(Repr())
      ensures input.Contents() == [] && delivered == []
      ensures state == Connected && hasCallback == callback
    {
      input := new Buffer(INITIAL_SIZE);
      state := Connected;
      hasCallback := callback;
      delivered := [];
    }

    /** One frame off the front, if it is all there. */
    method DecodeFrame() returns (frame: Option<Data>)
      requires Valid()
      modifies input`readerIndex, input`writerIndex
      ensures Valid()
      ensures match Next(old(input.Contents()), MIN_FRAME_SIZE, MAX_FRAME_SIZE)
        case NeedMore => frame == None && input.Contents() == old(input.Contents())
        case BadLength => frame == None && input.Contents() == []
        case Complete(body, rest) => frame == Some(body) && input.Contents() == rest
    {
      hide FromBigEndian;
      ghost var b := input.Contents();
      if input.ReadableBytes() < HEADER {
        return None;
      }
      var r := input.PeekInt(HEADER);
      var length := r.value;
      if length == 0 || length > MAX_FRAME_SIZE {
        input.RetrieveAll();
        return None;
      }
      if input.ReadableBytes() < length + HEADER {
        return None;
      }
      SliceTwice(b, HEADER, length);
      input.Retrieve(HEADER);
      var body := input.RetrieveAsVector(length);
      frame := Some(body);
    }

    /** The loop of handleClientRead: decode until nothing more comes off. */
    method DrainInput()
      requires Valid()
      modifies this`delivered, input`readerIndex, input`writerIndex
      ensures Valid()
      ensures var d := DrainServer(old(input.Contents()));
        && input.Contents() == Kept(d)
        && delivered == old(delivered) + (if hasCallback then d.frames else [])
    {
      hide Next, Buffer.Contents;
      ghost var start := DrainServer(input.Contents());
      ghost var taken: seq<Data> := [];
      while true
        invariant Valid()
        invariant start == Frames.Prepend(taken, DrainServer(input.Contents()))
        invariant delivered == old(delivered) + (if hasCallback then taken else [])
        decreases |input.Contents()|
      {
        ghost var before := input.Contents();
        var frame := DecodeFrame();
        if frame.None? {
          assert taken + [] == taken;
          return;
        }
        ghost var d := DrainServer(input.Contents());
        assert taken + ([frame.value] + d.frames) == (taken + [frame.value]) + d.frames;
        taken := taken + [frame.value];
        if hasCallback {
          delivered := delivered + [frame.value];
        }
      }
    }

    method Close()
      modifies this`state
      ensures state == Disconnected
    {
      state := Disconnected;
    }

    /**
     TcpServerImpl::handleClientRead. A read of n > 0 bytes is drained, n == 0 and a failure other
     than "try again" close the connection. The read never throws: the buffer stays bounded.
     */
    method HandleClientRead(incoming: Incoming, tryAgain: set<int>)
      requires Valid() && Bounded()
      modifies this`delivered, this`state, input, input.buffer
      ensures Valid() && Bounded() && input == old(input) && fresh(Repr() - old(Repr()))
      ensures var arrived := Arrived(incoming, old(input.WritableBytes()));
        var d := DrainServer(old(input.Contents()) + arrived);
        if arrived == [] then input.Contents() == old(input.Contents()) && delivered == old(delivered)
        else
          && input.Contents() == Kept(d)
          && delivered == old(delivered) + (if hasCallback then d.frames else [])
      ensures state == if Ends(incoming, tryAgain) then Disconnected else old(state)
    {
      hide Buffer.Contents, DrainServer, Kept;
      var n, r := input.ReadFromFd(incoming);
      assert r.Ok?;
      if n > 0 {
        KeptIsShort(input.Contents());
        DrainInput();
      } else if n == 0 {
        Close();
      } else if incoming.errno !in tryAgain {
        Close();
      }
    }

    /**
     The read events of one connection, as the epoll loop delivers them until it is closed. Every
     event before that is read and served; the connection closes exactly at the first end of stream
     or error.
     */
    method HandleEvents(events: seq<Incoming>, tryAgain: set<int>) returns (ghost chunks: seq<Data>)
      requires Valid() && Bounded() && hasCallback
      requires input.Contents() == [] && delivered == []
      modifies Repr()
      ensures Valid() && Bounded()
      ensures |chunks| <= |events|
      ensures forall k | 0 <= k < |chunks| :: Delivers(events[k], chunks[k])
      ensures forall k | 0 <= k < |chunks| - 1 :: !Ends(events[k], tryAgain)
      ensures state == (if EndsWith(events[..|chunks|], tryAgain) then Disconnected else old(state))
      ensures state == Connected ==> |chunks| == |events|
      ensures old(state) != Connected ==> chunks == []
      ensures ServeChunks(chunks) == (delivered, input.Contents())
    {
      hide Buffer.Contents, DrainServer, Kept, Arrived, Delivers, ServeChunks;
      chunks := [];
      ServeNone();
      var k := 0;
      while k < |events| && state == Connected
        invariant Valid() && Bounded() && hasCallback && input == old(input)
        invariant fresh(Repr() - old(Repr()))
        invariant 0 <= k <= |events| && |chunks| == k
        invariant forall j | 0 <= j < k :: Delivers(events[j], chunks[j])
        invariant forall j | 0 <= j < k - 1 :: !Ends(events[j], tryAgain)
        invariant state == (if EndsWith(events[..k], tryAgain) then Disconnected else old(state))
        invariant old(state) != Connected ==> k == 0
        invariant ServeChunks(chunks) == (delivered, input.Contents())
      {
        ghost var chunk := Arrived(events[k], input.WritableBytes());
        ArrivedDelivers(events[k], input.WritableBytes());
        ServeNext(chunks, chunk);
        HandleClientRead(events[k], tryAgain);
        chunks := chunks + [chunk];
        k := k + 1;
      }
    }
  }

  lemma SliceTwice(b: Data, i: nat, n: nat)
    requires i + n <= |b|
    ensures b[i..][..n] == b[i..i + n]
    ensures b[i..][n..] == b[i + n..]
  {
  }

  /** The bytes one read brings in: as many as the system gives and the two iovecs hold. */
  function Arrived(incoming: Incoming, writable: nat): Data {
    match incoming
    case Failed(_) => []
    case Ready(wire, take) => wire[..Min(Min(take, |wire|), ReadLimit(writable))]
  }

  /** The chunk is what reading the event brings in, for some amount of free space. */
  ghost predicate Delivers(incoming: Incoming, chunk: Data) {
    exists writable: nat :: chunk == Arrived(incoming, writable)
  }

  lemma ArrivedDelivers(incoming: Incoming, writable: nat)
    ensures var chunk := Arrived(incoming, writable);
      Delivers(incoming, chunk) && (incoming.Failed? ==> chunk == [])
  {
  }

  /** The read brings an end of stream, or an error other than "try again". */
  predicate Ends(incoming: Incoming, tryAgain: set<int>) {
    match incoming
    case Failed(errno) => errno !in tryAgain
    case Ready(wire, take) => wire == [] || take == 0
  }

  predicate EndsWith(events: seq<Incoming>, tryAgain: set<int>) {
    events != [] && Ends(events[|events| - 1], tryAgain)
  }

  /**
   What one read brings in, whatever the free space: nothing only if the system gives nothing, all
   that it gives up to 64 KiB, and more than that as far as the free space and the side buffer go.
   */
  lemma ReadTakes(wire: Data, take: nat, writable: nat)
    ensures var arrived, given := Arrived(Ready(wire, take), writable), wire[..Min(take, |wire|)];
      && arrived <= given
      && (arrived == [] <==> wire == [] || take == 0)
      && (|given| <= 65536 ==> arrived == given)
      && (|given| <= writable ==> arrived == given)
      && (writable < 65536 && |given| <= writable + 65536 ==> arrived == given)
      && (|arrived| > writable ==> writable < 65536 && |arrived| <= writable + 65536)
  {
    hide ReadLimit;
    var n := Min(Min(take, |wire|), ReadLimit(writable));
    assert wire[..Min(take, |wire|)][..n] == wire[..n];
    SideBuffer(writable);
  }

  lemma SideBuffer(writable: nat)
    ensures ReadLimit(writable) == if writable < 65536 then writable + 65536 else writable
  {
  }

  /** What a run of reads delivers in all, and what it leaves in the buffer. */
  function ServeChunks(chunks: seq<Data>): (seq<Data>, Data) {
    if chunks == [] then ([], [])
    else
      var (frames, kept) := ServeChunks(chunks[..|chunks| - 1]);
      var last := chunks[|chunks| - 1];
      if last == [] then (frames, kept)
      else
        var d := DrainServer(kept + last);
        (frames + d.frames, Kept(d))
  }

  lemma ServeNone()
    ensures ServeChunks([]) == ([], [])
  {
  }

  lemma ServeNext(chunks: seq<Data>, chunk: Data)
    ensures var (frames, kept) := ServeChunks(chunks);
      var d := DrainServer(kept + chunk);
      ServeChunks(chunks + [chunk]) ==
        if chunk == [] then (frames, kept) else (frames + d.frames, Kept(d))
  {
    assert (chunks + [chunk])[..|chunks|] == chunks;
  }

  /** A message the server takes: one byte to 10 MiB. */
  ghost predicate Sendable(m: Data) {
    1 <= |m| <= 10_485_760
  }

  // ---------------------------------------------------------------- reassembly

  /** As long as no header is bad, reading in chunks is draining everything received so far. */
  lemma {:induction false} ServeIsDrain(chunks: seq<Data>)
    requires !DrainServer(Concat(chunks)).bad
    ensures var d := DrainServer(Concat(chunks)); ServeChunks(chunks) == (d.frames, d.rest)
  {
    if chunks != [] {
      var past, last := chunks[..|chunks| - 1], chunks[|chunks| - 1];
      DrainSplit(Concat(past), last, MIN_FRAME_SIZE, MAX_FRAME_SIZE);
      ServeIsDrain(past);
      if last == [] {
        assert Concat(chunks) == Concat(past);
      }
    }
  }

  /** Nothing is lost or made up on any bytes without a bad header, however they were cut. */
  lemma NothingLost(chunks: seq<Data>)
    requires !DrainServer(Concat(chunks)).bad
    ensures var (delivered, kept) := ServeChunks(chunks); EncodeAll(delivered) + kept == Concat(chunks)
  {
    ServeIsDrain(chunks);
    DrainGivesBack(Concat(chunks), MIN_FRAME_SIZE, MAX_FRAME_SIZE);
  }

  /**
   Reassembly: when what was received, in whatever chunks, is a beginning of a stream of encoded
   messages, the callbacks so far are exactly the messages it holds in full, in order, and these
   encoded again, with the buffer behind them, are the bytes received.
   */
  lemma Reassembly(ms: seq<Data>, chunks: seq<Data>)
    requires forall m | m in ms :: Sendable(m)
    requires Concat(chunks) <= EncodeAll(ms)
    ensures var (delivered, kept) := ServeChunks(chunks);
      && delivered <= ms
      && EncodeAll(delivered) + kept == Concat(chunks)
      && (if delivered == ms then kept == [] else kept < Encode(ms[|delivered|]))
  {
    forall m | m in ms ensures Sized(m, MIN_FRAME_SIZE, MAX_FRAME_SIZE) {
      assert Sendable(m);
    }
    DrainPrefix(ms, Concat(chunks), MIN_FRAME_SIZE, MAX_FRAME_SIZE);
    ServeIsDrain(chunks);
  }

  lemma {:induction false} ServedAreSendable(chunks: seq<Data>)
    ensures forall f | f in ServeChunks(chunks).0 :: Sendable(f)
  {
    if chunks != [] {
      var past, last := chunks[..|chunks| - 1], chunks[|chunks| - 1];
      ServedAreSendable(past);
      FramesSized(ServeChunks(past).1 + last, MIN_FRAME_SIZE, MAX_FRAME_SIZE);
    }
  }

  /**
   Once the whole stream is in, every message has been delivered and nothing is left over, exactly
   when every message is one the server takes.
   */
  lemma WholeStreamIff(ms: seq<Data>, chunks: seq<Data>)
    requires Concat(chunks) == EncodeAll(ms)
    ensures ServeChunks(chunks) == (ms, []) <==> forall m | m in ms :: Sendable(m)
  {
    ServedAreSendable(chunks);
    if forall m | m in ms :: Sendable(m) {
      Reassembly(ms, chunks);
      var (delivered, kept) := ServeChunks(chunks);
      if delivered != ms {
        var k := |delivered|;
        assert ms == delivered + ms[k..];
        EncodeAllAppend(delivered, ms[k..]);
        EncodeAllHead(ms[k..], []);
      }
    }
  }

  /** A frame with any body, the empty one too: the server takes it exactly if the body is Sendable. */
  lemma ServerTakesIff(body: Data)
    requires |body| < LENGTH_LIMIT
    ensures ServeChunks([Framed(body)]) == ([body], []) <==> Sendable(body)
  {
    FramedIff(body, MIN_FRAME_SIZE, MAX_FRAME_SIZE);
    ServeOne(Framed(body));
    FramesSized(Framed(body), MIN_FRAME_SIZE, MAX_FRAME_SIZE);
    assert body in [body];
  }

  /**
   Two chunks against one, on any bytes: they give the same callbacks and the same buffer exactly
   when the first chunk has no bad header where a frame should begin, or the second begins with
   a bad header itself.
   */
  lemma ChunkingMattersIff(a: Data, b: Data)
    requires a != [] && b != []
    ensures ServeChunks([a, b]) == ServeChunks([a + b])
      <==> !DrainServer(a).bad || Next(b, MIN_FRAME_SIZE, MAX_FRAME_SIZE) == BadLength
  {
    var d := DrainServer(a);
    DrainSplit(a, b, MIN_FRAME_SIZE, MAX_FRAME_SIZE);
    ServeOne(a);
    ServeOne(a + b);
    assert [a, b][..1] == [a];
    assert ServeChunks([a, b]) == (d.frames + DrainServer(Kept(d) + b).frames, Kept(DrainServer(Kept(d) + b)));
    if d.bad {
      assert [] + b == b;
      assert DrainServer(a + b).frames == d.frames;
      assert |d.frames + DrainServer(b).frames| == |d.frames| + |DrainServer(b).frames|;
      if DrainServer(b).frames == [] {
        assert d.frames + [] == d.frames;
      }
    }
  }

  /** A zero length and then a good frame: in two reads the frame is delivered, in one it is lost. */
  lemma ChunkingMatters()
    ensures ServeChunks([[0, 0, 0, 0], [0, 0, 0, 1, 7]]) == ([[7]], [])
    ensures ServeChunks([[0, 0, 0, 0] + [0, 0, 0, 1, 7]]) == ([], [])
  {
    hide ServeChunks, DrainServer;
    var a: Data, b: Data := [0, 0, 0, 0], [0, 0, 0, 1, 7];
    BadStart(a, []);
    BadStart(a, b);
    OneSeven(b);
    assert a + [] == a && [] + b == b && [] + [[7]] == [[7]];
    ServeOne(a);
    ServeOne(a + b);
    ServeNext([a], b);
    assert [a] + [b] == [a, b];
  }

  lemma OneSeven(b: Data)
    requires b == [0, 0, 0, 1, 7]
    ensures DrainServer(b) == Drained([[7]], [], false)
  {
    assert Encode([7]) == b by {
      assert BigEndian(1, HEADER) == [0, 0, 0, 1];
    }
    assert b + [] == b;
    NextOfEncoded([7], [], MIN_FRAME_SIZE, MAX_FRAME_SIZE);
    hide Next, Encode;
    NothingToDrain();
    assert [[7]] + [] == [[7]];
  }

  lemma NothingToDrain()
    ensures DrainServer([]) == Drained([], [], false)
  {
  }

  lemma BadStart(a: Data, b: Data)
    requires a == [0, 0, 0, 0]
    ensures DrainServer(a + b) == Drained([], a + b, true)
  {
    assert (a + b)[..HEADER] == a;
    assert FromBigEndian(a[..1]) == 0 && a[..2][..1] == a[..1] && a[..3][..2] == a[..2];
    assert FromBigEndian(a[..3]) == 0;
  }

  lemma ServeOne(a: Data)
    requires a != []
    ensures ServeChunks([a]) == (DrainServer(a).frames, Kept(DrainServer(a)))
  {
    var past := [a][..|[a]| - 1];
    assert past == [] && ServeChunks(past) == ([], []);
    assert [] + a == a;
    assert [] + DrainServer(a).frames == DrainServer(a).frames;
  }
}
