/**
 The client's blocking loops over a scripted socket. The peer's bytes are a stream; the script says
 what each recv and each send does. Signals may interrupt finitely many recv calls, and finitely
 many send calls may find the socket full, for those two are the cases that loop without a count.
 */
module TcpClients {
  import opened Bytes
  import opened Frames
  import opened Results
  import opened TcpConnections

  const MAX_RETRIES := 5000

  datatype RecvOutcome =
    | Bytes(limit: nat) // at least one byte, at most limit, never more than asked for
    | Eof               // recv returned 0
    | Interrupted       // EINTR
    | WouldBlock        // EAGAIN or EWOULDBLOCK
    | RecvError

  datatype SendOutcome =
    | Sent(limit: nat)  // at least one byte, at most limit, never more than offered
    | PeerClosed        // send returned 0
    | Full              // EAGAIN or EWOULDBLOCK
    | SendError

  type Stream = nat -> byte

  /** How many bytes a call moves that may move at most limit of n > 0. */
  function Moved(limit: nat, n: nat): (k: nat)
    requires n > 0
    ensures 0 < k <= n
    ensures limit >= n ==> k == n
    ensures 0 < limit < n ==> k == limit
  {
    if limit == 0 then 1 else if limit < n then limit else n
  }

  function Segment(stream: Stream, from: nat, n: nat): (s: Data)
    ensures |s| == n
  {
    seq(n, i requires 0 <= i < n => stream(from + i))
  }

  /** Of size bytes wanted, how many the recv calls from, ..., to - 1 brought. */
  function Got(script: nat -> RecvOutcome, from: nat, to: nat, size: nat): (n: nat)
    requires from <= to
    ensures n <= size
  {
    if to == from then 0
    else
      var before := Got(script, from, to - 1, size);
      if script(to - 1).Bytes? && before < size
      then before + Moved(script(to - 1).limit, size - before) else before
  }

  /** Of size bytes offered, how many the send calls from, ..., to - 1 took. */
  function Taken(script: nat -> SendOutcome, from: nat, to: nat, size: nat): (n: nat)
    requires from <= to
    ensures n <= size
  {
    if to == from then 0
    else
      var before := Taken(script, from, to - 1, size);
      if script(to - 1).Sent? && before < size
      then before + Moved(script(to - 1).limit, size - before) else before
  }

  function BlockedCalls(script: nat -> RecvOutcome, from: nat, to: nat): set<int> {
    set k: int | from <= k < to && script(k).WouldBlock?
  }

  predicate Quiet(outcome: RecvOutcome) {
    outcome.WouldBlock? || outcome.Interrupted?
  }

  /** In the calls from, ..., to - 1 nothing arrived; count of them would have blocked. */
  ghost predicate QuietRun(script: nat -> RecvOutcome, from: nat, to: nat, count: int) {
    && from <= to
    && count == |BlockedCalls(script, from, to)|
    && forall k | from <= k < to :: Quiet(script(k))
  }

  lemma QuietNext(script: nat -> RecvOutcome, from: nat, to: nat, count: int)
    requires QuietRun(script, from, to, count) && Quiet(script(to))
    ensures QuietRun(script, from, to + 1, if script(to).WouldBlock? then count + 1 else count)
  {
    var calls, more := BlockedCalls(script, from, to), BlockedCalls(script, from, to + 1);
    assert more == if script(to).WouldBlock? then calls + {to} else calls;
  }

  lemma QuietNone(script: nat -> RecvOutcome, from: nat)
    ensures QuietRun(script, from, from, 0)
  {
    assert BlockedCalls(script, from, from) == {};
  }

  /** From that call on nothing arrived but interrupts and one more would-block than is allowed. */
  ghost predicate TimedOut(script: nat -> RecvOutcome, from: nat, to: nat) {
    QuietRun(script, from, to, 5001)
  }

  /** None of the calls from, ..., to - 1 ends a read: no end, no error, nowhere a timeout. */
  ghost predicate GoesOn(script: nat -> RecvOutcome, from: nat, to: nat) {
    && (forall k | from <= k < to :: script(k).Bytes? || Quiet(script(k)))
    && (forall f: nat, t: nat | from <= f <= t <= to :: !TimedOut(script, f, t))
  }

  /** The quiet run that ends at to began at quiet, after bytes or with the read. */
  ghost predicate QuietSince(script: nat -> RecvOutcome, from: nat, quiet: nat, to: nat, count: int) {
    && from <= quiet && QuietRun(script, quiet, to, count)
    && (quiet == from || !Quiet(script(quiet - 1)))
  }

  lemma NoLongerRun(script: nat -> RecvOutcome, from: nat, quiet: nat, to: nat, count: int, f: nat)
    requires QuietSince(script, from, quiet, to, count) && count <= 5000 && from <= f <= to
    ensures !TimedOut(script, f, to)
  {
    if f >= quiet {
      var fewer, calls := BlockedCalls(script, f, to), BlockedCalls(script, quiet, to);
      assert calls == fewer + (calls - fewer);
    }
  }

  lemma GoesOnNext(script: nat -> RecvOutcome, from: nat, quiet: nat, to: nat, count: int)
    requires GoesOn(script, from, to) && (script(to).Bytes? || Quiet(script(to)))
    requires QuietSince(script, from, quiet, to + 1, count) && count <= 5000
    ensures GoesOn(script, from, to + 1)
  {
    forall f: nat, t: nat | from <= f <= t <= to + 1 ensures !TimedOut(script, f, t) {
      if t == to + 1 {
        NoLongerRun(script, from, quiet, to + 1, count, f);
      }
    }
  }

  lemma GoesOnStart(script: nat -> RecvOutcome, from: nat)
    ensures GoesOn(script, from, from) && QuietSince(script, from, from, from, 0)
  {
    QuietNone(script, from);
  }

  /**
   Why a read gave up that made the recv calls from, ..., to - 1, and the state it leaves: an end of
   stream or an error disconnects, a timeout does not.
   */
  ghost predicate Broke(script: nat -> RecvOutcome, from: nat, to: nat,
                        before: ConnectionState, after: ConnectionState) {
    && from < to
    && if script(to - 1).Eof? || script(to - 1).RecvError? then after == Disconnected
       else after == before && exists quiet: nat :: from <= quiet && TimedOut(script, quiet, to)
  }

  /** No recv of the calls from, ..., to - 1 was made when all size bytes were there. */
  ghost predicate Wanted(script: nat -> RecvOutcome, from: nat, to: nat, size: nat) {
    forall k | from <= k < to :: Got(script, from, k, size) < size
  }

  /** A read of size bytes under way: what it has got, and what its calls were. */
  ghost predicate Reading(script: nat -> RecvOutcome, from: nat, to: nat, size: nat, got: nat,
                          quiet: nat, count: int) {
    && from <= to && got == Got(script, from, to, size) && Wanted(script, from, to, size)
    && GoesOn(script, from, to) && QuietSince(script, from, quiet, to, count)
  }

  lemma ReadingStart(script: nat -> RecvOutcome, from: nat, size: nat)
    ensures Reading(script, from, from, size, 0, from, 0)
  {
    hide GoesOn, QuietSince;
    GoesOnStart(script, from);
  }

  lemma ReadingBytes(script: nat -> RecvOutcome, from: nat, to: nat, size: nat, got: nat, quiet: nat,
                     count: int)
    requires Reading(script, from, to, size, got, quiet, count) && got < size && script(to).Bytes?
    ensures Reading(script, from, to + 1, size, got + Moved(script(to).limit, size - got), to + 1, 0)
  {
    hide Moved, GoesOn;
    QuietNone(script, to + 1);
    GoesOnNext(script, from, to + 1, to, 0);
  }

  lemma ReadingQuiet(script: nat -> RecvOutcome, from: nat, to: nat, size: nat, got: nat, quiet: nat,
                     count: int)
    requires Reading(script, from, to, size, got, quiet, count) && got < size && Quiet(script(to))
    ensures var count' := if script(to).WouldBlock? then count + 1 else count;
      && (count' <= 5000 ==> Reading(script, from, to + 1, size, got, quiet, count'))
      && (count' == 5001 ==> ReadFailed(script, from, to + 1, size, got, Connected, Connected))
  {
    hide GoesOn, TimedOut, QuietRun;
    var count' := if script(to).WouldBlock? then count + 1 else count;
    QuietNext(script, quiet, to, count);
    if count' <= 5000 {
      GoesOnNext(script, from, quiet, to, count');
    } else if count' == 5001 {
      AtLimit(script, quiet, to + 1);
    }
  }

  lemma AtLimit(script: nat -> RecvOutcome, from: nat, to: nat)
    requires QuietRun(script, from, to, 5001)
    ensures TimedOut(script, from, to)
  {
  }

  /** A read of size bytes that gave up at its last call, with got of them. */
  ghost predicate ReadFailed(script: nat -> RecvOutcome, from: nat, to: nat, size: nat, got: nat,
                             before: ConnectionState, after: ConnectionState) {
    && from < to && got == Got(script, from, to, size) < size && Wanted(script, from, to, size)
    && GoesOn(script, from, to - 1) && Broke(script, from, to, before, after)
  }

  lemma ReadingEnds(script: nat -> RecvOutcome, from: nat, to: nat, size: nat, got: nat, quiet: nat,
                    count: int, before: ConnectionState)
    requires Reading(script, from, to, size, got, quiet, count) && got < size
    requires script(to).Eof? || script(to).RecvError?
    ensures ReadFailed(script, from, to + 1, size, got, before, Disconnected)
  {
    hide GoesOn, QuietSince;
  }

  lemma SameState(script: nat -> RecvOutcome, from: nat, to: nat, size: nat, got: nat,
                  state: ConnectionState)
    requires ReadFailed(script, from, to, size, got, Connected, Connected)
    ensures ReadFailed(script, from, to, size, got, state, state)
  {
    hide GoesOn, TimedOut;
  }

  /** A send of size bytes under way, with taken of them gone. */
  ghost predicate Sending(script: nat -> SendOutcome, from: nat, to: nat, size: nat, taken: nat) {
    && from <= to && taken == Taken(script, from, to, size) && Accepted(script, from, to)
    && Offered(script, from, to, size)
  }

  /** No send of the calls from, ..., to - 1 was made when all size bytes were gone. */
  ghost predicate Offered(script: nat -> SendOutcome, from: nat, to: nat, size: nat) {
    forall k | from <= k < to :: Taken(script, from, k, size) < size
  }

  lemma SendingNext(script: nat -> SendOutcome, from: nat, to: nat, size: nat, taken: nat)
    requires Sending(script, from, to, size, taken) && taken < size
    ensures script(to).Sent? ==>
      Sending(script, from, to + 1, size, taken + Moved(script(to).limit, size - taken))
    ensures script(to).Full? ==> Sending(script, from, to + 1, size, taken)
    ensures script(to).PeerClosed? || script(to).SendError? ==>
      Taken(script, from, to + 1, size) == taken && Offered(script, from, to + 1, size)
  {
    hide Moved;
  }

  class TcpClient {
    const stream: Stream
    const recvScript: nat -> RecvOutcome
    const sendScript: nat -> SendOutcome
    ghost const lastInterrupt: nat
    ghost const lastFull: nat
    var state: ConnectionState
    var consumed: nat // bytes of the stream received
    var recvs: nat    // recv calls made
    var sent: Data    // bytes the socket accepted
    var sends: nat    // send calls made

    ghost predicate Valid() {
      && (forall k | lastInterrupt <= k :: !recvScript(k).Interrupted?)
      && (forall k | lastFull <= k :: !sendScript(k).Full?)
    }

    constructor (stream: Stream, recvScript: nat -> RecvOutcome, sendScript: nat -> SendOutcome,
                 ghost lastInterrupt: nat, ghost lastFull: nat)
      requires forall k | lastInterrupt <= k :: !recvScript(k).Interrupted?
      requires forall k | lastFull <= k :: !sendScript(k).Full?
      ensures Valid() && state == Connected && consumed == recvs == sends == 0 && sent == []
      ensures this.stream == stream
      ensures this.recvScript == recvScript && this.sendScript == sendScript
    {
      this.stream, this.recvScript, this.sendScript := stream, recvScript, sendScript;
      this.lastInterrupt, this.lastFull := lastInterrupt, lastFull;
      state, consumed, recvs, sent, sends := Connected, 0, 0, [], 0;
    }

    /** One recv that brings bytes, into the block at that place. */
    method TakeBytes(block: array<byte>, at: nat, limit: nat) returns (n: nat)
      requires at < block.Length
      modifies this`consumed, block
      ensures 0 < n == Moved(limit, block.Length - at) && consumed == old(consumed) + n
      ensures block[..at + n] == old(block[..at]) + Segment(stream, old(consumed), n)
    {
      n := Moved(limit, block.Length - at);
      forall i | 0 <= i < n {
        block[at + i] := stream(consumed + i);
      }
      consumed := consumed + n;
    }

    /**
     Reads exactly length bytes or fails with no data. A failure is an end of stream or an error,
     which disconnect, or MAX_RETRIES + 1 would-blocks with no byte between them, which does not.
     */
    method ReadExactly(length: nat) returns (ok: bool, data: Data)
      requires Valid()
      modifies this`state, this`consumed, this`recvs
      ensures old(recvs) <= recvs && Wanted(recvScript, old(recvs), recvs, length)
      ensures consumed == old(consumed) + Got(recvScript, old(recvs), recvs, length)
      ensures ok <==> Got(recvScript, old(recvs), recvs, length) == length
      ensures ok ==> data == Segment(stream, old(consumed), length) && state == old(state)
      ensures ok ==> GoesOn(recvScript, old(recvs), recvs)
      ensures !ok ==> data == [] && Broke(recvScript, old(recvs), recvs, old(state), state)
      ensures !ok ==> GoesOn(recvScript, old(recvs), recvs - 1)
    {
      hide Segment, Reading, ReadFailed, Got, Wanted, GoesOn, Broke, Moved;
      var block := new byte[length](_ => 0);
      var totalRead := 0;
      var retryCount := 0;
      ghost var quiet, first := recvs, recvs;
      ReadingStart(recvScript, recvs, length);
      NoBytes(stream, consumed);
      while totalRead < length
        invariant 0 <= totalRead <= length && 0 <= retryCount <= MAX_RETRIES
        invariant consumed == old(consumed) + totalRead && state == old(state)
        invariant block[..totalRead] == Segment(stream, old(consumed), totalRead)
        invariant Reading(recvScript, first, recvs, length, totalRead, quiet, retryCount)
        decreases length - totalRead,
          if recvs < lastInterrupt then lastInterrupt - recvs else 0,
          MAX_RETRIES - retryCount
      {
        ghost var to := recvs;
        var outcome := recvScript(recvs);
        recvs := recvs + 1;
        match outcome {
          case Bytes(limit) =>
            var n := TakeBytes(block, totalRead, limit);
            MoreBytes(stream, old(consumed), totalRead, n);
            ReadingBytes(recvScript, first, to, length, totalRead, quiet, retryCount);
            totalRead := totalRead + n;
            retryCount := 0;
            quiet := recvs;
          case Eof =>
            ReadingEnds(recvScript, first, to, length, totalRead, quiet, retryCount, state);
            state := Disconnected;
            FailedSo(recvScript, first, recvs, length, totalRead, old(state), state);
            return false, [];
          case Interrupted =>
            ReadingQuiet(recvScript, first, to, length, totalRead, quiet, retryCount);
          case WouldBlock =>
            ReadingQuiet(recvScript, first, to, length, totalRead, quiet, retryCount);
            retryCount := retryCount + 1;
            if retryCount > MAX_RETRIES {
              SameState(recvScript, first, recvs, length, totalRead, state);
              FailedSo(recvScript, first, recvs, length, totalRead, old(state), state);
              return false, [];
            }
          case RecvError =>
            ReadingEnds(recvScript, first, to, length, totalRead, quiet, retryCount, state);
            state := Disconnected;
            FailedSo(recvScript, first, recvs, length, totalRead, old(state), state);
            return false, [];
        }
      }
      ReadSo(recvScript, first, recvs, length, totalRead, quiet, retryCount);
      return true, block[..length];
    }

    /**
     One length-prefixed message; data is what the caller's vector held before. A call that fails
     has met a bad length, or broke off inside the header or inside the body; unless an end or an
     error disconnected it, the client goes on from there.
     */
    method Receive(data: Data) returns (ok: bool, data': Data)
      requires Valid()
      modifies this`state, this`consumed, this`recvs
      ensures old(state) != Connected ==>
        !ok && data' == data && consumed == old(consumed) && state == old(state)
      ensures old(recvs) <= recvs
      ensures ok ==> TakeAt(stream, old(consumed)) == Some((data', consumed)) && state == Connected
      ensures !ok && old(state) == Connected ==>
        var start, take := old(consumed), TakeAt(stream, old(consumed));
        var broke := Broke(recvScript, old(recvs), recvs, Connected, state);
        || (data' == data && start <= consumed < start + HEADER && broke)
        || (data' == data && consumed == start + HEADER && take == None && state == Connected)
        || (data' == [] && take.Some? && start + HEADER <= consumed < take.value.1 && broke)
    {
      data' := data;
      if state != Connected {
        return false, data;
      }
      var prefixOk, lengthBytes := ReadExactly(HEADER);
      if !prefixOk {
        return false, data;
      }
      var length := FromBigEndian(lengthBytes);
      if length == 0 || length > MAX_FRAME_SIZE {
        return false, data;
      }
      ghost var middle := recvs;
      ok, data' := ReadExactly(length);
      if !ok {
        BrokeLater(recvScript, old(recvs), middle, recvs, Connected, state);
      }
    }

    /**
     As many calls of receive as there are messages on the way, until one fails: what they return
     is the messages in order, all of them unless a call broke off.
     */
    method ReceiveEach(count: nat, ghost ms: seq<Data>) returns (messages: seq<Data>)
      requires Valid() && state == Connected && |ms| == count
      requires forall m | m in ms :: Sendable(m)
      requires Carries(stream, consumed, EncodeAll(ms))
      modifies this`state, this`consumed, this`recvs
      ensures messages <= ms
      ensures messages == ms ==>
        state == Connected && consumed == old(consumed) + |EncodeAll(ms)|
      ensures messages != ms ==> Broke(recvScript, old(recvs), recvs, Connected, state)
    {
      hide Carries, Encode, EncodeAll, TakeAt, Sendable, Broke;
      messages := [];
      ghost var left := ms;
      ghost var end := consumed + |EncodeAll(ms)|;
      while |messages| < count
        invariant ms == messages + left && old(recvs) <= recvs && state == Connected
        invariant Carries(stream, consumed, EncodeAll(left))
        invariant consumed + |EncodeAll(left)| == end
      {
        EncodeAllHead(left, []);
        assert left[0] in ms;
        CarriesParts(stream, consumed, Encode(left[0]), EncodeAll(left[1..]));
        TakeAtEncoded(stream, consumed, left[0]);
        ghost var before := recvs;
        var ok, message := Receive([]);
        if !ok {
          BrokeLater(recvScript, old(recvs), before, recvs, Connected, state);
          return;
        }
        messages := messages + [message];
        left := left[1..];
      }
      EncodeAllHead(left, []);
    }

    /**
     The send loop. It sends what the calls it makes take, makes no call when all is taken, and gives
     up, disconnected, at the first call that finds the peer gone or fails.
     */
    method HandleWrite(data: Data) returns (ok: bool)
      requires Valid()
      modifies this`state, this`sent, this`sends
      ensures old(sends) <= sends && Offered(sendScript, old(sends), sends, |data|)
      ensures old(state) != Connected ==>
        !ok && sent == old(sent) && sends == old(sends) && state == old(state)
      ensures sent == old(sent) + data[..Taken(sendScript, old(sends), sends, |data|)]
      ensures old(state) == Connected ==>
        (ok <==> Taken(sendScript, old(sends), sends, |data|) == |data|)
      ensures ok ==> state == Connected && Accepted(sendScript, old(sends), sends)
      ensures !ok && old(state) == Connected ==>
        && state == Disconnected && old(sends) < sends
        && (sendScript(sends - 1).PeerClosed? || sendScript(sends - 1).SendError?)
        && Accepted(sendScript, old(sends), sends - 1)
    {
      if state != Connected {
        return false;
      }
      hide Moved, Taken, Offered, Accepted;
      var totalSent := 0;
      SendingStart(sendScript, sends, |data|);
      while totalSent < |data|
        invariant 0 <= totalSent <= |data| && state == Connected
        invariant Sending(sendScript, old(sends), sends, |data|, totalSent)
        invariant sent == old(sent) + data[..totalSent]
        decreases |data| - totalSent, if sends < lastFull then lastFull - sends else 0
      {
        SendingNext(sendScript, old(sends), sends, |data|, totalSent);
        var outcome := sendScript(sends);
        sends := sends + 1;
        match outcome {
          case Sent(limit) =>
            var n := Moved(limit, |data| - totalSent);
            assert data[..totalSent + n] == data[..totalSent] + data[totalSent..totalSent + n];
            sent := sent + data[totalSent..totalSent + n];
            totalSent := totalSent + n;
          case Full =>
          case PeerClosed =>
            state := Disconnected;
            return false;
          case SendError =>
            state := Disconnected;
            return false;
        }
      }
      return true;
    }
  }

  lemma SendingStart(script: nat -> SendOutcome, from: nat, size: nat)
    ensures Sending(script, from, from, size, 0)
  {
  }

  lemma FailedSo(script: nat -> RecvOutcome, from: nat, to: nat, size: nat, got: nat,
                 before: ConnectionState, after: ConnectionState)
    requires ReadFailed(script, from, to, size, got, before, after)
    ensures from < to && got == Got(script, from, to, size) < size && Wanted(script, from, to, size)
    ensures GoesOn(script, from, to - 1) && Broke(script, from, to, before, after)
  {
  }

  lemma ReadSo(script: nat -> RecvOutcome, from: nat, to: nat, size: nat, got: nat, quiet: nat, count: int)
    requires Reading(script, from, to, size, got, quiet, count)
    ensures from <= to && got == Got(script, from, to, size) && Wanted(script, from, to, size)
    ensures GoesOn(script, from, to)
  {
  }

  /** All of the calls from, ..., to - 1 took bytes or found the socket full. */
  ghost predicate Accepted(script: nat -> SendOutcome, from: nat, to: nat) {
    forall k | from <= k < to :: script(k).Sent? || script(k).Full?
  }

  lemma NoBytes(stream: Stream, from: nat)
    ensures Segment(stream, from, 0) == []
  {
  }

  lemma MoreBytes(stream: Stream, from: nat, n: nat, more: nat)
    ensures Segment(stream, from, n) + Segment(stream, from + n, more) == Segment(stream, from, n + more)
  {
  }

  lemma BrokeLater(script: nat -> RecvOutcome, first: nat, from: nat, to: nat,
                   before: ConnectionState, after: ConnectionState)
    requires first <= from && Broke(script, from, to, before, after)
    ensures Broke(script, first, to, before, after)
  {
    hide TimedOut;
  }

  /** The message that begins at a place of the stream, and the place behind it. */
  function TakeAt(stream: Stream, p: nat): Option<(Data, nat)> {
    var length := FromBigEndian(Segment(stream, p, HEADER));
    if length == 0 || length > MAX_FRAME_SIZE then None
    else Some((Segment(stream, p + HEADER, length), p + HEADER + length))
  }

  /** k messages one after the other, as k successful calls of Receive return them. */
  function TakeMany(stream: Stream, p: nat, k: nat): Option<(seq<Data>, nat)>
    decreases k
  {
    if k == 0 then Some(([], p))
    else
      match TakeAt(stream, p)
      case None => None
      case Some((m, q)) =>
        match TakeMany(stream, q, k - 1)
        case None => None
        case Some((taken, end)) => Some(([m] + taken, end))
  }

  /** The stream carries these bytes from p on; what comes after them is open. */
  ghost predicate Carries(stream: Stream, p: nat, b: Data) {
    Segment(stream, p, |b|) == b
  }

  lemma CarriesParts(stream: Stream, p: nat, a: Data, b: Data)
    requires Carries(stream, p, a + b)
    ensures Carries(stream, p, a) && Carries(stream, p + |a|, b)
  {
    var s := Segment(stream, p, |a + b|);
    forall i | 0 <= i < |a| ensures stream(p + i) == a[i] {
      assert s[i] == (a + b)[i];
    }
    forall i | 0 <= i < |b| ensures stream(p + |a| + i) == b[i] {
      assert s[|a| + i] == (a + b)[|a| + i];
    }
  }

  lemma TakeAtEncoded(stream: Stream, p: nat, m: Data)
    requires Sendable(m) && Carries(stream, p, Encode(m))
    ensures TakeAt(stream, p) == Some((m, p + |Encode(m)|))
  {
    HeaderReadsBack(m);
    var header := BigEndian(|m|, HEADER);
    assert Encode(m) == header + m;
    assert Encode(m)[..HEADER] == header;
    CarriesParts(stream, p, header, m);
  }

  /** Where a frame with any body lies, its body is received exactly if it has 1 byte to 10 MiB. */
  lemma TakeAtFramed(stream: Stream, p: nat, body: Data)
    requires |body| < LENGTH_LIMIT && Carries(stream, p, Framed(body))
    ensures TakeAt(stream, p) == if Sendable(body) then Some((body, p + 4 + |body|)) else None
  {
    var header := BigEndian(|body|, HEADER);
    FromBigEndianOfBigEndian(|body|, HEADER);
    Pow256Values();
    assert Framed(body) == header + body;
    CarriesParts(stream, p, header, body);
  }

  /**
   On a stream that begins with k encoded messages of 1 byte to 10 MiB, whatever comes after them,
   k successful receive calls return these messages in order and stand exactly behind them.
   */
  lemma {:induction false} ReceivesInOrder(stream: Stream, p: nat, ms: seq<Data>)
    requires forall m | m in ms :: Sendable(m)
    requires Carries(stream, p, EncodeAll(ms))
    ensures TakeMany(stream, p, |ms|) == Some((ms, p + |EncodeAll(ms)|))
    decreases ms
  {
    hide Encode, EncodeAll, TakeAt, TakeMany, Carries, Sendable;
    EncodeAllHead(ms, []);
    if ms == [] {
      TakeNone(stream, p);
    } else {
      assert ms[0] in ms;
      CarriesParts(stream, p, Encode(ms[0]), EncodeAll(ms[1..]));
      TakeAtEncoded(stream, p, ms[0]);
      ReceivesInOrder(stream, p + |Encode(ms[0])|, ms[1..]);
      TakeNext(stream, p, |ms| - 1);
      assert [ms[0]] + ms[1..] == ms;
    }
  }

  lemma TakeNone(stream: Stream, p: nat)
    ensures TakeMany(stream, p, 0) == Some(([], p))
  {
  }

  lemma TakeNext(stream: Stream, p: nat, k: nat)
    requires TakeAt(stream, p).Some? && TakeMany(stream, TakeAt(stream, p).value.1, k).Some?
    ensures var (m, q) := TakeAt(stream, p).value;
      var (taken, end) := TakeMany(stream, q, k).value;
      TakeMany(stream, p, k + 1) == Some(([m] + taken, end))
  {
    hide TakeAt;
  }
}
