/**
 The frame format, a four-byte big-endian length and then the message, and what draining a byte
 stream of frames means. A decoder is given by the lengths it accepts, least to most.
 */
module Frames {
  import opened Bytes

  const HEADER := 4
  const LENGTH_LIMIT := 0x1_0000_0000

  /** FrameCodec::encode: nothing for an empty message, and the length as a uint32. */
  function Encode(m: Data): Data {
    if m == [] then [] else BigEndian(|m|, HEADER) + m
  }

  function EncodeAll(ms: seq<Data>): Data {
    if ms == [] then [] else Encode(ms[0]) + EncodeAll(ms[1..])
  }

  datatype Head =
    | NeedMore                        // less than a header, or less than the frame it announces
    | BadLength                       // a header outside the accepted lengths
    | Complete(body: Data, rest: Data)

  function Next(b: Data, least: nat, most: nat): (h: Head)
    ensures h.Complete? ==> |h.rest| + HEADER <= |b|
  {
    if |b| < HEADER then NeedMore
    else
      var n := FromBigEndian(b[..HEADER]);
      if n < least || n > most then BadLength
      else if |b| < HEADER + n then NeedMore
      else Complete(b[HEADER..HEADER + n], b[HEADER + n..])
  }

  /** Everything that can be taken off the front, what stays, and whether a bad header stopped it. */
  datatype Drained = Drained(frames: seq<Data>, rest: Data, bad: bool)

  function Drain(b: Data, least: nat, most: nat): (d: Drained)
    ensures |d.rest| <= |b|
    decreases |b|
  {
    match Next(b, least, most)
    case NeedMore => Drained([], b, false)
    case BadLength => Drained([], b, true)
    case Complete(body, rest) =>
      var d := Drain(rest, least, most);
      Drained([body] + d.frames, d.rest, d.bad)
  }

  function Prepend(frames: seq<Data>, d: Drained): Drained {
    Drained(frames + d.frames, d.rest, d.bad)
  }

  // ---------------------------------------------------------------- splitting a stream

  lemma NextOfMore(a: Data, b: Data, least: nat, most: nat)
    ensures match Next(a, least, most)
      case Complete(body, rest) => Next(a + b, least, most) == Complete(body, rest + b)
      case BadLength => Next(a + b, least, most) == BadLength
      case NeedMore => true
  {
    if |a| >= HEADER {
      assert (a + b)[..HEADER] == a[..HEADER];
      var n := FromBigEndian(a[..HEADER]);
      if |a| >= HEADER + n {
        assert (a + b)[HEADER..HEADER + n] == a[HEADER..HEADER + n];
        assert (a + b)[HEADER + n..] == a[HEADER + n..] + b;
      }
    }
  }

  /**
   Bytes may arrive in two pieces: draining the first, keeping the rest, and draining again when
   the second has come is draining both at once. A bad header stops both ways at the same place.
   */
  lemma {:induction false} DrainSplit(a: Data, b: Data, least: nat, most: nat)
    ensures var d := Drain(a, least, most);
      Drain(a + b, least, most) ==
        if d.bad then Drained(d.frames, d.rest + b, true)
        else Prepend(d.frames, Drain(d.rest + b, least, most))
    decreases |a|
  {
    NextOfMore(a, b, least, most);
    match Next(a, least, most)
    case NeedMore =>
      assert Prepend([], Drain(a + b, least, most)) == Drain(a + b, least, most);
    case BadLength =>
    case Complete(body, rest) =>
      DrainSplit(rest, b, least, most);
      var d, e := Drain(rest, least, most), Drain(Drain(rest, least, most).rest + b, least, most);
      assert [body] + (d.frames + e.frames) == ([body] + d.frames) + e.frames;
  }

  /** A drained rest stays drained: it is short of a frame, or it begins with the bad header. */
  lemma {:induction false} RestIsFinal(b: Data, least: nat, most: nat)
    ensures var d := Drain(b, least, most);
      Next(d.rest, least, most) == if d.bad then BadLength else NeedMore
    decreases |b|
  {
    match Next(b, least, most)
    case Complete(body, rest) => RestIsFinal(rest, least, most);
    case _ =>
  }

  /** What is left over is shorter than the longest frame. */
  lemma {:induction false} RestIsShort(b: Data, least: nat, most: nat)
    ensures var d := Drain(b, least, most); !d.bad ==> |d.rest| <= most + HEADER - 1
  {
    RestIsFinal(b, least, most);
  }

  // ---------------------------------------------------------------- encode and decode

  ghost predicate Sized(m: Data, least: nat, most: nat) {
    1 <= |m| < LENGTH_LIMIT && least <= |m| <= most
  }

  lemma HeaderReadsBack(m: Data)
    requires 1 <= |m| < LENGTH_LIMIT
    ensures |Encode(m)| == HEADER + |m|
    ensures FromBigEndian(Encode(m)[..HEADER]) == |m|
  {
    FromBigEndianOfBigEndian(|m|, HEADER);
    Pow256Values();
    assert Encode(m)[..HEADER] == BigEndian(|m|, HEADER);
  }

  lemma NextOfEncoded(m: Data, tail: Data, least: nat, most: nat)
    requires Sized(m, least, most)
    ensures Next(Encode(m) + tail, least, most) == Complete(m, tail)
  {
    HeaderReadsBack(m);
    var b := Encode(m) + tail;
    assert b[..HEADER] == Encode(m)[..HEADER];
    assert b[HEADER..HEADER + |m|] == m;
    assert b[HEADER + |m|..] == tail;
  }

  lemma NextOfPart(m: Data, part: Data, least: nat, most: nat)
    requires Sized(m, least, most) && part <= Encode(m) && part != Encode(m)
    ensures Next(part, least, most) == NeedMore
  {
    HeaderReadsBack(m);
    if |part| >= HEADER {
      assert part[..HEADER] == Encode(m)[..HEADER];
    }
  }

  lemma EncodeAllHead(ms: seq<Data>, tail: Data)
    ensures ms == [] ==> EncodeAll(ms) == [] && EncodeAll(ms) + tail == tail
    ensures ms != [] ==> EncodeAll(ms) == Encode(ms[0]) + EncodeAll(ms[1..])
    ensures ms != [] ==> EncodeAll(ms) + tail == Encode(ms[0]) + (EncodeAll(ms[1..]) + tail)
  {
    hide Encode;
    if ms == [] {
      assert EncodeAll(ms) + tail == tail;
    } else {
      var first, after := Encode(ms[0]), EncodeAll(ms[1..]);
      assert (first + after) + tail == first + (after + tail);
    }
  }

  /** Decoding undoes encoding: whatever follows, the encoded messages come off first, in order. */
  lemma {:induction false} DrainEncoded(ms: seq<Data>, tail: Data, least: nat, most: nat)
    requires forall m | m in ms :: Sized(m, least, most)
    ensures Drain(EncodeAll(ms) + tail, least, most) == Prepend(ms, Drain(tail, least, most))
  {
    hide Encode, EncodeAll, Next, Sized;
    EncodeAllHead(ms, tail);
    if ms != [] {
      var after := EncodeAll(ms[1..]) + tail;
      assert ms[0] in ms;
      NextOfEncoded(ms[0], after, least, most);
      DrainEncoded(ms[1..], tail, least, most);
      assert [ms[0]] + ms[1..] == ms;
    }
  }

  /** d holds every message that part of the stream of ms contains in full, and the rest of part. */
  ghost predicate Begins(ms: seq<Data>, part: Data, d: Drained) {
    && !d.bad
    && d.frames <= ms
    && EncodeAll(d.frames) + d.rest == part
    && (if d.frames == ms then d.rest == [] else d.rest < Encode(ms[|d.frames|]))
  }

  lemma BeginsCons(ms: seq<Data>, part: Data, d: Drained)
    requires ms != [] && Begins(ms[1..], part, d)
    ensures Begins(ms, Encode(ms[0]) + part, Prepend([ms[0]], d))
  {
    hide Encode;
    var frames := [ms[0]] + d.frames;
    assert frames[1..] == d.frames;
    assert EncodeAll(frames) + d.rest == Encode(ms[0]) + (EncodeAll(d.frames) + d.rest);
    assert ms == [ms[0]] + ms[1..];
    if d.frames != ms[1..] {
      assert ms[|frames|] == ms[1..][|d.frames|];
    }
  }

  /**
   Any beginning of a stream of encoded messages drains to the messages it holds in full and to a
   rest that is a proper part of the next one.
   */
  lemma {:induction false} DrainPrefix(ms: seq<Data>, part: Data, least: nat, most: nat)
    requires forall m | m in ms :: Sized(m, least, most)
    requires part <= EncodeAll(ms)
    ensures Begins(ms, part, Drain(part, least, most))
    decreases ms
  {
    if ms == [] {
      assert part == [];
    } else {
      hide Encode, EncodeAll, Next, Begins;
      var first := Encode(ms[0]);
      assert ms[0] in ms;
      HeaderReadsBack(ms[0]);
      EncodeAllHead(ms, []);
      hide Sized;
      PrefixCut(part, first, EncodeAll(ms[1..]));
      if |part| < |first| {
        NextOfPart(ms[0], part, least, most);
        BeginsShort(ms, part);
      } else {
        var more := part[|first|..];
        NextOfEncoded(ms[0], more, least, most);
        DrainPrefix(ms[1..], more, least, most);
        BeginsCons(ms, more, Drain(more, least, most));
      }
    }
  }

  lemma PrefixCut(part: Data, first: Data, after: Data)
    requires part <= first + after
    ensures |part| < |first| ==> part < first
    ensures |part| >= |first| ==>
      part == first + part[|first|..] && part[|first|..] <= after
  {
    if |part| < |first| {
      assert part == (first + after)[..|part|] == first[..|part|];
    } else {
      assert part[..|first|] == (first + after)[..|part|][..|first|] == first;
      assert part[|first|..] == (first + after)[..|part|][|first|..] == after[..|part| - |first|];
    }
  }

  lemma BeginsShort(ms: seq<Data>, part: Data)
    requires ms != [] && part < Encode(ms[0])
    ensures Begins(ms, part, Drained([], part, false))
  {
    assert EncodeAll([]) + part == part;
  }

  lemma NextGivesBack(b: Data, least: nat, most: nat)
    requires Next(b, least, most).Complete? && least >= 1
    ensures var h := Next(b, least, most); Encode(h.body) + h.rest == b
  {
    var n := FromBigEndian(b[..HEADER]);
    BigEndianOfFromBigEndian(b[..HEADER]);
    assert b == b[..HEADER] + b[HEADER..HEADER + n] + b[HEADER + n..];
  }

  /**
   Conservation on any bytes, well-formed or not: the messages taken off, encoded again, and the
   rest are the bytes that came in. Needs only that empty frames are not accepted.
   */
  lemma {:induction false} DrainGivesBack(b: Data, least: nat, most: nat)
    requires least >= 1
    ensures var d := Drain(b, least, most); EncodeAll(d.frames) + d.rest == b
    decreases |b|
  {
    match Next(b, least, most)
    case Complete(body, rest) =>
      NextGivesBack(b, least, most);
      DrainGivesBack(rest, least, most);
      var d := Drain(rest, least, most);
      assert ([body] + d.frames)[1..] == d.frames;
      assert Encode(body) + EncodeAll(d.frames) + d.rest
        == Encode(body) + (EncodeAll(d.frames) + d.rest);
    case _ =>
      assert EncodeAll([]) + b == b;
  }

  lemma {:induction false} EncodeAllAppend(a: seq<Data>, b: seq<Data>)
    ensures EncodeAll(a + b) == EncodeAll(a) + EncodeAll(b)
  {
    if a == [] {
      assert a + b == b;
    } else {
      assert (a + b)[1..] == a[1..] + b;
      EncodeAllAppend(a[1..], b);
    }
  }

  lemma {:induction false} FramesSized(b: Data, least: nat, most: nat)
    ensures forall f | f in Drain(b, least, most).frames :: least <= |f| <= most
    decreases |b|
  {
    match Next(b, least, most)
    case Complete(body, rest) => FramesSized(rest, least, most);
    case _ =>
  }

  /** One encoded message, whatever its size: it comes out whole exactly when its size is accepted. */
  lemma RoundTripIff(m: Data, least: nat, most: nat)
    requires most < LENGTH_LIMIT
    ensures Drain(Encode(m), least, most) == Drained([m], [], false)
      <==> m != [] && least <= |m| <= most
  {
    if m != [] && least <= |m| <= most {
      EncodeAllHead([m], []);
      assert EncodeAll([m]) + [] == Encode(m);
      assert forall x | x in [m] :: Sized(x, least, most);
      DrainEncoded([m], [], least, most);
      assert Prepend([m], Drain([], least, most)).frames == [m];
    } else if m != [] {
      FramesSized(Encode(m), least, most);
      assert m in [m];
    }
  }

  /** A header and a body, empty or not. */
  function Framed(body: Data): (b: Data)
    ensures |b| == 4 + |body|
  {
    BigEndian(|body|, HEADER) + body
  }

  /** One frame with any body comes out whole exactly when the length of the body is accepted. */
  lemma FramedIff(body: Data, least: nat, most: nat)
    requires |body| < LENGTH_LIMIT
    ensures Drain(Framed(body), least, most) == Drained([body], [], false) <==> least <= |body| <= most
  {
    var b := Framed(body);
    FromBigEndianOfBigEndian(|body|, HEADER);
    Pow256Values();
    assert b[..HEADER] == BigEndian(|body|, HEADER);
    assert b[HEADER..] == body;
    if least <= |body| <= most {
      assert Next(b, least, most) == Complete(body, []);
      assert [body] + [] == [body];
    }
  }

  // ---------------------------------------------------------------- many chunks

  function Concat(chunks: seq<Data>): Data {
    if chunks == [] then [] else Concat(chunks[..|chunks| - 1]) + chunks[|chunks| - 1]
  }
}
