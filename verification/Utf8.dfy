/**
 UTF-8 (RFC 3629): the check that the generated code asks for, byte by byte, and what it means in
 terms of code points.
 */
module Utf8 {
  import opened Bytes

  predicate IsTail(b: Data, k: nat) {
    k < |b| && 0x80 <= b[k] <= 0xbf
  }

  /** The length of the well-formed UTF-8 sequence that b begins with, or 0 (RFC 3629, section 4). */
  function SequenceLength(b: Data): (n: nat)
    ensures n <= |b|
  {
    if b == [] then 0
    else if b[0] < 0x80 then 1
    else if 0xc2 <= b[0] <= 0xdf then (if IsTail(b, 1) then 2 else 0)
    else if 0xe0 <= b[0] <= 0xef then
      if IsTail(b, 1) && IsTail(b, 2)
         && (b[0] == 0xe0 ==> b[1] >= 0xa0) && (b[0] == 0xed ==> b[1] <= 0x9f) then 3 else 0
    else if 0xf0 <= b[0] <= 0xf4 then
      if IsTail(b, 1) && IsTail(b, 2) && IsTail(b, 3)
         && (b[0] == 0xf0 ==> b[1] >= 0x90) && (b[0] == 0xf4 ==> b[1] <= 0x8f) then 4 else 0
    else 0
  }

  predicate ValidUtf8(b: Data)
    decreases |b|
  {
    b == [] || (SequenceLength(b) > 0 && ValidUtf8(b[SequenceLength(b)..]))
  }

  // ---------------------------------------------------------------- code points

  /** A Unicode scalar value: any code point but a surrogate. */
  type Scalar = c: int | 0 <= c <= 0x10ffff && !(0xd800 <= c <= 0xdfff)

  function EncodePoint(c: Scalar): (b: Data)
    ensures 1 <= |b| <= 4
  {
    if c < 0x80 then [c]
    else if c < 0x800 then [0xc0 + c / 0x40, 0x80 + c % 0x40]
    else if c < 0x1_0000 then [0xe0 + c / 0x1000, 0x80 + c / 0x40 % 0x40, 0x80 + c % 0x40]
    else [0xf0 + c / 0x4_0000, 0x80 + c / 0x1000 % 0x40, 0x80 + c / 0x40 % 0x40, 0x80 + c % 0x40]
  }

  function EncodePoints(cs: seq<Scalar>): Data {
    if cs == [] then [] else EncodePoint(cs[0]) + EncodePoints(cs[1..])
  }

  lemma PointIsSequence(c: Scalar, rest: Data)
    ensures SequenceLength(EncodePoint(c) + rest) == |EncodePoint(c)|
  {
    var b := EncodePoint(c) + rest;
    if c < 0x80 {
      assert b[0] == c;
    } else if c < 0x800 {
      assert b[0] == 0xc0 + c / 0x40 && b[1] == 0x80 + c % 0x40;
    } else if c < 0x1_0000 {
      ThreeIsSequence(c, rest);
    } else {
      FourIsSequence(c, rest);
    }
  }

  lemma ThreeIsSequence(c: Scalar, rest: Data)
    requires 0x800 <= c < 0x1_0000
    ensures SequenceLength(EncodePoint(c) + rest) == 3
  {
    var b := EncodePoint(c) + rest;
    assert b[0] == 0xe0 + c / 0x1000 && b[1] == 0x80 + c / 0x40 % 0x40 && b[2] == 0x80 + c % 0x40;
  }

  lemma FourIsSequence(c: Scalar, rest: Data)
    requires c >= 0x1_0000
    ensures SequenceLength(EncodePoint(c) + rest) == 4
  {
    var b := EncodePoint(c) + rest;
    assert b[0] == 0xf0 + c / 0x4_0000 && b[1] == 0x80 + c / 0x1000 % 0x40;
    assert b[2] == 0x80 + c / 0x40 % 0x40 && b[3] == 0x80 + c % 0x40;
  }

  /** The six bits that a byte of a sequence carries. */
  function Low(b: Data, k: nat): int {
    if k < |b| then (b[k] as int) - 0x80 else 0
  }

  lemma TwoDigits(a: int, l: int)
    requires 0 <= l < 0x40
    ensures (0x40 * a + l) / 0x40 == a && (0x40 * a + l) % 0x40 == l
  {
  }

  lemma ThreeDigits(a: int, m: int, l: int)
    requires 0 <= m < 0x40 && 0 <= l < 0x40
    ensures var c := 0x1000 * a + 0x40 * m + l;
      c / 0x1000 == a && c / 0x40 % 0x40 == m && c % 0x40 == l
  {
    TwoDigits(0x40 * a + m, l);
    TwoDigits(a, m);
  }

  lemma FourDigits(a: int, h: int, m: int, l: int)
    requires 0 <= h < 0x40 && 0 <= m < 0x40 && 0 <= l < 0x40
    ensures var c := 0x4_0000 * a + 0x1000 * h + 0x40 * m + l;
      c / 0x4_0000 == a && c / 0x1000 % 0x40 == h && c / 0x40 % 0x40 == m && c % 0x40 == l
  {
    ThreeDigits(0x40 * a + h, m, l);
    TwoDigits(a, h);
  }

  lemma SequenceIsPoint(b: Data) returns (c: Scalar)
    requires SequenceLength(b) > 0
    ensures EncodePoint(c) == b[..SequenceLength(b)]
  {
    var b0: int := b[0];
    if b0 < 0x80 {
      c := b0;
    } else if b0 <= 0xdf {
      TwoDigits(b0 - 0xc0, Low(b, 1));
      c := 0x40 * (b0 - 0xc0) + Low(b, 1);
    } else if b0 <= 0xef {
      c := ThreeBytes(b);
    } else {
      c := FourBytes(b);
    }
  }

  lemma ThreeBytes(b: Data) returns (c: Scalar)
    requires SequenceLength(b) > 0 && 0xe0 <= b[0] <= 0xef
    ensures EncodePoint(c) == b[..SequenceLength(b)]
  {
    var a, m, l := (b[0] as int) - 0xe0, Low(b, 1), Low(b, 2);
    ThreeDigits(a, m, l);
    var n := 0x1000 * a + 0x40 * m + l;
    assert 0x800 <= n < 0x1_0000;
    assert a == 0xd ==> m < 0x20;
    c := n;
  }

  lemma FourBytes(b: Data) returns (c: Scalar)
    requires SequenceLength(b) > 0 && b[0] >= 0xf0
    ensures EncodePoint(c) == b[..SequenceLength(b)]
  {
    var a, h, m, l := (b[0] as int) - 0xf0, Low(b, 1), Low(b, 2), Low(b, 3);
    FourDigits(a, h, m, l);
    var n := 0x4_0000 * a + 0x1000 * h + 0x40 * m + l;
    assert 0x1_0000 <= n <= 0x10_ffff;
    c := n;
  }

  lemma {:induction false} PointsAreValid(cs: seq<Scalar>)
    ensures ValidUtf8(EncodePoints(cs))
  {
    hide SequenceLength, EncodePoint;
    if cs != [] {
      var first, rest := EncodePoint(cs[0]), EncodePoints(cs[1..]);
      PointIsSequence(cs[0], rest);
      assert (first + rest)[|first|..] == rest;
      PointsAreValid(cs[1..]);
    }
  }

  lemma {:induction false} ValidIsPoints(b: Data) returns (cs: seq<Scalar>)
    requires ValidUtf8(b)
    ensures EncodePoints(cs) == b
    decreases |b|
  {
    hide SequenceLength, EncodePoint;
    if b == [] {
      cs := [];
    } else {
      var n := SequenceLength(b);
      var c := SequenceIsPoint(b);
      var more := ValidIsPoints(b[n..]);
      cs := [c] + more;
      assert cs[1..] == more && b == b[..n] + b[n..];
    }
  }

  /** Bytes are accepted as text exactly when they encode some sequence of code points. */
  lemma ValidIff(b: Data)
    ensures ValidUtf8(b) <==> exists cs :: EncodePoints(cs) == b
  {
    hide ValidUtf8;
    if ValidUtf8(b) {
      var cs := ValidIsPoints(b);
      assert EncodePoints(cs) == b;
    } else if cs :| EncodePoints(cs) == b {
      PointsAreValid(cs);
    }
  }
}
