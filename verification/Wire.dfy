/**
 The wire primitives of the Protocol Buffers Encoding specification that the generated code calls:
 base 128 varints and length-delimited bytes (sections "Base 128 Varints" and "Message Structure").
 */
module Wire {
  import opened Bytes
  import opened Decimal
  import opened Results

  /** The longest varint: ten groups of seven bits hold 64. */
  const MAX_VARINT := 10

  /** Seven bits a byte, least significant group first, the top bit set on all but the last. */
  function Varint(n: nat): (b: Data)
    ensures b != []
  {
    if n < 128 then [n] else [128 + n % 128] + Varint(n / 128)
  }

  /** The number a varint of at most limit bytes begins with, and what follows it. */
  function ReadVarint(b: Data, limit: nat): (r: Option<(nat, Data)>)
    ensures r.Some? ==> |r.value.1| < |b|
    decreases limit
  {
    if b == [] || limit == 0 then None
    else if b[0] < 128 then Some((b[0], b[1..]))
    else
      match ReadVarint(b[1..], limit - 1)
      case None => None
      case Some((high, rest)) => Some((b[0] - 128 + 128 * high, rest))
  }

  /** ReadVarint64: what does not fit in 64 bits is dropped. */
  function ReadVarint64(b: Data): (r: Option<(uint64, Data)>)
    ensures r.Some? ==> |r.value.1| < |b|
  {
    match ReadVarint(b, MAX_VARINT)
    case None => None
    case Some((n, rest)) => Some((n % TWO_64, rest))
  }

  /** ReadVarint32: the low 32 bits of a varint of any length up to ten. */
  function ReadVarint32(b: Data): (r: Option<(uint32, Data)>)
    ensures r.Some? ==> |r.value.1| < |b|
  {
    match ReadVarint(b, MAX_VARINT)
    case None => None
    case Some((n, rest)) => Some((n % TWO_32, rest))
  }

  /** An int32 goes on the wire as the 64-bit two's complement of its value. */
  function SignExtended(i: int32): uint64 {
    if i < 0 then TWO_64 + i else i
  }

  function ToInt32(n: uint32): int32 {
    if n > INT_MAX then n - TWO_32 else n
  }

  /** A length and then that many bytes. */
  function Delimited(s: Data): Data {
    Varint(|s|) + s
  }

  function ReadDelimited(b: Data): (r: Option<(Data, Data)>)
    ensures r.Some? ==> |r.value.1| < |b|
  {
    match ReadVarint(b, MAX_VARINT)
    case None => None
    case Some((n, rest)) => if n > |rest| then None else Some((rest[..n], rest[n..]))
  }

  function VarintSize(n: nat): nat {
    if n < 128 then 1 else 1 + VarintSize(n / 128)
  }

  const MAX_TAG := 5

  /** A field's tag is a varint of at most five bytes. */
  function ReadTag(b: Data): (r: Option<(uint32, Data)>)
    ensures r.Some? ==> |r.value.1| < |b|
  {
    match ReadVarint(b, MAX_TAG)
    case None => None
    case Some((n, rest)) => Some((n % TWO_32, rest))
  }

  lemma TagReadsBack(tag: nat, rest: Data)
    requires tag < 128
    ensures ReadTag([tag] + rest) == Some((tag, rest))
  {
    assert ([tag] + rest)[1..] == rest;
  }

  // ---------------------------------------------------------------- reading back

  function Pow128(k: nat): (p: nat)
    ensures p > 0
  {
    if k == 0 then 1 else 128 * Pow128(k - 1)
  }

  lemma {:induction false} VarintReadsBack(n: nat, rest: Data, limit: nat)
    requires limit > 0 && n < Pow128(limit)
    ensures ReadVarint(Varint(n) + rest, limit) == Some((n, rest))
  {
    var b := Varint(n) + rest;
    if n < 128 {
      assert b[1..] == rest;
    } else {
      assert b[1..] == Varint(n / 128) + rest;
      VarintReadsBack(n / 128, rest, limit - 1);
    }
  }

  lemma {:induction false} VarintLength(n: nat)
    ensures |Varint(n)| == VarintSize(n)
  {
    if n >= 128 {
      VarintLength(n / 128);
    }
  }

  /** The example of the Encoding specification: 150 is 0x96 0x01. */
  lemma VarintOf150()
    ensures Varint(150) == [0x96, 0x01]
  {
    assert Varint(1) == [1];
  }

  /** A varint that is cut off is no varint: no number's bytes begin another's. */
  lemma {:induction false} VarintCut(n: nat, k: nat, limit: nat)
    requires k < |Varint(n)|
    ensures ReadVarint(Varint(n)[..k], limit) == None
    decreases k
  {
    var b := Varint(n)[..k];
    if k > 0 {
      assert b[0] == Varint(n)[0] && n >= 128;
      assert b[1..] == Varint(n / 128)[..k - 1];
      if limit > 0 {
        VarintCut(n / 128, k - 1, limit - 1);
      }
    }
  }

  /** Ten bytes that all say there is more are refused, whatever comes next. */
  lemma TenAreTheMost(b: Data)
    requires |b| >= 10 && forall k | 0 <= k < 10 :: b[k] >= 128
    ensures ReadVarint64(b) == None && ReadVarint32(b) == None && ReadDelimited(b) == None
  {
    hide ReadVarint;
    NoLastByte(b, 10);
  }

  /** And five in a tag. */
  lemma FiveAreTheMostInATag(b: Data)
    requires |b| >= 5 && forall k | 0 <= k < 5 :: b[k] >= 128
    ensures ReadTag(b) == None
  {
    hide ReadVarint;
    NoLastByte(b, 5);
  }

  lemma {:induction false} NoLastByte(b: Data, limit: nat)
    requires |b| >= limit && forall k | 0 <= k < limit :: b[k] >= 128
    ensures ReadVarint(b, limit) == None
  {
    if limit > 0 {
      NoLastByte(b[1..], limit - 1);
    }
  }

  /** A negative int32 takes ten bytes on the wire. */
  lemma NegativeTakesTen(i: int32)
    requires i < 0
    ensures |Varint(SignExtended(i))| == 10
  {
    hide Varint;
    VarintLength(SignExtended(i));
    SizeOf(TWO_64 + i, 10);
  }

  /** k bytes hold the numbers from 128^(k - 1) on that are below 128^k. */
  lemma {:induction false} SizeOf(n: nat, k: nat)
    requires k >= 1 && n < Pow128(k) && (k == 1 || n >= Pow128(k - 1))
    ensures VarintSize(n) == k
  {
    Pow128OfTen();
    if k > 1 {
      assert Pow128(k) == 128 * Pow128(k - 1);
      assert k > 2 ==> Pow128(k - 1) == 128 * Pow128(k - 2);
      assert Pow128(1) == 128;
      SizeOf(n / 128, k - 1);
    }
  }

  /** Delimited bytes that are cut off are refused. */
  lemma DelimitedCut(s: Data, k: nat)
    requires |s| < TWO_64 && k < |Delimited(s)|
    ensures ReadDelimited(Delimited(s)[..k]) == None
  {
    hide Varint, ReadVarint, Pow128;
    var head := Varint(|s|);
    if k < |head| {
      assert Delimited(s)[..k] == head[..k];
      VarintCut(|s|, k, MAX_VARINT);
    } else {
      var part := s[..k - |head|];
      assert Delimited(s)[..k] == head + part;
      Pow128OfTen();
      VarintReadsBack(|s|, part, MAX_VARINT);
    }
  }

  lemma Pow128OfTen()
    ensures Pow128(MAX_VARINT) == 64 * TWO_64
    ensures Pow128(9) == TWO_64 / 2
  {
    assert Pow128(2) == 0x4000;
    assert Pow128(4) == 0x1000_0000;
    assert Pow128(6) == 0x400_0000_0000;
    assert Pow128(8) == 0x100_0000_0000_0000;
  }

  lemma Uint64ReadsBack(n: uint64, rest: Data)
    ensures ReadVarint64(Varint(n) + rest) == Some((n, rest))
  {
    hide Varint, ReadVarint, Pow128;
    Pow128OfTen();
    VarintReadsBack(n, rest, MAX_VARINT);
  }

  lemma LowBits(i: int32)
    ensures ToInt32(SignExtended(i) % TWO_32) == i
  {
    if i < 0 {
      ModUnique(TWO_64 + i, TWO_32, TWO_32 - 1, TWO_32 + i);
    }
  }

  /** A negative int32 takes ten bytes and still reads back from their low 32 bits. */
  lemma Int32ReadsBack(i: int32, rest: Data)
    ensures var r := ReadVarint32(Varint(SignExtended(i)) + rest);
      r.Some? && r.value.1 == rest && ToInt32(r.value.0) == i
  {
    hide Varint, ReadVarint, SignExtended, ToInt32, Pow128;
    Pow128OfTen();
    VarintReadsBack(SignExtended(i), rest, MAX_VARINT);
    LowBits(i);
  }

  lemma DelimitedReadsBack(s: Data, rest: Data)
    requires |s| < TWO_64
    ensures ReadDelimited(Delimited(s) + rest) == Some((s, rest))
  {
    Pow128OfTen();
    VarintReadsBack(|s|, s + rest, MAX_VARINT);
    assert Delimited(s) + rest == Varint(|s|) + (s + rest);
    assert (s + rest)[..|s|] == s && (s + rest)[|s|..] == rest;
  }
}
