/** The balancer's hash: FNV-1a on 32 bits, over the chars of a key as the platform's signed char. */
module Fnv {
  import opened Decimal

  const OFFSET_BASIS := 2166136261
  const PRIME := 16777619
  /** PRIME is odd, so it has an inverse modulo 2^32. */
  const PRIME_INVERSE := 899433627

  function Pow2(n: nat): (p: nat)
    ensures p > 0
  {
    if n == 0 then 1 else 2 * Pow2(n - 1)
  }

  /** Exclusive or of the n low bits. */
  function Xor(x: nat, y: nat, n: nat): (r: nat)
    ensures r < Pow2(n)
  {
    if n == 0 then 0
    else 2 * Xor(x / 2, y / 2, n - 1) + (if x % 2 == y % 2 then 0 else 1)
  }

  ghost predicate SameModulo(i: int, j: int, m: int)
    requires m > 0
  {
    (i - j) % m == 0
  }

  /** static_cast<uint32_t>(char): the sign bit of a byte of 128 or more is extended. */
  function Widen(c: char): uint32 {
    var b := c as int % 256;
    if b < 128 then b else b + 0xffff_ff00
  }

  /** The signed char i with this byte, taken modulo 2^32. */
  lemma WidenIsSigned(c: char)
    ensures exists i: int :: -128 <= i < 128 && SameModulo(i, c as int, 256) && SameModulo(i, Widen(c), TWO_32)
  {
    var b := c as int % 256;
    var i := if b < 128 then b else b - 256;
    assert SameModulo(i, c as int, 256) && SameModulo(i, Widen(c), TWO_32);
  }

  lemma WidenInjective(c: char, d: char)
    requires c as int < 256 && d as int < 256 && Widen(c) == Widen(d)
    ensures c == d
  {
    assert c as int % 256 == c as int && d as int % 256 == d as int;
  }

  function Mix(h: uint32, c: char): uint32 {
    Xor(h, Widen(c), 32) * PRIME % TWO_32
  }

  function HashFrom(h: uint32, key: string): uint32 {
    if key == "" then h else Mix(HashFrom(h, key[..|key| - 1]), key[|key| - 1])
  }

  function Hash(key: string): uint32 {
    HashFrom(OFFSET_BASIS, key)
  }

  method ComputeHash(key: string) returns (hash: uint32)
    ensures hash == Hash(key)
  {
    Pow2Is32();
    hash := OFFSET_BASIS;
    for k := 0 to |key|
      invariant hash == HashFrom(OFFSET_BASIS, key[..k])
    {
      assert key[..k + 1][..k] == key[..k];
      hash := Xor(hash, Widen(key[k]), 32);
      hash := hash * PRIME % TWO_32;
    }
    assert key[..|key|] == key;
  }

  lemma Pow2Is32()
    ensures Pow2(32) == TWO_32
  {
    assert Pow2(8) == 256;
    assert Pow2(16) == 0x1_0000;
    assert Pow2(24) == 0x100_0000;
  }

  lemma {:induction false} XorZero(x: nat, n: nat)
    requires x < Pow2(n)
    ensures Xor(x, 0, n) == x
  {
    if n > 0 {
      XorZero(x / 2, n - 1);
    }
  }

  lemma XorBit(x: nat, y: nat, n: nat)
    requires n > 0
    ensures Xor(x, y, n) == 2 * Xor(x / 2, y / 2, n - 1) + (if x % 2 == y % 2 then 0 else 1)
  {
  }

  lemma BasisXorA()
    ensures Xor(OFFSET_BASIS, 97, 32) == 2166136228
  {
    hide Xor, Pow2;
    BasisFits();
    XorZero(16922939, 25);
    XorBit(33845879, 1, 26);
    XorBit(67691758, 3, 27);
    XorBit(135383516, 6, 28);
    XorBit(270767032, 12, 29);
    XorBit(541534065, 24, 30);
    XorBit(1083068130, 48, 31);
    XorBit(2166136261, 97, 32);
  }

  lemma BasisFits()
    ensures 16922939 < Pow2(25)
  {
    assert Pow2(8) == 256;
    assert Pow2(16) == 0x1_0000;
    assert Pow2(24) == 0x100_0000;
  }

  /** A published FNV-1a value: the hash of "a". */
  lemma HashOfA()
    ensures Hash("a") == 0xe40c292c
  {
    hide Xor;
    BasisXorA();
    assert "a"[..0] == "";
    assert HashFrom(OFFSET_BASIS, "a"[..0]) == OFFSET_BASIS;
    assert "a"[0] == 'a' && Widen('a') == 97;
  }

  lemma {:induction false} XorTwice(x: nat, y: nat, n: nat)
    requires x < Pow2(n)
    ensures Xor(Xor(x, y, n), y, n) == x
  {
    if n > 0 {
      hide Xor;
      XorTwice(x / 2, y / 2, n - 1);
      XorHalves(x, y, n);
      XorBit(Xor(x, y, n), y, n);
    } else {
      XorZero(x, 0);
    }
  }

  lemma XorHalves(x: nat, y: nat, n: nat)
    requires n > 0
    ensures Xor(x, y, n) / 2 == Xor(x / 2, y / 2, n - 1)
    ensures Xor(x, y, n) % 2 == if x % 2 == y % 2 then 0 else 1
  {
    hide Xor;
    XorBit(x, y, n);
  }

  lemma {:induction false} XorSwaps(x: nat, y: nat, n: nat)
    ensures Xor(x, y, n) == Xor(y, x, n)
  {
    if n > 0 {
      XorSwaps(x / 2, y / 2, n - 1);
    }
  }

  /** A step is one to one in the state, whatever the character, and in the byte. */
  lemma MixInjective(g: uint32, h: uint32, c: char, d: char)
    requires Mix(g, c) == Mix(h, d)
    ensures Widen(c) == Widen(d) ==> g == h
    ensures g == h ==> Widen(c) == Widen(d)
  {
    Pow2Is32();
    hide Xor, Widen;
    TimesPrimeInjective(Xor(g, Widen(c), 32), Xor(h, Widen(d), 32));
    XorTwice(g, Widen(c), 32);
    XorTwice(h, Widen(d), 32);
    XorTwice(Widen(c), g, 32);
    XorTwice(Widen(d), h, 32);
    XorSwaps(g, Widen(c), 32);
    XorSwaps(h, Widen(d), 32);
  }

  lemma TimesPrimeInjective(x: int, y: int)
    requires 0 <= x < TWO_32 && 0 <= y < TWO_32
    requires x * PRIME % TWO_32 == y * PRIME % TWO_32
    ensures x == y
  {
    var d := x - y;
    var k := x * PRIME / TWO_32 - y * PRIME / TWO_32;
    assert d * PRIME == k * TWO_32;
    var q := 3513497;
    assert PRIME * PRIME_INVERSE == 1 + q * TWO_32;
    assert d * (PRIME * PRIME_INVERSE) == k * PRIME_INVERSE * TWO_32;
    assert d == TWO_32 * (k * PRIME_INVERSE - q * d);
  }

  /** Equal tails keep different states apart. */
  lemma {:induction false} TailInjective(g: uint32, h: uint32, tail: string)
    requires g != h
    ensures HashFrom(g, tail) != HashFrom(h, tail)
  {
    if tail != "" {
      hide Mix;
      var front, last := tail[..|tail| - 1], tail[|tail| - 1];
      TailInjective(g, h, front);
      if HashFrom(g, tail) == HashFrom(h, tail) {
        MixInjective(HashFrom(g, front), HashFrom(h, front), last, last);
      }
    }
  }

  lemma {:induction false} HashFromAppend(h: uint32, a: string, b: string)
    ensures HashFrom(h, a + b) == HashFrom(HashFrom(h, a), b)
  {
    hide Mix;
    if b == "" {
      assert a + b == a;
    } else {
      var b' := b[..|b| - 1];
      assert (a + b)[..|a + b| - 1] == a + b';
      HashFromAppend(h, a, b');
    }
  }

  /** Two keys that differ in exactly one byte never hash alike. */
  lemma OneByteApart(a: string, c: char, d: char, b: string)
    requires c as int < 256 && d as int < 256 && c != d
    ensures Hash(a + [c] + b) != Hash(a + [d] + b)
  {
    hide Mix, Widen;
    HashFromAppend(OFFSET_BASIS, a + [c], b);
    HashFromAppend(OFFSET_BASIS, a + [d], b);
    assert (a + [c])[..|a|] == a && (a + [d])[..|a|] == a;
    var g := HashFrom(OFFSET_BASIS, a);
    if Mix(g, c) == Mix(g, d) {
      MixInjective(g, g, c, d);
      WidenInjective(c, d);
    }
    TailInjective(Mix(g, c), Mix(g, d), b);
  }

  /** The key of a virtual node: the instance id, a hash sign and the node's index. */
  function VirtualKey(id: string, i: nat): string {
    id + "#" + ToString(i)
  }

  /** The same for two keys of one length, said by position. */
  lemma OnePositionApart(s: string, t: string, k: nat)
    requires k < |s| == |t| && s[k] != t[k] && s[k] as int < 256 && t[k] as int < 256
    requires forall j | 0 <= j < |s| && j != k :: s[j] == t[j]
    ensures Hash(s) != Hash(t)
  {
    hide Hash;
    assert s == s[..k] + [s[k]] + s[k + 1..];
    assert t == s[..k] + [t[k]] + s[k + 1..];
    OneByteApart(s[..k], s[k], t[k], s[k + 1..]);
  }

  /** No two virtual nodes have the same key: only their hashes can collide. */
  lemma VirtualKeyInjective(id: string, i: nat, id': string, j: nat)
    requires VirtualKey(id, i) == VirtualKey(id', j)
    ensures id == id' && i == j
  {
    hide ToString;
    NumberNotIn(i, '#');
    NumberNotIn(j, '#');
    SplitAtLast(id, ToString(i), id', ToString(j), '#');
    ToStringInjective(i, j);
  }

  /** Nodes of one instance whose indices, as printed, differ in one digit never share a place. */
  lemma OneDigitApart(id: string, i: nat, j: nat, k: nat)
    requires k < |ToString(i)| == |ToString(j)| && ToString(i)[k] != ToString(j)[k]
    requires forall m | 0 <= m < |ToString(i)| && m != k :: ToString(i)[m] == ToString(j)[m]
    ensures Hash(VirtualKey(id, i)) != Hash(VirtualKey(id, j))
  {
    hide Hash, ToString;
    var head := id + "#";
    DigitsOnly(i);
    DigitsOnly(j);
    OnePositionApart(VirtualKey(id, i), VirtualKey(id, j), |head| + k);
  }

  lemma DigitsOnly(n: nat)
    ensures AllDigits(ToString(n))
  {
  }

  /** So the ten nodes of one decade, such as 40 to 49, are all in different places. */
  lemma SameDecadeApart(id: string, i: nat, j: nat)
    requires i != j && i / 10 == j / 10
    ensures Hash(VirtualKey(id, i)) != Hash(VirtualKey(id, j))
  {
    hide Hash;
    var head := if i < 10 then "" else Digits(i / 10);
    assert ToString(i) == head + [DigitChar(i % 10)];
    assert ToString(j) == head + [DigitChar(j % 10)];
    OneDigitApart(id, i, j, |head|);
  }
}
