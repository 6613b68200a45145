/** Bytes and network byte order. */
module Bytes {

  type byte = n: int | 0 <= n < 256

  type Data = seq<byte>

  function Pow256(w: nat): (p: nat)
    ensures p > 0
  {
    if w == 0 then 1 else 256 * Pow256(w - 1)
  }

  /** The w low-order bytes of n, most significant first: what hostToNetwork leaves in memory. */
  function BigEndian(n: nat, w: nat): (b: Data)
    ensures |b| == w
  {
    if w == 0 then [] else BigEndian(n / 256, w - 1) + [n % 256]
  }

  function FromBigEndian(b: Data): nat {
    if b == [] then 0 else 256 * FromBigEndian(b[..|b| - 1]) + b[|b| - 1]
  }

  /** Writing then reading keeps the value modulo the width, as the unsigned cast does. */
  lemma {:induction false} FromBigEndianOfBigEndian(n: nat, w: nat)
    ensures FromBigEndian(BigEndian(n, w)) == n % Pow256(w)
  {
    if w > 0 {
      FromBigEndianOfBigEndian(n / 256, w - 1);
      var b := BigEndian(n, w);
      assert b[..w - 1] == BigEndian(n / 256, w - 1);
      ModOfQuotient(n, Pow256(w - 1));
    }
  }

  /** Byte k, counted from the most significant one, is digit w - 1 - k of n in base 256. */
  lemma {:induction false} BigEndianByte(n: nat, w: nat, k: nat)
    requires k < w
    ensures BigEndian(n, w)[k] == n / Pow256(w - 1 - k) % 256
  {
    if k < w - 1 {
      BigEndianByte(n / 256, w - 1, k);
      DivTwice(n, Pow256(w - 2 - k));
    }
  }

  lemma DivTwice(n: nat, p: nat)
    requires p > 0
    ensures n / 256 / p == n / (256 * p)
  {
    var q := n / 256 / p;
    var r := n - q * (256 * p);
    assert n / 256 == p * q + n / 256 % p;
    assert q * (256 * p) == 256 * (p * q);
    assert 0 <= r < 256 * p;
    DivUnique(n, 256 * p, q, r);
  }

  lemma DivUnique(n: int, d: int, k: int, r: int)
    requires d > 0 && 0 <= r < d && n == k * d + r
    ensures n / d == k
  {
    var q, m := n / d, n % d;
    assert n == d * q + m == d * k + r;
    if q > k {
      Apart(d, q, k);
    } else if q < k {
      Apart(d, k, q);
    }
  }

  /** What appendInt wrote, readInt reads, whatever was appended after it. */
  lemma {:induction false} IntReadsBack(n: nat, w: nat, rest: Data)
    requires n < Pow256(w)
    ensures FromBigEndian((BigEndian(n, w) + rest)[..w]) == n
    ensures (BigEndian(n, w) + rest)[w..] == rest
  {
    hide FromBigEndian, Pow256;
    FromBigEndianOfBigEndian(n, w);
    ModUnique(n, Pow256(w), 0, n);
    assert (BigEndian(n, w) + rest)[..w] == BigEndian(n, w);
  }

  lemma ModOfQuotient(n: nat, p: nat)
    requires p > 0
    ensures 256 * (n / 256 % p) + n % 256 == n % (256 * p)
  {
    var q, r := n / 256, n % 256;
    var k, m := q / p, q % p;
    assert q == k * p + m;
    assert n == 256 * (k * p + m) + r == (256 * p) * k + (256 * m + r);
    assert 0 <= 256 * m + r < 256 * p;
    ModUnique(n, 256 * p, k, 256 * m + r);
  }

  lemma ModUnique(n: int, d: int, k: int, r: int)
    requires d > 0 && 0 <= r < d && n == d * k + r
    ensures n % d == r
  {
    var k', r' := n / d, n % d;
    assert n == d * k' + r';
    assert d * k - d * k' == r' - r;
    if k > k' {
      Apart(d, k, k');
    } else if k < k' {
      Apart(d, k', k);
    }
  }

  lemma Apart(d: int, k: int, k': int)
    requires d > 0 && k > k'
    ensures d * k - d * k' >= d
  {
    var x := k - k' - 1;
    assert d * x >= 0;
    assert d * k == d * (k' + 1 + x) == d * k' + d + d * x;
  }

  /** Reading then writing gives the bytes back: no two byte strings of one width collide. */
  lemma {:induction false} BigEndianOfFromBigEndian(b: Data)
    ensures BigEndian(FromBigEndian(b), |b|) == b
    ensures FromBigEndian(b) < Pow256(|b|)
  {
    if b != [] {
      BigEndianOfFromBigEndian(b[..|b| - 1]);
    }
  }

  lemma Pow256Values()
    ensures Pow256(1) == 0x100 && Pow256(2) == 0x1_0000
    ensures Pow256(4) == 0x1_0000_0000 && Pow256(8) == 0x1_0000_0000_0000_0000
  {
    assert Pow256(3) == 0x100_0000;
    assert Pow256(6) == 0x1_0000_0000_0000;
  }
}
