/** Sums of integer vectors. */
module Sums {

  function SumTo(xs: seq<int>, k: nat): int
    requires k <= |xs|
  {
    if k == 0 then 0 else SumTo(xs, k - 1) + xs[k - 1]
  }

  function Sum(xs: seq<int>): int {
    SumTo(xs, |xs|)
  }

  function Zeros(n: nat): seq<int> {
    seq(n, _ => 0)
  }

  lemma {:induction false} SumUpdate(xs: seq<int>, i: nat, v: int, k: nat)
    requires i < |xs| && k <= |xs|
    ensures SumTo(xs[i := v], k) == SumTo(xs, k) + (if i < k then v - xs[i] else 0)
  {
    if k > 0 {
      SumUpdate(xs, i, v, k - 1);
    }
  }

  lemma {:induction false} SumZeros(n: nat, k: nat)
    requires k <= n
    ensures SumTo(Zeros(n), k) == 0
  {
    if k > 0 {
      SumZeros(n, k - 1);
    }
  }

  /** Pointwise order of two vectors orders their sums; equal sums force equal slots. */
  lemma {:induction false} SumMonotone(xs: seq<int>, ys: seq<int>, k: nat)
    requires |xs| == |ys| && k <= |xs|
    requires forall i | 0 <= i < |xs| :: xs[i] <= ys[i]
    ensures SumTo(xs, k) <= SumTo(ys, k)
    ensures SumTo(xs, k) == SumTo(ys, k) ==> forall i | 0 <= i < k :: xs[i] == ys[i]
  {
    if k > 0 {
      SumMonotone(xs, ys, k - 1);
    }
  }

  lemma {:induction false} SumAtLeast(xs: seq<int>, low: int, k: nat)
    requires k <= |xs|
    requires forall i | 0 <= i < |xs| :: low <= xs[i]
    ensures k * low <= SumTo(xs, k)
  {
    if k > 0 {
      SumAtLeast(xs, low, k - 1);
      assert k * low == (k - 1) * low + low;
    }
  }

  /** One slot is bounded above by the sum less a floor for each of the others. */
  lemma {:induction false} SlotAtMost(xs: seq<int>, low: int, i: nat, k: nat)
    requires i < k <= |xs|
    requires forall j | 0 <= j < |xs| :: low <= xs[j]
    ensures xs[i] <= SumTo(xs, k) - (k - 1) * low
  {
    if i == k - 1 {
      SumAtLeast(xs, low, k - 1);
    } else {
      SlotAtMost(xs, low, i, k - 1);
      assert (k - 1) * low == (k - 2) * low + low;
    }
  }

  lemma MulOrder(total: int, a: int, b: int)
    requires total > 0
    ensures total * a <= total * b <==> a <= b
  {
    if a < b {
      assert total * b == total * a + total * (b - a);
    } else {
      assert total * a == total * b + total * (a - b);
    }
  }
}
