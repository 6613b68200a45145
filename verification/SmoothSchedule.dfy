/**
 The scheduler inside WeightedRoundRobinLoadBalancer::select, on vectors: one slot per healthy
 instance, for a fixed list with distinct ids. Every call adds an instance's effective weight to
 its slot, picks the first slot with the greatest positive value and takes the total weight back
 from it. The effective weight is clamped to at least 1; the total is the sum of the weights as
 they are, so the two agree only when every weight is positive.
 */
module SmoothSchedule {
  import opened Decimal
  import opened Sums

  function Eff(weight: int): (e: int) {
    if weight > 0 then weight else 1
  }

  function Effs(w: seq<int>): (e: seq<int>) {
    seq(|w|, i requires 0 <= i < |w| => Eff(w[i]))
  }

  function Bumped(w: seq<int>, cw: seq<int>): (b: seq<int>)
    requires |cw| == |w|
  {
    seq(|w|, i requires 0 <= i < |w| => cw[i] + Eff(w[i]))
  }

  ghost predicate AllPositive(w: seq<int>) {
    forall i | 0 <= i < |w| :: w[i] > 0
  }

  /** The slot the selection loop holds after k slots: -1 while nothing was above zero. */
  function PickTo(b: seq<int>, k: nat): (p: int)
    requires k <= |b|
    ensures -1 <= p < k
    ensures p == -1 <==> forall j | 0 <= j < k :: b[j] <= 0
    ensures p >= 0 ==> b[p] > 0
    ensures p >= 0 ==> forall j | 0 <= j < k :: b[j] <= b[p]
    ensures p >= 0 ==> forall j | 0 <= j < p :: b[j] < b[p]
  {
    if k == 0 then -1
    else
      var q := PickTo(b, k - 1);
      if b[k - 1] > (if q == -1 then 0 else b[q]) then k - 1 else q
  }

  lemma PickToNext(b: seq<int>, k: nat)
    requires k < |b|
    ensures PickTo(b, k + 1) ==
      if b[k] > (if PickTo(b, k) == -1 then 0 else b[PickTo(b, k)]) then k else PickTo(b, k)
  {
  }

  function Pick(b: seq<int>): int {
    PickTo(b, |b|)
  }

  function Step(w: seq<int>, cw: seq<int>): (next: seq<int>)
    requires |cw| == |w|
    ensures |next| == |w|
  {
    var b := Bumped(w, cw);
    var p := Pick(b);
    if p == -1 then b else b[p := b[p] - Sum(w)]
  }

  /** The weights after t calls from a fresh balancer. */
  function State(w: seq<int>, t: nat): (cw: seq<int>)
    ensures |cw| == |w|
  {
    if t == 0 then Zeros(|w|) else Step(w, State(w, t - 1))
  }

  /** The slot that call number t picks. */
  function PickAt(w: seq<int>, t: nat): int {
    Pick(Bumped(w, State(w, t)))
  }

  /** How many of the calls from, ..., to - 1 pick slot i. */
  function Picks(w: seq<int>, i: nat, from: nat, to: nat): (c: nat)
    requires from <= to
  {
    if to == from then 0
    else Picks(w, i, from, to - 1) + (if PickAt(w, to - 1) == i then 1 else 0)
  }

  // ---------------------------------------------------------------- sums

  lemma {:induction false} SumBumped(w: seq<int>, cw: seq<int>, k: nat)
    requires |cw| == |w| && k <= |w|
    ensures SumTo(Bumped(w, cw), k) == SumTo(cw, k) + SumTo(Effs(w), k)
  {
    if k > 0 {
      SumBumped(w, cw, k - 1);
    }
  }

  /** The clamped total exceeds the raw total exactly when some weight is not positive. */
  lemma EffTotal(w: seq<int>)
    ensures Sum(w) <= Sum(Effs(w))
    ensures Sum(w) == Sum(Effs(w)) <==> AllPositive(w)
    ensures |w| <= Sum(Effs(w))
  {
    SumMonotone(w, Effs(w), |w|);
    SumAtLeast(Effs(w), 1, |w|);
    if AllPositive(w) {
      assert Effs(w) == w;
    } else {
      var i :| 0 <= i < |w| && w[i] <= 0;
      assert w[i] != Effs(w)[i];
    }
  }

  // ---------------------------------------------------------------- one step

  lemma SumStep(w: seq<int>, cw: seq<int>)
    requires |cw| == |w|
    ensures Sum(Bumped(w, cw)) == Sum(cw) + Sum(Effs(w))
    ensures var p := Pick(Bumped(w, cw));
      Sum(Step(w, cw)) == Sum(cw) + Sum(Effs(w)) - (if p == -1 then 0 else Sum(w))
  {
    var b := Bumped(w, cw);
    SumBumped(w, cw, |w|);
    var p := Pick(b);
    if p != -1 {
      SumUpdate(b, p, b[p] - Sum(w), |b|);
    }
  }

  /** A non-negative sum leaves some slot above zero, so the fallback cannot be taken. */
  lemma PickExists(w: seq<int>, cw: seq<int>)
    requires |cw| == |w| > 0 && Sum(cw) >= 0
    ensures 0 <= Pick(Bumped(w, cw)) < |w|
  {
    var b := Bumped(w, cw);
    SumStep(w, cw);
    EffTotal(w);
    if Pick(b) == -1 {
      SumZeros(|w|, |w|);
      SumMonotone(b, Zeros(|w|), |w|);
    }
  }

  // ---------------------------------------------------------------- whole runs, any weights

  /**
   From a fresh balancer every call picks a slot, and the slots sum to the number of calls times
   what each call adds too much: the clamped total less the raw total.
   */
  lemma {:induction false} Drift(w: seq<int>, t: nat)
    requires |w| > 0
    ensures Sum(State(w, t)) == t * (Sum(Effs(w)) - Sum(w))
    ensures 0 <= Sum(State(w, t))
    ensures 0 <= PickAt(w, t) < |w|
  {
    hide Step, Pick, Bumped, Effs, Zeros;
    EffTotal(w);
    var excess := Sum(Effs(w)) - Sum(w);
    if t == 0 {
      SumZeros(|w|, |w|);
    } else {
      Drift(w, t - 1);
      SumStep(w, State(w, t - 1));
      assert t * excess == (t - 1) * excess + excess;
    }
    PickExists(w, State(w, t));
  }

  /** One call moves slot i by its effective weight, less the total if it is the pick. */
  lemma StepSlot(w: seq<int>, cw: seq<int>, i: nat)
    requires |cw| == |w| && i < |w|
    ensures Step(w, cw)[i] ==
      cw[i] + Eff(w[i]) - (if Pick(Bumped(w, cw)) == i then Sum(w) else 0)
    ensures Pick(Bumped(w, cw)) == i ==> cw[i] + Eff(w[i]) > 0
  {
    hide SumTo;
    var p := Pick(Bumped(w, cw));
    assert -1 <= p < |w|;
  }

  lemma {:induction false} Floor(w: seq<int>, t: nat, i: nat)
    requires i < |w|
    ensures State(w, t)[i] >= if Sum(w) >= 1 then 1 - Sum(w) else 0
  {
    hide Step, Pick, Bumped, SumTo;
    if t > 0 {
      Floor(w, t - 1, i);
      StepSlot(w, State(w, t - 1), i);
    }
  }

  /** What slot i holds: its share of t calls less one total for every time it was picked. */
  lemma {:induction false} Accounting(w: seq<int>, t: nat, i: nat)
    requires i < |w|
    ensures State(w, t)[i] == t * Eff(w[i]) - Sum(w) * Picks(w, i, 0, t)
  {
    hide Step, Pick, Bumped, SumTo;
    if t > 0 {
      Accounting(w, t - 1, i);
      StepSlot(w, State(w, t - 1), i);
      var e, c, total := Eff(w[i]), Picks(w, i, 0, t - 1), Sum(w);
      assert t * e == (t - 1) * e + e;
      assert total * (c + 1) == total * c + total;
    }
  }

  lemma {:induction false} PicksSplit(w: seq<int>, i: nat, from: nat, mid: nat, to: nat)
    requires from <= mid <= to
    ensures Picks(w, i, from, to) == Picks(w, i, from, mid) + Picks(w, i, mid, to)
  {
    hide PickAt;
    if to > mid {
      PicksSplit(w, i, from, mid, to - 1);
    }
  }

  function PickCounts(w: seq<int>, t: nat): (c: seq<int>) {
    seq(|w|, i requires 0 <= i < |w| => Picks(w, i, 0, t))
  }

  lemma {:induction false} EveryCallPicksOnce(w: seq<int>, t: nat)
    requires |w| > 0
    ensures Sum(PickCounts(w, t)) == t
  {
    hide PickAt, SumTo;
    if t == 0 {
      assert PickCounts(w, 0) == Zeros(|w|);
      SumZeros(|w|, |w|);
    } else {
      EveryCallPicksOnce(w, t - 1);
      Drift(w, t - 1);
      var before, p := PickCounts(w, t - 1), PickAt(w, t - 1);
      assert PickCounts(w, t) == before[p := before[p] + 1];
      SumUpdate(before, p, before[p] + 1, |w|);
    }
  }

  // ---------------------------------------------------------------- positive weights

  lemma Spread(n: int, total: int, t: int)
    requires n >= 1 && total >= 1
    ensures (n - 1) * (total - 1) == n * total - total - n + 1
    ensures -(n - 1) * (total - 1) == -((n - 1) * (total - 1)) == (n - 1) * (1 - total)
    ensures total <= n * total
    ensures t * (total - total) == 0
  {
    assert n * total == total + (n - 1) * total;
  }

  /**
   Deviation: after any number of calls, what an instance was given differs from its exact share
   by less than one whole pick one way and |w| - 1 the other way, scaled by the total.
   */
  lemma Deviation(w: seq<int>, t: nat, i: nat)
    requires AllPositive(w) && i < |w|
    ensures -(|w| - 1) * (Sum(w) - 1) <= Sum(w) * Picks(w, i, 0, t) - t * w[i] <= Sum(w) - 1
  {
    hide State, Picks, SumTo, Effs;
    EffTotal(w);
    Accounting(w, t, i);
    Drift(w, t);
    var cw, low := State(w, t), 1 - Sum(w);
    forall j | 0 <= j < |cw| ensures low <= cw[j] {
      Floor(w, t, j);
    }
    SlotAtMost(cw, low, i, |cw|);
    Spread(|w|, Sum(w), t);
  }

  /** Exactness: Sum(w) calls pick every slot as often as its weight says and end where they began. */
  lemma Exactness(w: seq<int>, i: nat)
    requires AllPositive(w) && i < |w|
    ensures Sum(w) > 0
    ensures Picks(w, i, 0, Sum(w)) == w[i]
    ensures State(w, Sum(w)) == Zeros(|w|)
  {
    hide State, Picks, SumTo, Effs;
    EffTotal(w);
    var total := Sum(w);
    var counts := PickCounts(w, total);
    forall j | 0 <= j < |w| ensures counts[j] <= w[j] {
      Accounting(w, total, j);
      Floor(w, total, j);
      MulOrder(total, w[j] + 1, Picks(w, j, 0, total));
    }
    EveryCallPicksOnce(w, total);
    SumMonotone(counts, w, |w|);
    forall j | 0 <= j < |w| ensures State(w, total)[j] == 0 {
      Accounting(w, total, j);
      assert counts[j] == w[j];
    }
    assert counts[i] == w[i];
  }

  lemma {:induction false} Periodic(w: seq<int>, t: nat)
    requires AllPositive(w) && |w| > 0
    ensures Sum(w) > 0
    ensures State(w, t + Sum(w)) == State(w, t)
    ensures PickAt(w, t + Sum(w)) == PickAt(w, t)
  {
    hide Step, Pick, Bumped, SumTo, Effs;
    EffTotal(w);
    if t == 0 {
      Exactness(w, 0);
    } else {
      Periodic(w, t - 1);
      assert t - 1 + Sum(w) == t + Sum(w) - 1;
    }
  }

  /** Every window of Sum(w) calls, aligned or not, picks slot i exactly w[i] times. */
  lemma WindowExact(w: seq<int>, t: nat, i: nat)
    requires AllPositive(w) && i < |w|
    ensures Sum(w) > 0
    ensures Picks(w, i, t, t + Sum(w)) == w[i]
  {
    hide State, Picks, PickAt, SumTo;
    var total := Sum(w);
    Periodic(w, t);
    Accounting(w, t, i);
    Accounting(w, t + total, i);
    PicksSplit(w, i, 0, t, t + total);
    var a, c := Picks(w, i, 0, t), Picks(w, i, t, t + total);
    assert total * (a + c) == total * a + total * c;
    assert (t + total) * w[i] == t * w[i] + total * w[i];
    MulOrder(total, c, w[i]);
    MulOrder(total, w[i], c);
  }

  /** With any weight not positive the slots never sum to zero again. */
  lemma NeverBack(w: seq<int>, t: nat)
    requires |w| > 0 && !AllPositive(w) && t > 0
    ensures State(w, t) != Zeros(|w|)
  {
    hide State, SumTo, Effs, PickAt, AllPositive;
    EffTotal(w);
    Drift(w, t);
    SumZeros(|w|, |w|);
    MulOrder(Sum(Effs(w)) - Sum(w), 1, t);
  }

  /** The run ever comes back to its start exactly when every weight is positive. */
  lemma ReturnsIffPositive(w: seq<int>)
    requires |w| > 0
    ensures AllPositive(w) <==> exists t: nat :: t > 0 && State(w, t) == Zeros(|w|)
  {
    hide State, SumTo;
    if AllPositive(w) {
      Exactness(w, 0);
      assert Sum(w) > 0;
    } else {
      forall t: nat | t > 0 ensures State(w, t) != Zeros(|w|) {
        NeverBack(w, t);
      }
    }
  }

  /** The window of Sum(w) calls that starts at from picks every slot as often as its weight says. */
  ghost predicate ExactFrom(w: seq<int>, from: nat)
    requires Sum(w) >= 0
  {
    forall i | 0 <= i < |w| :: Picks(w, i, from, from + Sum(w)) == w[i]
  }

  /** Exact windows everywhere are the mark of positive weights. */
  lemma ExactIffPositive(w: seq<int>)
    requires |w| > 0 && Sum(w) > 0
    ensures AllPositive(w) <==> forall from: nat :: ExactFrom(w, from)
  {
    hide Picks, SumTo;
    if AllPositive(w) {
      forall from: nat ensures ExactFrom(w, from) {
        forall i | 0 <= i < |w| ensures Picks(w, i, from, from + Sum(w)) == w[i] {
          WindowExact(w, from, i);
        }
      }
    } else if ExactFrom(w, 0) {
      FreeRider(w);
    }
  }

  /**
   A slot without weight still gains one a call. If the first window was exact, it holds a whole
   total when the second begins, beats every slot with a weight, and is picked.
   */
  lemma FreeRider(w: seq<int>)
    requires |w| > 0 && Sum(w) > 0 && !AllPositive(w) && ExactFrom(w, 0)
    ensures !ExactFrom(w, Sum(w))
  {
    hide State, Step, Picks, SumTo;
    var total := Sum(w);
    var cw, p := State(w, total), PickAt(w, total);
    Drift(w, total);
    forall i | 0 <= i < |w| ensures w[i] >= 0 && cw[i] == (if w[i] == 0 then total else 0) {
      assert Picks(w, i, 0, total) == w[i];
      Accounting(w, total, i);
      assert total * w[i] == total * Picks(w, i, 0, total);
    }
    var j :| 0 <= j < |w| && w[j] <= 0;
    var b := Bumped(w, cw);
    assert b[j] == total + 1 <= b[p];
    SlotAtMost(w, 0, p, |w|);
    assert w[p] == 0;
    PickedOnce(w, p, total, 2 * total);
  }

  lemma PickedOnce(w: seq<int>, i: nat, from: nat, to: nat)
    requires from < to && PickAt(w, from) == i
    ensures Picks(w, i, from, to) >= 1
  {
    hide PickAt;
    PicksSplit(w, i, from, from + 1, to);
    assert Picks(w, i, from, from) == 0;
  }

  /** Such a list: of the first five calls on weights 0 and 5 one goes to the weight 0. */
  lemma ZeroIsPicked()
    ensures Sum([0, 5]) == 5 && Picks([0, 5], 0, 0, 5) == 1 && Picks([0, 5], 1, 0, 5) == 4
  {
    hide State, PickAt, Picks, SumTo;
    ZeroAndFive();
    FourCalls(4);
    NextPick([0, 5], 0, 4);
    NextPick([0, 5], 1, 4);
  }

  lemma ZeroAndFive()
    ensures Sum([0, 5]) == 5
  {
    assert SumTo([0, 5], 1) == 0;
  }

  /** The weight 0 gains one a call, the weight 5 is picked and paid; then they are level. */
  lemma {:induction false} FourCalls(t: nat)
    requires t <= 4
    ensures State([0, 5], t) == [t, 0]
    ensures PickAt([0, 5], t) == if t < 4 then 1 else 0
    ensures Picks([0, 5], 0, 0, t) == 0 && Picks([0, 5], 1, 0, t) == t
  {
    hide State, Picks, Step, Pick, Bumped;
    if t == 0 {
      FirstState([0, 5]);
      NoPicks([0, 5], 0);
      NoPicks([0, 5], 1);
    } else {
      FourCalls(t - 1);
      NextState([0, 5], t - 1);
      HeavyWins(t - 1);
      NextPick([0, 5], 0, t - 1);
      NextPick([0, 5], 1, t - 1);
    }
    HeavyWins(t);
  }

  lemma HeavyWins(t: nat)
    requires t <= 4
    ensures Pick(Bumped([0, 5], [t, 0])) == if t < 4 then 1 else 0
    ensures t < 4 ==> Step([0, 5], [t, 0]) == [t + 1, 0]
  {
    hide SumTo;
    ZeroAndFive();
    assert Bumped([0, 5], [t, 0]) == [t + 1, 5];
    assert PickTo([t + 1, 5], 1) == 0;
  }

  lemma FirstState(w: seq<int>)
    ensures State(w, 0) == Zeros(|w|)
  {
  }

  lemma NoPicks(w: seq<int>, i: nat)
    ensures Picks(w, i, 0, 0) == 0
  {
  }

  lemma NextPick(w: seq<int>, i: nat, t: nat)
    ensures Picks(w, i, 0, t + 1) == Picks(w, i, 0, t) + (if PickAt(w, t) == i then 1 else 0)
  {
    hide PickAt;
  }

  lemma NextState(w: seq<int>, t: nat)
    ensures State(w, t + 1) == Step(w, State(w, t))
  {
  }

  /**
   No int overflow: with n slots and n * total an int32, every value the call stores or compares
   (the bumped slot, the slot after the pick, every partial total) is an int32.
   */
  lemma NoOverflow(w: seq<int>, t: nat, i: nat)
    requires AllPositive(w) && i < |w|
    requires |w| * Sum(w) <= INT_MAX
    ensures INT_MIN <= State(w, t)[i] <= INT_MAX
    ensures INT_MIN <= Bumped(w, State(w, t))[i] <= INT_MAX
    ensures 0 <= SumTo(w, i) <= SumTo(w, i + 1) <= INT_MAX
  {
    hide State, Picks, Effs, SumTo;
    EffTotal(w);
    Accounting(w, t, i);
    Deviation(w, t, i);
    Floor(w, t, i);
    PrefixesGrow(w, i);
    PrefixesGrow(w, |w| - 1);
    SlotAtMost(w, 1, i, |w|);
    Spread(|w|, Sum(w), t);
  }

  lemma {:induction false} PrefixesGrow(w: seq<int>, i: nat)
    requires AllPositive(w) && i < |w|
    ensures 0 <= SumTo(w, i) < SumTo(w, i + 1) <= Sum(w)
    decreases |w| - i
  {
    SumAtLeast(w, 0, i);
    if i + 1 < |w| {
      PrefixesGrow(w, i + 1);
    }
  }
}
