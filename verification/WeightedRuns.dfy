/**
 Runs of the weighted round-robin balancer. First a fixed instance list, called again and again
 from a fresh balancer; then lists that change from call to call.
 */
module WeightedRuns {
  import opened Decimal
  import opened Results
  import opened ServiceInstances
  import opened SmoothSchedule
  import opened Sums
  import opened WeightedRoundRobin

  function RunWeights(instances: seq<ServiceInstance>, t: nat): Weights {
    if t == 0 then map[] else Selected(RunWeights(instances, t - 1), instances).1
  }

  /** What call number t returns. */
  function RunResult(instances: seq<ServiceInstance>, t: nat): Result<ServiceInstance> {
    Selected(RunWeights(instances, t), instances).0
  }

  /** How many of the calls from, ..., to - 1 return x. */
  function Served(instances: seq<ServiceInstance>, x: ServiceInstance, from: nat, to: nat): nat
    requires from <= to
  {
    if to == from then 0
    else Served(instances, x, from, to - 1) + (if RunResult(instances, to - 1) == Ok(x) then 1 else 0)
  }

  function TotalWeight(instances: seq<ServiceInstance>): int {
    Sum(WeightsOf(Healthy(instances)))
  }

  /** A list the balancer can schedule: something healthy, and no id twice. */
  ghost predicate Schedulable(instances: seq<ServiceInstance>) {
    Healthy(instances) != [] && DistinctIds(Healthy(instances))
  }

  ghost predicate PositiveWeights(instances: seq<ServiceInstance>) {
    AllPositive(WeightsOf(Healthy(instances)))
  }

  /** The balancer's map runs the scheduler's vector: same slots, same picks, for ever. */
  lemma {:induction false} RunIsSchedule(instances: seq<ServiceInstance>, t: nat)
    requires Schedulable(instances)
    ensures var hs := Healthy(instances);
      var w := WeightsOf(hs);
      && View(RunWeights(instances, t), hs) == State(w, t)
      && RunWeights(instances, t).Keys == (if t == 0 then {} else Ids(hs))
      && 0 <= PickAt(w, t) < |hs|
      && RunResult(instances, t) == Ok(hs[PickAt(w, t)])
  {
    hide ServiceInstance.GetId, Ids, Healthy, Selected, Step, Pick, Bumped, SumTo;
    var hs := Healthy(instances);
    var w := WeightsOf(hs);
    Drift(w, t);
    SelectIsStep(RunWeights(instances, t), instances);
    if t == 0 {
      assert View(map[], hs) == Zeros(|w|);
    } else {
      RunIsSchedule(instances, t - 1);
      SelectIsStep(RunWeights(instances, t - 1), instances);
    }
  }

  lemma {:induction false} ServedIsPicks(instances: seq<ServiceInstance>, i: nat, from: nat, to: nat)
    requires Schedulable(instances) && i < |Healthy(instances)| && from <= to
    ensures var hs := Healthy(instances);
      Served(instances, hs[i], from, to) == Picks(WeightsOf(hs), i, from, to)
  {
    hide ServiceInstance.GetId, Healthy, RunResult, PickAt, WeightsOf;
    if from < to {
      ServedIsPicks(instances, i, from, to - 1);
      ResultIsPick(instances, to - 1, i);
    }
  }

  lemma ResultIsPick(instances: seq<ServiceInstance>, t: nat, i: nat)
    requires Schedulable(instances) && i < |Healthy(instances)|
    ensures var hs := Healthy(instances);
      RunResult(instances, t) == Ok(hs[i]) <==> PickAt(WeightsOf(hs), t) == i
  {
    hide ServiceInstance.GetId, Healthy, RunResult, PickAt, RunWeights, State, View, Ids, WeightsOf;
    var hs := Healthy(instances);
    RunIsSchedule(instances, t);
    var p := PickAt(WeightsOf(hs), t);
    assert p < i ==> hs[p].GetId() != hs[i].GetId();
    assert i < p ==> hs[i].GetId() != hs[p].GetId();
  }

  /**
   Exact shares: any window of TotalWeight consecutive calls, aligned or not, returns each
   instance exactly as often as its weight says. So no instance waits longer than one window.
   */
  lemma ExactShares(instances: seq<ServiceInstance>, from: nat, i: nat)
    requires Schedulable(instances) && PositiveWeights(instances)
    requires i < |Healthy(instances)|
    ensures TotalWeight(instances) > 0
    ensures Served(instances, Healthy(instances)[i], from, from + TotalWeight(instances))
      == Healthy(instances)[i].weight
  {
    hide Healthy, Served, Picks, Sum, ServiceInstance.GetId;
    WindowExact(WeightsOf(Healthy(instances)), from, i);
    ServedIsPicks(instances, i, from, from + TotalWeight(instances));
  }

  /** The window of TotalWeight calls that starts at from returns every instance as its weight says. */
  ghost predicate SharesExactFrom(instances: seq<ServiceInstance>, from: nat)
    requires TotalWeight(instances) >= 0
  {
    var hs := Healthy(instances);
    forall i | 0 <= i < |hs| ::
      Served(instances, hs[i], from, from + TotalWeight(instances)) == hs[i].weight
  }

  /** All windows are exact if and only if all weights are positive: no other list is served as it says. */
  lemma ExactSharesIff(instances: seq<ServiceInstance>)
    requires Schedulable(instances) && TotalWeight(instances) > 0
    ensures PositiveWeights(instances) <==> forall from: nat :: SharesExactFrom(instances, from)
  {
    hide Healthy, Served, Picks, Sum, ServiceInstance.GetId, AllPositive;
    var hs := Healthy(instances);
    var w := WeightsOf(hs);
    forall from: nat ensures SharesExactFrom(instances, from) <==> ExactFrom(w, from) {
      forall i | 0 <= i < |hs|
        ensures Served(instances, hs[i], from, from + Sum(w)) == Picks(w, i, from, from + Sum(w))
        ensures w[i] == hs[i].weight
      {
        ServedIsPicks(instances, i, from, from + Sum(w));
      }
    }
    ExactIffPositive(w);
    if forall from: nat :: SharesExactFrom(instances, from) {
      forall from: nat ensures ExactFrom(w, from) {
        assert SharesExactFrom(instances, from);
      }
    }
  }

  /** A list that is not: an instance of weight 0 beside one of weight 5 gets the fifth call. */
  lemma ZeroWeightIsServed(free: ServiceInstance, paid: ServiceInstance)
    requires free.isHealthy && paid.isHealthy && free.GetId() != paid.GetId()
    requires free.weight == 0 && paid.weight == 5
    ensures TotalWeight([free, paid]) == 5
    ensures Served([free, paid], free, 0, 5) == 1 && Served([free, paid], paid, 0, 5) == 4
  {
    hide Served, Picks, ServiceInstance.GetId, Healthy, Sum;
    var instances := [free, paid];
    JustTwo(free, paid);
    assert WeightsOf(instances) == [0, 5];
    ZeroIsPicked();
    ServedIsPicks(instances, 0, 0, 5);
    ServedIsPicks(instances, 1, 0, 5);
  }

  /** The calls repeat with period TotalWeight, results and stored weights alike. */
  lemma RunIsPeriodic(instances: seq<ServiceInstance>, t: nat)
    requires Schedulable(instances) && PositiveWeights(instances)
    ensures TotalWeight(instances) > 0
    ensures RunResult(instances, t + TotalWeight(instances)) == RunResult(instances, t)
    ensures var u := t + TotalWeight(instances);
      forall id :: Lookup(RunWeights(instances, u), id) == Lookup(RunWeights(instances, t), id)
  {
    hide Healthy, RunWeights, RunResult, State, Step, PickAt, Sum, ServiceInstance.GetId;
    var hs := Healthy(instances);
    var u := t + TotalWeight(instances);
    Periodic(WeightsOf(hs), t);
    RunIsSchedule(instances, t);
    RunIsSchedule(instances, u);
    SameView(RunWeights(instances, t), RunWeights(instances, u), hs);
  }

  lemma SameView(a: Weights, b: Weights, hs: seq<ServiceInstance>)
    requires View(a, hs) == View(b, hs)
    requires a.Keys <= Ids(hs) && b.Keys <= Ids(hs)
    ensures forall id :: Lookup(a, id) == Lookup(b, id)
  {
    hide ServiceInstance.GetId;
    forall id ensures Lookup(a, id) == Lookup(b, id) {
      if id in Ids(hs) {
        var h :| h in hs && h.GetId() == id;
        var j :| 0 <= j < |hs| && hs[j] == h;
        assert View(a, hs)[j] == View(b, hs)[j];
      }
    }
  }

  /** All stored weights are back at zero at some later call exactly when all weights are positive. */
  lemma ComesBackIffPositive(instances: seq<ServiceInstance>)
    requires Schedulable(instances)
    ensures PositiveWeights(instances) <==>
      exists t: nat :: t > 0 && AllZero(RunWeights(instances, t))
  {
    hide Healthy, RunWeights, State, AllZero, AllPositive, WeightsOf, ServiceInstance.GetId;
    var hs := Healthy(instances);
    var w := WeightsOf(hs);
    WeightsLength(hs);
    ReturnsIffPositive(w);
    forall t: nat | t > 0 ensures AllZero(RunWeights(instances, t)) <==> State(w, t) == Zeros(|w|) {
      RunIsSchedule(instances, t);
      ZeroView(RunWeights(instances, t), hs);
    }
    if AllPositive(w) {
      var t: nat :| t > 0 && State(w, t) == Zeros(|w|);
      assert t > 0 && AllZero(RunWeights(instances, t));
      assert exists t: nat :: t > 0 && AllZero(RunWeights(instances, t));
    } else {
      forall t: nat | t > 0 ensures !AllZero(RunWeights(instances, t)) {
        assert State(w, t) != Zeros(|w|);
      }
    }
  }

  lemma WeightsLength(hs: seq<ServiceInstance>)
    ensures |WeightsOf(hs)| == |hs|
  {
  }

  ghost predicate AllZero(cw: Weights) {
    forall id | id in cw :: cw[id] == 0
  }

  lemma ZeroView(cw: Weights, hs: seq<ServiceInstance>)
    requires cw.Keys == Ids(hs)
    ensures AllZero(cw) <==> View(cw, hs) == Zeros(|hs|)
  {
    hide ServiceInstance.GetId;
    if View(cw, hs) == Zeros(|hs|) {
      forall id | id in cw ensures cw[id] == 0 {
        var h :| h in hs && h.GetId() == id;
        var j :| 0 <= j < |hs| && hs[j] == h;
        assert View(cw, hs)[j] == 0;
      }
    }
  }

  /** What is served never strays a whole total from the exact share; the map holds the difference. */
  lemma SharesStayClose(instances: seq<ServiceInstance>, t: nat, i: nat)
    requires Schedulable(instances) && PositiveWeights(instances)
    requires i < |Healthy(instances)|
    ensures var hs, total := Healthy(instances), TotalWeight(instances);
      var ahead := total * Served(instances, hs[i], 0, t) - t * hs[i].weight;
      && -(|hs| - 1) * (total - 1) <= ahead <= total - 1
      && Lookup(RunWeights(instances, t), hs[i].GetId()) == -ahead
  {
    hide Healthy, RunWeights, State, Served, Picks, Sum, Lookup, ServiceInstance.GetId, PickAt;
    var hs := Healthy(instances);
    var w := WeightsOf(hs);
    Deviation(w, t, i);
    Accounting(w, t, i);
    ServedIsPicks(instances, i, 0, t);
    RunIsSchedule(instances, t);
    assert View(RunWeights(instances, t), hs)[i] == State(w, t)[i];
  }

  /** With n instances and n * total an int32, no weight the map holds or reaches in a call overflows. */
  lemma WeightsFitInt(instances: seq<ServiceInstance>, t: nat, i: nat)
    requires Schedulable(instances) && PositiveWeights(instances)
    requires i < |Healthy(instances)|
    requires |Healthy(instances)| * TotalWeight(instances) <= INT_MAX
    ensures var h := Healthy(instances)[i];
      var held := Lookup(RunWeights(instances, t), h.GetId());
      && INT_MIN <= held && held + h.weight <= INT_MAX
  {
    hide Healthy, RunWeights, State, Sum, Lookup, ServiceInstance.GetId, PickAt;
    var hs := Healthy(instances);
    var w := WeightsOf(hs);
    RunIsSchedule(instances, t);
    NoOverflow(w, t, i);
    assert View(RunWeights(instances, t), hs)[i] == State(w, t)[i];
    assert Bumped(w, State(w, t))[i] == State(w, t)[i] + w[i];
  }

  // ---------------------------------------------------------------- lists that change

  /** The map after a history of calls, each with its own instance list. */
  function After(calls: seq<seq<ServiceInstance>>): Weights {
    if calls == [] then map[]
    else Selected(After(calls[..|calls| - 1]), calls[|calls| - 1]).1
  }

  /** The call finds no weight above zero and returns the first healthy instance. */
  predicate FallsBack(cw: Weights, instances: seq<ServiceInstance>) {
    var hs := Healthy(instances);
    hs != [] && TallyTo(WithMissing(cw, hs, |hs|), hs, |hs|).selected == ""
  }

  /** What one call adds to the sum of all stored weights. */
  function Gain(cw: Weights, instances: seq<ServiceInstance>): int {
    if Healthy(instances) == [] then 0
    else
      Sum(Effs(WeightsOf(Healthy(instances))))
        - (if FallsBack(cw, instances) then 0 else TotalWeight(instances))
  }

  function Gains(calls: seq<seq<ServiceInstance>>): int {
    if calls == [] then 0
    else
      var past, last := calls[..|calls| - 1], calls[|calls| - 1];
      Gains(past) + Gain(After(past), last)
  }

  function FallbackTotals(calls: seq<seq<ServiceInstance>>): int {
    if calls == [] then 0
    else
      var past, last := calls[..|calls| - 1], calls[|calls| - 1];
      FallbackTotals(past) + (if FallsBack(After(past), last) then TotalWeight(last) else 0)
  }

  function GreatestTotal(calls: seq<seq<ServiceInstance>>): (g: int)
    ensures g >= 1
  {
    if calls == [] then 1
    else
      var g, t := GreatestTotal(calls[..|calls| - 1]), TotalWeight(calls[|calls| - 1]);
      if t > g then t else g
  }

  ghost function MapSum(m: Weights): int {
    if m == map[] then 0
    else
      var k :| k in m;
      m[k] + MapSum(m - {k})
  }

  lemma {:induction false} MapSumWithout(m: Weights, k: string)
    requires k in m
    ensures MapSum(m) == m[k] + MapSum(m - {k})
  {
    var j :| j in m && MapSum(m) == m[j] + MapSum(m - {j});
    if j != k {
      MapSumWithout(m - {j}, k);
      MapSumWithout(m - {k}, j);
      assert m - {j} - {k} == m - {k} - {j};
    }
  }

  lemma MapSumSet(m: Weights, k: string, v: int)
    ensures MapSum(m[k := v]) == MapSum(m) - Lookup(m, k) + v
  {
    MapSumWithout(m[k := v], k);
    if k in m {
      MapSumWithout(m, k);
      assert m[k := v] - {k} == m - {k};
    } else {
      assert m[k := v] - {k} == m;
    }
  }

  lemma {:induction false} MissingSum(cw: Weights, hs: seq<ServiceInstance>, k: nat)
    requires k <= |hs|
    ensures MapSum(WithMissing(cw, hs, k)) == MapSum(cw)
  {
    hide ServiceInstance.GetId, MapSum;
    if k > 0 {
      MissingSum(cw, hs, k - 1);
      MapSumSet(WithMissing(cw, hs, k - 1), hs[k - 1].GetId(), 0);
    }
  }

  /** The loop raises the sum by the effective weights, lowers no weight, and its pick is above 0. */
  lemma {:induction false} TallyFacts(cw: Weights, hs: seq<ServiceInstance>, k: nat)
    requires k <= |hs|
    ensures var s := TallyTo(cw, hs, k);
      && MapSum(s.weights) == MapSum(cw) + SumTo(Effs(WeightsOf(hs)), k)
      && s.total == SumTo(WeightsOf(hs), k)
      && (forall id :: Lookup(s.weights, id) >= Lookup(cw, id))
      && s.max >= 0
      && (s.selected != "" ==> Lookup(s.weights, s.selected) >= s.max >= 1)
      && (s.selected != "" ==> s.selected in Ids(hs))
  {
    hide ServiceInstance.GetId, MapSum, Add, Lookup, Ids;
    if k > 0 {
      TallyFacts(cw, hs, k - 1);
      var s, h := TallyTo(cw, hs, k - 1), hs[k - 1];
      LookupAdd(s, h);
      MapSumAdd(s, h);
      IdAt(hs, k - 1);
    }
  }

  lemma MapSumAdd(s: Tally, h: ServiceInstance)
    ensures MapSum(Add(s, h).weights) == MapSum(s.weights) + Eff(h.weight)
  {
    hide ServiceInstance.GetId, MapSum;
    MapSumSet(s.weights, h.GetId(), Lookup(s.weights, h.GetId()) + Eff(h.weight));
  }

  /** One call on any list, any weights and any stored weights; no id needs to be distinct. */
  lemma OneCall(cw: Weights, instances: seq<ServiceInstance>)
    ensures var (r, cw') := Selected(cw, instances);
      && MapSum(cw') == MapSum(cw) + Gain(cw, instances)
      && (forall id :: Lookup(cw', id) >= Lookup(cw, id)
            || Lookup(cw', id) >= 1 - TotalWeight(instances))
      && (Healthy(instances) != [] ==>
            r.Ok? && r.value in instances && r.value.isHealthy)
      && (Healthy(instances) == [] ==> r.Err? && cw' == cw)
      && (r == Err(NoInstances) <==> instances == [])
      && (r == Err(NoHealthyInstances) <==>
            instances != [] && forall x | x in instances :: !x.isHealthy)
  {
    hide ServiceInstance.GetId, MapSum, TallyTo, WithMissing, Sum, Ids, FirstWithId, Healthy;
    var hs := Healthy(instances);
    NoneHealthyIff(instances);
    HealthySound(instances);
    if hs != [] {
      var start := WithMissing(cw, hs, |hs|);
      var w := WeightsOf(hs);
      MissingSum(cw, hs, |hs|);
      AllPresent(cw, hs, |hs|);
      TallyFacts(start, hs, |hs|);
      SumIsSumTo(w);
      SumIsSumTo(Effs(w));
      var s := TallyTo(start, hs, |hs|);
      MapSumSet(s.weights, s.selected, Lookup(s.weights, s.selected) - s.total);
    }
  }

  lemma SumIsSumTo(w: seq<int>)
    ensures Sum(w) == SumTo(w, |w|)
  {
  }

  /**
   Over any history of lists, however membership and weights change: no stored weight falls below
   1 less the greatest total seen, and the stored weights sum to what the calls gained.
   */
  lemma {:induction false} AnyHistory(calls: seq<seq<ServiceInstance>>)
    ensures forall id :: Lookup(After(calls), id) >= 1 - GreatestTotal(calls)
    ensures MapSum(After(calls)) == Gains(calls)
  {
    hide ServiceInstance.GetId, MapSum, Selected, Gain, TotalWeight, Lookup;
    if calls == [] {
      EmptySum();
    } else {
      var past, last := calls[..|calls| - 1], calls[|calls| - 1];
      AnyHistory(past);
      OneCall(After(past), last);
    }
  }

  /** With positive weights a call gains its total exactly when it falls back, and else nothing. */
  lemma {:induction false} PositiveHistory(calls: seq<seq<ServiceInstance>>)
    requires forall c | c in calls :: PositiveWeights(c)
    ensures MapSum(After(calls)) == FallbackTotals(calls) >= 0
  {
    hide ServiceInstance.GetId, MapSum, Selected, FallsBack, PositiveWeights, Gain, TotalWeight;
    AnyHistory(calls);
    if calls != [] {
      var past, last := calls[..|calls| - 1], calls[|calls| - 1];
      PositiveHistory(past);
      AnyHistory(past);
      PositiveGain(After(past), last);
    } else {
      EmptySum();
    }
  }

  lemma PositiveGain(cw: Weights, instances: seq<ServiceInstance>)
    requires PositiveWeights(instances)
    ensures TotalWeight(instances) >= 0
    ensures Gain(cw, instances) == if FallsBack(cw, instances) then TotalWeight(instances) else 0
  {
    hide ServiceInstance.GetId, Healthy, TallyTo, WithMissing, SumTo;
    EffTotal(WeightsOf(Healthy(instances)));
    TotalNotNegative(instances);
  }

  lemma EmptySum()
    ensures MapSum(map[]) == 0
    ensures forall id :: Lookup(map[], id) == 0
  {
  }

  lemma TotalNotNegative(instances: seq<ServiceInstance>)
    requires PositiveWeights(instances)
    ensures TotalWeight(instances) >= 0
  {
    var w := WeightsOf(Healthy(instances));
    SumAtLeast(w, 0, |w|);
  }

  /** What the loop makes of an id's weight over the first k instances; an id may come more than once. */
  function Raised(cw: Weights, hs: seq<ServiceInstance>, k: nat, id: string): int
    requires k <= |hs|
  {
    if k == 0 then Lookup(cw, id)
    else
      Raised(cw, hs, k - 1, id) + (if hs[k - 1].GetId() == id then Eff(hs[k - 1].weight) else 0)
  }

  /** The loop's variables after k instances, said of the raised weights. */
  ghost predicate Holds(s: Tally, cw: Weights, hs: seq<ServiceInstance>, k: nat)
    requires k <= |hs|
  {
    && (forall id :: Lookup(s.weights, id) == Raised(cw, hs, k, id))
    && (forall j | 0 <= j < k :: Raised(cw, hs, k, hs[j].GetId()) <= s.max)
    && s.max >= 0 && (s.selected == "" <==> s.max == 0)
    && (s.selected != "" ==> s.selected in Ids(hs) && Raised(cw, hs, k, s.selected) == s.max)
  }

  lemma HoldsStart(cw: Weights, hs: seq<ServiceInstance>)
    ensures Holds(Tally(cw, 0, 0, ""), cw, hs, 0)
  {
    hide Lookup;
  }

  lemma HoldsNext(s: Tally, cw: Weights, hs: seq<ServiceInstance>, k: nat)
    requires k < |hs| && Holds(s, cw, hs, k)
    ensures Holds(Add(s, hs[k]), cw, hs, k + 1)
  {
    hide ServiceInstance.GetId, Add, Lookup, Ids;
    LookupAdd(s, hs[k]);
    IdAt(hs, k);
    EffPositive(hs[k].weight);
  }

  lemma EffPositive(weight: int)
    ensures Eff(weight) >= 1
  {
  }

  lemma {:induction false} TallyHolds(cw: Weights, hs: seq<ServiceInstance>, k: nat)
    requires k <= |hs|
    ensures Holds(TallyTo(cw, hs, k), cw, hs, k)
  {
    hide Holds, Add, TallyTo;
    if k == 0 {
      TallyStart(cw, hs);
      HoldsStart(cw, hs);
    } else {
      TallyHolds(cw, hs, k - 1);
      TallyNext(cw, hs, k - 1);
      HoldsNext(TallyTo(cw, hs, k - 1), cw, hs, k - 1);
    }
  }

  lemma {:induction false} SameRaised(a: Weights, b: Weights, hs: seq<ServiceInstance>, k: nat, id: string)
    requires k <= |hs| && Lookup(a, id) == Lookup(b, id)
    ensures Raised(a, hs, k, id) == Raised(b, hs, k, id)
  {
    hide ServiceInstance.GetId, Lookup, Eff;
    if k > 0 {
      SameRaised(a, b, hs, k - 1, id);
    }
  }

  /**
   One call on any list, ids repeated or not, and any stored weights. It falls back exactly when no
   raised weight is above zero, and then returns the first healthy instance; else it returns an
   instance with the greatest raised weight and takes the total back from that one alone.
   */
  lemma PicksGreatest(cw: Weights, instances: seq<ServiceInstance>)
    requires Healthy(instances) != []
    ensures var (r, cw') := Selected(cw, instances);
      var hs, n := Healthy(instances), |Healthy(instances)|;
      && r.Ok?
      && (FallsBack(cw, instances) <==> forall h | h in hs :: Raised(cw, hs, n, h.GetId()) <= 0)
      && (FallsBack(cw, instances) ==> r.value == hs[0])
      && (!FallsBack(cw, instances) ==> r.value in hs && forall h | h in hs ::
            Raised(cw, hs, n, h.GetId()) <= Raised(cw, hs, n, r.value.GetId()))
      && (forall id :: Lookup(cw', id) == Raised(cw, hs, n, id)
            - (if !FallsBack(cw, instances) && id == r.value.GetId() then TotalWeight(instances) else 0))
  {
    hide ServiceInstance.GetId, Healthy, Ids, TallyTo, WithMissing, Sum, FirstWithId, Raised;
    var hs := Healthy(instances);
    var start := WithMissing(cw, hs, |hs|);
    var s := TallyTo(start, hs, |hs|);
    AllPresent(cw, hs, |hs|);
    TallyHolds(start, hs, |hs|);
    TallyFacts(start, hs, |hs|);
    SumIsSumTo(WeightsOf(hs));
    forall id ensures Raised(start, hs, |hs|, id) == Raised(cw, hs, |hs|, id) {
      SameRaised(start, cw, hs, |hs|, id);
    }
    forall h | h in hs ensures Raised(cw, hs, |hs|, h.GetId()) <= s.max {
      var j :| 0 <= j < |hs| && hs[j] == h;
    }
    if s.selected != "" {
      SomeHas(hs, s.selected);
    }
  }

  lemma SomeHas(hs: seq<ServiceInstance>, id: string)
    requires id in Ids(hs)
    ensures exists h :: h in hs && h.GetId() == id
  {
    hide ServiceInstance.GetId;
  }

  /** With distinct ids, a call falls back exactly when no instance's weight rises above zero. */
  lemma FallsBackIff(cw: Weights, instances: seq<ServiceInstance>)
    requires Schedulable(instances)
    ensures FallsBack(cw, instances) <==>
      forall h | h in Healthy(instances) :: Lookup(cw, h.GetId()) + Eff(h.weight) <= 0
  {
    hide ServiceInstance.GetId, Healthy, Ids, SumTo, PickTo, TallyTo, WithMissing, Lookup;
    var hs := Healthy(instances);
    var start := WithMissing(cw, hs, |hs|);
    AllPresent(cw, hs, |hs|);
    TallyIsVector(start, hs, |hs|);
    assert View(start, hs) == View(cw, hs);
    var b := Bumped(WeightsOf(hs), View(cw, hs));
    assert FallsBack(cw, instances) <==> PickTo(b, |b|) == -1;
    assert forall j | 0 <= j < |hs| :: b[j] == Lookup(cw, hs[j].GetId()) + Eff(hs[j].weight);
  }

  /**
   The fallback does happen: offered alone right after it was the first pick of a list, an instance
   is below zero exactly when it holds at most half of that list's weight.
   */
  lemma FirstPickAloneFallsBackIff(instances: seq<ServiceInstance>)
    requires Schedulable(instances) && PositiveWeights(instances)
    ensures var r := RunResult(instances, 0);
      && r.Ok?
      && (FallsBack(RunWeights(instances, 1), [r.value])
          <==> 2 * r.value.weight as int <= TotalWeight(instances))
  {
    hide ServiceInstance.GetId, Healthy, Ids, RunWeights, FallsBack, State, Step, Sum, Lookup;
    var hs := Healthy(instances);
    var w := WeightsOf(hs);
    RunIsSchedule(instances, 0);
    RunIsSchedule(instances, 1);
    var p := PickAt(w, 0);
    AfterOneStep(w);
    assert View(RunWeights(instances, 1), hs)[p] == State(w, 1)[p];
    HealthySound(instances);
    JustOne(hs[p]);
    FallsBackIff(RunWeights(instances, 1), [hs[p]]);
  }

  lemma AfterOneStep(w: seq<int>)
    requires AllPositive(w) && w != []
    ensures var p := PickAt(w, 0);
      0 <= p < |w| && State(w, 1)[p] == w[p] - Sum(w)
  {
    hide Sum, PickTo;
    Drift(w, 0);
    StepSlot(w, Zeros(|w|), PickAt(w, 0));
  }
}
