/** WeightedRoundRobinLoadBalancer: the object, the function each call computes, and its runs. */
module WeightedRoundRobin {
  import opened Results
  import opened ServiceInstances
  import opened SmoothSchedule
  import opened Sums

  type Weights = map<string, int>

  /** The running variables of the selection loop. */
  datatype Tally = Tally(weights: Weights, total: int, max: int, selected: string)

  function WithMissing(cw: Weights, hs: seq<ServiceInstance>, k: nat): Weights
    requires k <= |hs|
  {
    if k == 0 then cw
    else
      var m := WithMissing(cw, hs, k - 1);
      var id := hs[k - 1].GetId();
      if id in m then m else m[id := 0]
  }

  /** A weight the map does not hold yet counts as zero. */
  function Lookup(cw: Weights, id: string): int {
    if id in cw then cw[id] else 0
  }

  /** One turn of the selection loop. */
  function Add(s: Tally, h: ServiceInstance): Tally {
    var bumped := Lookup(s.weights, h.GetId()) + Eff(h.weight);
    var weights := s.weights[h.GetId() := bumped];
    if bumped > s.max then Tally(weights, s.total + h.weight, bumped, h.GetId())
    else Tally(weights, s.total + h.weight, s.max, s.selected)
  }

  function TallyTo(cw: Weights, hs: seq<ServiceInstance>, k: nat): Tally
    requires k <= |hs|
  {
    if k == 0 then Tally(cw, 0, 0, "") else Add(TallyTo(cw, hs, k - 1), hs[k - 1])
  }

  lemma TallyStart(cw: Weights, hs: seq<ServiceInstance>)
    ensures TallyTo(cw, hs, 0) == Tally(cw, 0, 0, "")
  {
  }

  lemma TallyNext(cw: Weights, hs: seq<ServiceInstance>, k: nat)
    requires k < |hs|
    ensures TallyTo(cw, hs, k + 1) == Add(TallyTo(cw, hs, k), hs[k])
  {
    hide Add;
  }

  /** The map after the total is taken back from the selected instance, if there is one. */
  function TakenBack(s: Tally): Weights {
    if s.selected == "" then s.weights
    else s.weights[s.selected := Lookup(s.weights, s.selected) - s.total]
  }

  /** What one call returns and leaves in the map. */
  function Selected(cw: Weights, instances: seq<ServiceInstance>)
    : (Result<ServiceInstance>, Weights)
  {
    var hs := Healthy(instances);
    if instances == [] then (Err(NoInstances), cw)
    else if hs == [] then (Err(NoHealthyInstances), cw)
    else
      var s := TallyTo(WithMissing(cw, hs, |hs|), hs, |hs|);
      match FirstWithId(hs, s.selected)
      case Some(h) => (Ok(h), TakenBack(s))
      case None => (Ok(hs[0]), TakenBack(s))
  }

  class WeightedRoundRobinLoadBalancer {
    var currentIndex: nat
    var currentWeights: Weights

    constructor ()
      ensures currentIndex == 0 && currentWeights == map[]
    {
      currentIndex := 0;
      currentWeights := map[];
    }

    method Select(instances: seq<ServiceInstance>) returns (r: Result<ServiceInstance>)
      modifies this
      ensures (r, currentWeights) == Selected(old(currentWeights), instances)
      ensures currentIndex == old(currentIndex)
    {
      hide ServiceInstance.GetId, Ids, Healthy, TallyTo, WithMissing, FirstWithId;
      if instances == [] {
        return Err(NoInstances);
      }
      var hs := FilterHealthy(instances);
      if hs == [] {
        return Err(NoHealthyInstances);
      }
      InitWeights(hs);
      AllPresent(old(currentWeights), hs, |hs|);
      var total, max, selected := Accumulate(hs);
      if selected != "" {
        currentWeights := currentWeights[selected := currentWeights[selected] - total];
      }
      var found := FindById(hs, selected);
      r := Ok(if found.Some? then found.value else hs[0]);
    }

    /** First loop: a weight of 0 for every instance not seen before. */
    method InitWeights(hs: seq<ServiceInstance>)
      modifies this`currentWeights
      ensures currentWeights == WithMissing(old(currentWeights), hs, |hs|)
    {
      hide ServiceInstance.GetId;
      for k := 0 to |hs|
        invariant currentWeights == WithMissing(old(currentWeights), hs, k)
      {
        if hs[k].GetId() !in currentWeights {
          currentWeights := currentWeights[hs[k].GetId() := 0];
        }
      }
    }

    /** Second loop: raise every weight and keep the first greatest one above 0. */
    method Accumulate(hs: seq<ServiceInstance>) returns (total: int, max: int, selected: string)
      requires Ids(hs) <= currentWeights.Keys
      modifies this`currentWeights
      ensures Tally(currentWeights, total, max, selected) == TallyTo(old(currentWeights), hs, |hs|)
      ensures selected != "" ==> selected in currentWeights
    {
      hide ServiceInstance.GetId, Ids, TallyTo;
      TallyStart(currentWeights, hs);
      total, max, selected := 0, 0, "";
      for k := 0 to |hs|
        invariant Tally(currentWeights, total, max, selected) == TallyTo(old(currentWeights), hs, k)
        invariant Ids(hs) <= currentWeights.Keys
        invariant selected != "" ==> selected in currentWeights
      {
        IdAt(hs, k);
        TallyNext(old(currentWeights), hs, k);
        var id := hs[k].GetId();
        var weight := if hs[k].weight > 0 then hs[k].weight else 1;
        total := total + hs[k].weight;
        currentWeights := currentWeights[id := currentWeights[id] + weight];
        if currentWeights[id] > max {
          max := currentWeights[id];
          selected := id;
        }
      }
    }

    method Reset()
      modifies this
      ensures currentIndex == 0 && currentWeights == map[]
    {
      currentIndex := 0;
      currentWeights := map[];
    }
  }

  // ---------------------------------------------------------------- the maps behind the vectors

  lemma {:induction false} AllPresent(cw: Weights, hs: seq<ServiceInstance>, k: nat)
    requires k <= |hs|
    ensures WithMissing(cw, hs, k).Keys == cw.Keys + Ids(hs[..k])
    ensures forall id :: Lookup(WithMissing(cw, hs, k), id) == Lookup(cw, id)
    ensures k == |hs| ==> WithMissing(cw, hs, k).Keys == cw.Keys + Ids(hs)
  {
    hide ServiceInstance.GetId, Ids;
    if k == 0 {
      NoIds(hs[..0]);
    } else {
      AllPresent(cw, hs, k - 1);
      IdAt(hs, k - 1);
    }
    assert hs[..|hs|] == hs;
  }

  function WeightsOf(hs: seq<ServiceInstance>): seq<int> {
    seq(|hs|, i requires 0 <= i < |hs| => hs[i].weight as int)
  }

  /** The slots of a list of instances, read off the map. */
  function View(cw: Weights, hs: seq<ServiceInstance>): seq<int> {
    seq(|hs|, i requires 0 <= i < |hs| => Lookup(cw, hs[i].GetId()))
  }

  /** The loop's running values after k slots, said of the vectors. */
  ghost predicate MatchesPick(s: Tally, cw: Weights, hs: seq<ServiceInstance>, k: nat)
    requires k <= |hs|
  {
    var b := Bumped(WeightsOf(hs), View(cw, hs));
    var p := PickTo(b, k);
    && s.total == SumTo(WeightsOf(hs), k)
    && s.selected == (if p == -1 then "" else hs[p].GetId())
    && s.max == (if p == -1 then 0 else b[p])
  }

  /** The map after k slots: k of them raised, every other weight as it was. */
  ghost predicate MatchesMap(s: Tally, cw: Weights, hs: seq<ServiceInstance>, k: nat)
    requires k <= |hs|
  {
    && s.weights.Keys == cw.Keys + Ids(hs[..k])
    && (forall j | 0 <= j < |hs| ::
          Lookup(s.weights, hs[j].GetId()) == View(cw, hs)[j] + if j < k then Eff(hs[j].weight) else 0)
    && (forall id | id !in Ids(hs) :: Lookup(s.weights, id) == Lookup(cw, id))
  }

  ghost predicate Matches(s: Tally, cw: Weights, hs: seq<ServiceInstance>, k: nat)
    requires k <= |hs|
  {
    MatchesPick(s, cw, hs, k) && MatchesMap(s, cw, hs, k)
  }

  lemma LookupAdd(s: Tally, h: ServiceInstance)
    ensures var s' := Add(s, h);
      && (forall id :: Lookup(s'.weights, id) ==
            Lookup(s.weights, id) + if id == h.GetId() then Eff(h.weight) else 0)
      && s'.weights.Keys == s.weights.Keys + {h.GetId()}
      && s'.total == s.total + h.weight
      && var bumped := Lookup(s.weights, h.GetId()) + Eff(h.weight);
         s'.max == (if bumped > s.max then bumped else s.max)
         && s'.selected == (if bumped > s.max then h.GetId() else s.selected)
  {
    hide ServiceInstance.GetId;
  }

  lemma MatchesPickAdd(s: Tally, cw: Weights, hs: seq<ServiceInstance>, k: nat)
    requires k < |hs| && Matches(s, cw, hs, k)
    ensures MatchesPick(Add(s, hs[k]), cw, hs, k + 1)
  {
    hide ServiceInstance.GetId, Ids, PickTo, Add, Lookup;
    var b := Bumped(WeightsOf(hs), View(cw, hs));
    LookupAdd(s, hs[k]);
    assert b[k] == Lookup(s.weights, hs[k].GetId()) + Eff(hs[k].weight);
    PickToNext(b, k);
  }

  lemma MatchesMapAdd(s: Tally, cw: Weights, hs: seq<ServiceInstance>, k: nat)
    requires DistinctIds(hs) && k < |hs| && MatchesMap(s, cw, hs, k)
    ensures MatchesMap(Add(s, hs[k]), cw, hs, k + 1)
  {
    hide ServiceInstance.GetId, Ids, Add, Lookup;
    var s' := Add(s, hs[k]);
    LookupAdd(s, hs[k]);
    IdAt(hs, k);
    WholeList(hs);
    forall j | 0 <= j < |hs|
      ensures Lookup(s'.weights, hs[j].GetId())
        == View(cw, hs)[j] + if j < k + 1 then Eff(hs[j].weight) else 0
    {
      assert j < k ==> hs[j].GetId() != hs[k].GetId();
      assert k < j ==> hs[k].GetId() != hs[j].GetId();
    }
  }

  lemma WholeList(hs: seq<ServiceInstance>)
    ensures hs[..|hs|] == hs
  {
  }

  lemma MatchesStart(cw: Weights, hs: seq<ServiceInstance>)
    ensures Matches(Tally(cw, 0, 0, ""), cw, hs, 0)
  {
    hide ServiceInstance.GetId, Ids;
    NoIds(hs[..0]);
  }

  lemma {:induction false} TallyIsVector(cw: Weights, hs: seq<ServiceInstance>, k: nat)
    requires DistinctIds(hs) && k <= |hs|
    ensures Matches(TallyTo(cw, hs, k), cw, hs, k)
  {
    hide MatchesPick, MatchesMap, Add, DistinctIds, Ids, ServiceInstance.GetId, SumTo, PickTo;
    if k == 0 {
      MatchesStart(cw, hs);
    } else {
      TallyIsVector(cw, hs, k - 1);
      MatchesPickAdd(TallyTo(cw, hs, k - 1), cw, hs, k - 1);
      MatchesMapAdd(TallyTo(cw, hs, k - 1), cw, hs, k - 1);
    }
  }

  lemma {:induction false} FirstWithIdAt(hs: seq<ServiceInstance>, p: nat)
    requires DistinctIds(hs) && p < |hs|
    ensures FirstWithId(hs, hs[p].GetId()) == Some(hs[p])
  {
    if p > 0 {
      assert hs[0].GetId() != hs[p].GetId();
      FirstWithIdAt(hs[1..], p - 1);
    }
  }

  /**
   One call, for distinct ids: the slots of the healthy instances make one scheduler step, every
   other stored weight stays, and the call returns the picked instance or else the first.
   */
  lemma SelectIsStep(cw: Weights, instances: seq<ServiceInstance>)
    requires Healthy(instances) != [] && DistinctIds(Healthy(instances))
    ensures var hs := Healthy(instances);
      var (r, cw') := Selected(cw, instances);
      var p := Pick(Bumped(WeightsOf(hs), View(cw, hs)));
      && r == Ok(if p == -1 then hs[0] else hs[p])
      && View(cw', hs) == Step(WeightsOf(hs), View(cw, hs))
      && cw'.Keys == cw.Keys + Ids(hs)
      && (forall id | id !in Ids(hs) :: Lookup(cw', id) == Lookup(cw, id))
  {
    hide SumTo, PickTo, TallyTo, WithMissing, Healthy, FirstWithId, ServiceInstance.GetId, Ids, Step;
    var hs := Healthy(instances);
    var start := WithMissing(cw, hs, |hs|);
    AllPresent(cw, hs, |hs|);
    TallyIsVector(start, hs, |hs|);
    assert View(start, hs) == View(cw, hs);
    assert hs[..|hs|] == hs;
    var p := Pick(Bumped(WeightsOf(hs), View(cw, hs)));
    assert -1 <= p < |hs|;
    if p != -1 {
      FirstWithIdAt(hs, p);
      IdAt(hs, p);
    }
    SlotsStep(TallyTo(start, hs, |hs|), cw, hs);
  }

  /** The loop's map, with the total taken back from the pick, is the scheduler's next state. */
  lemma SlotsStep(s: Tally, cw: Weights, hs: seq<ServiceInstance>)
    requires DistinctIds(hs) && Matches(s, cw, hs, |hs|)
    ensures View(TakenBack(s), hs) == Step(WeightsOf(hs), View(cw, hs))
  {
    hide SumTo, PickTo, ServiceInstance.GetId, Ids, Step;
    var w, v := WeightsOf(hs), View(cw, hs);
    var p := Pick(Bumped(w, v));
    assert -1 <= p < |hs|;
    forall j | 0 <= j < |hs| ensures View(TakenBack(s), hs)[j] == Step(w, v)[j] {
      StepSlot(w, v, j);
      assert p != -1 && j < p ==> hs[j].GetId() != hs[p].GetId();
      assert p != -1 && p < j ==> hs[p].GetId() != hs[j].GetId();
    }
  }
}
