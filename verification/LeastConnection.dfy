/** LeastConnectionLoadBalancer: the object, and the greedy bound on the connections of one instance. */
module LeastConnection {
  import opened Decimal
  import opened Results
  import opened ServiceInstances
  import opened Sums

  type Counts = map<string, int32>

  function Count(counts: Counts, id: string): int32 {
    if id in counts then counts[id] else 0
  }

  /** Counts of 0 for the first k instances where there was none. */
  function WithMissing(counts: Counts, hs: seq<ServiceInstance>, k: nat): (m: Counts)
    requires k <= |hs|
    ensures forall id :: Count(m, id) == Count(counts, id)
  {
    if k == 0 then counts
    else
      var m := WithMissing(counts, hs, k - 1);
      if hs[k - 1].GetId() in m then m else m[hs[k - 1].GetId() := 0]
  }

  function View(counts: Counts, hs: seq<ServiceInstance>): seq<int> {
    seq(|hs|, i requires 0 <= i < |hs| => Count(counts, hs[i].GetId()))
  }

  /** The first slot that holds the least value. */
  ghost predicate IsFirstLeast(xs: seq<int>, p: int) {
    && 0 <= p < |xs|
    && (forall j | 0 <= j < |xs| :: xs[p] <= xs[j])
    && (forall j | 0 <= j < p :: xs[p] < xs[j])
  }

  function FirstLeast(xs: seq<int>): (p: int)
    requires xs != []
    ensures IsFirstLeast(xs, p)
  {
    if |xs| == 1 then 0
    else
      var front := xs[..|xs| - 1];
      var p := FirstLeast(front);
      assert forall j | 0 <= j < |front| :: xs[j] == front[j];
      if xs[|xs| - 1] < front[p] then |xs| - 1 else p
  }

  /** What select returns and leaves. */
  function Selected(counts: Counts, instances: seq<ServiceInstance>): (Result<ServiceInstance>, Counts) {
    var hs := Healthy(instances);
    if instances == [] then (Err(NoInstances), counts)
    else if hs == [] then (Err(NoHealthyInstances), counts)
    else (Ok(hs[FirstLeast(View(counts, hs))]), WithMissing(counts, hs, |hs|))
  }

  /** std::atomic<int>::fetch_add wraps around. */
  function AddOne(c: int32): (r: int32)
    ensures (r - c - 1) % TWO_32 == 0
  {
    if c == INT_MAX then INT_MIN else c + 1
  }

  /** What updateStats leaves: an end without a start changes nothing. */
  function Updated(counts: Counts, id: string, start: bool): Counts {
    var c := Count(counts, id);
    counts[id := if start then AddOne(c) else if c > 0 then c - 1 else c]
  }

  class LeastConnectionLoadBalancer {
    var connectionCounts: Counts

    constructor ()
      ensures connectionCounts == map[]
    {
      connectionCounts := map[];
    }

    method Select(instances: seq<ServiceInstance>) returns (r: Result<ServiceInstance>)
      modifies this
      ensures (r, connectionCounts) == Selected(old(connectionCounts), instances)
    {
      hide ServiceInstance.GetId, Healthy;
      if instances == [] {
        return Err(NoInstances);
      }
      var hs := FilterHealthy(instances);
      if hs == [] {
        return Err(NoHealthyInstances);
      }
      for k := 0 to |hs|
        invariant connectionCounts == WithMissing(old(connectionCounts), hs, k)
      {
        if hs[k].GetId() !in connectionCounts {
          connectionCounts := connectionCounts[hs[k].GetId() := 0];
        }
      }
      ghost var xs := View(old(connectionCounts), hs);
      var minConnections := INT_MAX;
      var selected := hs[0];
      ghost var p := 0;
      for k := 0 to |hs|
        invariant 0 <= p < |hs| && (p == 0 || p < k) && selected == hs[p]
        invariant minConnections == if p < k then xs[p] else INT_MAX
        invariant k > 0 ==> minConnections <= xs[p]
        invariant forall j | 0 <= j < k :: xs[p] <= xs[j]
        invariant forall j | 0 <= j < p :: xs[p] < xs[j]
      {
        var connections := Count(connectionCounts, hs[k].GetId());
        assert connections == xs[k];
        if connections < minConnections {
          minConnections := connections;
          selected := hs[k];
          p := k;
        }
      }
      FirstLeastUnique(xs, p);
      return Ok(selected);
    }

    method UpdateStats(id: string, connectionStart: bool)
      modifies this
      ensures connectionCounts == Updated(old(connectionCounts), id, connectionStart)
    {
      if id !in connectionCounts {
        connectionCounts := connectionCounts[id := 0];
      }
      if connectionStart {
        connectionCounts := connectionCounts[id := AddOne(connectionCounts[id])];
      } else {
        var current := connectionCounts[id];
        if current > 0 {
          connectionCounts := connectionCounts[id := current - 1];
        }
      }
    }

    method Reset()
      modifies this
      ensures connectionCounts == map[]
    {
      connectionCounts := map[];
    }
  }

  /** h has the least count of the list, and every instance before it a greater one. */
  ghost predicate IsLeast(counts: Counts, hs: seq<ServiceInstance>, h: ServiceInstance) {
    exists p :: 0 <= p < |hs| && hs[p] == h && LeastAt(counts, hs, p)
  }

  ghost predicate LeastAt(counts: Counts, hs: seq<ServiceInstance>, p: nat)
    requires p < |hs|
  {
    && (forall j | 0 <= j < |hs| ::
          Count(counts, hs[p].GetId()) <= Count(counts, hs[j].GetId()))
    && (forall j | 0 <= j < p :: Count(counts, hs[p].GetId()) < Count(counts, hs[j].GetId()))
  }

  /**
   What a call returns: an error exactly when nothing is healthy, and else the first of the healthy
   instances with the least count. No count changes; healthy instances without one get 0.
   */
  lemma SelectsLeast(counts: Counts, instances: seq<ServiceInstance>)
    ensures var (r, counts') := Selected(counts, instances);
      && (r == Err(NoInstances) <==> instances == [])
      && (r == Err(NoHealthyInstances) <==>
            instances != [] && forall x | x in instances :: !x.isHealthy)
      && (r.Ok? <==> exists x :: x in instances && x.isHealthy)
      && (r.Ok? ==> IsLeast(counts, Healthy(instances), r.value))
      && (r.Ok? ==> r.value in instances && r.value.isHealthy)
      && (forall id :: Count(counts', id) == Count(counts, id))
      && counts'.Keys == counts.Keys + Ids(Healthy(instances))
  {
    hide ServiceInstance.GetId, Healthy, Ids, FirstLeast, WithMissing;
    var hs := Healthy(instances);
    NoneHealthyIff(instances);
    HealthySound(instances);
    if instances == [] {
      HealthyNone();
    }
    if hs == [] {
      NoIds(hs);
    } else {
      var xs := View(counts, hs);
      var p := FirstLeast(xs);
      assert forall j | 0 <= j < |hs| :: xs[j] == Count(counts, hs[j].GetId());
      assert LeastAt(counts, hs, p);
      MissingKeys(counts, hs, |hs|);
      assert hs[..|hs|] == hs;
    }
  }

  lemma HealthyNone()
    ensures Healthy([]) == []
  {
  }

  lemma {:induction false} MissingKeys(counts: Counts, hs: seq<ServiceInstance>, k: nat)
    requires k <= |hs|
    ensures WithMissing(counts, hs, k).Keys == counts.Keys + Ids(hs[..k])
  {
    hide ServiceInstance.GetId, Ids;
    if k == 0 {
      NoIds(hs[..0]);
    } else {
      MissingKeys(counts, hs, k - 1);
      IdAt(hs, k - 1);
    }
  }

  lemma FirstLeastUnique(xs: seq<int>, p: int)
    requires IsFirstLeast(xs, p)
    ensures xs != [] && p == FirstLeast(xs)
  {
    var q := FirstLeast(xs);
    assert xs[p] <= xs[q] && xs[q] <= xs[p];
  }

  // ---------------------------------------------------------------- runs on a fixed list

  /** A call that selects and at once starts a connection, or the end of a connection. */
  datatype Event = Start | End(id: string)

  /** The instance that the next Start goes to: what a call returns. */
  function Chosen(counts: Counts, instances: seq<ServiceInstance>): ServiceInstance
    requires Healthy(instances) != []
  {
    Selected(counts, instances).0.value
  }

  function Next(counts: Counts, instances: seq<ServiceInstance>, event: Event): Counts
    requires Healthy(instances) != []
  {
    match event
    case Start => Updated(Selected(counts, instances).1, Chosen(counts, instances).GetId(), true)
    case End(id) => Updated(counts, id, false)
  }

  function After(instances: seq<ServiceInstance>, events: seq<Event>): Counts
    requires Healthy(instances) != []
  {
    if events == [] then map[]
    else Next(After(instances, events[..|events| - 1]), instances, events[|events| - 1])
  }

  /** Connections started to id less connections ended, over the events so far. */
  function Open(instances: seq<ServiceInstance>, events: seq<Event>, id: string): int
    requires Healthy(instances) != []
  {
    if events == [] then 0
    else
      var past, last := events[..|events| - 1], events[|events| - 1];
      Open(instances, past, id)
        + (if last.Start? && Chosen(After(instances, past), instances).GetId() == id then 1 else 0)
        - (if last == End(id) then 1 else 0)
  }

  function OpenInAll(events: seq<Event>): int {
    if events == [] then 0
    else OpenInAll(events[..|events| - 1]) + (if events[|events| - 1].Start? then 1 else -1)
  }

  /** Only open connections end, and at no time are more than limit open. */
  ghost predicate Allowed(instances: seq<ServiceInstance>, events: seq<Event>, limit: nat)
    requires Healthy(instances) != []
  {
    events == [] ||
    var past, last := events[..|events| - 1], events[|events| - 1];
    && Allowed(instances, past, limit)
    && (last.End? ==> Open(instances, past, last.id) > 0)
    && OpenInAll(events) <= limit
  }

  /** limit / n, rounded up. */
  function Share(limit: nat, n: nat): nat
    requires n > 0
  {
    (limit + n - 1) / n
  }

  /** The greedy choice: n times the least count is at most the sum, so one more stays in the share. */
  lemma LeastIsBelowShare(xs: seq<int>, limit: nat)
    requires xs != [] && Sum(xs) < limit
    requires forall j | 0 <= j < |xs| :: xs[j] >= 0
    ensures xs[FirstLeast(xs)] + 1 <= Share(limit, |xs|)
  {
    hide SumTo, FirstLeast;
    var c, n := xs[FirstLeast(xs)], |xs|;
    SumAtLeast(xs, c, n);
    assert n * (c + 1) == n * c + n;
    DivAtLeast(limit + n - 1, n, c + 1);
  }

  lemma DivAtLeast(a: int, n: int, q: int)
    requires n > 0 && n * q <= a
    ensures q <= a / n
  {
    assert n * (a / n + 1) == n * (a / n) + n > a;
    MulOrder(n, a / n + 1, q);
  }

  lemma FindSlot(hs: seq<ServiceInstance>, id: string)
    requires id in Ids(hs)
    ensures exists i :: 0 <= i < |hs| && hs[i].GetId() == id
  {
    hide ServiceInstance.GetId;
    var h :| h in hs && h.GetId() == id;
    var i :| 0 <= i < |hs| && hs[i] == h;
  }

  lemma {:induction false} ViewUpdated(counts: Counts, hs: seq<ServiceInstance>, i: nat, start: bool)
    requires DistinctIds(hs) && i < |hs|
    ensures var c := View(counts, hs)[i];
      View(Updated(counts, hs[i].GetId(), start), hs)
        == View(counts, hs)[i := if start then AddOne(c) else if c > 0 then c - 1 else c]
  {
    hide ServiceInstance.GetId;
  }

  /** The counts are the open connections, none above the share, none on a stranger. */
  ghost predicate CountsExact(instances: seq<ServiceInstance>, events: seq<Event>, share: nat)
    requires Healthy(instances) != []
  {
    var counts := After(instances, events);
    && (forall id :: Count(counts, id) == Open(instances, events, id))
    && (forall id :: 0 <= Count(counts, id) <= share)
    && (forall id | id !in Ids(Healthy(instances)) :: Count(counts, id) == 0)
  }

  ghost predicate SumExact(instances: seq<ServiceInstance>, events: seq<Event>)
    requires Healthy(instances) != []
  {
    Sum(View(After(instances, events), Healthy(instances))) == OpenInAll(events)
  }

  /**
   Peak bound: on a fixed list of n healthy instances, with at most limit connections open at any
   time, in any order of starts and ends, the counts are exact and no instance ever has more than
   limit / n of them, rounded up. The share must be an int.
   */
  lemma {:induction false} PeakBound(instances: seq<ServiceInstance>, events: seq<Event>, limit: nat)
    requires Healthy(instances) != [] && DistinctIds(Healthy(instances))
    requires Allowed(instances, events, limit)
    requires Share(limit, |Healthy(instances)|) <= INT_MAX
    ensures CountsExact(instances, events, Share(limit, |Healthy(instances)|))
    ensures SumExact(instances, events)
  {
    hide ServiceInstance.GetId, Ids, Healthy, CountsExact, SumExact, View;
    var share := Share(limit, |Healthy(instances)|);
    if events == [] {
      ExactAtStart(instances, events, share);
    } else {
      var past, last := events[..|events| - 1], events[|events| - 1];
      PeakBound(instances, past, limit);
      if last.Start? {
        CountsAfterStart(instances, events, limit);
        SumAfterStart(instances, events, limit);
      } else {
        ExactAfterEnd(instances, events, share);
      }
    }
  }

  lemma ExactAtStart(instances: seq<ServiceInstance>, events: seq<Event>, share: nat)
    requires Healthy(instances) != [] && events == []
    ensures CountsExact(instances, events, share) && SumExact(instances, events)
  {
    hide ServiceInstance.GetId, Ids, Healthy;
    var hs := Healthy(instances);
    assert View(map[], hs) == Zeros(|hs|);
    SumZeros(|hs|, |hs|);
  }

  /** A Start goes to a least count, which the share leaves room for. */
  lemma StartHasRoom(instances: seq<ServiceInstance>, past: seq<Event>, limit: nat)
    requires Healthy(instances) != []
    requires CountsExact(instances, past, Share(limit, |Healthy(instances)|))
    requires SumExact(instances, past) && OpenInAll(past) < limit
    ensures var counts := After(instances, past);
      Count(counts, Chosen(counts, instances).GetId()) + 1 <= Share(limit, |Healthy(instances)|)
  {
    hide ServiceInstance.GetId, Ids, Healthy, Share, After, Sum;
    LeastIsBelowShare(View(After(instances, past), Healthy(instances)), limit);
  }

  lemma CountsAfterStart(instances: seq<ServiceInstance>, events: seq<Event>, limit: nat)
    requires Healthy(instances) != [] && events != []
    requires events[|events| - 1].Start? && OpenInAll(events) <= limit
    requires Share(limit, |Healthy(instances)|) <= INT_MAX
    requires CountsExact(instances, events[..|events| - 1], Share(limit, |Healthy(instances)|))
    requires SumExact(instances, events[..|events| - 1])
    ensures CountsExact(instances, events, Share(limit, |Healthy(instances)|))
  {
    hide ServiceInstance.GetId, Ids, Healthy, Share, After, Updated, Chosen, SumExact;
    var past, hs := events[..|events| - 1], Healthy(instances);
    var counts := After(instances, past);
    var all, id := WithMissing(counts, hs, |hs|), Chosen(counts, instances).GetId();
    StartHasRoom(instances, past, limit);
    AfterStart(instances, events);
    CountUpdated(all, id, true);
    ChosenIsHealthy(counts, instances);
  }

  lemma ChosenIsHealthy(counts: Counts, instances: seq<ServiceInstance>)
    requires Healthy(instances) != []
    ensures Chosen(counts, instances).GetId() in Ids(Healthy(instances))
  {
    hide ServiceInstance.GetId, Ids, Healthy;
    IdAt(Healthy(instances), FirstLeast(View(counts, Healthy(instances))));
  }

  lemma SumAfterStart(instances: seq<ServiceInstance>, events: seq<Event>, limit: nat)
    requires Healthy(instances) != [] && DistinctIds(Healthy(instances))
    requires events != [] && events[|events| - 1].Start? && OpenInAll(events) <= limit
    requires Share(limit, |Healthy(instances)|) <= INT_MAX
    requires CountsExact(instances, events[..|events| - 1], Share(limit, |Healthy(instances)|))
    requires SumExact(instances, events[..|events| - 1])
    ensures SumExact(instances, events)
  {
    hide ServiceInstance.GetId, Ids, Healthy, SumTo, FirstLeast, Share, After, Updated, CountsExact;
    var past, hs := events[..|events| - 1], Healthy(instances);
    var counts := After(instances, past);
    var xs, all := View(counts, hs), WithMissing(counts, hs, |hs|);
    var p := FirstLeast(xs);
    StartHasRoom(instances, past, limit);
    AfterStart(instances, events);
    assert View(all, hs) == xs;
    ViewUpdated(all, hs, p, true);
    SumUpdate(xs, p, xs[p] + 1, |xs|);
  }

  lemma AfterStart(instances: seq<ServiceInstance>, events: seq<Event>)
    requires Healthy(instances) != [] && events != [] && events[|events| - 1].Start?
    ensures var counts, hs := After(instances, events[..|events| - 1]), Healthy(instances);
      After(instances, events)
        == Updated(WithMissing(counts, hs, |hs|), Chosen(counts, instances).GetId(), true)
  {
    hide ServiceInstance.GetId, Healthy, Updated, WithMissing, Chosen;
  }

  lemma CountUpdated(counts: Counts, id: string, start: bool)
    ensures var c := Count(counts, id);
      forall other :: Count(Updated(counts, id, start), other) ==
        if other != id then Count(counts, other)
        else if start then AddOne(c)
        else if c > 0 then c - 1 else c
  {
  }

  lemma ExactAfterEnd(instances: seq<ServiceInstance>, events: seq<Event>, share: nat)
    requires Healthy(instances) != [] && DistinctIds(Healthy(instances))
    requires events != [] && events[|events| - 1].End?
    requires Open(instances, events[..|events| - 1], events[|events| - 1].id) > 0
    requires CountsExact(instances, events[..|events| - 1], share)
    requires SumExact(instances, events[..|events| - 1])
    ensures CountsExact(instances, events, share) && SumExact(instances, events)
  {
    hide ServiceInstance.GetId, Ids, Healthy, SumTo, FirstLeast, Chosen, Updated;
    var past, hs, id := events[..|events| - 1], Healthy(instances), events[|events| - 1].id;
    var counts := After(instances, past);
    FindSlot(hs, id);
    var i :| 0 <= i < |hs| && hs[i].GetId() == id;
    var xs := View(counts, hs);
    ViewUpdated(counts, hs, i, false);
    CountUpdated(counts, id, false);
    SumUpdate(xs, i, xs[i] - 1, |xs|);
    assert After(instances, events) == Updated(counts, id, false);
    assert xs[i] == Count(counts, id);
  }
}
