/** The service instance record that the registry stores and the balancers choose from. */
module ServiceInstances {
  import opened Decimal
  import opened Results

  datatype ServiceInstance = ServiceInstance(
    serviceName: string,
    host: string,
    port: uint16,
    weight: int32,
    isHealthy: bool,
    lastHeartbeat: uint64,
    metadata: map<string, string>)
  {
    function GetId(): (id: string)
      ensures id != ""
    {
      host + ":" + ToString(port)
    }
  }

  /** Host and port are what an id tells apart, whatever the host is; it may hold colons itself. */
  lemma SameIdIff(a: ServiceInstance, b: ServiceInstance)
    ensures a.GetId() == b.GetId() <==> a.host == b.host && a.port == b.port
  {
    hide ToString;
    if a.GetId() == b.GetId() {
      NumberNotIn(a.port, ':');
      NumberNotIn(b.port, ':');
      SplitAtLast(a.host, ToString(a.port), b.host, ToString(b.port), ':');
      ToStringInjective(a.port, b.port);
    }
  }

  /** A list has distinct ids exactly when no two of its instances share host and port. */
  lemma DistinctIdsIff(hs: seq<ServiceInstance>)
    ensures DistinctIds(hs) <==>
      forall i, j | 0 <= i < j < |hs| :: !(hs[i].host == hs[j].host && hs[i].port == hs[j].port)
  {
    hide ServiceInstance.GetId;
    forall i, j | 0 <= i < j < |hs|
      ensures hs[i].GetId() == hs[j].GetId() <==> hs[i].host == hs[j].host && hs[i].port == hs[j].port
    {
      SameIdIff(hs[i], hs[j]);
    }
  }

  /** The filter every balancer runs first. */
  function Healthy(instances: seq<ServiceInstance>): (hs: seq<ServiceInstance>)
    ensures |hs| <= |instances|
  {
    if instances == [] then []
    else
      var front := Healthy(instances[..|instances| - 1]);
      var last := instances[|instances| - 1];
      if last.isHealthy then front + [last] else front
  }

  function Ids(hs: seq<ServiceInstance>): set<string> {
    set h | h in hs :: h.GetId()
  }

  ghost predicate DistinctIds(hs: seq<ServiceInstance>) {
    forall i, j | 0 <= i < j < |hs| :: hs[i].GetId() != hs[j].GetId()
  }

  lemma IdAt(hs: seq<ServiceInstance>, k: nat)
    requires k < |hs|
    ensures hs[k].GetId() in Ids(hs)
    ensures Ids(hs[..k + 1]) == Ids(hs[..k]) + {hs[k].GetId()}
  {
    hide ServiceInstance.GetId;
    assert hs[..k + 1] == hs[..k] + [hs[k]];
  }

  lemma NoIds(hs: seq<ServiceInstance>)
    requires hs == []
    ensures Ids(hs) == {}
  {
  }

  method FilterHealthy(instances: seq<ServiceInstance>) returns (hs: seq<ServiceInstance>)
    ensures hs == Healthy(instances)
  {
    hs := [];
    for k := 0 to |instances|
      invariant hs == Healthy(instances[..k])
    {
      assert instances[..k + 1][..k] == instances[..k];
      if instances[k].isHealthy {
        hs := hs + [instances[k]];
      }
    }
    assert instances[..|instances|] == instances;
  }

  ghost predicate NoIdBefore(hs: seq<ServiceInstance>, k: nat, id: string)
    requires k <= |hs|
  {
    forall j | 0 <= j < k :: hs[j].GetId() != id
  }

  /** The first instance in the list with this id. */
  function FirstWithId(hs: seq<ServiceInstance>, id: string): (r: Option<ServiceInstance>)
    ensures r.Some? ==> r.value in hs && r.value.GetId() == id
    ensures r.None? <==> id !in Ids(hs)
  {
    if hs == [] then None
    else if hs[0].GetId() == id then Some(hs[0])
    else FirstWithId(hs[1..], id)
  }

  lemma {:induction false} FirstWithIdIsFirst(hs: seq<ServiceInstance>, id: string) returns (k: nat)
    requires id in Ids(hs)
    ensures k < |hs| && FirstWithId(hs, id) == Some(hs[k])
    ensures hs[k].GetId() == id && NoIdBefore(hs, k, id)
  {
    hide ServiceInstance.GetId;
    if hs[0].GetId() == id {
      k := 0;
    } else {
      assert id in Ids(hs[1..]) by {
        var h :| h in hs && h.GetId() == id;
        assert h in hs[1..];
      }
      var j := FirstWithIdIsFirst(hs[1..], id);
      k := j + 1;
      assert forall i | 1 <= i < k :: hs[i] == hs[1..][i - 1];
    }
  }

  method FindById(hs: seq<ServiceInstance>, id: string) returns (r: Option<ServiceInstance>)
    ensures r == FirstWithId(hs, id)
  {
    hide ServiceInstance.GetId;
    for k := 0 to |hs|
      invariant FirstWithId(hs, id) == FirstWithId(hs[k..], id)
    {
      if hs[k].GetId() == id {
        return Some(hs[k]);
      }
    }
    return None;
  }

  lemma HealthyNext(instances: seq<ServiceInstance>, k: nat)
    requires k < |instances|
    ensures Healthy(instances[..k + 1])
      == Healthy(instances[..k]) + (if instances[k].isHealthy then [instances[k]] else [])
  {
    assert instances[..k + 1][..k] == instances[..k];
  }

  /** Nothing healthy is left exactly when nothing healthy was there. */
  lemma NoneHealthyIff(instances: seq<ServiceInstance>)
    ensures Healthy(instances) == [] <==> forall x | x in instances :: !x.isHealthy
  {
    HealthySound(instances);
    if x :| x in instances && x.isHealthy {
      HealthyComplete(instances, x);
    }
    if Healthy(instances) != [] {
      assert Healthy(instances)[0] in Healthy(instances);
    }
  }

  lemma JustOne(h: ServiceInstance)
    requires h.isHealthy
    ensures Healthy([h]) == [h]
  {
    assert Healthy([]) == [];
    assert [h][..0] == [];
  }

  lemma JustTwo(a: ServiceInstance, b: ServiceInstance)
    requires a.isHealthy && b.isHealthy
    ensures Healthy([a, b]) == [a, b]
  {
    hide Healthy;
    JustOne(a);
    HealthyNext([a, b], 1);
    assert [a, b][..1] == [a] && [a, b][..2] == [a, b];
  }

  /** The filter keeps every healthy instance and nothing else. */
  lemma {:induction false} HealthySound(instances: seq<ServiceInstance>)
    ensures forall h | h in Healthy(instances) :: h in instances && h.isHealthy
  {
    if instances != [] {
      HealthySound(instances[..|instances| - 1]);
    }
  }

  lemma {:induction false} HealthyComplete(instances: seq<ServiceInstance>, x: ServiceInstance)
    requires x in instances && x.isHealthy
    ensures x in Healthy(instances)
  {
    var front := instances[..|instances| - 1];
    assert instances == front + [instances[|instances| - 1]];
    if x in front {
      HealthyComplete(front, x);
    }
  }
}
