/** ConsistentHashLoadBalancer: the ring is built when it is empty and again after a miss. */
module ConsistentHash {
  import opened Decimal
  import opened Fnv
  import opened HashRings
  import opened Results
  import opened ServiceInstances

  const DEFAULT_KEY := "default"

  /** The fields, and the list that the ring was last built from. */
  datatype State = State(ring: Ring, lastKey: string, built: Option<seq<ServiceInstance>>)

  function ActualKey(key: string): string {
    if key == "" then DEFAULT_KEY else key
  }

  function Fresh(): State {
    State(map[], "", None)
  }

  function Rebuilt(s: State, hs: seq<ServiceInstance>, virtualNodes: int): State {
    s.(ring := Build(hs, virtualNodes, Hash), built := Some(hs))
  }

  /** What one call returns, what it leaves, and whether it found the ring's owner healthy. */
  datatype Outcome = Outcome(result: Result<ServiceInstance>, next: State, hit: bool)

  /** selectByKey. */
  function Selected(s: State, instances: seq<ServiceInstance>, key: string, virtualNodes: int): Outcome {
    var hs := Healthy(instances);
    if instances == [] then Outcome(Err(NoInstances), s, false)
    else if hs == [] then Outcome(Err(NoHealthyInstances), s, false)
    else
      var t := if s.ring == map[] then Rebuilt(s, hs, virtualNodes) else s;
      if t.ring == map[] then Outcome(Ok(hs[0]), t, false)
      else
        var u := t.(lastKey := ActualKey(key));
        match FirstWithId(hs, Owner(t.ring, Hash(ActualKey(key))))
        case Some(h) => Outcome(Ok(h), u, true)
        case None => Outcome(Ok(hs[0]), Rebuilt(u, hs, virtualNodes), false)
  }

  class ConsistentHashLoadBalancer {
    const virtualNodes: int
    var hashRing: Ring
    var lastKey: string
    ghost var built: Option<seq<ServiceInstance>>

    ghost function Abs(): State
      reads this
    {
      State(hashRing, lastKey, built)
    }

    constructor (virtualNodes: int)
      ensures this.virtualNodes == virtualNodes && Abs() == Fresh()
    {
      this.virtualNodes := virtualNodes;
      hashRing, lastKey, built := map[], "", None;
    }

    /** Clears the ring and writes every virtual node of every healthy instance. */
    method RebuildHashRing(instances: seq<ServiceInstance>)
      modifies this`hashRing, this`built
      ensures Abs() == Rebuilt(old(Abs()), instances, virtualNodes)
    {
      hide ServiceInstance.GetId, VirtualKey, Hash, Healthy, Write, NodesOf, NodesOfId;
      ghost var n := if virtualNodes > 0 then virtualNodes else 0;
      hashRing := map[];
      WriteNothing(n);
      for k := 0 to |instances|
        invariant hashRing == Write(NodesOf(Healthy(instances[..k]), n, Hash))
      {
        HealthyNext(instances, k);
        ghost var before := Healthy(instances[..k]);
        if !instances[k].isHealthy {
          assert before + [] == before;
          continue;
        }
        var id := instances[k].GetId();
        NodesOfNext(before, instances[k], n, Hash);
        WriteStart(NodesOf(before, n, Hash), id);
        var i := 0;
        while i < virtualNodes
          invariant 0 <= i <= n
          invariant hashRing == Write(NodesOf(before, n, Hash) + NodesOfId(id, i, Hash))
        {
          var hashValue := ComputeHash(VirtualKey(id, i));
          WriteNext(NodesOf(before, n, Hash), id, i);
          hashRing := hashRing[hashValue := id];
          i := i + 1;
        }
      }
      assert instances[..|instances|] == instances;
      built := Some(instances);
    }

    method Select(instances: seq<ServiceInstance>) returns (r: Result<ServiceInstance>)
      modifies this
      ensures var o := Selected(old(Abs()), instances, old(lastKey), virtualNodes);
        r == o.result && Abs() == o.next
    {
      r := SelectByKey(instances, lastKey);
    }

    method SelectByKey(instances: seq<ServiceInstance>, key: string)
      returns (r: Result<ServiceInstance>)
      modifies this
      ensures var o := Selected(old(Abs()), instances, key, virtualNodes);
        r == o.result && Abs() == o.next
    {
      hide ServiceInstance.GetId, Ids, Healthy, Build, Owner, Hash, FirstWithId;
      if instances == [] {
        return Err(NoInstances);
      }
      var hs := FilterHealthy(instances);
      HealthyTwice(instances);
      if hs == [] {
        return Err(NoHealthyInstances);
      }
      if hashRing == map[] {
        RebuildHashRing(hs);
      }
      if hashRing == map[] {
        return Ok(hs[0]);
      }
      var actualKey := if key == "" then DEFAULT_KEY else key;
      lastKey := actualKey;
      var hashValue := ComputeHash(actualKey);
      var selectedId := Owner(hashRing, hashValue);
      var found := FindById(hs, selectedId);
      if found.Some? {
        return Ok(found.value);
      }
      RebuildHashRing(hs);
      return Ok(hs[0]);
    }

    method Reset()
      modifies this
      ensures Abs() == Fresh()
    {
      hashRing, lastKey, built := map[], "", None;
    }
  }

  lemma {:induction false} HealthyTwice(instances: seq<ServiceInstance>)
    ensures Healthy(Healthy(instances)) == Healthy(instances)
  {
    if instances != [] {
      var front, last := instances[..|instances| - 1], instances[|instances| - 1];
      HealthyTwice(front);
      var hs := Healthy(front);
      assert (hs + [last])[..|hs|] == hs;
    }
  }

  lemma WriteNothing(n: nat)
    ensures Healthy([]) == [] && Write(NodesOf([], n, Hash)) == map[]
  {
  }

  lemma WriteStart(before: seq<Node>, id: string)
    ensures before + NodesOfId(id, 0, Hash) == before
  {
  }

  lemma WriteNext(before: seq<Node>, id: string, i: nat)
    ensures Write(before + NodesOfId(id, i + 1, Hash))
      == Write(before + NodesOfId(id, i, Hash))[Hash(VirtualKey(id, i)) := id]
  {
    hide Hash, VirtualKey;
    var nodes := before + NodesOfId(id, i + 1, Hash);
    assert nodes[..|nodes| - 1] == before + NodesOfId(id, i, Hash);
  }

  // ---------------------------------------------------------------- one call

  /**
   A call returns a healthy instance of its own list. It goes to the owner of the key on the
   ring exactly when that owner is healthy; it rebuilds exactly when the ring was empty or the
   owner is not healthy.
   */
  lemma OneCall(s: State, instances: seq<ServiceInstance>, key: string, virtualNodes: int)
    requires Healthy(instances) != []
    ensures var o := Selected(s, instances, key, virtualNodes);
      && o.result.Ok? && o.result.value in instances && o.result.value.isHealthy
      && (s.ring != map[] ==>
            var owner := Owner(s.ring, Hash(ActualKey(key)));
            && (o.hit <==> owner in Ids(Healthy(instances)))
            && (o.result.value.GetId() == owner <==> owner in Ids(Healthy(instances)))
            && (o.hit ==> o.next.ring == s.ring && o.next.built == s.built)
            && (!o.hit ==> o.next.built == Some(Healthy(instances))))
  {
    hide ServiceInstance.GetId, Healthy, Build, Owner, Hash;
    var hs := Healthy(instances);
    HealthySound(instances);
    IdAt(hs, 0);
    if s.ring != map[] {
      var found := FirstWithId(hs, Owner(s.ring, Hash(ActualKey(key))));
    }
  }

  /** The errors, and when they come: a call that throws changes nothing. */
  lemma ErrorsIff(s: State, instances: seq<ServiceInstance>, key: string, virtualNodes: int)
    ensures var o := Selected(s, instances, key, virtualNodes);
      && (o.result == Err(NoInstances) <==> instances == [])
      && (o.result == Err(NoHealthyInstances) <==>
            instances != [] && forall x | x in instances :: !x.isHealthy)
      && (o.result.Ok? <==> exists x :: x in instances && x.isHealthy)
      && (o.result.Err? ==> o.next == s)
  {
    hide ServiceInstance.GetId, Ids, Healthy, Build, Owner, Hash, FirstWithId;
    NoneHealthyIff(instances);
    if instances == [] {
      NoneHealthy();
    }
  }

  /**
   On an empty ring, as on a new balancer or after a reset, a call builds the ring of its own
   healthy instances and answers from it at once: it returns the key's owner on the new ring.
   */
  lemma FirstCall(s: State, instances: seq<ServiceInstance>, key: string, virtualNodes: int)
    requires s.ring == map[] && Healthy(instances) != [] && virtualNodes > 0
    ensures var o := Selected(s, instances, key, virtualNodes);
      && o.next.ring == Build(Healthy(instances), virtualNodes, Hash) != map[]
      && o.hit && o.result.Ok? && o.result.value.GetId() == OwnerOf(o.next.ring, key)
      && o.next.built == Some(Healthy(instances)) && o.next.lastKey == ActualKey(key)
  {
    hide ServiceInstance.GetId, Ids, Healthy, Build, Owner, Hash;
    var hs := Healthy(instances);
    HealthyTwice(instances);
    BuildHolds(hs, virtualNodes, Hash);
    OwnerInRing(Build(hs, virtualNodes, Hash), key);
  }

  /** Without virtual nodes there is never a ring: a call returns the first healthy instance. */
  lemma NoNodesCall(s: State, instances: seq<ServiceInstance>, key: string, virtualNodes: int)
    requires s.ring == map[] && Healthy(instances) != [] && virtualNodes <= 0
    ensures var o := Selected(s, instances, key, virtualNodes);
      && o.result == Ok(Healthy(instances)[0]) && !o.hit
      && o.next.ring == map[] && o.next.lastKey == s.lastKey
  {
    hide ServiceInstance.GetId, Ids, Healthy, Build, Owner, Hash, FirstWithId;
    HealthyTwice(instances);
    BuildHolds(Healthy(instances), virtualNodes, Hash);
  }

  /** A miss returns the first healthy instance and leaves the ring of the healthy ones. */
  lemma MissedCall(s: State, instances: seq<ServiceInstance>, key: string, virtualNodes: int)
    requires s.ring != map[] && Healthy(instances) != []
    requires OwnerOf(s.ring, key) !in Ids(Healthy(instances))
    ensures var o := Selected(s, instances, key, virtualNodes);
      && o.result == Ok(Healthy(instances)[0]) && !o.hit
      && o.next.ring == Build(Healthy(instances), virtualNodes, Hash)
      && o.next.built == Some(Healthy(instances)) && o.next.lastKey == ActualKey(key)
  {
    hide ServiceInstance.GetId, Ids, Healthy, Build, Owner, Hash;
  }

  /** No key is the key "default". */
  lemma NoKeyIsDefault(s: State, instances: seq<ServiceInstance>, virtualNodes: int)
    ensures Selected(s, instances, "", virtualNodes) == Selected(s, instances, "default", virtualNodes)
  {
    hide ServiceInstance.GetId, Ids, Healthy, Build, Owner, Hash, FirstWithId;
  }

  /** After a call with a key, calls without a key go where calls with that key would go. */
  lemma SelectRepeatsKey(s: State, instances: seq<ServiceInstance>, key: string,
                         again: seq<ServiceInstance>, virtualNodes: int)
    requires Healthy(instances) != [] && virtualNodes > 0
    ensures var t := Apply(s, SelectByKey(instances, key), virtualNodes);
      Selected(t, again, t.lastKey, virtualNodes) == Selected(t, again, key, virtualNodes)
  {
    hide ServiceInstance.GetId, Ids, Healthy, Build, Owner, Hash, FirstWithId;
    var hs := Healthy(instances);
    HealthyTwice(instances);
    BuildHolds(hs, virtualNodes, Hash);
    assert Selected(s, instances, key, virtualNodes).next.lastKey == ActualKey(key);
  }

  // ---------------------------------------------------------------- runs

  datatype Op =
    | Select(instances: seq<ServiceInstance>)
    | SelectByKey(instances: seq<ServiceInstance>, key: string)
    | Reset

  function Apply(s: State, op: Op, virtualNodes: int): State {
    match op
    case Select(instances) => Selected(s, instances, s.lastKey, virtualNodes).next
    case SelectByKey(instances, key) => Selected(s, instances, key, virtualNodes).next
    case Reset => Fresh()
  }

  function Run(ops: seq<Op>, virtualNodes: int): State {
    if ops == [] then Fresh()
    else Apply(Run(ops[..|ops| - 1], virtualNodes), ops[|ops| - 1], virtualNodes)
  }

  /** The ring is empty and was never built since the last reset, or it is the ring of one list. */
  ghost predicate BuiltRing(s: State, virtualNodes: int) {
    match s.built
    case None => s.ring == map[]
    case Some(hs) => hs != [] && Healthy(hs) == hs && s.ring == Build(hs, virtualNodes, Hash)
  }

  /** That list is what some earlier call of the run found healthy. */
  ghost predicate BuiltEarlier(s: State, ops: seq<Op>) {
    s.built.Some? ==>
      exists k :: 0 <= k < |ops| && !ops[k].Reset? && s.built.value == Healthy(ops[k].instances)
  }

  lemma RebuildKeeps(s: State, instances: seq<ServiceInstance>, key: string, virtualNodes: int)
    requires BuiltRing(s, virtualNodes)
    ensures var next := Selected(s, instances, key, virtualNodes).next;
      && BuiltRing(next, virtualNodes)
      && (next.built == s.built || next.built == Some(Healthy(instances)))
  {
    hide ServiceInstance.GetId, Ids, Healthy, Build, Owner, Hash, FirstWithId;
    HealthyTwice(instances);
  }

  /** Over every sequence of calls the ring is the ring of some earlier call's healthy list. */
  lemma {:induction false} RingIsAlwaysBuilt(ops: seq<Op>, virtualNodes: int)
    ensures BuiltRing(Run(ops, virtualNodes), virtualNodes)
    ensures BuiltEarlier(Run(ops, virtualNodes), ops)
  {
    if ops != [] {
      hide Selected, BuiltRing, Healthy;
      var past, last := ops[..|ops| - 1], ops[|ops| - 1];
      RingIsAlwaysBuilt(past, virtualNodes);
      var s, next := Run(past, virtualNodes), Run(ops, virtualNodes);
      match last {
        case Select(instances) => RebuildKeeps(s, instances, s.lastKey, virtualNodes);
        case SelectByKey(instances, key) => RebuildKeeps(s, instances, key, virtualNodes);
        case Reset => FreshIsBuilt(virtualNodes);
      }
      if next.built.Some? {
        if next.built == s.built {
          var k :| 0 <= k < |past| && !past[k].Reset? && s.built.value == Healthy(past[k].instances);
          assert ops[k] == past[k];
        } else {
          assert next.built.value == Healthy(ops[|ops| - 1].instances);
        }
      }
    }
  }

  lemma FreshIsBuilt(virtualNodes: int)
    ensures BuiltRing(Fresh(), virtualNodes)
  {
  }

  /** Every call still finds healthy all the instances that the ring was built from. */
  ghost predicate StillThere(op: Op, hs: seq<ServiceInstance>) {
    !op.Reset? && Ids(hs) <= Ids(Healthy(op.instances))
  }

  /** The state after more calls from s. */
  function RunOn(s: State, ops: seq<Op>, virtualNodes: int): State {
    if ops == [] then s
    else Apply(RunOn(s, ops[..|ops| - 1], virtualNodes), ops[|ops| - 1], virtualNodes)
  }

  // ---------------------------------------------------------------- who keeps a key

  /** The key a call looks up: its own, or the last one if it comes without. */
  function KeyOf(lastKey: string, op: Op): string {
    match op
    case Select(_) => lastKey
    case SelectByKey(_, key) => key
    case Reset => ""
  }

  /** The last key after calls that all look one up. */
  function LastKeyAfter(lastKey: string, ops: seq<Op>): string {
    if ops == [] then lastKey
    else ActualKey(KeyOf(LastKeyAfter(lastKey, ops[..|ops| - 1]), ops[|ops| - 1]))
  }

  function OwnerOf(ring: Ring, key: string): string
    requires ring != map[]
  {
    Owner(ring, Hash(ActualKey(key)))
  }

  /** The ring's owner of the call's key is among the instances the call finds healthy. */
  predicate OwnerThere(ring: Ring, lastKey: string, op: Op)
    requires ring != map[]
  {
    !op.Reset? && OwnerOf(ring, KeyOf(lastKey, op)) in Ids(Healthy(op.instances))
  }

  ghost predicate OwnersThere(ring: Ring, lastKey: string, ops: seq<Op>)
    requires ring != map[]
  {
    forall k | 0 <= k < |ops| :: OwnerThere(ring, LastKeyAfter(lastKey, ops[..k]), ops[k])
  }

  /** The call finds the owner it looks up. */
  predicate Hits(s: State, op: Op, virtualNodes: int) {
    !op.Reset? && Selected(s, op.instances, KeyOf(s.lastKey, op), virtualNodes).hit
  }

  ghost predicate AllHit(s: State, ops: seq<Op>, virtualNodes: int) {
    forall k | 0 <= k < |ops| :: Hits(RunOn(s, ops[..k], virtualNodes), ops[k], virtualNodes)
  }

  /** On a ring, a call hits exactly when the owner is healthy; it returns it and touches no ring. */
  lemma HitIff(s: State, instances: seq<ServiceInstance>, key: string, virtualNodes: int)
    requires s.ring != map[]
    ensures var o, owner := Selected(s, instances, key, virtualNodes), OwnerOf(s.ring, key);
      && (o.hit <==> owner in Ids(Healthy(instances)))
      && (o.result.Ok? && o.result.value.GetId() == owner <==> owner in Ids(Healthy(instances)))
      && (o.hit ==> o.next == s.(lastKey := ActualKey(key)))
  {
    hide ServiceInstance.GetId, Ids, Healthy, Build, Owner, Hash;
    var hs := Healthy(instances);
    if hs == [] {
      NoIds(hs);
    } else {
      IdAt(hs, 0);
    }
    if instances == [] {
      NoneHealthy();
    }
  }

  lemma NoneHealthy()
    ensures Healthy([]) == []
  {
  }

  lemma FrontKept(ops: seq<Op>, k: nat)
    requires ops != [] && k < |ops|
    ensures ops[..|ops| - 1][..k] == ops[..k]
  {
  }

  lemma AllHitNext(s: State, ops: seq<Op>, virtualNodes: int)
    requires ops != []
    ensures var past, last := ops[..|ops| - 1], ops[|ops| - 1];
      AllHit(s, ops, virtualNodes) <==>
        AllHit(s, past, virtualNodes) && Hits(RunOn(s, past, virtualNodes), last, virtualNodes)
  {
    hide Hits, RunOn;
    var past := ops[..|ops| - 1];
    forall k | 0 <= k < |ops| ensures past[..k] == ops[..k] {
      FrontKept(ops, k);
    }
    assert forall k | 0 <= k < |past| :: past[k] == ops[k];
    if AllHit(s, ops, virtualNodes) {
      forall k | 0 <= k < |past|
        ensures Hits(RunOn(s, past[..k], virtualNodes), past[k], virtualNodes)
      {
        assert Hits(RunOn(s, ops[..k], virtualNodes), ops[k], virtualNodes);
      }
    }
  }

  lemma OwnersThereNext(ring: Ring, lastKey: string, ops: seq<Op>)
    requires ring != map[] && ops != []
    ensures var past, last := ops[..|ops| - 1], ops[|ops| - 1];
      OwnersThere(ring, lastKey, ops) <==>
        OwnersThere(ring, lastKey, past) && OwnerThere(ring, LastKeyAfter(lastKey, past), last)
  {
    hide OwnerThere, LastKeyAfter;
    var past := ops[..|ops| - 1];
    forall k | 0 <= k < |ops| ensures past[..k] == ops[..k] {
      FrontKept(ops, k);
    }
    assert forall k | 0 <= k < |past| :: past[k] == ops[k];
    if OwnersThere(ring, lastKey, ops) {
      forall k | 0 <= k < |past|
        ensures OwnerThere(ring, LastKeyAfter(lastKey, past[..k]), past[k])
      {
        assert OwnerThere(ring, LastKeyAfter(lastKey, ops[..k]), ops[k]);
      }
    }
  }

  /**
   Stability, call by call: every call of a run finds its owner exactly when, on the ring at the
   start, the owner of each call's key is healthy at that call. Then the ring is never rebuilt.
   */
  lemma {:induction false} AllHitIff(s: State, ops: seq<Op>, virtualNodes: int)
    requires s.ring != map[]
    ensures AllHit(s, ops, virtualNodes) <==> OwnersThere(s.ring, s.lastKey, ops)
    ensures AllHit(s, ops, virtualNodes) ==>
      RunOn(s, ops, virtualNodes) == s.(lastKey := LastKeyAfter(s.lastKey, ops))
  {
    hide AllHit, OwnersThere, OwnerOf, Selected, Healthy, Ids;
    if ops == [] {
      NothingToHit(s, virtualNodes);
    } else {
      var past, last := ops[..|ops| - 1], ops[|ops| - 1];
      AllHitNext(s, ops, virtualNodes);
      OwnersThereNext(s.ring, s.lastKey, ops);
      AllHitIff(s, past, virtualNodes);
      var t := RunOn(s, past, virtualNodes);
      if AllHit(s, past, virtualNodes) && !last.Reset? {
        HitIff(t, last.instances, KeyOf(t.lastKey, last), virtualNodes);
      }
    }
  }

  lemma NothingToHit(s: State, virtualNodes: int)
    requires s.ring != map[]
    ensures AllHit(s, [], virtualNodes) && OwnersThere(s.ring, s.lastKey, [])
  {
  }

  /**
   A key keeps its owner: after calls that all found theirs, a call goes to the owner its key had
   at the start exactly when that is healthy now. The owner is one of the instances the ring was
   built from, so an instance that joined later gets nothing as long as calls hit.
   */
  lemma KeyKeepsOwner(s: State, ops: seq<Op>, instances: seq<ServiceInstance>, key: string,
                      virtualNodes: int)
    requires s.built.Some? && BuiltRing(s, virtualNodes) && virtualNodes > 0
    ensures s.ring != map[] && OwnerOf(s.ring, key) in Ids(s.built.value)
    ensures OwnersThere(s.ring, s.lastKey, ops) ==>
      var o := Selected(RunOn(s, ops, virtualNodes), instances, key, virtualNodes);
      var there := OwnerOf(s.ring, key) in Ids(Healthy(instances));
      && (o.hit <==> there)
      && (o.result.Ok? && o.result.value.GetId() == OwnerOf(s.ring, key) <==> there)
      && (there ==> o.next.ring == s.ring && o.next.built == s.built)
  {
    hide Selected, BuiltRing, Healthy, Ids, Hash, Owner, OwnersThere, ServiceInstance.GetId;
    RingOfBuilt(s, virtualNodes);
    AllHitIff(s, ops, virtualNodes);
    if OwnersThere(s.ring, s.lastKey, ops) {
      HitIff(RunOn(s, ops, virtualNodes), instances, key, virtualNodes);
    }
  }

  /** In particular, no call rebuilds the ring while all it was built from stay healthy. */
  lemma NoFurtherRebuild(s: State, ops: seq<Op>, virtualNodes: int)
    requires s.built.Some? && BuiltRing(s, virtualNodes) && virtualNodes > 0
    requires forall op | op in ops :: StillThere(op, s.built.value)
    ensures var t := RunOn(s, ops, virtualNodes); t.ring == s.ring != map[] && t.built == s.built
  {
    hide BuiltRing, Healthy, Ids, OwnerOf;
    RingOfBuilt(s, virtualNodes);
    forall k | 0 <= k < |ops|
      ensures OwnerThere(s.ring, LastKeyAfter(s.lastKey, ops[..k]), ops[k])
    {
      assert StillThere(ops[k], s.built.value);
      OwnerInRing(s.ring, KeyOf(LastKeyAfter(s.lastKey, ops[..k]), ops[k]));
    }
    AllHitIff(s, ops, virtualNodes);
  }

  lemma OwnerInRing(ring: Ring, key: string)
    requires ring != map[]
    ensures OwnerOf(ring, key) in ring.Values
  {
    hide Owner, Hash;
  }

  /**
   A key can move although the instance it went to is healthy: one call that did not find that
   instance has rebuilt the ring. The same list and key then give another instance.
   */
  lemma SameKeyMoves(a: ServiceInstance, b: ServiceInstance, key: string, virtualNodes: int)
    requires a.isHealthy && b.isHealthy && a.GetId() != b.GetId() && virtualNodes > 0
    ensures var before := Run([SelectByKey([a], key)], virtualNodes);
      var after := Run([SelectByKey([a], key), SelectByKey([b], key)], virtualNodes);
      && Selected(before, [a, b], key, virtualNodes).result == Ok(a)
      && Selected(after, [a, b], key, virtualNodes).result == Ok(b)
  {
    hide ServiceInstance.GetId, Healthy, Selected, Hash, Owner;
    var ops := [SelectByKey([a], key), SelectByKey([b], key)];
    assert ops[..1] == [SelectByKey([a], key)] && ops[..1][..0] == [];
    var before := Selected(Fresh(), [a], key, virtualNodes).next;
    var after := Selected(before, [b], key, virtualNodes).next;
    assert Run(ops[..1], virtualNodes) == before;
    OnlyOne(Fresh(), a, key, virtualNodes);
    OnlyOne(before, b, key, virtualNodes);
    OneOfTwo(before, a, b, key, virtualNodes);
    OneOfTwo(after, a, b, key, virtualNodes);
  }

  /** A call that is offered one instance ends with a ring that only this instance is on. */
  lemma OnlyOne(s: State, a: ServiceInstance, key: string, virtualNodes: int)
    requires a.isHealthy && virtualNodes > 0
    requires s.ring == map[] || a.GetId() !in s.ring.Values
    ensures var ring := Selected(s, [a], key, virtualNodes).next.ring;
      ring != map[] && ring.Values <= {a.GetId()}
  {
    hide ServiceInstance.GetId, Healthy, Build, Owner, Hash, FirstWithId;
    JustOne(a);
    assert Ids([a]) == {a.GetId()};
    BuildHolds([a], virtualNodes, Hash);
  }

  lemma OneOfTwo(s: State, a: ServiceInstance, b: ServiceInstance, key: string, virtualNodes: int)
    requires a.isHealthy && b.isHealthy && a.GetId() != b.GetId() && s.ring != map[]
    ensures s.ring.Values <= {a.GetId()} ==>
      Selected(s, [a, b], key, virtualNodes).result == Ok(a)
    ensures s.ring.Values <= {b.GetId()} ==>
      Selected(s, [a, b], key, virtualNodes).result == Ok(b)
  {
    hide ServiceInstance.GetId, Healthy, Build, Owner, Hash;
    JustTwo(a, b);
    assert Owner(s.ring, Hash(ActualKey(key))) in s.ring.Values;
    assert [a, b][1..] == [b];
  }

  /**
   What a caller sees when one instance fails: the first call that looks it up rebuilds the ring,
   and between the rings before and after exactly the keys of that instance have another owner.
   */
  lemma FailureMovesOnlyItsKeys(s: State, x: string, instances: seq<ServiceInstance>, key: string,
                                virtualNodes: int, h: uint32)
    requires s.built.Some? && BuiltRing(s, virtualNodes) && virtualNodes > 0
    requires Healthy(instances) == WithoutId(s.built.value, x) != []
    ensures s.ring != map[]
    ensures OwnerOf(s.ring, key) == x ==>
      var o := Selected(s, instances, key, virtualNodes);
      && o.next.ring != map[] && o.next.built == Some(Healthy(instances))
      && (Owner(s.ring, h) != Owner(o.next.ring, h) <==> Owner(s.ring, h) == x)
  {
    hide ServiceInstance.GetId, Healthy, Build, Owner, Hash, Ids, WithoutId, FirstWithId;
    var hs := s.built.value;
    RingOfBuilt(s, virtualNodes);
    HealthyWithout(hs, x);
    HealthyTwice(instances);
    WithoutIsGone(hs, x);
    MinimalDisruption(hs, x, virtualNodes, Hash, h);
  }

  lemma {:induction false} WithoutIsGone(hs: seq<ServiceInstance>, x: string)
    ensures x !in Ids(WithoutId(hs, x))
  {
    hide ServiceInstance.GetId;
    if hs != [] {
      WithoutIsGone(hs[..|hs| - 1], x);
    }
  }

  lemma RingOfBuilt(s: State, virtualNodes: int)
    requires s.built.Some? && BuiltRing(s, virtualNodes) && virtualNodes > 0
    ensures s.ring != map[] && s.ring.Values <= Ids(s.built.value)
  {
    hide Build, Healthy, Ids, Hash;
    BuildHolds(s.built.value, virtualNodes, Hash);
  }
}
