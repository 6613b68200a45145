/**
 The hash ring: a map from places to instance ids in which a later virtual node overwrites an
 earlier one at the same place, and the clockwise look-up. The place of a virtual key is a
 parameter, so what is proved here holds for any hash function, collisions and all.
 */
module HashRings {
  import opened Decimal
  import opened Fnv
  import opened Results
  import opened ServiceInstances
  import opened Sums

  type Ring = map<uint32, string>
  type Place = string -> uint32

  /** One virtual node: where it goes and whose it is. */
  datatype Node = Node(place: uint32, id: string)

  function NodesOfId(id: string, n: nat, place: Place): (nodes: seq<Node>)
    ensures |nodes| == n && forall v | v in nodes :: v.id == id
  {
    if n == 0 then []
    else NodesOfId(id, n - 1, place) + [Node(place(VirtualKey(id, n - 1)), id)]
  }

  /** All virtual nodes of a list of instances, in the order in which they are written. */
  function NodesOf(hs: seq<ServiceInstance>, n: nat, place: Place): seq<Node> {
    if hs == [] then []
    else NodesOf(hs[..|hs| - 1], n, place) + NodesOfId(hs[|hs| - 1].GetId(), n, place)
  }

  function Write(nodes: seq<Node>): Ring {
    if nodes == [] then map[]
    else Write(nodes[..|nodes| - 1])[nodes[|nodes| - 1].place := nodes[|nodes| - 1].id]
  }

  /** rebuildHashRing for a count of virtual nodes, which may be zero or negative. */
  function Build(instances: seq<ServiceInstance>, virtualNodes: int, place: Place): Ring {
    Write(NodesOf(Healthy(instances), if virtualNodes > 0 then virtualNodes else 0, place))
  }

  /** lower_bound: the first place of the ring at h or after it. */
  function FirstFrom(ring: Ring, h: nat): (r: Option<uint32>)
    requires h <= TWO_32
    ensures r.Some? ==> r.value in ring && h <= r.value
    ensures r.Some? ==> forall p | p in ring && h <= p :: r.value <= p
    ensures r.None? ==> forall p | p in ring :: p < h
    decreases TWO_32 - h
  {
    if h == TWO_32 then None else if h in ring then Some(h) else FirstFrom(ring, h + 1)
  }

  /** The owner of h: the id at the first place clockwise, around the end if need be. */
  function Owner(ring: Ring, h: uint32): (id: string)
    requires ring != map[]
    ensures id in ring.Values
  {
    var p := FirstFrom(ring, h);
    if p.Some? then ring[p.value]
    else
      var q := FirstFrom(ring, 0);
      assert q.Some? by {
        var k :| k in ring;
      }
      ring[q.value]
  }

  /** How far p is from h, going clockwise. */
  function Distance(h: uint32, p: uint32): uint32 {
    if p >= h then p - h else TWO_32 + p - h
  }

  /** The owner holds the place of the ring that is nearest to h clockwise. */
  lemma OwnerIsNearest(ring: Ring, h: uint32)
    requires ring != map[]
    ensures exists p :: p in ring && ring[p] == Owner(ring, h) && Nearest(ring, h, p)
  {
    var p := FirstFrom(ring, h);
    var q := FirstFrom(ring, 0);
    var k :| k in ring;
    assert q.Some?;
    assert Nearest(ring, h, if p.Some? then p.value else q.value);
  }

  ghost predicate Nearest(ring: Ring, h: uint32, p: uint32) {
    forall q | q in ring :: Distance(h, p) <= Distance(h, q)
  }

  function Without(nodes: seq<Node>, x: string): seq<Node> {
    if nodes == [] then []
    else
      var front, last := Without(nodes[..|nodes| - 1], x), nodes[|nodes| - 1];
      if last.id == x then front else front + [last]
  }

  function WithoutId(hs: seq<ServiceInstance>, x: string): seq<ServiceInstance> {
    if hs == [] then []
    else
      var front, last := WithoutId(hs[..|hs| - 1], x), hs[|hs| - 1];
      if last.GetId() == x then front else front + [last]
  }

  // ---------------------------------------------------------------- taking one instance away

  /** Places that x does not own keep their owner; no place is added. */
  lemma {:induction false} WriteWithout(nodes: seq<Node>, x: string)
    ensures var a, b := Write(nodes), Write(Without(nodes, x));
      && b.Keys <= a.Keys
      && (forall p | p in a && a[p] != x :: p in b && b[p] == a[p])
      && x !in b.Values
  {
    if nodes != [] {
      var front, last := nodes[..|nodes| - 1], nodes[|nodes| - 1];
      WriteWithout(front, x);
      if last.id != x {
        assert (Without(front, x) + [last])[..|Without(front, x)|] == Without(front, x);
      }
    }
  }

  lemma {:induction false} WithoutAppend(a: seq<Node>, b: seq<Node>, x: string)
    ensures Without(a + b, x) == Without(a, x) + Without(b, x)
  {
    if b == [] {
      assert a + b == a;
    } else {
      var b' := b[..|b| - 1];
      assert (a + b)[..|a + b| - 1] == a + b';
      WithoutAppend(a, b', x);
    }
  }

  lemma {:induction false} WithoutAll(nodes: seq<Node>, id: string, x: string)
    requires forall v | v in nodes :: v.id == id
    ensures Without(nodes, x) == if id == x then [] else nodes
  {
    if nodes != [] {
      var front, last := nodes[..|nodes| - 1], nodes[|nodes| - 1];
      assert nodes == front + [last];
      WithoutAll(front, id, x);
    }
  }

  /** Leaving an instance out of the list leaves exactly its virtual nodes out of the writes. */
  lemma {:induction false} NodesWithout(hs: seq<ServiceInstance>, x: string, n: nat, place: Place)
    ensures NodesOf(WithoutId(hs, x), n, place) == Without(NodesOf(hs, n, place), x)
  {
    hide ServiceInstance.GetId, NodesOfId;
    if hs != [] {
      var front, last := hs[..|hs| - 1], hs[|hs| - 1];
      var mine := NodesOfId(last.GetId(), n, place);
      NodesWithout(front, x, n, place);
      WithoutAppend(NodesOf(front, n, place), mine, x);
      WithoutAll(mine, last.GetId(), x);
      var kept := WithoutId(front, x);
      assert (kept + [last])[..|kept|] == kept;
    }
  }

  /**
   Minimal disruption, for any nodes and any collisions: taking x away changes the owner of a hash
   exactly when x owned it. Read from right to left: adding x moves a hash only to x.
   */
  lemma OnlyItsOwnKeysMove(nodes: seq<Node>, x: string, h: uint32)
    requires Write(Without(nodes, x)) != map[]
    ensures Write(nodes) != map[]
    ensures var before, after := Write(nodes), Write(Without(nodes, x));
      Owner(before, h) != Owner(after, h) <==> Owner(before, h) == x
  {
    hide Write, Without;
    WriteWithout(nodes, x);
    var a, b := Write(nodes), Write(Without(nodes, x));
    assert b.Keys <= a.Keys && b != map[];
    var p, q := FirstFrom(a, h), FirstFrom(a, 0);
    if Owner(a, h) != x {
      var owned := if p.Some? then p.value else q.value;
      assert owned in b && b[owned] == a[owned];
      if p.Some? {
        SameFirst(b, h, owned);
      } else {
        assert FirstFrom(b, h).None?;
        SameFirst(b, 0, owned);
      }
    }
  }

  lemma SameFirst(ring: Ring, h: uint32, p: uint32)
    requires p in ring && h <= p && forall r | r in ring && h <= r :: p <= r
    ensures FirstFrom(ring, h) == Some(p)
  {
  }

  lemma NodesOfNext(hs: seq<ServiceInstance>, h: ServiceInstance, n: nat, place: Place)
    ensures NodesOf(hs + [h], n, place) == NodesOf(hs, n, place) + NodesOfId(h.GetId(), n, place)
  {
    hide ServiceInstance.GetId, NodesOfId;
    assert (hs + [h])[..|hs|] == hs;
  }

  lemma {:induction false} HealthyWithout(instances: seq<ServiceInstance>, x: string)
    ensures Healthy(WithoutId(instances, x)) == WithoutId(Healthy(instances), x)
  {
    hide ServiceInstance.GetId;
    if instances != [] {
      var front, last := instances[..|instances| - 1], instances[|instances| - 1];
      HealthyWithout(front, x);
      var kept, healthy := WithoutId(front, x), Healthy(front);
      assert (kept + [last])[..|kept|] == kept;
      assert (healthy + [last])[..|healthy|] == healthy;
    }
  }

  // ---------------------------------------------------------------- what a ring holds

  lemma {:induction false} WriteHolds(nodes: seq<Node>)
    ensures Write(nodes) == map[] <==> nodes == []
    ensures forall p | p in Write(nodes) :: exists k :: 0 <= k < |nodes| && nodes[k] == Node(p, Write(nodes)[p])
  {
    if nodes != [] {
      var front, last := nodes[..|nodes| - 1], nodes[|nodes| - 1];
      WriteHolds(front);
      var ring := Write(nodes);
      assert last.place in ring;
      forall p | p in ring ensures exists k :: 0 <= k < |nodes| && nodes[k] == Node(p, ring[p]) {
        if p == last.place {
          assert nodes[|nodes| - 1] == Node(p, ring[p]);
        } else {
          var k :| 0 <= k < |front| && front[k] == Node(p, Write(front)[p]);
          assert nodes[k] == Node(p, ring[p]);
        }
      }
    }
  }

  /** Node number k is at p, is id's, and no later one is at p. */
  ghost predicate LastAt(nodes: seq<Node>, k: nat, p: uint32, id: string) {
    && k < |nodes| && nodes[k] == Node(p, id)
    && forall l | k < l < |nodes| :: nodes[l].place != p
  }

  /** The ring gives a place to an id exactly when the last node written there is that id's. */
  lemma {:induction false} LastWriterWins(nodes: seq<Node>, p: uint32, id: string)
    ensures p in Write(nodes) && Write(nodes)[p] == id <==> exists k :: LastAt(nodes, k, p, id)
  {
    if nodes != [] {
      var front, last := nodes[..|nodes| - 1], nodes[|nodes| - 1];
      LastWriterWins(front, p, id);
      if last == Node(p, id) {
        assert LastAt(nodes, |nodes| - 1, p, id);
      } else if last.place != p {
        if k: nat :| LastAt(front, k, p, id) {
          assert LastAt(nodes, k, p, id);
        }
        if k: nat :| LastAt(nodes, k, p, id) {
          assert LastAt(front, k, p, id);
        }
      }
    }
  }

  /** Instance j of the list puts n nodes on the ring, number i at the place of its key id#i. */
  lemma {:induction false} NodeAt(hs: seq<ServiceInstance>, n: nat, place: Place, j: nat, i: nat)
    requires j < |hs| && i < n
    ensures |NodesOf(hs, n, place)| == |hs| * n && 0 <= j * n + i < |hs| * n
    ensures NodesOf(hs, n, place)[j * n + i]
      == Node(place(hs[j].GetId() + "#" + ToString(i)), hs[j].GetId())
  {
    hide ServiceInstance.GetId, ToString;
    var front, last := hs[..|hs| - 1], hs[|hs| - 1];
    NodeCount(front, n, place);
    NodeCount(hs, n, place);
    RowBounds(|hs|, n, j, i);
    var mine := NodesOfId(last.GetId(), n, place);
    if j < |hs| - 1 {
      NodeAt(front, n, place, j, i);
    } else {
      OwnNode(last.GetId(), n, place, i);
      assert NodesOf(hs, n, place) == NodesOf(front, n, place) + mine;
    }
  }

  lemma RowBounds(rows: nat, n: nat, j: nat, i: nat)
    requires j < rows && i < n
    ensures 0 <= j * n + i < rows * n
    ensures (rows - 1) * n + n == rows * n
  {
    MulOrder(n, 0, j);
    MulOrder(n, j + 1, rows);
    assert n * (j + 1) == j * n + n && n * rows == rows * n;
    assert n * (rows - 1) == (rows - 1) * n == rows * n - n;
  }

  lemma {:induction false} NodeCount(hs: seq<ServiceInstance>, n: nat, place: Place)
    ensures |NodesOf(hs, n, place)| == |hs| * n
  {
    hide ServiceInstance.GetId;
    if hs != [] {
      NodeCount(hs[..|hs| - 1], n, place);
      assert (|hs| - 1) * n + n == |hs| * n;
    }
  }

  lemma {:induction false} OwnNode(id: string, n: nat, place: Place, i: nat)
    requires i < n
    ensures NodesOfId(id, n, place)[i] == Node(place(id + "#" + ToString(i)), id)
  {
    hide ToString;
    if i < n - 1 {
      OwnNode(id, n - 1, place, i);
    }
  }

  lemma {:induction false} NodesBelong(hs: seq<ServiceInstance>, n: nat, place: Place)
    ensures forall v | v in NodesOf(hs, n, place) :: v.id in Ids(hs)
    ensures NodesOf(hs, n, place) == [] <==> hs == [] || n == 0
  {
    hide ServiceInstance.GetId, Ids;
    if hs != [] {
      var front, last := hs[..|hs| - 1], hs[|hs| - 1];
      NodesBelong(front, n, place);
      IdAt(hs, |hs| - 1);
      assert hs[..|hs|] == hs;
    }
  }

  /** Every owner is one of the instances; the ring is empty only with no instance or no nodes. */
  lemma BuildHolds(instances: seq<ServiceInstance>, virtualNodes: int, place: Place)
    ensures var ring := Build(instances, virtualNodes, place);
      && (ring == map[] <==> Healthy(instances) == [] || virtualNodes <= 0)
      && ring.Values <= Ids(Healthy(instances))
  {
    hide ServiceInstance.GetId, Ids, Healthy, NodesOf, Write;
    var n := if virtualNodes > 0 then virtualNodes else 0;
    var nodes := NodesOf(Healthy(instances), n, place);
    NodesBelong(Healthy(instances), n, place);
    WriteHolds(nodes);
    forall id | id in Write(nodes).Values ensures id in Ids(Healthy(instances)) {
      var p :| p in Write(nodes) && Write(nodes)[p] == id;
      var k :| 0 <= k < |nodes| && nodes[k] == Node(p, id);
      assert nodes[k] in nodes;
    }
  }

  predicate NodeIsAt(hs: seq<ServiceInstance>, place: Place, j: nat, i: nat, p: uint32) {
    j < |hs| && place(hs[j].GetId() + "#" + ToString(i)) == p
  }

  /** Virtual node i of instance j is at p, the instance is id's, and no node written later is at p. */
  ghost predicate Rules(hs: seq<ServiceInstance>, n: nat, place: Place, j: nat, i: nat, p: uint32,
                        id: string) {
    && i < n && NodeIsAt(hs, place, j, i, p) && hs[j].GetId() == id
    && forall j': nat, i': nat | i' < n && Later(j, i, j', i') :: !NodeIsAt(hs, place, j', i', p)
  }

  predicate Later(j: nat, i: nat, j': nat, i': nat) {
    j' > j || (j' == j && i' > i)
  }

  /**
   The ring, said outright: its places are those of virtual nodes 0, ..., virtualNodes - 1 of every
   healthy instance, and a place belongs to the instance that was the last to write there.
   */
  lemma RingIff(instances: seq<ServiceInstance>, virtualNodes: nat, place: Place, p: uint32, id: string)
    ensures var ring := Build(instances, virtualNodes, place);
      p in ring && ring[p] == id <==>
        exists j: nat, i: nat :: Rules(Healthy(instances), virtualNodes, place, j, i, p, id)
  {
    hide ServiceInstance.GetId, Write, NodesOf, LastAt, Rules;
    var hs := Healthy(instances);
    var nodes := NodesOf(hs, virtualNodes, place);
    assert Build(instances, virtualNodes, place) == Write(nodes);
    LastWriterWins(nodes, p, id);
    if p in Write(nodes) && Write(nodes)[p] == id {
      var k: nat :| LastAt(nodes, k, p, id);
      var j, i := LastRules(hs, virtualNodes, place, k, p, id);
      assert Rules(hs, virtualNodes, place, j, i, p, id);
      assert exists j: nat, i: nat :: Rules(Healthy(instances), virtualNodes, place, j, i, p, id);
    } else if exists j: nat, i: nat :: Rules(hs, virtualNodes, place, j, i, p, id) {
      var j: nat, i: nat :| Rules(hs, virtualNodes, place, j, i, p, id);
      var k: nat := j * virtualNodes + i;
      RulesLast(hs, virtualNodes, place, j, i, p, id, k);
      assert false;
    }
  }

  lemma RowOf(k: nat, rows: nat, n: nat) returns (j: nat, i: nat)
    requires k < rows * n
    ensures n > 0 && j < rows && i < n && k == j * n + i
  {
    assert n > 0;
    j, i := k / n, k % n;
    MulOrder(n, rows, j);
  }

  lemma LaterRow(n: nat, j: nat, i: nat, j': nat, i': nat)
    requires i < n && i' < n
    ensures j' * n + i' > j * n + i <==> Later(j, i, j', i')
  {
    MulOrder(n, j + 1, j');
    MulOrder(n, j' + 1, j);
    assert n * (j + 1) == j * n + n && n * (j' + 1) == j' * n + n;
  }

  lemma NodeIs(hs: seq<ServiceInstance>, n: nat, place: Place, j: nat, i: nat, p: uint32)
    requires j < |hs| && i < n
    ensures |NodesOf(hs, n, place)| == |hs| * n && 0 <= j * n + i < |hs| * n
    ensures NodesOf(hs, n, place)[j * n + i].id == hs[j].GetId()
    ensures NodesOf(hs, n, place)[j * n + i].place == p <==> NodeIsAt(hs, place, j, i, p)
  {
    hide ServiceInstance.GetId, NodesOf, ToString;
    NodeAt(hs, n, place, j, i);
  }

  lemma LastRules(hs: seq<ServiceInstance>, n: nat, place: Place, k: nat, p: uint32, id: string)
    returns (j: nat, i: nat)
    requires LastAt(NodesOf(hs, n, place), k, p, id)
    ensures Rules(hs, n, place, j, i, p, id)
  {
    hide ServiceInstance.GetId, NodesOf, NodeIsAt, Later;
    NodeCount(hs, n, place);
    j, i := RowOf(k, |hs|, n);
    NodeIs(hs, n, place, j, i, p);
    forall j': nat, i': nat | i' < n && Later(j, i, j', i') ensures !NodeIsAt(hs, place, j', i', p) {
      if j' < |hs| {
        NodeIs(hs, n, place, j', i', p);
        LaterRow(n, j, i, j', i');
      } else {
        OutsideList(hs, place, j', i', p);
      }
    }
  }

  lemma OutsideList(hs: seq<ServiceInstance>, place: Place, j: nat, i: nat, p: uint32)
    ensures NodeIsAt(hs, place, j, i, p) ==> j < |hs|
  {
  }

  lemma RulesLast(hs: seq<ServiceInstance>, n: nat, place: Place, j: nat, i: nat, p: uint32, id: string,
                  k: nat)
    requires Rules(hs, n, place, j, i, p, id) && k == j * n + i
    ensures LastAt(NodesOf(hs, n, place), k, p, id)
  {
    hide ServiceInstance.GetId, NodesOf, NodeIsAt, Later;
    var nodes := NodesOf(hs, n, place);
    OutsideList(hs, place, j, i, p);
    NodeIs(hs, n, place, j, i, p);
    forall l | k < l < |nodes| ensures nodes[l].place != p {
      var j', i' := RowOf(l, |hs|, n);
      NodeIs(hs, n, place, j', i', p);
      LaterRow(n, j, i, j', i');
    }
  }

  /**
   Minimal disruption for rebuildHashRing: between the rings of a list and of the list without x, a
   hash changes its owner exactly when x owned it. Somebody else must be healthy to take it over.
   */
  lemma MinimalDisruption(instances: seq<ServiceInstance>, x: string, virtualNodes: int,
                          place: Place, h: uint32)
    requires Healthy(WithoutId(instances, x)) != [] && virtualNodes > 0
    ensures var before := Build(instances, virtualNodes, place);
      var after := Build(WithoutId(instances, x), virtualNodes, place);
      && before != map[] && after != map[]
      && (Owner(before, h) != Owner(after, h) <==> Owner(before, h) == x)
  {
    hide Write, Owner, NodesOf, Healthy, WithoutId, Without;
    var n := virtualNodes;
    BuildHolds(WithoutId(instances, x), virtualNodes, place);
    HealthyWithout(instances, x);
    NodesWithout(Healthy(instances), x, n, place);
    OnlyItsOwnKeysMove(NodesOf(Healthy(instances), n, place), x, h);
  }
}
