/** The standalone ring (ConsistentHash in main.go): the same sorted-ring and
    position-map design as the library ring, with per-node load counters that
    GetNode raises and ReleaseKey lowers, and no record of which key went
    where. */
module Standalone {
  import opened SortedRing
  import opened Placement
  import opened BoundedLoad
  import opened Tally
  import opened Errors

  /** A node: its name and the number of keys GetNode has handed it, less
      those released. */
  class NodeInfo {
    const name: string
    var load: int

    constructor (name: string)
      ensures this.name == name && load == 0
    {
      this.name := name;
      load := 0;
    }
  }

  /** Every node is filed under its own name. */
  ghost predicate FiledByName(nodes: map<string, NodeInfo>) {
    forall n :: n in nodes ==> nodes[n].name == n
  }

  /** The number of positions each node takes: replicas, or none when it is
      not positive (a loop up to a non-positive bound runs no iterations). */
  function VirtualCount(replicas: int): nat {
    if replicas > 0 then replicas else 0
  }

  /** The step cycle of GetNode's walk: starting from a search index that
      may be one past the end, the k-th step lands where a walk from the
      wrapped index would. */
  lemma WrapStep(idx: nat, k: nat, n: nat)
    requires 0 < n && idx <= n && k < n
    ensures (idx + k) % n == (idx % n + k) % n
  {
    if idx == n {
      assert n % n == 0;
      assert (n + k) % n == k;
      assert k % n == k;
    } else {
      assert idx % n + k == idx + k;
    }
  }

  /** GetNode keeps no record of keys: two charges raise the total load by
      two, whether or not they were for the same key and went to the same
      node. */
  lemma TwoChargesAddTwo(loads: map<string, int>, a: string, b: string)
    requires a in loads && b in loads
    ensures var once := loads[a := loads[a] + 1];
            Sum(once[b := once[b] + 1]) == Sum(loads) + 2
  {
    SumUpdate(loads, a, loads[a] + 1);
    var once := loads[a := loads[a] + 1];
    SumUpdate(once, b, once[b] + 1);
  }

  /** RemoveNode's loop: for each replica of node name, deletes its position
      from the position map and splices it out of the ring at the index the
      binary search finds. */
  method SpliceReplicas(hash: string -> uint32, name: string, count: nat,
                        ring: seq<uint32>, owner: map<uint32, string>)
    returns (ring': seq<uint32>, owner': map<uint32, string>)
    requires StrictlyAscending(ring)
    requires NoDuplicates(VirtualPositions(hash, name, count))
    requires forall i :: 0 <= i < count ==> VirtualPosition(hash, name, i) in ring
    ensures StrictlyAscending(ring')
    ensures forall p :: p in ring' <==> p in ring && p !in VirtualPositions(hash, name, count)
    ensures forall p :: p in owner' <==> p in owner && p !in VirtualPositions(hash, name, count)
    ensures forall p :: p in owner' ==> owner'[p] == owner[p]
  {
    ring', owner' := ring, owner;
    var i := 0;
    while i < count
      invariant 0 <= i <= count
      invariant StrictlyAscending(ring')
      invariant forall p :: p in ring' <==> p in ring && p !in VirtualPositions(hash, name, i)
      invariant forall p :: p in owner' <==> p in owner && p !in VirtualPositions(hash, name, i)
      invariant forall p :: p in owner' ==> owner'[p] == owner[p]
    {
      var hashVal := hash(VirtualKey(name, i));
      ghost var done := VirtualPositions(hash, name, i);
      assert VirtualPositions(hash, name, i + 1) == done + [hashVal];
      forall k | 0 <= k < i ensures done[k] != hashVal {
        var all := VirtualPositions(hash, name, count);
        assert all[k] != all[i];
      }
      owner' := owner' - {hashVal};
      var idx := LowerBound(ring', hashVal);
      SearchFindsPresent(ring', hashVal);
      SpliceAscending(ring', idx);
      ring' := ring'[..idx] + ring'[idx + 1..];
      i := i + 1;
    }
  }

  class ConsistentHash {
    /** The hash of a string onto the ring (FNV-1a, 32 bits). */
    const hash: string -> uint32
    const replicas: int
    const loadFactor: real
    /** The virtual positions, sorted ascending. */
    var ring: seq<uint32>
    /** The node owning each virtual position. */
    var ringMap: map<uint32, string>
    var nodes: map<string, NodeInfo>

    /** The shape of the ring: positions, position map and members agree,
        and nodes are filed under their names. */
    ghost predicate Topology()
      reads this`ring, this`ringMap, this`nodes
    {
      && Placed(hash, VirtualCount(replicas), ring, ringMap, nodes.Keys)
      && FiledByName(nodes)
    }

    /** The full invariant: the topology holds and no load is negative. */
    ghost predicate Valid()
      reads this`ring, this`ringMap, this`nodes, nodes.Values`load
    {
      && Topology()
      && forall n :: n in nodes ==> nodes[n].load >= 0
    }

    /** Each node's load. */
    ghost function Loads(): map<string, int>
      reads this`nodes, nodes.Values`load
    {
      map n | n in nodes :: nodes[n].load
    }

    /** The cap GetNode computes from the current loads. */
    ghost function Cap(): int
      reads this`nodes, nodes.Values`load
      requires nodes != map[]
    {
      ProportionalCap(Sum(Loads()), |nodes|, loadFactor)
    }

    /** The nodes GetNode may charge under a given cap: those below it, or
        all of them when the cap is 0. */
    ghost function Accepting(cap: int): set<string>
      reads this`nodes, nodes.Values`load
    {
      set n | n in nodes && (nodes[n].load < cap || cap == 0)
    }

    /** A non-empty ring has members, and each member has positions. */
    lemma RingHasNodes()
      requires Topology() && |ring| > 0
      ensures nodes != map[] && VirtualCount(replicas) > 0
    {
      assert ring[0] in ringMap;
    }

    /** The node GetNode charges for key: the first node clockwise from the
        key's hash that is below the cap, or the node at the key's hash when
        none is. */
    ghost function Choice(key: string): (name: string)
      reads this`ring, this`ringMap, this`nodes, nodes.Values`load
      requires Topology() && |ring| > 0
      ensures name in nodes
      ensures name in Accepting(Cap())
              || (Accepting(Cap()) == {} && name == Owner(ring, ringMap, hash(key)))
    {
      RingHasNodes();
      FirstReplicasPlaced();
      var start := ClockwiseIndex(ring, hash(key));
      ringMap[ring[BoundedIndex(ring, ringMap, Accepting(Cap()), start)]]
    }

    /** Every member's first replica is on the ring, mapped to it. */
    lemma FirstReplicasPlaced()
      requires Topology() && VirtualCount(replicas) > 0
      ensures forall n :: n in nodes ==> VirtualPosition(hash, n, 0) in ring
                                          && ringMap[VirtualPosition(hash, n, 0)] == n
    {
    }

    /** GetNode charges the node ReleaseKey discharges (the owner of the
        key's hash) whenever that node is below the cap; when they differ,
        the owner was at the cap and GetNode charged a node below it. */
    lemma ChoiceVersusOwner(key: string)
      requires Topology() && |ring| > 0 && nodes != map[]
      ensures Owner(ring, ringMap, hash(key)) in Accepting(Cap()) ==>
                Choice(key) == Owner(ring, ringMap, hash(key))
      ensures Choice(key) != Owner(ring, ringMap, hash(key)) ==>
                Owner(ring, ringMap, hash(key)) !in Accepting(Cap()) && Choice(key) in Accepting(Cap())
    {
      RingHasNodes();
      var start := ClockwiseIndex(ring, hash(key));
      var accepting := Accepting(Cap());
      if Owner(ring, ringMap, hash(key)) in accepting {
        WalkStartsAtStart(ring, start);
        WalkOffsetIs(ring, ringMap, accepting, start, 0);
      }
    }

    constructor (replicas: int, loadFactor: real, hash: string -> uint32)
      ensures Valid()
      ensures this.hash == hash && this.replicas == replicas && this.loadFactor == loadFactor
      ensures ring == [] && ringMap == map[] && nodes == map[]
    {
      this.hash := hash;
      this.replicas := replicas;
      this.loadFactor := loadFactor;
      ring := [];
      ringMap := map[];
      nodes := map[];
    }

    /** Registers a new node with load 0, appends its replicas' positions
        and sorts the ring. A name already present is left as it is. */
    method AddNode(name: string)
      requires Valid()
      requires name !in nodes ==> FreshPositions(hash, VirtualCount(replicas), name, ring)
      modifies this
      ensures Valid()
      ensures name in old(nodes) ==> unchanged(this)
      ensures name !in old(nodes) ==>
                var ps := VirtualPositions(hash, name, VirtualCount(replicas));
                && name in nodes && fresh(nodes[name]) && nodes[name].load == 0
                && nodes == old(nodes)[name := nodes[name]]
                && ring == SortAscending(old(ring) + ps)
                && |ring| == |old(ring)| + VirtualCount(replicas)
                && ringMap == Claim(old(ringMap), ps, name)
    {
      if name in nodes {
        return;
      }
      var info := new NodeInfo(name);
      Join(info);
    }

    /** The membership half of AddNode: files the node under its name,
        places its replicas' positions and sorts the ring. */
    method Join(info: NodeInfo)
      requires Topology()
      requires info.name !in nodes && FreshPositions(hash, VirtualCount(replicas), info.name, ring)
      modifies this`nodes, this`ring, this`ringMap
      ensures Topology()
      ensures nodes == old(nodes)[info.name := info]
      ensures ring == SortAscending(old(ring) + VirtualPositions(hash, info.name, VirtualCount(replicas)))
      ensures ringMap == Claim(old(ringMap), VirtualPositions(hash, info.name, VirtualCount(replicas)), info.name)
    {
      var count := VirtualCount(replicas);
      ghost var members := nodes.Keys + {info.name};
      AddKeepsPlaced(hash, count, ring, ringMap, nodes.Keys, info.name);
      nodes := nodes[info.name := info];
      assert nodes.Keys == members;
      var positions, owners := AppendReplicas(hash, info.name, count, ring, ringMap);
      ring, ringMap := SortAscending(positions), owners;
    }

    /** Removes a node: deletes each of its replicas' positions from the
        position map and splices it out of the ring, then drops the node. A
        name not present is ignored. */
    method RemoveNode(name: string)
      requires Valid()
      modifies this
      ensures Valid()
      ensures name !in old(nodes) ==> unchanged(this)
      ensures name in old(nodes) ==>
                && nodes == old(nodes) - {name}
                && ring == Survivors(old(ring), old(ringMap), name)
                && |ring| == |old(ring)| - VirtualCount(replicas)
                && ringMap == Release(old(ringMap), name)
    {
      if name !in nodes {
        return;
      }
      var count := VirtualCount(replicas);
      forall i | 0 <= i < count ensures VirtualPosition(hash, name, i) in ring {
        assert VirtualPosition(hash, name, i) in ringMap;
      }
      var positions, owners := SpliceReplicas(hash, name, count, ring, ringMap);
      DropReplicasIsRelease(hash, count, ring, ringMap, nodes.Keys, name, positions, owners);
      RemoveKeepsPlaced(hash, count, ring, ringMap, nodes.Keys, name, positions);
      RemovalShrinksByReplicas(hash, count, ring, ringMap, nodes.Keys, name, positions);
      ring, ringMap := positions, owners;
      nodes := nodes - {name};
    }

    /** The least index whose position is at or past h, or |ring| when there
        is none; it does not wrap. */
    method Search(h: uint32) returns (idx: nat)
      requires StrictlyAscending(ring)
      ensures idx == FirstAtLeast(ring, h)
    {
      idx := LowerBound(ring, h);
    }

    /** The sum of all loads. */
    method SumLoads() returns (total: int)
      ensures total == Sum(Loads())
    {
      total := 0;
      var rest := nodes.Keys;
      ghost var seen: map<string, int> := map[];
      while rest != {}
        invariant rest <= nodes.Keys
        invariant seen == map n | n in nodes && n !in rest :: nodes[n].load
        invariant total == Sum(seen)
        decreases rest
      {
        var n :| n in rest;
        SumInsert(seen, n, nodes[n].load);
        total := total + nodes[n].load;
        seen := seen[n := nodes[n].load];
        rest := rest - {n};
      }
      assert seen == Loads();
    }

    /** GetNode's walk: from search index idx, taken modulo the ring size,
        the index of the first position whose node is below cap (or any
        node when cap is 0), else the wrapped start index. */
    method Walk(idx: nat, cap: int) returns (chosen: nat)
      requires 0 < |ring| && idx <= |ring|
      requires forall p :: p in ring ==> p in ringMap && ringMap[p] in nodes
      ensures chosen == BoundedIndex(ring, ringMap, Accepting(cap), idx % |ring|)
    {
      ghost var accepting := Accepting(cap);
      ghost var start := idx % |ring|;
      var ringLen := |ring|;
      chosen := idx % ringLen;
      var i := 0;
      while i < ringLen
        invariant 0 <= i <= ringLen
        invariant forall k :: 0 <= k < i ==> ringMap[WalkPosition(ring, start, k)] !in accepting
      {
        var currIdx := (idx + i) % ringLen;
        WrapStep(idx, i, ringLen);
        var nodeName := ringMap[ring[currIdx]];
        var node := nodes[nodeName];
        if node.load < cap || cap == 0 {
          assert ringMap[WalkPosition(ring, start, i)] in accepting;
          chosen := currIdx;
          break;
        }
        i := i + 1;
      }
      WalkOffsetIs(ring, ringMap, accepting, start, i);
    }

    /** Bounded-load lookup. On an empty ring it fails and changes nothing.
        Otherwise it charges one more key to Choice(key): that node's load
        goes up by one, every other load stays, and the total load goes up
        by one on every call (the lookup is not sticky). */
    method GetNode(key: string) returns (r: Result<string>)
      requires Valid()
      modifies nodes.Values
      ensures Valid()
      ensures |ring| == 0 ==> r == Err(NoNodes) && Loads() == old(Loads())
      ensures |ring| > 0 ==>
                var name := old(Choice(key));
                && r == Ok(name)
                && Loads() == old(Loads())[name := old(Loads())[name] + 1]
                && (old(Accepting(Cap())) != {} && old(Cap()) != 0 ==> nodes[name].load <= old(Cap()))
    {
      if |ring| == 0 {
        return Err(NoNodes);
      }
      var nodeName := ChooseNode(key);
      Charge(nodeName);
      r := Ok(nodeName);
    }

    /** GetNode seen only through its effect on the loads: it charges one
        more key to some member. */
    method GetNodeCharge(key: string) returns (r: Result<string>)
      requires Valid() && |ring| > 0
      modifies nodes.Values
      ensures Valid()
      ensures r.Ok? && r.value in nodes
      ensures Loads() == old(Loads())[r.value := old(Loads())[r.value] + 1]
    {
      r := GetNode(key);
    }

    /** GetNode is not sticky: asking twice for the same key charges two
        keys, so the total load goes up by two. */
    method GetNodeTwice(key: string) returns (first: Result<string>, second: Result<string>)
      requires Valid() && |ring| > 0
      modifies nodes.Values
      ensures Valid()
      ensures first.Ok? && second.Ok?
      ensures Sum(Loads()) == old(Sum(Loads())) + 2
    {
      ghost var before := Loads();
      first := GetNodeCharge(key);
      ghost var between := Loads();
      second := GetNodeCharge(key);
      ghost var after := Loads();
      TwoChargesAddTwo(before, first.value, second.value);
      assert Sum(after) == Sum(before) + 2;
    }

    /** The pick half of GetNode: the cap from the current loads, the search
        for the key's hash, and the walk from there. */
    method ChooseNode(key: string) returns (nodeName: string)
      requires Valid() && |ring| > 0
      ensures nodeName == Choice(key)
    {
      RingHasNodes();
      var totalNodes := |nodes|;
      var totalLoad := SumLoads();
      var maxLoad := ProportionalCap(totalLoad, totalNodes, loadFactor);
      var hashVal := hash(key);
      var idx := Search(hashVal);
      var chosen := Walk(idx, maxLoad);
      nodeName := ringMap[ring[chosen]];
      ClockwiseIsWrappedSearch(ring, hashVal);
    }

    /** Adds one key to a member's load. */
    method Charge(name: string)
      requires Valid() && name in nodes
      modifies nodes[name]
      ensures Valid()
      ensures Loads() == old(Loads())[name := old(Loads())[name] + 1]
    {
      nodes[name].load := nodes[name].load + 1;
    }

    /** Releases a key. On an empty ring it fails and changes nothing.
        Otherwise it lowers, not below 0, the load of the owner of the key's
        hash (the first node clockwise, wrapping to index 0), which need not
        be the node GetNode charged for the key; every other load stays. */
    method ReleaseKey(key: string) returns (r: Outcome)
      requires Valid()
      modifies nodes.Values
      ensures Valid()
      ensures |ring| == 0 ==> r == Fail(NoNodes) && Loads() == old(Loads())
      ensures |ring| > 0 ==>
                var name := Owner(ring, ringMap, hash(key));
                var before := old(Loads())[name];
                && r == Done && name in nodes
                && Loads() == old(Loads())[name := if before > 0 then before - 1 else before]
    {
      if |ring| == 0 {
        return Fail(NoNodes);
      }
      var hashVal := hash(key);
      var idx := Search(hashVal);
      if idx >= |ring| {
        idx := 0;
      }
      var nodeName := ringMap[ring[idx]];
      assert ring[idx] in ringMap;
      if nodes[nodeName].load > 0 {
        Discharge(nodeName);
      }
      r := Done;
    }

    /** Takes one key off a member's load. */
    method Discharge(name: string)
      requires Valid() && name in nodes && nodes[name].load > 0
      modifies nodes[name]
      ensures Valid()
      ensures Loads() == old(Loads())[name := old(Loads())[name] - 1]
    {
      nodes[name].load := nodes[name].load - 1;
    }

    /** Every node's name and load. */
    method GetStats() returns (stats: map<string, int>)
      ensures stats == Loads()
    {
      stats := map[];
      var rest := nodes.Keys;
      while rest != {}
        invariant rest <= nodes.Keys
        invariant stats == map n | n in nodes && n !in rest :: nodes[n].load
        decreases rest
      {
        var n :| n in rest;
        stats := stats[n := nodes[n].load];
        rest := rest - {n};
      }
    }
  }
}
