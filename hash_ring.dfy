/** The library ring (HashRing in pkg/consistenthash): physical nodes with
    virtual positions on a sorted ring, the unbounded clockwise lookup, and
    sticky bounded-load key assignment with per-node load counters. */
module Ring {
  import opened SortedRing
  import opened Placement
  import opened BoundedLoad
  import opened Tally
  import opened Nodes
  import opened Errors

  /** Construction settings; a non-positive setting selects its default. */
  datatype Config = Config(virtualNodes: int, loadFactor: real)

  /** The default settings: 150 virtual nodes and a load factor of 1.25,
      both valid (positive) settings. */
  function DefaultConfig(): (c: Config)
    ensures c.virtualNodes > 0 && c.loadFactor > 0.0
  {
    Config(150, 1.25)
  }

  /** The settings a ring is actually built with. */
  function Effective(config: Config): (c: Config)
    ensures c.virtualNodes > 0 && c.loadFactor > 0.0
    ensures config.virtualNodes > 0 ==> c.virtualNodes == config.virtualNodes
    ensures config.loadFactor > 0.0 ==> c.loadFactor == config.loadFactor
    ensures config.virtualNodes <= 0 ==> c.virtualNodes == DefaultConfig().virtualNodes
    ensures config.loadFactor <= 0.0 ==> c.loadFactor == DefaultConfig().loadFactor
  {
    Config(if config.virtualNodes <= 0 then 150 else config.virtualNodes,
           if config.loadFactor <= 0.0 then 1.25 else config.loadFactor)
  }

  /** The defaults are kept as they are, and defaulting twice changes nothing. */
  lemma EffectiveIsIdempotent(config: Config)
    ensures Effective(DefaultConfig()) == DefaultConfig()
    ensures Effective(Effective(config)) == Effective(config)
  {
  }

  /** One node's line in the statistics. */
  datatype NodeStats = NodeStats(id: string, host: string, load: int, maxLoad: int)

  /** The ring's statistics. */
  datatype RingStats = RingStats(totalNodes: nat, totalKeys: int, virtualNodes: nat,
                                 loadFactor: real, ringSize: nat, nodes: seq<NodeStats>)

  /** Every listed position is mapped to a member. */
  ghost predicate Routes(ring: seq<uint32>, owner: map<uint32, string>, members: set<string>) {
    forall p :: p in ring ==> p in owner && owner[p] in members
  }

  /** Every node is filed under its own id. */
  ghost predicate FiledById(nodes: map<string, Node>) {
    forall id :: id in nodes ==> nodes[id].id == id
  }

  class HashRing {
    /** The hash of a string onto the ring (SHA-256, first four bytes big-endian). */
    const hash: string -> uint32
    const virtualNodes: nat
    const loadFactor: real
    var nodes: map<string, Node>
    /** The virtual positions, sorted ascending. */
    var ring: seq<uint32>
    /** The node owning each virtual position. */
    var ringMap: map<uint32, string>
    var totalKeys: int
    /** The node each bounded-load key was assigned to. */
    var keyAssignment: map<string, string>

    /** The shape of the ring: settings are positive, nodes are filed under
        their ids, and positions, position map and members agree. */
    ghost predicate Topology()
      reads this`nodes, this`ring, this`ringMap
    {
      && virtualNodes > 0 && loadFactor > 0.0
      && FiledById(nodes)
      && Placed(hash, virtualNodes, ring, ringMap, nodes.Keys)
      && (nodes.Keys == {} <==> ring == [])
    }

    /** All nodes share one cap: every node's cap is that of one fixed member. */
    ghost predicate SharedCap()
      reads this`nodes, nodes.Values`maxLoad
    {
      forall id :: id in nodes ==> nodes[id].maxLoad == nodes[Pick(nodes.Keys)].maxLoad
    }

    /** The full invariant: every assigned key's node is a member and every
        node's load is the number of keys assigned to it. */
    ghost predicate Valid()
      reads this, nodes.Values
    {
      && Topology()
      && LoadsMatch()
      && SharedCap()
    }

    /** Every assigned key's node is a member, and every node's load is the
        number of keys assigned to it. */
    ghost predicate LoadsMatch()
      reads this`nodes, this`keyAssignment, nodes.Values`load
    {
      && (forall k :: k in keyAssignment ==> keyAssignment[k] in nodes)
      && (forall id :: id in nodes ==> nodes[id].load == Count(keyAssignment, id))
    }

    /** Each node's load. */
    ghost function Loads(): map<string, int>
      reads this`nodes, nodes.Values`load
    {
      map id | id in nodes :: nodes[id].load
    }

    /** The nodes that can take one more key. */
    ghost function AcceptingIds(): set<string>
      reads this`nodes, nodes.Values
    {
      set id | id in nodes && nodes[id].CanAcceptKey()
    }

    /** Once every cap is negative, which a negative key count brings about
        at the next membership change, no node can accept a key, so every new
        key falls back to the owner of its hash. */
    lemma NegativeCapFallsBack(key: string)
      requires Valid() && nodes != map[]
      requires forall id :: id in nodes ==> nodes[id].maxLoad < 0
      ensures AcceptingIds() == {}
      ensures BoundedChoice(key) == Owner(ring, ringMap, hash(key))
    {
      forall id | id in nodes ensures !nodes[id].CanAcceptKey() {
        assert nodes[id].load == Count(keyAssignment, id) >= 0;
      }
    }

    /** Load conservation: the loads add up to the number of assigned keys. */
    lemma LoadsAddUp()
      requires Valid()
      ensures Sum(Loads()) == |keyAssignment|
    {
      assert Loads() == Counts(keyAssignment, nodes.Keys);
      CountsAddUp(keyAssignment, nodes.Keys);
    }

    constructor (config: Config, hash: string -> uint32)
      ensures Valid()
      ensures this.hash == hash
      ensures virtualNodes == Effective(config).virtualNodes
      ensures loadFactor == Effective(config).loadFactor
      ensures nodes == map[] && ring == [] && ringMap == map[]
      ensures keyAssignment == map[] && totalKeys == 0
    {
      var c := Effective(config);
      this.hash := hash;
      virtualNodes := c.virtualNodes;
      loadFactor := c.loadFactor;
      nodes := map[];
      ring := [];
      ringMap := map[];
      totalKeys := 0;
      keyAssignment := map[];
    }

    /** The index of the first position clockwise from h: binary search for
        the first position at or past h, wrapping to 0 past the end. */
    method Search(h: uint32) returns (idx: nat)
      requires StrictlyAscending(ring)
      ensures |ring| == 0 ==> idx == 0
      ensures |ring| > 0 ==> idx == ClockwiseIndex(ring, h)
    {
      idx := LowerBound(ring, h);
      if idx >= |ring| {
        idx := 0;
      }
    }

    /** The node owning the first position clockwise from h. */
    method GetNodeForHash(h: uint32) returns (n: Node)
      requires Topology() && |ring| > 0
      ensures Owner(ring, ringMap, h) in nodes
      ensures n == nodes[Owner(ring, ringMap, h)] && n.id == Owner(ring, ringMap, h)
    {
      var idx := Search(h);
      OwnerIsMember(hash, virtualNodes, ring, ringMap, nodes.Keys, h);
      var nodeId := ringMap[ring[idx]];
      n := nodes[nodeId];
    }

    /** The unbounded lookup: the owner of the key's hash, with no state change. */
    method GetNode(key: string) returns (r: Result<Node>)
      requires Topology()
      ensures nodes == map[] ==> r == Err(NoNodes)
      ensures nodes != map[] ==> |ring| > 0 && Owner(ring, ringMap, hash(key)) in nodes
                                 && r == Ok(nodes[Owner(ring, ringMap, hash(key))])
    {
      if |nodes| == 0 {
        return Err(NoNodes);
      }
      var n := GetNodeForHash(hash(key));
      r := Ok(n);
    }

    /** The bounded walk: the index of the first position clockwise from
        startIdx whose node can accept one more key, or startIdx when no
        node can. */
    method Walk(startIdx: nat) returns (chosen: nat)
      requires startIdx < |ring|
      requires forall p :: p in ring ==> p in ringMap && ringMap[p] in nodes
      ensures chosen == BoundedIndex(ring, ringMap, AcceptingIds(), startIdx)
    {
      ghost var accepting := AcceptingIds();
      var ringLen := |ring|;
      chosen := startIdx;
      var i := 0;
      while i < ringLen
        invariant 0 <= i <= ringLen
        invariant forall k :: 0 <= k < i ==> ringMap[WalkPosition(ring, startIdx, k)] !in accepting
      {
        var idx := (startIdx + i) % ringLen;
        var candidate := nodes[ringMap[ring[idx]]];
        if candidate.CanAcceptKey() {
          assert ringMap[WalkPosition(ring, startIdx, i)] in accepting;
          chosen := idx;
          break;
        }
        i := i + 1;
      }
      WalkOffsetIs(ring, ringMap, accepting, startIdx, i);
    }

    /** The node the bounded walk picks for a new key: the first node
        clockwise from the key's hash that can accept one more key; when no
        node can, the node at the key's hash. */
    ghost function BoundedChoice(key: string): (id: string)
      reads this, nodes.Values
      requires Topology() && nodes != map[]
      ensures id in nodes
      ensures AcceptingIds() != {} ==> id in AcceptingIds()
      ensures id !in AcceptingIds() ==> id == Owner(ring, ringMap, hash(key))
    {
      var start := ClockwiseIndex(ring, hash(key));
      var idx := BoundedIndex(ring, ringMap, AcceptingIds(), start);
      if AcceptingIds() == {} then ringMap[ring[idx]]
      else
        var a :| a in AcceptingIds();
        assert VirtualPosition(hash, a, 0) in ringMap;
        BoundedIndexAccepts(ring, ringMap, AcceptingIds(), start, VirtualPosition(hash, a, 0));
        ringMap[ring[idx]]
    }

    /** Sticky bounded-load assignment. A key already assigned gets its node
        back with nothing changed. A new key goes to the first node clockwise
        from its hash that can accept it (or, when none can, to the node at
        its hash); that node's load and the key count go up by one. */
    method GetNodeWithBoundedLoad(key: string) returns (r: Result<Node>)
      requires Valid()
      modifies this`keyAssignment, this`totalKeys, nodes.Values
      ensures Valid()
      ensures forall id :: id in nodes ==> nodes[id].maxLoad == old(nodes[id].maxLoad)
      ensures nodes == map[] ==>
                r == Err(NoNodes) && keyAssignment == old(keyAssignment) && totalKeys == old(totalKeys)
      ensures key in old(keyAssignment) ==>
                r == Ok(nodes[old(keyAssignment)[key]]) && keyAssignment == old(keyAssignment)
                && totalKeys == old(totalKeys)
                && forall x :: x in nodes ==> nodes[x].load == old(nodes[x].load)
      ensures nodes != map[] && key !in old(keyAssignment) ==>
                var id := old(BoundedChoice(key));
                && id in nodes
                && r == Ok(nodes[id])
                && keyAssignment == old(keyAssignment)[key := id]
                && totalKeys == old(totalKeys) + 1
                && nodes[id].load == old(nodes[id].load) + 1
                && (forall x :: x in nodes && x != id ==> nodes[x].load == old(nodes[x].load))
                && (old(AcceptingIds()) != {} ==> nodes[id].maxLoad == 0 || nodes[id].load <= nodes[id].maxLoad)
    {
      if |nodes| == 0 {
        return Err(NoNodes);
      }
      var hashVal := hash(key);
      var startIdx := Search(hashVal);
      if key in keyAssignment {
        // Every assigned key's node is a member, so the lookup cannot miss.
        var existing := keyAssignment[key];
        return Ok(nodes[existing]);
      }
      var chosen := Walk(startIdx);
      var nodeId := ringMap[ring[chosen]];
      assert nodeId == old(BoundedChoice(key));
      ghost var couldAccept := nodes[nodeId].CanAcceptKey();
      assert AcceptingIds() != {} ==> couldAccept;
      Commit(key, nodeId);
      r := Ok(nodes[nodeId]);
    }

    /** Records a new key's assignment to member nodeId: that node's load
        and the key count go up by one. */
    method Commit(key: string, nodeId: string)
      requires Valid() && key !in keyAssignment && nodeId in nodes
      modifies this`keyAssignment, this`totalKeys, nodes[nodeId]
      ensures Valid()
      ensures keyAssignment == old(keyAssignment)[key := nodeId] && totalKeys == old(totalKeys) + 1
      ensures nodes[nodeId].load == old(nodes[nodeId].load) + 1
      ensures forall x :: x in nodes && x != nodeId ==> nodes[x].load == old(nodes[x].load)
      ensures forall x :: x in nodes ==> nodes[x].maxLoad == old(nodes[x].maxLoad)
    {
      nodes[nodeId].IncrementLoad();
      keyAssignment := keyAssignment[key := nodeId];
      totalKeys := totalKeys + 1;
      forall x | x in nodes
        ensures nodes[x].load == Count(keyAssignment, x)
      {
        CountAfterAssign(old(keyAssignment), key, nodeId, x);
      }
    }

    /** Releases a key's assignment: its node's load (floored at 0) and the
        key count go down by one. Fails when the key holds no assignment. */
    method RemoveKey(key: string) returns (r: Outcome)
      requires Valid()
      modifies this`keyAssignment, this`totalKeys, nodes.Values
      ensures Valid()
      ensures forall id :: id in nodes ==> nodes[id].maxLoad == old(nodes[id].maxLoad)
      ensures key !in old(keyAssignment) ==>
                r == Fail(KeyNotFound(key)) && keyAssignment == old(keyAssignment)
                && totalKeys == old(totalKeys)
                && forall x :: x in nodes ==> nodes[x].load == old(nodes[x].load)
      ensures key in old(keyAssignment) ==>
                var id := old(keyAssignment)[key];
                && r == Done
                && keyAssignment == old(keyAssignment) - {key}
                && totalKeys == old(totalKeys) - 1
                && nodes[id].load == old(nodes[id].load) - 1
                && forall x :: x in nodes && x != id ==> nodes[x].load == old(nodes[x].load)
    {
      if key !in keyAssignment {
        return Fail(KeyNotFound(key));
      }
      Unassign(key);
      r := Done;
    }

    /** Drops an assigned key: its node's load (floored at 0) and the key
        count go down by one. */
    method Unassign(key: string)
      requires Valid() && key in keyAssignment
      modifies this`keyAssignment, this`totalKeys, nodes.Values
      ensures Valid()
      ensures forall id :: id in nodes ==> nodes[id].maxLoad == old(nodes[id].maxLoad)
      ensures keyAssignment == old(keyAssignment) - {key} && totalKeys == old(totalKeys) - 1
      ensures var id := old(keyAssignment)[key];
              && nodes[id].load == old(nodes[id].load) - 1
              && forall x :: x in nodes && x != id ==> nodes[x].load == old(nodes[x].load)
    {
      var nodeId := keyAssignment[key];
      CountAfterRelease(keyAssignment, key, nodeId);
      if nodeId in nodes {
        nodes[nodeId].DecrementLoad();
      }
      keyAssignment := keyAssignment - {key};
      totalKeys := totalKeys - 1;
      forall x | x in nodes
        ensures nodes[x].load == Count(keyAssignment, x)
      {
        CountAfterRelease(old(keyAssignment), key, x);
      }
    }

    /** Sets every node's cap to the mean load times the load factor, rounded
        half up, and at least 1 when that rounds to 0. */
    method UpdateMaxLoads()
      modifies nodes.Values
      ensures forall id :: id in nodes ==> nodes[id].maxLoad == HalfUpCap(totalKeys, |nodes|, loadFactor)
      ensures forall id :: id in nodes ==> nodes[id].load == old(nodes[id].load)
      ensures nodes == old(nodes) && ring == old(ring) && ringMap == old(ringMap)
      ensures keyAssignment == old(keyAssignment) && totalKeys == old(totalKeys)
    {
      if |nodes| == 0 {
        return;
      }
      var maxLoad := HalfUpCap(totalKeys, |nodes|, loadFactor);
      var rest := nodes.Keys;
      while rest != {}
        invariant rest <= nodes.Keys
        invariant forall id :: id in nodes && id !in rest ==> nodes[id].maxLoad == maxLoad
        invariant forall id :: id in nodes ==> nodes[id].load == old(nodes[id].load)
        decreases rest
      {
        var id :| id in rest;
        nodes[id].maxLoad := maxLoad;
        rest := rest - {id};
      }
    }

    /** Sets every node's load to zero. */
    method ResetLoads()
      modifies nodes.Values
      ensures forall id :: id in nodes ==> nodes[id].load == 0
      ensures forall id :: id in nodes ==> nodes[id].maxLoad == old(nodes[id].maxLoad)
      ensures nodes == old(nodes) && ring == old(ring) && ringMap == old(ringMap)
      ensures keyAssignment == old(keyAssignment) && totalKeys == old(totalKeys)
    {
      var rest := nodes.Keys;
      while rest != {}
        invariant rest <= nodes.Keys
        invariant forall id :: id in nodes && id !in rest ==> nodes[id].load == 0
        invariant forall id :: id in nodes ==> nodes[id].maxLoad == old(nodes[id].maxLoad)
        decreases rest
      {
        var id :| id in rest;
        nodes[id].ResetLoad();
        rest := rest - {id};
      }
    }

    /** Resets every load and reassigns every key with the unbounded lookup. */
    method RebalanceKeys()
      requires StrictlyAscending(ring) && Routes(ring, ringMap, nodes.Keys) && FiledById(nodes)
      requires |ring| > 0 || keyAssignment == map[]
      modifies this`keyAssignment, nodes.Values
      ensures keyAssignment == Reassigned(hash, ring, ringMap, old(keyAssignment).Keys)
      ensures forall k :: k in keyAssignment ==> keyAssignment[k] in nodes
      ensures forall id :: id in nodes ==> nodes[id].load == Count(keyAssignment, id)
      ensures forall id :: id in nodes ==> nodes[id].maxLoad == old(nodes[id].maxLoad)
      ensures nodes == old(nodes) && ring == old(ring) && ringMap == old(ringMap)
      ensures totalKeys == old(totalKeys)
    {
      ResetLoads();
      keyAssignment := ReassignAll(keyAssignment.Keys);
    }

    /** Assigns every key of keys to the owner of its hash, starting from
        all-zero loads, and returns the new table. */
    method ReassignAll(keys: set<string>) returns (table: map<string, string>)
      requires StrictlyAscending(ring) && Routes(ring, ringMap, nodes.Keys) && FiledById(nodes)
      requires |ring| > 0 || keys == {}
      requires forall id :: id in nodes ==> nodes[id].load == 0
      modifies nodes.Values
      ensures table == Reassigned(hash, ring, ringMap, keys)
      ensures forall k :: k in table ==> table[k] in nodes
      ensures forall id :: id in nodes ==> nodes[id].load == Count(table, id)
      ensures forall id :: id in nodes ==> nodes[id].maxLoad == old(nodes[id].maxLoad)
      ensures nodes == old(nodes) && ring == old(ring) && ringMap == old(ringMap)
      ensures keyAssignment == old(keyAssignment) && totalKeys == old(totalKeys)
    {
      table := map[];
      var pending := keys;
      while pending != {}
        invariant pending <= keys
        invariant table.Keys == keys - pending
        invariant forall k :: k in table ==> table[k] == Owner(ring, ringMap, hash(k))
        invariant forall id :: id in nodes ==> nodes[id].load == Count(table, id)
        invariant forall id :: id in nodes ==> nodes[id].maxLoad == old(nodes[id].maxLoad)
        decreases pending
      {
        var key :| key in pending;
        var nodeId := AssignToOwner(key, table);
        table := table[key := nodeId];
        pending := pending - {key};
      }
      IsReassigned(hash, ring, ringMap, keys, table);
      ReassignedWithin(hash, ring, ringMap, nodes.Keys, keys);
    }

    /** One step of the reassignment: the key goes to the owner of its hash,
        whose load goes up by one. */
    method AssignToOwner(key: string, ghost table: map<string, string>) returns (nodeId: string)
      requires StrictlyAscending(ring) && Routes(ring, ringMap, nodes.Keys) && FiledById(nodes) && |ring| > 0
      requires key !in table
      requires forall id :: id in nodes ==> nodes[id].load == Count(table, id)
      modifies nodes.Values
      ensures nodeId in nodes && nodeId == Owner(ring, ringMap, hash(key))
      ensures forall id :: id in nodes ==> nodes[id].load == Count(table[key := nodeId], id)
      ensures forall id :: id in nodes ==> nodes[id].maxLoad == old(nodes[id].maxLoad)
    {
      var idx := Search(hash(key));
      nodeId := ringMap[ring[idx]];
      nodes[nodeId].IncrementLoad();
      forall x | x in nodes
        ensures nodes[x].load == Count(table[key := nodeId], x)
      {
        CountAfterAssign(table, key, nodeId, x);
      }
    }

    /** The common tail of AddNode and RemoveNode: recomputes the caps,
        then reassigns every key, which restores the full invariant. */
    method Refresh()
      requires Topology()
      requires |ring| > 0 || keyAssignment == map[]
      modifies this`keyAssignment, nodes.Values
      ensures Valid()
      ensures nodes == old(nodes) && ring == old(ring) && ringMap == old(ringMap)
      ensures totalKeys == old(totalKeys)
      ensures keyAssignment == Reassigned(hash, ring, ringMap, old(keyAssignment).Keys)
      ensures forall id :: id in nodes ==> nodes[id].maxLoad == HalfUpCap(totalKeys, |nodes|, loadFactor)
    {
      UpdateMaxLoads();
      RebalanceKeys();
    }

    /** The membership half of AddNode: files the node under its id, places
        its virtual positions and sorts the ring. */
    method Join(node: Node)
      requires Topology()
      requires node.id !in nodes && FreshPositions(hash, virtualNodes, node.id, ring)
      modifies this`nodes, this`ring, this`ringMap
      ensures Topology()
      ensures nodes == old(nodes)[node.id := node]
      ensures ring == SortAscending(old(ring) + VirtualPositions(hash, node.id, virtualNodes))
      ensures ringMap == Claim(old(ringMap), VirtualPositions(hash, node.id, virtualNodes), node.id)
    {
      ghost var ps := VirtualPositions(hash, node.id, virtualNodes);
      ghost var joined, owners, members := SortAscending(ring + ps), Claim(ringMap, ps, node.id), nodes.Keys + {node.id};
      AddKeepsPlaced(hash, virtualNodes, ring, ringMap, nodes.Keys, node.id);
      MembersOccupyRing(hash, virtualNodes, joined, owners, members);
      nodes := nodes[node.id := node];
      assert nodes.Keys == members;
      var appended, claimed := AppendReplicas(hash, node.id, virtualNodes, ring, ringMap);
      ring, ringMap := SortAscending(appended), claimed;
    }

    /** Adds a node with virtualNodes fresh positions, re-sorts the ring,
        recomputes the caps and reassigns every key. Fails when the id is
        taken. */
    method AddNode(node: Node) returns (r: Outcome)
      requires Valid()
      requires node.id !in nodes ==> FreshPositions(hash, virtualNodes, node.id, ring)
      modifies this, nodes.Values, node
      ensures Valid()
      ensures node.id in old(nodes) ==>
                r == Fail(AlreadyExists(node.id)) && unchanged(this) && unchanged(node)
                && unchanged(nodes.Values)
      ensures node.id !in old(nodes) ==>
                var ps := VirtualPositions(hash, node.id, virtualNodes);
                && r == Done
                && nodes == old(nodes)[node.id := node]
                && ring == SortAscending(old(ring) + ps)
                && |ring| == |old(ring)| + virtualNodes
                && ringMap == Claim(old(ringMap), ps, node.id)
                && totalKeys == old(totalKeys)
                && keyAssignment == Reassigned(hash, ring, ringMap, old(keyAssignment).Keys)
                && (forall id :: id in nodes ==> nodes[id].maxLoad == HalfUpCap(totalKeys, |nodes|, loadFactor))
    {
      if node.id in nodes {
        return Fail(AlreadyExists(node.id));
      }
      Join(node);
      assert nodes.Values <= old(nodes.Values) + {node};
      Refresh();
      r := Done;
    }

    /** The membership half of RemoveNode: drops the node's positions,
        subtracts its load from the key count and drops the node itself. */
    method Leave(id: string)
      requires Topology() && id in nodes
      modifies this`nodes, this`ring, this`ringMap, this`totalKeys
      ensures Topology()
      ensures nodes == old(nodes) - {id}
      ensures ring == Survivors(old(ring), old(ringMap), id)
      ensures |ring| == |old(ring)| - virtualNodes
      ensures |ring| > 0 || old(nodes).Keys == {id}
      ensures ringMap == Release(old(ringMap), id)
      ensures totalKeys == old(totalKeys) - old(nodes[id].load)
      ensures keyAssignment == old(keyAssignment)
    {
      ghost var kept, owners, members := Survivors(ring, ringMap, id), Release(ringMap, id), nodes.Keys - {id};
      SurvivorsAscending(ring, ringMap, id);
      RemoveKeepsPlaced(hash, virtualNodes, ring, ringMap, nodes.Keys, id, kept);
      RemovalShrinksByReplicas(hash, virtualNodes, ring, ringMap, nodes.Keys, id, kept);
      MembersOccupyRing(hash, virtualNodes, kept, owners, members);
      ring, ringMap := FilterOwned(ring, ringMap, id);
      totalKeys := totalKeys - nodes[id].load;
      nodes := nodes - {id};
      assert nodes.Keys == members;
    }

    /** Removes a node: filters its positions out of the ring and the
        position map, subtracts its load from the key count, recomputes the
        caps and reassigns every key. Fails when the id is not a member. */
    method RemoveNode(id: string) returns (r: Outcome)
      requires Valid()
      requires nodes.Keys == {id} ==> keyAssignment == map[]
      modifies this, nodes.Values
      ensures Valid()
      ensures id !in old(nodes) ==>
                r == Fail(NotFound(id)) && unchanged(this) && unchanged(nodes.Values)
      ensures id in old(nodes) ==>
                && r == Done
                && nodes == old(nodes) - {id}
                && ring == Survivors(old(ring), old(ringMap), id)
                && |ring| == |old(ring)| - virtualNodes
                && ringMap == Release(old(ringMap), id)
                && totalKeys == old(totalKeys) - old(nodes[id].load)
                && keyAssignment == Reassigned(hash, ring, ringMap, old(keyAssignment).Keys)
                && (forall x :: x in nodes ==> nodes[x].maxLoad == HalfUpCap(totalKeys, |nodes|, loadFactor))
    {
      if id !in nodes {
        return Fail(NotFound(id));
      }
      Leave(id);
      assert nodes.Values <= old(nodes.Values);
      Refresh();
      r := Done;
    }

    /** Every node, each once, in no particular order. */
    method GetNodes() returns (ns: seq<Node>)
      ensures |ns| == |nodes|
      ensures forall id :: id in nodes ==> nodes[id] in ns
      ensures forall n :: n in ns ==> n in nodes.Values
    {
      ns := [];
      var rest := nodes.Keys;
      while rest != {}
        invariant rest <= nodes.Keys
        invariant |ns| + |rest| == |nodes|
        invariant forall id :: id in nodes && id !in rest ==> nodes[id] in ns
        invariant forall n :: n in ns ==> n in nodes.Values
        decreases rest
      {
        var id :| id in rest;
        ns := ns + [nodes[id]];
        rest := rest - {id};
      }
    }

    /** The ring's settings and sizes, and one line per node. */
    method Stats() returns (s: RingStats)
      ensures s.totalNodes == |nodes| && s.totalKeys == totalKeys && s.ringSize == |ring|
      ensures s.virtualNodes == virtualNodes && s.loadFactor == loadFactor
      ensures |s.nodes| == |nodes|
      ensures forall id :: id in nodes ==>
                NodeStats(id, nodes[id].host, nodes[id].load, nodes[id].maxLoad) in s.nodes
    {
      var nodeStats: seq<NodeStats> := [];
      var rest := nodes.Keys;
      while rest != {}
        invariant rest <= nodes.Keys
        invariant |nodeStats| + |rest| == |nodes|
        invariant forall id :: id in nodes && id !in rest ==>
                    NodeStats(id, nodes[id].host, nodes[id].load, nodes[id].maxLoad) in nodeStats
        decreases rest
      {
        var id :| id in rest;
        var node := nodes[id];
        nodeStats := nodeStats + [NodeStats(id, node.host, node.load, node.maxLoad)];
        rest := rest - {id};
      }
      s := RingStats(|nodes|, totalKeys, virtualNodes, loadFactor, |ring|, nodeStats);
    }
  }
}
