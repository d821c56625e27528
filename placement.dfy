/** Where a node's virtual positions go on the ring, and the invariant that ties
    the sorted position list, the position-to-node map and the set of member
    nodes together. Both ring implementations keep this invariant. */
module Placement {
  import opened SortedRing

  // ---------------------------------------------------------------------------
  // Virtual keys: the "%s#%d" formatting of a node id and a replica index
  // ---------------------------------------------------------------------------

  function DigitChar(d: nat): (c: char)
    requires d < 10
    ensures '0' <= c <= '9'
  {
    ('0' as int + d) as char
  }

  /** The decimal rendering of n, as Go's %d prints a non-negative int. */
  function Decimal(n: nat): (s: string)
    ensures 1 <= |s|
    ensures forall k :: 0 <= k < |s| ==> '0' <= s[k] <= '9'
    ensures n < 10 <==> |s| == 1
  {
    if n < 10 then [DigitChar(n)] else Decimal(n / 10) + [DigitChar(n % 10)]
  }

  /** Distinct numbers print differently. */
  lemma {:induction false} DecimalInjective(m: nat, n: nat)
    requires Decimal(m) == Decimal(n)
    ensures m == n
  {
    if m >= 10 {
      var dm, dn := Decimal(m), Decimal(n);
      assert dm[|dm| - 1] == dn[|dn| - 1];
      assert dm[..|dm| - 1] == dn[..|dn| - 1];
      DecimalInjective(m / 10, n / 10);
    }
  }

  /** The string hashed for replica i of node id. */
  function VirtualKey(id: string, i: nat): string {
    id + "#" + Decimal(i)
  }

  /** A virtual key is the node id, then '#', then nothing but digits. */
  lemma VirtualKeyShape(id: string, i: nat)
    ensures var k := VirtualKey(id, i);
            && |k| > |id| + 1
            && k[..|id|] == id && k[|id|] == '#'
            && forall j :: |id| < j < |k| ==> '0' <= k[j] <= '9'
  {
    var k := VirtualKey(id, i);
    var d := Decimal(i);
    forall j | |id| < j < |k| ensures '0' <= k[j] <= '9' {
      assert k[j] == d[j - |id| - 1];
    }
  }

  /** Distinct (node, replica) pairs have distinct virtual keys, even when node
      ids contain '#': two virtual positions can coincide only by a collision
      of the hash function itself. */
  lemma VirtualKeyInjective(a: string, i: nat, b: string, j: nat)
    requires VirtualKey(a, i) == VirtualKey(b, j)
    ensures a == b && i == j
  {
    var s := VirtualKey(a, i);
    var da, db := Decimal(i), Decimal(j);
    assert s == a + "#" + da && s == b + "#" + db;
    // The '#' before the replica number is the last '#' of the key.
    assert s[|a|] == '#' && forall k :: |a| < k < |s| ==> s[k] == da[k - |a| - 1];
    assert s[|b|] == '#' && forall k :: |b| < k < |s| ==> s[k] == db[k - |b| - 1];
    assert |a| == |b|;
    assert a == s[..|a|] == b;
    assert da == s[|a| + 1..] == db;
    DecimalInjective(i, j);
  }

  // ---------------------------------------------------------------------------
  // Virtual positions
  // ---------------------------------------------------------------------------

  function VirtualPosition(hash: string -> uint32, id: string, i: nat): uint32 {
    hash(VirtualKey(id, i))
  }

  /** The positions of replicas 0 .. count - 1 of node id, in the order the
      insertion loops append them. */
  function VirtualPositions(hash: string -> uint32, id: string, count: nat): (ps: seq<uint32>)
    ensures |ps| == count
    ensures forall i :: 0 <= i < count ==> ps[i] == VirtualPosition(hash, id, i)
  {
    if count == 0 then []
    else VirtualPositions(hash, id, count - 1) + [VirtualPosition(hash, id, count - 1)]
  }

  /** The positions a joining node will take are pairwise distinct and not yet
      on the ring (the model's no-hash-collision assumption). */
  ghost predicate FreshPositions(hash: string -> uint32, count: nat, id: string, ring: seq<uint32>) {
    && NoDuplicates(VirtualPositions(hash, id, count))
    && forall i :: 0 <= i < count ==> VirtualPosition(hash, id, i) !in ring
  }

  /** Whether p is the position of one of replicas 0 .. count - 1 of node id. */
  ghost predicate IsReplica(hash: string -> uint32, id: string, count: nat, p: uint32) {
    count > 0 && (VirtualPosition(hash, id, count - 1) == p || IsReplica(hash, id, count - 1, p))
  }

  /** IsReplica is membership in the node's list of positions. */
  lemma {:induction false} IsReplicaIn(hash: string -> uint32, id: string, count: nat, p: uint32)
    ensures IsReplica(hash, id, count, p) <==> p in VirtualPositions(hash, id, count)
  {
    if count > 0 {
      IsReplicaIn(hash, id, count - 1, p);
      var ps := VirtualPositions(hash, id, count - 1);
      assert VirtualPositions(hash, id, count) == ps + [VirtualPosition(hash, id, count - 1)];
    }
  }

  /** The position map covers exactly the listed positions. */
  ghost predicate Covers(owner: map<uint32, string>, ring: seq<uint32>) {
    forall p :: p in owner <==> p in ring
  }

  /** Every mapped position belongs to a member and is one of its virtual positions. */
  ghost predicate OwnersAreReplicas(hash: string -> uint32, count: nat, owner: map<uint32, string>,
                                    members: set<string>)
  {
    forall p :: p in owner ==> owner[p] in members && IsReplica(hash, owner[p], count, p)
  }

  /** Every member holds all of its virtual positions. */
  ghost predicate MembersHoldReplicas(hash: string -> uint32, count: nat, owner: map<uint32, string>,
                                      members: set<string>)
  {
    forall m, i {:trigger VirtualPosition(hash, m, i)} :: m in members && 0 <= i < count ==>
      VirtualPosition(hash, m, i) in owner && owner[VirtualPosition(hash, m, i)] == m
  }

  ghost predicate ReplicasDistinct(hash: string -> uint32, count: nat, members: set<string>) {
    forall m {:trigger VirtualPositions(hash, m, count)} :: m in members ==> NoDuplicates(VirtualPositions(hash, m, count))
  }

  /** The ring invariant: the position list is sorted without duplicates, the
      position map covers exactly the listed positions, every mapped position
      is one of its node's virtual positions, and every member node holds all
      of its (pairwise distinct) virtual positions. */
  ghost predicate Placed(hash: string -> uint32, count: nat, ring: seq<uint32>,
                         owner: map<uint32, string>, members: set<string>)
  {
    && StrictlyAscending(ring)
    && Covers(owner, ring)
    && OwnersAreReplicas(hash, count, owner, members)
    && MembersHoldReplicas(hash, count, owner, members)
    && ReplicasDistinct(hash, count, members)
  }

  /** The position map after node id's positions are written into it. */
  function Claim(owner: map<uint32, string>, ps: seq<uint32>, id: string): (o: map<uint32, string>)
    ensures forall p :: p in o <==> p in owner || p in ps
    ensures forall p :: p in ps ==> o[p] == id
    ensures forall p :: p in owner && p !in ps ==> o[p] == owner[p]
  {
    owner + map p | p in ps :: id
  }

  /** Claiming one more position extends the claimed map by that position. */
  lemma ClaimExtend(owner: map<uint32, string>, ps: seq<uint32>, p: uint32, id: string)
    ensures Claim(owner, ps + [p], id) == Claim(owner, ps, id)[p := id]
  {
  }

  /** The insertion loop of both rings: appends the positions of replicas
      0 .. count - 1 of node id to the position list, in replica order, and
      maps each of them to id. */
  method AppendReplicas(hash: string -> uint32, id: string, count: nat,
                        ring: seq<uint32>, owner: map<uint32, string>)
    returns (ring': seq<uint32>, owner': map<uint32, string>)
    ensures ring' == ring + VirtualPositions(hash, id, count)
    ensures owner' == Claim(owner, VirtualPositions(hash, id, count), id)
  {
    ring', owner' := ring, owner;
    var i := 0;
    while i < count
      invariant 0 <= i <= count
      invariant ring' == ring + VirtualPositions(hash, id, i)
      invariant owner' == Claim(owner, VirtualPositions(hash, id, i), id)
    {
      var hashVal := hash(VirtualKey(id, i));
      ClaimExtend(owner, VirtualPositions(hash, id, i), hashVal, id);
      ring' := ring' + [hashVal];
      owner' := owner'[hashVal := id];
      i := i + 1;
    }
  }

  /** The position map after node id's entries are deleted from it. */
  function Release(owner: map<uint32, string>, id: string): (o: map<uint32, string>)
    ensures forall p :: p in o <==> p in owner && owner[p] != id
    ensures forall p :: p in o ==> o[p] == owner[p]
  {
    map p | p in owner && owner[p] != id :: owner[p]
  }

  /** With at least one replica per node, the ring is empty exactly when no
      node is a member. */
  lemma MembersOccupyRing(hash: string -> uint32, count: nat, ring: seq<uint32>,
                          owner: map<uint32, string>, members: set<string>)
    requires Placed(hash, count, ring, owner, members)
    requires count > 0
    ensures members != {} <==> |ring| > 0
  {
    if members != {} {
      var m :| m in members;
      assert VirtualPosition(hash, m, 0) in owner;
    }
    if |ring| > 0 {
      assert ring[0] in owner;
    }
  }

  /** A strictly ascending ring followed by fresh, pairwise distinct
      positions has no duplicates. */
  lemma JoinHasNoDuplicates(ring: seq<uint32>, ps: seq<uint32>)
    requires StrictlyAscending(ring)
    requires NoDuplicates(ps)
    requires forall i :: 0 <= i < |ps| ==> ps[i] !in ring
    ensures NoDuplicates(ring + ps)
  {
    var joined := ring + ps;
    AscendingIsDistinct(ring);
    forall i, j | 0 <= i < j < |joined|
      ensures joined[i] != joined[j]
    {
      if i < |ring| <= j {
        assert joined[j] == ps[j - |ring|];
        assert joined[i] in ring;
      } else if |ring| <= i {
        assert joined[i] == ps[i - |ring|] && joined[j] == ps[j - |ring|];
      }
    }
  }

  /** Claiming a new node's fresh positions keeps the invariant for any
      strictly ascending list of the old and new positions. */
  lemma ClaimKeepsPlaced(hash: string -> uint32, count: nat, ring: seq<uint32>,
                         owner: map<uint32, string>, members: set<string>, id: string,
                         ring': seq<uint32>)
    requires Placed(hash, count, ring, owner, members)
    requires id !in members
    requires FreshPositions(hash, count, id, ring)
    requires StrictlyAscending(ring')
    requires forall p :: p in ring' <==> p in ring || p in VirtualPositions(hash, id, count)
    ensures Placed(hash, count, ring', Claim(owner, VirtualPositions(hash, id, count), id), members + {id})
  {
    var ps := VirtualPositions(hash, id, count);
    var o := Claim(owner, ps, id);
    ClaimCovers(owner, ring, ps, ring');
    ClaimOwnersAreReplicas(hash, count, owner, members, id);
    ClaimMembersHoldReplicas(hash, count, owner, members, id);
  }

  lemma ClaimCovers(owner: map<uint32, string>, ring: seq<uint32>, ps: seq<uint32>, ring': seq<uint32>)
    requires Covers(owner, ring)
    requires forall p :: p in ring' <==> p in ring || p in ps
    ensures forall id :: Covers(Claim(owner, ps, id), ring')
  {
  }

  lemma ClaimOwnersAreReplicas(hash: string -> uint32, count: nat, owner: map<uint32, string>,
                               members: set<string>, id: string)
    requires OwnersAreReplicas(hash, count, owner, members)
    ensures OwnersAreReplicas(hash, count, Claim(owner, VirtualPositions(hash, id, count), id), members + {id})
  {
    var ps := VirtualPositions(hash, id, count);
    var o := Claim(owner, ps, id);
    forall p | p in o
      ensures o[p] in members + {id} && IsReplica(hash, o[p], count, p)
    {
      if p !in ps {
        assert o[p] == owner[p];
      } else {
        IsReplicaIn(hash, id, count, p);
      }
    }
  }

  lemma ClaimMembersHoldReplicas(hash: string -> uint32, count: nat, owner: map<uint32, string>,
                                 members: set<string>, id: string)
    requires MembersHoldReplicas(hash, count, owner, members)
    requires forall i :: 0 <= i < count ==> VirtualPosition(hash, id, i) !in owner
    ensures MembersHoldReplicas(hash, count, Claim(owner, VirtualPositions(hash, id, count), id), members + {id})
  {
    var ps := VirtualPositions(hash, id, count);
    var o := Claim(owner, ps, id);
    forall m, i | m in members + {id} && 0 <= i < count
      ensures VirtualPosition(hash, m, i) in o && o[VirtualPosition(hash, m, i)] == m
    {
      var p := VirtualPosition(hash, m, i);
      if m != id {
        assert p in owner;
        assert p !in ps;
      } else {
        assert ps[i] == p;
      }
    }
  }

  /** Appending a new node's fresh positions and sorting keeps the invariant. */
  lemma AddKeepsPlaced(hash: string -> uint32, count: nat, ring: seq<uint32>,
                       owner: map<uint32, string>, members: set<string>, id: string)
    requires Placed(hash, count, ring, owner, members)
    requires id !in members
    requires FreshPositions(hash, count, id, ring)
    ensures var ps := VirtualPositions(hash, id, count);
            && Placed(hash, count, SortAscending(ring + ps), Claim(owner, ps, id), members + {id})
            && (forall p :: p in SortAscending(ring + ps) <==> p in ring || p in ps)
  {
    var ps := VirtualPositions(hash, id, count);
    JoinHasNoDuplicates(ring, ps);
    SortIsStrictlyAscending(ring + ps);
    ClaimKeepsPlaced(hash, count, ring, owner, members, id, SortAscending(ring + ps));
  }

  /** Dropping exactly the positions owned by a member keeps the invariant
      for the remaining members. */
  lemma RemoveKeepsPlaced(hash: string -> uint32, count: nat, ring: seq<uint32>,
                          owner: map<uint32, string>, members: set<string>, id: string,
                          ring': seq<uint32>)
    requires Placed(hash, count, ring, owner, members)
    requires StrictlyAscending(ring')
    requires forall p :: p in ring' <==> p in ring && owner[p] != id
    ensures Placed(hash, count, ring', Release(owner, id), members - {id})
  {
  }

  /** Under the invariant, the positions a member owns are exactly its
      virtual positions. */
  lemma OwnedAreReplicas(hash: string -> uint32, count: nat, ring: seq<uint32>,
                         owner: map<uint32, string>, members: set<string>, id: string)
    requires Placed(hash, count, ring, owner, members)
    requires id in members
    ensures forall p :: (p in owner && owner[p] == id) <==> p in VirtualPositions(hash, id, count)
  {
    var ps := VirtualPositions(hash, id, count);
    forall p ensures (p in owner && owner[p] == id) <==> p in ps {
      if p in owner && owner[p] == id {
        IsReplicaIn(hash, id, count, p);
      }
      if p in ps {
        var i :| 0 <= i < count && ps[i] == p;
        assert VirtualPosition(hash, id, i) in owner;
      }
    }
  }

  /** Deleting a member's virtual positions one by one, from a sorted ring
      and from the position map, gives the same ring as filtering out the
      positions it owns, and the released map. */
  lemma DropReplicasIsRelease(hash: string -> uint32, count: nat, ring: seq<uint32>,
                              owner: map<uint32, string>, members: set<string>, id: string,
                              ring': seq<uint32>, owner': map<uint32, string>)
    requires Placed(hash, count, ring, owner, members)
    requires id in members
    requires StrictlyAscending(ring')
    requires forall p :: p in ring' <==> p in ring && p !in VirtualPositions(hash, id, count)
    requires forall p :: p in owner' <==> p in owner && p !in VirtualPositions(hash, id, count)
    requires forall p :: p in owner' ==> owner'[p] == owner[p]
    ensures ring' == Survivors(ring, owner, id)
    ensures owner' == Release(owner, id)
  {
    OwnedAreReplicas(hash, count, ring, owner, members, id);
    SurvivorsAscending(ring, owner, id);
    AscendingUnique(ring', Survivors(ring, owner, id));
  }

  // ---------------------------------------------------------------------------
  // The unbounded lookup and how membership changes affect it
  // ---------------------------------------------------------------------------

  /** The node owning the first position clockwise from h. */
  function Owner(ring: seq<uint32>, owner: map<uint32, string>, h: uint32): string
    requires |ring| > 0
    requires forall p :: p in ring ==> p in owner
  {
    owner[ring[ClockwiseIndex(ring, h)]]
  }

  /** The owner of h is the node at the index the search finds, where an
      index past the end wraps to 0. */
  lemma OwnerAtSearchIndex(ring: seq<uint32>, owner: map<uint32, string>, h: uint32)
    requires |ring| > 0
    requires forall p :: p in ring ==> p in owner
    ensures var i := FirstAtLeast(ring, h);
            Owner(ring, owner, h) == owner[ring[if i < |ring| then i else 0]]
  {
    ClockwiseIsWrappedSearch(ring, h);
  }

  /** Removing node id's positions leaves every hash whose owner was another
      node with that same owner. */
  lemma RemovalKeepsOtherOwners(ring: seq<uint32>, owner: map<uint32, string>, id: string,
                                ring': seq<uint32>, h: uint32)
    requires StrictlyAscending(ring) && StrictlyAscending(ring')
    requires |ring| > 0
    requires forall p :: p in ring ==> p in owner
    requires forall p :: p in ring' <==> p in ring && owner[p] != id
    requires Owner(ring, owner, h) != id
    ensures |ring'| > 0
    ensures Owner(ring', Release(owner, id), h) == Owner(ring, owner, h)
  {
    var q := ring[ClockwiseIndex(ring, h)];
    assert q in ring';
    ClockwiseStable(ring', ring, h);
  }

  /** Adding node id's positions moves a hash, if at all, only onto id. */
  lemma AdditionMovesOnlyToNewNode(ring: seq<uint32>, owner: map<uint32, string>, id: string,
                                   ps: seq<uint32>, ring': seq<uint32>, h: uint32)
    requires StrictlyAscending(ring) && StrictlyAscending(ring')
    requires forall p :: p in ring ==> p in owner
    requires forall p :: p in ring' <==> p in ring || p in ps
    requires |ring'| > 0
    ensures Owner(ring', Claim(owner, ps, id), h) == id
            || (|ring| > 0 && Owner(ring', Claim(owner, ps, id), h) == Owner(ring, owner, h))
  {
    var q := ring'[ClockwiseIndex(ring', h)];
    if q !in ps {
      assert q in ring;
      ClockwiseStable(ring, ring', h);
    }
  }
  /** Under the invariant, every hash is owned by a member node. */
  lemma OwnerIsMember(hash: string -> uint32, count: nat, ring: seq<uint32>,
                      owner: map<uint32, string>, members: set<string>, h: uint32)
    requires Placed(hash, count, ring, owner, members)
    requires |ring| > 0
    ensures Owner(ring, owner, h) in members
  {
    assert ring[ClockwiseIndex(ring, h)] in owner;
  }

  /** The table the unbounded lookup produces for a set of keys: each key goes
      to the owner of its hash. */
  function Reassigned(hash: string -> uint32, ring: seq<uint32>, owner: map<uint32, string>,
                      keys: set<string>): (a: map<string, string>)
    requires |ring| > 0 || keys == {}
    requires forall p :: p in ring ==> p in owner
    ensures a.Keys == keys
  {
    map k | k in keys :: Owner(ring, owner, hash(k))
  }

  /** A table holding exactly the given keys, each mapped to the owner of
      its hash, is the reassigned table. */
  lemma IsReassigned(hash: string -> uint32, ring: seq<uint32>, owner: map<uint32, string>,
                     keys: set<string>, a: map<string, string>)
    requires |ring| > 0 || keys == {}
    requires forall p :: p in ring ==> p in owner
    requires a.Keys == keys
    requires forall k :: k in a ==> a[k] == Owner(ring, owner, hash(k))
    ensures a == Reassigned(hash, ring, owner, keys)
  {
  }

  /** When every listed position belongs to a member, the unbounded lookup
      assigns keys only to members. */
  lemma ReassignedWithin(hash: string -> uint32, ring: seq<uint32>, owner: map<uint32, string>,
                         members: set<string>, keys: set<string>)
    requires forall p :: p in ring ==> p in owner && owner[p] in members
    requires |ring| > 0 || keys == {}
    ensures forall k :: k in Reassigned(hash, ring, owner, keys) ==>
              Reassigned(hash, ring, owner, keys)[k] in members
  {
    forall k | k in keys ensures Owner(ring, owner, hash(k)) in members {
      assert ring[ClockwiseIndex(ring, hash(k))] in ring;
    }
  }

  // ---------------------------------------------------------------------------
  // Filtering a node's positions out of the ring
  // ---------------------------------------------------------------------------

  /** The positions of ring, in order, whose owner is not id. */
  function Survivors(ring: seq<uint32>, owner: map<uint32, string>, id: string): (r: seq<uint32>)
    requires forall p :: p in ring ==> p in owner
    ensures forall p :: p in r <==> p in ring && owner[p] != id
  {
    if ring == [] then []
    else
      var init, last := ring[..|ring| - 1], ring[|ring| - 1];
      assert ring == init + [last];
      Survivors(init, owner, id) + (if owner[last] != id then [last] else [])
  }

  /** The library ring's removal loop: keeps, in order, the positions whose
      owner is not id, and deletes the others from the position map. */
  method FilterOwned(ring: seq<uint32>, owner: map<uint32, string>, id: string)
    returns (kept: seq<uint32>, left: map<uint32, string>)
    requires Covers(owner, ring)
    ensures kept == Survivors(ring, owner, id)
    ensures left == Release(owner, id)
  {
    kept, left := [], owner;
    var k := 0;
    while k < |ring|
      invariant 0 <= k <= |ring|
      invariant kept == Survivors(ring[..k], owner, id)
      invariant forall p :: p in left <==> p in owner && !(p in ring[..k] && owner[p] == id)
      invariant forall p :: p in left ==> left[p] == owner[p]
    {
      var hashVal := ring[k];
      assert ring[..k + 1] == ring[..k] + [hashVal];
      if owner[hashVal] != id {
        kept := kept + [hashVal];
      } else {
        left := left - {hashVal};
      }
      k := k + 1;
    }
    assert ring[..k] == ring;
  }

  /** Filtering keeps a sorted ring sorted. */
  lemma {:induction false} SurvivorsAscending(ring: seq<uint32>, owner: map<uint32, string>, id: string)
    requires forall p :: p in ring ==> p in owner
    requires StrictlyAscending(ring)
    ensures StrictlyAscending(Survivors(ring, owner, id))
  {
    if ring != [] {
      var init, last := ring[..|ring| - 1], ring[|ring| - 1];
      AscendingPrefix(ring, |ring| - 1);
      SurvivorsAscending(init, owner, id);
      var r := Survivors(init, owner, id);
      forall k | 0 <= k < |r| ensures r[k] < last {
        assert r[k] in init;
        var i :| 0 <= i < |init| && init[i] == r[k];
        Ascends(ring, i, |ring| - 1);
      }
      if owner[last] != id {
        AscendingSnoc(r, last);
      } else {
        assert Survivors(ring, owner, id) == r;
      }
    }
  }

  /** The set of elements of a sequence. */
  function Elements(s: seq<uint32>): (e: set<uint32>)
    ensures forall p :: p in e <==> p in s
  {
    set p | p in s
  }

  /** A sequence without duplicates has as many elements as its length. */
  lemma {:induction false} ElementsOfDistinct(s: seq<uint32>)
    requires NoDuplicates(s)
    ensures |Elements(s)| == |s|
  {
    if s != [] {
      var init := s[..|s| - 1];
      ElementsOfDistinct(init);
      assert Elements(s) == Elements(init) + {s[|s| - 1]};
      assert s[|s| - 1] !in Elements(init);
    }
  }

  /** Removing a member's positions shortens a ring by exactly the number of
      replicas per node. */
  lemma RemovalShrinksByReplicas(hash: string -> uint32, count: nat, ring: seq<uint32>,
                                 owner: map<uint32, string>, members: set<string>, id: string,
                                 ring': seq<uint32>)
    requires Placed(hash, count, ring, owner, members)
    requires id in members
    requires StrictlyAscending(ring')
    requires forall p :: p in ring' <==> p in ring && owner[p] != id
    ensures |ring'| == |ring| - count
  {
    var ps := VirtualPositions(hash, id, count);
    assert NoDuplicates(ps);
    ElementsOfDistinct(ps);
    AscendingIsDistinct(ring);
    AscendingIsDistinct(ring');
    ElementsOfDistinct(ring);
    ElementsOfDistinct(ring');
    forall p ensures p in Elements(ring') <==> p in Elements(ring) - Elements(ps) {
      if p in ps {
        var i :| 0 <= i < count && ps[i] == p;
        assert owner[VirtualPosition(hash, id, i)] == id;
      } else if p in ring {
        assert p in owner;
        IsReplicaIn(hash, owner[p], count, p);
        assert owner[p] != id;
      }
    }
    assert Elements(ring') == Elements(ring) - Elements(ps);
    forall p | p in Elements(ps) ensures p in Elements(ring) {
      var i :| 0 <= i < count && ps[i] == p;
      assert VirtualPosition(hash, id, i) in owner;
    }
  }
}
