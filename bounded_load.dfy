/** The arithmetic of the per-node load cap, and the bounded walk around the
    ring that both implementations use to pick a node for a new key. */
module BoundedLoad {
  import opened SortedRing

  // ---------------------------------------------------------------------------
  // Load caps
  // ---------------------------------------------------------------------------

  /** Go's conversion of a floating-point value to int: truncation toward zero. */
  function Trunc(x: real): (r: int)
    ensures x >= 0.0 ==> r as real <= x < r as real + 1.0
    ensures x < 0.0 ==> r as real - 1.0 < x <= r as real
  {
    if x >= 0.0 then x.Floor else -((-x).Floor)
  }

  /** The library ring's cap (updateMaxLoads): the mean load times the load
      factor, rounded half up by adding 0.5 and truncating, and raised to 1
      when that gives 0. */
  function HalfUpCap(totalKeys: int, nodeCount: nat, loadFactor: real): (cap: int)
    requires nodeCount > 0
    ensures cap != 0
    ensures var x := totalKeys as real / nodeCount as real * loadFactor + 0.5;
            && (x >= 1.0 ==> cap as real <= x < cap as real + 1.0)
            && (-1.0 < x < 1.0 ==> cap == 1)
            && (x <= -1.0 ==> cap as real - 1.0 < x <= cap as real)
  {
    var c := Trunc(totalKeys as real / nodeCount as real * loadFactor + 0.5);
    if c == 0 then 1 else c
  }

  /** With a non-negative key count the library cap is at least 1, and with a
      load factor of at least 1 it is at least the mean load rounded down. */
  lemma HalfUpCapBounds(totalKeys: int, nodeCount: nat, loadFactor: real)
    requires nodeCount > 0 && totalKeys >= 0 && loadFactor > 0.0
    ensures HalfUpCap(totalKeys, nodeCount, loadFactor) >= 1
    ensures loadFactor >= 1.0 ==> HalfUpCap(totalKeys, nodeCount, loadFactor) >= totalKeys / nodeCount
  {
    var mean := totalKeys as real / nodeCount as real;
    var scaled := mean * loadFactor;
    assert scaled >= 0.0 by { ScaleUp(mean, loadFactor); }
    if loadFactor >= 1.0 {
      MeanAtLeastQuotient(totalKeys, nodeCount);
      ScaleUp(mean, loadFactor);
      assert (totalKeys / nodeCount) as real <= scaled;
    }
  }

  /** The floor of 1 does not hold for a negative key count: one node, two
      keys below zero and the default load factor give a cap of -2. */
  lemma NegativeKeyCountCap()
    ensures HalfUpCap(-2, 1, 1.25) == -2
  {
    assert (-2) as real / 1 as real * 1.25 + 0.5 == -2.0;
  }

  /** Scaling a non-negative value by a positive factor keeps it non-negative,
      and by a factor of at least 1 does not make it smaller. */
  lemma ScaleUp(a: real, f: real)
    requires a >= 0.0 && f > 0.0
    ensures a * f >= 0.0
    ensures f >= 1.0 ==> a * f >= a
  {
    if f >= 1.0 {
      assert a * f - a == a * (f - 1.0);
    }
  }

  /** The standalone ring's cap: the mean load counting the key being placed,
      times the load factor, truncated. */
  function ProportionalCap(totalLoad: int, nodeCount: nat, loadFactor: real): (cap: int)
    requires nodeCount > 0
    ensures var x := (totalLoad + 1) as real / nodeCount as real * loadFactor;
            && (x >= 0.0 ==> cap as real <= x < cap as real + 1.0)
            && (x < 0.0 ==> cap as real - 1.0 < x <= cap as real)
  {
    Trunc((totalLoad + 1) as real / nodeCount as real * loadFactor)
  }

  /** With non-negative loads and a load factor of at least 1 the standalone
      cap is at least the mean load, new key included, rounded down. */
  lemma ProportionalCapBounds(totalLoad: int, nodeCount: nat, loadFactor: real)
    requires nodeCount > 0 && totalLoad >= 0 && loadFactor >= 1.0
    ensures ProportionalCap(totalLoad, nodeCount, loadFactor) >= (totalLoad + 1) / nodeCount
  {
    var mean := (totalLoad + 1) as real / nodeCount as real;
    var scaled := mean * loadFactor;
    MeanAtLeastQuotient(totalLoad + 1, nodeCount);
    ScaleUp(mean, loadFactor);
    assert ((totalLoad + 1) / nodeCount) as real <= scaled;
  }

  /** Integer division rounds the real quotient down. */
  lemma MeanAtLeastQuotient(total: int, n: nat)
    requires n > 0 && total >= 0
    ensures (total / n) as real <= total as real / n as real
  {
    var q := total / n;
    assert q * n <= total;
    assert (q * n) as real == q as real * n as real;
  }

  // ---------------------------------------------------------------------------
  // The bounded walk
  // ---------------------------------------------------------------------------

  /** The k-th position visited by a walk that starts at index start. */
  function WalkPosition(ring: seq<uint32>, start: nat, k: nat): uint32
    requires |ring| > 0
  {
    ring[(start + k) % |ring|]
  }

  /** A walk's first step is its start. */
  lemma WalkStartsAtStart(ring: seq<uint32>, start: nat)
    requires start < |ring|
    ensures WalkPosition(ring, start, 0) == ring[start]
  {
    assert (start + 0) % |ring| == start;
  }

  /** The first offset k >= i, counted clockwise from start, whose position
      belongs to an accepting node; |ring| when no offset below |ring| does. */
  function WalkOffset(ring: seq<uint32>, owner: map<uint32, string>, accepting: set<string>,
                      start: nat, i: nat): (j: nat)
    requires |ring| > 0 && i <= |ring|
    requires forall p :: p in ring ==> p in owner
    ensures i <= j <= |ring|
    ensures j < |ring| ==> owner[WalkPosition(ring, start, j)] in accepting
    ensures forall k :: i <= k < j ==> owner[WalkPosition(ring, start, k)] !in accepting
    decreases |ring| - i
  {
    if i == |ring| then i
    else if owner[WalkPosition(ring, start, i)] in accepting then i
    else WalkOffset(ring, owner, accepting, start, i + 1)
  }

  /** A walk of |ring| steps from any start visits every index. */
  lemma WalkVisits(n: nat, start: nat, idx: nat) returns (k: nat)
    requires start < n && idx < n
    ensures k < n && (start + k) % n == idx
  {
    if idx >= start {
      k := idx - start;
    } else {
      k := idx + n - start;
      assert start + k == idx + n;
    }
  }

  /** A walk that finds no accepting node has seen every position on the ring. */
  lemma NoAcceptingPosition(ring: seq<uint32>, owner: map<uint32, string>, accepting: set<string>,
                            start: nat)
    requires |ring| > 0 && start < |ring|
    requires forall p :: p in ring ==> p in owner
    requires WalkOffset(ring, owner, accepting, start, 0) == |ring|
    ensures forall p :: p in ring ==> owner[p] !in accepting
  {
    forall p | p in ring
      ensures owner[p] !in accepting
    {
      var idx :| 0 <= idx < |ring| && ring[idx] == p;
      var k := WalkVisits(|ring|, start, idx);
      assert WalkPosition(ring, start, k) == p;
    }
  }

  /** The index the bounded walk settles on: the first position clockwise from
      start whose node accepts, or start itself when no node on the ring does. */
  function BoundedIndex(ring: seq<uint32>, owner: map<uint32, string>, accepting: set<string>,
                        start: nat): (idx: nat)
    requires |ring| > 0 && start < |ring|
    requires forall p :: p in ring ==> p in owner
    ensures idx < |ring|
    ensures owner[ring[idx]] !in accepting ==>
              idx == start && forall p :: p in ring ==> owner[p] !in accepting
  {
    var j := WalkOffset(ring, owner, accepting, start, 0);
    if j < |ring| then (start + j) % |ring|
    else
      NoAcceptingPosition(ring, owner, accepting, start);
      start
  }

  /** An offset whose predecessors all reject and which itself accepts (or is
      |ring|) is the walk's offset. */
  lemma WalkOffsetIs(ring: seq<uint32>, owner: map<uint32, string>, accepting: set<string>,
                     start: nat, j: nat)
    requires |ring| > 0 && j <= |ring|
    requires forall p :: p in ring ==> p in owner
    requires forall k :: 0 <= k < j ==> owner[WalkPosition(ring, start, k)] !in accepting
    requires j < |ring| ==> owner[WalkPosition(ring, start, j)] in accepting
    ensures WalkOffset(ring, owner, accepting, start, 0) == j
  {
  }

  /** When some position on the ring belongs to an accepting node, the walk
      settles on an accepting node. */
  lemma BoundedIndexAccepts(ring: seq<uint32>, owner: map<uint32, string>, accepting: set<string>,
                            start: nat, p: uint32)
    requires |ring| > 0 && start < |ring|
    requires forall q :: q in ring ==> q in owner
    requires p in ring && owner[p] in accepting
    ensures owner[ring[BoundedIndex(ring, owner, accepting, start)]] in accepting
  {
  }
}
