/** The sorted sequence of ring positions shared by both ring implementations:
    the 32-bit keyspace, sorting (the standard library's sort), the binary
    search for the first position at or past a hash (the standard library's
    sort.Search), and the clockwise wrap-around rule. */
module SortedRing {

  /** A point on the circular 0 .. 2^32 - 1 keyspace. */
  newtype uint32 = x: int | 0 <= x < 0x1_0000_0000

  /** Sorted ascending and free of duplicates. The comparisons are stated on
      At terms, so a proof draws on them only where it names an index pair
      (through Ascends) rather than for every pair of indexed positions. */
  ghost predicate StrictlyAscending(s: seq<uint32>) {
    forall i, j {:trigger At(s, i), At(s, j)} :: 0 <= i < j < |s| ==> At(s, i) < At(s, j)
  }

  /** The position at index i. */
  ghost function At(s: seq<uint32>, i: int): uint32
    requires 0 <= i < |s|
  {
    s[i]
  }

  /** Reads one comparison off a strictly ascending sequence. */
  lemma Ascends(s: seq<uint32>, i: int, j: int)
    requires StrictlyAscending(s)
    requires 0 <= i < j < |s|
    ensures s[i] < s[j]
  {
    assert At(s, i) < At(s, j);
  }

  ghost predicate NoDuplicates(s: seq<uint32>) {
    forall i, j :: 0 <= i < j < |s| ==> s[i] != s[j]
  }

  // ---------------------------------------------------------------------------
  // Sorting (sort.Slice / slices.Sort with the `<` order)
  // ---------------------------------------------------------------------------

  /** Inserts x before the first element not smaller than it. */
  function Insert(x: uint32, s: seq<uint32>): (r: seq<uint32>)
    ensures |r| == |s| + 1
    ensures multiset(r) == multiset(s) + multiset{x}
  {
    if s == [] || x <= s[0] then [x] + s
    else
      assert s == [s[0]] + s[1..];
      [s[0]] + Insert(x, s[1..])
  }

  /** The ascending rearrangement of s (insertion sort). */
  function SortAscending(s: seq<uint32>): (r: seq<uint32>)
    ensures |r| == |s|
    ensures multiset(r) == multiset(s)
  {
    if s == [] then []
    else
      assert s == s[..|s| - 1] + [s[|s| - 1]];
      Insert(s[|s| - 1], SortAscending(s[..|s| - 1]))
  }

  /** The tail of a strictly ascending sequence is strictly ascending. */
  lemma AscendingTail(s: seq<uint32>)
    requires StrictlyAscending(s) && s != []
    ensures StrictlyAscending(s[1..])
  {
    forall i, j | 0 <= i < j < |s| - 1 ensures s[1..][i] < s[1..][j] {
      Ascends(s, i + 1, j + 1);
    }
  }

  /** A prefix of a strictly ascending sequence is strictly ascending. */
  lemma AscendingPrefix(s: seq<uint32>, n: nat)
    requires StrictlyAscending(s) && n <= |s|
    ensures StrictlyAscending(s[..n])
  {
    forall i, j | 0 <= i < j < n ensures s[..n][i] < s[..n][j] {
      Ascends(s, i, j);
    }
  }

  /** A position below every element of a strictly ascending sequence can
      go in front of it. */
  lemma AscendingCons(x: uint32, s: seq<uint32>)
    requires StrictlyAscending(s)
    requires forall k :: 0 <= k < |s| ==> x < s[k]
    ensures StrictlyAscending([x] + s)
  {
    forall i, j | 0 <= i < j < |s| + 1 ensures ([x] + s)[i] < ([x] + s)[j] {
      if 0 < i {
        Ascends(s, i - 1, j - 1);
      }
    }
  }

  /** A position above every element of a strictly ascending sequence can
      go after it. */
  lemma AscendingSnoc(s: seq<uint32>, x: uint32)
    requires StrictlyAscending(s)
    requires forall k :: 0 <= k < |s| ==> s[k] < x
    ensures StrictlyAscending(s + [x])
  {
    forall i, j | 0 <= i < j < |s| + 1 ensures (s + [x])[i] < (s + [x])[j] {
      if j < |s| {
        Ascends(s, i, j);
      }
    }
  }

  /** A strictly ascending sequence has no duplicates. */
  lemma AscendingIsDistinct(s: seq<uint32>)
    requires StrictlyAscending(s)
    ensures NoDuplicates(s)
  {
    forall i, j | 0 <= i < j < |s| ensures s[i] != s[j] {
      Ascends(s, i, j);
    }
  }

  /** Splicing one index out of a strictly ascending sequence keeps it
      strictly ascending and drops exactly the position at that index. */
  lemma SpliceAscending(s: seq<uint32>, idx: nat)
    requires StrictlyAscending(s) && idx < |s|
    ensures StrictlyAscending(s[..idx] + s[idx + 1..])
    ensures forall p :: p in s[..idx] + s[idx + 1..] <==> p in s && p != s[idx]
  {
    var t := s[..idx] + s[idx + 1..];
    assert forall k :: 0 <= k < |t| ==> t[k] == s[if k < idx then k else k + 1];
    forall i, j | 0 <= i < j < |t| ensures t[i] < t[j] {
      Ascends(s, if i < idx then i else i + 1, if j < idx then j else j + 1);
    }
    forall p ensures p in t <==> p in s && p != s[idx] {
      if p in t {
        var k :| 0 <= k < |t| && t[k] == p;
        var k' := if k < idx then k else k + 1;
        if k' < idx {
          Ascends(s, k', idx);
        } else {
          Ascends(s, idx, k');
        }
      }
      if p in s && p != s[idx] {
        var k :| 0 <= k < |s| && s[k] == p;
        assert t[if k < idx then k else k - 1] == p;
      }
    }
  }

  /** The first element of a strictly ascending sequence is its least. */
  lemma Least(s: seq<uint32>, p: uint32)
    requires StrictlyAscending(s) && p in s
    ensures s[0] <= p
  {
    var i :| 0 <= i < |s| && s[i] == p;
    if 0 < i {
      Ascends(s, 0, i);
    }
  }

  /** The tail of a strictly ascending sequence holds every element but the first. */
  lemma TailElements(s: seq<uint32>)
    requires StrictlyAscending(s) && s != []
    ensures forall p :: p in s[1..] <==> p in s && p != s[0]
  {
    forall p | p in s[1..] ensures p != s[0] {
      var i :| 0 <= i < |s| - 1 && s[1..][i] == p;
      Ascends(s, 0, i + 1);
    }
    assert s == [s[0]] + s[1..];
  }

  /** Two strictly ascending sequences holding the same positions are equal. */
  lemma {:induction false} AscendingUnique(a: seq<uint32>, b: seq<uint32>)
    requires StrictlyAscending(a) && StrictlyAscending(b)
    requires forall p :: p in a <==> p in b
    ensures a == b
    decreases |a|
  {
    if a != [] {
      assert a[0] in a;
    }
    if b != [] {
      assert b[0] in b;
    }
    if a != [] {
      Least(a, b[0]);
      Least(b, a[0]);
      TailElements(a);
      TailElements(b);
      AscendingTail(a);
      AscendingTail(b);
      AscendingUnique(a[1..], b[1..]);
      assert a == [a[0]] + a[1..] && b == [b[0]] + b[1..];
    }
  }

  /** Inserting a new position into a strictly ascending sequence keeps it
      strictly ascending. */
  lemma {:induction false} InsertKeepsStrictOrder(x: uint32, s: seq<uint32>)
    requires StrictlyAscending(s)
    requires x !in s
    ensures StrictlyAscending(Insert(x, s))
  {
    if s == [] || x <= s[0] {
      forall k | 0 <= k < |s| ensures x < s[k] {
        if 0 < k {
          Ascends(s, 0, k);
        }
      }
      AscendingCons(x, s);
    } else {
      var t := Insert(x, s[1..]);
      AscendingTail(s);
      InsertKeepsStrictOrder(x, s[1..]);
      forall i | 0 <= i < |t|
        ensures s[0] < t[i]
      {
        assert t[i] in multiset(t);
        assert t[i] in multiset(s[1..]) || t[i] == x;
        if t[i] != x {
          var k :| 0 <= k < |s[1..]| && s[1..][k] == t[i];
          Ascends(s, 0, k + 1);
        }
      }
      AscendingCons(s[0], t);
    }
  }

  /** Sorting a sequence without duplicates yields a strictly ascending
      sequence holding exactly the same positions. */
  lemma {:induction false} SortIsStrictlyAscending(s: seq<uint32>)
    requires NoDuplicates(s)
    ensures StrictlyAscending(SortAscending(s))
    ensures forall p :: p in SortAscending(s) <==> p in s
  {
    var r := SortAscending(s);
    forall p ensures p in r <==> p in s {
      assert p in r <==> p in multiset(r);
      assert p in s <==> p in multiset(s);
    }
    if s != [] {
      var init, x := s[..|s| - 1], s[|s| - 1];
      SortIsStrictlyAscending(init);
      assert x !in init;
      InsertKeepsStrictOrder(x, SortAscending(init));
    }
  }

  // ---------------------------------------------------------------------------
  // Searching (sort.Search with the predicate ring[i] >= h)
  // ---------------------------------------------------------------------------

  /** The least index whose position is at or past h, or |ring| if there is none. */
  function FirstAtLeast(ring: seq<uint32>, h: uint32): (i: nat)
    ensures i <= |ring|
    ensures forall k {:trigger At(ring, k)} :: 0 <= k < i ==> At(ring, k) < h
    ensures i < |ring| ==> ring[i] >= h
  {
    if ring == [] then 0
    else if ring[0] >= h then 0
    else
      var rest := FirstAtLeast(ring[1..], h);
      assert forall k {:trigger At(ring, k)} :: 1 <= k <= rest ==> At(ring, k) == At(ring[1..], k - 1);
      1 + rest
  }

  /** Any index with FirstAtLeast's two properties is FirstAtLeast. */
  lemma {:induction false} FirstAtLeastUnique(ring: seq<uint32>, h: uint32, i: nat)
    requires i <= |ring|
    requires forall k :: 0 <= k < i ==> ring[k] < h
    requires i < |ring| ==> ring[i] >= h
    ensures i == FirstAtLeast(ring, h)
  {
    if ring != [] && ring[0] < h {
      FirstAtLeastUnique(ring[1..], h, i - 1);
    }
  }

  /** Binary search for the first position at or past h, as sort.Search does it. */
  method LowerBound(ring: seq<uint32>, h: uint32) returns (i: nat)
    requires StrictlyAscending(ring)
    ensures i == FirstAtLeast(ring, h)
    ensures forall k :: i <= k < |ring| ==> ring[k] >= h
  {
    var lo, hi := 0, |ring|;
    while lo < hi
      invariant 0 <= lo <= hi <= |ring|
      invariant forall k :: 0 <= k < lo ==> ring[k] < h
      invariant forall k :: hi <= k < |ring| ==> ring[k] >= h
    {
      var mid := (lo + hi) / 2;
      if ring[mid] < h {
        forall k | lo <= k < mid ensures ring[k] < h {
          Ascends(ring, k, mid);
        }
        lo := mid + 1;
      } else {
        forall k | mid < k < hi ensures ring[k] >= h {
          Ascends(ring, mid, k);
        }
        hi := mid;
      }
    }
    FirstAtLeastUnique(ring, h, lo);
    i := lo;
  }

  /** Binary search finds a position that is on the ring at its exact index. */
  lemma SearchFindsPresent(s: seq<uint32>, p: uint32)
    requires StrictlyAscending(s) && p in s
    ensures FirstAtLeast(s, p) < |s| && s[FirstAtLeast(s, p)] == p
  {
    var m :| 0 <= m < |s| && s[m] == p;
    var f := FirstAtLeast(s, p);
    assert At(s, m) == p;
    if f < m {
      Ascends(s, f, m);
    }
  }

  /** The index of the first position clockwise from h: the least position at
      or past h, wrapping to index 0 when every position is smaller than h. */
  function ClockwiseIndex(ring: seq<uint32>, h: uint32): (i: nat)
    requires |ring| > 0
    ensures i < |ring|
    ensures forall k {:trigger At(ring, k)} :: 0 <= k < i ==> At(ring, k) < h
    ensures ring[i] >= h || forall k {:trigger At(ring, k)} :: 0 <= k < |ring| ==> At(ring, k) < h
    ensures ring[i] < h ==> i == 0
  {
    var f := FirstAtLeast(ring, h);
    if f < |ring| then f else 0
  }

  /** The clockwise index is the search index taken modulo the ring size. */
  lemma ClockwiseIsWrappedSearch(ring: seq<uint32>, h: uint32)
    requires |ring| > 0
    ensures ClockwiseIndex(ring, h) == FirstAtLeast(ring, h) % |ring|
  {
    var f, n := FirstAtLeast(ring, h), |ring|;
    if f < n {
      assert f % n == f;
    } else {
      assert n % n == 0;
    }
  }

  /** Clockwise successor is a property of the set of positions: if the
      successor of h in a larger ring also lies in a smaller ring, it is the
      successor of h there too. This is why removing or adding one node's
      positions only moves the keys whose successor was one of them. */
  lemma ClockwiseStable(small: seq<uint32>, big: seq<uint32>, h: uint32)
    requires StrictlyAscending(small) && StrictlyAscending(big)
    requires |small| > 0 && |big| > 0
    requires forall p :: p in small ==> p in big
    requires big[ClockwiseIndex(big, h)] in small
    ensures small[ClockwiseIndex(small, h)] == big[ClockwiseIndex(big, h)]
  {
    var ib, iSmall := ClockwiseIndex(big, h), ClockwiseIndex(small, h);
    var q, q' := big[ib], small[iSmall];
    var m :| 0 <= m < |small| && small[m] == q;
    assert q' in big;
    var j :| 0 <= j < |big| && big[j] == q';
    assert At(small, m) == q && At(big, j) == q';
    if q >= h {
      assert iSmall <= m;
      if iSmall < m {
        Ascends(small, iSmall, m);
      }
      assert q' >= h;
      assert j >= ib;
      if ib < j {
        Ascends(big, ib, j);
      }
    } else {
      assert ib == 0;
      assert iSmall == 0 by {
        if small[iSmall] >= h {
          assert small[iSmall] in big;
        }
      }
      if 0 < j {
        Ascends(big, 0, j);
      }
      if 0 < m {
        Ascends(small, 0, m);
      }
    }
  }
}
