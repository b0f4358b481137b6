/**
 * The vantage-point tree of VPTree.h: `create` copies the items and builds
 * the tree by permuting them in place, `search` finds the k items nearest a
 * target with a bounded max-heap and the pruning radius `tau`.
 *
 * Distances are natural numbers (both distances the repository plugs in,
 * label mismatches and bit differences, are counts), and the radius is
 * `Infinite` until the heap first holds k entries.  The node tree is built
 * once by `create` and never changed afterwards, so it is a datatype; the
 * class's fields `items`, `root`, `heap` and `tau` are what the methods
 * update.
 */
module VPTree {
  import opened FiniteSets

  // ---------------------------------------------------------------------
  // The search radius and the heap

  /** `_tau`: numeric_limits<double>::max() is `Infinite`. */
  datatype Tau = Infinite | Finite(value: nat)

  /** `dist < _tau`. */
  predicate Below(dist: nat, tau: Tau) {
    tau.Infinite? || dist < tau.value
  }

  /** The test `dist - _tau <= threshold` for descending into the inner subtree. */
  predicate InnerReachable(dist: nat, tau: Tau, threshold: nat) {
    tau.Infinite? || dist - tau.value <= threshold
  }

  /** The test `dist + _tau >= threshold` for descending into the outer subtree. */
  predicate OuterReachable(dist: nat, tau: Tau, threshold: nat) {
    tau.Infinite? || dist + tau.value >= threshold
  }

  /** One heap entry: the position of an item in `_items` and its distance to the target. */
  datatype HeapItem = HeapItem(index: int, dist: nat)

  /** HeapItem::operator<, the order of the max-heap. */
  predicate HeapLess(a: HeapItem, b: HeapItem) {
    a.dist < b.dist
  }

  /**
   * The position of top() in the heap's contents: an entry no other entry
   * is greater than (the first such, where std::priority_queue leaves the
   * choice among equal distances open).
   */
  function MaxAt(h: seq<HeapItem>): (r: nat)
    requires |h| > 0
    ensures r < |h|
    ensures forall q :: 0 <= q < |h| ==> !HeapLess(h[r], h[q])
  {
    if |h| == 1 then 0
    else
      var r := MaxAt(h[..|h| - 1]);
      if HeapLess(h[r], h[|h| - 1]) then |h| - 1 else r
  }

  /** top(). */
  function Top(h: seq<HeapItem>): HeapItem
    requires |h| > 0
  {
    h[MaxAt(h)]
  }

  /** The largest distance in the heap. */
  function MaxDist(h: seq<HeapItem>): nat
    requires |h| > 0
  {
    Top(h).dist
  }

  /** pop(): the heap without its top entry. */
  function Pop(h: seq<HeapItem>): (h': seq<HeapItem>)
    requires |h| > 0
    ensures |h'| == |h| - 1
    ensures multiset(h') + multiset{Top(h)} == multiset(h)
    ensures forall a :: 0 <= a < |h'| ==> h'[a] == if a < MaxAt(h) then h[a] else h[a + 1]
  {
    var r := MaxAt(h);
    assert h == h[..r] + [h[r]] + h[r + 1..];
    h[..r] + h[r + 1..]
  }

  /** Every entry of h is an entry of the heap it was popped from. */
  lemma PopSubset(h: seq<HeapItem>)
    requires |h| > 0
    ensures forall x :: x in Pop(h) ==> x in h
  {
    forall x | x in Pop(h) ensures x in h {
      assert x in multiset(Pop(h));
    }
  }

  /** No entry left after pop() is farther than the entry popped. */
  lemma PopBelowTop(h: seq<HeapItem>)
    requires |h| > 0
    ensures forall x :: x in Pop(h) ==> x.dist <= Top(h).dist
  {
    PopSubset(h);
  }

  /** The positions the heap's entries refer to. */
  ghost function Indices(h: seq<HeapItem>): set<int> {
    set e | e in h :: e.index
  }

  /** No two entries of the heap refer to the same position. */
  ghost predicate DistinctIndices(h: seq<HeapItem>) {
    forall a, b :: 0 <= a < b < |h| ==> h[a].index != h[b].index
  }

  /** An entry is in the heap exactly when it is the top or is left after pop(). */
  lemma PopMembers(h: seq<HeapItem>)
    requires |h| > 0
    ensures forall e :: e in h <==> e in Pop(h) || e == Top(h)
  {
    forall e ensures e in h <==> e in Pop(h) || e == Top(h) {
      assert e in h <==> e in multiset(h);
      assert e in Pop(h) <==> e in multiset(Pop(h));
    }
  }

  /** pop() keeps the positions distinct and removes the top's position. */
  lemma PopDistinct(h: seq<HeapItem>)
    requires |h| > 0 && DistinctIndices(h)
    ensures DistinctIndices(Pop(h))
    ensures Indices(h) == Indices(Pop(h)) + {Top(h).index}
    ensures Top(h).index !in Indices(Pop(h))
  {
    var r, h' := MaxAt(h), Pop(h);
    forall e | e in h' ensures e.index != Top(h).index {
      var a :| 0 <= a < |h'| && h'[a] == e;
    }
    PopMembers(h);
  }

  /** Distinct positions: the heap has as many positions as entries. */
  lemma {:induction false} IndicesCard(h: seq<HeapItem>)
    requires DistinctIndices(h)
    ensures |Indices(h)| == |h|
  {
    if |h| > 0 {
      var h0, e := h[..|h| - 1], h[|h| - 1];
      assert h == h0 + [e];
      assert DistinctIndices(h0);
      IndicesCard(h0);
      IndicesSnoc(h0, e);
      forall x | x in h0 ensures x.index != e.index {
        var a :| 0 <= a < |h0| && h0[a] == x;
      }
    }
  }

  lemma IndicesSnoc(h: seq<HeapItem>, e: HeapItem)
    ensures Indices(h + [e]) == Indices(h) + {e.index}
  {
    assert forall x :: x in h + [e] <==> x in h || x == e;
  }

  // ---------------------------------------------------------------------
  // The tree

  /** `Node`: the position of its vantage point, its threshold and its subtrees (null is `Nil`). */
  datatype Node = Nil | Node(index: int, threshold: nat, left: Node, right: Node)

  /** DistanceComparator(item): a is closer to item than b. */
  predicate Closer<T>(distance: (T, T) -> nat, item: T, a: T, b: T) {
    distance(item, a) < distance(item, b)
  }

  /**
   * The tree that buildFromPoints(lo, hi) leaves over the items s: null for
   * an empty range; otherwise the vantage point is s[lo], a one-item range
   * is a leaf, and a longer one is split at median = (lo + hi) / 2 into an
   * inner subtree over [lo+1, median), whose items are within the
   * threshold of the vantage point, and an outer subtree over
   * [median, hi), whose items are at least the threshold away; the
   * threshold is the distance of one of the outer items.
   */
  ghost predicate ValidTree<T>(t: Node, s: seq<T>, lo: int, hi: int, distance: (T, T) -> nat)
    decreases t
  {
    0 <= lo <= hi <= |s| &&
    if lo == hi then t == Nil
    else
      t.Node? && t.index == lo &&
      if hi - lo == 1 then t.left == Nil && t.right == Nil && t.threshold == 0
      else
        var median := (lo + hi) / 2;
        Inner(s, lo, median, distance, t.threshold) &&
        Outer(s, lo, median, hi, distance, t.threshold) &&
        ValidTree(t.left, s, lo + 1, median, distance) &&
        ValidTree(t.right, s, median, hi, distance)
  }

  /** The items s[lo+1 .. median) are within `threshold` of s[lo]. */
  ghost predicate Inner<T>(s: seq<T>, lo: int, median: int, distance: (T, T) -> nat, threshold: nat)
    requires 0 <= lo < median <= |s|
  {
    forall x :: x in s[lo + 1..median] ==> distance(s[lo], x) <= threshold
  }

  /**
   * The items s[median .. hi) are at least `threshold` from s[lo], and one
   * of them is exactly `threshold` away.
   */
  ghost predicate Outer<T>(s: seq<T>, lo: int, median: int, hi: int, distance: (T, T) -> nat, threshold: nat)
    requires 0 <= lo < median < hi <= |s|
  {
    (forall x :: x in s[median..hi] ==> distance(s[lo], x) >= threshold) &&
    (exists x :: x in s[median..hi] && distance(s[lo], x) == threshold)
  }

  /** The vantage-point positions of a tree in pre-order. */
  function Preorder(t: Node): seq<int> {
    if t.Nil? then [] else [t.index] + Preorder(t.left) + Preorder(t.right)
  }

  /** The positions lo, lo+1, ..., hi-1. */
  function Interval(lo: int, hi: int): (r: seq<int>)
    requires lo <= hi
    ensures |r| == hi - lo && forall q :: 0 <= q < |r| ==> r[q] == lo + q
  {
    seq(hi - lo, q => lo + q)
  }

  /**
   * buildFromPoints(lo, hi) gives a null tree exactly when the range is
   * empty, and its vantage points are exactly the positions lo .. hi-1,
   * each once (in pre-order they come in increasing order).
   */
  lemma {:induction false} ValidTreeIndices<T>(t: Node, s: seq<T>, lo: int, hi: int, distance: (T, T) -> nat)
    requires ValidTree(t, s, lo, hi, distance)
    ensures t == Nil <==> lo == hi
    ensures Preorder(t) == Interval(lo, hi)
    decreases t
  {
    if lo < hi && hi - lo > 1 {
      var median := (lo + hi) / 2;
      ValidTreeIndices(t.left, s, lo + 1, median, distance);
      ValidTreeIndices(t.right, s, median, hi, distance);
      assert [lo] + Interval(lo + 1, median) + Interval(median, hi) == Interval(lo, hi);
    }
  }

  /** A tree over [lo, hi) stays valid when nothing in s[lo..hi) changes. */
  lemma {:induction false} ValidTreeFrame<T>(t: Node, s: seq<T>, s': seq<T>, lo: int, hi: int,
                                                distance: (T, T) -> nat)
    requires ValidTree(t, s, lo, hi, distance)
    requires hi <= |s'| && s'[lo..hi] == s[lo..hi]
    ensures ValidTree(t, s', lo, hi, distance)
    decreases t
  {
    if lo < hi && hi - lo > 1 {
      var median := (lo + hi) / 2;
      SliceOfSlice(s, s', lo, hi, lo + 1, median);
      SliceOfSlice(s, s', lo, hi, median, hi);
      assert s'[lo] == s'[lo..hi][0] == s[lo..hi][0] == s[lo];
      ValidTreeFrame(t.left, s, s', lo + 1, median, distance);
      ValidTreeFrame(t.right, s, s', median, hi, distance);
    }
  }

  lemma SliceOfSlice<T>(s: seq<T>, s': seq<T>, lo: int, hi: int, a: int, b: int)
    requires 0 <= lo <= a <= b <= hi <= |s| && hi <= |s'| && s'[lo..hi] == s[lo..hi]
    ensures s'[a..b] == s[a..b]
  {
    forall q | 0 <= q < b - a ensures s'[a..b][q] == s[a..b][q] {
      assert s'[a + q] == s'[lo..hi][a - lo + q];
      assert s[a + q] == s[lo..hi][a - lo + q];
    }
  }

  // ---------------------------------------------------------------------
  // Permutations of a range

  /** t is s with only the entries of the range [lo, hi) permuted among themselves. */
  ghost predicate PermutedOn<T>(s: seq<T>, t: seq<T>, lo: int, hi: int) {
    0 <= lo <= hi <= |s| == |t| &&
    t[..lo] == s[..lo] && t[hi..] == s[hi..] && multiset(t[lo..hi]) == multiset(s[lo..hi])
  }

  lemma SplitMultiset<T>(s: seq<T>, a: int, b: int, c: int)
    requires 0 <= a <= b <= c <= |s|
    ensures multiset(s[a..c]) == multiset(s[a..b]) + multiset(s[b..c])
  {
    assert s[a..c] == s[a..b] + s[b..c];
  }

  /** A permutation of a sub-range is a permutation of any range around it. */
  lemma PermutedWiden<T>(s: seq<T>, t: seq<T>, lo: int, hi: int, lo': int, hi': int)
    requires PermutedOn(s, t, lo, hi) && 0 <= lo' <= lo && hi <= hi' <= |s|
    ensures PermutedOn(s, t, lo', hi')
  {
    assert t[..lo'] == t[..lo][..lo'] && s[..lo'] == s[..lo][..lo'];
    assert t[hi'..] == t[hi..][hi' - hi..] && s[hi'..] == s[hi..][hi' - hi..];
    SplitMultiset(s, lo', lo, hi');
    SplitMultiset(s, lo, hi, hi');
    SplitMultiset(t, lo', lo, hi');
    SplitMultiset(t, lo, hi, hi');
    assert t[lo'..lo] == t[..lo][lo'..] && s[lo'..lo] == s[..lo][lo'..];
    assert t[hi..hi'] == t[hi..][..hi' - hi] && s[hi..hi'] == s[hi..][..hi' - hi];
  }

  lemma PermutedTrans<T>(s: seq<T>, t: seq<T>, u: seq<T>, lo: int, hi: int)
    requires PermutedOn(s, t, lo, hi) && PermutedOn(t, u, lo, hi)
    ensures PermutedOn(s, u, lo, hi)
  {
  }

  /** Exchanging two entries of a range permutes that range. */
  lemma SwapPermutes<T>(s: seq<T>, i: int, j: int, lo: int, hi: int)
    requires 0 <= lo <= i < hi <= |s| && lo <= j < hi
    ensures PermutedOn(s, s[i := s[j]][j := s[i]], lo, hi)
  {
    var r := s[lo..hi];
    SwapWindow(s, i, j, lo, hi);
    SwapMultiset(r, i - lo, j - lo);
  }

  lemma SwapWindow<T>(s: seq<T>, i: int, j: int, lo: int, hi: int)
    requires 0 <= lo <= i < hi <= |s| && lo <= j < hi
    ensures var t, r := s[i := s[j]][j := s[i]], s[lo..hi];
      t[..lo] == s[..lo] && t[hi..] == s[hi..] &&
      t[lo..hi] == r[i - lo := r[j - lo]][j - lo := r[i - lo]]
  {
  }

  lemma SwapMultiset<T>(r: seq<T>, a: int, b: int)
    requires 0 <= a < |r| && 0 <= b < |r|
    ensures multiset(r[a := r[b]][b := r[a]]) == multiset(r)
  {
    if a < b {
      SwapOrdered(r, a, b);
    } else if b < a {
      SwapOrdered(r, b, a);
      assert r[a := r[b]][b := r[a]] == r[b := r[a]][a := r[b]];
    }
  }

  lemma SwapOrdered<T>(r: seq<T>, a: int, b: int)
    requires 0 <= a < b < |r|
    ensures multiset(r[a := r[b]][b := r[a]]) == multiset(r)
  {
    var u := r[a := r[b]][b := r[a]];
    assert r == r[..a] + [r[a]] + r[a + 1..b] + [r[b]] + r[b + 1..];
    assert u == r[..a] + [r[b]] + r[a + 1..b] + [r[a]] + r[b + 1..];
  }

  /** Membership in a range is kept by a permutation of it. */
  lemma PermutedMembers<T>(s: seq<T>, t: seq<T>, lo: int, hi: int)
    requires PermutedOn(s, t, lo, hi)
    ensures forall x :: x in t[lo..hi] <==> x in s[lo..hi]
  {
    forall x ensures x in t[lo..hi] <==> x in s[lo..hi] {
      assert x in t[lo..hi] <==> x in multiset(t[lo..hi]);
      assert x in s[lo..hi] <==> x in multiset(s[lo..hi]);
    }
  }

  // ---------------------------------------------------------------------
  // The state of a search

  /** The distance is symmetric and obeys the triangle inequality on xs. */
  ghost predicate MetricOn<T>(distance: (T, T) -> nat, xs: seq<T>) {
    (forall a, b :: a in xs && b in xs ==> distance(a, b) == distance(b, a)) &&
    (forall a, b, c :: a in xs && b in xs && c in xs ==> distance(a, c) <= distance(a, b) + distance(b, c))
  }

  /** The positions lo, lo+1, ..., hi-1 as a set. */
  ghost function Span(lo: int, hi: int): (r: set<int>)
    ensures forall p :: p in r <==> lo <= p < hi
    decreases hi - lo
  {
    if lo >= hi then {} else Span(lo, hi - 1) + {hi - 1}
  }

  lemma {:induction false} SpanCard(lo: int, hi: int)
    requires lo <= hi
    ensures |Span(lo, hi)| == hi - lo
    decreases hi - lo
  {
    if lo < hi {
      SpanCard(lo, hi - 1);
      assert Span(lo, hi) == Span(lo, hi - 1) + {hi - 1};
    }
  }

  /** Every heap entry names a position of `items` and holds its distance to the target. */
  ghost predicate Entries<T>(h: seq<HeapItem>, items: seq<T>, distance: (T, T) -> nat, target: T) {
    forall e :: e in h ==> 0 <= e.index < |items| && e.dist == distance(items[e.index], target)
  }

  /**
   * What holds between the recursive calls of search, once the positions in
   * `seen` have been visited or pruned: the heap holds at most k distinct
   * seen positions with their distances; while it holds fewer than k, tau is
   * infinite and every seen position is in it; once it holds k, tau is its
   * largest distance; and, for a metric, no seen position left out of the
   * heap is closer than tau.
   */
  ghost predicate SearchState<T>(items: seq<T>, distance: (T, T) -> nat, target: T, k: nat,
                                 heap: seq<HeapItem>, tau: Tau, seen: set<int>) {
    |heap| <= k &&
    Entries(heap, items, distance, target) &&
    DistinctIndices(heap) &&
    Indices(heap) <= seen &&
    (forall p :: p in seen ==> 0 <= p < |items|) &&
    (|heap| < k ==> tau == Infinite && seen <= Indices(heap)) &&
    (0 < k == |heap| ==> tau == Finite(MaxDist(heap))) &&
    (MetricOn(distance, items + [target]) ==>
       forall p :: p in seen && p !in Indices(heap) ==> tau.Finite? && distance(items[p], target) >= tau.value)
  }

  /**
   * While the heap holds fewer than k entries tau is still infinite, so
   * both pruning tests pass and every node is visited.
   */
  lemma FillingVisitsBoth<T>(items: seq<T>, distance: (T, T) -> nat, target: T, k: nat,
                             heap: seq<HeapItem>, tau: Tau, seen: set<int>, dist: nat, threshold: nat)
    requires SearchState(items, distance, target, k, heap, tau, seen) && |heap| < k
    ensures InnerReachable(dist, tau, threshold) && OuterReachable(dist, tau, threshold)
  {
  }

  /** An item no closer than tau is seen and left out: the state still holds. */
  lemma OfferSkipped<T>(items: seq<T>, distance: (T, T) -> nat, target: T, k: nat,
                        heap: seq<HeapItem>, tau: Tau, seen: set<int>, index: int, dist: nat)
    requires SearchState(items, distance, target, k, heap, tau, seen)
    requires 0 <= index < |items| && index !in seen && dist == distance(items[index], target)
    requires !Below(dist, tau)
    ensures SearchState(items, distance, target, k, heap, tau, seen + {index})
  {
  }

  /** An item closer than tau goes into a heap that is not full. */
  lemma OfferGrows<T>(items: seq<T>, distance: (T, T) -> nat, target: T, k: nat,
                      heap: seq<HeapItem>, tau: Tau, seen: set<int>, index: int, dist: nat)
    requires SearchState(items, distance, target, k, heap, tau, seen)
    requires 0 <= index < |items| && index !in seen && dist == distance(items[index], target)
    requires |heap| < k
    ensures var h := heap + [HeapItem(index, dist)];
      SearchState(items, distance, target, k, h, if |h| == k then Finite(MaxDist(h)) else tau, seen + {index})
  {
    var e := HeapItem(index, dist);
    var h := heap + [e];
    assert Indices(h) == Indices(heap) + {index} by {
      assert forall x :: x in h <==> x in heap || x == e;
    }
    forall a, b | 0 <= a < b < |h| ensures h[a].index != h[b].index {
      if b == |heap| {
        assert h[a] in heap;
      }
    }
  }

  /**
   * An item closer than tau replaces the top of a full heap; tau becomes the
   * new largest distance, which is no larger than the old one.
   */
  lemma OfferReplaces<T>(items: seq<T>, distance: (T, T) -> nat, target: T, k: nat,
                         heap: seq<HeapItem>, tau: Tau, seen: set<int>, index: int, dist: nat)
    requires SearchState(items, distance, target, k, heap, tau, seen)
    requires 0 <= index < |items| && index !in seen && dist == distance(items[index], target)
    requires 0 < k == |heap| && Below(dist, tau)
    ensures var h := Pop(heap) + [HeapItem(index, dist)];
      SearchState(items, distance, target, k, h, Finite(MaxDist(h)), seen + {index}) &&
      MaxDist(h) <= MaxDist(heap)
  {
    var e := HeapItem(index, dist);
    var h1 := Pop(heap);
    var h := h1 + [e];
    PopMembers(heap);
    PopDistinct(heap);
    assert forall x :: x in h <==> x in h1 || x == e;
    assert Indices(h) == Indices(h1) + {index};
    forall a, b | 0 <= a < b < |h| ensures h[a].index != h[b].index {
      if b == |h1| {
        assert h[a] in h1;
      }
    }
    var top := Top(heap);
    assert MaxDist(h) <= MaxDist(heap) by {
      assert Top(h) in h;
      PopBelowTop(heap);
    }
    if MetricOn(distance, items + [target]) {
      forall p | p in seen + {index} && p !in Indices(h)
        ensures distance(items[p], target) >= MaxDist(h)
      {
        if p == top.index {
          assert top in heap;
        }
      }
    }
  }

  /** A range pruned while tau is finite is seen without touching the heap. */
  lemma PruneKeeps<T>(items: seq<T>, distance: (T, T) -> nat, target: T, k: nat,
                      heap: seq<HeapItem>, tau: Tau, seen: set<int>, a: int, b: int)
    requires SearchState(items, distance, target, k, heap, tau, seen)
    requires tau.Finite? && 0 <= a <= b <= |items|
    requires forall p :: a <= p < b ==> p !in seen
    requires MetricOn(distance, items + [target]) ==>
               forall p :: a <= p < b ==> distance(items[p], target) >= tau.value
    ensures SearchState(items, distance, target, k, heap, tau, seen + Span(a, b))
  {
  }

  /**
   * The inner test fails (dist - tau > threshold): by the triangle inequality
   * every inner item is farther from the target than tau.
   */
  lemma InnerPruned<T>(s: seq<T>, distance: (T, T) -> nat, target: T, lo: int, median: int,
                       threshold: nat, dist: nat, tau: nat)
    requires 0 <= lo < median <= |s| && Inner(s, lo, median, distance, threshold)
    requires dist == distance(s[lo], target) && dist - tau > threshold
    ensures MetricOn(distance, s + [target]) ==>
              forall p :: lo + 1 <= p < median ==> distance(s[p], target) > tau
  {
    if MetricOn(distance, s + [target]) {
      var all := s + [target];
      assert s[lo] == all[lo] && target == all[|s|];
      forall p | lo + 1 <= p < median ensures distance(s[p], target) > tau {
        assert s[p] == s[lo + 1..median][p - lo - 1] && s[p] == all[p];
        assert distance(s[lo], target) <= distance(s[lo], s[p]) + distance(s[p], target);
      }
    }
  }

  /**
   * The outer test fails (dist + tau < threshold): by the triangle inequality
   * and symmetry every outer item is farther from the target than tau.
   */
  lemma OuterPruned<T>(s: seq<T>, distance: (T, T) -> nat, target: T, lo: int, median: int, hi: int,
                       threshold: nat, dist: nat, tau: nat)
    requires 0 <= lo < median < hi <= |s| && Outer(s, lo, median, hi, distance, threshold)
    requires dist == distance(s[lo], target) && dist + tau < threshold
    ensures MetricOn(distance, s + [target]) ==>
              forall p :: median <= p < hi ==> distance(s[p], target) > tau
  {
    if MetricOn(distance, s + [target]) {
      var all := s + [target];
      assert s[lo] == all[lo] && target == all[|s|];
      forall p | median <= p < hi ensures distance(s[p], target) > tau {
        assert s[p] == s[median..hi][p - median] && s[p] == all[p];
        assert distance(s[lo], s[p]) <= distance(s[lo], target) + distance(target, s[p]);
        assert distance(target, s[p]) == distance(s[p], target);
      }
    }
  }

  // ---------------------------------------------------------------------
  // Building

  /**
   * The selection loop has placed its first pos - first slots: none of
   * them is farther from the pivot than any slot after it in the range.
   */
  ghost predicate SelectedUpTo<T>(s: seq<T>, distance: (T, T) -> nat, pivot: T, first: int, pos: int, last: int)
    requires 0 <= first <= pos <= last <= |s|
  {
    forall a, b :: first <= a < pos && a < b < last ==> distance(pivot, s[a]) <= distance(pivot, s[b])
  }

  /** What the two recursive builds leave: a valid node, the range permuted. */
  lemma BuildFacts<T>(s1: seq<T>, s2: seq<T>, s3: seq<T>, distance: (T, T) -> nat,
                      lower: int, median: int, upper: int, threshold: nat, left: Node, right: Node)
    requires 0 <= lower < median < upper <= |s1|
    requires threshold == distance(s1[lower], s1[median])
    requires forall a :: lower + 1 <= a < median ==> !Closer(distance, s1[lower], s1[median], s1[a])
    requires forall b :: median < b < upper ==> !Closer(distance, s1[lower], s1[b], s1[median])
    requires PermutedOn(s1, s2, lower + 1, median) && ValidTree(left, s2, lower + 1, median, distance)
    requires PermutedOn(s2, s3, median, upper) && ValidTree(right, s3, median, upper, distance)
    requires median == (lower + upper) / 2
    ensures ValidTree(Node(lower, threshold, left, right), s3, lower, upper, distance)
    ensures PermutedOn(s1, s3, lower + 1, upper)
  {
    BuildSlices(s1, s2, s3, lower, median, upper);
    ValidTreeFrame(left, s2, s3, lower + 1, median, distance);
    BuildInner(s1, s2, s3, distance, lower, median, threshold);
    BuildOuter(s1, s2, s3, distance, lower, median, upper, threshold);
    PermutedWiden(s1, s2, lower + 1, median, lower + 1, upper);
    PermutedWiden(s2, s3, median, upper, lower + 1, upper);
  }

  /** The slices the two builds leave alone. */
  lemma BuildSlices<T>(s1: seq<T>, s2: seq<T>, s3: seq<T>, lower: int, median: int, upper: int)
    requires 0 <= lower < median < upper <= |s1|
    requires PermutedOn(s1, s2, lower + 1, median) && PermutedOn(s2, s3, median, upper)
    ensures s3[lower] == s1[lower]
    ensures s3[lower + 1..median] == s2[lower + 1..median]
    ensures s2[median..upper] == s1[median..upper]
  {
    assert s2[lower] == s2[..lower + 1][lower] == s1[..lower + 1][lower] == s1[lower];
    assert s3[lower] == s3[..median][lower] == s2[..median][lower] == s2[lower];
    assert s3[lower + 1..median] == s3[..median][lower + 1..] == s2[..median][lower + 1..];
    assert s2[median..upper] == s2[median..][..upper - median] == s1[median..][..upper - median];
  }

  /** The inner items stay within the threshold of the vantage point. */
  lemma BuildInner<T>(s1: seq<T>, s2: seq<T>, s3: seq<T>, distance: (T, T) -> nat,
                      lower: int, median: int, threshold: nat)
    requires 0 <= lower < median <= |s1| && |s2| == |s1| && |s3| == |s1|
    requires forall a :: lower + 1 <= a < median ==> distance(s1[lower], s1[a]) <= threshold
    requires PermutedOn(s1, s2, lower + 1, median)
    requires s3[lower] == s1[lower] && s3[lower + 1..median] == s2[lower + 1..median]
    ensures Inner(s3, lower, median, distance, threshold)
  {
    PermutedMembers(s1, s2, lower + 1, median);
    forall x | x in s3[lower + 1..median] ensures distance(s3[lower], x) <= threshold {
      var a :| 0 <= a < median - lower - 1 && s1[lower + 1..median][a] == x;
      assert s1[lower + 1 + a] == x;
    }
  }

  /** The outer items stay at least the threshold away, and one is exactly that far. */
  lemma BuildOuter<T>(s1: seq<T>, s2: seq<T>, s3: seq<T>, distance: (T, T) -> nat,
                      lower: int, median: int, upper: int, threshold: nat)
    requires 0 <= lower < median < upper <= |s1| && |s2| == |s1| && |s3| == |s1|
    requires threshold == distance(s1[lower], s1[median])
    requires forall b :: median < b < upper ==> !Closer(distance, s1[lower], s1[b], s1[median])
    requires PermutedOn(s2, s3, median, upper)
    requires s3[lower] == s1[lower] && s2[median..upper] == s1[median..upper]
    ensures Outer(s3, lower, median, upper, distance, threshold)
  {
    PermutedMembers(s2, s3, median, upper);
    forall x | x in s3[median..upper] ensures distance(s3[lower], x) >= threshold {
      var b :| 0 <= b < upper - median && s1[median..upper][b] == x;
      assert s1[median + b] == x;
    }
    assert s1[median..upper][0] == s1[median];
  }

  /** A null tree covers no positions. */
  lemma NilSpan<T>(t: Node, s: seq<T>, lo: int, hi: int, distance: (T, T) -> nat)
    requires ValidTree(t, s, lo, hi, distance) && t == Nil
    ensures Span(lo, hi) == {}
  {
    ValidTreeIndices(t, s, lo, hi, distance);
  }

  /** A node without children covers only its own position. */
  lemma LeafSpan<T>(t: Node, s: seq<T>, lo: int, hi: int, distance: (T, T) -> nat)
    requires ValidTree(t, s, lo, hi, distance) && t.Node? && t.left == Nil && t.right == Nil
    ensures hi == lo + 1 && t.index == lo && Span(lo, hi) == {lo}
  {
  }

  /** The positions of a node's range: its own, the inner ones and the outer ones. */
  lemma SpanSplit(lo: int, hi: int)
    requires hi - lo > 1
    ensures Span(lo, hi) == {lo} + Span(lo + 1, (lo + hi) / 2) + Span((lo + hi) / 2, hi)
  {
  }

  function Min(a: int, b: int): int {
    if a <= b then a else b
  }

  /** std::reverse. */
  function Reverse<X>(s: seq<X>): (r: seq<X>)
    ensures |r| == |s| && forall i :: 0 <= i < |s| ==> r[i] == s[|s| - 1 - i]
  {
    seq(|s|, i requires 0 <= i < |s| => s[|s| - 1 - i])
  }

  lemma ReverseMembers<X>(s: seq<X>, x: X)
    ensures x in Reverse(s) <==> x in s
  {
    if x in s {
      var i :| 0 <= i < |s| && s[i] == x;
      assert Reverse(s)[|s| - 1 - i] == x;
    }
  }

  /**
   * Once every position of n items has been seen, the heap holds
   * min(k, n) entries.
   */
  lemma HeapSize<T>(items: seq<T>, distance: (T, T) -> nat, target: T, k: nat, heap: seq<HeapItem>, tau: Tau)
    requires SearchState(items, distance, target, k, heap, tau, Span(0, |items|))
    ensures |heap| == Min(k, |items|)
  {
    IndicesCard(heap);
    SpanCard(0, |items|);
    SubsetCard(Indices(heap), Span(0, |items|));
    if |heap| < k {
      assert Indices(heap) == Span(0, |items|);
    }
  }

  /**
   * The answer of a k-nearest search, m = min(k, n) items: each is an item of
   * `items` with its distance to the target, at distinct positions, in
   * non-decreasing distance; for a metric no other item is closer than any
   * item returned.
   */
  ghost predicate Answer<T>(items: seq<T>, distance: (T, T) -> nat, target: T, m: int,
                            results: seq<T>, distances: seq<nat>, positions: seq<int>) {
    Ranked(items, distance, target, m, results, distances, positions) &&
    (MetricOn(distance, items + [target]) ==> NoneCloser(items, distance, target, distances, positions))
  }

  /** m items of `items` at distinct positions with their distances, nearest first. */
  ghost predicate Ranked<T>(items: seq<T>, distance: (T, T) -> nat, target: T, m: int,
                            results: seq<T>, distances: seq<nat>, positions: seq<int>) {
    |results| == |distances| == |positions| == m &&
    (forall i :: 0 <= i < m ==>
       0 <= positions[i] < |items| && results[i] == items[positions[i]] &&
       distances[i] == distance(results[i], target)) &&
    (forall i, j :: 0 <= i < j < m ==> distances[i] <= distances[j]) &&
    (forall i, j :: 0 <= i < j < m ==> positions[i] != positions[j])
  }

  /** No item at a position left out is closer than any distance listed. */
  ghost predicate NoneCloser<T>(items: seq<T>, distance: (T, T) -> nat, target: T,
                                distances: seq<nat>, positions: seq<int>) {
    forall p, i :: 0 <= p < |items| && p !in positions && 0 <= i < |distances| ==>
      distances[i] <= distance(items[p], target)
  }

  /**
   * Part way through draining h0: the entries taken off so far, farthest
   * first, are entries of h0 at distinct positions, and none is closer than
   * an entry still in the heap.
   */
  ghost predicate DrainState<T>(items: seq<T>, distance: (T, T) -> nat, target: T, h0: seq<HeapItem>,
                                heap: seq<HeapItem>, results: seq<T>, distances: seq<nat>, positions: seq<int>) {
    Entries(heap, items, distance, target) && DistinctIndices(heap) &&
    |results| == |distances| == |positions| && |positions| + |heap| == |h0| &&
    (forall e :: e in heap ==> e in h0) &&
    (forall i :: 0 <= i < |positions| ==>
       0 <= positions[i] < |items| && results[i] == items[positions[i]] &&
       HeapItem(positions[i], distances[i]) in h0) &&
    (forall i, j :: 0 <= i < j < |distances| ==> distances[i] >= distances[j]) &&
    (forall i, e :: 0 <= i < |distances| && e in heap ==> distances[i] >= e.dist && positions[i] != e.index) &&
    (forall i, j :: 0 <= i < j < |positions| ==> positions[i] != positions[j]) &&
    (forall p :: p in Indices(h0) ==> p in positions || p in Indices(heap))
  }

  /** Taking the top off keeps the drain state. */
  lemma DrainStep<T>(items: seq<T>, distance: (T, T) -> nat, target: T, h0: seq<HeapItem>,
                     heap: seq<HeapItem>, results: seq<T>, distances: seq<nat>, positions: seq<int>)
    requires DrainState(items, distance, target, h0, heap, results, distances, positions) && |heap| > 0
    ensures var top := Top(heap);
      0 <= top.index < |items| &&
      DrainState(items, distance, target, h0, Pop(heap), results + [items[top.index]],
                 distances + [top.dist], positions + [top.index])
  {
    PopMembers(heap);
    PopDistinct(heap);
    PopBelowTop(heap);
    assert Top(heap) in heap;
  }

  /** Reversing the drained entries gives the answer of the search. */
  lemma AnswerOfDrained<T>(items: seq<T>, distance: (T, T) -> nat, target: T, k: nat,
                           h0: seq<HeapItem>, tau: Tau, down: seq<T>, downDist: seq<nat>, downPos: seq<int>)
    requires SearchState(items, distance, target, k, h0, tau, Span(0, |items|))
    requires DrainState(items, distance, target, h0, [], down, downDist, downPos)
    ensures Answer(items, distance, target, Min(k, |items|), Reverse(down), Reverse(downDist), Reverse(downPos))
  {
    HeapSize(items, distance, target, k, h0, tau);
    ReversedEntries(items, distance, target, h0, down, downDist, downPos);
    ReversedOrder(items, distance, target, h0, down, downDist, downPos);
    if MetricOn(distance, items + [target]) {
      FarOutside(items, distance, target, k, h0, tau);
      ReversedComplete(items, distance, target, h0, down, downDist, downPos);
    }
  }

  lemma ReversedEntries<T>(items: seq<T>, distance: (T, T) -> nat, target: T,
                           h0: seq<HeapItem>, down: seq<T>, downDist: seq<nat>, downPos: seq<int>)
    requires Entries(h0, items, distance, target)
    requires DrainState(items, distance, target, h0, [], down, downDist, downPos)
    ensures var results, distances, positions := Reverse(down), Reverse(downDist), Reverse(downPos);
      forall i :: 0 <= i < |positions| ==>
        0 <= positions[i] < |items| && results[i] == items[positions[i]] &&
        distances[i] == distance(results[i], target)
  {
    var m := |downPos|;
    forall i | 0 <= i < m
      ensures Reverse(downDist)[i] == distance(Reverse(down)[i], target)
    {
      assert HeapItem(downPos[m - 1 - i], downDist[m - 1 - i]) in h0;
    }
  }

  lemma ReversedOrder<T>(items: seq<T>, distance: (T, T) -> nat, target: T,
                         h0: seq<HeapItem>, down: seq<T>, downDist: seq<nat>, downPos: seq<int>)
    requires DrainState(items, distance, target, h0, [], down, downDist, downPos)
    ensures var distances, positions := Reverse(downDist), Reverse(downPos);
      (forall i, j :: 0 <= i < j < |distances| ==> distances[i] <= distances[j]) &&
      (forall i, j :: 0 <= i < j < |positions| ==> positions[i] != positions[j])
  {
    var m := |downPos|;
    forall i, j | 0 <= i < j < m ensures Reverse(downDist)[i] <= Reverse(downDist)[j] {
      assert downDist[m - 1 - j] >= downDist[m - 1 - i];
    }
    forall i, j | 0 <= i < j < m ensures Reverse(downPos)[i] != Reverse(downPos)[j] {
      assert downPos[m - 1 - j] != downPos[m - 1 - i];
    }
  }

  lemma ReversedComplete<T>(items: seq<T>, distance: (T, T) -> nat, target: T,
                            h0: seq<HeapItem>, down: seq<T>, downDist: seq<nat>, downPos: seq<int>)
    requires DrainState(items, distance, target, h0, [], down, downDist, downPos)
    requires |h0| > 0 ==> forall p :: 0 <= p < |items| && p !in Indices(h0) ==> distance(items[p], target) >= MaxDist(h0)
    ensures NoneCloser(items, distance, target, Reverse(downDist), Reverse(downPos))
  {
    var m := |downPos|;
    if m > 0 {
      HeapBound(h0);
      forall p, i | 0 <= p < |items| && p !in Reverse(downPos) && 0 <= i < m
        ensures Reverse(downDist)[i] <= distance(items[p], target)
      {
        ReverseMembers(downPos, p);
        assert p !in Indices(h0);
        assert HeapItem(downPos[m - 1 - i], downDist[m - 1 - i]) in h0;
      }
    }
  }

  /**
   * For a metric, once every position is seen, a position the heap left out
   * is no closer than the heap's farthest entry.
   */
  lemma FarOutside<T>(items: seq<T>, distance: (T, T) -> nat, target: T, k: nat, h0: seq<HeapItem>, tau: Tau)
    requires SearchState(items, distance, target, k, h0, tau, Span(0, |items|))
    requires MetricOn(distance, items + [target])
    ensures |h0| > 0 ==> forall p :: 0 <= p < |items| && p !in Indices(h0) ==> distance(items[p], target) >= MaxDist(h0)
  {
    if |h0| > 0 {
      forall p | 0 <= p < |items| && p !in Indices(h0) ensures distance(items[p], target) >= MaxDist(h0) {
        assert p in Span(0, |items|);
      }
    }
  }

  /** No entry of a heap is farther than its top. */
  lemma HeapBound(h: seq<HeapItem>)
    requires |h| > 0
    ensures forall e :: e in h ==> e.dist <= MaxDist(h)
  {
    forall e | e in h ensures e.dist <= MaxDist(h) {
      var q :| 0 <= q < |h| && h[q] == e;
    }
  }

  /** The positions of s as a set. */
  ghost function Elems(s: seq<int>): (r: set<int>)
    ensures forall x :: x in r <==> x in s
  {
    if |s| == 0 then {} else Elems(s[..|s| - 1]) + {s[|s| - 1]}
  }

  lemma {:induction false} ElemsCard(s: seq<int>)
    ensures |Elems(s)| <= |s|
    ensures (forall i, j :: 0 <= i < j < |s| ==> s[i] != s[j]) ==> |Elems(s)| == |s|
  {
    if |s| > 0 {
      var s0 := s[..|s| - 1];
      ElemsCard(s0);
      if forall i, j :: 0 <= i < j < |s| ==> s[i] != s[j] {
        assert forall i, j :: 0 <= i < j < |s0| ==> s0[i] != s0[j];
        assert s[|s| - 1] !in s0;
      }
    }
  }

  /**
   * For a metric, two answers of the same size have the same distances:
   * the k smallest distances are determined, so the tree's answer and a
   * linear scan's agree.
   */
  lemma AnswersAgree<T>(items: seq<T>, distance: (T, T) -> nat, target: T, m: int,
                        r1: seq<T>, d1: seq<nat>, p1: seq<int>, r2: seq<T>, d2: seq<nat>, p2: seq<int>)
    requires MetricOn(distance, items + [target])
    requires Answer(items, distance, target, m, r1, d1, p1)
    requires Answer(items, distance, target, m, r2, d2, p2)
    ensures d1 == d2
  {
    forall i | 0 <= i < m ensures d1[i] == d2[i] {
      if d1[i] < d2[i] {
        NotSmaller(items, distance, target, m, r1, d1, p1, r2, d2, p2, i);
      } else if d2[i] < d1[i] {
        NotSmaller(items, distance, target, m, r2, d2, p2, r1, d1, p1, i);
      }
    }
  }

  /**
   * The i-th distance of one answer is not below that of another: else the
   * i + 1 positions up to i of the first would all be among the first i
   * positions of the second.
   */
  lemma NotSmaller<T>(items: seq<T>, distance: (T, T) -> nat, target: T, m: int,
                      r1: seq<T>, d1: seq<nat>, p1: seq<int>, r2: seq<T>, d2: seq<nat>, p2: seq<int>, i: int)
    requires Ranked(items, distance, target, m, r1, d1, p1)
    requires Ranked(items, distance, target, m, r2, d2, p2) && NoneCloser(items, distance, target, d2, p2)
    requires 0 <= i < m
    ensures d2[i] <= d1[i]
  {
    if d1[i] < d2[i] {
      var first, second := p1[..i + 1], p2[..i];
      forall x | x in Elems(first) ensures x in Elems(second) {
        var j :| 0 <= j <= i && p1[j] == x;
        assert d1[j] <= d1[i];
        assert x in p2;
        var l :| 0 <= l < m && p2[l] == x;
        assert l < i;
        assert second[l] == x;
      }
      ElemsCard(first);
      ElemsCard(second);
      SubsetCard(Elems(first), Elems(second));
    }
  }

  // ---------------------------------------------------------------------
  // The class

  /**
   * VpTree<T, distance>: the items in the order the build leaves them, the
   * node tree, the heap of the current search and its radius.
   */
  class VpTree<T> {
    const distance: (T, T) -> nat
    var items: seq<T>
    var root: Node
    var heap: seq<HeapItem>
    var tau: Tau

    /** The node tree is the one buildFromPoints leaves over all items. */
    ghost predicate Valid()
      reads this
    {
      ValidTree(root, items, 0, |items|, distance)
    }

    /** VpTree(): no items, a null root, an empty heap. */
    constructor (distance: (T, T) -> nat)
      ensures this.distance == distance
      ensures items == [] && root == Nil && heap == [] && tau == Infinite
      ensures Valid()
    {
      this.distance := distance;
      items := [];
      root := Nil;
      heap := [];
      tau := Infinite;
    }

    /** create: copy the items and build the tree over all of them. */
    method Create(input: seq<T>)
      modifies this`items, this`root
      ensures Valid()
      ensures |items| == |input| && multiset(items) == multiset(input)
    {
      items := input;
      root := BuildFromPoints(0, |items|);
      assert items[0..|items|] == items && input[0..|input|] == input;
    }

    /**
     * buildFromPoints(lower, upper): permutes only items[lower..upper) and
     * returns the tree over that range.
     */
    method BuildFromPoints(lower: int, upper: int) returns (node: Node)
      requires 0 <= lower <= upper <= |items|
      modifies this`items
      ensures PermutedOn(old(items), items, lower, upper)
      ensures ValidTree(node, items, lower, upper, distance)
      decreases upper - lower
    {
      if upper == lower {
        return Nil;
      }
      if upper - lower == 1 {
        return Node(lower, 0, Nil, Nil);
      }
      ghost var s0 := items;
      // the pivot: an arbitrary position of the range
      var i :| lower <= i < upper;
      items := items[lower := items[i]][i := items[lower]];
      SwapPermutes(s0, lower, i, lower, upper);
      ghost var sA := items;
      var median := (upper + lower) / 2;
      NthElement(items[lower], lower + 1, median, upper);
      ghost var s1 := items;
      assert s1[lower] == s1[..lower + 1][lower] == sA[..lower + 1][lower] == sA[lower];
      var threshold := distance(items[lower], items[median]);
      var left := BuildFromPoints(lower + 1, median);
      ghost var s2 := items;
      var right := BuildFromPoints(median, upper);
      node := Node(lower, threshold, left, right);
      BuildFacts(s1, s2, items, distance, lower, median, upper, threshold, left, right);
      PermutedWiden(sA, s1, lower + 1, upper, lower, upper);
      PermutedWiden(s1, items, lower + 1, upper, lower, upper);
    }

    /**
     * std::nth_element(first, nth, last, DistanceComparator(pivot)): the
     * range is permuted so that no item before nth is farther from the pivot
     * than items[nth] and none after it is closer.  It is carried out as a
     * selection of the nth - first + 1 closest items.
     */
    method NthElement(pivot: T, first: int, nth: int, last: int)
      requires 0 <= first <= nth < last <= |items|
      modifies this`items
      ensures PermutedOn(old(items), items, first, last)
      ensures forall a :: first <= a < nth ==> !Closer(distance, pivot, items[nth], items[a])
      ensures forall b :: nth < b < last ==> !Closer(distance, pivot, items[b], items[nth])
    {
      var pos := first;
      while pos <= nth
        invariant first <= pos <= nth + 1 && |items| == |old(items)|
        invariant PermutedOn(old(items), items, first, last)
        invariant SelectedUpTo(items, distance, pivot, first, pos, last)
      {
        ghost var s := items;
        SelectStep(pivot, first, pos, last);
        PermutedTrans(old(items), s, items, first, last);
        pos := pos + 1;
      }
    }

    /** One round of the selection: the closest remaining item moves to pos. */
    method SelectStep(pivot: T, first: int, pos: int, last: int)
      requires 0 <= first <= pos < last <= |items|
      requires SelectedUpTo(items, distance, pivot, first, pos, last)
      modifies this`items
      ensures PermutedOn(old(items), items, first, last)
      ensures SelectedUpTo(items, distance, pivot, first, pos + 1, last)
    {
      var m := ClosestFrom(pivot, pos, last);
      ghost var s := items;
      items := items[pos := items[m]][m := items[pos]];
      SwapPermutes(s, pos, m, first, last);
      forall a, b | first <= a < pos + 1 && a < b < last
        ensures distance(pivot, items[a]) <= distance(pivot, items[b])
      {
        if a < pos {
          assert items[a] == s[a];
          assert items[b] == s[b] || items[b] == s[m] || items[b] == s[pos];
        }
      }
    }

    /**
     * The public search(target, k, results, distances): the min(k, n) items
     * nearest the target, in non-decreasing distance, each with its
     * distance.  For a metric no item left out is closer than any item
     * returned, so the answer is that of a linear scan up to ties.
     */
    method Search(target: T, k: nat) returns (results: seq<T>, distances: seq<nat>, ghost positions: seq<int>)
      requires Valid()
      requires k >= 1 || root == Nil
      modifies this`heap, this`tau
      ensures Answer(items, distance, target, Min(k, |items|), results, distances, positions)
      ensures heap == []
    {
      heap := [];
      tau := Infinite;
      ghost var seen := SearchNode(root, target, k, 0, |items|, {});
      ghost var h0, tau0 := heap, tau;
      var down, downDist, downPos := Drain(target);
      results := Reverse(down);
      distances := Reverse(downDist);
      positions := Reverse(downPos);
      AnswerOfDrained(items, distance, target, k, h0, tau0, down, downDist, downPos);
    }

    /** Lines 107-112: the heap's entries are taken off top first, farthest first. */
    method Drain(ghost target: T) returns (results: seq<T>, distances: seq<nat>, ghost positions: seq<int>)
      requires Entries(heap, items, distance, target) && DistinctIndices(heap)
      modifies this`heap
      ensures heap == []
      ensures DrainState(items, distance, target, old(heap), heap, results, distances, positions)
    {
      results, distances, positions := [], [], [];
      while |heap| > 0
        invariant DrainState(items, distance, target, old(heap), heap, results, distances, positions)
        decreases |heap|
      {
        DrainStep(items, distance, target, old(heap), heap, results, distances, positions);
        var top := Top(heap);
        results := results + [items[top.index]];
        distances := distances + [top.dist];
        positions := positions + [top.index];
        heap := Pop(heap);
      }
    }

    /**
     * Lines 201-205 of the private search: an item closer than tau enters
     * the heap, evicting the top of a full heap, and tau becomes the heap's
     * largest distance once it holds k entries.
     */
    method Offer(index: int, dist: nat, k: nat, ghost target: T, ghost seen: set<int>)
      requires 0 <= index < |items| && index !in seen && dist == distance(items[index], target)
      requires k >= 1 && SearchState(items, distance, target, k, heap, tau, seen)
      modifies this`heap, this`tau
      ensures SearchState(items, distance, target, k, heap, tau, seen + {index})
    {
      if Below(dist, tau) {
        if |heap| == k {
          OfferReplaces(items, distance, target, k, heap, tau, seen, index, dist);
          heap := Pop(heap);
        } else {
          OfferGrows(items, distance, target, k, heap, tau, seen, index, dist);
        }
        heap := heap + [HeapItem(index, dist)];
        if |heap| == k {
          tau := Finite(MaxDist(heap));
        }
      } else {
        OfferSkipped(items, distance, target, k, heap, tau, seen, index, dist);
      }
    }

    /**
     * The private search(node, target, k) over the subtree t built on
     * [lo, hi): afterwards every position of the range has been seen, either
     * offered to the heap or pruned.
     */
    method SearchNode(t: Node, target: T, k: nat, ghost lo: int, ghost hi: int, ghost seen: set<int>)
      returns (ghost seen': set<int>)
      requires ValidTree(t, items, lo, hi, distance)
      requires k >= 1 || t == Nil
      requires forall p :: lo <= p < hi ==> p !in seen
      requires SearchState(items, distance, target, k, heap, tau, seen)
      modifies this`heap, this`tau
      ensures seen' == seen + Span(lo, hi)
      ensures SearchState(items, distance, target, k, heap, tau, seen')
      decreases t, 2
    {
      if t == Nil {
        NilSpan(t, items, lo, hi, distance);
        return seen;
      }
      var dist := distance(items[t.index], target);
      Offer(t.index, dist, k, target, seen);
      if t.left == Nil && t.right == Nil {
        LeafSpan(t, items, lo, hi, distance);
        return seen + {lo};
      }
      seen' := SearchChildren(t, dist, target, k, lo, hi, seen + {lo});
      SpanSplit(lo, hi);
    }

    /** Lines 211-227: both subtrees, the one on the target's side of the threshold first. */
    method SearchChildren(t: Node, dist: nat, target: T, k: nat, ghost lo: int, ghost hi: int, ghost seen: set<int>)
      returns (ghost seen': set<int>)
      requires ValidTree(t, items, lo, hi, distance) && hi - lo > 1 && k >= 1
      requires dist == distance(items[lo], target)
      requires forall p :: lo + 1 <= p < hi ==> p !in seen
      requires SearchState(items, distance, target, k, heap, tau, seen)
      modifies this`heap, this`tau
      ensures seen' == seen + Span(lo + 1, (lo + hi) / 2) + Span((lo + hi) / 2, hi)
      ensures SearchState(items, distance, target, k, heap, tau, seen')
      decreases t, 1
    {
      if dist < t.threshold {
        seen' := SearchInner(t, dist, target, k, lo, hi, seen);
        seen' := SearchOuter(t, dist, target, k, lo, hi, seen');
      } else {
        seen' := SearchOuter(t, dist, target, k, lo, hi, seen);
        seen' := SearchInner(t, dist, target, k, lo, hi, seen');
      }
    }

    /** `if (dist - _tau <= node->threshold) search(node->left, ...)`, or the inner range is pruned. */
    method SearchInner(t: Node, dist: nat, target: T, k: nat, ghost lo: int, ghost hi: int, ghost seen: set<int>)
      returns (ghost seen': set<int>)
      requires ValidTree(t, items, lo, hi, distance) && hi - lo > 1 && k >= 1
      requires dist == distance(items[lo], target)
      requires forall p :: lo + 1 <= p < (lo + hi) / 2 ==> p !in seen
      requires SearchState(items, distance, target, k, heap, tau, seen)
      modifies this`heap, this`tau
      ensures seen' == seen + Span(lo + 1, (lo + hi) / 2)
      ensures SearchState(items, distance, target, k, heap, tau, seen')
      decreases t, 0
    {
      var median := (lo + hi) / 2;
      if InnerReachable(dist, tau, t.threshold) {
        seen' := SearchNode(t.left, target, k, lo + 1, median, seen);
      } else {
        InnerPruned(items, distance, target, lo, median, t.threshold, dist, tau.value);
        PruneKeeps(items, distance, target, k, heap, tau, seen, lo + 1, median);
        seen' := seen + Span(lo + 1, median);
      }
    }

    /** `if (dist + _tau >= node->threshold) search(node->right, ...)`, or the outer range is pruned. */
    method SearchOuter(t: Node, dist: nat, target: T, k: nat, ghost lo: int, ghost hi: int, ghost seen: set<int>)
      returns (ghost seen': set<int>)
      requires ValidTree(t, items, lo, hi, distance) && hi - lo > 1 && k >= 1
      requires dist == distance(items[lo], target)
      requires forall p :: (lo + hi) / 2 <= p < hi ==> p !in seen
      requires SearchState(items, distance, target, k, heap, tau, seen)
      modifies this`heap, this`tau
      ensures seen' == seen + Span((lo + hi) / 2, hi)
      ensures SearchState(items, distance, target, k, heap, tau, seen')
      decreases t, 0
    {
      var median := (lo + hi) / 2;
      if OuterReachable(dist, tau, t.threshold) {
        seen' := SearchNode(t.right, target, k, median, hi, seen);
      } else {
        OuterPruned(items, distance, target, lo, median, hi, t.threshold, dist, tau.value);
        PruneKeeps(items, distance, target, k, heap, tau, seen, median, hi);
        seen' := seen + Span(median, hi);
      }
    }

    /** The first position in [from, last) whose item is closest to the pivot. */
    method ClosestFrom(pivot: T, from: int, last: int) returns (m: int)
      requires 0 <= from < last <= |items|
      ensures from <= m < last
      ensures forall x :: from <= x < last ==> distance(pivot, items[m]) <= distance(pivot, items[x])
    {
      m := from;
      var x := from + 1;
      while x < last
        invariant from <= m < x <= last
        invariant forall y :: from <= y < x ==> distance(pivot, items[m]) <= distance(pivot, items[y])
      {
        if Closer(distance, pivot, items[x], items[m]) {
          m := x;
        }
        x := x + 1;
      }
    }
  }
}
