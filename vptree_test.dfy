/**
 * The oracle of VPTreeTest.cpp: the Kernighan popcount `Hamming` over
 * 32-bit words, and the linear scan that keeps the five values nearest a
 * target in the array `bestFive`.
 *
 * A uint32 is a natural below 2^32; its `^`, `&` and `~` are defined bit by
 * bit, lowest bit first: bit 0 of n is n % 2 and the rest is n / 2.
 */
module VPTreeTest {
  import opened VPTree

  type uint32 = x: int | 0 <= x < 0x1_0000_0000

  function Pow2(w: nat): (r: nat)
    ensures r >= 1
  {
    if w == 0 then 1 else 2 * Pow2(w - 1)
  }

  lemma Pow2Of32()
    ensures Pow2(32) == 0x1_0000_0000
  {
    assert Pow2(8) == 0x100;
    assert Pow2(16) == 0x1_0000;
    assert Pow2(24) == 0x100_0000;
  }

  /** a ^ b. */
  function Xor(a: nat, b: nat): nat
    decreases a + b
  {
    if a == 0 && b == 0 then 0
    else 2 * Xor(a / 2, b / 2) + (if a % 2 == b % 2 then 0 else 1)
  }

  /** a & b. */
  function And(a: nat, b: nat): nat
    decreases a + b
  {
    if a == 0 || b == 0 then 0
    else 2 * And(a / 2, b / 2) + (if a % 2 == 1 && b % 2 == 1 then 1 else 0)
  }

  /** ~a on 32 bits. */
  function Not32(a: uint32): uint32 {
    0xFFFF_FFFF - a
  }

  /** The number of set bits of n. */
  function PopCount(n: nat): nat {
    if n == 0 then 0 else n % 2 + PopCount(n / 2)
  }

  /** The Hamming distance of two words: the set bits of a ^ b. */
  function HammingDistance(a: uint32, b: uint32): nat {
    PopCount(Xor(a, b))
  }

  // ---------------------------------------------------------------------
  // Bits

  /** Bit 0 and the remaining bits of a ^ b, for every a and b. */
  lemma XorStep(a: nat, b: nat)
    ensures Xor(a, b) % 2 == (if a % 2 == b % 2 then 0 else 1)
    ensures Xor(a, b) / 2 == Xor(a / 2, b / 2)
  {
  }

  /** Bit 0 and the remaining bits of n, for every n. */
  lemma PopCountStep(n: nat)
    ensures PopCount(n) == n % 2 + PopCount(n / 2)
  {
  }

  lemma {:induction false} XorBelow(a: nat, b: nat, w: nat)
    requires a < Pow2(w) && b < Pow2(w)
    ensures Xor(a, b) < Pow2(w)
    decreases w
  {
    if w > 0 && (a > 0 || b > 0) {
      XorBelow(a / 2, b / 2, w - 1);
    }
  }

  /** a ^ b of two words is a word. */
  lemma XorIsWord(a: uint32, b: uint32)
    ensures Xor(a, b) < 0x1_0000_0000
  {
    Pow2Of32();
    XorBelow(a, b, 32);
  }

  lemma {:induction false} AndBelow(a: nat, b: nat)
    ensures And(a, b) <= a
    decreases a + b
  {
    if a > 0 && b > 0 {
      AndBelow(a / 2, b / 2);
    }
  }

  lemma {:induction false} AndSelf(a: nat)
    ensures And(a, a) == a
  {
    if a > 0 {
      AndSelf(a / 2);
    }
  }

  /** n &= n - 1 clears exactly one set bit of a non-zero n. */
  lemma {:induction false} Kernighan(n: nat)
    requires n > 0
    ensures PopCount(And(n, n - 1)) + 1 == PopCount(n)
  {
    if n % 2 == 1 {
      if n > 1 {
        AndSelf(n / 2);
        assert (n - 1) / 2 == n / 2;
        assert And(n, n - 1) == 2 * (n / 2);
      }
    } else {
      assert (n - 1) / 2 == n / 2 - 1;
      Kernighan(n / 2);
      assert And(n, n - 1) == 2 * And(n / 2, n / 2 - 1);
    }
  }

  lemma {:induction false} PopCountBelow(n: nat, w: nat)
    requires n < Pow2(w)
    ensures PopCount(n) <= w
    decreases w
  {
    if n > 0 {
      PopCountBelow(n / 2, w - 1);
    }
  }

  lemma {:induction false} PopCountZeroIff(n: nat)
    ensures PopCount(n) == 0 <==> n == 0
  {
    if n > 0 && n % 2 == 0 {
      PopCountZeroIff(n / 2);
    }
  }

  lemma {:induction false} XorSymmetric(a: nat, b: nat)
    ensures Xor(a, b) == Xor(b, a)
    decreases a + b
  {
    if a > 0 || b > 0 {
      XorSymmetric(a / 2, b / 2);
    }
  }

  lemma {:induction false} XorZeroIff(a: nat, b: nat)
    ensures Xor(a, b) == 0 <==> a == b
    decreases a + b
  {
    if a > 0 || b > 0 {
      XorZeroIff(a / 2, b / 2);
      assert a == 2 * (a / 2) + a % 2 && b == 2 * (b / 2) + b % 2;
    }
  }

  /** Per bit, a differs from c only where it differs from b or b from c. */
  lemma {:induction false} XorTriangle(a: nat, b: nat, c: nat)
    ensures PopCount(Xor(a, c)) <= PopCount(Xor(a, b)) + PopCount(Xor(b, c))
    decreases a + b + c
  {
    if a > 0 || b > 0 || c > 0 {
      XorTriangle(a / 2, b / 2, c / 2);
      XorStep(a, c);
      XorStep(a, b);
      XorStep(b, c);
      PopCountStep(Xor(a, c));
      PopCountStep(Xor(a, b));
      PopCountStep(Xor(b, c));
    }
  }

  /** A word ^ its complement below 2^w is all ones. */
  lemma {:induction false} XorComplement(t: nat, w: nat)
    requires t < Pow2(w)
    ensures Xor(t, Pow2(w) - 1 - t) == Pow2(w) - 1
    decreases w
  {
    if w > 0 {
      var u := Pow2(w) - 1 - t;
      assert u / 2 == Pow2(w - 1) - 1 - t / 2;
      assert u % 2 != t % 2;
      XorComplement(t / 2, w - 1);
      XorStep(t, u);
    }
  }

  lemma {:induction false} PopCountAllOnes(w: nat)
    ensures PopCount(Pow2(w) - 1) == w
  {
    if w > 0 {
      PopCountAllOnes(w - 1);
      assert (Pow2(w) - 1) / 2 == Pow2(w - 1) - 1;
    }
  }

  // ---------------------------------------------------------------------
  // Hamming

  /**
   * Hamming(a, b): n = a ^ b; count the rounds of n &= n - 1 until n is 0.
   * The result is the popcount of a ^ b, reached within 32 rounds.
   */
  method Hamming(a: uint32, b: uint32) returns (c: nat)
    ensures c == HammingDistance(a, b)
    ensures c <= 32
  {
    XorIsWord(a, b);
    var n: uint32 := Xor(a, b);
    c := 0;
    while n != 0
      invariant c + PopCount(n) == HammingDistance(a, b)
      decreases PopCount(n)
    {
      Kernighan(n);
      AndBelow(n, n - 1);
      n := And(n, n - 1);
      c := c + 1;
    }
    HammingBound(a, b);
  }

  /** The distance of two words is at most 32. */
  lemma HammingBound(a: uint32, b: uint32)
    ensures HammingDistance(a, b) <= 32
  {
    XorIsWord(a, b);
    Pow2Of32();
    PopCountBelow(Xor(a, b), 32);
  }

  /** The Hamming distance is symmetric, and zero exactly on equal words. */
  lemma HammingSymmetricZero(a: uint32, b: uint32)
    ensures HammingDistance(a, b) == HammingDistance(b, a)
    ensures HammingDistance(a, b) == 0 <==> a == b
  {
    XorSymmetric(a, b);
    PopCountZeroIff(Xor(a, b));
    XorZeroIff(a, b);
  }

  /** A word and its complement differ in all 32 bits: the bestFive sentinels are as far as can be. */
  lemma HammingOfComplement(t: uint32)
    ensures HammingDistance(t, Not32(t)) == 32
  {
    Pow2Of32();
    XorComplement(t, 32);
    PopCountAllOnes(32);
  }

  /** The Hamming distance is a metric on words, as the VP-tree's pruning needs. */
  lemma HammingIsMetric(xs: seq<uint32>)
    ensures MetricOn(HammingDistance, xs)
  {
    forall a, b | a in xs && b in xs ensures HammingDistance(a, b) == HammingDistance(b, a) {
      HammingSymmetricZero(a, b);
    }
    forall a, b, c | a in xs && b in xs && c in xs
      ensures HammingDistance(a, c) <= HammingDistance(a, b) + HammingDistance(b, c)
    {
      XorTriangle(a, b, c);
    }
  }

  // ---------------------------------------------------------------------
  // The linear bestFive scan

  /** The scan's sentinel: five copies of ~target. */
  function Sentinels(target: uint32): (r: seq<uint32>)
    ensures |r| == 5 && forall i :: 0 <= i < 5 ==> r[i] == Not32(target)
  {
    seq(5, _ => Not32(target))
  }

  /**
   * The first slot of best whose value is strictly farther from the target
   * than v, or |best| when there is none.
   */
  function FirstFarther(best: seq<uint32>, target: uint32, v: uint32): (j: nat)
    ensures j <= |best|
    ensures forall i :: 0 <= i < j ==> HammingDistance(target, best[i]) <= HammingDistance(target, v)
    ensures j < |best| ==> HammingDistance(target, v) < HammingDistance(target, best[j])
  {
    if |best| == 0 then 0
    else if HammingDistance(target, v) < HammingDistance(target, best[0]) then 0
    else 1 + FirstFarther(best[1..], target, v)
  }

  /** The slot the inner loop stops at is the one FirstFarther names. */
  lemma FirstFartherAt(best: seq<uint32>, target: uint32, v: uint32, j: nat)
    requires j <= |best|
    requires forall i :: 0 <= i < j ==> HammingDistance(target, best[i]) <= HammingDistance(target, v)
    requires j < |best| ==> HammingDistance(target, v) < HammingDistance(target, best[j])
    ensures FirstFarther(best, target, v) == j
  {
  }

  /**
   * One pass of the inner loop for v: v goes into the first slot that is
   * strictly farther from the target, the later slots move down one and the
   * last one drops out; without such a slot nothing changes.
   */
  function InsertBest(best: seq<uint32>, target: uint32, v: uint32): (r: seq<uint32>)
    requires |best| > 0
    ensures |r| == |best|
  {
    var j := FirstFarther(best, target, v);
    if j == |best| then best else best[..j] + [v] + best[j..|best| - 1]
  }

  /** bestFive after the outer loop has visited vals. */
  function Scan(vals: seq<uint32>, target: uint32): (r: seq<uint32>)
    ensures |r| == 5
  {
    if |vals| == 0 then Sentinels(target)
    else InsertBest(Scan(vals[..|vals| - 1], target), target, vals[|vals| - 1])
  }

  /** The slots are in non-decreasing distance from the target. */
  ghost predicate SortedFrom(s: seq<uint32>, target: uint32) {
    forall i, j :: 0 <= i < j < |s| ==> HammingDistance(target, s[i]) <= HammingDistance(target, s[j])
  }

  /**
   * Lines 84-98 of VPTreeTest.cpp: start from five sentinels and insert
   * every value in turn.
   */
  method BestFive(vals: seq<uint32>, target: uint32) returns (bestFive: seq<uint32>)
    ensures bestFive == Scan(vals, target)
  {
    var best := new uint32[5](_ => Not32(target));
    assert best[..] == Sentinels(target);
    for i := 0 to |vals|
      invariant best[..] == Scan(vals[..i], target)
    {
      assert vals[..i + 1][..i] == vals[..i];
      InsertInto(best, target, vals[i]);
    }
    assert vals[..|vals|] == vals;
    bestFive := best[..];
  }

  /**
   * Lines 89-97: find the first slot farther than v, shift the later slots
   * down from the end, and store v.
   */
  method InsertInto(best: array<uint32>, target: uint32, v: uint32)
    requires best.Length == 5
    modifies best
    ensures best[..] == InsertBest(old(best[..]), target, v)
  {
    ghost var s := best[..];
    var j := 0;
    while j < 5
      invariant 0 <= j <= 5 && best[..] == s
      invariant forall i :: 0 <= i < j ==> HammingDistance(target, s[i]) <= HammingDistance(target, v)
    {
      var dv := Hamming(target, v);
      var dj := Hamming(target, best[j]);
      if dv < dj {
        FirstFartherAt(s, target, v, j);
        Shift(best, j);
        best[j] := v;
        InsertShape(s, best[..], target, v, j);
        return;
      }
      j := j + 1;
    }
    FirstFartherAt(s, target, v, 5);
  }

  /** Slots filled as the inner loop fills them form InsertBest's result. */
  lemma InsertShape(s: seq<uint32>, r: seq<uint32>, target: uint32, v: uint32, j: int)
    requires |s| == 5 && |r| == 5 && 0 <= j < 5 && FirstFarther(s, target, v) == j
    requires forall i :: 0 <= i < j ==> r[i] == s[i]
    requires r[j] == v
    requires forall i :: j < i < 5 ==> r[i] == s[i - 1]
    ensures r == InsertBest(s, target, v)
  {
    assert r == s[..j] + [v] + s[j..4];
  }

  /** for (k = 4; k > j; k--) bestFive[k] = bestFive[k - 1]; */
  method Shift(best: array<uint32>, j: int)
    requires best.Length == 5 && 0 <= j < 5
    modifies best
    ensures forall i :: 0 <= i < j ==> best[i] == old(best[i])
    ensures forall i :: j < i < 5 ==> best[i] == old(best[i - 1])
  {
    var k := 4;
    while k > j
      invariant j <= k <= 4
      invariant forall i :: 0 <= i <= k ==> best[i] == old(best[i])
      invariant forall i :: k < i < 5 ==> best[i] == old(best[i - 1])
    {
      best[k] := best[k - 1];
      k := k - 1;
    }
  }

  /** Inserting into sorted slots keeps them sorted. */
  lemma InsertSorted(best: seq<uint32>, target: uint32, v: uint32)
    requires |best| > 0 && SortedFrom(best, target)
    ensures SortedFrom(InsertBest(best, target, v), target)
  {
    var j := FirstFarther(best, target, v);
    var r := InsertBest(best, target, v);
    if j < |best| {
      forall a, b | 0 <= a < b < |r|
        ensures HammingDistance(target, r[a]) <= HammingDistance(target, r[b])
      {
        assert r[a] == (if a < j then best[a] else if a == j then v else best[a - 1]);
        assert r[b] == (if b < j then best[b] else if b == j then v else best[b - 1]);
      }
    }
  }

  /** After every outer iteration bestFive is sorted by distance to the target. */
  lemma {:induction false} ScanSorted(vals: seq<uint32>, target: uint32)
    ensures SortedFrom(Scan(vals, target), target)
  {
    if |vals| > 0 {
      ScanSorted(vals[..|vals| - 1], target);
      InsertSorted(Scan(vals[..|vals| - 1], target), target, vals[|vals| - 1]);
    }
  }

  /** Every slot of bestFive holds a scanned value or the sentinel ~target. */
  lemma {:induction false} ScanMembers(vals: seq<uint32>, target: uint32)
    ensures forall y :: y in Scan(vals, target) ==> y in vals || y == Not32(target)
  {
    if |vals| > 0 {
      var front := vals[..|vals| - 1];
      ScanMembers(front, target);
      var s := Scan(front, target);
      var j := FirstFarther(s, target, vals[|vals| - 1]);
      forall y | y in Scan(vals, target) ensures y in vals || y == Not32(target) {
        if j < 5 {
          assert y in s[..j] || y == vals[|vals| - 1] || y in s[j..4];
        }
        assert y in front ==> y in vals;
      }
    }
  }

  /**
   * One insertion into sorted slots: the last slot gets no farther, and v
   * and every old value are kept or no closer than the new last slot.
   */
  lemma InsertKeeps(s: seq<uint32>, target: uint32, v: uint32)
    requires |s| == 5 && SortedFrom(s, target)
    ensures var r := InsertBest(s, target, v);
      HammingDistance(target, r[4]) <= HammingDistance(target, s[4]) &&
      (v in r || HammingDistance(target, v) >= HammingDistance(target, r[4])) &&
      (forall x :: x in s ==> x in r || HammingDistance(target, x) >= HammingDistance(target, r[4]))
  {
    var r := InsertBest(s, target, v);
    var j := FirstFarther(s, target, v);
    if j < 5 {
      assert r[j] == v;
      assert r[4] == (if j == 4 then v else s[3]);
      forall x | x in s ensures x in r || HammingDistance(target, x) >= HammingDistance(target, r[4]) {
        var i :| 0 <= i < 5 && s[i] == x;
        if i < j {
          assert r[i] == x;
        } else if i < 4 {
          assert r[i + 1] == x;
        }
      }
    }
  }

  /**
   * Every scanned value is still in bestFive or is no closer to the target
   * than its last slot.
   */
  lemma {:induction false} ScanComplete(vals: seq<uint32>, target: uint32)
    ensures var s := Scan(vals, target);
      forall x :: x in vals ==> x in s || HammingDistance(target, x) >= HammingDistance(target, s[4])
  {
    if |vals| > 0 {
      var front, v := vals[..|vals| - 1], vals[|vals| - 1];
      ScanComplete(front, target);
      ScanSorted(front, target);
      var s := Scan(front, target);
      InsertKeeps(s, target, v);
      var r := Scan(vals, target);
      assert r == InsertBest(s, target, v);
      forall x | x in vals ensures x in r || HammingDistance(target, x) >= HammingDistance(target, r[4]) {
        if x != v {
          assert x in front;
        }
      }
    }
  }

  /**
   * The first slot is the nearest value: no scanned value is closer, and
   * it is a scanned value or the sentinel.
   */
  lemma ScanNearest(vals: seq<uint32>, target: uint32)
    ensures var s := Scan(vals, target);
      (forall x :: x in vals ==> HammingDistance(target, s[0]) <= HammingDistance(target, x)) &&
      (s[0] in vals || s[0] == Not32(target))
  {
    var s := Scan(vals, target);
    ScanSorted(vals, target);
    ScanComplete(vals, target);
    ScanMembers(vals, target);
    assert s[0] in s;
    forall x | x in vals ensures HammingDistance(target, s[0]) <= HammingDistance(target, x) {
      if x in s {
        var i :| 0 <= i < 5 && s[i] == x;
        if i > 0 {
          assert HammingDistance(target, s[0]) <= HammingDistance(target, s[i]);
        }
      } else {
        assert HammingDistance(target, s[0]) <= HammingDistance(target, s[4]);
      }
    }
  }

  /**
   * The comparison in main: a tree built over the values, searched for the
   * single nearest one, returns a value exactly as far from the target as
   * bestFive[0].
   */
  lemma TreeMatchesScan(vals: seq<uint32>, target: uint32, items: seq<uint32>,
                        results: seq<uint32>, distances: seq<nat>, positions: seq<int>)
    requires |vals| > 0 && multiset(items) == multiset(vals)
    requires Answer(items, HammingDistance, target, 1, results, distances, positions)
    ensures HammingDistance(results[0], target) == HammingDistance(Scan(vals, target)[0], target)
  {
    var s := Scan(vals, target);
    HammingIsMetric(items + [target]);
    ScanNearest(vals, target);
    var p0 := positions[0];
    assert items[p0] in multiset(vals);
    HammingSymmetricZero(items[p0], target);
    HammingSymmetricZero(s[0], target);
    forall q | 0 <= q < |items| ensures distances[0] <= HammingDistance(items[q], target) {
      if q != p0 {
        assert q !in positions;
      }
    }
    if s[0] in vals {
      assert s[0] in multiset(items);
      var q :| 0 <= q < |items| && items[q] == s[0];
    } else {
      HammingOfComplement(target);
      HammingSymmetricZero(target, Not32(target));
      HammingBound(items[p0], target);
    }
  }

  /**
   * Lines 82-117 of VPTreeTest.cpp without the timing and printing: the
   * linear scan, then a tree over the same values searched for the single
   * nearest one. When there are values, the tree's answer is one of them
   * and is exactly as near to the target as bestFive[0].
   */
  method LinearAndTree(vals: seq<uint32>, target: uint32) returns (bestFive: seq<uint32>, results: seq<uint32>)
    ensures bestFive == Scan(vals, target)
    ensures |vals| > 0 ==>
      |results| == 1 && results[0] in vals &&
      HammingDistance(results[0], target) == HammingDistance(bestFive[0], target)
  {
    bestFive := BestFive(vals, target);
    var tree := new VpTree(HammingDistance);
    tree.Create(vals);
    var distances;
    ghost var positions;
    results, distances, positions := tree.Search(target, 1);
    if |vals| > 0 {
      TreeMatchesScan(vals, target, tree.items, results, distances, positions);
      assert results[0] in multiset(tree.items);
    }
  }
}
