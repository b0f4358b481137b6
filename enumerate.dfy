/**
 * EnumerateASTC<N, M> and EnumerateBPTC of Partition.cpp: every candidate
 * partition is generated into a label buffer, relabelled in first-seen
 * order, copied into a Partition carrying its generating index, and
 * appended to `results` unless an `operator==`-equal partition is already
 * there.
 *
 * `Dedup` states the result as a function of the candidate list; the
 * methods are proved to compute it.  Because operator== compares the index
 * too, and every ASTC candidate has its own index, nothing is ever dropped
 * from the ASTC enumeration (`AstcKeepsEveryCandidate`).
 */
module Enumerate {
  import opened PartitionHash
  import opened Partitions
  import opened Canonical

  /** kMaxPartitionIndex = (1 << 12) - 1: a 10-bit seed and a 2-bit count. */
  const MaxPartitionIndex: nat := 4095

  /** kMaxShapeIndex of EnumerateBPTC. */
  const MaxShapeIndex: nat := 63

  /** The size of the `parts` buffer, the largest block (12 x 12). */
  const BufferSize: nat := 144

  // ---------------------------------------------------------------------
  // Dedup: the list the append loop builds

  /** Appends p unless some element already in `results` is `same` as p. */
  function AddIfAbsent(results: seq<Partition>, p: Partition,
                       same: (Partition, Partition) -> bool): seq<Partition>
  {
    if exists i :: 0 <= i < |results| && same(results[i], p) then results else results + [p]
  }

  /** The candidates in loop order, each appended unless already present. */
  function Dedup(cands: seq<Partition>, same: (Partition, Partition) -> bool): seq<Partition> {
    if |cands| == 0 then []
    else AddIfAbsent(Dedup(cands[..|cands| - 1], same), cands[|cands| - 1], same)
  }

  lemma DedupSnoc(cands: seq<Partition>, k: nat, same: (Partition, Partition) -> bool)
    requires k < |cands|
    ensures Dedup(cands[..k + 1], same) == AddIfAbsent(Dedup(cands[..k], same), cands[k], same)
  {
    assert cands[..k + 1][..k] == cands[..k];
  }

  /** No element of d is `same` as a later one. */
  predicate NoLaterSame(d: seq<Partition>, same: (Partition, Partition) -> bool) {
    forall i, j :: 0 <= i < j < |d| ==> !same(d[i], d[j])
  }

  /** No element of the result is `same` as a later one. */
  lemma {:induction false} DedupNoLaterSame(cands: seq<Partition>, same: (Partition, Partition) -> bool)
    ensures NoLaterSame(Dedup(cands, same), same)
  {
    if |cands| > 0 {
      var n := |cands| - 1;
      DedupNoLaterSame(cands[..n], same);
      var d0 := Dedup(cands[..n], same);
      if !exists i :: 0 <= i < |d0| && same(d0[i], cands[n]) {
        var d := d0 + [cands[n]];
        assert Dedup(cands, same) == d;
        forall i, j | 0 <= i < j < |d| ensures !same(d[i], d[j]) {
          if j == |d0| {
            assert d[j] == cands[n] && d[i] == d0[i];
          } else {
            assert d[i] == d0[i] && d[j] == d0[j];
          }
        }
      }
    }
  }

  /** Every element of the result is one of the candidates. */
  lemma {:induction false} DedupFromCandidates(cands: seq<Partition>, same: (Partition, Partition) -> bool)
    ensures forall p :: p in Dedup(cands, same) ==> p in cands
  {
    if |cands| > 0 {
      var n := |cands| - 1;
      DedupFromCandidates(cands[..n], same);
      forall p | p in cands[..n] ensures p in cands {
        var q :| 0 <= q < n && cands[..n][q] == p;
        assert cands[q] == p;
      }
    }
  }

  /** Every candidate is `same` as some element of the result, or is in it. */
  lemma {:induction false} DedupCovers(cands: seq<Partition>, same: (Partition, Partition) -> bool)
    ensures var d := Dedup(cands, same);
      forall c :: c in cands ==> c in d || exists i :: 0 <= i < |d| && same(d[i], c)
  {
    if |cands| > 0 {
      var n := |cands| - 1;
      DedupCovers(cands[..n], same);
      var d0 := Dedup(cands[..n], same);
      var d := Dedup(cands, same);
      assert d0 <= d;
      forall c | c in cands ensures c in d || exists i :: 0 <= i < |d| && same(d[i], c) {
        if c != cands[n] {
          var q :| 0 <= q < |cands| && cands[q] == c;
          assert c in cands[..n] by { assert cands[..n][q] == c; }
          if c !in d0 {
            var i :| 0 <= i < |d0| && same(d0[i], c);
            assert d[i] == d0[i];
          } else {
            var i :| 0 <= i < |d0| && d0[i] == c;
            assert d[i] == c;
          }
        }
      }
    }
  }

  /** When no candidate is `same` as a later one, nothing is dropped. */
  lemma {:induction false} DedupOfDistinct(cands: seq<Partition>, same: (Partition, Partition) -> bool)
    requires forall i, j :: 0 <= i < j < |cands| ==> !same(cands[i], cands[j])
    ensures Dedup(cands, same) == cands
  {
    if |cands| > 0 {
      var n := |cands| - 1;
      DedupOfDistinct(cands[..n], same);
      assert cands[..n] + [cands[n]] == cands;
    }
  }

  // ---------------------------------------------------------------------
  // The candidates

  /** A block size EnumerateASTC accepts: N by M pixels fitting the 144-entry buffer. */
  predicate BlockDims(n: nat, m: nat) {
    1 <= n && 1 <= m && n * m <= BufferSize
  }

  lemma DimsBound(n: nat, m: nat)
    requires BlockDims(n, m)
    ensures n <= BufferSize && m <= BufferSize
  {
    assert n * m == n * (m - 1) + n;
    assert n * m == (n - 1) * m + m;
  }

  /** A label array of a relabelled buffer whose raw labels are below 4. */
  function AsLabels(s: seq<nat>): (labels: seq<uint8>)
    requires forall k :: 0 <= k < |s| ==> s[k] < 4
    ensures labels == s
  {
    seq(|s|, k requires 0 <= k < |s| => s[k] as uint8)
  }

  /** The raw label SelectPartition gives pixel (x, y) of an n-by-m block. */
  function RawLabelASTC(n: nat, m: nat, partIdx: nat, x: nat, y: nat): (r: nat)
    requires partIdx <= MaxPartitionIndex && x < 0x1_0000_0000 && y < 0x1_0000_0000
    ensures r < 4
  {
    var idx := partIdx as bv32;
    SelectPartition(idx, x as bv32, y as bv32, 0, idx & 3, n * m < 31)
  }

  /** Row j of the raw label buffer: pixels (0, j) .. (n-1, j). */
  function RowASTC(n: nat, m: nat, partIdx: nat, j: nat): (row: seq<int>)
    requires BlockDims(n, m) && partIdx <= MaxPartitionIndex && j < m
    ensures |row| == n
    ensures forall k :: 0 <= k < n ==> 0 <= row[k] < 4
  {
    DimsBound(n, m);
    seq(n, i requires 0 <= i < n => RawLabelASTC(n, m, partIdx, i, j))
  }

  /** Rows 0 .. rows-1 of the raw label buffer, one after the other. */
  function RowsASTC(n: nat, m: nat, partIdx: nat, rows: nat): (raw: seq<int>)
    requires BlockDims(n, m) && partIdx <= MaxPartitionIndex && rows <= m
    ensures |raw| == rows * n
    ensures forall k :: 0 <= k < |raw| ==> 0 <= raw[k] < 4
  {
    if rows == 0 then []
    else RowsASTC(n, m, partIdx, rows - 1) + RowASTC(n, m, partIdx, rows - 1)
  }

  /** The raw label buffer of EnumerateASTC for one partIdx. */
  function RawASTC(n: nat, m: nat, partIdx: nat): (raw: seq<int>)
    requires BlockDims(n, m) && partIdx <= MaxPartitionIndex
    ensures |raw| == n * m
    ensures forall k :: 0 <= k < |raw| ==> 0 <= raw[k] < 4
  {
    RowsASTC(n, m, partIdx, m)
  }

  /**
   * Entry j*n + i of the raw buffer is the SelectPartition label of pixel
   * (i, j), with the block's seed, coordinates, partition count and
   * small-block flag.
   */
  lemma RawASTCPixel(n: nat, m: nat, partIdx: nat, i: nat, j: nat)
    requires BlockDims(n, m) && partIdx <= MaxPartitionIndex && i < n && j < m
    ensures j * n + i < n * m
    ensures RawASTC(n, m, partIdx)[j * n + i] ==
      SelectPartition(partIdx as bv32, i as bv32, j as bv32, 0, (partIdx as bv32) & 3, n * m < 31)
  {
    DimsBound(n, m);
    RowsPixel(n, m, partIdx, m, i, j);
  }

  lemma {:induction false} RowsPixel(n: nat, m: nat, partIdx: nat, rows: nat, i: nat, j: nat)
    requires BlockDims(n, m) && partIdx <= MaxPartitionIndex && i < n && j < rows <= m
    ensures j * n + i < rows * n
    ensures RowsASTC(n, m, partIdx, rows)[j * n + i] == RawLabelASTC(n, m, partIdx, i, j)
  {
    DimsBound(n, m);
    var prev := RowsASTC(n, m, partIdx, rows - 1);
    assert |prev| == (rows - 1) * n;
    if j < rows - 1 {
      RowsPixel(n, m, partIdx, rows - 1, i, j);
    } else {
      assert j * n == |prev|;
    }
  }

  /** The partition EnumerateASTC builds for one partIdx. */
  function CandidateASTC(n: nat, m: nat, partIdx: nat): (p: Partition)
    requires BlockDims(n, m) && partIdx <= MaxPartitionIndex
    ensures GetIndex(p) == partIdx && |p.labels| == n * m
  {
    var raw := RawASTC(n, m, partIdx);
    LabelBoundAll(raw);
    Partition(partIdx, AsLabels(Relabel(raw)))
  }

  lemma LabelBoundAll(raw: seq<int>)
    requires forall k :: 0 <= k < |raw| ==> 0 <= raw[k] < 4
    ensures forall k :: 0 <= k < |raw| ==> Relabel(raw)[k] < 4
  {
    SeenBelow4(raw);
    forall k | 0 <= k < |raw| ensures Relabel(raw)[k] < 4 {
      LabelBound(raw, k);
    }
  }

  /** All ASTC candidates in loop order, partIdx = 0 .. 4095. */
  function CandidatesASTC(n: nat, m: nat): (cs: seq<Partition>)
    requires BlockDims(n, m)
    ensures |cs| == MaxPartitionIndex + 1
  {
    seq(MaxPartitionIndex + 1, idx requires 0 <= idx <= MaxPartitionIndex => CandidateASTC(n, m, idx))
  }

  /** The raw label buffer of EnumerateBPTC for one shape and subset count. */
  function RawBPTC(subsetFor: (nat, nat, nat) -> nat, shapeIdx: nat, nSubsets: nat): seq<int> {
    seq(16, i requires 0 <= i < 16 => subsetFor(i, shapeIdx, nSubsets))
  }

  /**
   * GetSubsetForIndex is not part of this model; it is a parameter, and the
   * enumerator relies on the assert that its labels are below 3.
   */
  ghost predicate SubsetTableOk(subsetFor: (nat, nat, nat) -> nat) {
    forall i: nat, shapeIdx: nat, nSubsets: nat :: i < 16 && shapeIdx <= MaxShapeIndex && 2 <= nSubsets <= 3 ==>
      subsetFor(i, shapeIdx, nSubsets) < 3
  }

  /** The partition EnumerateBPTC builds for one shape and subset count. */
  function CandidateBPTC(subsetFor: (nat, nat, nat) -> nat, nSubsets: nat, shapeIdx: nat): (p: Partition)
    requires SubsetTableOk(subsetFor) && 2 <= nSubsets <= 3 && shapeIdx <= MaxShapeIndex
    ensures GetIndex(p) == shapeIdx && |p.labels| == 16
  {
    var raw := RawBPTC(subsetFor, shapeIdx, nSubsets);
    LabelBoundAll(raw);
    Partition(shapeIdx, AsLabels(Relabel(raw)))
  }

  /** All BPTC candidates in loop order: two subsets first, then three. */
  function CandidatesBPTC(subsetFor: (nat, nat, nat) -> nat): (cs: seq<Partition>)
    requires SubsetTableOk(subsetFor)
    ensures |cs| == 128
  {
    seq(128, q requires 0 <= q < 128 => CandidateBPTC(subsetFor, 2 + q / 64, q % 64))
  }

  // ---------------------------------------------------------------------
  // The enumerators

  /**
   * EnumerateASTC<N, M>: `results` is cleared, then receives the
   * candidates for partIdx = 0 .. 4095 in loop order, each unless an
   * operator==-equal one is already there.
   */
  method EnumerateASTC(n: nat, m: nat) returns (results: seq<Partition>)
    requires BlockDims(n, m)
    ensures results == Dedup(CandidatesASTC(n, m), Equal)
  {
    results := EnumerateASTCUsing(n, m, Equal);
  }

  /**
   * The enumeration as its "doesn't already exist" comment intends it: a
   * candidate is dropped when a stored partition has the same labels.
   */
  method EnumerateASTCByLabels(n: nat, m: nat) returns (results: seq<Partition>)
    requires BlockDims(n, m)
    ensures results == Dedup(CandidatesASTC(n, m), SameLabels)
  {
    results := EnumerateASTCUsing(n, m, SameLabels);
  }

  /** Two partitions cover the block with the same labels. */
  predicate SameLabels(a: Partition, b: Partition) {
    a.labels == b.labels
  }

  /** The partIdx loop of EnumerateASTC, with the comparison of the existence check as a parameter. */
  method EnumerateASTCUsing(n: nat, m: nat, same: (Partition, Partition) -> bool)
    returns (results: seq<Partition>)
    requires BlockDims(n, m)
    ensures results == Dedup(CandidatesASTC(n, m), same)
  {
    var parts := new uint8[BufferSize];
    results := [];
    for partIdx := 0 to MaxPartitionIndex + 1
      invariant results == Dedup(CandidatesASTC(n, m)[..partIdx], same)
    {
      results := AstcStep(parts, n, m, partIdx, results, same);
    }
    assert CandidatesASTC(n, m)[..MaxPartitionIndex + 1] == CandidatesASTC(n, m);
  }

  /** One iteration of the partIdx loop of EnumerateASTC. */
  method AstcStep(parts: array<uint8>, n: nat, m: nat, partIdx: nat, results: seq<Partition>,
                  same: (Partition, Partition) -> bool) returns (results': seq<Partition>)
    requires parts.Length == BufferSize && BlockDims(n, m) && partIdx <= MaxPartitionIndex
    requires results == Dedup(CandidatesASTC(n, m)[..partIdx], same)
    modifies parts
    ensures results' == Dedup(CandidatesASTC(n, m)[..partIdx + 1], same)
  {
    FillASTC(parts, n, m, partIdx);
    var lastPart := Remap(parts, n * m);
    var partition := CopyLabels(parts, partIdx, n * m);
    CandidateASTCIs(n, m, partIdx, partition);
    DedupSnoc(CandidatesASTC(n, m), partIdx, same);
    results' := AppendIfAbsent(results, partition, same);
  }

  /** What the fill, remap and copy of one iteration leave is that iteration's candidate. */
  lemma CandidateASTCIs(n: nat, m: nat, partIdx: nat, p: Partition)
    requires BlockDims(n, m) && partIdx <= MaxPartitionIndex
    requires p.index == ToInt32(partIdx) && p.labels == Relabel(RawASTC(n, m, partIdx))
    ensures CandidatesASTC(n, m)[partIdx] == p
  {
  }

  /** The memset of a label buffer. */
  method Clear(parts: array<uint8>)
    modifies parts
    ensures forall q :: 0 <= q < parts.Length ==> parts[q] == 0
  {
    forall q | 0 <= q < parts.Length {
      parts[q] := 0;
    }
  }

  /**
   * The memset of `parts` and the nested fill loop of EnumerateASTC: pixel
   * (i, j) gets SelectPartition(partIdx, i, j, 0, partIdx & 3, smallBlock)
   * at j*n + i.
   */
  method FillASTC(parts: array<uint8>, n: nat, m: nat, partIdx: nat)
    requires parts.Length == BufferSize && BlockDims(n, m) && partIdx <= MaxPartitionIndex
    modifies parts
    ensures parts[..n * m] == RawASTC(n, m, partIdx)
    ensures forall q :: n * m <= q < parts.Length ==> parts[q] == 0
  {
    Clear(parts);
    for j := 0 to m
      invariant j * n <= n * m
      invariant parts[..j * n] == RowsASTC(n, m, partIdx, j)
      invariant forall q :: j * n <= q < parts.Length ==> parts[q] == 0
    {
      FillRowASTC(parts, n, m, partIdx, j);
    }
    assert m * n == n * m;
  }

  /** The inner loop of the fill: row j of the block at entries j*n .. j*n + n-1. */
  method FillRowASTC(parts: array<uint8>, n: nat, m: nat, partIdx: nat, j: nat)
    requires parts.Length == BufferSize && BlockDims(n, m) && partIdx <= MaxPartitionIndex && j < m
    requires parts[..j * n] == RowsASTC(n, m, partIdx, j)
    modifies parts
    ensures (j + 1) * n <= n * m
    ensures parts[..(j + 1) * n] == RowsASTC(n, m, partIdx, j + 1)
    ensures forall q :: (j + 1) * n <= q < parts.Length ==> parts[q] == old(parts[q])
  {
    RowBound(j, m, n);
    DimsBound(n, m);
    var base := j * n;
    ghost var done := parts[..base];
    ghost var row := RowASTC(n, m, partIdx, j);
    WriteRow(parts, n, m, partIdx, j, base);
    assert parts[..base] == done;
    RowDone(parts[..], done, row, base);
  }

  /** The pixel loop over i for row j, writing from position base on. */
  method WriteRow(parts: array<uint8>, n: nat, m: nat, partIdx: nat, j: nat, base: nat)
    requires BlockDims(n, m) && partIdx <= MaxPartitionIndex && j < m && base + n <= parts.Length
    modifies parts
    ensures forall q :: 0 <= q < n ==> parts[base + q] == RowASTC(n, m, partIdx, j)[q]
    ensures forall q :: 0 <= q < parts.Length && !(base <= q < base + n) ==> parts[q] == old(parts[q])
  {
    ghost var row := RowASTC(n, m, partIdx, j);
    for i := 0 to n
      invariant forall q :: 0 <= q < i ==> parts[base + q] == row[q]
      invariant forall q :: 0 <= q < parts.Length && !(base <= q < base + i) ==> parts[q] == old(parts[q])
    {
      SetPixel(parts, n, m, partIdx, i, j, base + i);
    }
  }

  /** `parts[j*N + i] = SelectPartition(...)` for one pixel. */
  method SetPixel(parts: array<uint8>, n: nat, m: nat, partIdx: nat, i: nat, j: nat, q: nat)
    requires BlockDims(n, m) && partIdx <= MaxPartitionIndex && i < n && j < m && q < parts.Length
    modifies parts
    ensures parts[..] == old(parts[..])[q := RowASTC(n, m, partIdx, j)[i]]
  {
    DimsBound(n, m);
    parts[q] := RawLabelASTC(n, m, partIdx, i, j);
  }

  lemma RowDone(s: seq<int>, done: seq<int>, row: seq<int>, base: nat)
    requires base == |done| && base + |row| <= |s| && s[..base] == done
    requires forall q :: 0 <= q < |row| ==> s[base + q] == row[q]
    ensures s[..base + |row|] == done + row
  {
  }

  lemma RowBound(j: nat, m: nat, n: nat)
    requires j < m
    ensures (j + 1) * n == j * n + n <= n * m
  {
    assert n * m == n * (m - j - 1) + (j + 1) * n;
  }

  /**
   * `Partition<N, M> partition(idx)` and the copy loop writing
   * `partition[i] = parts[i]` for every pixel.
   */
  method CopyLabels(parts: array<uint8>, idx: uint32, size: nat) returns (p: Partition)
    requires size <= parts.Length
    ensures GetIndex(p) == idx && p.index == ToInt32(idx) && p.labels == parts[..size]
  {
    p := WithIndex(idx, size);
    for i := 0 to size
      invariant GetIndex(p) == idx && p.index == ToInt32(idx) && |p.labels| == size
      invariant p.labels[..i] == parts[..i]
    {
      p := Set(p, i, parts[i]);
      assert p.labels[..i + 1] == parts[..i + 1] by {
        assert forall q :: 0 <= q < i ==> p.labels[q] == parts[q];
      }
    }
    assert p.labels == p.labels[..size];
  }

  /**
   * The "already exists" search over `results` (operator== in the source,
   * `same` here) and the push_back when nothing was found.
   */
  method AppendIfAbsent(results: seq<Partition>, p: Partition, same: (Partition, Partition) -> bool)
    returns (results': seq<Partition>)
    ensures results' == AddIfAbsent(results, p, same)
  {
    var found := false;
    for i := 0 to |results|
      invariant forall q :: 0 <= q < i ==> !same(results[q], p)
    {
      if same(results[i], p) {
        found := true;
        break;
      }
    }
    results' := if found then results else results + [p];
  }

  /**
   * EnumerateBPTC: `results` is cleared, then receives the deduplicated
   * candidates for nSubsets = 2, 3 and shapeIdx = 0 .. 63 in loop order.
   */
  method EnumerateBPTC(subsetFor: (nat, nat, nat) -> nat) returns (results: seq<Partition>)
    requires SubsetTableOk(subsetFor)
    ensures results == Dedup(CandidatesBPTC(subsetFor), Equal)
  {
    var parts := new uint8[16];
    results := [];
    for nSubsets := 2 to 4
      invariant results == Dedup(CandidatesBPTC(subsetFor)[..(nSubsets - 2) * 64], Equal)
    {
      for shapeIdx := 0 to MaxShapeIndex + 1
        invariant results == Dedup(CandidatesBPTC(subsetFor)[..(nSubsets - 2) * 64 + shapeIdx], Equal)
      {
        results := BptcStep(parts, subsetFor, nSubsets, shapeIdx, results);
      }
    }
    assert CandidatesBPTC(subsetFor)[..128] == CandidatesBPTC(subsetFor);
  }

  /** One iteration of the inner shapeIdx loop of EnumerateBPTC. */
  method BptcStep(parts: array<uint8>, subsetFor: (nat, nat, nat) -> nat, nSubsets: nat, shapeIdx: nat,
                  results: seq<Partition>) returns (results': seq<Partition>)
    requires parts.Length == 16 && SubsetTableOk(subsetFor)
    requires 2 <= nSubsets <= 3 && shapeIdx <= MaxShapeIndex
    requires results == Dedup(CandidatesBPTC(subsetFor)[..(nSubsets - 2) * 64 + shapeIdx], Equal)
    modifies parts
    ensures results' == Dedup(CandidatesBPTC(subsetFor)[..(nSubsets - 2) * 64 + shapeIdx + 1], Equal)
  {
    FillBPTC(parts, subsetFor, shapeIdx, nSubsets);
    ghost var raw := parts[..16];
    var lastPart := Remap(parts, 16);
    var partition := CopyLabels(parts, shapeIdx, 16);
    assert partition.labels == Relabel(raw);
    var q := (nSubsets - 2) * 64 + shapeIdx;
    CandidateBPTCIs(subsetFor, nSubsets, shapeIdx, partition);
    DedupSnoc(CandidatesBPTC(subsetFor), q, Equal);
    results' := AppendIfAbsent(results, partition, Equal);
  }

  /** What the fill, remap and copy of one iteration leave is that iteration's candidate. */
  lemma CandidateBPTCIs(subsetFor: (nat, nat, nat) -> nat, nSubsets: nat, shapeIdx: nat, p: Partition)
    requires SubsetTableOk(subsetFor) && 2 <= nSubsets <= 3 && shapeIdx <= MaxShapeIndex
    requires p.index == ToInt32(shapeIdx) && p.labels == Relabel(RawBPTC(subsetFor, shapeIdx, nSubsets))
    ensures CandidatesBPTC(subsetFor)[(nSubsets - 2) * 64 + shapeIdx] == p
  {
  }

  /** The memset and fill loop of EnumerateBPTC. */
  method FillBPTC(parts: array<uint8>, subsetFor: (nat, nat, nat) -> nat, shapeIdx: nat, nSubsets: nat)
    requires parts.Length == 16 && SubsetTableOk(subsetFor)
    requires shapeIdx <= MaxShapeIndex && 2 <= nSubsets <= 3
    modifies parts
    ensures parts[..16] == RawBPTC(subsetFor, shapeIdx, nSubsets)
  {
    Clear(parts);
    for i := 0 to 16
      invariant forall q :: 0 <= q < i ==> parts[q] == RawBPTC(subsetFor, shapeIdx, nSubsets)[q]
    {
      var part := subsetFor(i, shapeIdx, nSubsets);
      assert part < 3;
      parts[i] := part;
    }
  }

  // ---------------------------------------------------------------------
  // What the results hold

  /** Results never hold two partitions equal under operator==. */
  lemma ResultsDistinct(cands: seq<Partition>)
    ensures var d := Dedup(cands, Equal);
      forall i, j :: 0 <= i < |d| && 0 <= j < |d| && i != j ==> d[i] != d[j]
  {
    DedupNoLaterSame(cands, Equal);
  }

  /**
   * Every stored ASTC partition is the candidate of some partIdx: it
   * carries that index and its first-seen relabelled SelectPartition
   * labels, in canonical form.
   */
  lemma AstcResultsAreCandidates(n: nat, m: nat, p: Partition)
    requires BlockDims(n, m)
    requires p in Dedup(CandidatesASTC(n, m), Equal)
    ensures exists idx :: (0 <= idx <= MaxPartitionIndex && GetIndex(p) == idx &&
      p.labels == Relabel(RawASTC(n, m, idx)) && IsCanonical(p.labels))
  {
    DedupFromCandidates(CandidatesASTC(n, m), Equal);
    var idx :| 0 <= idx <= MaxPartitionIndex && CandidatesASTC(n, m)[idx] == p;
    RelabelIsCanonical(RawASTC(n, m, idx));
  }

  /**
   * The ASTC candidates carry pairwise different indices, so operator==
   * never finds an earlier one equal: every candidate is kept, and the
   * enumeration always yields all 4096 partitions in partIdx order.
   */
  lemma AstcKeepsEveryCandidate(n: nat, m: nat)
    requires BlockDims(n, m)
    ensures Dedup(CandidatesASTC(n, m), Equal) == CandidatesASTC(n, m)
    ensures |Dedup(CandidatesASTC(n, m), Equal)| == MaxPartitionIndex + 1
  {
    var cs := CandidatesASTC(n, m);
    forall i, j | 0 <= i < j < |cs| ensures !Equal(cs[i], cs[j]) {
      assert GetIndex(cs[i]) == i && GetIndex(cs[j]) == j;
    }
    DedupOfDistinct(cs, Equal);
  }

  /** Every stored BPTC partition is the candidate of some shape and subset count. */
  lemma BptcResultsAreCandidates(subsetFor: (nat, nat, nat) -> nat, p: Partition)
    requires SubsetTableOk(subsetFor)
    requires p in Dedup(CandidatesBPTC(subsetFor), Equal)
    ensures exists nSubsets, shapeIdx :: (2 <= nSubsets <= 3 && 0 <= shapeIdx <= MaxShapeIndex &&
      GetIndex(p) == shapeIdx && p.labels == Relabel(RawBPTC(subsetFor, shapeIdx, nSubsets)) &&
      IsCanonical(p.labels))
  {
    DedupFromCandidates(CandidatesBPTC(subsetFor), Equal);
    var q :| 0 <= q < 128 && CandidatesBPTC(subsetFor)[q] == p;
    CandidateBPTCCanonical(subsetFor, 2 + q / 64, q % 64);
  }

  /** The BPTC candidate of a shape carries the canonical relabelling of its raw labels. */
  lemma CandidateBPTCCanonical(subsetFor: (nat, nat, nat) -> nat, nSubsets: nat, shapeIdx: nat)
    requires SubsetTableOk(subsetFor) && 2 <= nSubsets <= 3 && shapeIdx <= MaxShapeIndex
    ensures var p := CandidatesBPTC(subsetFor)[(nSubsets - 2) * 64 + shapeIdx];
      GetIndex(p) == shapeIdx && p.labels == Relabel(RawBPTC(subsetFor, shapeIdx, nSubsets)) &&
      IsCanonical(p.labels)
  {
    var q := (nSubsets - 2) * 64 + shapeIdx;
    assert q / 64 == nSubsets - 2 && q % 64 == shapeIdx;
    var c := CandidateBPTC(subsetFor, nSubsets, shapeIdx);
    assert CandidatesBPTC(subsetFor)[q] == c;
    var raw := RawBPTC(subsetFor, shapeIdx, nSubsets);
    LabelBoundAll(raw);
    assert c.labels == Relabel(raw);
    RelabelIsCanonical(raw);
  }

  // ---------------------------------------------------------------------
  // Deduplicating by labels

  /** With the label comparison, no two stored partitions have the same labels. */
  lemma ByLabelsDistinct(n: nat, m: nat)
    requires BlockDims(n, m)
    ensures var d := Dedup(CandidatesASTC(n, m), SameLabels);
      forall i, j :: 0 <= i < |d| && 0 <= j < |d| && i != j ==> d[i].labels != d[j].labels
  {
    DedupNoLaterSame(CandidatesASTC(n, m), SameLabels);
  }

  /**
   * With the label comparison, every labelling some partIdx produces is
   * stored, under the first partIdx that produces it.
   */
  lemma ByLabelsCovers(n: nat, m: nat, idx: nat)
    requires BlockDims(n, m) && idx <= MaxPartitionIndex
    ensures exists i :: (0 <= i < |Dedup(CandidatesASTC(n, m), SameLabels)| &&
      Dedup(CandidatesASTC(n, m), SameLabels)[i].labels == CandidateASTC(n, m, idx).labels)
  {
    var cs := CandidatesASTC(n, m);
    var d := Dedup(cs, SameLabels);
    DedupCovers(cs, SameLabels);
    assert cs[idx] in cs;
    if cs[idx] in d {
      var i :| 0 <= i < |d| && d[i] == cs[idx];
    }
  }

  // ---------------------------------------------------------------------
  // Two 4x4 partition indices with the same labels

  /** The hash, shifts and first four sub-seeds of partIdx 4 and 5 in a 4x4 block. */
  lemma SeedsOf4And5()
    ensures AdjustSeed(4, 0) == 0xFFFF_FC04 && Hash52(0xFFFF_FC04) == 0xD722_224E
    ensures ShiftAmounts(0xFFFF_FC04, 0) == Shifts(5, 5, 5)
    ensures var s := SubSeeds(0xD722_224E, Shifts(5, 5, 5));
      s[0] == 6 && s[1] == 0 && s[2] == 0 && s[3] == 0
    ensures AdjustSeed(5, 1) == 5 && Hash52(5) == 0x9761_0512
    ensures ShiftAmounts(5, 1) == Shifts(5, 5, 5)
    ensures var s := SubSeeds(0x9761_0512, Shifts(5, 5, 5));
      s[0] == 0 && s[1] == 0 && s[2] == 0 && s[3] == 0
  {
  }

  /** Under partIdx 4, line a is at least line b at every pixel of a 4x4 block. */
  lemma LinesOf4(x: bv32, y: bv32)
    requires x < 4 && y < 4
    ensures var w := Lines(4, x, y, 0, 0, true); w[0] >= w[1]
  {
    SeedsOf4And5();
  }

  /** Under partIdx 5, line a is at least line b at every pixel of a 4x4 block. */
  lemma LinesOf5(x: bv32, y: bv32)
    requires x < 4 && y < 4
    ensures var w := Lines(5, x, y, 0, 1, true); w[0] >= w[1]
  {
    SeedsOf4And5();
  }

  /**
   * Every pixel of a 4x4 block is in partition 0 under partIdx 4
   * (partition count 0) and under partIdx 5 (partition count 1).
   */
  lemma PixelsOf4And5(x: bv32, y: bv32)
    requires x < 4 && y < 4
    ensures SelectPartition(4, x, y, 0, 0, true) == 0
    ensures SelectPartition(5, x, y, 0, 1, true) == 0
  {
    LinesOf4(x, y);
    LinesOf5(x, y);
    SelectTwoWay(4, x, y, 0, 0, true);
    SelectTwoWay(5, x, y, 0, 1, true);
  }

  /** Under partIdx 4 and 5 every row of a 4x4 block is all partition 0. */
  lemma ZeroRowsOf4And5(partIdx: nat, j: nat)
    requires (partIdx == 4 || partIdx == 5) && j < 4
    ensures RowASTC(4, 4, partIdx, j) == [0, 0, 0, 0]
  {
    assert (4 as bv32) & 3 == 0 && (5 as bv32) & 3 == 1;
    forall i | 0 <= i < 4 ensures RawLabelASTC(4, 4, partIdx, i, j) == 0 {
      PixelsOf4And5(i as bv32, j as bv32);
    }
  }

  /** Under partIdx 4 and 5 the raw 4x4 labels are all 0. */
  lemma ZeroLabelsOf4And5(partIdx: nat)
    requires partIdx == 4 || partIdx == 5
    ensures RawASTC(4, 4, partIdx) == seq(16, _ => 0)
  {
    forall j | 0 <= j < 4 ensures RowASTC(4, 4, partIdx, j) == seq(4, _ => 0) {
      ZeroRowsOf4And5(partIdx, j);
    }
    ZeroRows(4, 4, partIdx, 4);
  }

  /** A block whose rows are all partition 0 has raw labels all 0. */
  lemma {:induction false} ZeroRows(n: nat, m: nat, partIdx: nat, rows: nat)
    requires BlockDims(n, m) && partIdx <= MaxPartitionIndex && rows <= m
    requires forall j :: 0 <= j < rows ==> RowASTC(n, m, partIdx, j) == seq(n, _ => 0)
    ensures RowsASTC(n, m, partIdx, rows) == seq(rows * n, _ => 0)
  {
    if rows > 0 {
      ZeroRows(n, m, partIdx, rows - 1);
      assert rows * n == (rows - 1) * n + n;
    }
  }

  /** The 4x4 candidates of partIdx 4 and 5 have the same labels. */
  lemma SameLabelsOf4And5()
    ensures CandidatesASTC(4, 4)[4].labels == CandidatesASTC(4, 4)[5].labels
  {
    ZeroLabelsOf4And5(4);
    ZeroLabelsOf4And5(5);
  }

  /** A candidate is the one at its own index. */
  lemma CandidateAtIndex(n: nat, m: nat, p: Partition)
    requires BlockDims(n, m) && p in CandidatesASTC(n, m)
    ensures GetIndex(p) <= MaxPartitionIndex && CandidatesASTC(n, m)[GetIndex(p)] == p
  {
    var a :| 0 <= a < |CandidatesASTC(n, m)| && CandidatesASTC(n, m)[a] == p;
  }

  /**
   * As written, EnumerateASTC<4, 4> stores partIdx 4 and partIdx 5 although
   * they label the block identically: operator== also compares the index.
   */
  lemma AstcKeepsDuplicateLabels()
    ensures var r := Dedup(CandidatesASTC(4, 4), Equal);
      |r| == 4096 && GetIndex(r[4]) == 4 && GetIndex(r[5]) == 5 && r[4].labels == r[5].labels
  {
    AstcKeepsEveryCandidate(4, 4);
    SameLabelsOf4And5();
  }

  /**
   * With the label comparison, EnumerateASTCByLabels<4, 4> does not store
   * both partIdx 4 and partIdx 5.
   */
  lemma ByLabelsDropsDuplicate()
    ensures var d := Dedup(CandidatesASTC(4, 4), SameLabels);
      forall i, j :: 0 <= i < |d| && 0 <= j < |d| && GetIndex(d[i]) == 4 ==> GetIndex(d[j]) != 5
  {
    SameLabelsOf4And5();
    ByLabelsKeepsOne(4, 4, 4, 5);
  }

  /**
   * With the label comparison, of two partition indices that label the
   * block identically at most one is stored.
   */
  lemma ByLabelsKeepsOne(n: nat, m: nat, a: nat, b: nat)
    requires BlockDims(n, m) && a <= MaxPartitionIndex && b <= MaxPartitionIndex && a != b
    requires CandidatesASTC(n, m)[a].labels == CandidatesASTC(n, m)[b].labels
    ensures var d := Dedup(CandidatesASTC(n, m), SameLabels);
      forall i, j :: 0 <= i < |d| && 0 <= j < |d| && GetIndex(d[i]) == a ==> GetIndex(d[j]) != b
  {
    var cs := CandidatesASTC(n, m);
    var d := Dedup(cs, SameLabels);
    DedupNoLaterSame(cs, SameLabels);
    DedupFromCandidates(cs, SameLabels);
    forall i, j | 0 <= i < |d| && 0 <= j < |d| && GetIndex(d[i]) == a ensures GetIndex(d[j]) != b {
      assert d[i] in d && d[j] in d;
      CandidateAtIndex(n, m, d[i]);
      CandidateAtIndex(n, m, d[j]);
      assert SameLabels(d[i], d[j]) == SameLabels(d[j], d[i]);
    }
  }
}
