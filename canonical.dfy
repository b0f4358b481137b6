/**
 * The first-seen relabelling that both enumerators of Partition.cpp apply
 * to a raw label buffer: labels are renumbered 0, 1, 2, ... in the order in
 * which they first occur, so that two labellings that differ only by a
 * renaming of their parts become the same.
 *
 * `Relabel` states the result as a function of the raw labels; `Remap` is
 * the in-place loop over the buffer with the `map` array and the `lastPart`
 * counter, proved to compute it.
 */
module Canonical {
  import opened Partitions
  import opened FiniteSets

  /** The set of values that occur in s. */
  function Seen(s: seq<int>): set<int> {
    set x | x in s
  }

  /** The labels 0 .. c-1. */
  function Range(c: nat): set<int> {
    if c == 0 then {} else Range(c - 1) + {c - 1}
  }

  lemma {:induction false} InRange(c: nat, x: int)
    ensures x in Range(c) <==> 0 <= x < c
  {
    if c > 0 {
      InRange(c - 1, x);
    }
  }

  /** The first position at which v occurs in s. */
  function First(s: seq<int>, v: int): (k: nat)
    requires v in s
    ensures k < |s| && s[k] == v && v !in s[..k]
  {
    if s[0] == v then 0
    else
      var k := First(s[1..], v);
      assert s[..k + 1] == [s[0]] + s[1..][..k];
      k + 1
  }

  /**
   * The new label of pixel i: the number of distinct raw labels seen before
   * the raw label of pixel i first occurs.
   */
  function Label(raw: seq<int>, i: nat): nat
    requires i < |raw|
  {
    |Seen(raw[..First(raw, raw[i])])|
  }

  /** The relabelled buffer. */
  function Relabel(raw: seq<int>): (r: seq<nat>)
    ensures |r| == |raw|
  {
    seq(|raw|, i requires 0 <= i < |raw| => Label(raw, i))
  }

  /**
   * First-seen canonical form (a restricted-growth string): every label is
   * non-negative, and each one is 0 or at most one more than some label
   * before it, that is, at most 1 + the largest label before it.  In
   * particular the first label is 0.
   */
  predicate IsCanonical(s: seq<int>) {
    forall i :: 0 <= i < |s| ==>
      0 <= s[i] && (s[i] == 0 || exists j :: 0 <= j < i && s[i] <= s[j] + 1)
  }

  // ---------------------------------------------------------------------
  // Set and counting facts

  lemma {:induction false} RangeCard(c: nat)
    ensures |Range(c)| == c
  {
    if c > 0 {
      RangeCard(c - 1);
      InRange(c - 1, c - 1);
    }
  }

  lemma SeenSnoc(s: seq<int>, k: nat)
    requires k < |s|
    ensures Seen(s[..k + 1]) == Seen(s[..k]) + {s[k]}
  {
    assert s[..k + 1] == s[..k] + [s[k]];
  }

  lemma SeenPrefix(s: seq<int>, f: nat, g: nat)
    requires f <= g <= |s|
    ensures Seen(s[..f]) <= Seen(s[..g])
  {
    forall x | x in Seen(s[..f]) ensures x in Seen(s[..g]) {
      var k :| 0 <= k < f && s[k] == x;
      assert s[..g][k] == x;
    }
  }

  /** A label's first occurrence before position g adds to the count there. */
  lemma SeenGrows(s: seq<int>, f: nat, g: nat)
    requires f < g <= |s| && s[f] !in s[..f]
    ensures |Seen(s[..f])| < |Seen(s[..g])|
  {
    SeenSnoc(s, f);
    SeenPrefix(s, f + 1, g);
    SubsetCard(Seen(s[..f + 1]), Seen(s[..g]));
  }

  /** A value that is new at position k first occurs there. */
  lemma FirstOfNew(s: seq<int>, k: nat)
    requires k < |s| && s[k] !in s[..k]
    ensures First(s, s[k]) == k
  {
  }

  /** A value seen before position k first occurs before k. */
  lemma FirstOfOld(s: seq<int>, k: nat, v: int)
    requires k <= |s| && v in s[..k]
    ensures First(s, v) < k
  {
  }

  // ---------------------------------------------------------------------
  // Properties of Relabel

  /**
   * The labels used by the first i relabelled pixels are exactly
   * 0 .. c-1, where c is the number of distinct raw labels among them.
   */
  lemma {:induction false} RelabelPrefix(raw: seq<int>, i: nat)
    requires i <= |raw|
    ensures Seen(Relabel(raw)[..i]) == Range(|Seen(raw[..i])|)
  {
    if i > 0 {
      var k := i - 1;
      RelabelPrefix(raw, k);
      var c := |Seen(raw[..k])|;
      SeenSnoc(Relabel(raw), k);
      if raw[k] !in raw[..k] {
        NewLabel(raw, k);
      } else {
        OldLabel(raw, k);
        InRange(c, Relabel(raw)[k]);
      }
    }
  }

  /** A raw label met for the first time at k gets the next new label. */
  lemma NewLabel(raw: seq<int>, k: nat)
    requires k < |raw| && raw[k] !in raw[..k]
    ensures Relabel(raw)[k] == |Seen(raw[..k])|
    ensures |Seen(raw[..k + 1])| == |Seen(raw[..k])| + 1
  {
    FirstOfNew(raw, k);
    SeenSnoc(raw, k);
  }

  /** A raw label met before k keeps the label it got then. */
  lemma OldLabel(raw: seq<int>, k: nat)
    requires k < |raw| && raw[k] in raw[..k]
    ensures Relabel(raw)[k] < |Seen(raw[..k])|
    ensures Seen(raw[..k + 1]) == Seen(raw[..k])
  {
    FirstOfOld(raw, k, raw[k]);
    SeenGrows(raw, First(raw, raw[k]), k);
    SeenSnoc(raw, k);
  }

  /** A pixel's new label is below the count of distinct raw labels up to it. */
  lemma LabelBound(raw: seq<int>, i: nat)
    requires i < |raw|
    ensures Relabel(raw)[i] < |Seen(raw[..i + 1])| <= |Seen(raw)|
  {
    var f := First(raw, raw[i]);
    SeenGrows(raw, f, i + 1);
    SeenPrefix(raw, i + 1, |raw|);
    assert raw[..|raw|] == raw;
    SubsetCard(Seen(raw[..i + 1]), Seen(raw));
  }

  /** The relabelled buffer is in first-seen canonical form. */
  lemma RelabelIsCanonical(raw: seq<int>)
    ensures IsCanonical(Relabel(raw))
  {
    var r := Relabel(raw);
    forall i | 0 <= i < |r| && r[i] != 0
      ensures exists j :: 0 <= j < i && r[i] <= r[j] + 1
    {
      var j := LabelBelow(raw, i);
      assert r[i] <= r[j] + 1;
    }
  }

  /** A non-zero new label is one more than a label given earlier. */
  lemma LabelBelow(raw: seq<int>, i: nat) returns (j: nat)
    requires i < |raw| && Relabel(raw)[i] != 0
    ensures j < i && Relabel(raw)[j] == Relabel(raw)[i] - 1
  {
    var r := Relabel(raw);
    var c := |Seen(raw[..i])|;
    var f := First(raw, raw[i]);
    SeenPrefix(raw, f, i);
    SubsetCard(Seen(raw[..f]), Seen(raw[..i]));
    RelabelPrefix(raw, i);
    InRange(c, r[i] - 1);
    assert r[i] - 1 in Seen(r[..i]);
    j :| 0 <= j < i && r[..i][j] == r[i] - 1;
  }

  /** The first pixel always gets label 0. */
  lemma RelabelFirstIsZero(raw: seq<int>)
    requires |raw| > 0
    ensures Relabel(raw)[0] == 0
  {
    FirstOfNew(raw, 0);
    assert raw[..0] == [];
  }

  /** Two pixels share a new label exactly when they shared a raw label. */
  lemma RelabelSameIff(raw: seq<int>, i: nat, j: nat)
    requires i < |raw| && j < |raw|
    ensures Relabel(raw)[i] == Relabel(raw)[j] <==> raw[i] == raw[j]
  {
    if raw[i] != raw[j] {
      var fi, fj := First(raw, raw[i]), First(raw, raw[j]);
      if fi < fj {
        SeenGrows(raw, fi, fj);
      } else {
        SeenGrows(raw, fj, fi);
      }
    }
  }

  /** Relabelling keeps the number of distinct labels. */
  lemma RelabelCount(raw: seq<int>)
    ensures |Seen(Relabel(raw))| == |Seen(raw)|
  {
    RelabelPrefix(raw, |raw|);
    assert raw[..|raw|] == raw;
    assert Relabel(raw)[..|raw|] == Relabel(raw);
    RangeCard(|Seen(raw)|);
  }

  /** A buffer of labels below 4 uses at most 4 distinct labels. */
  lemma SeenBelow4(raw: seq<int>)
    requires forall k :: 0 <= k < |raw| ==> 0 <= raw[k] < 4
    ensures |Seen(raw)| <= 4
  {
    assert Seen(raw) <= Range(4);
    SubsetCard(Seen(raw), Range(4));
    RangeCard(4);
  }

  /**
   * In a canonical labelling the labels seen among the first i pixels are
   * exactly 0 .. c-1, c being their number.
   */
  lemma {:induction false} CanonicalPrefix(s: seq<int>, i: nat)
    requires IsCanonical(s) && i <= |s|
    ensures Seen(s[..i]) == Range(|Seen(s[..i])|)
  {
    if i > 0 {
      var k := i - 1;
      CanonicalPrefix(s, k);
      var c := |Seen(s[..k])|;
      CanonicalNext(s, k);
      SeenSnoc(s, k);
      RangeAdd(c, s[k]);
      RangeCard(c + 1);
    }
  }

  /** Adding a label at most c to the labels 0 .. c-1. */
  lemma RangeAdd(c: nat, x: int)
    requires 0 <= x <= c
    ensures Range(c) + {x} == if x == c then Range(c + 1) else Range(c)
  {
    if x < c {
      InRange(c, x);
    }
  }

  /**
   * The next label of a canonical labelling is at most the count c of
   * labels seen so far, and it is new exactly when it equals c.
   */
  lemma CanonicalNext(s: seq<int>, i: nat)
    requires IsCanonical(s) && i < |s|
    requires Seen(s[..i]) == Range(|Seen(s[..i])|)
    ensures 0 <= s[i] <= |Seen(s[..i])|
    ensures s[i] !in s[..i] <==> s[i] == |Seen(s[..i])|
  {
    var c := |Seen(s[..i])|;
    if s[i] != 0 {
      var j :| 0 <= j < i && s[i] <= s[j] + 1;
      assert s[j] in Seen(s[..i]) by { assert s[..i][j] == s[j]; }
      InRange(c, s[j]);
    }
    InRange(c, s[i]);
    InRange(c, c);
  }

  /** Relabelling a labelling already in canonical form leaves it unchanged. */
  lemma RelabelIdempotent(s: seq<int>)
    requires IsCanonical(s)
    ensures Relabel(s) == s
  {
    forall i | 0 <= i < |s| ensures Relabel(s)[i] == s[i] {
      var f := First(s, s[i]);
      CanonicalPrefix(s, f);
      CanonicalNext(s, f);
    }
  }

  /** Relabelling twice is relabelling once. */
  lemma RelabelTwice(raw: seq<int>)
    ensures Relabel(Relabel(raw)) == Relabel(raw)
  {
    RelabelIsCanonical(raw);
    RelabelIdempotent(Relabel(raw));
  }

  // ---------------------------------------------------------------------
  // The in-place remap loop

  /**
   * The remap loop of EnumerateASTC and EnumerateBPTC over the first `size`
   * entries of `parts`.  EnumerateASTC nests it as j < M, i < N over entry
   * j*N + i, which visits the entries 0 .. N*M-1 in increasing order, the
   * order of this loop.  `mapping` is the source's `map` array, set to -1 by
   * the memset with 0xFF; an unseen raw label gets the next value of
   * `lastPart`, and every entry is replaced by its mapped label.  The
   * returned `lastPart` is the number of distinct raw labels, at most 4.
   */
  method Remap(parts: array<uint8>, size: nat) returns (lastPart: int)
    requires size <= parts.Length
    requires forall k :: 0 <= k < size ==> parts[k] < 4
    modifies parts
    ensures parts[..size] == Relabel(old(parts[..size]))
    ensures parts[size..] == old(parts[size..])
    ensures lastPart == |Seen(old(parts[..size]))| <= 4
  {
    ghost var raw: seq<int> := parts[..size];
    ghost var rest: seq<int> := parts[size..];
    assert parts[..] == raw + rest;
    SeenBelow4(raw);
    var mapping := new int[4](_ => -1);
    lastPart := 0;
    RemapStart(parts[..], mapping[..], raw, rest);
    for k := 0 to size
      invariant RemapInv(parts[..], mapping[..], raw, rest, k, lastPart)
    {
      lastPart := RemapEntry(parts, mapping, k, lastPart, raw, rest);
    }
    RemapDone(parts[..], mapping[..], raw, rest, lastPart, size);
  }

  /** The body of the remap loop for entry k. */
  method RemapEntry(parts: array<uint8>, mapping: array<int>, k: nat, lastPart: int,
                    ghost raw: seq<int>, ghost rest: seq<int>) returns (lastPart': int)
    requires RemapInv(parts[..], mapping[..], raw, rest, k, lastPart) && k < |raw|
    modifies parts, mapping
    ensures RemapInv(parts[..], mapping[..], raw, rest, k + 1, lastPart')
  {
    ghost var before: seq<int>, mapBefore := parts[..], mapping[..];
    MappedBound(before, mapBefore, raw, rest, k, lastPart);
    lastPart' := lastPart;
    var part := parts[k];
    if mapping[part] < 0 {
      mapping[part] := lastPart';
      lastPart' := lastPart' + 1;
    }
    parts[k] := mapping[part];
    RemapStep(before, mapBefore, raw, rest, k, lastPart, parts[..], mapping[..], lastPart');
  }

  /** The labels handed out so far fit in a uint8. */
  lemma MappedBound(parts: seq<int>, mapping: seq<int>, raw: seq<int>, rest: seq<int>,
                    k: nat, lastPart: int)
    requires RemapInv(parts, mapping, raw, rest, k, lastPart) && k < |raw|
    ensures parts[k] == raw[k] && 0 <= raw[k] < 4
    ensures 0 <= lastPart <= 4
    ensures mapping[raw[k]] >= 0 ==> mapping[raw[k]] <= 4
  {
    assert parts[k..|raw|][0] == raw[k..][0];
    SeenBelow4(raw[..k]);
    if mapping[raw[k]] >= 0 {
      SeenBelow4(raw[..First(raw, raw[k])]);
    }
  }

  /**
   * The state of the remap loop after the first k pixels: those hold their
   * new labels, the others their raw labels, `lastPart` counts the raw
   * labels met so far and `mapping` sends each of them to its new label.
   */
  ghost predicate RemapInv(parts: seq<int>, mapping: seq<int>, raw: seq<int>, rest: seq<int>,
                           k: nat, lastPart: int)
  {
    k <= |raw| && |parts| == |raw| + |rest| &&
    (forall q :: 0 <= q < |raw| ==> 0 <= raw[q] < 4) &&
    PartsInv(parts, raw, rest, k) && MappingInv(mapping, raw, k, lastPart)
  }

  /** The first k entries are relabelled, the rest untouched. */
  ghost predicate PartsInv(parts: seq<int>, raw: seq<int>, rest: seq<int>, k: nat)
    requires k <= |raw| && |parts| == |raw| + |rest|
  {
    parts[..k] == Relabel(raw)[..k] && parts[k..|raw|] == raw[k..] && parts[|raw|..] == rest
  }

  /** `mapping` and `lastPart` after the first k raw labels. */
  ghost predicate MappingInv(mapping: seq<int>, raw: seq<int>, k: nat, lastPart: int)
    requires k <= |raw|
  {
    |mapping| == 4 &&
    lastPart == |Seen(raw[..k])| &&
    (forall v :: 0 <= v < 4 ==> (mapping[v] >= 0 <==> v in raw[..k])) &&
    (forall v :: 0 <= v < 4 && v in raw[..k] ==> mapping[v] == |Seen(raw[..First(raw, v)])|)
  }

  /** One pass of the inner loop body keeps the remap state. */
  lemma RemapStep(parts: seq<int>, mapping: seq<int>, raw: seq<int>, rest: seq<int>, k: nat,
                  lastPart: int, parts': seq<int>, mapping': seq<int>, lastPart': int)
    requires RemapInv(parts, mapping, raw, rest, k, lastPart) && k < |raw|
    requires 0 <= parts[k] < 4
    requires mapping' == (if mapping[parts[k]] < 0 then mapping[parts[k] := lastPart] else mapping)
    requires lastPart' == (if mapping[parts[k]] < 0 then lastPart + 1 else lastPart)
    requires parts' == parts[k := mapping'[parts[k]]]
    ensures RemapInv(parts', mapping', raw, rest, k + 1, lastPart')
  {
    assert parts[k] == raw[k] by { assert parts[k..|raw|][0] == raw[k..][0]; }
    MappingStep(mapping, raw, k, lastPart, mapping', lastPart');
    PartsStep(parts, raw, rest, k, parts');
  }

  /** Storing pixel k's new label keeps the buffer half of the state. */
  lemma PartsStep(parts: seq<int>, raw: seq<int>, rest: seq<int>, k: nat, parts': seq<int>)
    requires k < |raw| && |parts| == |raw| + |rest| && PartsInv(parts, raw, rest, k)
    requires parts' == parts[k := Relabel(raw)[k]]
    ensures PartsInv(parts', raw, rest, k + 1)
  {
    assert parts'[..k + 1] == parts[..k] + [Relabel(raw)[k]];
    assert Relabel(raw)[..k + 1] == Relabel(raw)[..k] + [Relabel(raw)[k]];
    assert parts'[k + 1..|raw|] == parts[k + 1..|raw|];
    assert parts[k + 1..|raw|] == parts[k..|raw|][1..];
    assert raw[k + 1..] == raw[k..][1..];
    assert parts'[|raw|..] == parts[|raw|..];
  }

  /** Looking up (and perhaps assigning) raw label k keeps the mapping half. */
  lemma MappingStep(mapping: seq<int>, raw: seq<int>, k: nat, lastPart: int,
                    mapping': seq<int>, lastPart': int)
    requires k < |raw| && 0 <= raw[k] < 4 && MappingInv(mapping, raw, k, lastPart)
    requires mapping' == (if mapping[raw[k]] < 0 then mapping[raw[k] := lastPart] else mapping)
    requires lastPart' == (if mapping[raw[k]] < 0 then lastPart + 1 else lastPart)
    ensures MappingInv(mapping', raw, k + 1, lastPart')
    ensures mapping'[raw[k]] == Relabel(raw)[k]
  {
    RemapStepFacts(raw, k);
  }

  /** Before the first pixel, with every entry of `mapping` at -1. */
  lemma RemapStart(parts: seq<int>, mapping: seq<int>, raw: seq<int>, rest: seq<int>)
    requires parts == raw + rest && mapping == [-1, -1, -1, -1]
    requires forall q :: 0 <= q < |raw| ==> 0 <= raw[q] < 4
    ensures RemapInv(parts, mapping, raw, rest, 0, 0)
  {
    assert raw[..0] == [];
  }

  /** After the last pixel the buffer holds the relabelled labels. */
  lemma RemapDone(parts: seq<int>, mapping: seq<int>, raw: seq<int>, rest: seq<int>,
                  lastPart: int, size: nat)
    requires size == |raw| && RemapInv(parts, mapping, raw, rest, size, lastPart)
    ensures parts[..size] == Relabel(raw) && parts[size..] == rest
    ensures lastPart == |Seen(raw)|
  {
    assert raw[..size] == raw;
  }

  /** What processing pixel k does to the counts the loop keeps. */
  lemma RemapStepFacts(raw: seq<int>, k: nat)
    requires k < |raw|
    ensures forall v :: v in raw[..k + 1] <==> v in raw[..k] || v == raw[k]
    ensures forall v :: v in raw[..k] ==> First(raw, v) < k
    ensures raw[k] !in raw[..k] ==>
      First(raw, raw[k]) == k && |Seen(raw[..k + 1])| == |Seen(raw[..k])| + 1
    ensures raw[k] in raw[..k] ==> Seen(raw[..k + 1]) == Seen(raw[..k])
    ensures Relabel(raw)[k] == |Seen(raw[..First(raw, raw[k])])|
  {
    SeenSnoc(raw, k);
    assert raw[..k + 1] == raw[..k] + [raw[k]];
    if raw[k] !in raw[..k] {
      FirstOfNew(raw, k);
    }
    forall v | v in raw[..k] ensures First(raw, v) < k {
      FirstOfOld(raw, k, v);
    }
  }
}
