/**
 * The procedural partition-pattern generator of ASTC (section C.2.21,
 * "Partition Pattern Generation", of the ASTC specification), as the
 * repository's Partition.cpp writes it.
 *
 * Every `int32` and `uint32` of the C++ code is a `bv32` here: the code
 * relies on 32-bit wrap-around (the shifts and adds of hash52, the negative
 * seed produced when partitionCount is 0), and bit patterns are what the
 * masks look at.  The small seeds and the masked line sums are numbers, as
 * explained at `SubSeed` and `Line`.  The only signed comparisons in the code are
 * `partitionCount < 4` and `partitionCount < 3`; they are written out with
 * `SignedLess`.
 */
module PartitionHash {

  /** The 32-bit integer mixer hash52: straight-line xor/shift/add steps. */
  function Hash52(p: bv32): bv32 {
    var p1 := p ^ (p >> 15);
    var p2 := p1 - (p1 << 17);
    var p3 := p2 + (p2 << 7);
    var p4 := p3 + (p3 << 4);
    var p5 := p4 ^ (p4 >> 5);
    var p6 := p5 + (p5 << 16);
    var p7 := p6 ^ (p6 >> 7);
    var p8 := p7 ^ (p7 >> 3);
    var p9 := p8 ^ (p8 << 6);
    p9 ^ (p9 >> 17)
  }

  /**
   * The signed comparison `a < b` on int32 operands: flipping the sign bit
   * maps two's-complement order onto unsigned order.
   */
  predicate SignedLess(a: bv32, b: bv32) {
    (a ^ 0x8000_0000) < (b ^ 0x8000_0000)
  }

  /** The three shift amounts sh1, sh2, sh3 chosen from the adjusted seed. */
  datatype Shifts = Shifts(sh1: bv32, sh2: bv32, sh3: bv32)

  predicate IsShift(s: bv32) {
    s == 4 || s == 5 || s == 6
  }

  /**
   * The shift selection of SelectPartition; `seed` is the seed after the
   * partition-count adjustment, as in the source.
   */
  function ShiftAmounts(seed: bv32, partitionCount: bv32): (s: Shifts)
    ensures IsShift(s.sh1) && IsShift(s.sh2) && IsShift(s.sh3)
    ensures s.sh3 == s.sh1 || s.sh3 == s.sh2
  {
    var sh1: bv32 :=
      if seed & 1 != 0 then (if seed & 2 != 0 then 4 else 5)
      else (if partitionCount == 3 then 6 else 5);
    var sh2: bv32 :=
      if seed & 1 != 0 then (if partitionCount == 3 then 6 else 5)
      else (if seed & 2 != 0 then 4 else 5);
    var sh3 := if seed & 0x10 != 0 then sh1 else sh2;
    Shifts(sh1, sh2, sh3)
  }

  /** The seed adjustment `seed += (partitionCount-1) * 1024`, wrapping. */
  function AdjustSeed(seed: bv32, partitionCount: bv32): bv32 {
    seed + (partitionCount - 1) * 1024
  }

  /**
   * The adjustment adds a multiple of 1024, so it keeps bits 0, 1 and 4 of
   * the seed, the only bits the shift selection reads.
   */
  lemma AdjustKeepsLowBits(seed: bv32, partitionCount: bv32)
    ensures AdjustSeed(seed, partitionCount) & 0x13 == seed & 0x13
  {
    var k := partitionCount - 1;
    assert (seed + k * 1024) & 0x13 == seed & 0x13;
  }

  /**
   * The shift amounts of SelectPartition depend only on bits 0, 1 and 4 of
   * the caller's seed and on whether the partition count is 3.
   */
  lemma ShiftsDependOnLowBits(seed: bv32, pc: bv32, seed': bv32, pc': bv32)
    requires seed & 0x13 == seed' & 0x13
    requires (pc == 3) == (pc' == 3)
    ensures ShiftAmounts(AdjustSeed(seed, pc), pc) == ShiftAmounts(AdjustSeed(seed', pc'), pc')
  {
    AdjustKeepsLowBits(seed, pc);
    AdjustKeepsLowBits(seed', pc');
    var s := AdjustSeed(seed, pc);
    var s' := AdjustSeed(seed', pc');
    BitsOf13(s, s');
  }

  lemma BitsOf13(s: bv32, s': bv32)
    requires s & 0x13 == s' & 0x13
    ensures (s & 1 != 0) == (s' & 1 != 0)
    ensures (s & 2 != 0) == (s' & 2 != 0)
    ensures (s & 0x10 != 0) == (s' & 0x10 != 0)
  {
  }

  /**
   * A 4-bit field of rnum squared and shifted right (one uint8 seedN; the
   * square is at most 225, so it never wraps in eight bits).
   */
  function SubSeed(field: bv32, sh: bv32): (r: nat)
    requires IsShift(sh)
    ensures r <= 14
  {
    var f := (field & 0xF) as nat;
    assert f <= 15;
    assert f * f <= 15 * f <= 225;
    if sh == 4 then f * f / 16 else if sh == 5 then f * f / 32 else f * f / 64
  }

  /**
   * The seeds seed1 .. seed12 of SelectPartition: twelve 4-bit fields of
   * rnum, squared and shifted right by sh1, sh2 or sh3.
   */
  function SubSeeds(rnum: bv32, sh: Shifts): (r: seq<nat>)
    requires IsShift(sh.sh1) && IsShift(sh.sh2) && IsShift(sh.sh3)
    ensures |r| == 12
    ensures forall i :: 0 <= i < 12 ==> r[i] <= 14
  {
    [SubSeed(rnum, sh.sh1), SubSeed(rnum >> 4, sh.sh2),
     SubSeed(rnum >> 8, sh.sh1), SubSeed(rnum >> 12, sh.sh2),
     SubSeed(rnum >> 16, sh.sh1), SubSeed(rnum >> 20, sh.sh2),
     SubSeed(rnum >> 24, sh.sh1), SubSeed(rnum >> 28, sh.sh2),
     SubSeed(rnum >> 18, sh.sh3), SubSeed(rnum >> 22, sh.sh3),
     SubSeed(rnum >> 26, sh.sh3), SubSeed((rnum >> 30) | (rnum << 2), sh.sh3)]
  }

  /**
   * One line function `sx*x + sy*y + sz*z + r` masked with 0x3F.  The C++
   * sum wraps modulo 2^32 and the mask keeps its low six bits; as 64
   * divides 2^32, that is the exact integer sum of the operands' bit
   * patterns taken modulo 64, which is how it is computed here.
   */
  function Line(sx: nat, sy: nat, sz: nat, x: bv32, y: bv32, z: bv32, r: bv32): (v: int)
    ensures 0 <= v < 64
  {
    (sx * x as int + sy * y as int + sz * z as int + r as int) % 64
  }

  /**
   * The four masked line functions a, b, c, d of SelectPartition, before
   * the partition count forces any of them to 0.
   */
  function Lines(seed: bv32, x: bv32, y: bv32, z: bv32, partitionCount: bv32, smallBlock: bool)
    : (w: seq<int>)
    ensures |w| == 4
    ensures forall i :: 0 <= i < 4 ==> 0 <= w[i] < 64
  {
    var x: bv32 := if smallBlock then x << 1 else x;
    var y := if smallBlock then y << 1 else y;
    var z := if smallBlock then z << 1 else z;
    var seed := AdjustSeed(seed, partitionCount);
    var rnum := Hash52(seed);
    var s := SubSeeds(rnum, ShiftAmounts(seed, partitionCount));
    [Line(s[0], s[1], s[10], x, y, z, rnum >> 14),
     Line(s[2], s[3], s[11], x, y, z, rnum >> 10),
     Line(s[4], s[5], s[8], x, y, z, rnum >> 6),
     Line(s[6], s[7], s[9], x, y, z, rnum >> 2)]
  }

  /**
   * The forcing step of SelectPartition: d becomes 0 when the partition
   * count is below 4, c when it is below 3; a and b are kept.
   */
  function Force(l: seq<int>, partitionCount: bv32): (w: seq<int>)
    requires |l| == 4
    ensures |w| == 4
    ensures w[0] == l[0] && w[1] == l[1]
    ensures w[2] == (if SignedLess(partitionCount, 3) then 0 else l[2])
    ensures w[3] == (if SignedLess(partitionCount, 4) then 0 else l[3])
  {
    var d := if SignedLess(partitionCount, 4) then 0 else l[3];
    var c := if SignedLess(partitionCount, 3) then 0 else l[2];
    [l[0], l[1], c, d]
  }

  /** The weights a, b, c, d that SelectPartition compares. */
  function Weights(seed: bv32, x: bv32, y: bv32, z: bv32, partitionCount: bv32, smallBlock: bool)
    : (w: seq<int>)
    ensures |w| == 4
    ensures forall i :: 0 <= i < 4 ==> 0 <= w[i] < 64
    ensures SignedLess(partitionCount, 4) ==> w[3] == 0
    ensures SignedLess(partitionCount, 3) ==> w[2] == 0
  {
    Force(Lines(seed, x, y, z, partitionCount, smallBlock), partitionCount)
  }

  /**
   * The return cascade of SelectPartition: the first of the four weights
   * that is at least as large as all the others.
   */
  function FirstMax(w: seq<int>): (r: nat)
    requires |w| == 4
    ensures r < 4
    ensures forall j :: 0 <= j < 4 ==> w[j] <= w[r]
    ensures forall j :: 0 <= j < r ==> w[j] < w[r]
  {
    if w[0] >= w[1] && w[0] >= w[2] && w[0] >= w[3] then 0
    else if w[1] >= w[2] && w[1] >= w[3] then 1
    else if w[2] >= w[3] then 2
    else 3
  }

  /**
   * SelectPartition(seed, x, y, z, partitionCount, smallBlock): the
   * partition (0..3) of texel (x, y, z).  The result is the first weight
   * attaining the maximum; a partition count below 3 gives only 0 or 1, and
   * one below 4 never gives 3.
   */
  function SelectPartition(seed: bv32, x: bv32, y: bv32, z: bv32, partitionCount: bv32, smallBlock: bool)
    : (r: nat)
    ensures r < 4
    ensures SignedLess(partitionCount, 3) ==> r <= 1
    ensures SignedLess(partitionCount, 4) ==> r != 3
    ensures var w := Weights(seed, x, y, z, partitionCount, smallBlock);
      (forall j :: 0 <= j < 4 ==> w[j] <= w[r]) && (forall j :: 0 <= j < r ==> w[j] < w[r])
  {
    FirstMax(Weights(seed, x, y, z, partitionCount, smallBlock))
  }

  /**
   * With a partition count below 3 (c and d forced to 0) a texel is in
   * partition 0 exactly when line a is at least line b, and otherwise in
   * partition 1.
   */
  lemma SelectTwoWay(seed: bv32, x: bv32, y: bv32, z: bv32, partitionCount: bv32, smallBlock: bool)
    requires SignedLess(partitionCount, 3)
    ensures var l := Lines(seed, x, y, z, partitionCount, smallBlock);
      SelectPartition(seed, x, y, z, partitionCount, smallBlock) == (if l[0] >= l[1] then 0 else 1)
  {
    var l := Lines(seed, x, y, z, partitionCount, smallBlock);
    assert SignedLess(partitionCount, 4);
    assert Weights(seed, x, y, z, partitionCount, smallBlock) == [l[0], l[1], 0, 0];
  }
}
