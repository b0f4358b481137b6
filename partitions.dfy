/**
 * The value type Partition<N, M> of Partition.h: a partition index and the
 * N*M per-pixel labels, with its memcmp equality and its Hamming distance.
 *
 * Partition objects are copied by value (pushed into result vectors, passed
 * to the VP-tree), so the model is a datatype; the template size N*M is the
 * length of `labels`, which every constructor fixes.
 */
module Partitions {

  type uint8 = x: int | 0 <= x < 0x100
  type int32 = x: int | -0x8000_0000 <= x < 0x8000_0000
  type uint32 = x: int | 0 <= x < 0x1_0000_0000

  /** m_Index and m_Partitions[Size]. */
  datatype Partition = Partition(index: int32, labels: seq<uint8>)

  /** The uint32 that a C++ conversion from int32 gives: the low 32 bits. */
  function ToUint32(v: int32): (u: uint32)
    ensures v >= 0 ==> u == v
    ensures v < 0 ==> u == v + 0x1_0000_0000
  {
    v % 0x1_0000_0000
  }

  /** The int32 that a C++ conversion from uint32 gives (two's complement). */
  function ToInt32(u: uint32): (v: int32)
    ensures ToUint32(v) == u
  {
    if u < 0x8000_0000 then u else u - 0x1_0000_0000
  }

  /**
   * The default constructor: index -1.  The C++ constructor leaves the labels
   * uninitialised; the model fills them with 0.
   */
  function Default(size: nat): (p: Partition)
    ensures p.index == -1 && |p.labels| == size
  {
    Partition(-1, seq(size, _ => 0))
  }

  /** The constructor Partition(uint32 idx), storing idx as int32 m_Index. */
  function WithIndex(idx: uint32, size: nat): (p: Partition)
    ensures ToUint32(p.index) == idx && |p.labels| == size
  {
    Partition(ToInt32(idx), seq(size, _ => 0))
  }

  /** GetIndex: m_Index read back as uint32; converting it back gives m_Index. */
  function GetIndex(p: Partition): (r: uint32)
    ensures ToInt32(r) == p.index
  {
    ToUint32(p.index)
  }

  /** GetIndex returns what the index constructor stored. */
  lemma GetIndexOfWithIndex(idx: uint32, size: nat)
    ensures GetIndex(WithIndex(idx, size)) == idx
  {
  }

  /** A default-constructed partition reports index 0xFFFFFFFF. */
  lemma GetIndexOfDefault(size: nat)
    ensures GetIndex(Default(size)) == 0xFFFF_FFFF
  {
  }

  /** The four bytes of an int32 in memory (little-endian). */
  function Int32Bytes(v: int32): (b: seq<uint8>)
    ensures |b| == 4
  {
    var u := ToUint32(v);
    [u % 0x100, u / 0x100 % 0x100, u / 0x1_0000 % 0x100, u / 0x100_0000]
  }

  /** The object representation that memcmp reads: m_Index, then the labels. */
  function Bytes(p: Partition): (b: seq<uint8>)
    ensures |b| == 4 + |p.labels| && b[4..] == p.labels
  {
    Int32Bytes(p.index) + p.labels
  }

  /**
   * operator==: memcmp of the two objects.  It compares m_Index as well as
   * the labels, so two partitions with the same labels and different
   * indices are not equal.
   */
  function Equal(a: Partition, b: Partition): (r: bool)
    ensures r <==> a.index == b.index && a.labels == b.labels
  {
    var ba, bb := Bytes(a), Bytes(b);
    if ba == bb then
      assert Int32Bytes(a.index) == ba[..4] && Int32Bytes(b.index) == bb[..4];
      assert a.labels == ba[4..] && b.labels == bb[4..];
      Int32BytesInjective(a.index, b.index);
      true
    else
      false
  }

  /** Distinct int32 values have distinct byte representations. */
  lemma Int32BytesInjective(v: int32, w: int32)
    requires Int32Bytes(v) == Int32Bytes(w)
    ensures v == w
  {
    var u, t := ToUint32(v), ToUint32(w);
    DigitsOf(u);
    DigitsOf(t);
    assert u == t;
  }

  lemma DigitsOf(u: uint32)
    ensures u == u % 0x100 + 0x100 * (u / 0x100 % 0x100)
      + 0x1_0000 * (u / 0x1_0000 % 0x100) + 0x100_0000 * (u / 0x100_0000)
  {
    var q1 := u / 0x100;
    var q2 := q1 / 0x100;
    assert u == u % 0x100 + 0x100 * q1;
    assert q1 == q1 % 0x100 + 0x100 * q2;
    assert q2 == u / 0x1_0000;
    assert q2 == q2 % 0x100 + 0x100 * (q2 / 0x100);
    assert q2 / 0x100 == u / 0x100_0000;
  }

  /** const operator[]: the label of pixel i. */
  function Get(p: Partition, i: nat): (v: uint8)
    requires i < |p.labels|
  {
    p.labels[i]
  }

  /**
   * A write through operator[](i): label i becomes v, every other label and
   * the index stay as they were.
   */
  function Set(p: Partition, i: nat, v: uint8): (q: Partition)
    requires i < |p.labels|
    ensures q.index == p.index && |q.labels| == |p.labels|
    ensures Get(q, i) == v
    ensures forall j :: 0 <= j < |p.labels| && j != i ==> q.labels[j] == p.labels[j]
  {
    p.(labels := p.labels[i := v])
  }

  /** The number of positions where s and t differ. */
  function Mismatches(s: seq<uint8>, t: seq<uint8>): nat
    requires |s| == |t|
  {
    if |s| == 0 then 0
    else Mismatches(s[..|s| - 1], t[..|t| - 1]) + (if s[|s| - 1] != t[|t| - 1] then 1 else 0)
  }

  /** Distance: the loop counting the pixels whose labels differ. */
  method Distance(a: Partition, b: Partition) returns (diff: nat)
    requires |a.labels| == |b.labels|
    ensures diff == Mismatches(a.labels, b.labels)
    ensures diff <= |a.labels|
  {
    var size := |a.labels|;
    diff := 0;
    for j := 0 to size
      invariant diff == Mismatches(a.labels[..j], b.labels[..j])
      invariant diff <= j
    {
      assert a.labels[..j + 1][..j] == a.labels[..j];
      assert b.labels[..j + 1][..j] == b.labels[..j];
      if a.labels[j] != b.labels[j] {
        diff := diff + 1;
      }
    }
    assert a.labels[..size] == a.labels && b.labels[..size] == b.labels;
  }

  /** The distance never exceeds the number of pixels. */
  lemma {:induction false} MismatchesBound(s: seq<uint8>, t: seq<uint8>)
    requires |s| == |t|
    ensures Mismatches(s, t) <= |s|
  {
    if |s| > 0 {
      MismatchesBound(s[..|s| - 1], t[..|t| - 1]);
    }
  }

  /** The distance is symmetric. */
  lemma {:induction false} MismatchesSymmetric(s: seq<uint8>, t: seq<uint8>)
    requires |s| == |t|
    ensures Mismatches(s, t) == Mismatches(t, s)
  {
    if |s| > 0 {
      MismatchesSymmetric(s[..|s| - 1], t[..|t| - 1]);
    }
  }

  /** The distance is 0 exactly when the label arrays are equal. */
  lemma {:induction false} MismatchesZeroIff(s: seq<uint8>, t: seq<uint8>)
    requires |s| == |t|
    ensures Mismatches(s, t) == 0 <==> s == t
  {
    if |s| > 0 {
      var n := |s| - 1;
      MismatchesZeroIff(s[..n], t[..n]);
      assert s == s[..n] + [s[n]] && t == t[..n] + [t[n]];
    }
  }

  /** The distance satisfies the triangle inequality. */
  lemma {:induction false} MismatchesTriangle(s: seq<uint8>, t: seq<uint8>, u: seq<uint8>)
    requires |s| == |t| == |u|
    ensures Mismatches(s, u) <= Mismatches(s, t) + Mismatches(t, u)
  {
    if |s| > 0 {
      var n := |s| - 1;
      MismatchesTriangle(s[..n], t[..n], u[..n]);
    }
  }

  /** Distance as a function on partitions of one block size, for the VP-tree. */
  function LabelDistance(a: Partition, b: Partition): nat {
    if |a.labels| == |b.labels| then Mismatches(a.labels, b.labels) else 0
  }

  /**
   * On partitions of one block size the distance is a metric on label
   * arrays: zero exactly on equal labels whatever the indices, symmetric,
   * and obeying the triangle inequality.
   */
  lemma LabelDistanceIsMetric(a: Partition, b: Partition, c: Partition)
    requires |a.labels| == |b.labels| == |c.labels|
    ensures LabelDistance(a, b) == 0 <==> a.labels == b.labels
    ensures LabelDistance(a, b) == LabelDistance(b, a)
    ensures LabelDistance(a, c) <= LabelDistance(a, b) + LabelDistance(b, c)
    ensures LabelDistance(a, b) <= |a.labels|
  {
    MismatchesZeroIff(a.labels, b.labels);
    MismatchesSymmetric(a.labels, b.labels);
    MismatchesTriangle(a.labels, b.labels, c.labels);
    MismatchesBound(a.labels, b.labels);
  }
}
