/** The record-in-use bitmap of src/RecordStore.c and the bit helpers it uses. */
module Bitmap {
  import opened BitUtils

  /** bu_getSingleBitMask */
  function SingleBitMask(i: nat): bv8 {
    match i % 8
    case 0 => 0x01
    case 1 => 0x02
    case 2 => 0x04
    case 3 => 0x08
    case 4 => 0x10
    case 5 => 0x20
    case 6 => 0x40
    case _ => 0x80
  }

  predicate TestBit(x: bv8, i: nat) { x & SingleBitMask(i) != 0 }

  function SetBit(x: bv8, i: nat): bv8 { x | SingleBitMask(i) }

  function ClearBit(x: bv8, i: nat): bv8 { x & !SingleBitMask(i) }

  lemma MasksAreDistinctBits(x: bv8, i: nat, j: nat)
    ensures TestBit(SetBit(x, i), j) <==> i % 8 == j % 8 || TestBit(x, j)
    ensures TestBit(ClearBit(x, i), j) <==> i % 8 != j % 8 && TestBit(x, j)
  {
    hide SingleBitMask;
    DistinctMasks(i, j);
    if i % 8 == j % 8 {
      OneBit(x, SingleBitMask(i));
    } else {
      OtherBit(x, SingleBitMask(i), SingleBitMask(j));
    }
  }

  lemma DistinctMasks(i: nat, j: nat)
    ensures SingleBitMask(i) != 0
    ensures if i % 8 == j % 8 then SingleBitMask(i) == SingleBitMask(j)
            else SingleBitMask(i) & SingleBitMask(j) == 0
  {
  }

  lemma OneBit(x: bv8, a: bv8)
    ensures (x | a) & a == a && (x & !a) & a == 0
  {
  }

  lemma OtherBit(x: bv8, a: bv8, b: bv8)
    requires a & b == 0
    ensures (x | a) & b == x & b && (x & !a) & b == x & b
  {
  }

  predicate IsMarked(bitmap: seq<bv8>, i: nat)
    requires i < 8 * |bitmap|
  {
    TestBit(bitmap[i / 8], i)
  }

  function Mark(bitmap: seq<bv8>, i: nat): (b: seq<bv8>)
    requires i < 8 * |bitmap|
    ensures |b| == |bitmap|
  {
    bitmap[i / 8 := SetBit(bitmap[i / 8], i)]
  }

  function Unmark(bitmap: seq<bv8>, i: nat): (b: seq<bv8>)
    requires i < 8 * |bitmap|
    ensures |b| == |bitmap|
  {
    bitmap[i / 8 := ClearBit(bitmap[i / 8], i)]
  }

  /** Marking and unmarking touch one bit only. */
  lemma MarkedAfter(bitmap: seq<bv8>, i: nat, j: nat)
    requires i < 8 * |bitmap| && j < 8 * |bitmap|
    ensures IsMarked(Mark(bitmap, i), j) <==> j == i || IsMarked(bitmap, j)
    ensures IsMarked(Unmark(bitmap, i), j) <==> j != i && IsMarked(bitmap, j)
  {
    hide TestBit, SetBit, ClearBit;
    if i / 8 == j / 8 {
      MasksAreDistinctBits(bitmap[i / 8], i, j);
      assert i % 8 == j % 8 <==> i == j;
    }
  }

  /** The slots in use: the marked bits below numBits. */
  function MarkedSet(bitmap: seq<bv8>, numBits: nat): set<nat>
    requires numBits <= 8 * |bitmap|
  {
    set i: nat | i < numBits && IsMarked(bitmap, i)
  }

  /** calloc: nothing is marked. */
  function Cleared(numBits: nat): (b: seq<bv8>)
    ensures |b| == NumBytes(numBits)
    ensures forall j: nat :: j < 8 * |b| ==> !IsMarked(b, j)
  {
    seq(NumBytes(numBits), _ => 0)
  }
}
