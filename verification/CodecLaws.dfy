/** The packed record, bit by bit: which bit of which byte shows which bit of which column. */
module CodecLaws {
  import opened MachineInts
  import opened BitUtils
  import opened Schema
  import opened RecordCodec
  import W = WriteColumns

  /** Bit i of a word of w bits, from the left. */
  function BitOf(x: nat, w: nat, i: nat): (b: nat)
    requires i < w
  {
    x / Pow2(w - 1 - i) % 2
  }

  lemma {:induction false} BitAt(x: nat, w: nat, i: nat)
    requires i < w
    ensures Bits(x, w)[i] <==> BitOf(x, w, i) == 1
  {
    if i < w - 1 {
      BitAt(x / 2, w - 1, i);
      W.Nested(x, 2, Pow2(w - 2 - i));
    }
  }

  lemma {:induction false} BitInByte(bytes: seq<uint8>, k: nat)
    requires k < 8 * |bytes|
    ensures BytesToBits(bytes)[k] <==> BitOf(bytes[k / 8], 8, k % 8) == 1
    decreases bytes
  {
    hide BitOf;
    var init := bytes[..|bytes| - 1];
    if k < 8 * |init| {
      BitInByte(init, k);
    } else {
      BitAt(bytes[|bytes| - 1], 8, k - 8 * |init|);
    }
  }

  /** Bit k of the bytes, from the left, is bit i of the word x of w bits. */
  predicate ShowsBit(raw: seq<uint8>, k: nat, x: nat, w: nat, i: nat) {
    k < 8 * |raw| && i < w && BitOf(raw[k / 8], 8, k % 8) == BitOf(x, w, i)
  }

  lemma SameBit(raw: seq<uint8>, k: nat, x: nat, w: nat, i: nat, bits: seq<bool>)
    requires bits <= BytesToBits(raw) && k < |bits| && i < w && bits[k] == Bits(x, w)[i]
    ensures ShowsBit(raw, k, x, w, i)
  {
    hide Bits, BytesToBits;
    BitInByte(raw, k);
    BitAt(x, w, i);
    hide BitOf;
    TwoValues(raw[k / 8], 8, k % 8);
    TwoValues(x, w, i);
  }

  lemma TwoValues(x: nat, w: nat, i: nat)
    requires i < w
    ensures BitOf(x, w, i) == 0 || BitOf(x, w, i) == 1
  {
    hide Pow2;
    var q := x / Pow2(w - 1 - i);
  }

  lemma SliceAt<T>(s: seq<T>, from: nat, to: nat, part: seq<T>, i: nat)
    requires from <= to <= |s| && s[from..to] == part && i < |part|
    ensures from + i < |s| && s[from + i] == part[i]
  {
    assert s[from..to][i] == s[from + i];
  }

  lemma FieldShows(cols: RecordDef, data: seq<uint16>, raw: seq<uint8>, c: nat, i: nat)
    requires c < |cols| <= |data| && i < ColumnBits(cols[c]) && FieldBits(cols, data, |cols|) <= BytesToBits(raw)
    ensures ShowsBit(raw, BitsBefore(cols, c) + i, Scaled(cols[c], data[c]), ColumnBits(cols[c]), i)
  {
    NextStart(cols, c);
    hide *;
    var x, w, bits := Scaled(cols[c], data[c]), ColumnBits(cols[c]), FieldBits(cols, data, |cols|);
    BitsBeforeMonotone(cols, c + 1, |cols|);
    FieldOfRecord(cols, data, c, |cols|);
    SliceAt(bits, BitsBefore(cols, c), BitsBefore(cols, c + 1), Bits(x, w), i);
    SameBit(raw, BitsBefore(cols, c) + i, x, w, i, bits);
  }

  lemma NextStart(cols: RecordDef, c: nat)
    requires c < |cols|
    ensures BitsBefore(cols, c + 1) == BitsBefore(cols, c) + ColumnBits(cols[c])
  {
  }

  /** How many steps the value lies above the minimum. */
  function StepsAbove(col: Column, value: int): (n: nat)
    requires col.minValue <= value
  {
    (value - col.minValue) / Step(col)
  }

  lemma ScaledIsSteps(col: Column, value: uint16)
    requires col.minValue <= value
    ensures Scaled(col, value) == StepsAbove(col, value)
  {
    hide Step;
  }

  lemma OutputBits(table: Table, data: seq<uint16>)
    requires EncodePre(table, data)
    ensures var cols := table.recordDefs[RecordDefId(table, data[0])];
            |cols| <= |data| && FieldBits(cols, data, |cols|) <= BytesToBits(Encoded(table, data))
  {
    EncodedBits(table, data, []);
    hide Encoded, BytesToBits, FieldBits;
    assert Encoded(table, data) + [] == Encoded(table, data);
  }

  /** Bit i of column c in the bytes of a record: big-endian, one column behind the other, each as the
      number of steps above its minimum. */
  lemma EncodedBitLaw(table: Table, data: seq<uint16>, c: nat, i: nat)
    requires EncodePre(table, data)
    requires var cols := table.recordDefs[RecordDefId(table, data[0])];
             c < |cols| && i < ColumnBits(cols[c]) && cols[c].minValue <= data[c]
    ensures var cols := table.recordDefs[RecordDefId(table, data[0])];
            ShowsBit(Encoded(table, data), BitsBefore(cols, c) + i,
                     StepsAbove(cols[c], data[c]), ColumnBits(cols[c]), i)
  {
    var cols, raw := table.recordDefs[RecordDefId(table, data[0])], Encoded(table, data);
    OutputBits(table, data);
    hide *;
    ScaledIsSteps(cols[c], data[c]);
    FieldShows(cols, data, raw, c, i);
  }

  /** The bits behind the last column are zero. */
  lemma PaddingLaw(table: Table, data: seq<uint16>, k: nat)
    requires EncodePre(table, data)
    requires TotalBits(table.recordDefs[RecordDefId(table, data[0])]) <= k < 8 * |Encoded(table, data)|
    ensures BitOf(Encoded(table, data)[k / 8], 8, k % 8) == 0
  {
    var cols, raw := table.recordDefs[RecordDefId(table, data[0])], Encoded(table, data);
    BitsOfBytes(PaddedBits(cols, data));
    BehindIsZero(cols, data, k);
    hide Encoded, EncodePre, BytesToBits, PaddedBits, BitOf, TotalBits;
    BitInByte(raw, k);
    TwoValues(raw[k / 8], 8, k % 8);
  }

  lemma BehindIsZero(cols: RecordDef, data: seq<uint16>, k: nat)
    requires |cols| <= |data| && TotalBits(cols) <= k < |PaddedBits(cols, data)|
    ensures !PaddedBits(cols, data)[k]
  {
    hide FieldBits, BitsBefore;
  }

  /** A column gets the least number of bits for the steps between its limits. */
  lemma ColumnBitsIsLeast(col: Column)
    requires col.minValue <= col.maxValue
    ensures var top := StepsAbove(col, col.maxValue);
            && top < Pow2(ColumnBits(col)) && (top == 0 ==> ColumnBits(col) == 0)
            && (top > 0 ==> ColumnBits(col) > 0 && Pow2(ColumnBits(col) - 1) <= top)
  {
    NumBitsIsLeast(StepsAbove(col, col.maxValue));
    hide Step, Pow2;
  }
}
