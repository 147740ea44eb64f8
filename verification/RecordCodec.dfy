/** src/RecordCodec.c: records are packed column by column through a 32-bit shift buffer.
    The specification is the bit string of the record: the big-endian concatenation of the
    scaled columns, right-padded with zero bits to whole bytes. */
module RecordCodec {
  import opened MachineInts
  import opened BitUtils
  import opened Schema

  // ---- specification ----

  /** The number stored for a column value: its distance from the minimum in steps. */
  function Scaled(col: Column, value: uint16): nat
  {
    ToUint32(value - col.minValue) / Step(col)
  }

  function Unscaled(col: Column, stored: nat): uint16 {
    ToUint16(stored * Step(col) + col.minValue)
  }

  /** The first k columns as one bit string. */
  function FieldBits(cols: RecordDef, data: seq<uint16>, k: nat): (b: seq<bool>)
    requires k <= |cols| && k <= |data|
    ensures |b| == BitsBefore(cols, k)
  {
    if k == 0 then []
    else FieldBits(cols, data, k - 1) + Bits(Scaled(cols[k - 1], data[k - 1]), ColumnBits(cols[k - 1]))
  }

  function Zeros(n: nat): seq<bool> {
    seq(n, _ => false)
  }

  function PaddedBits(cols: RecordDef, data: seq<uint16>): (b: seq<bool>)
    requires |cols| <= |data|
    ensures |b| == 8 * RecordSize(cols)
  {
    FieldBits(cols, data, |cols|) + Zeros(8 * RecordSize(cols) - TotalBits(cols))
  }

  function BytesToBits(bytes: seq<uint8>): (b: seq<bool>)
    ensures |b| == 8 * |bytes|
  {
    if bytes == [] then [] else BytesToBits(bytes[..|bytes| - 1]) + Bits(bytes[|bytes| - 1], 8)
  }

  function BitsToBytes(b: seq<bool>): (bytes: seq<uint8>)
    requires |b| % 8 == 0
    ensures |b| == 8 * |bytes|
  {
    if b == [] then []
    else
      Pow2Values();
      FromBitsBound(b[|b| - 8..]);
      BitsToBytes(b[..|b| - 8]) + [FromBits(b[|b| - 8..])]
  }

  /** What rc_encodeRecord writes. */
  function Encoded(table: Table, data: seq<uint16>): (raw: seq<uint8>)
    requires EncodePre(table, data)
    ensures |raw| == RecordSize(table.recordDefs[RecordDefId(table, data[0])])
  {
    BitsToBytes(PaddedBits(table.recordDefs[RecordDefId(table, data[0])], data))
  }

  ghost predicate EncodePre(table: Table, data: seq<uint16>) {
    && |data| > 0
    && RecordDefId(table, data[0]) < |table.recordDefs|
    && var cols := table.recordDefs[RecordDefId(table, data[0])];
    |cols| <= |data|
  }

  /** The value of column k in a bit string; virtual columns hold none. */
  function FieldValue(cols: RecordDef, b: seq<bool>, k: nat): uint16
    requires k < |cols| && BitsBefore(cols, k + 1) <= |b|
  {
    if IsVirtual(cols[k]) then NO_VALUE
    else Unscaled(cols[k], FromBits(b[BitsBefore(cols, k)..BitsBefore(cols, k + 1)]))
  }

  lemma {:induction false} BitsBeforeMonotone(cols: RecordDef, j: nat, k: nat)
    requires j <= k <= |cols|
    ensures BitsBefore(cols, j) <= BitsBefore(cols, k)
    decreases k
  {
    if j < k {
      BitsBeforeMonotone(cols, j, k - 1);
    }
  }

  function FieldValues(cols: RecordDef, b: seq<bool>, n: nat): (data: seq<uint16>)
    requires n <= |cols| && BitsBefore(cols, n) <= |b|
    ensures |data| == n
  {
    if n == 0 then [] else FieldValues(cols, b, n - 1) + [FieldValue(cols, b, n - 1)]
  }

  /** The record type found in the first bits of the first byte. */
  function TagOf(table: Table, raw: seq<uint8>): nat
    requires TagPre(table) && |raw| > 0
  {
    if HasVariableRecords(table)
    then Truncate(Shr(raw[0], 8 - ColumnBits(table.recordDefs[0][0])), ColumnBits(table.recordDefs[0][0]))
    else 0
  }

  /** Tables whose tag fits the first byte. */
  predicate TagPre(table: Table) {
    && table.recordDefs != []
    && (HasVariableRecords(table) ==>
          table.recordDefs[0] != [] && ColumnBits(table.recordDefs[0][0]) <= 8)
  }

  ghost predicate DecodePre(table: Table, raw: seq<uint8>) {
    && TagPre(table) && |raw| > 0
    && TagOf(table, raw) < |table.recordDefs|
    && var cols := table.recordDefs[TagOf(table, raw)];
    RecordSize(cols) <= |raw|
  }

  /** What rc_decodeRecord writes. */
  function Decoded(table: Table, raw: seq<uint8>): (data: seq<uint16>)
    requires DecodePre(table, raw)
    ensures |data| == |table.recordDefs[TagOf(table, raw)]|
  {
    var cols := table.recordDefs[TagOf(table, raw)];
    FieldValues(cols, BytesToBits(raw), |cols|)
  }

  // ---- the packing loops ----

  method GetNumBitsOfColumn(cols: RecordDef, column: nat) returns (numBits: nat)
    requires column < |cols|
    ensures numBits == ColumnBits(cols[column]) <= 16
  {
    var colSize: uint16 := ToUint16(cols[column].maxValue - cols[column].minValue);
    colSize := colSize / Step(cols[column]);
    numBits := GetNumBits(colSize);
  }

  method GetRecordSize(cols: RecordDef) returns (size: nat)
    ensures size == RecordSize(cols)
  {
    var numBits := 0;
    for col := 0 to |cols|
      invariant numBits == BitsBefore(cols, col)
    {
      var n := GetNumBitsOfColumn(cols, col);
      numBits := numBits + n;
    }
    size := NumBytes(numBits);
  }

  method GetMaxRecordSize(table: Table) returns (maxRecordSize: nat)
    ensures maxRecordSize == MaxRecordSize(table)
  {
    maxRecordSize := 0;
    for d := 0 to |table.recordDefs|
      invariant maxRecordSize == MaxSizeOf(table.recordDefs[..d])
    {
      var recordSize := GetRecordSize(table.recordDefs[d]);
      assert table.recordDefs[..d + 1][..d] == table.recordDefs[..d];
      if recordSize > maxRecordSize {
        maxRecordSize := recordSize;
      }
    }
    assert table.recordDefs[..|table.recordDefs|] == table.recordDefs;
  }

  /** The bits emitted so far, followed by the live bits of the buffer. */
  ghost function Emitted(raw: seq<uint8>, bitBuffer: uint32, bitsInBuffer: nat): seq<bool> {
    BytesToBits(raw) + Bits(bitBuffer, bitsInBuffer)
  }

  method EncodeRecord(data: seq<uint16>, raw: array<uint8>, table: Table)
    requires EncodePre(table, data)
    requires RecordSize(table.recordDefs[RecordDefId(table, data[0])]) <= raw.Length
    modifies raw
    ensures raw[..] == Encoded(table, data) + old(raw[|Encoded(table, data)|..])
  {
    var recordDefId := 0;
    if |table.recordDefs| > 1 {
      recordDefId := ToUint8(data[0]);
    }
    EncodeColumns(table.recordDefs[recordDefId], data, raw);
  }

  lemma ColumnAppended(cols: RecordDef, data: seq<uint16>, col: nat, emitted: seq<bool>, before: seq<bool>)
    requires col < |cols| && |cols| <= |data| && emitted + before == FieldBits(cols, data, col)
    ensures emitted + (before + Bits(Scaled(cols[col], data[col]), ColumnBits(cols[col]))) == FieldBits(cols, data, col + 1)
  {
    hide Bits, Scaled, ColumnBits;
  }

  method EncodeColumns(cols: RecordDef, data: seq<uint16>, raw: array<uint8>)
    requires |cols| <= |data| && RecordSize(cols) <= raw.Length
    modifies raw
    ensures raw[..] == BitsToBytes(PaddedBits(cols, data)) + old(raw[RecordSize(cols)..])
  {
    hide Bits, Scaled, BytesToBits, BitsToBytes, ColumnBits, NumBytes;
    ghost var was := raw[..];
    var bitBuffer: uint32, bitsInBuffer: nat, outIndex: nat := 0, 0, 0;
    for col := 0 to |cols|
      invariant bitsInBuffer < 8 && 8 * outIndex + bitsInBuffer == BitsBefore(cols, col)
      invariant outIndex <= raw.Length && raw[outIndex..] == was[outIndex..]
      invariant Emitted(raw[..outIndex], bitBuffer, bitsInBuffer) == FieldBits(cols, data, col)
    {
      ghost var emitted, before := BytesToBits(raw[..outIndex]), Bits(bitBuffer, bitsInBuffer);
      bitBuffer, bitsInBuffer := AddColumn(cols, col, data[col], bitBuffer, bitsInBuffer);
      ColumnAppended(cols, data, col, emitted, before);
      FieldFits(cols, col);
      bitsInBuffer, outIndex := EmitFullBytes(raw, bitBuffer, bitsInBuffer, outIndex);
    }
    EmitRest(raw, bitBuffer, bitsInBuffer, outIndex, FieldBits(cols, data, |cols|));
    assert raw[RecordSize(cols)..] == was[RecordSize(cols)..];
  }

  /** The value of a column above its minimum, in its steps. */
  method ScaleValue(col: Column, data: uint16) returns (value: uint32)
    ensures value == Scaled(col, data)
  {
    value := ToUint32(data - col.minValue);
    QuotientBound(value, Step(col));
    value := value / Step(col);
  }

  /** Adds the entire value to the bit buffer. At most 23 of its bits are live then, so the
      shift loses none of them; whatever lies above the live bits is dead. */
  method AddColumn(cols: RecordDef, col: nat, data: uint16, bufferBefore: uint32, bitsBefore: nat)
    returns (bitBuffer: uint32, bitsInBuffer: nat)
    requires col < |cols| && bitsBefore < 8
    ensures bitsInBuffer == bitsBefore + ColumnBits(cols[col]) <= 23
    ensures Bits(bitBuffer, bitsInBuffer)
         == Bits(bufferBefore, bitsBefore) + Bits(Scaled(cols[col], data), ColumnBits(cols[col]))
  {
    var numBits := GetNumBitsOfColumn(cols, col);
    hide Bits, Truncate, Shl, Step, Scaled, ColumnBits;
    var value := ScaleValue(cols[col], data);
    AppendField(bufferBefore, bitsBefore, value, numBits);
    value := Truncate(value, numBits);
    bitBuffer := ToUint32(Shl(bufferBefore, numBits) + value);
    bitsInBuffer := bitsBefore + numBits;
  }

  /** The remaining bits of the buffer, padded with zeros to a byte. */
  method EmitRest(raw: array<uint8>, bitBuffer: uint32, bitsInBuffer: nat, outIndex: nat, ghost record: seq<bool>)
    requires bitsInBuffer < 8 && |record| == 8 * outIndex + bitsInBuffer && NumBytes(|record|) <= raw.Length
    requires Emitted(raw[..outIndex], bitBuffer, bitsInBuffer) == record
    modifies raw
    ensures raw[NumBytes(|record|)..] == old(raw[NumBytes(|record|)..])
    ensures raw[..] == BitsToBytes(record + Zeros(8 * NumBytes(|record|) - |record|)) + raw[NumBytes(|record|)..]
  {
    hide Bits, BitsToBytes, NumBytes;
    ghost var end := NumBytes(|record|);
    if bitsInBuffer > 0 {
      PadByte(raw[..outIndex], bitBuffer, bitsInBuffer);
      raw[outIndex] := ToUint8(Shl(bitBuffer, 8 - bitsInBuffer));
      assert raw[..outIndex + 1] == raw[..outIndex] + [raw[outIndex]];
    }
    assert BytesToBits(raw[..end]) == record + Zeros(8 * end - |record|);
    BytesOfBits(raw[..end]);
    assert raw[..] == raw[..end] + raw[end..];
  }

  /** The inner loop of rc_encodeRecord. */
  method EmitFullBytes(raw: array<uint8>, bitBuffer: uint32, bitsBefore: nat, outBefore: nat)
    returns (bitsInBuffer: nat, outIndex: nat)
    requires bitsBefore <= 23 && 8 * outBefore + bitsBefore <= 8 * raw.Length + 7
    modifies raw
    ensures bitsInBuffer < 8 && 8 * outIndex + bitsInBuffer == 8 * outBefore + bitsBefore
    ensures outBefore <= outIndex <= raw.Length
    ensures raw[outIndex..] == old(raw[outIndex..])
    ensures Emitted(raw[..outIndex], bitBuffer, bitsInBuffer) == old(Emitted(raw[..outBefore], bitBuffer, bitsBefore))
  {
    bitsInBuffer, outIndex := bitsBefore, outBefore;
    ghost var was := raw[..];
    while bitsInBuffer >= 8
      invariant 8 * outIndex + bitsInBuffer == 8 * outBefore + bitsBefore
      invariant outBefore <= outIndex <= raw.Length && raw[outIndex..] == was[outIndex..]
      invariant Emitted(raw[..outIndex], bitBuffer, bitsInBuffer) == Emitted(was[..outBefore], bitBuffer, bitsBefore)
    {
      bitsInBuffer := bitsInBuffer - 8;
      TakeByte(raw[..outIndex], bitBuffer, bitsInBuffer);
      raw[outIndex] := ToUint8(Shr(bitBuffer, bitsInBuffer));
      outIndex := outIndex + 1;
      assert raw[..outIndex] == raw[..outIndex - 1] + [raw[outIndex - 1]];
    }
  }

  lemma AppendField(bitBuffer: uint32, b: nat, scaled: nat, n: nat)
    requires b + n <= 32
    ensures Bits(ToUint32(Shl(bitBuffer, n) + Truncate(scaled, n)), b + n) == Bits(bitBuffer, b) + Bits(scaled, n)
  {
    TruncateBound(scaled, n);
    BitsOfUint32(Shl(bitBuffer, n) + Truncate(scaled, n), b + n);
    BitsAppend(bitBuffer, b, Truncate(scaled, n), n);
    BitsOfTruncate(scaled, n, n);
  }

  lemma TakeByte(raw: seq<uint8>, bitBuffer: uint32, b: nat)
    ensures Emitted(raw, bitBuffer, b + 8) == Emitted(raw + [ToUint8(Shr(bitBuffer, b))], bitBuffer, b)
  {
    BitsSplit(bitBuffer, 8, b);
    Truncate8(Shr(bitBuffer, b));
    BitsOfTruncate(Shr(bitBuffer, b), 8, 8);
  }

  lemma PadByte(raw: seq<uint8>, bitBuffer: uint32, b: nat)
    requires b <= 8
    ensures BytesToBits(raw + [ToUint8(Shl(bitBuffer, 8 - b))]) == Emitted(raw, bitBuffer, b) + Zeros(8 - b)
  {
    BitsAppend(bitBuffer, b, 0, 8 - b);
    BitsOfZero(8 - b);
    Truncate8(Shl(bitBuffer, 8 - b));
    BitsOfTruncate(Shl(bitBuffer, 8 - b), 8, 8);
  }

  lemma {:induction false} BitsOfZero(n: nat)
    ensures Bits(0, n) == Zeros(n)
  {
    if n > 0 {
      BitsOfZero(n - 1);
    }
  }

  lemma {:induction false} BytesOfBits(bytes: seq<uint8>)
    ensures BitsToBytes(BytesToBits(bytes)) == bytes
  {
    hide Bits, FromBits, Truncate;
    if bytes != [] {
      var init, last := bytes[..|bytes| - 1], bytes[|bytes| - 1];
      BytesOfBits(init);
      var b := BytesToBits(bytes);
      assert b[..|b| - 8] == BytesToBits(init) && b[|b| - 8..] == Bits(last, 8);
      FromBitsOfBits(last, 8);
      Pow2Values();
      TruncateSmall(last, 8);
      assert bytes == init + [last];
    }
  }

  lemma {:induction false} BitsOfBytes(b: seq<bool>)
    requires |b| % 8 == 0
    ensures BytesToBits(BitsToBytes(b)) == b
  {
    hide Bits, FromBits;
    if b != [] {
      var init, last := b[..|b| - 8], b[|b| - 8..];
      BitsOfBytes(init);
      BitsOfFromBits(last);
      var bytes := BitsToBytes(b);
      assert bytes[..|bytes| - 1] == BitsToBytes(init);
      assert b == init + last;
    }
  }

  // ---- the unpacking loop ----

  method DecodeRecord(raw: array<uint8>, data: array<uint16>, table: Table)
    requires DecodePre(table, raw[..])
    requires |table.recordDefs[TagOf(table, raw[..])]| <= data.Length
    modifies data
    ensures data[..] == Decoded(table, raw[..]) + old(data[|Decoded(table, raw[..])|..])
  {
    var recordDefId := 0;
    if |table.recordDefs| > 1 { // need recordTypeId first
      var tagBits := GetNumBitsOfColumn(table.recordDefs[0], 0);
      TagFitsByte(table, raw[..]);
      recordDefId := ToUint8(Truncate(Shr(raw[0], 8 - tagBits), tagBits));
    }
    DecodeColumns(table.recordDefs[recordDefId], raw, data);
  }

  /** The bits of a column lie within the bytes of its record. */
  lemma FieldFits(cols: RecordDef, col: nat)
    requires col < |cols|
    ensures BitsBefore(cols, col + 1) == BitsBefore(cols, col) + ColumnBits(cols[col]) <= 8 * RecordSize(cols)
  {
    hide ColumnBits;
    BitsBeforeMonotone(cols, col + 1, |cols|);
  }

  /** One round of the decoding loop. */
  method DecodeColumn(col: Column, numBits: nat, raw: array<uint8>, bufferBefore: uint32, bitsBefore: nat,
                      inBefore: nat, ghost from: nat)
    returns (bitBuffer: uint32, bitsInBuffer: nat, inIndex: nat, value: uint16)
    requires bitsBefore < 8 && numBits <= 16 && from + bitsBefore == 8 * inBefore
    requires from + numBits <= 8 * raw.Length && inBefore <= raw.Length
    requires Bits(bufferBefore, bitsBefore) == BytesToBits(raw[..])[from..8 * inBefore]
    ensures bitsInBuffer < 8 && from + numBits + bitsInBuffer == 8 * inIndex && inIndex <= raw.Length
    ensures Bits(bitBuffer, bitsInBuffer) == BytesToBits(raw[..])[from + numBits..8 * inIndex]
    ensures value == if IsVirtual(col) then NO_VALUE
                     else Unscaled(col, FromBits(BytesToBits(raw[..])[from..from + numBits]))
  {
    hide *;
    bitBuffer, bitsInBuffer, inIndex := Refill(raw, bufferBefore, bitsBefore, inBefore, numBits, from);
    SliceSplit(BytesToBits(raw[..]), from, from + numBits, 8 * inIndex);
    bitBuffer, bitsInBuffer, value := TakeColumn(col, numBits, bitBuffer, bitsInBuffer);
  }

  method DecodeColumns(cols: RecordDef, raw: array<uint8>, data: array<uint16>)
    requires |cols| <= data.Length && RecordSize(cols) <= raw.Length
    modifies data
    ensures data[..] == FieldValues(cols, BytesToBits(raw[..]), |cols|) + old(data[|cols|..])
  {
    hide Bits, Unscaled, FromBits, BytesToBits, ColumnBits, NumBytes, FieldValue;
    ghost var was, bits := data[..], BytesToBits(raw[..]);
    var bitBuffer: uint32, bitsInBuffer: nat, inIndex: nat := 0, 0, 0;
    for col := 0 to |cols|
      invariant bitsInBuffer < 8 && BitsBefore(cols, col) + bitsInBuffer == 8 * inIndex <= |bits|
      invariant Bits(bitBuffer, bitsInBuffer) == bits[BitsBefore(cols, col)..8 * inIndex]
      invariant data[..] == FieldValues(cols, bits, col) + was[col..]
    {
      FieldFits(cols, col);
      var numBits := GetNumBitsOfColumn(cols, col);
      var value;
      bitBuffer, bitsInBuffer, inIndex, value :=
        DecodeColumn(cols[col], numBits, raw, bitBuffer, bitsInBuffer, inIndex, BitsBefore(cols, col));
      NextField(cols, bits, col, value);
      ghost var before := data[..];
      data[col] := value;
      assert data[..] == before[col := value];
      WriteNext(FieldValues(cols, bits, col), value, was, before);
    }
  }

  lemma NextField(cols: RecordDef, bits: seq<bool>, col: nat, value: uint16)
    requires col < |cols| && BitsBefore(cols, col + 1) <= |bits|
    requires value == if IsVirtual(cols[col]) then NO_VALUE
                      else Unscaled(cols[col], FromBits(bits[BitsBefore(cols, col)..BitsBefore(cols, col + 1)]))
    ensures BitsBefore(cols, col) <= |bits|
    ensures FieldValues(cols, bits, col + 1) == FieldValues(cols, bits, col) + [value]
  {
    hide Unscaled, FromBits, ColumnBits;
  }

  /** Overwriting the first old element extends the new prefix by one. */
  lemma WriteNext(prefix: seq<uint16>, value: uint16, was: seq<uint16>, before: seq<uint16>)
    requires |prefix| < |was| && before == prefix + was[|prefix|..]
    ensures before[|prefix| := value] == (prefix + [value]) + was[|prefix| + 1..]
  {
  }

  lemma SliceSplit(b: seq<bool>, from: nat, mid: nat, to: nat)
    requires from <= mid <= to <= |b|
    ensures b[from..to][..mid - from] == b[from..mid]
    ensures b[from..to][mid - from..] == b[mid..to]
  {
  }

  method TakeColumn(col: Column, numBits: nat, bufferBefore: uint32, bitsBefore: nat)
    returns (bitBuffer: uint32, bitsInBuffer: nat, value: uint16)
    requires numBits <= 16 && numBits <= bitsBefore
    ensures bitsInBuffer == bitsBefore - numBits
    ensures Bits(bitBuffer, bitsInBuffer) == Bits(bufferBefore, bitsBefore)[numBits..]
    ensures value == if IsVirtual(col) then NO_VALUE
                     else Unscaled(col, FromBits(Bits(bufferBefore, bitsBefore)[..numBits]))
  {
    hide Bits, FromBits, Shr, Truncate, Step;
    var shift := bitsBefore - numBits;
    SplitField(bufferBefore, shift, numBits);
    if IsVirtual(col) {
      value := NO_VALUE; // column value must not be used
    } else {
      value := ToUint16(Shr(bufferBefore, shift));
      value := Truncate(value, numBits);
      WrapTwice(value * Step(col), col.minValue);
      value := ToUint16(value * Step(col));
      value := ToUint16(value + col.minValue);
    }
    bitsInBuffer := shift;
    bitBuffer := Truncate(bufferBefore, bitsInBuffer); // keep remaining bits
  }

  lemma WrapTwice(x: int, y: int)
    ensures ToUint16(ToUint16(x) + y) == ToUint16(x + y)
  {
  }

  /** The inner loop of rc_decodeRecord: fetch bytes until the column is in the buffer. */
  method Refill(raw: array<uint8>, bufferBefore: uint32, bitsBefore: nat, inBefore: nat, numBits: nat,
                ghost from: nat)
    returns (bitBuffer: uint32, bitsInBuffer: nat, inIndex: nat)
    requires bitsBefore < 8 && numBits <= 16 && from + bitsBefore == 8 * inBefore
    requires from + numBits <= 8 * raw.Length && inBefore <= raw.Length
    requires Bits(bufferBefore, bitsBefore) == BytesToBits(raw[..])[from..8 * inBefore]
    ensures inIndex <= raw.Length && from + bitsInBuffer == 8 * inIndex
    ensures numBits <= bitsInBuffer < numBits + 8
    ensures Bits(bitBuffer, bitsInBuffer) == BytesToBits(raw[..])[from..8 * inIndex]
  {
    hide Bits, BytesToBits, Shl;
    bitBuffer, bitsInBuffer, inIndex := bufferBefore, bitsBefore, inBefore;
    ghost var bits := BytesToBits(raw[..]);
    while bitsInBuffer < numBits
      invariant inIndex <= raw.Length && from + bitsInBuffer == 8 * inIndex
      invariant bitsInBuffer < numBits + 8
      invariant Bits(bitBuffer, bitsInBuffer) == bits[from..8 * inIndex]
    {
      FetchByte(bitBuffer, bitsInBuffer, raw[inIndex]);
      ByteInBits(raw[..], inIndex);
      bitBuffer := ToUint32(Shl(bitBuffer, 8) + raw[inIndex]);
      inIndex := inIndex + 1;
      bitsInBuffer := bitsInBuffer + 8;
      assert bits[from..8 * inIndex] == bits[from..8 * (inIndex - 1)] + bits[8 * (inIndex - 1)..8 * inIndex];
    }
  }

  lemma TagFitsByte(table: Table, raw: seq<uint8>)
    requires TagPre(table) && HasVariableRecords(table) && |raw| > 0
    ensures TagOf(table, raw) < 0x100
  {
    var w := ColumnBits(table.recordDefs[0][0]);
    Pow2Values();
    Pow2Monotone(w, 8);
    TruncateBound(Shr(raw[0], 8 - w), w);
  }

  lemma FetchByte(bitBuffer: uint32, b: nat, byte: uint8)
    requires b <= 24
    ensures Bits(ToUint32(Shl(bitBuffer, 8) + byte), b + 8) == Bits(bitBuffer, b) + Bits(byte, 8)
  {
    Pow2Values();
    BitsAppend(bitBuffer, b, byte, 8);
    BitsOfUint32(Shl(bitBuffer, 8) + byte, b + 8);
  }

  lemma {:induction false} ByteInBits(raw: seq<uint8>, i: nat)
    requires i < |raw|
    ensures BytesToBits(raw)[8 * i..8 * i + 8] == Bits(raw[i], 8)
  {
    var front, last := raw[..|raw| - 1], Bits(raw[|raw| - 1], 8);
    assert BytesToBits(raw) == BytesToBits(front) + last;
    if i < |front| {
      ByteInBits(front, i);
      assert BytesToBits(raw)[8 * i..8 * i + 8] == BytesToBits(front)[8 * i..8 * i + 8];
    } else {
      assert BytesToBits(raw)[8 * i..8 * i + 8] == last;
    }
  }

  /** The column at the top of the buffer, and the bits that stay below it. */
  lemma SplitField(bitBuffer: uint32, shift: nat, n: nat)
    requires n <= 16
    ensures FromBits(Bits(bitBuffer, shift + n)[..n]) == Truncate(ToUint16(Shr(bitBuffer, shift)), n)
    ensures Bits(Truncate(bitBuffer, shift), shift) == Bits(bitBuffer, shift + n)[n..]
  {
    var field := Shr(bitBuffer, shift);
    BitsSplit(bitBuffer, n, shift);
    BitsOfTruncate(bitBuffer, shift, shift);
    Truncate16(field);
    BitsOfTruncate(field, n, 16);
    FromBitsOfBits(field, n);
    FromBitsOfBits(ToUint16(field), n);
  }

  // ---- main results ----

  /** A record the schema accepts: every real column in range and on a step. */
  ghost predicate FitsColumns(cols: RecordDef, data: seq<uint16>) {
    |cols| <= |data|
    && forall c :: 0 <= c < |cols| && !IsVirtual(cols[c]) ==> FitsColumn(cols[c], data[c])
  }

  predicate FitsColumn(col: Column, value: uint16) {
    col.minValue <= value <= col.maxValue && (value - col.minValue) % Step(col) == 0
  }

  /** The record as a reader gets it back: virtual columns hold no value. */
  function Visible(cols: RecordDef, data: seq<uint16>): (r: seq<uint16>)
    requires |cols| <= |data|
  {
    seq(|cols|, c requires 0 <= c < |cols| => if IsVirtual(cols[c]) then NO_VALUE else data[c])
  }

  lemma ColumnRoundTrip(col: Column, value: uint16)
    requires FitsColumn(col, value)
    ensures Truncate(Scaled(col, value), ColumnBits(col)) == Scaled(col, value)
    ensures Unscaled(col, FromBits(Bits(Scaled(col, value), ColumnBits(col)))) == value
  {
    var stored, width := Scaled(col, value), ColumnBits(col);
    ScaledFits(col, value);
    TruncateSmall(stored, width);
    FromBitsOfBits(stored, width);
    hide Scaled, ColumnBits, Step, Bits, FromBits, Truncate, Pow2;
    assert ToUint16(value) == value;
  }

  /** The scaled value fits the width of its column, and loses nothing. */
  lemma ScaledFits(col: Column, value: uint16)
    requires FitsColumn(col, value)
    ensures Scaled(col, value) * Step(col) == value - col.minValue
    ensures Scaled(col, value) < Pow2(ColumnBits(col))
  {
    var step, offset, range := Step(col), ToUint32(value - col.minValue), ToUint16(col.maxValue - col.minValue);
    OffsetFacts(col, value);
    hide Step, NumBits, Pow2, FitsColumn, ToUint32, ToUint16;
    ExactDivision(offset, step);
    DivMonotone(offset, range, step);
    NumBitsIsLeast(range / step);
  }

  lemma OffsetFacts(col: Column, value: uint16)
    requires FitsColumn(col, value)
    ensures ToUint32(value - col.minValue) == value - col.minValue <= col.maxValue - col.minValue
    ensures ToUint16(col.maxValue - col.minValue) == col.maxValue - col.minValue
    ensures (value - col.minValue) % Step(col) == 0
  {
    hide Step;
  }

  lemma ExactDivision(v: nat, step: nat)
    requires step > 0 && v % step == 0
    ensures v / step * step == v
  {
  }

  lemma DivMonotone(a: nat, b: nat, d: nat)
    requires a <= b && d > 0
    ensures a / d <= b / d
  {
    var k := a / d - b / d;
    assert a == d * (a / d) + a % d && b == d * (b / d) + b % d;
    assert d * k == d * (a / d) - d * (b / d);
    if k > 0 {
      MulAtLeast(d, k);
      assert false;
    }
  }

  lemma MulAtLeast(d: nat, k: nat)
    requires k > 0
    ensures d * k >= d
  {
    assert d * (k - 1) >= 0;
  }

  /** Each column sits at its own offset of the encoded bit string. */
  lemma {:induction false} FieldOfRecord(cols: RecordDef, data: seq<uint16>, c: nat, k: nat)
    requires c < k <= |cols| <= |data|
    ensures BitsBefore(cols, c + 1) <= BitsBefore(cols, k)
    ensures FieldBits(cols, data, k)[BitsBefore(cols, c)..BitsBefore(cols, c + 1)]
         == Bits(Scaled(cols[c], data[c]), ColumnBits(cols[c]))
    decreases k
  {
    hide Bits, Scaled, ColumnBits;
    if c < k - 1 {
      FieldOfRecord(cols, data, c, k - 1);
      var from, to := BitsBefore(cols, c), BitsBefore(cols, c + 1);
      assert FieldBits(cols, data, k)[from..to] == FieldBits(cols, data, k - 1)[from..to];
    }
  }

  lemma {:induction false} BytesToBitsConcat(a: seq<uint8>, b: seq<uint8>)
    ensures BytesToBits(a + b) == BytesToBits(a) + BytesToBits(b)
  {
    if b == [] {
      assert a + b == a;
    } else {
      var front, last := b[..|b| - 1], Bits(b[|b| - 1], 8);
      BytesToBitsConcat(a, front);
      assert (a + b)[..|a + b| - 1] == a + front;
      assert BytesToBits(b) == BytesToBits(front) + last && BytesToBits(a + b) == BytesToBits(a + front) + last;
      hide BytesToBits, Bits;
      assert (BytesToBits(a) + BytesToBits(front)) + last == BytesToBits(a) + (BytesToBits(front) + last);
    }
  }

  lemma {:induction false} FieldValuesOfRecord(cols: RecordDef, data: seq<uint16>, bits: seq<bool>, n: nat)
    requires n <= |cols| && FitsColumns(cols, data)
    requires FieldBits(cols, data, |cols|) <= bits
    ensures BitsBefore(cols, n) <= |bits|
    ensures FieldValues(cols, bits, n) == Visible(cols, data)[..n]
  {
    hide Bits, Unscaled, FromBits, FieldBits, Scaled, ColumnBits;
    BitsBeforeMonotone(cols, n, |cols|);
    if n > 0 {
      FieldValuesOfRecord(cols, data, bits, n - 1);
      FieldOfRecord(cols, data, n - 1, |cols|);
      var from, to, all := BitsBefore(cols, n - 1), BitsBefore(cols, n), FieldBits(cols, data, |cols|);
      assert bits[from..to] == all[from..to];
      if !IsVirtual(cols[n - 1]) {
        ColumnRoundTrip(cols[n - 1], data[n - 1]);
      }
      assert FieldValue(cols, bits, n - 1) == Visible(cols, data)[n - 1];
    }
  }

  /** Storage rules the codec relies on: shared tag column of at most one byte. */
  ghost predicate CodecSchema(table: Table) {
    && TagPre(table)
    && (forall d :: 0 <= d < |table.recordDefs| ==> table.recordDefs[d] != [])
    && (HasVariableRecords(table) ==>
          forall d :: 0 <= d < |table.recordDefs| ==>
            table.recordDefs[d][0] == table.recordDefs[0][0]
            && table.recordDefs[d][0].colType.RecordType? && table.recordDefs[d][0].minValue == 0)
  }

  /** The record's own bits lead the bits of its encoding. */
  lemma EncodedBits(table: Table, data: seq<uint16>, rest: seq<uint8>)
    requires EncodePre(table, data)
    ensures var cols := table.recordDefs[RecordDefId(table, data[0])];
            FieldBits(cols, data, |cols|) <= BytesToBits(Encoded(table, data) + rest)
  {
    var cols := table.recordDefs[RecordDefId(table, data[0])];
    BitsOfBytes(PaddedBits(cols, data));
    BytesToBitsConcat(Encoded(table, data), rest);
  }

  /** The first column of at most 8 bits is read from the first byte alone. */
  lemma LeadingField(raw: seq<uint8>, x: nat, w: nat)
    requires raw != [] && w <= 8 && BytesToBits(raw)[..w] == Bits(x, w)
    ensures Truncate(Shr(raw[0], 8 - w), w) == Truncate(x, w)
  {
    ByteInBits(raw, 0);
    assert BytesToBits(raw)[0..8][..w] == BytesToBits(raw)[..w];
    BitsSplit(raw[0], w, 8 - w);
    FromBitsOfBits(Shr(raw[0], 8 - w), w);
    FromBitsOfBits(x, w);
  }

  /** The tag that decoding reads first is the tag that was encoded. */
  lemma TagRoundTrip(table: Table, data: seq<uint16>, rest: seq<uint8>)
    requires CodecSchema(table) && EncodePre(table, data)
    requires FitsColumns(table.recordDefs[RecordDefId(table, data[0])], data)
    requires HasVariableRecords(table) && |Encoded(table, data) + rest| > 0
    ensures TagOf(table, Encoded(table, data) + rest) == RecordDefId(table, data[0])
  {
    hide Bits, Scaled, Truncate, Shr, FieldBits, BytesToBits, ColumnBits, Encoded, Unscaled;
    var cols := table.recordDefs[RecordDefId(table, data[0])];
    var w := ColumnBits(table.recordDefs[0][0]);
    TagFits(cols[0], data[0]);
    EncodedBits(table, data, rest);
    FieldOfRecord(cols, data, 0, |cols|);
    assert BitsBefore(cols, 0) == 0 && BitsBefore(cols, 1) == w;
    assert BytesToBits(Encoded(table, data) + rest)[..w] == FieldBits(cols, data, |cols|)[..w];
    LeadingField(Encoded(table, data) + rest, data[0], w);
  }

  lemma TagFits(col: Column, tag: uint16)
    requires FitsColumn(col, tag) && col.colType.RecordType? && col.minValue == 0 && ColumnBits(col) <= 8
    ensures Scaled(col, tag) == tag == Truncate(tag, ColumnBits(col))
    ensures tag < 0x100
  {
    hide NumBits, Pow2, Truncate, Unscaled, FromBits, Bits;
    ColumnRoundTrip(col, tag);
    NumBitsIsLeast(col.maxValue);
    Pow2Values();
    Pow2Monotone(ColumnBits(col), 8);
  }

  /** Decoding what was encoded gives every real column back, whatever bytes follow. */
  lemma RoundTrip(table: Table, data: seq<uint16>, rest: seq<uint8>)
    requires CodecSchema(table) && EncodePre(table, data)
    requires FitsColumns(table.recordDefs[RecordDefId(table, data[0])], data)
    requires |Encoded(table, data) + rest| > 0
    ensures DecodePre(table, Encoded(table, data) + rest)
    ensures Decoded(table, Encoded(table, data) + rest)
         == Visible(table.recordDefs[RecordDefId(table, data[0])], data)
  {
    var cols := table.recordDefs[RecordDefId(table, data[0])];
    var raw := Encoded(table, data) + rest;
    if HasVariableRecords(table) {
      TagRoundTrip(table, data, rest);
    }
    EncodedBits(table, data, rest);
    FieldValuesOfRecord(cols, data, BytesToBits(raw), |cols|);
  }
}
