/** One record buffer over the stored records of a table: what the pair represents, and how the
    steps of src/BitsOfData.c move data between the two. */
module RecordBuffers {
  import opened MachineInts
  import opened BitUtils
  import opened Schema
  import opened RecordCodec
  import opened LogicalDatabase

  const NO_RECORD_ID: uint8 := 0xFF

  /** recordBufferT */
  datatype Buffer = Buffer(recordId: uint8, isModified: bool, columns: seq<uint16>)

  type Raw = seq<uint8>

  // ---- records in buffers and in storage ----

  function MaxColumnsOf(defs: seq<RecordDef>): (m: nat)
    ensures forall d :: 0 <= d < |defs| ==> |defs[d]| <= m
  {
    if defs == [] then 0
    else
      var m := MaxColumnsOf(defs[..|defs| - 1]);
      var last := |defs[|defs| - 1]|;
      if last > m then last else m
  }

  /** getMaxNumColumns */
  function MaxNumColumns(table: Table): nat {
    MaxColumnsOf(table.recordDefs)
  }

  /** The columns hold a complete record of the type in column 0. */
  ghost predicate HoldsRecord(table: Table, columns: seq<uint16>) {
    && columns != [] && RecordDefId(table, columns[0]) < |table.recordDefs|
    && FitsColumns(ColumnsOf(table, columns), columns)
  }

  /** The values a reader may use. */
  function RealPart(table: Table, columns: seq<uint16>): Record
    requires columns != [] && RecordDefId(table, columns[0]) < |table.recordDefs|
    requires |ColumnsOf(table, columns)| <= |columns|
  {
    columns[..NumReal(ColumnsOf(table, columns))]
  }

  /** The stored bytes decode to a record. */
  ghost predicate StoresRecord(table: Table, raw: Raw) {
    && |raw| == MaxRecordSize(table) && DecodePre(table, raw)
    && HoldsRecord(table, Decoded(table, raw))
    && RecordDefId(table, Decoded(table, raw)[0]) == TagOf(table, raw)
  }

  ghost function StoredRecord(table: Table, raw: Raw): Record
    requires StoresRecord(table, raw)
  {
    RealPart(table, Decoded(table, raw))
  }

  lemma TableSchema(schema: Tables, t: nat)
    requires SchemaIsValid(schema) && t < |schema|
    ensures CodecSchema(schema[t])
    ensures forall d :: 0 <= d < |schema[t].recordDefs| ==>
              && |schema[t].recordDefs[d]| <= MaxNumColumns(schema[t])
              && RecordSize(schema[t].recordDefs[d]) <= MaxRecordSize(schema[t])
              && VirtualColumnsLast(schema[t].recordDefs[d]) && NumReal(schema[t].recordDefs[d]) > 0
    ensures 0 < MaxRecordSize(schema[t]) <= 250 && 0 < schema[t].maxNumRecords <= 250
    ensures 0 < |schema[t].recordDefs| <= 0xFF
  {
    var table := schema[t];
    assert TableIsValid(schema, t);
    forall d | 0 <= d < |table.recordDefs|
      ensures VirtualColumnsLast(table.recordDefs[d]) && NumReal(table.recordDefs[d]) > 0 && table.recordDefs[d] != []
      ensures HasVariableRecords(table) ==>
                table.recordDefs[d][0].colType.RecordType? && table.recordDefs[d][0].minValue == 0
                && table.recordDefs[d][0].maxValue < 0xFF
    {
      assert RecordDefIsValid(schema, t, table.recordDefs[d]);
      FirstColumnIsReal(schema, t, d);
      SchemaColumn(schema, t, d, 0);
    }
    if HasVariableRecords(table) {
      TagBits(table.recordDefs[0][0]);
    }
  }

  lemma TagBits(col: Column)
    requires col.colType.RecordType? && col.minValue == 0 && col.maxValue < 0xFF
    ensures ColumnBits(col) <= 8
  {
    hide NumBits, Pow2;
    Pow2Values();
    NumBitsBound(col.maxValue, 8);
  }

  /** Storing and reading back: the real columns survive, whatever bytes follow the encoding. */
  lemma EncodedIsStored(schema: Tables, t: nat, columns: seq<uint16>, raw: Raw)
    requires SchemaIsValid(schema) && t < |schema| && HoldsRecord(schema[t], columns)
    requires EncodePre(schema[t], columns) && Encoded(schema[t], columns) <= raw
    requires |raw| == MaxRecordSize(schema[t])
    ensures StoresRecord(schema[t], raw)
    ensures StoredRecord(schema[t], raw) == RealPart(schema[t], columns)
  {
    var table := schema[t];
    var cols, rest := ColumnsOf(table, columns), raw[|Encoded(table, columns)|..];
    TableSchema(schema, t);
    VisibleHolds(table, columns);
    hide SchemaIsValid, Encoded, Decoded, FitsColumn, CodecSchema, HoldsRecord, RealPart, Visible;
    assert Encoded(table, columns) + rest == raw;
    RoundTrip(table, columns, rest);
    SameTag(table, columns, rest);
  }

  /** What is read back holds the same record. */
  lemma VisibleHolds(table: Table, columns: seq<uint16>)
    requires HoldsRecord(table, columns) && NumReal(ColumnsOf(table, columns)) > 0
    requires VirtualColumnsLast(ColumnsOf(table, columns))
    ensures var seen := Visible(ColumnsOf(table, columns), columns);
            && HoldsRecord(table, seen) && seen[0] == columns[0] && RealPart(table, seen) == RealPart(table, columns)
  {
    var cols := ColumnsOf(table, columns);
    var seen := Visible(cols, columns);
    hide FitsColumn;
    assert seen[0] == columns[0];
    assert seen[..NumReal(cols)] == columns[..NumReal(cols)];
  }

  lemma SameTag(table: Table, columns: seq<uint16>, rest: Raw)
    requires CodecSchema(table) && EncodePre(table, columns)
    requires FitsColumns(table.recordDefs[RecordDefId(table, columns[0])], columns)
    requires |Encoded(table, columns) + rest| > 0
    ensures TagOf(table, Encoded(table, columns) + rest) == RecordDefId(table, columns[0])
  {
    if HasVariableRecords(table) {
      TagRoundTrip(table, columns, rest);
    }
  }

  /** A record that is held is a record of the logical database. */
  lemma HeldIsRecord(schema: Tables, t: nat, columns: seq<uint16>)
    requires SchemaIsValid(schema) && t < |schema| && HoldsRecord(schema[t], columns)
    ensures IsRecord(schema[t], RealPart(schema[t], columns))
    ensures ColumnsOf(schema[t], RealPart(schema[t], columns)) == ColumnsOf(schema[t], columns)
  {
    TableSchema(schema, t);
  }

  // ---- a buffer over a table ----

  /** What the pair represents: the buffered record in front of the stored ones. */
  ghost function TableView(table: Table, raws: seq<Raw>, b: Buffer): (v: seq<Record>)
    requires IsCoherent(table, raws, b)
    ensures |v| == |raws|
  {
    seq(|raws|, r requires 0 <= r < |raws| =>
      if r == b.recordId then RealPart(table, b.columns) else StoredRecord(table, raws[r]))
  }

  ghost function StoredTable(table: Table, raws: seq<Raw>): (v: seq<Record>)
    requires AllStored(table, raws)
    ensures |v| == |raws|
  {
    seq(|raws|, r requires 0 <= r < |raws| => StoredRecord(table, raws[r]))
  }

  ghost predicate AllStored(table: Table, raws: seq<Raw>) {
    forall r :: 0 <= r < |raws| ==> StoresRecord(table, raws[r])
  }

  /** All stored records decode; the buffer holds an existing record or none; and a buffer that is
      not marked as modified holds what is stored. */
  ghost predicate IsCoherent(table: Table, raws: seq<Raw>, b: Buffer) {
    && |raws| <= 250 && AllStored(table, raws)
    && |b.columns| == MaxNumColumns(table)
    && (b.recordId == NO_RECORD_ID ==> !b.isModified)
    && (b.recordId != NO_RECORD_ID ==> b.recordId < |raws| && HoldsRecord(table, b.columns))
    && (!b.isModified ==> IsSynced(table, raws, b))
  }

  /** The buffered record equals the stored one. */
  ghost predicate IsSynced(table: Table, raws: seq<Raw>, b: Buffer)
    requires AllStored(table, raws)
  {
    b.recordId != NO_RECORD_ID ==>
      b.recordId < |raws| && HoldsRecord(table, b.columns)
      && StoredRecord(table, raws[b.recordId]) == RealPart(table, b.columns)
  }

  /** storeRecordBuffer: storage catches up, the table represents the same records. */
  lemma StoreStep(schema: Tables, t: nat, raws: seq<Raw>, b: Buffer, raw: Raw)
    requires SchemaIsValid(schema) && t < |schema| && IsCoherent(schema[t], raws, b) && b.recordId != NO_RECORD_ID
    requires EncodePre(schema[t], b.columns) && Encoded(schema[t], b.columns) <= raw
    requires |raw| == MaxRecordSize(schema[t])
    ensures var raws' := raws[b.recordId := raw];
            && IsCoherent(schema[t], raws', b) && IsSynced(schema[t], raws', b)
            && TableView(schema[t], raws', b) == TableView(schema[t], raws, b)
  {
    hide SchemaIsValid, StoresRecord, HoldsRecord, StoredRecord, Encoded;
    EncodedIsStored(schema, t, b.columns, raw);
  }

  /** A synced buffer shows what is stored. */
  lemma SyncedView(table: Table, raws: seq<Raw>, b: Buffer)
    requires IsCoherent(table, raws, b) && IsSynced(table, raws, b)
    ensures TableView(table, raws, b) == StoredTable(table, raws)
  {
    hide StoresRecord, HoldsRecord;
  }

  /** fillRecordBuffer: a synced buffer may be reused for another record. */
  lemma FillStep(table: Table, raws: seq<Raw>, b: Buffer, r: nat, columns: seq<uint16>)
    requires IsCoherent(table, raws, b) && IsSynced(table, raws, b) && r < |raws|
    requires StoresRecord(table, raws[r])
    requires Decoded(table, raws[r]) <= columns && |columns| == MaxNumColumns(table)
    ensures var b' := Buffer(r, false, columns);
            IsCoherent(table, raws, b') && TableView(table, raws, b') == TableView(table, raws, b)
  {
    DecodedHolds(table, raws[r], columns);
    hide StoresRecord, HoldsRecord, Decoded;
    var b' := Buffer(r, false, columns);
    SyncedView(table, raws, b);
    SyncedView(table, raws, b');
  }

  lemma DecodedHolds(table: Table, raw: Raw, columns: seq<uint16>)
    requires StoresRecord(table, raw) && Decoded(table, raw) <= columns
    ensures HoldsRecord(table, columns) && RealPart(table, columns) == StoredRecord(table, raw)
  {
    hide Decoded, FitsColumn;
  }

  /** clearRecordBuffer on a synced buffer forgets nothing. */
  lemma ClearStep(table: Table, raws: seq<Raw>, b: Buffer, columns: seq<uint16>)
    requires IsCoherent(table, raws, b) && IsSynced(table, raws, b) && |columns| == |b.columns|
    ensures var b' := Buffer(NO_RECORD_ID, false, columns);
            IsCoherent(table, raws, b') && TableView(table, raws, b') == TableView(table, raws, b)
  {
    hide StoresRecord, HoldsRecord;
    SyncedView(table, raws, b);
    SyncedView(table, raws, Buffer(NO_RECORD_ID, false, columns));
  }

  /** Writing a record into the buffer: either it is already there, or the buffer is synced. */
  lemma WriteStep(table: Table, raws: seq<Raw>, b: Buffer, r: nat, columns: seq<uint16>)
    requires IsCoherent(table, raws, b) && r < |raws|
    requires b.recordId == r || IsSynced(table, raws, b)
    requires |columns| == |b.columns| && HoldsRecord(table, columns)
    ensures var b' := Buffer(r, true, columns);
            && IsCoherent(table, raws, b')
            && TableView(table, raws, b') == TableView(table, raws, b)[r := RealPart(table, columns)]
  {
    hide StoresRecord, HoldsRecord, StoredRecord;
  }
}
