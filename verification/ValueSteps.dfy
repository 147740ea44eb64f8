/** Reading and writing of records and single values: what the buffer holds before and after. */
module ValueSteps {
  import opened MachineInts
  import opened Schema
  import opened StoreLayout
  import opened StoreSteps
  import opened RecordCodec
  import opened LogicalDatabase
  import opened RecordBuffers
  import opened DatabaseRuns
  import opened EngineState

  /** The run-time record counts are the sizes of the logical tables. */
  ghost predicate CountsAgree(db: Db, catalog: seq<Row>) {
    |db| == |catalog| && forall t :: 0 <= t < |db| ==> |db[t]| == catalog[t].numRecords
  }

  /** The maximum of a column, by the record counts of the store. */
  lemma MaxValueIsLive(db: Db, catalog: seq<Row>, t: nat, col: Column)
    requires CountsAgree(db, catalog) && t < |db|
    requires col.colType.Reference? ==> TargetTable(col.colType, t) < |db|
    ensures |catalog| == |db|
    ensures MaxValueOf(db, t, col)
         == if col.colType.Reference? then ToUint16(catalog[TargetTable(col.colType, t)].numRecords - 1) else col.maxValue
  {
    hide ToUint16;
  }

  lemma AllCounts(schema: Tables, mem: Memory, catalog: seq<Row>, buffers: seq<Buffer>)
    requires StoreIsValid(mem, catalog) && PlacesMatch(schema, Places(catalog))
    requires AllCoherent(schema, View(mem, catalog), buffers)
    ensures CountsAgree(ViewAll(schema, View(mem, catalog), buffers), catalog)
  {
    hide StoreAgrees, IsCoherent, BitmapAgrees;
    forall t | 0 <= t < |schema|
      ensures |View(mem, catalog)[t]| == catalog[t].numRecords
    {
      BuiltTable(schema, mem, catalog, t);
    }
  }

  lemma SchemaColumnFacts(schema: Tables, t: nat, d: nat, c: nat)
    requires SchemaIsValid(schema) && t < |schema| && d < |schema[t].recordDefs| && c < |schema[t].recordDefs[d]|
    ensures var col := schema[t].recordDefs[d][c];
            && (c < NumReal(schema[t].recordDefs[d]) <==> !IsVirtual(col))
            && (col.colType.Reference? ==> TargetTable(col.colType, t) < |schema|)
  {
    SchemaColumn(schema, t, d, c);
  }

  lemma NoSuchType(table: Table, data: seq<uint16>)
    requires data != [] && RecordDefId(table, data[0]) >= |table.recordDefs| > 0
    ensures !HasType(table, data) && HasVariableRecords(table) && RecordDefId(table, data[0]) == ToUint8(data[0])
  {
  }

  lemma TypeIsNamed(table: Table, data: seq<uint16>)
    requires IsRecordData(table, data) && RecordDefId(table, data[0]) < |table.recordDefs|
    ensures HasType(table, data)
    ensures HasVariableRecords(table) ==> ToUint8(data[0]) < |table.recordDefs|
  {
  }

  /** The buffer after copyDataToRecordBuffer: virtual columns keep whatever it held. */
  ghost predicate IsCopied(table: Table, data: seq<uint16>, before: seq<uint16>, columns: seq<uint16>)
    requires HasType(table, data)
  {
    var cols := ColumnsOf(table, data);
    && |cols| <= |columns| == |before|
    && forall c :: 0 <= c < |columns| ==> columns[c] == if c < NumReal(cols) then data[c] else before[c]
  }

  /** Accepted data, once copied, is held by the buffer. */
  lemma CopiedRecord(schema: Tables, db: Db, t: nat, data: seq<uint16>, before: seq<uint16>, columns: seq<uint16>)
    requires SchemaIsValid(schema) && IsPopulated(schema, db) && t < |db|
    requires HasType(schema[t], data) && AcceptsRecord(schema[t], db, t, data)
    requires IsCopied(schema[t], data, before, columns)
    ensures HoldsRecord(schema[t], columns)
    ensures RealPart(schema[t], columns) == data[..NumReal(ColumnsOf(schema[t], data))]
  {
    SetRecordMayStand(schema, db, t, data);
    TableSchema(schema, t);
    hide SchemaIsValid, IsPopulated, AcceptsRecord, FitsColumn, CodecSchema;
    var cols := ColumnsOf(schema[t], data);
    var rec := data[..NumReal(cols)];
    assert IsRecord(schema[t], rec);
    assert columns[0] == data[0] == rec[0];
    forall c | 0 <= c < |cols| && !IsVirtual(cols[c])
      ensures FitsColumn(cols[c], columns[c])
    {
      RealColumns(cols, c);
      assert rec[c] == columns[c];
    }
  }

  lemma {:induction false} NumRealFacts(cols: RecordDef, n: nat)
    requires n <= NumReal(cols) && n < |cols|
    ensures n < NumReal(cols) <==> !IsVirtual(cols[n])
  {
  }

  // ---- reading values ----

  /** A column that shows a value of its own, or a string column, which shows none. */
  ghost predicate IsShown(schema: Tables, db: Db, t: nat, r: nat, c: nat) {
    && |db| == |schema| && t < |db| && r < |db[t]| && HasColumn(schema[t], db[t][r], c)
    && |db[t][r]| == NumReal(ColumnsOf(schema[t], db[t][r]))
    && (c < |db[t][r]| || ColumnsOf(schema[t], db[t][r])[c].colType.Str?)
  }

  /** BDB_getValue of such a column. */
  ghost function ShownValue(schema: Tables, db: Db, t: nat, r: nat, c: nat): uint16
    requires IsShown(schema, db, t, r, c)
  {
    if c < |db[t][r]| then db[t][r][c] else NO_VALUE
  }

  /** A column that shows its value, or a virtual one whose reference leads to such a column. */
  ghost predicate IsReadable(schema: Tables, db: Db, t: nat, r: nat, c: nat) {
    && |db| == |schema| && t < |db| && r < |db[t]| && HasColumn(schema[t], db[t][r], c)
    && var rec, cols := db[t][r], ColumnsOf(schema[t], db[t][r]);
    && |rec| == NumReal(cols)
    && (c < |rec| || cols[c].colType.Str? ||
        (&& cols[c].colType.Virtual? && cols[c].colType.refCol < |rec|
         && var refColumn := cols[cols[c].colType.refCol];
         && refColumn.colType.Reference? && refColumn.colType.refTable < |db|
         && var target, id := refColumn.colType.refTable, ToUint8(rec[cols[c].colType.refCol]);
         && IsShown(schema, db, target, id, cols[c].colType.valueCol)))
  }

  /** The value a column shows: its own, or that of the record its reference denotes. */
  ghost function ValueOf(schema: Tables, db: Db, t: nat, r: nat, c: nat): uint16
    requires IsReadable(schema, db, t, r, c)
  {
    var rec, cols := db[t][r], ColumnsOf(schema[t], db[t][r]);
    if !cols[c].colType.Virtual? then ShownValue(schema, db, t, r, c)
    else ShownValue(schema, db, cols[cols[c].colType.refCol].colType.refTable, ToUint8(rec[cols[c].colType.refCol]),
                    cols[c].colType.valueCol)
  }

  /** The tables whose buffers are used to read it. */
  ghost function TablesRead(schema: Tables, db: Db, t: nat, r: nat, c: nat): set<nat>
    requires IsReadable(schema, db, t, r, c)
  {
    var rec, cols := db[t][r], ColumnsOf(schema[t], db[t][r]);
    if c < |rec| || cols[c].colType.Str? then {t} else {t, cols[cols[c].colType.refCol].colType.refTable}
  }

  lemma BufferedColumns(schema: Tables, t: nat, columns: seq<uint16>, c: nat)
    requires SchemaIsValid(schema) && t < |schema| && HoldsRecord(schema[t], columns)
    requires HasColumn(schema[t], RealPart(schema[t], columns), c)
    ensures columns != [] && RecordDefId(schema[t], columns[0]) < |schema[t].recordDefs|
    ensures c < |ColumnsOf(schema[t], columns)| <= |columns|
    ensures RealPart(schema[t], columns) <= columns
    ensures ColumnsOf(schema[t], RealPart(schema[t], columns)) == ColumnsOf(schema[t], columns)
    ensures |RealPart(schema[t], columns)| == NumReal(ColumnsOf(schema[t], columns))
    ensures ColumnsOf(schema[t], columns)[c].colType.Virtual? ==> c >= |RealPart(schema[t], columns)|
  {
    HeldIsRecord(schema, t, columns);
  }

  // ---- writing values ----

  ghost predicate IsDefaulted(cols: RecordDef, id: nat, start: nat, before: seq<uint16>, columns: seq<uint16>) {
    && |columns| == |before|
    && forall c :: 0 <= c < |columns| ==>
         columns[c] == if start <= c < |cols| then DefaultValue(cols[c], id) else before[c]
  }

  /** The stored records after a modified buffer has been flushed under its number. */
  function Flushed(raws: seq<Raw>, b: Buffer, raw: Raw): (r: seq<Raw>)
    requires b.isModified ==> b.recordId < |raws|
    ensures |r| == |raws|
  {
    if b.isModified then raws[b.recordId := raw] else raws
  }

  lemma FlushedInPlace(raws: seq<Raw>, b: Buffer, raw: Raw, r: nat, raw': Raw)
    requires r < |raws| && (b.isModified ==> b.recordId == r)
    ensures Flushed(raws, b, raw)[r := raw'] == raws[r := raw']
  {
  }

  /** The buffer after setValue holds the new record. */
  lemma NewColumnsHold(schema: Tables, db: Db, t: nat, r: nat, c: nat, value: uint16, columns: seq<uint16>)
    requires SchemaIsValid(schema) && IsPopulated(schema, db) && t < |db| && r < |db[t]| && c < |db[t][r]|
    requires HoldsRecord(schema[t], columns) && RealPart(schema[t], columns) == db[t][r]
    requires |columns| == MaxNumColumns(schema[t])
    requires HasColumn(schema[t], db[t][r], c) && InRange(db, t, ColumnsOf(schema[t], db[t][r])[c], value)
    requires c == 0 && HasVariableRecords(schema[t]) ==> value < |schema[t].recordDefs|
    ensures c < |columns|
    ensures !(c == 0 && HasVariableRecords(schema[t])) ==>
              HoldsRecord(schema[t], columns[c := value])
              && RealPart(schema[t], columns[c := value]) == WithValue(schema[t], db[t][r], r, c, value)
    ensures c == 0 && HasVariableRecords(schema[t]) ==>
              EncodePre(schema[t], columns[c := value]) && 1 <= |schema[t].recordDefs[value]| <= |columns|
    ensures c == 0 && HasVariableRecords(schema[t]) ==>
              forall after :: IsDefaulted(schema[t].recordDefs[value], r, 1, columns[c := value], after) ==>
                && EncodePre(schema[t], after) && HoldsRecord(schema[t], after)
                && RealPart(schema[t], after) == WithValue(schema[t], db[t][r], r, c, value)
  {
    SetValueIsRecord(schema, db, t, r, c, value);
    HeldIsRecord(schema, t, columns);
    TableSchema(schema, t);
    var table, rec := schema[t], WithValue(schema[t], db[t][r], r, c, value);
    if c == 0 && HasVariableRecords(table) {
      hide SchemaIsValid, IsPopulated, InRange, FitsColumn, CodecSchema;
      forall after | IsDefaulted(table.recordDefs[value], r, 1, columns[c := value], after)
        ensures EncodePre(table, after) && HoldsRecord(table, after) && RealPart(table, after) == rec
      {
        DefaultedHolds(schema, t, r, value, columns, after, rec);
      }
    } else {
      hide SchemaIsValid, IsPopulated, InRange, FitsColumn, CodecSchema;
      HeldAfterUpdate(schema, t, columns, c, value, rec);
    }
  }

  lemma HeldAfterUpdate(schema: Tables, t: nat, columns: seq<uint16>, c: nat, value: uint16, rec: Record)
    requires t < |schema| && HoldsRecord(schema[t], columns)
    requires c < NumReal(ColumnsOf(schema[t], columns)) && (c == 0 ==> !HasVariableRecords(schema[t]))
    requires rec == RealPart(schema[t], columns)[c := value] && IsRecord(schema[t], rec)
    ensures HoldsRecord(schema[t], columns[c := value]) && RealPart(schema[t], columns[c := value]) == rec
  {
    hide FitsColumn;
    assert ColumnsOf(schema[t], columns[c := value]) == ColumnsOf(schema[t], columns) == ColumnsOf(schema[t], rec);
  }

  lemma DefaultedHolds(schema: Tables, t: nat, r: nat, value: uint16, columns: seq<uint16>, after: seq<uint16>, rec: Record)
    requires SchemaIsValid(schema) && t < |schema| && HasVariableRecords(schema[t]) && value < |schema[t].recordDefs|
    requires |columns| == MaxNumColumns(schema[t]) && columns != []
    requires IsDefaulted(schema[t].recordDefs[value], r, 1, columns[0 := value], after)
    requires var cols := schema[t].recordDefs[value];
             NumReal(cols) > 0 && rec == [value] + DefaultValues(cols, r)[1..NumReal(cols)]
    requires IsRecord(schema[t], rec)
    ensures EncodePre(schema[t], after) && HoldsRecord(schema[t], after) && RealPart(schema[t], after) == rec
  {
    DefinedType(schema, t, value);
    hide SchemaIsValid, DefaultValue, RecordDefId, HasVariableRecords, MaxNumColumns, NumReal;
    var cols := schema[t].recordDefs[value];
    assert after[0] == value;
    assert after[..NumReal(cols)] == rec;
    HeldAsRecord(schema[t], value, after, rec);
  }

  lemma DefinedType(schema: Tables, t: nat, value: uint16)
    requires SchemaIsValid(schema) && t < |schema| && HasVariableRecords(schema[t]) && value < |schema[t].recordDefs|
    ensures RecordDefId(schema[t], value) == value && VirtualColumnsLast(schema[t].recordDefs[value])
    ensures NumReal(schema[t].recordDefs[value]) > 0 && |schema[t].recordDefs[value]| <= MaxNumColumns(schema[t])
  {
    TableSchema(schema, t);
  }

  /** Columns that begin with a record hold it. */
  lemma HeldAsRecord(table: Table, d: nat, columns: seq<uint16>, rec: Record)
    requires d < |table.recordDefs| && rec != [] && IsRecord(table, rec) && RecordDefId(table, rec[0]) == d
    requires VirtualColumnsLast(table.recordDefs[d]) && |table.recordDefs[d]| <= |columns|
    requires |rec| == NumReal(table.recordDefs[d]) && columns[..|rec|] == rec
    ensures EncodePre(table, columns) && HoldsRecord(table, columns) && RealPart(table, columns) == rec
  {
    hide FitsColumn, NumReal;
    var cols := table.recordDefs[d];
    assert columns[0] == columns[..|rec|][0] == rec[0];
    forall c | 0 <= c < |cols| && !IsVirtual(cols[c])
      ensures FitsColumn(cols[c], columns[c])
    {
      RealColumns(cols, c);
      assert columns[c] == columns[..|rec|][c] == rec[c];
    }
  }

  /** Storing over the buffered record what the buffer now holds. */
  lemma RewriteStep(table: Table, raws: seq<Raw>, b: Buffer, raw: Raw, columns: seq<uint16>)
    requires IsCoherent(table, raws, b) && b.recordId != NO_RECORD_ID && b.recordId < |raws|
    requires StoresRecord(table, raw) && HoldsRecord(table, columns) && |columns| == |b.columns|
    requires StoredRecord(table, raw) == RealPart(table, columns)
    ensures var b' := Buffer(b.recordId, true, columns);
            && IsCoherent(table, raws[b.recordId := raw], b')
            && TableView(table, raws[b.recordId := raw], b')
                 == TableView(table, raws, b)[b.recordId := RealPart(table, columns)]
  {
    hide StoresRecord, HoldsRecord, StoredRecord;
  }

  lemma AcceptMeans(db: Db, t: nat, col: Column, value: uint16)
    ensures AcceptsValue(db, t, col, value) <==>
              (InRange(db, t, col, value) && !IsVirtual(col) && !col.colType.ChildTable?)
    ensures InRange(db, t, col, value) <==>
              (col.minValue <= value <= MaxValueOf(db, t, col) && (value - col.minValue) % Step(col) == 0)
  {
  }

  lemma LimitIsInt16(lo: uint16, w: int, hi: uint16)
    ensures IsInt16(LimitValue(ToInt16(lo), ToInt16(w), ToInt16(hi)))
  {
  }

  /** int16 values are equal exactly when their uint16 readings are. */
  lemma SameInt16(x: int, y: uint16)
    requires IsInt16(x)
    ensures ToUint16(x) == y <==> x == ToInt16(y)
  {
  }
}
