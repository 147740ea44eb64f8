/** src/BitsOfData.c: the engine with one write-back record buffer per table. */
module Database {
  import opened MachineInts
  import opened Schema
  import opened SlotIndex
  import opened StoreLayout
  import opened StoreSteps
  import opened StoreOpening
  import opened StoreWrites
  import opened RecordStore
  import opened RecordCodec
  import opened LogicalDatabase
  import opened RecordBuffers
  import opened DatabaseRuns
  import opened ReferenceLoops
  import opened EngineState
  import opened ValueSteps
  import opened ReferenceSteps
  import opened RecordSteps
  import opened OpeningSteps
  import opened StaleBuffers
  import opened Reopening
  import opened TableImport
  import opened ParentRecords

  method GetMaxRawRecordSize(schema: Tables) returns (maxRawRecordSize: nat)
    ensures forall t :: 0 <= t < |schema| ==> MaxRecordSize(schema[t]) <= maxRawRecordSize
    ensures schema != [] ==> exists t :: 0 <= t < |schema| && MaxRecordSize(schema[t]) == maxRawRecordSize
  {
    hide MaxRecordSize;
    maxRawRecordSize := 0;
    for t := 0 to |schema|
      invariant forall u :: 0 <= u < t ==> MaxRecordSize(schema[u]) <= maxRawRecordSize
      invariant if t == 0 then maxRawRecordSize == 0
                else exists u :: 0 <= u < t && MaxRecordSize(schema[u]) == maxRawRecordSize
    {
      var recordSize := GetMaxRecordSize(schema[t]);
      if recordSize > maxRawRecordSize {
        maxRawRecordSize := recordSize;
        assert MaxRecordSize(schema[t]) == maxRawRecordSize;
      } else if t == 0 {
        assert MaxRecordSize(schema[0]) == maxRawRecordSize;
      }
    }
  }

  /** copyDataToRecordBuffer: virtual columns keep whatever the buffer held. */
  method CopyData(schema: Tables, t: nat, data: seq<uint16>, before: seq<uint16>) returns (columns: seq<uint16>)
    requires SchemaIsValid(schema) && t < |schema| && HasType(schema[t], data)
    requires |before| == MaxNumColumns(schema[t])
    ensures IsCopied(schema[t], data, before, columns)
  {
    var cols := ColumnsOf(schema[t], data);
    TableSchema(schema, t);
    hide SchemaIsValid, CodecSchema;
    columns := before;
    for c := 0 to |cols|
      invariant |columns| == |before|
      invariant forall i :: 0 <= i < |columns| ==>
                  columns[i] == if i < c && i < NumReal(cols) then data[i] else before[i]
    {
      SchemaColumnFacts(schema, t, RecordDefId(schema[t], data[0]), c);
      if !IsVirtual(cols[c]) {
        columns := columns[c := data[c]];
      }
    }
  }

  class Database {
    const schema: Tables
    const store: Store
    /** RawRecordBuffer, shared by all tables. */
    const rawBuffer: array<uint8>
    var buffers: seq<Buffer>

    /** The parts fit together; nothing is said of the record contents. */
    ghost predicate IsBuilt()
      reads this, store, store.ee
    {
      && SchemaIsValid(schema) && rawBuffer != store.ee
      && (forall t :: 0 <= t < |schema| ==> MaxRecordSize(schema[t]) <= rawBuffer.Length)
      && store.Valid() && PlacesMatch(schema, Places(store.catalog)) && |buffers| == |schema|
    }

    ghost function Raws(): seq<seq<Raw>>
      requires store.Valid()
      reads this, store, store.ee
    {
      store.Tables()
    }

    ghost predicate Valid()
      reads this, store, store.ee
    {
      IsBuilt() && AllCoherent(schema, Raws(), buffers)
    }

    /** The logical database: what buffers and EEPROM together represent. */
    ghost function Logical(): Db
      requires Valid()
      reads this, store, store.ee
    {
      ViewAll(schema, Raws(), buffers)
    }

    ghost predicate HasRecord(t: nat, r: nat)
      requires Valid()
      reads this, store, store.ee
    {
      t < |schema| && r < |Logical()[t]|
    }

    /** allocateRecordBuffers, on a device that is not open yet. */
    constructor (schema: Tables, device: array<uint8>)
      requires SchemaIsValid(schema)
      ensures this.schema == schema && store.ee == device && fresh(store) && fresh(rawBuffer)
      ensures store.catalog == [] && |buffers| == |schema|
      ensures forall t :: 0 <= t < |schema| ==>
                MaxRecordSize(schema[t]) <= rawBuffer.Length && IsEmptyBuffer(schema[t], buffers[t])
    {
      this.schema := schema;
      store := new Store(device);
      var maxRawRecordSize := GetMaxRawRecordSize(schema);
      rawBuffer := new uint8[maxRawRecordSize];
      buffers := seq(|schema|, t requires 0 <= t < |schema| =>
        Buffer(NO_RECORD_ID, false, seq(MaxNumColumns(schema[t]), _ => 0)));
    }

    // ---- the write-back buffer ----

    /** rc_encodeRecord and rs_setRawRecord of storeRecordBuffer, for any buffered values. */
    method StoreRaw(t: nat)
      requires IsBuilt() && t < |schema| && buffers[t].recordId < store.catalog[t].numRecords
      requires EncodePre(schema[t], buffers[t].columns)
      modifies rawBuffer, store.ee
      ensures IsBuilt() && t < |old(Raws())| == |schema|
      ensures var id := buffers[t].recordId;
              && id < |old(Raws()[t])|
              && |Raws()| == |schema| && id < |Raws()[t]|
              && Raws() == old(Raws())[t := old(Raws()[t])[id := Raws()[t][id]]]
              && Encoded(schema[t], buffers[t].columns) <= Raws()[t][id]
              && |Raws()[t][id]| == MaxRecordSize(schema[t])
    {
      hide SchemaIsValid, StoreIsValid, View, Encoded, Places, EncodePre, PlacesMatch, StoreAgrees;
      ghost var raws := Raws();
      BuiltTable(schema, store.ee[..], store.catalog, t);
      EncodedSize(schema, t, buffers[t].columns);
      EncodeRecord(buffers[t].columns, rawBuffer, schema[t]);
      ghost var raw := rawBuffer[..store.catalog[t].place.recordSize];
      BeginsWith(Encoded(schema[t], buffers[t].columns), rawBuffer[..], raw);
      store.SetRawRecord(t, buffers[t].recordId, rawBuffer);
      RawReplaced(raws, Raws(), t, buffers[t].recordId, raw);
    }

    /** storeRecordBuffer, which is also BDB_syncTable; the buffer stays marked as modified. */
    method StoreRecordBuffer(t: nat)
      requires Valid() && t < |schema| && buffers[t].recordId != NO_RECORD_ID
      modifies rawBuffer, store.ee
      ensures Valid() && Logical() == old(Logical())
      ensures IsSynced(schema[t], Raws()[t], buffers[t])
      ensures forall u :: 0 <= u < |schema| && u != t ==> Raws()[u] == old(Raws()[u])
    {
      hide SchemaIsValid, StoreIsValid, View, Encoded, Places, EncodePre, AllCoherent, ViewAll, IsCoherent,
        IsSynced, PlacesMatch, TableView;
      ghost var raws := Raws();
      OneTable(schema, raws, buffers, t);
      HeldEncodes(schema, t, raws[t], buffers[t]);
      BuiltTable(schema, store.ee[..], store.catalog, t);
      StoreRaw(t);
      ghost var raw := Raws()[t][buffers[t].recordId];
      StoreStep(schema, t, raws[t], buffers[t], raw);
      assert buffers[t := buffers[t]] == buffers;
      TableChanges(schema, raws, buffers, t, raws[t][buffers[t].recordId := raw], buffers[t]);
      assert Logical()[t] == old(Logical()[t]);
    }

    /** BDB_syncTable */
    method SyncTable(t: nat)
      requires Valid() && t < |schema| && buffers[t].recordId != NO_RECORD_ID
      modifies rawBuffer, store.ee
      ensures Valid() && Logical() == old(Logical())
      ensures AllStored(schema[t], Raws()[t]) && StoredTable(schema[t], Raws()[t]) == Logical()[t]
      ensures forall u :: 0 <= u < |schema| && u != t ==> Raws()[u] == old(Raws()[u])
    {
      hide SchemaIsValid, StoreIsValid, View, Places, AllCoherent, ViewAll, IsSynced, PlacesMatch, TableView,
        StoredTable;
      StoreRecordBuffer(t);
      OneTable(schema, Raws(), buffers, t);
      SyncedView(schema[t], Raws()[t], buffers[t]);
    }

    method WriteRecordBufferIfDirty(t: nat)
      requires Valid() && t < |schema|
      modifies rawBuffer, store.ee
      ensures Valid() && Logical() == old(Logical())
      ensures AllStored(schema[t], Raws()[t]) && IsSynced(schema[t], Raws()[t], buffers[t])
      ensures forall u :: 0 <= u < |schema| && u != t ==> Raws()[u] == old(Raws()[u])
    {
      hide SchemaIsValid, StoreIsValid, View, Places, AllCoherent, ViewAll, IsSynced, PlacesMatch, TableView, AllStored;
      OneTable(schema, Raws(), buffers, t);
      CoherentFacts(schema[t], Raws()[t], buffers[t]);
      if buffers[t].isModified {
        StoreRecordBuffer(t);
        OneTable(schema, Raws(), buffers, t);
        CoherentFacts(schema[t], Raws()[t], buffers[t]);
      }
    }

    /** rs_getRawRecord and rc_decodeRecord of fillRecordBuffer: the columns a stored record decodes
        to, over the values the buffer held. */
    method LoadRecord(t: nat, r: uint8) returns (columns: seq<uint16>)
      requires IsBuilt() && t < |schema| && t < |Raws()| && r < |Raws()[t]|
      requires StoresRecord(schema[t], Raws()[t][r]) && |buffers[t].columns| == MaxNumColumns(schema[t])
      ensures Decoded(schema[t], Raws()[t][r]) <= columns && |columns| == MaxNumColumns(schema[t])
    {
      hide SchemaIsValid, StoreIsValid, View, Places, PlacesMatch, Decoded, StoresRecord, DecodePre;
      BuiltTable(schema, store.ee[..], store.catalog, t);
      var raw := store.GetRawRecord(t, r);
      DecodeFacts(schema, t, raw[..]);
      var before := buffers[t].columns;
      var buffer := new uint16[|before|](i requires 0 <= i < |before| => before[i]);
      DecodeRecord(raw, buffer, schema[t]);
      columns := buffer[..];
    }

    method FillRecordBuffer(t: nat, r: uint8)
      requires Valid() && HasRecord(t, r)
      modifies this`buffers, rawBuffer, store.ee
      ensures Valid() && Logical() == old(Logical())
      ensures IsRead(old(buffers[t]), buffers[t], r) && HoldsRecord(schema[t], buffers[t].columns)
      ensures RealPart(schema[t], buffers[t].columns) == Logical()[t][r]
      ensures OnlyTouches({t}, old(Raws()), old(buffers), Raws(), buffers)
    {
      hide OnlyTouches, SchemaIsValid, StoreIsValid, View, Places, AllCoherent, ViewAll, IsSynced, PlacesMatch,
        TableView, AllStored, IsCoherent, HoldsRecord, StoresRecord, Decoded, RealPart;
      OneTable(schema, Raws(), buffers, t);
      NothingTouched(schema, Raws(), buffers, {t});
      ghost var raws0 := Raws();
      if buffers[t].recordId != r {
        WriteRecordBufferIfDirty(t);
        ghost var raws, before := Raws(), buffers;
        OneTable(schema, raws, buffers, t);
        StoredFacts(schema[t], raws[t], buffers[t], r);
        var columns := LoadRecord(t, r);
        FillStep(schema[t], raws[t], buffers[t], r, columns);
        buffers := buffers[t := Buffer(r, false, columns)];
        assert raws[t := raws[t]] == raws;
        TableChanges(schema, raws, before, t, raws[t], buffers[t]);
        OneTable(schema, Raws(), buffers, t);
        assert Logical() == old(Logical())[t := old(Logical()[t])];
        TableTouched(raws0, before, Raws(), buffers[t], t);
      }
      BufferShows(schema[t], Raws()[t], buffers[t]);
    }

    // ---- whole records ----

    /** BDB_getRecord: the buffered columns, of which the real ones may be used. */
    method GetRecord(t: nat, r: uint8) returns (columns: seq<uint16>)
      requires Valid() && HasRecord(t, r)
      modifies this`buffers, rawBuffer, store.ee
      ensures Valid() && Logical() == old(Logical())
      ensures Logical()[t][r] <= columns
      ensures buffers[t].recordId == r && buffers[t].columns == columns
    {
      hide AllCoherent, ViewAll, HoldsRecord, SchemaIsValid, StoreIsValid, PlacesMatch;
      FillRecordBuffer(t, r);
      columns := buffers[t].columns;
      RealIsPrefix(schema[t], columns);
    }

    /** getMaxValue */
    method GetMaxValue(t: nat, col: Column, ghost db: Db) returns (maxValue: uint16)
      requires IsBuilt() && t < |schema| && CountsAgree(db, store.catalog) && |db| == |schema|
      requires col.colType.Reference? ==> TargetTable(col.colType, t) < |schema|
      ensures maxValue == MaxValueOf(db, t, col)
    {
      MaxValueIsLive(db, store.catalog, t, col);
      hide SchemaIsValid, StoreIsValid, PlacesMatch, CountsAgree, MaxValueOf, ToUint16;
      if col.colType.Reference? {
        if col.colType.refTable == SELF_REFERENCE {
          maxValue := ToUint16(store.catalog[t].numRecords - 1);
        } else {
          maxValue := ToUint16(store.catalog[col.colType.refTable].numRecords - 1);
        }
      } else {
        maxValue := col.maxValue;
      }
    }

    /** validateRecord */
    method ValidateRecord(t: nat, data: seq<uint16>, ghost db: Db) returns (accepted: bool)
      requires IsBuilt() && t < |schema| && CountsAgree(db, store.catalog) && |db| == |schema|
      requires HasType(schema[t], data)
      ensures accepted <==> AcceptsRecord(schema[t], db, t, data)
    {
      hide StoreIsValid, MaxValueOf, CountsAgree, PlacesMatch, ColumnIsValid, Step;
      var cols := ColumnsOf(schema[t], data);
      for c := 0 to |cols|
        invariant forall i :: 0 <= i < c && i < NumReal(cols) ==> InRange(db, t, cols[i], data[i])
      {
        SchemaColumnFacts(schema, t, RecordDefId(schema[t], data[0]), c);
        if !IsVirtual(cols[c]) {
          var maxValue := GetMaxValue(t, cols[c], db);
          if data[c] < cols[c].minValue
             || data[c] > maxValue
             || (data[c] - cols[c].minValue) % Step(cols[c]) != 0 {
            return false;
          }
        }
      }
      return true;
    }

    /** BDB_setRecord, whatever the other records of the table hold. The data is copied into the buffer
        before it is validated; when it is rejected the buffer is dropped. */
    method PutRecord(t: nat, r: uint8, data: seq<uint16>, ghost db: Db) returns (accepted: bool)
      requires IsBuilt() && t < |schema| && r < store.catalog[t].numRecords
      requires |db| == |schema| && CountsAgree(db, store.catalog) && HasType(schema[t], data)
      requires |buffers[t].columns| == MaxNumColumns(schema[t])
      requires buffers[t].isModified ==>
                 buffers[t].recordId < store.catalog[t].numRecords && EncodePre(schema[t], buffers[t].columns)
      modifies this`buffers, rawBuffer, store.ee
      ensures IsBuilt() && |old(Raws())| == |Raws()| == |schema| && |buffers| == |schema|
      ensures !old(buffers[t].isModified) ==> Raws() == old(Raws())
      ensures old(buffers[t].isModified) ==>
                var b := old(buffers[t]);
                && b.recordId < |old(Raws()[t])| && b.recordId < |Raws()[t]|
                && Raws() == old(Raws())[t := old(Raws()[t])[b.recordId := Raws()[t][b.recordId]]]
                && Encoded(schema[t], b.columns) <= Raws()[t][b.recordId]
                && |Raws()[t][b.recordId]| == MaxRecordSize(schema[t])
      ensures accepted <==> AcceptsRecord(schema[t], db, t, data)
      ensures IsCopied(schema[t], data, old(buffers[t].columns), buffers[t].columns)
      ensures buffers == old(buffers)[t :=
                if accepted then Buffer(r, true, buffers[t].columns) else Buffer(NO_RECORD_ID, false, buffers[t].columns)]
    {
      hide SchemaIsValid, StoreIsValid, View, Encoded, Places, EncodePre, PlacesMatch, AcceptsRecord, NumReal,
        IsCopied, HasType, MaxNumColumns, MaxRecordSize, CountsAgree, StoreAgrees;
      BuiltTable(schema, store.ee[..], store.catalog, t);
      if buffers[t].isModified {
        StoreRaw(t); // writeRecordBufferIfDirty
      }
      var columns := CopyData(schema, t, data, buffers[t].columns);
      buffers := buffers[t := Buffer(r, true, columns)]; // copyDataToRecordBuffer
      accepted := ValidateRecord(t, data, db);
      if !accepted {
        buffers := buffers[t := Buffer(NO_RECORD_ID, false, columns)]; // clearRecordBuffer
      }
    }

    /** BDB_setRecord. A rejected record loses nothing, because the buffer was flushed first. Data of a
        record type that is not defined is rejected as documented; pastDefs tells that the code reads
        behind the record definitions of the table before it has validated anything. */
    method SetRecord(t: nat, r: uint8, data: seq<uint16>) returns (accepted: bool, pastDefs: bool)
      requires Valid() && IsPopulated(schema, Logical())
      requires IdsExist(schema, Logical(), Op.SetRecord(t, r, data))
      modifies this`buffers, rawBuffer, store.ee
      ensures Valid() && accepted == old(Accepts(schema, Logical(), Op.SetRecord(t, r, data)))
      ensures Logical() == Apply(schema, old(Logical()), Op.SetRecord(t, r, data))
      ensures accepted ==> buffers[t].recordId == r
      ensures pastDefs <==> HasVariableRecords(schema[t]) && ToUint8(data[0]) >= |schema[t].recordDefs|
    {
      hide StoreIsValid, View, AllCoherent, ViewAll, IsSynced, PlacesMatch, TableView, AllStored, IsCoherent,
        HoldsRecord, SchemaIsValid, IsPopulated, AcceptsRecord, Places, RealPart, HasType, NumReal, Encoded,
        EncodePre;
      TableSizes(schema, t);
      pastDefs := RecordDefId(schema[t], data[0]) >= |schema[t].recordDefs|;
      if pastDefs {
        NoSuchType(schema[t], data);
        ReleaseBuffer(t);
        return false, true;
      }
      TypeIsNamed(schema[t], data);
      ghost var db, raws0, before := Logical(), Raws(), buffers;
      OneTable(schema, raws0, buffers, t);
      AllCounts(schema, store.ee[..], store.catalog, buffers);
      CoherentFacts(schema[t], raws0[t], buffers[t]);
      if buffers[t].isModified {
        HeldEncodes(schema, t, raws0[t], buffers[t]);
      }
      accepted := PutRecord(t, r, data, db);
      ghost var raws, columns := Raws(), buffers[t].columns;
      if before[t].isModified {
        StoreStep(schema, t, raws0[t], before[t], raws[t][before[t].recordId]);
      } else {
        SameUpdate(raws0, t);
      }
      if accepted {
        CopiedRecord(schema, db, t, data, before[t].columns, columns);
        WriteStep(schema[t], raws[t], before[t], r, columns);
      } else {
        ClearStep(schema[t], raws[t], before[t], columns);
        SameUpdate(db, t);
      }
      TableChanges(schema, raws0, before, t, raws[t], buffers[t]);
    }

    // ---- single values ----

    /** BDB_getValue. A virtual column is resolved through its reference (resolveVirtualColumn); a string
        column has no value. */
    method GetValue(t: nat, r: uint8, c: nat) returns (value: uint16)
      requires Valid() && IsReadable(schema, Logical(), t, r, c)
      modifies this`buffers, rawBuffer, store.ee
      ensures Valid() && Logical() == old(Logical())
      ensures value == ValueOf(schema, Logical(), t, r, c)
      decreases if ColumnsOf(schema[t], Logical()[t][r])[c].colType.Virtual? then 1 else 0
      ensures OnlyTouches(TablesRead(schema, Logical(), t, r, c), old(Raws()), old(buffers), Raws(), buffers)
      ensures c < |Logical()[t][r]| ==> IsRead(old(buffers[t]), buffers[t], r)
    {
      hide OnlyTouches, AllCoherent, ViewAll, HoldsRecord, SchemaIsValid, StoreIsValid, PlacesMatch, Places;
      ghost var db := Logical();
      ghost var raws0, buffers0 := Raws(), buffers;
      NothingTouched(schema, raws0, buffers0, TablesRead(schema, db, t, r, c));
      FillRecordBuffer(t, r);
      ghost var raws1, buffers1 := Raws(), buffers;
      BufferedColumns(schema, t, buffers[t].columns, c);
      var columns := buffers[t].columns;
      var col := ColumnsOf(schema[t], columns)[c];
      if col.colType.Virtual? {
        var refColumn := ColumnsOf(schema[t], columns)[col.colType.refCol];
        value := GetValue(refColumn.colType.refTable, ToUint8(columns[col.colType.refCol]), col.colType.valueCol);
        ghost var tables := TablesRead(schema, db, t, r, c);
        TouchesMore({t}, tables, raws0, buffers0, raws0, buffers0, raws1, buffers1);
        ghost var others := TablesRead(schema, db, refColumn.colType.refTable,
          ToUint8(columns[col.colType.refCol]), col.colType.valueCol);
        TouchesMore(others, tables, raws0, buffers0, raws1, buffers1, Raws(), buffers);
      } else if col.colType.Str? {
        value := NO_VALUE; // INVALID_VALUE
      } else {
        value := columns[c];
      }
    }

    /** The loop of setColumnsToDefaultValue. */
    method DefaultColumns(cols: RecordDef, id: uint8, startColumn: nat, before: seq<uint16>) returns (columns: seq<uint16>)
      requires |cols| <= |before| && startColumn <= |cols|
      ensures |columns| == |before|
      ensures forall c :: 0 <= c < |columns| ==>
                columns[c] == if startColumn <= c < |cols| then DefaultValue(cols[c], id) else before[c]
    {
      hide DefaultValue;
      columns := before;
      for c := startColumn to |cols|
        invariant |columns| == |before|
        invariant forall i :: 0 <= i < |columns| ==>
                    columns[i] == if startColumn <= i < c then DefaultValue(cols[i], id) else before[i]
      {
        columns := columns[c := DefaultValue(cols[c], id)];
      }
    }

    /** setColumnsToDefaultValue: flushes a modified buffer, whatever record it holds, to `flushed`; then
        fills in and stores the defaults. */
    method SetColumnsToDefaultValue(t: nat, r: uint8, startColumn: nat, cols: RecordDef) returns (ghost flushed: Raw)
      requires IsBuilt() && t < |schema| && r < store.catalog[t].numRecords
      requires startColumn <= |cols| <= |buffers[t].columns|
      requires buffers[t].isModified ==>
                 buffers[t].recordId < store.catalog[t].numRecords && EncodePre(schema[t], buffers[t].columns)
      requires forall columns :: IsDefaulted(cols, r, startColumn, buffers[t].columns, columns) ==>
                 EncodePre(schema[t], columns)
      modifies this`buffers, rawBuffer, store.ee
      ensures IsBuilt() && |Raws()| == |old(Raws())| == |schema| && r < |old(Raws()[t])|
      ensures IsDefaulted(cols, r, startColumn, old(buffers[t].columns), buffers[t].columns)
      ensures |buffers[t].columns| == old(|buffers[t].columns|)
      ensures buffers == old(buffers)[t := Buffer(r, old(buffers[t].isModified), buffers[t].columns)]
      ensures old(buffers[t].isModified) ==>
                && old(buffers[t].recordId) < |old(Raws()[t])|
                && Encoded(schema[t], old(buffers[t].columns)) <= flushed && |flushed| == MaxRecordSize(schema[t])
      ensures r < |Raws()[t]|
      ensures Raws() == old(Raws())[t := Flushed(old(Raws()[t]), old(buffers[t]), flushed)[r := Raws()[t][r]]]
      ensures EncodePre(schema[t], buffers[t].columns) && Encoded(schema[t], buffers[t].columns) <= Raws()[t][r]
      ensures |Raws()[t][r]| == MaxRecordSize(schema[t])
    {
      hide SchemaIsValid, StoreIsValid, View, Encoded, Places, EncodePre, PlacesMatch;
      BuiltTable(schema, store.ee[..], store.catalog, t);
      ghost var raws, before := Raws(), buffers[t];
      flushed := [];
      if buffers[t].isModified {
        StoreRaw(t); // writeRecordBufferIfDirty
        flushed := Raws()[t][before.recordId];
      } else {
        SameUpdate(raws, t);
      }
      assert Raws()[t] == Flushed(raws[t], before, flushed);
      var columns := DefaultColumns(cols, r, startColumn, buffers[t].columns);
      buffers := buffers[t := Buffer(r, buffers[t].isModified, columns)];
      StoreRaw(t);
      UpdateTwice(raws, t, Flushed(raws[t], before, flushed), Raws()[t]);
    }

    /** setVariableRecordToDefaultValues of setValue: the new type is in column 0 already when the
        old buffer is flushed, and all other columns are reset. */
    method ChangeRecordType(t: nat, r: uint8, value: uint16, ghost db: Db)
      requires Valid() && db == Logical() && IsPopulated(schema, db) && t < |db| && r < |db[t]| && 0 < |db[t][r]|
      requires buffers[t].recordId == r && HasVariableRecords(schema[t]) && value < |schema[t].recordDefs|
      requires HasColumn(schema[t], db[t][r], 0) && InRange(db, t, ColumnsOf(schema[t], db[t][r])[0], value)
      modifies this`buffers, rawBuffer, store.ee
      ensures Valid() && Logical() == WithRecord(db, t, r, WithValue(schema[t], db[t][r], r, 0, value))
      ensures buffers[t].recordId == r && buffers[t].isModified
    {
      hide StoreIsValid, View, AllCoherent, ViewAll, IsSynced, PlacesMatch, TableView, AllStored, IsCoherent,
        HoldsRecord, SchemaIsValid, IsPopulated, Places, RealPart, InRange, WithValue, EncodePre, Encoded,
        IsDefaulted, HasColumn, StoresRecord, Flushed, StoredRecord, MaxNumColumns, MaxRecordSize, StoreAgrees;
      ghost var raws, before := Raws(), buffers;
      OneTable(schema, raws, buffers, t);
      BufferShows(schema[t], raws[t], buffers[t]);
      CoherentFacts(schema[t], raws[t], buffers[t]);
      BuiltTable(schema, store.ee[..], store.catalog, t);
      NewColumnsHold(schema, db, t, r, 0, value, buffers[t].columns);
      buffers := buffers[t := buffers[t].(columns := buffers[t].columns[0 := value])];
      ghost var changed := buffers[t];
      ghost var flushed := SetColumnsToDefaultValue(t, r, 1, schema[t].recordDefs[value]);
      ghost var raw := Raws()[t][r];
      FlushedInPlace(raws[t], changed, flushed, r, raw);
      EncodedIsStored(schema, t, buffers[t].columns, raw);
      RewriteStep(schema[t], raws[t], before[t], raw, buffers[t].columns);
      buffers := buffers[t := buffers[t].(isModified := true)];
      TableChanges(schema, raws, before, t, raws[t][r := raw], buffers[t]);
      assert buffers == before[t := buffers[t]];
    }

    /** setValue */
    method SetBufferedValue(t: nat, r: uint8, c: nat, value: uint16, ghost db: Db)
      requires Valid() && db == Logical() && IsPopulated(schema, db) && t < |db| && r < |db[t]| && c < |db[t][r]|
      requires buffers[t].recordId == r
      requires HasColumn(schema[t], db[t][r], c) && InRange(db, t, ColumnsOf(schema[t], db[t][r])[c], value)
      requires c == 0 && HasVariableRecords(schema[t]) ==> value < |schema[t].recordDefs|
      modifies this`buffers, rawBuffer, store.ee
      ensures Valid() && Logical() == WithRecord(db, t, r, WithValue(schema[t], db[t][r], r, c, value))
      ensures buffers[t].recordId == r && buffers[t].isModified
      ensures !(c == 0 && HasVariableRecords(schema[t])) ==> OnlyTouches({t}, old(Raws()), old(buffers), Raws(), buffers)
    {
      hide OnlyTouches, StoreIsValid, View, AllCoherent, ViewAll, IsSynced, PlacesMatch, TableView, AllStored,
        IsCoherent, HoldsRecord, SchemaIsValid, IsPopulated, Places, RealPart, InRange, WithValue, HasColumn;
      if c == 0 && |schema[t].recordDefs| > 1 { // changing record type
        ChangeRecordType(t, r, value, db);
      } else {
        ghost var raws, before := Raws(), buffers;
        OneTable(schema, raws, buffers, t);
        BufferShows(schema[t], raws[t], buffers[t]);
        CoherentFacts(schema[t], raws[t], buffers[t]);
        NewColumnsHold(schema, db, t, r, c, value, buffers[t].columns);
        var columns := buffers[t].columns[c := value];
        buffers := buffers[t := Buffer(r, true, columns)];
        WriteStep(schema[t], raws[t], before[t], r, columns);
        assert raws[t := raws[t]] == raws;
        TableChanges(schema, raws, before, t, raws[t], buffers[t]);
        TableTouched(raws, before, Raws(), buffers[t], t);
      }
    }

    /** BDB_setValue */
    method SetValue(t: nat, r: uint8, c: nat, value: uint16) returns (accepted: bool)
      requires Valid() && IsPopulated(schema, Logical())
      requires IdsExist(schema, Logical(), Op.SetValue(t, r, c, value))
      modifies this`buffers, rawBuffer, store.ee
      ensures Valid() && accepted == old(Accepts(schema, Logical(), Op.SetValue(t, r, c, value)))
      ensures Logical() == Apply(schema, old(Logical()), Op.SetValue(t, r, c, value))
      ensures accepted ==> buffers[t].recordId == r && buffers[t].isModified
      ensures !(c == 0 && HasVariableRecords(schema[t])) ==> OnlyTouches({t}, old(Raws()), old(buffers), Raws(), buffers)
    {
      hide OnlyTouches, StoreIsValid, View, AllCoherent, ViewAll, PlacesMatch, HoldsRecord, SchemaIsValid,
        IsPopulated, RefsExist, Places, InRange, WithValue, HasColumn, CountsAgree, MaxValueOf;
      ghost var db := Logical();
      ghost var raws0, buffers0 := Raws(), buffers;
      FillRecordBuffer(t, r);
      ghost var raws1, buffers1 := Raws(), buffers;
      BufferedColumns(schema, t, buffers[t].columns, c);
      var cols := ColumnsOf(schema[t], buffers[t].columns);
      SchemaColumnFacts(schema, t, RecordDefId(schema[t], buffers[t].columns[0]), c);
      AllCounts(schema, store.ee[..], store.catalog, buffers);
      var maxValue := GetMaxValue(t, cols[c], db);
      AcceptMeans(db, t, cols[c], value);
      if value < cols[c].minValue
         || value > maxValue
         || IsVirtual(cols[c])
         || (value - cols[c].minValue) % Step(cols[c]) != 0
         || cols[c].colType.ChildTable? {
        return false;
      }
      TypeValueInRange(schema, db, t, r, c, value);
      SetBufferedValue(t, r, c, value, db);
      if !(c == 0 && HasVariableRecords(schema[t])) {
        TouchesMore({t}, {t}, raws0, buffers0, raws1, buffers1, Raws(), buffers);
      }
      accepted := true;
    }

    /** BDB_changeValue, wherever the computed value is a legal one. */
    method ChangeBufferedValue(t: nat, r: uint8, c: nat, delta: int, ghost db: Db) returns (changed: bool)
      requires Valid() && db == Logical() && IsPopulated(schema, db) && IsInt16(delta)
      requires IdsExist(schema, db, Op.ChangeValue(t, r, c, delta))
      requires c < |db[t][r]| ==>
                 InRange(db, t, ColumnsOf(schema[t], db[t][r])[c], NewValue(schema, db, t, r, c, delta))
      modifies this`buffers, rawBuffer, store.ee
      ensures Valid() && ChangeOutcome(schema, db, t, r, c, delta, changed, Logical())
      ensures !(c == 0 && HasVariableRecords(schema[t])) ==> OnlyTouches({t}, old(Raws()), old(buffers), Raws(), buffers)
    {
      hide OnlyTouches, StoreIsValid, View, AllCoherent, ViewAll, PlacesMatch, HoldsRecord, SchemaIsValid,
        IsPopulated, Places, InRange, WithValue, HasColumn, CountsAgree, MaxValueOf, ToInt16, ToUint16,
        LimitValue;
      ghost var raws0, buffers0 := Raws(), buffers;
      FillRecordBuffer(t, r);
      ghost var raws1, buffers1 := Raws(), buffers;
      BufferedColumns(schema, t, buffers[t].columns, c);
      var cols := ColumnsOf(schema[t], buffers[t].columns);
      SchemaColumnFacts(schema, t, RecordDefId(schema[t], buffers[t].columns[0]), c);
      if IsVirtual(cols[c]) || cols[c].colType.ChildTable? {
        return false;
      }
      var step := ToInt16(delta * Step(cols[c]));
      var value := ToInt16(buffers[t].columns[c]);
      AllCounts(schema, store.ee[..], store.catalog, buffers);
      var maxValue := GetMaxValue(t, cols[c], db);
      var newValue := LimitValue(ToInt16(cols[c].minValue), ToInt16(value + step), ToInt16(maxValue));
      assert buffers[t].columns[c] == db[t][r][c];
      LimitIsInt16(cols[c].minValue, value + step, maxValue);
      SameInt16(newValue, db[t][r][c]);
      if newValue == value {
        return false;
      }
      NewTypeInRange(schema, db, t, r, c, delta);
      SetBufferedValue(t, r, c, ToUint16(newValue), db);
      if !(c == 0 && HasVariableRecords(schema[t])) {
        TouchesMore({t}, {t}, raws0, buffers0, raws1, buffers1, Raws(), buffers);
      }
      changed := true;
    }

    /** BDB_changeValue, for changes that do not overflow int16, and for all changes in steps of one. */
    method ChangeValue(t: nat, r: uint8, c: nat, delta: int) returns (changed: bool)
      requires Valid() && IsConsistent(schema, Logical()) && IsInt16(delta)
      requires IdsExist(schema, Logical(), Op.ChangeValue(t, r, c, delta))
      requires IsSafe(schema, Logical(), Op.ChangeValue(t, r, c, delta))
      modifies this`buffers, rawBuffer, store.ee
      ensures Valid() && changed == old(Accepts(schema, Logical(), Op.ChangeValue(t, r, c, delta)))
      ensures Logical() == Apply(schema, old(Logical()), Op.ChangeValue(t, r, c, delta))
    {
      hide StoreIsValid, View, AllCoherent, ViewAll, PlacesMatch, SchemaIsValid, IsPopulated, RefsExist, Places,
        InRange, WithValue, HasColumn, NewValue, ChangeIsSafe;
      if c < |Logical()[t][r]| {
        NewValueFits(schema, Logical(), t, r, c, delta);
      }
      changed := ChangeBufferedValue(t, r, c, delta, Logical());
    }

    // ---- references ----

    /** shiftReferenceUp and shiftReferenceDown. */
    method ShiftReference(t: nat, r: uint8, c: nat, target: nat, k: uint8, up: bool, ghost db: Db)
      requires Valid() && db == Logical() && IsPopulated(schema, db) && t < |db| && r < |db[t]| && target < |db|
      requires IsRef(schema[t], t, db[t][r], c, target) && IsSafeShift(db[t][r][c], k, up, |db[target]|)
      requires IsReadable(schema, db, t, r, c) && ValueOf(schema, db, t, r, c) == db[t][r][c]
      requires TablesRead(schema, db, t, r, c) == {t}
      modifies this`buffers, rawBuffer, store.ee
      ensures Valid() && Logical() == db[t := db[t][r := ShiftCell(db[t][r], c, k, up)]]
      ensures OnlyTouches({t}, old(Raws()), old(buffers), Raws(), buffers)
    {
      hide OnlyTouches, StoreIsValid, View, AllCoherent, ViewAll, PlacesMatch, SchemaIsValid, IsPopulated,
        Places, IsSafeShift, RefersTo, InRange, NewValue, Accepts, IsReadable, ValueOf, TablesRead;
      ghost var raws0, buffers0 := Raws(), buffers;
      var value := GetValue(t, r, c);
      ghost var raws1, buffers1 := Raws(), buffers;
      SafeValue(value, k, up, |db[target]|);
      if ToUint8(value) > k {
        ChangeOfReference(schema, db, t, r, c, target, k, up);
        var changed := ChangeBufferedValue(t, r, c, if up then 1 else -1, db);
        TouchesMore({t}, {t}, raws0, buffers0, raws1, buffers1, Raws(), buffers);
        ChangedReference(schema, db, t, r, c, k, up, changed, Logical());
      } else {
        NoShift(db[t][r], c, k, up);
        SameUpdate(db[t], r);
        SameUpdate(db, t);
      }
    }

    /** The innermost loop of forEachReference with shiftReferenceUp or shiftReferenceDown. */
    method ShiftReferencesInColumn(t: nat, d: nat, c: nat, target: nat, k: uint8, up: bool, ghost base: Db)
      requires Valid() && base == Logical() && IsPopulated(schema, base)
      requires t < |schema| && d < |schema[t].recordDefs| && c < |schema[t].recordDefs[d]|
      requires target < |schema| && RefersTo(schema[t].recordDefs[d][c], t, target)
      requires forall r :: 0 <= r < |base[t]| && HasDef(schema[t], base[t][r], d) && c < |base[t][r]| ==>
                 IsSafeShift(base[t][r][c], k, up, |base[target]|)
      modifies this`buffers, rawBuffer, store.ee
      ensures Valid() && Logical() == base[t := ShiftColumn(schema[t], base[t], d, c, k, up, |base[t]|)]
      ensures OnlyTouches({t}, old(Raws()), old(buffers), Raws(), buffers)
    {
      hide OnlyTouches, StoreIsValid, View, AllCoherent, ViewAll, PlacesMatch, SchemaIsValid, IsPopulated,
        Places, ShiftColumn, IsSafeShift, IsRecord, ShiftCell, IsReadable, ValueOf, TablesRead, HasDef, IsRef,
        IsTable, MaxRecordSize;
      AllCounts(schema, store.ee[..], store.catalog, buffers);
      ghost var raws0, buffers0 := Raws(), buffers;
      NothingTouched(schema, raws0, buffers0, {t});
      NothingVisited(schema[t], base[t], d, c, k, up);
      var numRecords := store.catalog[t].numRecords;
      assert base == base[t := base[t]];
      for rec := 0 to numRecords
        invariant Valid() && OnlyTouches({t}, raws0, buffers0, Raws(), buffers)
        invariant Logical() == base[t := ShiftColumn(schema[t], base[t], d, c, k, up, rec)]
      {
        ghost var db, raws1, buffers1 := Logical(), Raws(), buffers;
        ShiftColumnStep(schema[t], base[t], d, c, k, up, rec);
        LogicalIsPopulated(schema, Raws(), buffers, base);
        TypedRecord(schema, db, t, rec, d, c);
        if |schema[t].recordDefs| > 1 {
          var tag := GetValue(t, rec, 0);
          TouchesMore({t}, {t}, raws0, buffers0, raws1, buffers1, Raws(), buffers);
          raws1, buffers1 := Raws(), buffers;
          if tag != d {
            continue;
          }
        }
        RefersIsRef(schema[t], t, db[t][rec], d, c, target);
        if schema[t].recordDefs[d][c].colType.refTable == SELF_REFERENCE && t == target {
          var value := GetValue(t, rec, c);
          TouchesMore({t}, {t}, raws0, buffers0, raws1, buffers1, Raws(), buffers);
          raws1, buffers1 := Raws(), buffers;
          if value == k { // exclude a self referencing column that points to its own record
            NoShift(db[t][rec], c, k, up);
            SameUpdate(db[t], rec);
            continue;
          }
        }
        ShiftReference(t, rec, c, target, k, up, db);
        TouchesMore({t}, {t}, raws0, buffers0, raws1, buffers1, Raws(), buffers);
        UpdateTwice(base, t, ShiftColumn(schema[t], base[t], d, c, k, up, rec), Logical()[t]);
      }
    }

    /** The loop over the columns of one record type. */
    method ShiftReferencesInDef(t: nat, d: nat, target: nat, k: uint8, up: bool, ghost first: Db, ghost base: Db)
      requires Valid() && IsPopulated(schema, first) && t < |schema| && d < |schema[t].recordDefs| && target < |schema|
      requires ShiftIsSafe(schema, first, target, k, up)
      requires |base| == |first| && (forall u :: 0 <= u < |base| ==> |base[u]| == |first[u]|)
      requires base[t] == ShiftDefs(schema[t], t, first[t], target, k, up, d) && Logical() == base
      modifies this`buffers, rawBuffer, store.ee
      ensures Valid()
      ensures Logical() == base[t := ShiftColumns(schema[t], t, base[t], d, target, k, up, |schema[t].recordDefs[d]|)]
      ensures OnlyTouches(Referrers(schema, target), old(Raws()), old(buffers), Raws(), buffers)
    {
      hide OnlyTouches, StoreIsValid, View, AllCoherent, ViewAll, PlacesMatch, SchemaIsValid, Places,
        ShiftColumn, ShiftDefs, IsSafeShift, IsRecord, RefersTo, HasDef, TypedByColumn0, AreTyped, ShiftIsSafe,
        IsTable, ShiftColumns, IsRef, IsReferenceTo, MaxRecordSize, Referrer;
      ghost var raws0, buffers0 := Raws(), buffers;
      NothingTouched(schema, raws0, buffers0, Referrers(schema, target));
      DbIsTyped(schema, first, t);
      DefIsNotEmpty(schema, t, d);
      SafeTable(schema, first, target, k, up, t);
      var cols := schema[t].recordDefs[d];
      var startCol := 0;
      if |schema[t].recordDefs| > 1 {
        startCol := 1;
        TypeColumnSkipped(schema[t], t, base[t], d, target, k, up);
      }
      ShiftColumnsStart(schema[t], t, base[t], d, target, k, up);
      SameUpdate(base, t);
      for c := startCol to |cols|
        invariant Valid() && OnlyTouches(Referrers(schema, target), raws0, buffers0, Raws(), buffers)
        invariant Logical() == base[t := ShiftColumns(schema[t], t, base[t], d, target, k, up, c)]
      {
        ghost var now := ShiftColumns(schema[t], t, base[t], d, target, k, up, c);
        ShiftColumnsStep(schema[t], t, base[t], d, target, k, up, c);
        if IsReferenceTo(cols[c], t, target) {
          LogicalIsPopulated(schema, Raws(), buffers, first);
          UnvisitedIsSafe(schema[t], t, first[t], target, k, up, |first[target]|, d, c);
          ColumnRefers(schema[t], t, d, c, target);
          ghost var raws1, buffers1 := Raws(), buffers;
          ShiftReferencesInColumn(t, d, c, target, k, up, Logical());
          TouchesMore({t}, Referrers(schema, target), raws0, buffers0, raws1, buffers1, Raws(), buffers);
          UpdateTwice(base, t, now, Logical()[t]);
        }
      }
    }

    /** The loop over the record types of one table. */
    method ShiftReferencesInTable(t: nat, target: nat, k: uint8, up: bool, ghost first: Db, ghost base: Db)
      requires Valid() && IsPopulated(schema, first) && t < |schema| && target < |schema|
      requires ShiftIsSafe(schema, first, target, k, up)
      requires |base| == |first| && (forall u :: 0 <= u < |base| ==> |base[u]| == |first[u]|)
      requires base[t] == first[t] && Logical() == base
      modifies this`buffers, rawBuffer, store.ee
      ensures Valid()
      ensures Logical() == base[t := ShiftTable(schema[t], t, first[t], target, k, up)]
      ensures OnlyTouches(Referrers(schema, target), old(Raws()), old(buffers), Raws(), buffers)
    {
      hide OnlyTouches, StoreIsValid, View, AllCoherent, ViewAll, PlacesMatch, SchemaIsValid, Places,
        ShiftColumns, IsRecord, TypedByColumn0, AreTyped, ShiftIsSafe, ShiftTable, IsTable;
      ghost var raws0, buffers0 := Raws(), buffers;
      NothingTouched(schema, raws0, buffers0, Referrers(schema, target));
      SameUpdate(base, t);
      for d := 0 to |schema[t].recordDefs|
        invariant Valid() && OnlyTouches(Referrers(schema, target), raws0, buffers0, Raws(), buffers)
        invariant Logical() == base[t := ShiftDefs(schema[t], t, first[t], target, k, up, d)]
      {
        ghost var now := ShiftDefs(schema[t], t, first[t], target, k, up, d);
        ghost var raws1, buffers1 := Raws(), buffers;
        ShiftReferencesInDef(t, d, target, k, up, first, base[t := now]);
        TouchesMore(Referrers(schema, target), Referrers(schema, target),
          raws0, buffers0, raws1, buffers1, Raws(), buffers);
        UpdateTwice(base, t, now, Logical()[t]);
      }
      DbIsTyped(schema, first, t);
      AllDefsVisited(schema[t], t, first[t], target, k, up);
    }

    /** shiftRecordReferencesUp and shiftRecordReferencesDown. */
    method ShiftReferences(target: nat, k: uint8, up: bool)
      requires Valid() && IsPopulated(schema, Logical()) && target < |schema|
      requires ShiftIsSafe(schema, Logical(), target, k, up)
      modifies this`buffers, rawBuffer, store.ee
      ensures Valid() && Logical() == ShiftDb(schema, old(Logical()), target, k, up)
      ensures OnlyTouches(Referrers(schema, target), old(Raws()), old(buffers), Raws(), buffers)
    {
      hide OnlyTouches, StoreIsValid, View, AllCoherent, ViewAll, PlacesMatch, SchemaIsValid, Places, IsTable,
        ShiftIsSafe, ShiftTable;
      ghost var first, raws0, buffers0 := Logical(), Raws(), buffers;
      NothingTouched(schema, raws0, buffers0, Referrers(schema, target));
      assert ShiftTables(schema, first, target, k, up, 0) == first;
      for t := 0 to |schema|
        invariant Valid() && OnlyTouches(Referrers(schema, target), raws0, buffers0, Raws(), buffers)
        invariant Logical() == ShiftTables(schema, first, target, k, up, t)
      {
        ghost var base, raws1, buffers1 := Logical(), Raws(), buffers;
        ShiftReferencesInTable(t, target, k, up, first, base);
        TouchesMore(Referrers(schema, target), Referrers(schema, target),
          raws0, buffers0, raws1, buffers1, Raws(), buffers);
        assert ShiftTables(schema, first, target, k, up, t + 1)
            == base[t := ShiftTable(schema[t], t, first[t], target, k, up)];
      }
      assert ShiftTables(schema, first, target, k, up, |schema|) == ShiftDb(schema, first, target, k, up);
    }

    /** The innermost loop of forEachReference with matchFirst. A record does not count as referring
        to itself. */
    method FindReferenceInColumn(t: nat, d: nat, c: nat, target: nat, id: uint8) returns (found: bool)
      requires Valid() && IsPopulated(schema, Logical())
      requires t < |schema| && d < |schema[t].recordDefs| && c < |schema[t].recordDefs[d]|
      requires schema[t].recordDefs[d][c].colType.Reference?
      modifies this`buffers, rawBuffer, store.ee
      ensures Valid() && Logical() == old(Logical())
      ensures found ==> exists r: nat :: IsHit(schema[t], t, Logical()[t], d, c, target, id, r)
      ensures !found ==> NoHitInColumn(schema[t], t, Logical()[t], d, c, target, id, |Logical()[t]|)
      ensures !found && |Logical()[t]| > 1 ==> IsReadThrough(buffers[t], |Logical()[t]|)
      ensures OnlyTouches({t}, old(Raws()), old(buffers), Raws(), buffers)
    {
      hide OnlyTouches, StoreIsValid, View, AllCoherent, ViewAll, PlacesMatch, SchemaIsValid, Places, IsRecord,
        IsReadable, ValueOf, TablesRead, HasDef, IsTable, IsHit, NoHitInColumn;
      ghost var db, raws0, buffers0 := Logical(), Raws(), buffers;
      NothingTouched(schema, raws0, buffers0, {t});
      AllCounts(schema, store.ee[..], store.catalog, buffers);
      NothingLookedAt(schema[t], t, db[t], d, c, target, id);
      for rec := 0 to store.catalog[t].numRecords
        invariant Valid() && Logical() == db && OnlyTouches({t}, raws0, buffers0, Raws(), buffers)
        invariant rec > 0 ==> buffers[t].recordId == rec - 1
        invariant rec > 1 ==> !buffers[t].isModified
        invariant NoHitInColumn(schema[t], t, db[t], d, c, target, id, rec)
      {
        ghost var raws1, buffers1 := Raws(), buffers;
        TypedRecord(schema, db, t, rec, d, c);
        LookedAt(schema[t], t, db[t], d, c, target, id, rec);
        if |schema[t].recordDefs| > 1 {
          var tag := GetValue(t, rec, 0);
          TouchesMore({t}, {t}, raws0, buffers0, raws1, buffers1, Raws(), buffers);
          raws1, buffers1 := Raws(), buffers;
          if tag != d {
            continue;
          }
        }
        var value := GetValue(t, rec, c);
        TouchesMore({t}, {t}, raws0, buffers0, raws1, buffers1, Raws(), buffers);
        if value == id && !(t == target && rec == id) { // not its own record
          assert IsHit(schema[t], t, db[t], d, c, target, id, rec);
          return true;
        }
      }
      return false;
    }

    /** The loop over the columns of one record type. */
    method IsReferencedFromDef(t: nat, d: nat, target: nat, id: uint8) returns (found: bool)
      requires Valid() && IsPopulated(schema, Logical()) && t < |schema| && target < |schema|
      requires d < |schema[t].recordDefs|
      requires RefersBefore(schema[t], t, target, d, 0) && |Logical()[t]| > 1 ==> IsReadThrough(buffers[t], |Logical()[t]|)
      modifies this`buffers, rawBuffer, store.ee
      ensures Valid() && Logical() == old(Logical())
      ensures found ==> IsReferenced(schema, Logical(), target, id)
      ensures !found ==> NoHitInDef(schema[t], t, Logical()[t], d, target, id, |schema[t].recordDefs[d]|)
      ensures !found && RefersBefore(schema[t], t, target, d + 1, 0) && |Logical()[t]| > 1 ==>
                IsReadThrough(buffers[t], |Logical()[t]|)
      ensures OnlyTouches(Referrer(schema[t], t, target), old(Raws()), old(buffers), Raws(), buffers)
    {
      hide OnlyTouches, StoreIsValid, View, AllCoherent, ViewAll, PlacesMatch, SchemaIsValid, Places, IsHit,
        NoHitInColumn, IsReferenced, RefersTo, IsReferenceTo, IsTable, RefersBefore, RefersFrom, Referrer,
        Referrers, TypedByColumn0, IsReadThrough;
      ghost var db, raws0, buffers0 := Logical(), Raws(), buffers;
      NothingTouched(schema, raws0, buffers0, Referrer(schema[t], t, target));
      DefIsNotEmpty(schema, t, d);
      var startCol := if |schema[t].recordDefs| > 1 then 1 else 0;
      TypeColumnHasNoHit(schema, t, db[t], d, target, id);
      SchemaIsTyped(schema, t);
      RefersInDef(schema[t], t, target, d);
      for c := startCol to |schema[t].recordDefs[d]|
        invariant Valid() && OnlyTouches(Referrer(schema[t], t, target), raws0, buffers0, Raws(), buffers)
        invariant Logical() == db && NoHitInDef(schema[t], t, db[t], d, target, id, c)
        invariant RefersBefore(schema[t], t, target, d, c) && |db[t]| > 1 ==> IsReadThrough(buffers[t], |db[t]|)
      {
        RefersInNext(schema[t], t, target, d, c);
        if IsReferenceTo(schema[t].recordDefs[d][c], t, target) {
          ColumnRefers(schema[t], t, d, c, target);
          ghost var raws1, buffers1 := Raws(), buffers;
          found := FindReferenceInColumn(t, d, c, target, id);
          TouchesMore({t}, Referrer(schema[t], t, target), raws0, buffers0, raws1, buffers1, Raws(), buffers);
          if found {
            ghost var r: nat :| IsHit(schema[t], t, db[t], d, c, target, id, r);
            HitMeansReferenced(schema, db, t, d, c, target, id, r);
            return true;
          }
        }
      }
      return false;
    }

    /** The loop over the record types of one table. */
    method IsReferencedFrom(t: nat, target: nat, id: uint8) returns (found: bool)
      requires Valid() && IsPopulated(schema, Logical()) && t < |schema| && target < |schema|
      modifies this`buffers, rawBuffer, store.ee
      ensures Valid() && Logical() == old(Logical())
      ensures found ==> IsReferenced(schema, Logical(), target, id)
      ensures !found ==> NoHitInTable(schema[t], t, Logical()[t], target, id, |schema[t].recordDefs|)
      ensures !found && RefersFrom(schema[t], t, target) && |Logical()[t]| > 1 ==>
                IsReadThrough(buffers[t], |Logical()[t]|)
      ensures OnlyTouches(Referrer(schema[t], t, target), old(Raws()), old(buffers), Raws(), buffers)
    {
      hide OnlyTouches, StoreIsValid, View, AllCoherent, ViewAll, PlacesMatch, SchemaIsValid, Places,
        NoHitInDef, IsReferenced, IsTable, RefersBefore, RefersFrom, Referrer, Referrers, IsReadThrough;
      ghost var db, raws0, buffers0 := Logical(), Raws(), buffers;
      NothingTouched(schema, raws0, buffers0, Referrer(schema[t], t, target));
      RefersAtEnd(schema[t], t, target);
      for d := 0 to |schema[t].recordDefs|
        invariant Valid() && OnlyTouches(Referrer(schema[t], t, target), raws0, buffers0, Raws(), buffers)
        invariant Logical() == db && NoHitInTable(schema[t], t, db[t], target, id, d)
        invariant RefersBefore(schema[t], t, target, d, 0) && |db[t]| > 1 ==> IsReadThrough(buffers[t], |db[t]|)
      {
        ghost var raws1, buffers1 := Raws(), buffers;
        found := IsReferencedFromDef(t, d, target, id);
        TouchesMore(Referrer(schema[t], t, target), Referrer(schema[t], t, target), raws0, buffers0, raws1, buffers1,
          Raws(), buffers);
        if found {
          return true;
        }
      }
      return false;
    }

    /** isRecordReferenced: the loops of forEachReference until the first match. */
    method IsRecordReferenced(target: nat, id: uint8) returns (found: bool)
      requires Valid() && IsPopulated(schema, Logical()) && target < |schema|
      modifies this`buffers, rawBuffer, store.ee
      ensures Valid() && Logical() == old(Logical())
      ensures found <==> IsReferenced(schema, Logical(), target, id)
      ensures !found && RefersFrom(schema[target], target, target) && |Logical()[target]| > 1 ==>
                IsReadThrough(buffers[target], |Logical()[target]|)
      ensures OnlyTouches(Referrers(schema, target), old(Raws()), old(buffers), Raws(), buffers)
    {
      hide OnlyTouches, StoreIsValid, View, AllCoherent, ViewAll, PlacesMatch, SchemaIsValid, Places, IsHit,
        NoHitInColumn, IsReferenced, RefersTo, IsReferenceTo, IsTable, RefersFrom, Referrers, TypedByColumn0;
      ghost var db, raws0, buffers0 := Logical(), Raws(), buffers;
      NothingTouched(schema, raws0, buffers0, Referrers(schema, target));
      for t := 0 to |schema|
        invariant Valid() && OnlyTouches(Referrers(schema, target), raws0, buffers0, Raws(), buffers)
        invariant Logical() == db && NoHit(schema, db, target, id, t)
        invariant t > target && RefersFrom(schema[target], target, target) && |db[target]| > 1 ==>
                    IsReadThrough(buffers[target], |db[target]|)
      {
        ghost var raws1, buffers1 := Raws(), buffers;
        found := IsReferencedFrom(t, target, id);
        TouchesMore(Referrer(schema[t], t, target), Referrers(schema, target),
          raws0, buffers0, raws1, buffers1, Raws(), buffers);
        Untouched(Referrer(schema[t], t, target), raws1, buffers1, Raws(), buffers, target);
        if found {
          return true;
        }
      }
      NoHitMeansUnreferenced(schema, db, target, id);
      return false;
    }

    // ---- inserting and deleting ----

    /** Flushes and drops the buffer of a table whose positions are about to shift. */
    method ReleaseBuffer(t: nat)
      requires Valid() && t < |schema|
      modifies this`buffers, rawBuffer, store.ee
      ensures Valid() && Logical() == old(Logical())
      ensures buffers[t].recordId == NO_RECORD_ID && !buffers[t].isModified
      ensures forall u :: 0 <= u < |schema| && u != t ==> Raws()[u] == old(Raws()[u]) && buffers[u] == old(buffers[u])
    {
      hide SchemaIsValid, StoreIsValid, View, Places, AllCoherent, ViewAll, IsSynced, PlacesMatch, TableView,
        AllStored, IsCoherent;
      WriteRecordBufferIfDirty(t);
      ghost var raws, before := Raws(), buffers;
      OneTable(schema, raws, buffers, t);
      ClearStep(schema[t], raws[t], buffers[t], buffers[t].columns);
      buffers := buffers[t := Buffer(NO_RECORD_ID, false, buffers[t].columns)]; // clearRecordBuffer
      SameUpdate(raws, t);
      SameUpdate(ViewAll(schema, raws, before), t);
      TableChanges(schema, raws, before, t, raws[t], buffers[t]);
    }

    /** setRecordToDefaultValues, for a record that has just been put into the index. */
    method SetRecordToDefaultValues(t: nat, r: uint8, ghost raws: seq<seq<Raw>>)
      requires IsBuilt() && t < |schema| && AllCoherent(schema, raws, buffers)
      requires buffers[t].recordId == NO_RECORD_ID && !buffers[t].isModified
      requires t < |Raws()| && r <= |raws[t]| < schema[t].maxNumRecords && r < |Raws()[t]|
      requires Raws() == raws[t := With(raws[t], r, Raws()[t][r])]
      modifies this`buffers, rawBuffer, store.ee
      ensures Valid() && schema[t].recordDefs != [] && buffers == old(buffers)[t := buffers[t]]
      ensures Logical() == ViewAll(schema, raws, old(buffers))[t :=
                With(ViewAll(schema, raws, old(buffers))[t], r, DefaultRecord(schema[t], r))]
    {
      hide SchemaIsValid, StoreIsValid, View, Places, AllCoherent, ViewAll, PlacesMatch, TableView, IsCoherent,
        EncodePre, Encoded, IsDefaulted, HoldsRecord, StoresRecord, DefaultRecord;
      ghost var before, slot := buffers, Raws()[t][r];
      OneTable(schema, raws, buffers, t);
      CoherentFacts(schema[t], raws[t], buffers[t]);
      BuiltTable(schema, store.ee[..], store.catalog, t);
      DefaultsHold(schema, t, r, buffers[t].columns);
      ghost var flushed := SetColumnsToDefaultValue(t, r, 0, schema[t].recordDefs[0]); // default is always the first type
      ghost var raw := Raws()[t][r];
      EncodedIsStored(schema, t, buffers[t].columns, raw);
      InsertView(schema[t], raws[t], before[t], r, raw, buffers[t].columns);
      WithTwice(raws[t], r, slot, raw);
      UpdateTwice(raws, t, With(raws[t], r, slot), With(raws[t], r, raw));
      TableChanges(schema, raws, before, t, With(raws[t], r, raw), buffers[t]);
      assert buffers == before[t := buffers[t]];
    }

    /** BDB_insertRecordAfter. The buffer is released before positions shift, and the new record gets
        its defaults before the references are renumbered. */
    method InsertRecordAfter(t: nat, r: uint8) returns (inserted: bool)
      requires Valid() && IsConsistent(schema, Logical())
      requires IdsExist(schema, Logical(), Op.InsertAfter(t, r))
      modifies this`buffers, rawBuffer, store, store.ee
      ensures Valid() && inserted == old(Accepts(schema, Logical(), Op.InsertAfter(t, r)))
      ensures Logical() == Apply(schema, old(Logical()), Op.InsertAfter(t, r))
    {
      hide SchemaIsValid, StoreIsValid, View, Places, AllCoherent, ViewAll, PlacesMatch, TableView, IsCoherent,
        DefaultRecord, IsPopulated, RefsExist, ShiftDb, ShiftIsSafe, StoreAgrees, CutIsSafe, InsertWrites,
        DeleteWrites, SlotTaken;
      ghost var db := Logical();
      ReleaseBuffer(t);
      ghost var raws, before := Raws(), buffers;
      OneTable(schema, raws, buffers, t);
      BuiltTable(schema, store.ee[..], store.catalog, t);
      StoreIsBuilt(schema, store.ee[..], store.catalog);
      var newRecordId, _ := store.InsertRecordAfter(t, r);
      if newRecordId == MAX_NUM_RECORDS_REACHED {
        return false;
      }
      InsertedRaws(schema, raws, Raws(), t, newRecordId);
      SetRecordToDefaultValues(t, newRecordId, raws);
      DefaultIsRecord(schema, t, newRecordId);
      InsertIsShiftSafe(schema, db, t, r);
      ShiftReferences(t, r, true);
      inserted := true;
    }

    /** setRecordToDefaultValues as BDB_insertRecordAfter calls it: the flushed buffer is still marked as
        modified, and is flushed once more under its old number. */
    method SetInsertedToDefaultValues(t: nat, r: uint8, ghost raws: seq<seq<Raw>>)
      requires IsBuilt() && t < |schema| && AllCoherent(schema, raws, buffers)
      requires IsSynced(schema[t], raws[t], buffers[t])
      requires t < |Raws()| && r < |raws[t]| < schema[t].maxNumRecords && r + 1 < |Raws()[t]|
      requires Raws() == raws[t := With(raws[t], r + 1, Raws()[t][r + 1])]
      modifies this`buffers, rawBuffer, store.ee
      ensures Valid() && schema[t].recordDefs != []
      ensures old(buffers[t].isModified) ==> old(buffers[t].recordId) < |ViewAll(schema, raws, old(buffers))[t]|
      ensures var db := OverwrittenDb(ViewAll(schema, raws, old(buffers)), t, old(buffers[t]), r);
              Logical() == db[t := With(db[t], r + 1, DefaultRecord(schema[t], r + 1))]
    {
      hide SchemaIsValid, StoreIsValid, View, Places, AllCoherent, ViewAll, PlacesMatch, TableView, IsCoherent,
        EncodePre, Encoded, IsDefaulted, HoldsRecord, StoresRecord, DefaultRecord, Overwritten, IsSynced, With,
        Flushed, StoredRecord, RealPart, MaxNumColumns, AllStored;
      ghost var before, b, slot := buffers, buffers[t], Raws()[t][r + 1];
      OneTable(schema, raws, buffers, t);
      CoherentFacts(schema[t], raws[t], b);
      BuiltTable(schema, store.ee[..], store.catalog, t);
      DefaultsHold(schema, t, r + 1, b.columns);
      if b.isModified {
        HeldEncodes(schema, t, raws[t], b);
      }
      ghost var flushed := SetColumnsToDefaultValue(t, r + 1, 0, schema[t].recordDefs[0]);
      ghost var raw := Raws()[t][r + 1];
      CodedInsertOnDb(schema, raws, before, t, r, slot, flushed, raw, buffers[t].columns);
      UpdateTwice(raws, t, With(raws[t], r + 1, slot), RawsAfterInsert(raws[t], b, r + 1, slot, flushed, raw));
      assert buffers == before[t := buffers[t]];
    }

    /** BDB_insertRecordAfter with the buffer as the code leaves it: flushed, but neither dropped nor
        marked as clean. What is inserted into is then not the table but `OverwrittenDb`, in which the
        record before the buffered one may have given way to it. */
    method InsertRecordAfterAsCoded(t: nat, r: uint8) returns (inserted: bool)
      requires Valid() && IsConsistent(schema, Logical())
      requires IdsExist(schema, Logical(), Op.InsertAfter(t, r))
      modifies this`buffers, rawBuffer, store, store.ee
      ensures Valid() && inserted == old(Accepts(schema, Logical(), Op.InsertAfter(t, r)))
      ensures old(buffers[t].isModified) ==> old(buffers[t].recordId) < |old(Logical()[t])|
      ensures inserted ==>
                && schema[t].recordDefs != []
                && Logical() == LogicalDatabase.Insert(schema, OverwrittenDb(old(Logical()), t, old(buffers[t]), r), t, r)
      ensures !inserted ==> Logical() == old(Logical())
    {
      hide SchemaIsValid, StoreIsValid, View, Places, AllCoherent, ViewAll, PlacesMatch, TableView, IsCoherent,
        DefaultRecord, IsPopulated, RefsExist, ShiftDb, ShiftIsSafe, StoreAgrees, CutIsSafe, InsertWrites,
        DeleteWrites, SlotTaken, IsSynced, AllStored, Overwritten;
      ghost var db, b := Logical(), buffers[t];
      WriteRecordBufferIfDirty(t);
      ghost var raws := Raws();
      OneTable(schema, raws, buffers, t);
      BufferedIsRecord(schema[t], raws[t], b);
      BuiltTable(schema, store.ee[..], store.catalog, t);
      StoreIsBuilt(schema, store.ee[..], store.catalog);
      var newRecordId, _ := store.InsertRecordAfter(t, r);
      if newRecordId == MAX_NUM_RECORDS_REACHED {
        return false;
      }
      InsertedRaws(schema, raws, Raws(), t, newRecordId);
      SetInsertedToDefaultValues(t, r, raws);
      ghost var over := OverwrittenDb(db, t, b, r);
      OverwrittenIsConsistent(schema, db, t, b, r);
      DefaultIsRecord(schema, t, newRecordId);
      InsertIsShiftSafe(schema, over, t, r);
      ShiftReferences(t, r, true);
      inserted := true;
    }

    /** BDB_canRecordBeDeleted */
    method CanRecordBeDeleted(t: nat, r: uint8) returns (can: bool)
      requires Valid() && IsPopulated(schema, Logical())
      requires IdsExist(schema, Logical(), Op.Delete(t, r))
      modifies this`buffers, rawBuffer, store.ee
      ensures Valid() && Logical() == old(Logical())
      ensures can <==> Accepts(schema, Logical(), Op.Delete(t, r))
      ensures can && RefersFrom(schema[t], t, t) ==> IsReadThrough(buffers[t], |Logical()[t]|)
      ensures OnlyTouches(Referrers(schema, t), old(Raws()), old(buffers), Raws(), buffers)
    {
      hide OnlyTouches, SchemaIsValid, StoreIsValid, View, AllCoherent, ViewAll, PlacesMatch, Places,
        IsPopulated, IsReferenced;
      NothingTouched(schema, Raws(), buffers, Referrers(schema, t));
      AllCounts(schema, store.ee[..], store.catalog, buffers);
      can := store.catalog[t].numRecords > 1;
      if can {
        var referenced := IsRecordReferenced(t, r);
        can := !referenced;
      }
    }

    /** BDB_deleteRecord. The buffer is released before positions shift. */
    method DeleteRecord(t: nat, r: uint8) returns (deleted: bool)
      requires Valid() && IsConsistent(schema, Logical())
      requires IdsExist(schema, Logical(), Op.Delete(t, r))
      modifies this`buffers, rawBuffer, store, store.ee
      ensures Valid() && deleted == old(Accepts(schema, Logical(), Op.Delete(t, r)))
      ensures Logical() == Apply(schema, old(Logical()), Op.Delete(t, r))
      ensures forall u :: 0 <= u < |schema| && u != t && |old(Raws()[u])| == 1 && old(buffers[u].recordId) == 0 ==>
                Raws()[u] == old(Raws()[u]) && buffers[u].recordId == 0
    {
      hide OnlyTouches, SchemaIsValid, StoreIsValid, View, Places, AllCoherent, ViewAll, PlacesMatch, TableView,
        IsCoherent, IsPopulated, RefsExist, ShiftDb, ShiftIsSafe, StoreAgrees, CutIsSafe, InsertWrites,
        DeleteWrites, SlotTaken, IsReferenced;
      ghost var db := Logical();
      ghost var raws0, buffers0 := Raws(), buffers;
      deleted := CanRecordBeDeleted(t, r);
      ghost var raws1, buffers1 := Raws(), buffers;
      OnlyRecordsStay(Referrers(schema, t), raws0, buffers0, raws1, buffers1);
      if deleted {
        ReleaseBuffer(t);
        ghost var raws, before := Raws(), buffers;
        OneTable(schema, raws, buffers, t);
        BuiltTable(schema, store.ee[..], store.catalog, t);
        StoreIsBuilt(schema, store.ee[..], store.catalog);
        var _ := store.DeleteRecordAndFreeSlot(t, r);
        DeleteView(schema[t], raws[t], buffers[t], r);
        SameUpdate(buffers, t);
        TableChanges(schema, raws, buffers, t, Without(raws[t], r), buffers[t]);
        DeleteIsShiftSafe(schema, db, t, r);
        ghost var raws2, buffers2 := Raws(), buffers;
        ShiftReferences(t, r, false);
        OnlyRecordsStay(Referrers(schema, t), raws2, buffers2, Raws(), buffers);
      }
    }

    /** BDB_deleteRecord with the buffer as the code leaves it: still under its old number. While the
        references are renumbered that buffer is set aside here. In a table that does not refer to itself
        nobody looks at it. In one that does, the search has left it clean on the last record, so the
        first record that is read replaces it. */
    method DeleteRecordAsCoded(t: nat, r: uint8) returns (deleted: bool)
      requires Valid() && IsConsistent(schema, Logical())
      requires IdsExist(schema, Logical(), Op.Delete(t, r))
      modifies this`buffers, rawBuffer, store, store.ee
      ensures deleted == old(Accepts(schema, Logical(), Op.Delete(t, r)))
      ensures !deleted ==> Valid() && Logical() == old(Logical())
      ensures deleted ==>
                IsBuilt()
                && ((Valid() && Logical() == LogicalDatabase.Delete(schema, old(Logical()), t, r))
                    <==> old(RefersFrom(schema[t], t, t) || DeleteIsHarmless(schema[t], Raws()[t], buffers[t], r)))
      ensures deleted && !RefersFrom(schema[t], t, t) ==>
                |Raws()| == |schema| && Raws()[t] == Without(old(Raws()[t]), r) && buffers[t] == old(buffers[t])
    {
      hide OnlyTouches, SchemaIsValid, StoreIsValid, View, Places, AllCoherent, ViewAll, PlacesMatch, TableView,
        IsCoherent, IsPopulated, RefsExist, ShiftDb, ShiftIsSafe, StoreAgrees, CutIsSafe, InsertWrites,
        DeleteWrites, SlotTaken, IsReferenced, RefersFrom, Referrers, DeleteIsHarmless;
      ghost var db, raws0, buffers0 := Logical(), Raws(), buffers;
      OneTable(schema, raws0, buffers0, t);
      deleted := CanRecordBeDeleted(t, r);
      ghost var raws, before := Raws(), buffers;
      Untouched(Referrers(schema, t), raws0, buffers0, raws, before, t);
      if deleted {
        OneTable(schema, raws, before, t);
        BuiltTable(schema, store.ee[..], store.catalog, t);
        StoreIsBuilt(schema, store.ee[..], store.catalog);
        var _ := store.DeleteRecordAndFreeSlot(t, r);
        AsideIsShiftSafe(schema, raws, before, t, r);
        var stale := buffers[t];
        buffers := buffers[t := Buffer(NO_RECORD_ID, false, buffers[t].columns)];
        ghost var raws1, buffers1, recs := Raws(), buffers, Logical()[t];
        ShiftReferences(t, r, false);
        Untouched(Referrers(schema, t), raws1, buffers1, Raws(), buffers, t);
        if !RefersFrom(schema[t], t, t) {
          PutBackIffHarmless(schema, raws, before, Raws(), buffers, recs, t, r);
          buffers := buffers[t := stale];
        }
      }
    }

    // ---- importing ----

    /** BDB_getNumRealColumns of the buffered record. */
    method GetNumRealColumns(t: nat) returns (n: nat)
      requires IsBuilt() && t < |schema| && HoldsRecord(schema[t], buffers[t].columns)
      ensures n == NumReal(ColumnsOf(schema[t], buffers[t].columns))
    {
      hide SchemaIsValid, StoreIsValid, PlacesMatch;
      var cols := ColumnsOf(schema[t], buffers[t].columns);
      n := 0;
      while n < |cols|
        invariant n <= NumReal(cols)
      {
        NumRealFacts(cols, n);
        if IsVirtual(cols[n]) {
          return;
        }
        n := n + 1;
      }
    }

    /** rs_appendRecord of the import loop: one more slot, with whatever it held before. */
    method AppendSlot(t: nat, rec: uint8, ghost db: Db)
      requires IsBuilt() && t < |schema| && |db| == |schema| && |Raws()| == |schema| && schema[t].recordDefs != []
      requires forall u :: 0 <= u < |schema| && u != t ==> |db[u]| == |Raws()[u]|
      requires rec == |Raws()[t]| < schema[t].maxNumRecords
      modifies store, store.ee
      ensures IsBuilt() && |Raws()| == |schema| && rec < store.catalog[t].numRecords && rec < |Raws()[t]|
      ensures CountsAgree(Counting(schema, db, t, rec + 1), store.catalog)
      ensures Raws() == old(Raws())[t := old(Raws()[t]) + [Raws()[t][rec]]]
    {
      hide SchemaIsValid, StoreIsValid, View, Places, PlacesMatch, Counting, StoreAgrees, CutIsSafe,
        InsertWrites, SlotTaken, CountsAgree;
      ghost var was := Raws();
      BuiltTable(schema, store.ee[..], store.catalog, t);
      StoreIsBuilt(schema, store.ee[..], store.catalog);
      var _, _ := store.AppendRecord(t);
      BuiltTable(schema, store.ee[..], store.catalog, t);
      AppendedRaw(was, Raws(), t, rec);
      ImportCounts(schema, store.ee[..], store.catalog, db, t, rec + 1);
    }

    /** One round of the import loop: the record in front of data becomes record `rec`. */
    method ImportRecord(t: nat, data: seq<uint16>, rec: uint8, ghost db: Db, ghost done: seq<Record>)
      returns (accepted: bool)
      requires IsBuilt() && t < |schema| && |db| == |schema| && |Raws()| == |schema|
      requires forall u :: 0 <= u < |schema| && u != t ==> db[u] != [] && IsTable(schema[u], db[u]) && |db[u]| == |Raws()[u]|
      requires schema[t].recordDefs != [] && HasType(schema[t], data) && rec == |done| < schema[t].maxNumRecords
      requires IsImporting(schema[t], Raws()[t], buffers[t], done)
      modifies this`buffers, rawBuffer, store, store.ee
      ensures IsBuilt() && |Raws()| == |schema|
      ensures accepted <==> AcceptsRecord(schema[t], Counting(schema, db, t, rec + 1), t, data)
      ensures forall u :: 0 <= u < |schema| && u != t ==> Raws()[u] == old(Raws()[u]) && buffers[u] == old(buffers[u])
      ensures accepted ==> IsImporting(schema[t], Raws()[t], buffers[t], done + [data[..Extent(schema[t], data)]])
      ensures !accepted ==> IsCutOff(schema[t], Raws()[t], buffers[t], done)
    {
      hide SchemaIsValid, StoreIsValid, View, Places, PlacesMatch, AcceptsRecord, NumReal, Encoded, EncodePre,
        HoldsRecord, StoresRecord, StoredRecord, RealPart, Counting, CountsAgree, IsTable, HasType, StoreAgrees,
        IsImporting, IsCopied, IsCutOff, Extent;
      ghost var was, before := Raws(), buffers[t];
      ImportFacts(schema, t, was[t], before, done);
      AppendSlot(t, rec, db);
      ghost var raws := Raws();
      accepted := PutRecord(t, rec, data, Counting(schema, db, t, rec + 1));
      SlotKept(was, raws, Raws(), t, before, done);
      ImportOutcome(schema, db, t, data, was[t], before, done, raws[t][rec], Raws()[t], buffers[t], accepted);
    }

    /** The last call of BDB_importTable writes record 0 again, which flushes the last record. */
    method FinishImport(t: nat, data: seq<uint16>, ghost db: Db, ghost done: seq<Record>)
      requires IsBuilt() && t < |schema| && |db| == |schema| && |Raws()| == |schema|
      requires forall u :: 0 <= u < |schema| && u != t ==> db[u] != [] && IsTable(schema[u], db[u]) && |db[u]| == |Raws()[u]|
      requires schema[t].recordDefs != [] && HasType(schema[t], data) && 0 < |done| <= schema[t].maxNumRecords
      requires AcceptsRecord(schema[t], Counting(schema, db, t, 1), t, data)
      requires IsImporting(schema[t], Raws()[t], buffers[t], done) && done[0] == data[..Extent(schema[t], data)]
      modifies this`buffers, rawBuffer, store.ee
      ensures IsBuilt() && |Raws()| == |schema|
      ensures forall u :: 0 <= u < |schema| && u != t ==> Raws()[u] == old(Raws()[u]) && buffers[u] == old(buffers[u])
      ensures IsCoherent(schema[t], Raws()[t], buffers[t]) && TableView(schema[t], Raws()[t], buffers[t]) == done
    {
      hide SchemaIsValid, StoreIsValid, View, Places, PlacesMatch, AcceptsRecord, NumReal, Encoded, EncodePre,
        HoldsRecord, StoresRecord, StoredRecord, RealPart, Counting, IsTable, HasType, StoreAgrees, IsImporting,
        IsCopied, IsCoherent, TableView;
      ghost var was, before := Raws(), buffers[t];
      ImportFacts(schema, t, was[t], before, done);
      BuiltTable(schema, store.ee[..], store.catalog, t);
      StoreIsBuilt(schema, store.ee[..], store.catalog);
      ImportCounts(schema, store.ee[..], store.catalog, db, t, |done|);
      var _ := PutRecord(t, 0, data, Counting(schema, db, t, |done|));
      ImportLast(schema, db, t, data, was[t], before, done, Raws()[t], buffers[t]);
    }

    /** The last call of BDB_importTable after a record was not valid. */
    method FinishBrokenImport(t: nat, data: seq<uint16>, ghost db: Db, ghost done: seq<Record>)
      requires IsBuilt() && t < |schema| && |db| == |schema| && |Raws()| == |schema|
      requires forall u :: 0 <= u < |schema| && u != t ==> db[u] != [] && IsTable(schema[u], db[u]) && |db[u]| == |Raws()[u]|
      requires schema[t].recordDefs != [] && HasType(schema[t], data) && |done| < schema[t].maxNumRecords
      requires AcceptsRecord(schema[t], Counting(schema, db, t, 1), t, data) <==> done != []
      requires IsCutOff(schema[t], Raws()[t], buffers[t], done)
      requires done != [] ==> done[0] == data[..Extent(schema[t], data)]
      modifies this`buffers, rawBuffer, store.ee
      ensures IsBuilt() && |Raws()| == |schema| && Raws() == old(Raws())
      ensures forall u :: 0 <= u < |schema| && u != t ==> buffers[u] == old(buffers[u])
      ensures IsBroken(schema[t], Raws()[t], buffers[t], done)
    {
      hide SchemaIsValid, StoreIsValid, View, Places, PlacesMatch, AcceptsRecord, NumReal, Encoded, EncodePre,
        HoldsRecord, StoresRecord, StoredRecord, RealPart, Counting, IsTable, HasType, StoreAgrees, IsCopied,
        AreImported, IsBroken;
      ghost var before := buffers[t];
      BuiltTable(schema, store.ee[..], store.catalog, t);
      StoreIsBuilt(schema, store.ee[..], store.catalog);
      ImportCounts(schema, store.ee[..], store.catalog, db, t, |done| + 1);
      var _ := PutRecord(t, 0, data, Counting(schema, db, t, |done| + 1));
      ImportBroken(schema, db, t, data, Raws()[t], before, done, buffers[t]);
    }

    /** The loop of BDB_importTable. It stops at the first record that is not valid. */
    method ImportRecords(t: nat, data: seq<uint16>, numRecords: uint8, ghost db: Db) returns (rec: uint8)
      requires IsBuilt() && t < |schema| && |db| == |schema| && |Raws()| == |schema|
      requires forall u :: 0 <= u < |schema| && u != t ==> db[u] != [] && IsTable(schema[u], db[u]) && |db[u]| == |Raws()[u]|
      requires schema[t].recordDefs != [] && numRecords <= schema[t].maxNumRecords
      requires HoldsRecords(schema[t], data, numRecords)
      requires IsImporting(schema[t], Raws()[t], buffers[t], [])
      modifies this`buffers, rawBuffer, store, store.ee
      ensures IsBuilt() && |Raws()| == |schema| && rec == AcceptedCount(schema, db, t, data, 0, numRecords)
      ensures forall u :: 0 <= u < |schema| && u != t ==> Raws()[u] == old(Raws()[u]) && buffers[u] == old(buffers[u])
      ensures rec == numRecords ==> IsImporting(schema[t], Raws()[t], buffers[t], Cut(schema[t], data, numRecords))
      ensures rec < numRecords ==> IsCutOff(schema[t], Raws()[t], buffers[t], Cut(schema[t], data, numRecords)[..rec])
    {
      hide SchemaIsValid, StoreIsValid, View, Places, PlacesMatch, AcceptsRecord, NumReal, HoldsRecord,
        StoresRecord, StoredRecord, RealPart, Counting, IsTable, HasType, StoreAgrees, IsImporting, Extent,
        Behind, Cut, HoldsRecords, AcceptedCount, IsCutOff, IsRest;
      ghost var raws, before := Raws(), buffers;
      ghost var rest, done: seq<Record> := data, [];
      var dataId := 0;
      rec := 0;
      NothingCut(schema, db, t, data, numRecords);
      while rec < numRecords
        invariant IsBuilt() && |Raws()| == |schema| && rec <= numRecords
        invariant dataId <= |data| && rest == data[dataId..]
        invariant forall u :: 0 <= u < |schema| && u != t ==> Raws()[u] == raws[u] && buffers[u] == before[u]
        invariant IsImporting(schema[t], Raws()[t], buffers[t], done) && |done| == rec
        invariant IsRest(schema, db, t, data, numRecords, done, rest)
      {
        NextCut(schema, db, t, data, numRecords, done, rest);
        var accepted := ImportRecord(t, data[dataId..], rec, db, done);
        if !accepted {
          return;
        }
        done := done + [rest[..Extent(schema[t], rest)]];
        ImportedExtent(schema[t], Raws()[t], buffers[t], done, rest);
        var numColumns := GetNumRealColumns(t);
        rest := rest[numColumns..];
        dataId := dataId + numColumns;
        rec := rec + 1;
      }
      AllCut(schema, db, t, data, numRecords, done, rest);
    }

    /** BDB_importTable, on data whose record types are defined. When a record is not valid, the records
        before it are in the table and their number is returned, but the table has one more slot, whose
        contents nobody has written. */
    method ImportTable(t: nat, data: seq<uint16>, numRecords: uint8) returns (rec: uint8)
      requires Valid() && IsPopulated(schema, Logical()) && t < |schema| && schema[t].recordDefs != []
      requires 0 < numRecords <= schema[t].maxNumRecords && HoldsRecords(schema[t], data, numRecords)
      modifies this`buffers, rawBuffer, store, store.ee
      ensures IsBuilt() && |Raws()| == |schema|
      ensures rec == AcceptedCount(schema, old(Logical()), t, data, 0, numRecords)
      ensures rec == numRecords ==> Valid() && Logical() == old(Logical())[t := Cut(schema[t], data, numRecords)]
      ensures rec < numRecords ==> IsBroken(schema[t], Raws()[t], buffers[t], Cut(schema[t], data, numRecords)[..rec])
      ensures forall u :: 0 <= u < |schema| && u != t ==> Raws()[u] == old(Raws()[u]) && buffers[u] == old(buffers[u])
    {
      hide SchemaIsValid, StoreIsValid, View, Places, PlacesMatch, AcceptsRecord, HoldsRecord, StoresRecord,
        Counting, IsTable, HasType, StoreAgrees, CutIsSafe, InsertWrites, DeleteWrites, SlotTaken, IsImporting,
        IsCoherent, TableView, AllCoherent, ViewAll, Extent, Cut, HoldsRecords, AcceptedCount, IsCutOff,
        IsBroken;
      ghost var db, raws, before := Logical(), Raws(), buffers;
      PopulatedTables(schema, raws, before);
      StoreIsBuilt(schema, store.ee[..], store.catalog);
      var _ := store.DeleteAllRecords(t);
      buffers := buffers[t := Buffer(NO_RECORD_ID, false, buffers[t].columns)]; // clearRecordBuffer
      NothingImported(schema, raws, before, t, buffers[t].columns);
      rec := ImportRecords(t, data, numRecords, db);
      FirstCut(schema, db, t, data, numRecords);
      if rec < numRecords {
        FinishBrokenImport(t, data, db, Cut(schema[t], data, numRecords)[..rec]);
        return;
      }
      FinishImport(t, data, db, Cut(schema[t], data, numRecords));
      ImportSize(schema, t, Raws()[t], buffers[t]);
      TableChanges(schema, raws, before, t, Raws()[t], buffers[t]);
      assert Raws() == raws[t := Raws()[t]] && buffers == before[t := buffers[t]];
    }

    // ---- parents and children ----

    /** buildParentRecordList, for the parent table t and its child column c. */
    method BuildParentRecordList(t: nat, c: nat) returns (list: seq<nat>)
      requires Valid() && IsPopulated(schema, Logical()) && t < |schema| && |schema[t].recordDefs| == 1
      requires c < |schema[t].recordDefs[0]| && schema[t].recordDefs[0][c].colType.ChildTable?
      modifies this`buffers, rawBuffer, store.ee
      ensures Valid() && Logical() == old(Logical())
      ensures IsParentList(list, Logical()[t], c, schema[t].recordDefs[0][c])
    {
      hide SchemaIsValid, StoreIsValid, View, AllCoherent, ViewAll, PlacesMatch, Places, IsPopulated,
        IsReadable, ValueOf, ParentList;
      ghost var db := Logical();
      PopulatedIsDb(schema, db);
      forall r | 0 <= r < |db[t]|
        ensures c < |db[t][r]|
      {
        ChildColumn(schema, db, t, c, r);
      }
      ChildColumn(schema, db, t, c, 0);
      AllCounts(schema, store.ee[..], store.catalog, buffers);
      var col := schema[t].recordDefs[0][c];
      ghost var children := ColumnValues(db[t], c);
      list := seq<nat>(col.maxValue - col.minValue + 1, _ => NO_RECORD_ID); // clearParentRecordList
      EmptyList(col.minValue, |list|);
      assert children[..0] == [];
      for recId := 0 to store.catalog[t].numRecords
        invariant Valid() && Logical() == db && recId <= |children|
        invariant |list| == col.maxValue - col.minValue + 1
        invariant list == ParentList(children[..recId], col.minValue, |list|)
      {
        ChildColumn(schema, db, t, c, recId);
        var childTableId := GetValue(t, recId, c);
        ListUpdated(children[..recId], childTableId, col.minValue, |list|, list);
        assert children[..recId + 1] == children[..recId] + [childTableId];
        list := list[childTableId - col.minValue := recId];
      }
      assert children[..|children|] == children;
    }

    // ---- opening, closing, syncing ----

    /** BDB_syncDbase. Syncing asserts that every buffer holds a record. */
    method SyncDbase()
      requires Valid() && forall t :: 0 <= t < |schema| ==> buffers[t].recordId != NO_RECORD_ID
      modifies rawBuffer, store.ee
      ensures Valid() && Logical() == old(Logical())
      ensures AllTablesStored(schema, Raws()) && StoredDb(schema, Raws()) == Logical()
    {
      hide SchemaIsValid, StoreIsValid, View, Places, AllCoherent, ViewAll, PlacesMatch, StoredTable, AllStored;
      ghost var db := Logical();
      NothingTouched(schema, Raws(), buffers, {});
      for t := 0 to |schema|
        invariant Valid() && Logical() == db && |Raws()| == |schema|
        invariant forall u :: 0 <= u < t ==> AllStored(schema[u], Raws()[u]) && StoredTable(schema[u], Raws()[u]) == db[u]
      {
        SyncTable(t);
        NothingTouched(schema, Raws(), buffers, {});
      }
    }

    /** BDB_closeDataBase and BDB_openDataBase on the same device: all RAM state is rebuilt. What had
        not been synced is as it was last stored. */
    method CloseAndOpen() returns (existed: bool)
      requires Valid()
      modifies this, store, store.ee
      ensures existed && Valid() && store.ee[..] == old(store.ee[..])
      ensures old(AllTablesStored(schema, Raws())) && Logical() == old(StoredDb(schema, Raws()))
      ensures old(IdsExist(schema, Logical(), Op.Reopen(StoredDb(schema, Raws()))))
      ensures old(IsPopulated(schema, Logical())) ==>
                IsPopulated(schema, Logical())
                && Logical() == Apply(schema, old(Logical()), Op.Reopen(old(StoredDb(schema, Raws()))))
      ensures old(IsConsistent(schema, Logical())) ==>
                (IsConsistent(schema, Logical())
                 <==> old(forall t: nat :: t < |schema| ==> OldContentsResolve(schema, Raws(), buffers, t)))
    {
      hide SchemaIsValid, StoreIsValid, View, Places, AllCoherent, ViewAll, PlacesMatch, StoredDb,
        AllTablesStored, StoreAgrees, IsPopulated, RefsExist, OldContentsResolve, MayBeStored;
      ghost var raws, before, db := Raws(), buffers, Logical();
      StoredMayBe(schema, raws, buffers);
      PopulatedWhenStored(schema, db, StoredDb(schema, raws));
      if IsConsistent(schema, db) {
        StoredIsConsistentIff(schema, raws, buffers);
      }
      StoreIsBuilt(schema, store.ee[..], store.catalog);
      existed := store.Reopen();
      buffers := seq(|schema|, t requires 0 <= t < |schema| =>
        Buffer(NO_RECORD_ID, false, seq(MaxNumColumns(schema[t]), _ => 0))); // allocateRecordBuffers
      FreshBuffers(schema, raws, before, buffers);
    }

    /** createTable for all tables of a new database. */
    method CreateTables()
      requires SchemaIsValid(schema) && FitsDevice(schema, store.ee.Length)
      requires |store.catalog| == |schema| && PartlyLaidOut(store.catalog, 0, store.ee.Length)
      modifies store
      ensures |store.catalog| == |schema| && PartlyLaidOut(store.catalog, |schema|, store.ee.Length)
      ensures PlacesMatch(schema, Places(store.catalog))
    {
      hide SchemaIsValid, PartlyLaidOut, NextIndexAddress, BytesOfSchema, FitsDevice, BytesOfTable,
        MaxRecordSize, FirstIndexAddress, CodecSchema;
      FirstTable(store.catalog, schema);
      for t := 0 to |schema|
        invariant |store.catalog| == |schema| && PartlyLaidOut(store.catalog, t, store.ee.Length)
        invariant NextIndexAddress(store.catalog, t) == FirstIndexAddress(|schema|) + BytesOfSchema(schema, t)
        invariant forall u :: 0 <= u < t ==>
                    store.catalog[u].place.recordSize == MaxRecordSize(schema[u])
                    && store.catalog[u].place.maxNumRecords == schema[u].maxNumRecords
      {
        TableSizes(schema, t);
        RecordSizeBound(schema, t);
        NextTableFits(schema, t, store.ee.Length);
        var maxRecordSize := GetMaxRecordSize(schema[t]);
        ghost var before := store.catalog;
        var tableId := store.CreateTable(schema[t].maxNumRecords, maxRecordSize, t);
        NextAddressStays(before, store.catalog, t);
        NextAddressMoves(store.catalog, t, store.ee.Length);
      }
    }

    /** The mandatory first record of one table. */
    method CreateFirstRecord(t: nat)
      requires Valid() && t < |schema| && Logical()[t] == [] && IsEmptyBuffer(schema[t], buffers[t])
      modifies this`buffers, rawBuffer, store, store.ee
      ensures Valid() && buffers == old(buffers)[t := buffers[t]]
      ensures Logical() == old(Logical())[t := [FirstRecord(schema[t])]]
    {
      hide SchemaIsValid, StoreIsValid, View, Places, AllCoherent, ViewAll, PlacesMatch, DefaultRecord,
        StoreAgrees, CutIsSafe, InsertWrites, DeleteWrites, SlotTaken, IsEmptyBuffer, With, TableView,
        IsCoherent;
      ghost var raws := Raws();
      OneTable(schema, raws, buffers, t);
      BuiltTable(schema, store.ee[..], store.catalog, t);
      StoreIsBuilt(schema, store.ee[..], store.catalog);
      TableSizes(schema, t);
      EmptyBuffer(schema[t], buffers[t]);
      var recordId, _ := store.AppendRecord(t);
      InsertedRaws(schema, raws, Raws(), t, recordId);
      SetRecordToDefaultValues(t, recordId, raws);
      WithFirst(DefaultRecord(schema[t], 0));
    }

    /** createFirstRecordInEveryTable */
    method CreateFirstRecords()
      requires IsBuilt() && |Raws()| == |schema| && forall t :: 0 <= t < |schema| ==> Raws()[t] == []
      requires forall t :: 0 <= t < |schema| ==> IsEmptyBuffer(schema[t], buffers[t])
      modifies this`buffers, rawBuffer, store, store.ee
      ensures Valid() && Logical() == InitialDb(schema)
    {
      hide SchemaIsValid, StoreIsValid, View, Places, AllCoherent, ViewAll, PlacesMatch, FirstRecord,
        StoreAgrees, IsEmptyBuffer;
      EmptyTables(schema, Raws(), buffers);
      for t := 0 to |schema|
        invariant Valid() && forall u :: t <= u < |schema| ==> IsEmptyBuffer(schema[u], buffers[u])
        invariant forall u :: 0 <= u < |schema| ==> Logical()[u] == if u < t then [FirstRecord(schema[u])] else []
      {
        CreateFirstRecord(t);
      }
    }

    /** BDB_openDataBase where no store of this many tables exists yet. */
    method CreateDataBase() returns (existed: bool)
      requires SchemaIsValid(schema) && FitsDevice(schema, store.ee.Length) && rawBuffer != store.ee
      requires |buffers| == |schema| && Read8(store.ee[..], 0) != |schema|
      requires forall t :: 0 <= t < |schema| ==>
                 MaxRecordSize(schema[t]) <= rawBuffer.Length && IsEmptyBuffer(schema[t], buffers[t])
      modifies this`buffers, rawBuffer, store, store.ee
      ensures !existed && Valid() && Logical() == InitialDb(schema) && IsConsistent(schema, Logical())
    {
      hide StoreIsValid, View, Places, AllCoherent, ViewAll, PlacesMatch, DefaultRecord, StoreAgrees,
        IsEmptyBuffer, Read8, CheckFrom, TableIsValid, SlotsInRange, InitialDb, AllFree;
      PassingMeansCount(store.ee[..], |schema|);
      var pastEnd;
      existed, pastEnd := store.TryToOpenRecordStore(|schema|);
      NothingLaidOut(store.catalog, store.ee.Length);
      CreateTables();
      store.CommitTables();
      StoreIsBuilt(schema, store.ee[..], store.catalog);
      CreateFirstRecords();
      InitialIsConsistent(schema);
    }
  }
}
