/** Pairs of API calls on the engine: what one writes the other reads, told from the schema's own fields. */
module ApiLaws {
  import opened MachineInts
  import opened Schema
  import opened RecordCodec
  import opened LogicalDatabase
  import opened RecordBuffers
  import opened EngineState
  import opened ValueSteps
  import opened ReferenceSteps
  import opened StoreLayout
  import opened StoreSteps
  import opened OpeningSteps
  import opened TableImport
  import opened CallLaws
  import R = DatabaseRuns
  import D = Database

  /** A cell shows its value. */
  lemma CellIsShown(schema: Tables, raws: seq<seq<Raw>>, buffers: seq<Buffer>, t: nat, r: nat, c: nat)
    requires SchemaIsValid(schema) && AllCoherent(schema, raws, buffers) && t < |schema|
    requires r < |ViewAll(schema, raws, buffers)[t]| && c < |ViewAll(schema, raws, buffers)[t][r]|
    ensures var db := ViewAll(schema, raws, buffers);
            IsReadable(schema, db, t, r, c) && ValueOf(schema, db, t, r, c) == db[t][r][c]
  {
    var db := ViewAll(schema, raws, buffers);
    ViewIsDb(schema, raws, buffers);
    R.RecordStands(schema, db, t, r);
    R.ColumnFacts(schema, db, t, r, c);
    OwnValueIsShown(schema, db, t, r, c);
    hide SchemaIsValid, AllCoherent, ViewAll, ValueOf;
  }

  /** BDB_setValue and BDB_getValue: every legal value is accepted and comes back. */
  method SetThenGet(d: D.Database, t: nat, r: uint8, c: nat, value: uint16) returns (accepted: bool, shown: uint16)
    requires d.Valid() && IsPopulated(d.schema, d.Logical())
    requires R.IdsExist(d.schema, d.Logical(), R.SetValue(t, r, c, value))
    modifies d`buffers, d.rawBuffer, d.store.ee
    ensures d.Valid() && |d.Logical()| == |old(d.Logical())|
    ensures accepted == old(var col := ColumnsOf(d.schema[t], d.Logical()[t][r])[c];
                            IsLegal(d.Logical(), t, col, value) && !col.colType.ChildTable?)
    ensures accepted ==> shown == value && OnlyRecordChanges(old(d.Logical()), d.Logical(), t, r)
    ensures accepted && (c > 0 || |d.schema[t].recordDefs| == 1) ==>
              OnlyCellChanges(old(d.Logical()), d.Logical(), t, r, c)
    ensures !accepted ==> d.Logical() == old(d.Logical())
  {
    hide SchemaIsValid, StoreIsValid, View, Places, PlacesMatch, AllCoherent, ViewAll, StoreAgrees, IsPopulated,
      IsLegal, R.IdsExist, R.Accepts, R.Apply, ColumnsOf, IsReadable, ValueOf, TablesRead, OnlyTouches, IsRead;
    SetValueLaw(d.schema, d.Logical(), t, r, c, value);
    accepted := d.SetValue(t, r, c, value);
    if accepted {
      CellIsShown(d.schema, d.Raws(), d.buffers, t, r, c);
      shown := d.GetValue(t, r, c);
    } else {
      shown := 0;
    }
  }

  /** What the column shows after a change by delta. */
  function Changed(db: Db, t: nat, col: Column, cell: uint16, delta: int): int {
    if col.colType.ChildTable? then cell
    else
      Between(Signed(col.minValue), Signed(cell + delta * DeclaredStep(col)), Signed(Greatest(db, t, col))) % 0x1_0000
  }

  lemma ChangedCell(schema: Tables, db: Db, t: nat, r: nat, c: nat, delta: int)
    requires SchemaIsValid(schema) && IsPopulated(schema, db) && R.IdsExist(schema, db, R.ChangeValue(t, r, c, delta))
    requires c < |db[t][r]|
    ensures var op := R.ChangeValue(t, r, c, delta);
            var value := Changed(db, t, ColumnsOf(schema[t], db[t][r])[c], db[t][r][c], delta);
            var after := R.Apply(schema, db, op);
            && t < |schema| && |after| == |db| && r < |after[t]| == |db[t]| && c < |after[t][r]|
            && after[t][r][c] == value
            && (R.Accepts(schema, db, op) <==> value != db[t][r][c])
            && (!R.Accepts(schema, db, op) ==> after == db)
            && (R.Accepts(schema, db, op) ==> OnlyRecordChanges(db, after, t, r))
            && (R.Accepts(schema, db, op) && (c > 0 || |schema[t].recordDefs| == 1) ==>
                  OnlyCellChanges(db, after, t, r, c))
  {
    RecordColumns(schema, db, t, r);
    R.ColumnFacts(schema, db, t, r, c);
    ChangeValueLaw(schema, db, t, r, c, delta);
    hide SchemaIsValid, IsPopulated, R.Accepts, R.Apply, Between, Signed, DeclaredStep, Greatest, ColumnIsValid,
      FitsColumn, HoldsDefaults, RecordDefId, NumReal, OnlyCellChanges;
  }

  /** BDB_changeValue and BDB_getValue. */
  method ChangeThenGet(d: D.Database, t: nat, r: uint8, c: nat, delta: int) returns (changed: bool, shown: uint16)
    requires d.Valid() && IsConsistent(d.schema, d.Logical()) && IsInt16(delta)
    requires R.IdsExist(d.schema, d.Logical(), R.ChangeValue(t, r, c, delta))
    requires R.IsSafe(d.schema, d.Logical(), R.ChangeValue(t, r, c, delta))
    requires c < |d.Logical()[t][r]|
    modifies d`buffers, d.rawBuffer, d.store.ee
    ensures d.Valid() && |d.Logical()| == |old(d.Logical())|
    ensures shown == old(var col := ColumnsOf(d.schema[t], d.Logical()[t][r])[c];
                         Changed(d.Logical(), t, col, d.Logical()[t][r][c], delta))
    ensures changed <==> shown != old(d.Logical()[t][r][c])
    ensures changed ==> OnlyRecordChanges(old(d.Logical()), d.Logical(), t, r)
    ensures changed && (c > 0 || |d.schema[t].recordDefs| == 1) ==>
              OnlyCellChanges(old(d.Logical()), d.Logical(), t, r, c)
    ensures !changed ==> d.Logical() == old(d.Logical())
  {
    hide SchemaIsValid, StoreIsValid, View, Places, PlacesMatch, AllCoherent, ViewAll, StoreAgrees, IsPopulated,
      RefsExist, R.IdsExist, R.Accepts, R.Apply, ColumnsOf, IsReadable, ValueOf, TablesRead, OnlyTouches,
      IsRead, Changed, R.IsSafe, OnlyRecordChanges, OnlyCellChanges;
    ChangedCell(d.schema, d.Logical(), t, r, c, delta);
    changed := d.ChangeValue(t, r, c, delta);
    CellIsShown(d.schema, d.Raws(), d.buffers, t, r, c);
    shown := d.GetValue(t, r, c);
  }

  lemma DefaultStands(rec: Record, cols: RecordDef, id: nat, start: nat, c: nat)
    requires HoldsDefaults(rec, cols, id, start) && c < |cols| && forall i :: 0 <= i <= c ==> HasData(cols[i])
    ensures c < |rec|
    ensures c >= start ==> rec[c] == DeclaredDefault(cols[c], id)
  {
  }

  lemma InsertedCell(schema: Tables, db: Db, t: nat, r: nat, c: nat)
    requires SchemaIsValid(schema) && IsPopulated(schema, db) && R.IdsExist(schema, db, R.InsertAfter(t, r))
    requires schema[t].recordDefs != [] && c < |schema[t].recordDefs[0]|
    requires forall i :: 0 <= i <= c ==> HasData(schema[t].recordDefs[0][i])
    ensures var (op, after) := (R.InsertAfter(t, r), R.Apply(schema, db, R.InsertAfter(t, r)));
            && t < |schema| && |after| == |db| && (R.Accepts(schema, db, op) <==> |db[t]| < schema[t].maxNumRecords)
            && (!R.Accepts(schema, db, op) ==> after == db)
            && (R.Accepts(schema, db, op) ==>
                  && r + 1 < |after[t]| == |db[t]| + 1 <= 250 && c < |after[t][r + 1]|
                  && after[t][r + 1][c] == DeclaredDefault(schema[t].recordDefs[0][c], r + 1))
  {
    assert t < |schema| && r < |db[t]|;
    hide *;
    R.TableSizes(schema, t);
    InsertLaw(schema, db, t, r);
    var op := R.InsertAfter(t, r);
    if R.Accepts(schema, db, op) {
      DefaultStands(R.Apply(schema, db, op)[t][r + 1], schema[t].recordDefs[0], r + 1, 0, c);
    }
  }

  /** BDB_insertRecordAfter and BDB_getValue: the new record shows the declared defaults. */
  method InsertThenGet(d: D.Database, t: nat, r: uint8, c: nat) returns (inserted: bool, shown: uint16)
    requires d.Valid() && IsConsistent(d.schema, d.Logical())
    requires R.IdsExist(d.schema, d.Logical(), R.InsertAfter(t, r)) && d.schema[t].recordDefs != []
    requires c < |d.schema[t].recordDefs[0]| && forall i :: 0 <= i <= c ==> HasData(d.schema[t].recordDefs[0][i])
    modifies d`buffers, d.rawBuffer, d.store, d.store.ee
    ensures d.Valid() && |d.Logical()| == |old(d.Logical())|
    ensures inserted <==> old(|d.Logical()[t]|) < d.schema[t].maxNumRecords
    ensures inserted ==> shown == DeclaredDefault(d.schema[t].recordDefs[0][c], r + 1)
    ensures inserted ==> |d.Logical()[t]| == old(|d.Logical()[t]|) + 1
    ensures !inserted ==> d.Logical() == old(d.Logical())
  {
    hide SchemaIsValid, StoreIsValid, View, Places, PlacesMatch, AllCoherent, ViewAll, StoreAgrees, IsPopulated, RefsExist,
      R.IdsExist, R.Accepts, R.Apply, IsReadable, ValueOf, TablesRead, OnlyTouches, IsRead, HasData, DeclaredDefault;
    InsertedCell(d.schema, d.Logical(), t, r, c);
    inserted := d.InsertRecordAfter(t, r);
    if inserted {
      CellIsShown(d.schema, d.Raws(), d.buffers, t, r + 1, c);
      shown := d.GetValue(t, r + 1, c);
    } else {
      shown := 0;
    }
  }

  /** BDB_setValue of a record type and BDB_getValue of another column: it shows its default in that type. */
  method SetTypeThenGet(d: D.Database, t: nat, r: uint8, recordType: uint16, c: nat) returns (shown: uint16)
    requires d.Valid() && IsPopulated(d.schema, d.Logical())
    requires t < |d.schema| && r < |d.Logical()[t]| && 1 < |d.schema[t].recordDefs|
    requires recordType < |d.schema[t].recordDefs|
    requires R.IdsExist(d.schema, d.Logical(), R.SetValue(t, r, 0, recordType))
    requires var cols := d.schema[t].recordDefs[recordType];
             0 < c < |cols| && forall i :: 0 <= i <= c ==> HasData(cols[i])
    modifies d`buffers, d.rawBuffer, d.store.ee
    ensures d.Valid() && OnlyRecordChanges(old(d.Logical()), d.Logical(), t, r)
    ensures shown == DeclaredDefault(d.schema[t].recordDefs[recordType][c], r)
  {
    TypeIsLegal(d.schema, d.Logical(), t, r, recordType);
    hide SchemaIsValid, StoreIsValid, View, Places, PlacesMatch, AllCoherent, ViewAll, StoreAgrees, IsPopulated,
      IsLegal, R.IdsExist, R.Accepts, R.Apply, ColumnsOf, IsReadable, ValueOf, TablesRead, OnlyTouches, IsRead,
      HoldsDefaults, HasData;
    SetValueLaw(d.schema, d.Logical(), t, r, 0, recordType);
    var accepted := d.SetValue(t, r, 0, recordType);
    DefaultStands(d.Logical()[t][r], d.schema[t].recordDefs[recordType], r, 1, c);
    CellIsShown(d.schema, d.Raws(), d.buffers, t, r, c);
    shown := d.GetValue(t, r, c);
  }

  lemma TypeIsLegal(schema: Tables, db: Db, t: nat, r: nat, recordType: uint16)
    requires SchemaIsValid(schema) && IsPopulated(schema, db) && t < |db| && r < |db[t]|
    requires 1 < |schema[t].recordDefs| && recordType < |schema[t].recordDefs|
    ensures db[t][r] != [] && R.HasColumn(schema[t], db[t][r], 0)
    ensures IsLegal(db, t, ColumnsOf(schema[t], db[t][r])[0], recordType)
    ensures ColumnsOf(schema[t], db[t][r])[0].colType.RecordType?
  {
    RecordColumns(schema, db, t, r);
    R.ColumnFacts(schema, db, t, r, 0);
    hide SchemaIsValid, IsPopulated, FitsColumn;
  }

  /** BDB_setRecord and BDB_getRecord: every legal record is accepted and comes back. */
  method SetRecordThenGet(d: D.Database, t: nat, r: uint8, data: seq<uint16>)
    returns (accepted: bool, columns: seq<uint16>)
    requires d.Valid() && IsPopulated(d.schema, d.Logical())
    requires R.IdsExist(d.schema, d.Logical(), R.SetRecord(t, r, data))
    modifies d`buffers, d.rawBuffer, d.store.ee
    ensures d.Valid() && |d.Logical()| == |old(d.Logical())|
    ensures accepted == old(RecordDefId(d.schema[t], data[0]) < |d.schema[t].recordDefs|
                            && IsLegalData(d.Logical(), t, ColumnsOf(d.schema[t], data), data))
    ensures accepted ==>
              var cols := ColumnsOf(d.schema[t], data);
              forall c :: 0 <= c < |cols| && (forall i :: 0 <= i <= c ==> HasData(cols[i])) ==>
                c < |columns| && c < |data| && columns[c] == data[c]
    ensures accepted ==> OnlyRecordChanges(old(d.Logical()), d.Logical(), t, r)
    ensures !accepted ==> d.Logical() == old(d.Logical())
  {
    hide SchemaIsValid, StoreIsValid, View, Places, PlacesMatch, AllCoherent, ViewAll, StoreAgrees, IsPopulated,
      IsLegalData, IsLegal, R.IdsExist, R.Accepts, R.Apply, ColumnsOf, IsReadable, ValueOf, TablesRead,
      OnlyTouches, IsRead, HasData, RecordDefId;
    SetRecordLaw(d.schema, d.Logical(), t, r, data);
    var pastDefs: bool;
    accepted, pastDefs := d.SetRecord(t, r, data);
    columns := [];
    if accepted {
      columns := d.GetRecord(t, r);
    }
  }

  lemma InitialCell(schema: Tables, t: nat, c: nat)
    requires SchemaIsValid(schema) && t < |schema| && schema[t].recordDefs != []
    requires c < |schema[t].recordDefs[0]| && forall i :: 0 <= i <= c ==> HasData(schema[t].recordDefs[0][i])
    ensures |InitialDb(schema)| == |schema| && forall u :: 0 <= u < |schema| ==> |InitialDb(schema)[u]| == 1
    ensures c < |InitialDb(schema)[t][0]|
    ensures InitialDb(schema)[t][0][c] == DeclaredDefault(schema[t].recordDefs[0][c], 0)
  {
    hide *;
    forall u | 0 <= u < |schema|
      ensures |InitialDb(schema)| == |schema| && |InitialDb(schema)[u]| == 1
    {
      InitialLaw(schema, u);
    }
    InitialLaw(schema, t);
    DefaultStands(InitialDb(schema)[t][0], schema[t].recordDefs[0], 0, 0, c);
  }

  /** BDB_openDataBase on a device without a store, and BDB_getValue. */
  method CreateThenGet(schema: Tables, device: array<uint8>, t: nat, c: nat) returns (d: D.Database, shown: uint16)
    requires SchemaIsValid(schema) && FitsDevice(schema, device.Length) && Read8(device[..], 0) != |schema|
    requires t < |schema| && schema[t].recordDefs != []
    requires c < |schema[t].recordDefs[0]| && forall i :: 0 <= i <= c ==> HasData(schema[t].recordDefs[0][i])
    modifies device
    ensures fresh(d) && d.schema == schema && d.Valid() && forall u :: 0 <= u < |schema| ==> |d.Logical()[u]| == 1
    ensures shown == DeclaredDefault(schema[t].recordDefs[0][c], 0)
  {
    hide FitsDevice, Read8, D.Database.Raws, IsDb;
    d := new D.Database(schema, device);
    var existed := d.CreateDataBase();
    InitialCell(schema, t, c);
    hide SchemaIsValid, StoreIsValid, View, Places, PlacesMatch, AllCoherent, ViewAll, StoreAgrees, IsPopulated,
      RefsExist, IsLegal, R.IdsExist, R.Accepts, R.Apply, ColumnsOf, IsReadable, ValueOf, TablesRead,
      OnlyTouches, IsRead, HoldsDefaults, HasData, InitialDb, DefaultRecord;
    CellIsShown(d.schema, d.Raws(), d.buffers, t, 0, c);
    shown := d.GetValue(t, 0, c);
  }

  /** BDB_importTable and BDB_getValue: data whose records may all be imported arrives completely. */
  method ImportThenGet(d: D.Database, t: nat, data: seq<uint16>, n: uint8, r: uint8, c: nat)
    returns (rec: uint8, shown: uint16)
    requires d.Valid() && IsPopulated(d.schema, d.Logical()) && t < |d.schema| && d.schema[t].recordDefs != []
    requires 0 < n <= d.schema[t].maxNumRecords && HoldsRecords(d.schema[t], data, n)
    requires r < n && c < |Cut(d.schema[t], data, n)[r]|
    modifies d`buffers, d.rawBuffer, d.store, d.store.ee
    ensures rec <= n && old(CountsTo(d.schema, d.Logical(), t, 0, Cut(d.schema[t], data, n), rec))
    ensures rec == n ==> d.Valid() && shown == Cut(d.schema[t], data, n)[r][c]
    ensures rec == n
            <==> old(forall i :: 0 <= i < n ==>
                       MayBeImported(d.schema, d.Logical(), t, i, Cut(d.schema[t], data, n)[i]))
  {
    ImportCountLaw(d.schema, d.Logical(), t, data, 0, n);
    ImportedCompletelyIff(d.schema, d.Logical(), t, data, n);
    hide SchemaIsValid, StoreIsValid, View, Places, PlacesMatch, AllCoherent, ViewAll, StoreAgrees, IsPopulated,
      IsLegal, R.IdsExist, R.Accepts, R.Apply, ColumnsOf, IsReadable, ValueOf, TablesRead, OnlyTouches, IsRead,
      MayBeImported, CountsTo, Cut, HoldsRecords, AcceptedCount, IsBroken;
    rec := d.ImportTable(t, data, n);
    shown := 0;
    if rec == n {
      CellIsShown(d.schema, d.Raws(), d.buffers, t, r, c);
      shown := d.GetValue(t, r, c);
    }
  }

  /** BDB_getValue of a virtual column shows what BDB_getValue shows of the record behind the reference. */
  method GetThroughReference(d: D.Database, t: nat, r: uint8, def: nat, c: nat) returns (shown: uint16, other: uint16)
    requires d.Valid() && IsReadable(d.schema, d.Logical(), t, r, c)
    requires def == RecordDefId(d.schema[t], d.Logical()[t][r][0]) && d.schema[t].recordDefs[def][c].colType.Virtual?
    requires c >= |d.Logical()[t][r]|
    modifies d`buffers, d.rawBuffer, d.store.ee
    ensures d.Valid() && d.Logical() == old(d.Logical()) && shown == other
  {
    VirtualShowsReferenced(d.schema, d.Logical(), t, r, c);
    var cols := d.schema[t].recordDefs[def];
    var refCol, valueCol := cols[c].colType.refCol, cols[c].colType.valueCol;
    assert cols == ColumnsOf(d.schema[t], d.Logical()[t][r]);
    CellIsShown(d.schema, d.Raws(), d.buffers, t, r, refCol);
    hide SchemaIsValid, StoreIsValid, View, Places, PlacesMatch, AllCoherent, ViewAll, StoreAgrees, ColumnsOf,
      IsReadable, ValueOf, TablesRead, OnlyTouches, IsRead;
    var ref := d.GetValue(t, r, refCol);
    other := d.GetValue(cols[refCol].colType.refTable, ref % 0x100, valueCol);
    shown := d.GetValue(t, r, c);
  }
}
