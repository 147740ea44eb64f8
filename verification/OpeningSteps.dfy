/** What a database is when it is created, and when it is opened again. */
module OpeningSteps {
  import opened Schema
  import opened SlotIndex
  import opened StoreLayout
  import opened StoreOpening
  import opened StoreWrites
  import opened LogicalDatabase
  import opened RecordBuffers
  import opened DatabaseRuns
  import opened EngineState

  ghost predicate AllTablesStored(schema: Tables, raws: seq<seq<Raw>>) {
    |raws| == |schema| && forall t :: 0 <= t < |schema| ==> AllStored(schema[t], raws[t])
  }

  /** The database as the bytes alone represent it. */
  ghost function StoredDb(schema: Tables, raws: seq<seq<Raw>>): (db: Db)
    requires AllTablesStored(schema, raws)
    ensures |db| == |schema|
  {
    seq(|schema|, t requires 0 <= t < |schema| => StoredTable(schema[t], raws[t]))
  }

  /** Empty buffers over stored tables show exactly what is stored. */
  lemma FreshBuffers(schema: Tables, raws: seq<seq<Raw>>, before: seq<Buffer>, buffers: seq<Buffer>)
    requires AllCoherent(schema, raws, before) && |buffers| == |schema|
    requires forall t :: 0 <= t < |schema| ==> IsEmptyBuffer(schema[t], buffers[t])
    ensures AllTablesStored(schema, raws) && AllCoherent(schema, raws, buffers)
    ensures ViewAll(schema, raws, buffers) == StoredDb(schema, raws)
  {
    hide StoresRecord, HoldsRecord;
    forall t | 0 <= t < |schema|
      ensures AllStored(schema[t], raws[t]) && IsCoherent(schema[t], raws[t], buffers[t])
      ensures TableView(schema[t], raws[t], buffers[t]) == StoredTable(schema[t], raws[t])
    {
      CoherentFacts(schema[t], raws[t], before[t]);
      SyncedView(schema[t], raws[t], buffers[t]);
    }
  }

  /** The bytes of one table, separators included. */
  function BytesOfTable(table: Table): nat {
    ProductIsNat(MaxRecordSize(table), table.maxNumRecords);
    table.maxNumRecords + 1 + MaxRecordSize(table) * table.maxNumRecords + 1
  }

  lemma ProductIsNat(a: nat, b: nat)
    ensures a * b >= 0
  {
  }

  function BytesOfSchema(schema: Tables, n: nat): nat
    requires n <= |schema|
  {
    if n == 0 then 0 else BytesOfSchema(schema, n - 1) + BytesOfTable(schema[n - 1])
  }

  /** The whole layout fits the device and its 16-bit addresses. */
  ghost predicate FitsDevice(schema: Tables, deviceSize: nat) {
    FirstIndexAddress(|schema|) + BytesOfSchema(schema, |schema|) <= deviceSize <= 0x1_0000
  }

  lemma {:induction false} BytesOfSchemaGrow(schema: Tables, j: nat, k: nat)
    requires j <= k <= |schema|
    ensures BytesOfSchema(schema, j) <= BytesOfSchema(schema, k)
    decreases k
  {
    hide BytesOfTable;
    if j < k {
      BytesOfSchemaGrow(schema, j, k - 1);
    }
  }

  lemma NextTableFits(schema: Tables, t: nat, deviceSize: nat)
    requires t < |schema| && FitsDevice(schema, deviceSize)
    ensures FirstIndexAddress(|schema|) + BytesOfSchema(schema, t) + BytesOfTable(schema[t]) <= deviceSize
    ensures BytesOfSchema(schema, t + 1) == BytesOfSchema(schema, t) + BytesOfTable(schema[t])
    ensures BytesOfTable(schema[t])
         == schema[t].maxNumRecords + 1 + MaxRecordSize(schema[t]) * schema[t].maxNumRecords + 1
  {
    hide MaxRecordSize;
    BytesOfSchemaGrow(schema, t + 1, |schema|);
  }

  lemma RecordSizeBound(schema: Tables, t: nat)
    requires SchemaIsValid(schema) && t < |schema|
    ensures 0 < MaxRecordSize(schema[t]) <= 250
  {
    TableSchema(schema, t);
  }

  lemma FirstTable(catalog: seq<Row>, schema: Tables)
    requires |catalog| == |schema|
    ensures NextIndexAddress(catalog, 0) == FirstIndexAddress(|schema|) + BytesOfSchema(schema, 0)
  {
  }

  lemma NextAddressStays(catalog: seq<Row>, catalog': seq<Row>, t: nat)
    requires t < |catalog| == |catalog'| && (t > 0 ==> catalog'[t - 1] == catalog[t - 1])
    ensures NextIndexAddress(catalog', t) == NextIndexAddress(catalog, t)
  {
  }

  lemma NextAddressMoves(catalog: seq<Row>, t: nat, deviceSize: nat)
    requires t < |catalog| && PartlyLaidOut(catalog, t + 1, deviceSize)
    ensures NextIndexAddress(catalog, t + 1)
         == NextIndexAddress(catalog, t) + catalog[t].place.maxNumRecords + 1
            + catalog[t].place.recordSize * catalog[t].place.maxNumRecords + 1
  {
    if t > 0 {
      AddressOfEnd(catalog[t - 1].place);
    }
    AddressOfEnd(catalog[t].place);
    hide AreaSize;
  }

  lemma NothingLaidOut(catalog: seq<Row>, deviceSize: nat)
    requires 0 < |catalog| <= 250 && deviceSize <= 0x1_0000 && forall t :: 0 <= t < |catalog| ==> catalog[t] == ZERO_ROW
    ensures PartlyLaidOut(catalog, 0, deviceSize)
  {
  }

  lemma EmptyTables(schema: Tables, raws: seq<seq<Raw>>, buffers: seq<Buffer>)
    requires |raws| == |schema| == |buffers| && forall t :: 0 <= t < |schema| ==> raws[t] == []
    requires forall t :: 0 <= t < |schema| ==> IsEmptyBuffer(schema[t], buffers[t])
    ensures AllCoherent(schema, raws, buffers)
    ensures forall t :: 0 <= t < |schema| ==> ViewAll(schema, raws, buffers)[t] == []
  {
    hide HoldsRecord, StoresRecord;
  }

  lemma EmptyBuffer(table: Table, b: Buffer)
    requires IsEmptyBuffer(table, b)
    ensures b.recordId == NO_RECORD_ID && !b.isModified
  {
  }

  function FirstRecord(table: Table): Record {
    if table.recordDefs == [] then [] else DefaultRecord(table, 0)
  }

  lemma WithFirst(rec: Record)
    ensures With([], 0, rec) == [rec]
  {
  }

  /** A new database: one default record in every table. */
  function InitialDb(schema: Tables): (db: Db)
    ensures |db| == |schema|
  {
    seq(|schema|, t requires 0 <= t < |schema| => [FirstRecord(schema[t])])
  }

  lemma InitialIsConsistent(schema: Tables)
    requires SchemaIsValid(schema)
    ensures IsConsistent(schema, InitialDb(schema))
  {
    var db := InitialDb(schema);
    forall t: nat | t < |schema|
      ensures IsTable(schema[t], db[t])
      ensures forall u, n :: n > 0 ==> RefsBelow(schema[t], t, db[t][0], u, n)
    {
      TableSizes(schema, t);
      DefaultIsRecord(schema, t, 0);
    }
    hide SchemaIsValid, IsTable, FirstRecord, RefsBelow;
    assert IsDb(schema, db);
  }
}
