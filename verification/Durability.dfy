/** The whole stack: validation, buffer, codec, store and reopening. */
module Durability {
  import opened MachineInts
  import opened Schema
  import opened LogicalDatabase
  import opened DatabaseRuns
  import opened RecordBuffers
  import opened EngineState
  import opened OpeningSteps
  import opened Reopening
  import opened StoreLayout
  import opened StoreSteps
  import D = Database

  /** An accepted BDB_setRecord and BDB_syncTable survive closing and reopening: a valid store is found
      and BDB_getRecord returns the same real columns; nothing else in the table has changed. */
  method SetSyncReopenGet(d: D.Database, t: nat, r: uint8, data: seq<uint16>)
    returns (accepted: bool, existed: bool, columns: seq<uint16>)
    requires d.Valid() && IsConsistent(d.schema, d.Logical())
    requires IdsExist(d.schema, d.Logical(), Op.SetRecord(t, r, data))
    modifies d, d.rawBuffer, d.store, d.store.ee
    ensures d.Valid() && accepted == old(Accepts(d.schema, d.Logical(), Op.SetRecord(t, r, data)))
    ensures accepted ==>
              && existed
              && data[..NumReal(ColumnsOf(d.schema[t], data))] <= columns
              && d.Logical()[t] == old(d.Logical()[t])[r := data[..NumReal(ColumnsOf(d.schema[t], data))]]
  {
    hide SchemaIsValid, StoreIsValid, View, AllCoherent, ViewAll, PlacesMatch, Places, IsPopulated, RefsExist,
      StoredTable, AllStored, AcceptsRecord, NumReal, StoreAgrees;
    existed, columns := false, [];
    SmallPosition(d.schema, d.Logical(), t, r);
    var pastDefs: bool;
    accepted, pastDefs := d.SetRecord(t, r, data);
    if accepted {
      d.SyncTable(t);
      ghost var synced := d.Logical();
      existed := d.CloseAndOpen();
      assert d.Logical()[t] == synced[t];
      columns := d.GetRecord(t, r);
    }
  }

  /** BDB_syncDbase before closing: the database that is opened again is the one that was closed. */
  method SyncAndReopen(d: D.Database) returns (existed: bool)
    requires d.Valid() && IsConsistent(d.schema, d.Logical())
    requires forall t :: 0 <= t < |d.schema| ==> d.buffers[t].recordId != NO_RECORD_ID
    modifies d, d.rawBuffer, d.store, d.store.ee
    ensures existed && d.Valid() && d.Logical() == old(d.Logical())
    ensures old(LosesNoTarget(d.schema, d.Logical(), Op.Reopen(d.Logical())))
  {
    hide SchemaIsValid, StoreIsValid, View, AllCoherent, ViewAll, PlacesMatch, Places, IsPopulated, RefsExist,
      StoredDb, AllTablesStored, OldContentsResolve, Apply, IdsExist;
    d.SyncDbase();
    existed := d.CloseAndOpen();
  }

  lemma SmallPosition(schema: Tables, db: Db, t: nat, r: nat)
    requires SchemaIsValid(schema) && IsConsistent(schema, db) && t < |db| && r < |db[t]|
    ensures r < 250
  {
    TableSizes(schema, t);
    assert IsTable(schema[t], db[t]);
  }
}
