/** What a database finds when it is opened again: the bytes that were stored, without the changes that
    were still in the record buffers (src/BitsOfData.c:392-397 stores none of them). */
module Reopening {
  import opened Schema
  import opened RecordCodec
  import opened LogicalDatabase
  import opened RecordBuffers
  import opened DatabaseRuns
  import opened EngineState
  import opened OpeningSteps

  /** What the bytes hold differs from the logical database in the buffered records at most. */
  lemma StoredTableDiffers(schema: Tables, t: nat, raws: seq<Raw>, b: Buffer)
    requires SchemaIsValid(schema) && t < |schema| && IsCoherent(schema[t], raws, b)
    ensures AllStored(schema[t], raws)
    ensures forall r :: 0 <= r < |raws| ==> IsRecord(schema[t], StoredTable(schema[t], raws)[r])
    ensures forall r :: 0 <= r < |raws| && !(b.isModified && r == b.recordId) ==>
              StoredTable(schema[t], raws)[r] == TableView(schema[t], raws, b)[r]
  {
    hide StoresRecord, HoldsRecord, SchemaIsValid, StoredRecord, RealPart, IsRecord;
    forall r | 0 <= r < |raws|
      ensures IsRecord(schema[t], StoredRecord(schema[t], raws[r]))
    {
      StoredIsRecord(schema, t, raws[r]);
    }
  }

  lemma StoredIsRecord(schema: Tables, t: nat, raw: Raw)
    requires SchemaIsValid(schema) && t < |schema| && StoresRecord(schema[t], raw)
    ensures IsRecord(schema[t], StoredRecord(schema[t], raw))
  {
    hide DecodePre, HoldsRecord, Decoded;
    HeldIsRecord(schema, t, Decoded(schema[t], raw));
  }

  /** Closing now is a legal reopening. */
  lemma StoredMayBe(schema: Tables, raws: seq<seq<Raw>>, buffers: seq<Buffer>)
    requires SchemaIsValid(schema) && AllCoherent(schema, raws, buffers)
    ensures AllTablesStored(schema, raws)
    ensures MayBeStored(schema, ViewAll(schema, raws, buffers), StoredDb(schema, raws))
  {
    hide SchemaIsValid, IsCoherent, TableView, AllStored, StoredTable, IsRecord;
    forall t | 0 <= t < |schema|
      ensures AllStored(schema[t], raws[t]) && |raws[t]| <= schema[t].maxNumRecords
      ensures forall r :: 0 <= r < |raws[t]| ==> IsRecord(schema[t], StoredTable(schema[t], raws[t])[r])
      ensures forall r :: 0 <= r < |raws[t]| && !(buffers[t].isModified && r == buffers[t].recordId) ==>
                StoredTable(schema[t], raws[t])[r] == TableView(schema[t], raws[t], buffers[t])[r]
    {
      StoredTableDiffers(schema, t, raws[t], buffers[t]);
    }
    assert IsDb(schema, StoredDb(schema, raws));
  }

  lemma PopulatedWhenStored(schema: Tables, db: Db, stored: Db)
    requires MayBeStored(schema, db, stored) && |db| == |schema|
    ensures IsPopulated(schema, db) ==> IsPopulated(schema, stored)
  {
  }

  /** The stored contents of the record that is changed in the buffer of table t resolve. */
  ghost predicate OldContentsResolve(schema: Tables, raws: seq<seq<Raw>>, buffers: seq<Buffer>, t: nat)
    requires AllCoherent(schema, raws, buffers) && t < |schema|
  {
    buffers[t].isModified ==>
      (CoherentFacts(schema[t], raws[t], buffers[t]);
       BufferedIsRecord(schema[t], raws[t], buffers[t]);
       forall u: nat :: u < |schema| ==>
         RefsBelow(schema[t], t, StoredRecord(schema[t], raws[t][buffers[t].recordId]), u, |raws[u]|))
  }

  /** One stored record: it resolves when the logical one does and, for a record that is changed in the
      buffer, when its old contents do. */
  lemma StoredResolves(schema: Tables, raws: seq<seq<Raw>>, buffers: seq<Buffer>, t: nat, r: nat, u: nat)
    requires SchemaIsValid(schema) && AllCoherent(schema, raws, buffers) && AllTablesStored(schema, raws)
    requires t < |schema| && r < |raws[t]| && u < |schema| && OldContentsResolve(schema, raws, buffers, t)
    requires RefsBelow(schema[t], t, ViewAll(schema, raws, buffers)[t][r], u, |raws[u]|)
    ensures RefsBelow(schema[t], t, StoredDb(schema, raws)[t][r], u, |raws[u]|)
  {
    OneTable(schema, raws, buffers, t);
    StoredTableDiffers(schema, t, raws[t], buffers[t]);
    hide SchemaIsValid, IsCoherent, RefsBelow, AllCoherent, AllTablesStored, AllStored, TableView, StoredRecord,
      StoresRecord;
    if buffers[t].isModified && r == buffers[t].recordId {
      assert StoredDb(schema, raws)[t][r] == StoredRecord(schema[t], raws[t][r]);
    }
  }

  /** The old contents of a buffered record are what is stored. */
  lemma OldContents(schema: Tables, raws: seq<seq<Raw>>, buffers: seq<Buffer>, t: nat) returns (u: nat)
    requires AllCoherent(schema, raws, buffers) && AllTablesStored(schema, raws)
    requires t < |schema| && !OldContentsResolve(schema, raws, buffers, t)
    ensures |StoredDb(schema, raws)| == |raws| == |schema| && u < |schema|
    ensures var r := buffers[t].recordId;
            r < |raws[t]| && !RefsBelow(schema[t], t, StoredDb(schema, raws)[t][r], u, |raws[u]|)
  {
    OneTable(schema, raws, buffers, t);
    BufferedIsRecord(schema[t], raws[t], buffers[t]);
    hide IsCoherent, RefsBelow, StoredRecord, StoresRecord;
    u :| u < |schema|
      && !RefsBelow(schema[t], t, StoredRecord(schema[t], raws[t][buffers[t].recordId]), u, |raws[u]|);
  }

  lemma StoredSizes(schema: Tables, raws: seq<seq<Raw>>, buffers: seq<Buffer>)
    requires AllCoherent(schema, raws, buffers) && AllTablesStored(schema, raws)
    ensures |raws| == |schema|
    ensures forall u :: 0 <= u < |schema| ==>
              |StoredDb(schema, raws)[u]| == |raws[u]| == |ViewAll(schema, raws, buffers)[u]|
  {
    hide IsCoherent, AllStored;
  }

  /** The database that the bytes hold is consistent exactly when the stored contents of every record
      that is changed in a buffer resolve. */
  lemma StoredIsConsistentIff(schema: Tables, raws: seq<seq<Raw>>, buffers: seq<Buffer>)
    requires SchemaIsValid(schema) && AllCoherent(schema, raws, buffers)
    requires IsConsistent(schema, ViewAll(schema, raws, buffers))
    ensures AllTablesStored(schema, raws) && IsPopulated(schema, StoredDb(schema, raws))
    ensures IsConsistent(schema, StoredDb(schema, raws))
            <==> forall t: nat :: t < |schema| ==> OldContentsResolve(schema, raws, buffers, t)
  {
    var db, stored := ViewAll(schema, raws, buffers), StoredDb(schema, raws);
    StoredMayBe(schema, raws, buffers);
    ReopenKeepsIntegrityIff(schema, db, stored);
    StoredSizes(schema, raws, buffers);
    hide SchemaIsValid, AllCoherent, RefsBelow, AllTablesStored, ViewAll, StoredDb, MayBeStored, IsPopulated,
      LosesNoTarget, OldContentsResolve;
    if forall t: nat :: t < |schema| ==> OldContentsResolve(schema, raws, buffers, t) {
      forall t: nat, r: nat, u: nat | t < |stored| && r < |stored[t]| && u < |stored|
        ensures RefsBelow(schema[t], t, stored[t][r], u, |stored[u]|)
      {
        StoredResolves(schema, raws, buffers, t, r, u);
      }
    } else {
      var t: nat :| t < |schema| && !OldContentsResolve(schema, raws, buffers, t);
      var u := OldContents(schema, raws, buffers, t);
    }
  }
}
