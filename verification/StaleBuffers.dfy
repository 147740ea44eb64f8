/** Buffers that keep a number which another record has by then: after an insert, because of the modified
    mark that storeRecordBuffer leaves behind (src/BitsOfData.c:61-67), and after a deletion. */
module StaleBuffers {
  import opened MachineInts
  import opened Schema
  import opened SlotIndex
  import opened RecordCodec
  import opened LogicalDatabase
  import opened DatabaseRuns
  import opened ReferenceLoops
  import opened RecordBuffers
  import opened EngineState
  import opened ValueSteps
  import opened ReferenceSteps
  import opened RecordSteps

  /** The records of a table that the second flush takes the place of, before record r + 1 is inserted:
      a buffered record behind the new one is written over the record before it. */
  function Overwritten<T>(recs: seq<T>, b: Buffer, r: nat): (s: seq<T>)
    requires b.isModified ==> b.recordId < |recs|
    ensures |s| == |recs|
  {
    if b.isModified && b.recordId > r + 1 then recs[b.recordId - 1 := recs[b.recordId]] else recs
  }

  function OverwrittenDb(db: Db, t: nat, b: Buffer, r: nat): (s: Db)
    requires t < |db| && (b.isModified ==> b.recordId < |db[t]|)
    ensures |s| == |db| && |s[t]| == |db[t]|
  {
    db[t := Overwritten(db[t], b, r)]
  }

  /** The stored records after the coded insert of record `at`: the index entry, the second flush and
      the defaults; `slot` is what the free slot held. */
  function RawsAfterInsert(raws: seq<Raw>, b: Buffer, at: nat, slot: Raw, flushed: Raw, raw: Raw): seq<Raw>
    requires at <= |raws| && (b.isModified ==> b.recordId < |raws|)
  {
    Flushed(With(raws, at, slot), b, flushed)[at := raw]
  }

  /** One stored record after the coded insert of record r + 1. */
  lemma InsertedRaw(raws: seq<Raw>, b: Buffer, r: nat, slot: Raw, flushed: Raw, raw: Raw, i: nat)
    requires r < |raws| && (b.isModified ==> b.recordId < |raws|) && i <= |raws|
    ensures var recs := RawsAfterInsert(raws, b, r + 1, slot, flushed, raw);
            && |recs| == |raws| + 1
            && recs[i] == if i == r + 1 then raw
                          else if b.isModified && i == b.recordId then flushed
                          else raws[if i <= r then i else i - 1]
  {
  }

  lemma CodedInsertView(table: Table, raws: seq<Raw>, b: Buffer, r: nat, slot: Raw, flushed: Raw, raw: Raw,
                        columns: seq<uint16>)
    requires IsCoherent(table, raws, b) && IsSynced(table, raws, b) && r < |raws| < 250
    requires b.isModified ==>
               StoresRecord(table, flushed) && StoredRecord(table, flushed) == RealPart(table, b.columns)
    requires StoresRecord(table, raw) && HoldsRecord(table, columns) && |columns| == |b.columns|
    requires StoredRecord(table, raw) == RealPart(table, columns)
    ensures var (recs, b') := (RawsAfterInsert(raws, b, r + 1, slot, flushed, raw), Buffer(r + 1, b.isModified, columns));
            && IsCoherent(table, recs, b')
            && TableView(table, recs, b')
                 == With(Overwritten(TableView(table, raws, b), b, r), r + 1, RealPart(table, columns))
  {
    var recs, v := RawsAfterInsert(raws, b, r + 1, slot, flushed, raw), TableView(table, raws, b);
    var after := With(Overwritten(v, b, r), r + 1, RealPart(table, columns));
    InsertedRaw(raws, b, r, slot, flushed, raw, 0);
    ViewIsStored(table, raws, b);
    hide IsCoherent, IsSynced, TableView, RawsAfterInsert, Overwritten, With, StoresRecord, StoredRecord,
      RealPart, HoldsRecord;
    forall i | 0 <= i < |recs|
      ensures StoresRecord(table, recs[i]) && StoredRecord(table, recs[i]) == after[i]
    {
      StoredAfterInsert(table, raws, v, b, r, slot, flushed, raw, RealPart(table, columns), i);
    }
    NewIsAt(Overwritten(v, b, r), r + 1, RealPart(table, columns));
    StoredShows(table, recs, Buffer(r + 1, b.isModified, columns), after);
  }

  lemma NewIsAt<T>(s: seq<T>, at: nat, x: T)
    requires at <= |s|
    ensures |With(s, at, x)| == |s| + 1 && With(s, at, x)[at] == x
  {
  }

  lemma ViewIsStored(table: Table, raws: seq<Raw>, b: Buffer)
    requires IsCoherent(table, raws, b) && IsSynced(table, raws, b)
    ensures |TableView(table, raws, b)| == |raws| <= 250 && |b.columns| == MaxNumColumns(table)
    ensures b.isModified ==>
              b.recordId < |raws| && HoldsRecord(table, b.columns)
              && TableView(table, raws, b)[b.recordId] == RealPart(table, b.columns)
    ensures forall i :: 0 <= i < |raws| ==>
              StoresRecord(table, raws[i]) && StoredRecord(table, raws[i]) == TableView(table, raws, b)[i]
  {
    hide StoresRecord, StoredRecord, RealPart, HoldsRecord, MaxNumColumns;
  }

  lemma StoredAfterInsert(table: Table, raws: seq<Raw>, v: seq<Record>, b: Buffer, r: nat, slot: Raw, flushed: Raw,
                          raw: Raw, rec: Record, i: nat)
    requires r < |raws| == |v| && (b.isModified ==> b.recordId < |raws|) && i <= |raws|
    requires forall j :: 0 <= j < |raws| ==> StoresRecord(table, raws[j]) && StoredRecord(table, raws[j]) == v[j]
    requires b.isModified ==> StoresRecord(table, flushed) && StoredRecord(table, flushed) == v[b.recordId]
    requires StoresRecord(table, raw) && StoredRecord(table, raw) == rec
    ensures var (recs, after) := (RawsAfterInsert(raws, b, r + 1, slot, flushed, raw), With(Overwritten(v, b, r), r + 1, rec));
            |recs| == |after| == |raws| + 1 && StoresRecord(table, recs[i]) && StoredRecord(table, recs[i]) == after[i]
  {
    hide StoresRecord, StoredRecord, RawsAfterInsert;
    InsertedRaw(raws, b, r, slot, flushed, raw, i);
  }

  /** A buffer that holds what is stored shows the stored records. */
  lemma StoredShows(table: Table, raws: seq<Raw>, b: Buffer, v: seq<Record>)
    requires |raws| == |v| <= 250 && |b.columns| == MaxNumColumns(table)
    requires forall i :: 0 <= i < |raws| ==> StoresRecord(table, raws[i]) && StoredRecord(table, raws[i]) == v[i]
    requires b.recordId < |raws| && HoldsRecord(table, b.columns) && v[b.recordId] == RealPart(table, b.columns)
    ensures IsCoherent(table, raws, b) && TableView(table, raws, b) == v
  {
    hide StoresRecord, HoldsRecord, StoredRecord, RealPart, MaxNumColumns;
  }

  /** The coded insert on the whole state: the defaults in the new slot and in the buffer. */
  lemma CodedInsertOnDb(schema: Tables, raws: seq<seq<Raw>>, buffers: seq<Buffer>, t: nat, r: nat, slot: Raw,
                        flushed: Raw, raw: Raw, columns: seq<uint16>)
    requires SchemaIsValid(schema) && AllCoherent(schema, raws, buffers) && t < |schema|
    requires IsCoherent(schema[t], raws[t], buffers[t]) && IsSynced(schema[t], raws[t], buffers[t])
    requires r < |raws[t]| < schema[t].maxNumRecords && schema[t].recordDefs != []
    requires buffers[t].isModified ==>
               EncodePre(schema[t], buffers[t].columns) && Encoded(schema[t], buffers[t].columns) <= flushed
               && |flushed| == MaxRecordSize(schema[t])
    requires EncodePre(schema[t], columns) && HoldsRecord(schema[t], columns) && |columns| == |buffers[t].columns|
    requires RealPart(schema[t], columns) == DefaultRecord(schema[t], r + 1)
    requires Encoded(schema[t], columns) <= raw && |raw| == MaxRecordSize(schema[t])
    ensures var b := buffers[t];
            && (b.isModified ==> b.recordId < |ViewAll(schema, raws, buffers)[t]| == |raws[t]|)
            && var (raws', buffers') := (raws[t := RawsAfterInsert(raws[t], b, r + 1, slot, flushed, raw)],
                                         buffers[t := Buffer(r + 1, b.isModified, columns)]);
               && AllCoherent(schema, raws', buffers')
               && var db := OverwrittenDb(ViewAll(schema, raws, buffers), t, b, r);
                  ViewAll(schema, raws', buffers') == db[t := With(db[t], r + 1, DefaultRecord(schema[t], r + 1))]
  {
    var b := buffers[t];
    OneTable(schema, raws, buffers, t);
    BufferedIsRecord(schema[t], raws[t], b);
    TableSizes(schema, t);
    if b.isModified {
      BufferShows(schema[t], raws[t], b);
      EncodedIsStored(schema, t, b.columns, flushed);
    }
    EncodedIsStored(schema, t, columns, raw);
    CodedInsertView(schema[t], raws[t], b, r, slot, flushed, raw, columns);
    var recs := RawsAfterInsert(raws[t], b, r + 1, slot, flushed, raw);
    InsertedRaw(raws[t], b, r, slot, flushed, raw, 0);
    hide SchemaIsValid, IsCoherent, TableView, AllCoherent, ViewAll, RawsAfterInsert, Overwritten, With,
      EncodePre, Encoded, HoldsRecord, StoresRecord, StoredRecord, RealPart, DefaultRecord;
    TableChanges(schema, raws, buffers, t, recs, Buffer(r + 1, b.isModified, columns));
  }

  lemma OverwrittenIsConsistent(schema: Tables, db: Db, t: nat, b: Buffer, r: nat)
    requires IsConsistent(schema, db) && t < |db| && (b.isModified ==> b.recordId < |db[t]|)
    ensures IsConsistent(schema, OverwrittenDb(db, t, b, r))
  {
    hide IsConsistent, MayStand;
    if b.isModified && b.recordId > r + 1 {
      StandingRecord(schema, db, t, b.recordId);
      ReplaceKeeps(schema, db, t, b.recordId - 1, db[t][b.recordId]);
    } else {
      SameUpdate(db, t);
    }
  }

  // ---- when it does no harm ----

  /** Records that become equal by renumbering were equal. */
  lemma ShiftIsInjective(schema: Tables, t: nat, rec: Record, rec': Record, target: nat, k: nat)
    requires SchemaIsValid(schema) && t < |schema| && IsRecord(schema[t], rec) && IsRecord(schema[t], rec')
    requires RefsBelow(schema[t], t, rec, target, 250) && RefsBelow(schema[t], t, rec', target, 250)
    requires ShiftRecord(schema[t], t, rec, target, k, true) == ShiftRecord(schema[t], t, rec', target, k, true)
    ensures rec == rec'
  {
    var s, s' := ShiftRecord(schema[t], t, rec, target, k, true), ShiftRecord(schema[t], t, rec', target, k, true);
    ShiftKeepsType(schema, t, rec, target, k, true);
    ShiftKeepsType(schema, t, rec', target, k, true);
    hide SchemaIsValid, RefersTo, FitsColumn;
    forall c | 0 <= c < |rec|
      ensures rec[c] == rec'[c]
    {
      assert s[c] == s'[c];
      assert IsRef(schema[t], t, rec, c, target) <==> IsRef(schema[t], t, rec', c, target);
    }
  }

  /** The coded insert is the documented one exactly when the buffer is not marked as modified, or holds
      a record that stays in front of the new one or the one behind it, or when the record before the
      buffered one is equal to it. */
  lemma CodedInsertIffHarmless(schema: Tables, db: Db, t: nat, r: nat, b: Buffer)
    requires SchemaIsValid(schema) && IsConsistent(schema, db)
    requires t < |db| && r < |db[t]| < schema[t].maxNumRecords && schema[t].recordDefs != []
    requires b.isModified ==> b.recordId < |db[t]|
    ensures Insert(schema, OverwrittenDb(db, t, b, r), t, r) == Insert(schema, db, t, r)
            <==> !b.isModified || b.recordId <= r + 1 || db[t][b.recordId - 1] == db[t][b.recordId]
  {
    var id, over := b.recordId, OverwrittenDb(db, t, b, r);
    if b.isModified && id > r + 1 {
      if db[t][id - 1] == db[t][id] {
        assert over[t] == db[t];
        SameUpdate(db, t);
      }
      if Insert(schema, over, t, r) == Insert(schema, db, t, r) {
        InsertMoves(schema, over, t, r, id - 1);
        InsertMoves(schema, db, t, r, id - 1);
        StandingRecord(schema, db, t, id - 1);
        StandingRecord(schema, db, t, id);
        TableSizes(schema, t);
        hide SchemaIsValid, Insert, IsConsistent, ShiftRecord, IsRecord;
        BelowMore(schema, db, t, db[t][id - 1]);
        BelowMore(schema, db, t, db[t][id]);
        ShiftIsInjective(schema, t, db[t][id - 1], db[t][id], t, r);
      }
    } else {
      SameUpdate(db, t);
    }
  }

  lemma BelowMore(schema: Tables, db: Db, t: nat, rec: Record)
    requires |db| == |schema| && t < |db| && |db[t]| <= 250 && MayStand(schema, db, t, rec)
    ensures IsRecord(schema[t], rec) && RefsBelow(schema[t], t, rec, t, 250)
  {
    hide IsRecord;
    assert RefsBelow(schema[t], t, rec, t, |db[t]|);
  }

  /** A record behind the new one moves up by one place. */
  lemma InsertMoves(schema: Tables, db: Db, t: nat, r: nat, i: nat)
    requires |db| == |schema| && t < |db| && r < i < |db[t]| && schema[t].recordDefs != []
    ensures i + 1 < |Insert(schema, db, t, r)[t]|
    ensures Insert(schema, db, t, r)[t][i + 1] == ShiftRecord(schema[t], t, db[t][i], t, r, true)
  {
  }

  /** Otherwise a record is lost: the one before the buffered record gives way to a copy of it. */
  lemma RecordIsOverwritten(schema: Tables, db: Db, t: nat, r: nat, b: Buffer)
    requires |db| == |schema| && t < |db| && r < |db[t]| && schema[t].recordDefs != []
    requires b.isModified && r + 1 < b.recordId < |db[t]|
    ensures var after, id := Insert(schema, OverwrittenDb(db, t, b, r), t, r), b.recordId;
            && |after[t]| == |db[t]| + 1
            && after[t][id] == after[t][id + 1] == ShiftRecord(schema[t], t, db[t][id], t, r, true)
            && forall i :: 0 <= i <= |db[t]| && i != id ==> after[t][i] == Insert(schema, db, t, r)[t][i]
  {
    var over := OverwrittenDb(db, t, b, r);
    InsertMoves(schema, over, t, r, b.recordId - 1);
    InsertMoves(schema, over, t, r, b.recordId);
    hide ShiftRecord, DefaultRecord;
  }

  // ---- deleting: the buffer keeps its old number (src/BitsOfData.c:520-531) ----

  /** The buffer is empty or holds an earlier record, or the two records that come to lie under its old
      number and the one before are equal. */
  ghost predicate DeleteIsHarmless(table: Table, raws: seq<Raw>, b: Buffer, r: nat)
    requires IsCoherent(table, raws, b)
  {
    || b.recordId == NO_RECORD_ID || b.recordId < r
    || (&& b.recordId + 1 < |raws|
        && TableView(table, raws, b)[b.recordId + 1] == TableView(table, raws, b)[b.recordId]
        && (b.recordId > r ==> StoredRecord(table, raws[b.recordId]) == RealPart(table, b.columns)))
  }

  /** The records of the table and the buffer after rs_deleteRecord show what is documented exactly
      then. A buffer on the last record does harm even when it is clean: its number, which no record
      has any more, is still served from the buffer, where include/BitsOfData.h promises an assert. */
  lemma StaleBufferIffHarmless(table: Table, raws: seq<Raw>, b: Buffer, r: nat)
    requires IsCoherent(table, raws, b) && r < |raws|
    ensures (IsCoherent(table, Without(raws, r), b)
             && TableView(table, Without(raws, r), b) == Without(TableView(table, raws, b), r))
            <==> DeleteIsHarmless(table, raws, b, r)
  {
    var after, v := Without(raws, r), TableView(table, raws, b);
    if IsCoherent(table, after, b) {
      hide StoresRecord, HoldsRecord, StoredRecord, RealPart;
      StaleView(table, raws, b, r);
      hide IsCoherent, TableView;
      assert (forall i :: 0 <= i < |after| ==> TableView(table, after, b)[i] == Without(v, r)[i])
          <==> TableView(table, after, b) == Without(v, r);
    } else {
      StaleIsIncoherent(table, raws, b, r);
    }
  }

  /** Record by record: what the stale buffer and the remaining bytes show, and what is documented. */
  lemma StaleView(table: Table, raws: seq<Raw>, b: Buffer, r: nat)
    requires IsCoherent(table, raws, b) && r < |raws| && IsCoherent(table, Without(raws, r), b)
    ensures var (shown, v) := (TableView(table, Without(raws, r), b), TableView(table, raws, b));
            && |shown| == |Without(v, r)| == |raws| - 1
            && ((forall i :: 0 <= i < |shown| ==> shown[i] == Without(v, r)[i]) <==> DeleteIsHarmless(table, raws, b, r))
  {
    var shown, v := TableView(table, Without(raws, r), b), TableView(table, raws, b);
    var stored := StoredTable(table, raws);
    ShownAndStored(table, raws, b, r);
    HarmlessMeans(table, raws, b, r);
    hide IsCoherent, TableView, StoredTable, StoresRecord, StoredRecord, DeleteIsHarmless;
    ShownIffHarmless(v, stored, shown, b.recordId, r);
  }

  lemma ShownAndStored(table: Table, raws: seq<Raw>, b: Buffer, r: nat)
    requires IsCoherent(table, raws, b) && r < |raws| && IsCoherent(table, Without(raws, r), b)
    ensures |raws| <= 250 && AllStored(table, raws)
    ensures var (shown, v) := (TableView(table, Without(raws, r), b), TableView(table, raws, b));
            var (stored, id) := (StoredTable(table, raws), b.recordId);
            && (forall i :: 0 <= i < |raws| && i != id ==> v[i] == stored[i])
            && (forall i :: 0 <= i < |raws| - 1 && i != id ==> shown[i] == stored[if i < r then i else i + 1])
            && (id != NO_RECORD_ID ==> id + 1 < |raws| && shown[id] == v[id])
  {
    hide StoresRecord, HoldsRecord, StoredRecord, RealPart;
    assert forall i :: 0 <= i < |raws| - 1 ==> Without(raws, r)[i] == raws[if i < r then i else i + 1];
  }

  /** The same on records: all but one are shown as stored, before and after. */
  lemma ShownIffHarmless(v: seq<Record>, stored: seq<Record>, shown: seq<Record>, id: nat, r: nat)
    requires r < |v| == |stored| <= 250 && |shown| == |v| - 1
    requires forall i :: 0 <= i < |v| && i != id ==> v[i] == stored[i]
    requires forall i :: 0 <= i < |shown| && i != id ==> shown[i] == stored[if i < r then i else i + 1]
    requires id != NO_RECORD_ID ==> id < |shown| && shown[id] == v[id]
    ensures (forall i :: 0 <= i < |shown| ==> shown[i] == Without(v, r)[i])
            <==> (id == NO_RECORD_ID || id < r || (v[id + 1] == v[id] && (id > r ==> stored[id] == v[id])))
  {
    var documented := Without(v, r);
    assert forall i :: 0 <= i < |shown| ==> documented[i] == v[if i < r then i else i + 1];
    hide Without;
    if id != NO_RECORD_ID && id > r {
      assert shown[id - 1] == stored[id] && documented[id - 1] == v[id];
    }
  }

  lemma HarmlessMeans(table: Table, raws: seq<Raw>, b: Buffer, r: nat)
    requires IsCoherent(table, raws, b)
    ensures var v := TableView(table, raws, b);
            DeleteIsHarmless(table, raws, b, r)
            <==> (b.recordId == NO_RECORD_ID || b.recordId < r
                  || (b.recordId + 1 < |raws| && v[b.recordId + 1] == v[b.recordId]
                      && (b.recordId > r ==> StoredRecord(table, raws[b.recordId]) == v[b.recordId])))
  {
    hide StoresRecord, HoldsRecord, StoredRecord, RealPart;
  }

  /** Where the buffer does not fit the remaining bytes, it holds the last record, or a clean one behind
      the deleted one whose number has gone to another record. */
  lemma StaleIsIncoherent(table: Table, raws: seq<Raw>, b: Buffer, r: nat)
    requires IsCoherent(table, raws, b) && r < |raws| && !IsCoherent(table, Without(raws, r), b)
    ensures !DeleteIsHarmless(table, raws, b, r)
  {
    hide StoresRecord, HoldsRecord, StoredRecord, RealPart;
    var after := Without(raws, r);
    assert forall i :: 0 <= i < |after| ==> after[i] == raws[if i < r then i else i + 1];
  }

  lemma NothingToShift(table: Table, t: nat, recs: seq<Record>, k: nat, up: bool)
    requires !RefersFrom(table, t, t)
    ensures forall i, c: nat :: 0 <= i < |recs| ==> !IsRef(table, t, recs[i], c, t)
    ensures ShiftTable(table, t, recs, t, k, up) == recs
  {
    hide RefersTo;
    assert forall i :: 0 <= i < |recs| ==> ShiftRecord(table, t, recs[i], t, k, up) == recs[i];
  }

  /** With the record gone and the buffer set aside, every reference behind it may move down. */
  lemma AsideIsShiftSafe(schema: Tables, raws: seq<seq<Raw>>, buffers: seq<Buffer>, t: nat, r: nat)
    requires SchemaIsValid(schema) && AllCoherent(schema, raws, buffers)
    requires IsConsistent(schema, ViewAll(schema, raws, buffers)) && t < |schema| && r < |raws[t]| && |raws[t]| > 1
    requires RefersFrom(schema[t], t, t) ==> !buffers[t].isModified
    ensures var (db, raws') := (ViewAll(schema, raws, buffers), raws[t := Without(raws[t], r)]);
            var buffers' := buffers[t := Buffer(NO_RECORD_ID, false, buffers[t].columns)];
            && AllCoherent(schema, raws', buffers')
            && var db' := ViewAll(schema, raws', buffers');
               && IsPopulated(schema, db') && ShiftIsSafe(schema, db', t, r, false) && db' == db[t := db'[t]]
               && (RefersFrom(schema[t], t, t) ==> db'[t] == Without(db[t], r))
  {
    var db, raws', b := ViewAll(schema, raws, buffers), raws[t := Without(raws[t], r)], buffers[t];
    var empty := Buffer(NO_RECORD_ID, false, b.columns);
    OneTable(schema, raws, buffers, t);
    CoherentFacts(schema[t], raws[t], b);
    EmptyOverStored(schema[t], raws[t], b, r);
    TableChanges(schema, raws, buffers, t, raws'[t], empty);
    if RefersFrom(schema[t], t, t) {
      ClearStep(schema[t], raws[t], b, b.columns);
      DeleteView(schema[t], raws[t], empty, r);
      hide SchemaIsValid, IsConsistent, ViewAll, AllCoherent, TableView, IsCoherent;
      DeleteIsShiftSafe(schema, db, t, r);
    } else {
      ViewIsDb(schema, raws', buffers[t := empty]);
      hide SchemaIsValid, AllCoherent, ViewAll, TableView, IsCoherent, RefersFrom, IsPopulated;
      AsideKeepsReferences(schema, db, t, r, TableView(schema[t], raws'[t], empty));
    }
  }

  lemma EmptyOverStored(table: Table, raws: seq<Raw>, b: Buffer, r: nat)
    requires IsCoherent(table, raws, b) && r < |raws|
    ensures |Without(raws, r)| == |raws| - 1
    ensures IsCoherent(table, Without(raws, r), Buffer(NO_RECORD_ID, false, b.columns))
  {
    hide StoresRecord, HoldsRecord;
    assert forall i :: 0 <= i < |raws| - 1 ==> Without(raws, r)[i] == raws[if i < r then i else i + 1];
  }

  lemma AsideKeepsReferences(schema: Tables, db: Db, t: nat, r: nat, recs: seq<Record>)
    requires IsConsistent(schema, db) && t < |schema| && !RefersFrom(schema[t], t, t)
    requires 0 < |recs| == |db[t]| - 1 < 250 && IsDb(schema, db[t := recs])
    ensures IsPopulated(schema, db[t := recs]) && ShiftIsSafe(schema, db[t := recs], t, r, false)
  {
    hide RefersFrom, IsTable, IsRef;
    var after := db[t := recs];
    NothingToShift(schema[t], t, recs, r, false);
    forall u: nat, i: nat, c: nat | u < |after| && i < |after[u]| && IsRef(schema[u], u, after[u][i], c, t)
      ensures c < |after[u][i]| && IsSafeShift(after[u][i][c], r, false, |recs|)
    {
      assert RefsBelow(schema[u], u, db[u][i], t, |db[t]|);
      RefIsColumn(schema[u], u, after[u][i], c, t);
    }
  }

  lemma RefIsColumn(table: Table, t: nat, rec: Record, c: nat, target: nat)
    requires IsRef(table, t, rec, c, target)
    ensures c < |rec|
  {
  }

  /** In a table that does not refer to itself renumbering looks at no record and leaves the buffer as it
      is. Back in its place, it shows what is documented exactly when the deletion is harmless. */
  lemma PutBackIffHarmless(schema: Tables, raws: seq<seq<Raw>>, buffers: seq<Buffer>, raws': seq<seq<Raw>>,
                           buffers': seq<Buffer>, recs: seq<Record>, t: nat, r: nat)
    requires AllCoherent(schema, raws, buffers) && t < |schema| && r < |raws[t]| && !RefersFrom(schema[t], t, t)
    requires AllCoherent(schema, raws', buffers') && raws'[t] == Without(raws[t], r)
    requires ViewAll(schema, raws', buffers') == ShiftDb(schema, ViewAll(schema, raws, buffers)[t := recs], t, r, false)
    ensures IsCoherent(schema[t], raws[t], buffers[t])
    ensures var back := buffers'[t := buffers[t]];
            (AllCoherent(schema, raws', back)
             && ViewAll(schema, raws', back) == LogicalDatabase.Delete(schema, ViewAll(schema, raws, buffers), t, r))
            <==> DeleteIsHarmless(schema[t], raws[t], buffers[t], r)
  {
    OneTable(schema, raws, buffers, t);
    OneTable(schema, raws', buffers', t);
    StaleBufferIffHarmless(schema[t], raws[t], buffers[t], r);
    if IsCoherent(schema[t], raws'[t], buffers[t]) {
      SameUpdate(raws', t);
      TableChanges(schema, raws', buffers', t, raws'[t], buffers[t]);
      DeletedElsewhere(schema, ViewAll(schema, raws, buffers), recs, t, r);
      hide IsCoherent, TableView, ViewAll, AllCoherent, DeleteIsHarmless, RefersFrom, ShiftDb, LogicalDatabase.Delete;
      OneMayDiffer(ViewAll(schema, raws', buffers'),
        LogicalDatabase.Delete(schema, ViewAll(schema, raws, buffers), t, r), t,
        TableView(schema[t], raws'[t], buffers[t]));
    }
  }

  /** Of a table that does not refer to itself a deletion takes the record and nothing else. */
  lemma DeletedElsewhere(schema: Tables, db: Db, recs: seq<Record>, t: nat, r: nat)
    requires |db| == |schema| && t < |db| && r < |db[t]| && !RefersFrom(schema[t], t, t)
    ensures LogicalDatabase.Delete(schema, db, t, r)
         == ShiftDb(schema, db[t := recs], t, r, false)[t := Without(db[t], r)]
  {
    NothingToShift(schema[t], t, Without(db[t], r), r, false);
    hide RefersFrom, ShiftTable, Without;
  }

  lemma OneMayDiffer(db: Db, documented: Db, t: nat, recs: seq<Record>)
    requires t < |db| == |documented| && documented == db[t := documented[t]]
    ensures db[t := recs] == documented <==> recs == documented[t]
  {
    assert db[t := recs][t] == recs;
  }
}
