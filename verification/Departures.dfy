/** Where the code does not do what its documentation says: runs that show it, and the exact conditions
    under which it does. The other modules work with the documented steps; the coded deletion of the store
    stands in RecordStore.Store, the coded insertion and deletion of the engine in Database.Database,
    beside the documented ones. */
module Departures {
  import opened MachineInts
  import opened BitUtils
  import opened Bitmap
  import opened Schema
  import opened SlotIndex
  import opened StoreLayout
  import opened StoreSteps
  import opened StoreOpening
  import opened StoreWrites
  import opened RecordStore
  import opened LogicalDatabase
  import opened RecordBuffers
  import R = DatabaseRuns
  import opened EngineState
  import opened ReferenceLoops
  import opened StaleBuffers
  import D = Database

  // ---- rs_deleteRecord frees the record's position, not its slot (src/RecordStore.c:446-455) ----

  /** One coded deletion leaves bitmap and index in agreement exactly when the record lies in the slot
      of its own number. */
  lemma CodedDeleteIsSoundIff(mem: Memory, mem': Memory, row: Row, id: nat)
    requires RowIsValid(mem, row) && id < row.numRecords <= row.place.maxNumRecords
    requires GapClosed(mem, mem', row, id, row.numRecords - id)
    ensures RowIsValid(mem', RowWithout(row, id)) <==> Slots(mem, row)[id] == id
  {
    CloseGapDone(IndexOf(mem, row.place), row.numRecords, id);
    DeleteRefines(mem, mem', row, RowWithout(row, id), id, id);
  }

  /** The first free slot is the least number that no record has as its slot. */
  lemma LowestIsLeast(mem: Memory, row: Row, free: nat)
    requires RowIsValid(mem, row) && row.place.maxNumRecords <= 8 * |row.inUse|
    requires IsLowestFree(row.inUse, row.place.maxNumRecords, free)
    ensures free !in SlotSet(Slots(mem, row)) && forall i: nat :: i < free ==> i in SlotSet(Slots(mem, row))
  {
    var marked := MarkedSet(row.inUse, row.place.maxNumRecords);
    assert free !in marked;
    assert forall i: nat :: i < free ==> i in marked;
  }

  /** Append, append, insert after record 0, delete record 1: the slot that the next append takes is
      the slot of record 1. */
  method TwoRecordsShareASlot(store: Store, t: nat) returns (next: uint8)
    requires store.Valid() && t < |store.catalog| && store.catalog[t].numRecords == 0
    requires store.catalog[t].place.maxNumRecords >= 3
    modifies store, store.ee
    ensures StoreAgrees(store.ee[..], store.catalog) && t < |store.catalog| && !store.Valid()
    ensures Slots(store.ee[..], store.catalog[t]) == [0, 1] && next == 1
    ensures !Distinct(With(Slots(store.ee[..], store.catalog[t]), 2, next))
  {
    hide StoreAgrees, StoreIsValid, View, Slots, CutIsSafe, IndexAgrees, BitmapAgrees, RoomCuts, DeleteWrites,
      Unmark, Mark, InsertWrites, Places, Compact, InsertOutcome, IsLowestFree;
    PlacesStay(store.catalog, t);
    RowBitmapAgrees(store.ee[..], store.catalog, t);
    var _, _ := store.AppendRecord(t);
    LowestAfter(old(store.ee[..]), old(store.catalog[t]), store.ee[..], store.catalog[t], 0, []);
    PlacesStay(store.catalog, t);
    label One:
    var _, _ := store.AppendRecord(t);
    LowestAfter(old@One(store.ee[..]), old@One(store.catalog[t]), store.ee[..], store.catalog[t], 1, [0]);
    PlacesStay(store.catalog, t);
    label Two:
    var _, _ := store.InsertRecordAfter(t, 0);
    LowestAfter(old@Two(store.ee[..]), old@Two(store.catalog[t]), store.ee[..], store.catalog[t], 1, [0, 1]);
    PlacesStay(store.catalog, t);
    ghost var mem, row := store.ee[..], store.catalog[t];
    RowBitmapAgrees(mem, store.catalog, t);
    SizesFit(mem, row);
    var _ := store.DeleteRecord(t, 1);
    next := store.GetNextFreeRecord(store.catalog[t]);
    SecondIsFree(mem, row, next);
    TwiceTheSame();
  }

  lemma PlacesStay(catalog: seq<Row>, t: nat)
    requires t < |catalog|
    ensures Places(catalog)[t] == catalog[t].place && |Places(catalog)| == |catalog|
  {
  }

  /** Inserting into a table whose records lie in the slots 0, 1, ... takes the next one. */
  lemma LowestAfter(mem: Memory, row: Row, mem': Memory, row': Row, at: nat, slots: seq<uint8>)
    requires SlotTaken(mem, row, mem', row', at) && Slots(mem, row) == slots && at <= |slots|
    requires forall i :: 0 <= i < |slots| ==> slots[i] == i
    requires |slots| < 250
    ensures RowIsValid(mem', row') && Slots(mem', row') == With(slots, at, |slots|)
  {
    var slot := Slots(mem', row')[at];
    LowestIsLeast(mem, row, slot);
    hide SlotBytes, Compact, IsLowestFree, Mark, MarkedSet, BitmapAgrees, IndexAgrees;
    FirstSlots(slots);
    assert |slots| !in SlotSet(slots);
  }

  lemma FirstSlots(slots: seq<uint8>)
    requires forall i :: 0 <= i < |slots| ==> slots[i] == i
    ensures forall i: nat :: i in SlotSet(slots) <==> i < |slots|
  {
    forall i: nat | i < |slots|
      ensures i in SlotSet(slots)
    {
      assert slots[i] == i;
    }
  }

  /** With slots 0, 2, 1 in use and bit 1 cleared, bit 1 is the lowest free one. */
  lemma SecondIsFree(mem: Memory, row: Row, next: uint8)
    requires RowIsValid(mem, row) && Slots(mem, row) == [0, 2, 1] && 3 <= row.place.maxNumRecords <= 8 * |row.inUse|
    requires next == NO_FREE_RECORD_FOUND ==>
               forall i: nat :: i < row.place.maxNumRecords ==> IsMarked(Unmark(row.inUse, 1), i)
    requires next != NO_FREE_RECORD_FOUND ==> IsLowestFree(Unmark(row.inUse, 1), row.place.maxNumRecords, next)
    ensures next == 1
  {
    var slots := Slots(mem, row);
    assert slots[0] == 0;
    assert 0 in SlotSet(slots);
    assert 0 in MarkedSet(row.inUse, row.place.maxNumRecords);
    MarkedAfter(row.inUse, 1, 0);
    MarkedAfter(row.inUse, 1, 1);
  }

  lemma TwiceTheSame()
    ensures !Distinct(With([0, 1], 2, 1))
  {
    var s: seq<uint8> := With([0, 1], 2, 1);
    assert s[1] == s[2];
  }

  // ---- rs_tryToOpenRecordStore checks no index (src/RecordStore.c:289-305) ----

  /** A device with one table of one record of one byte, whose index names this slot. */
  function OneSlotDevice(slot: uint8): (mem: Memory)
    ensures |mem| == 12
  {
    [1, 8, 0, 10, 0, 1, 1, 0, slot, 0, 0, 0]
  }

  lemma OneSlotRead(slot: uint8)
    ensures var mem := OneSlotDevice(slot);
            && Read8(mem, 0) == 1 && StoredPlace(mem, 0) == Place(8, 10, 1, 1) && Read8(mem, 8) == slot
            && Read8(mem, 7) == Read8(mem, 9) == Read8(mem, 11) == 0
  {
  }

  lemma OneSlotPasses(slot: uint8)
    ensures CatalogPasses(OneSlotDevice(slot), 1)
  {
    var mem, p := OneSlotDevice(slot), Place(8, 10, 1, 1);
    OneSlotRead(slot);
    hide Read8, StoredPlace, OneSlotDevice;
    assert StoredPlaces(mem, 1) == [p];
    assert CheckFrom(mem, [p], 1, 12);
  }

  lemma OneSlotHasBit(slot: uint8)
    ensures SlotsHaveBits(OneSlotDevice(slot), 0) <==> slot < 8 || slot == NO_SLOT
  {
    var mem, p := OneSlotDevice(slot), Place(8, 10, 1, 1);
    OneSlotRead(slot);
    hide Read8, StoredPlace, OneSlotDevice;
    assert ToUint16(8) == 8;
    assert StoredIndex(mem, p) == [slot];
    assert Live([slot]) == if slot == NO_SLOT then [] else [slot];
  }

  /** The store is found whatever slot it is; from slot 8 on the bit that is marked for it lies behind the
      one byte of the bitmap. */
  method SlotHasNoBit(store: Store, slot: uint8) returns (found: bool, pastEnd: bool)
    requires store.ee[..] == OneSlotDevice(slot)
    modifies store, store.ee
    ensures found && (pastEnd <==> 8 <= slot && slot != NO_SLOT)
  {
    hide *;
    OneSlotPasses(slot);
    OneSlotHasBit(slot);
    found, pastEnd := store.TryToOpenRecordStore(1);
  }

  // ---- storeRecordBuffer leaves the buffer marked as modified (src/BitsOfData.c:61-67) ----

  lemma ValueSet(schema: Tables, db: Db, t: nat, c: nat, value: uint16)
    requires SchemaIsValid(schema) && IsConsistent(schema, db) && |db| == |schema| && t < |db| && |db[t]| == 3
    requires R.IdsExist(schema, db, R.SetValue(t, 2, c, value))
    ensures var after := R.Apply(schema, db, R.SetValue(t, 2, c, value));
            |after| == |schema| && |after[t]| == 3 && IsConsistent(schema, after)
  {
    R.CallKeepsConsistency(schema, db, R.SetValue(t, 2, c, value));
    hide SchemaIsValid, IsPopulated, RefsExist, R.Accepts, R.HasColumn;
  }

  lemma RoomForOne(schema: Tables, db: Db, t: nat)
    requires SchemaIsValid(schema) && t < |schema|
    requires |db| == |schema| && |db[t]| == 3 < schema[t].maxNumRecords
    ensures schema[t].recordDefs != []
    ensures R.IdsExist(schema, db, R.InsertAfter(t, 0)) && R.Accepts(schema, db, R.InsertAfter(t, 0))
  {
    R.TableSizes(schema, t);
  }

  /** A value of the last of three records is set, and a record is inserted after the first: the second
      record is lost, and the third stands there twice. */
  method SecondRecordIsLost(d: D.Database, t: nat, c: nat, value: uint16) returns (accepted: bool, inserted: bool)
    requires d.Valid() && IsConsistent(d.schema, d.Logical())
    requires t < |d.schema| && |d.Logical()[t]| == 3 < d.schema[t].maxNumRecords
    requires R.IdsExist(d.schema, d.Logical(), R.SetValue(t, 2, c, value))
    requires R.Accepts(d.schema, d.Logical(), R.SetValue(t, 2, c, value))
    modifies d, d.rawBuffer, d.store, d.store.ee
    ensures accepted && inserted && d.Valid() && |d.Logical()[t]| == 4
    ensures d.Logical()[t][2] == d.Logical()[t][3]
    ensures var now := R.Apply(d.schema, old(d.Logical()), R.SetValue(t, 2, c, value));
            && |now| == |d.schema| && t < |now| && |now[t]| == 3
            && d.Logical()[t][2] == ShiftRecord(d.schema[t], t, now[t][2], t, 0, true)
  {
    ValueSet(d.schema, d.Logical(), t, c, value);
    hide *;
    accepted := d.SetValue(t, 2, c, value);
    ghost var db, b := d.Logical(), d.buffers[t];
    RoomForOne(d.schema, db, t);
    inserted := d.InsertRecordAfterAsCoded(t, 0);
    RecordIsOverwritten(d.schema, db, t, 0, b);
  }

  // ---- BDB_deleteRecord keeps the buffer under its old number (src/BitsOfData.c:520-531) ----

  lemma SecondMayGo(schema: Tables, db: Db, t: nat)
    requires |db| == |schema| && t < |db| && |db[t]| == 3
    requires !RefersFrom(schema[t], t, t) && !IsReferenced(schema, db, t, 1)
    ensures R.IdsExist(schema, db, R.Delete(t, 1)) && R.Accepts(schema, db, R.Delete(t, 1))
    ensures var after := Delete(schema, db, t, 1); |after| == |db| && |after[t]| == 2 && after[t][1] == db[t][2]
  {
    hide IsReferenced, RefersFrom;
    NothingToShift(schema[t], t, Without(db[t], 1), 1, false);
    assert Delete(schema, db, t, 1)[t] == Without(db[t], 1);
  }

  /** The second of three records is read and then deleted. Its number is the third record's now, but the
      buffer still holds the deleted record under it. */
  method DeletedRecordIsShown(d: D.Database, t: nat) returns (deleted: bool)
    requires d.Valid() && IsConsistent(d.schema, d.Logical())
    requires t < |d.schema| && |d.Logical()[t]| == 3 && d.Logical()[t][1] != d.Logical()[t][2]
    requires !RefersFrom(d.schema[t], t, t) && !IsReferenced(d.schema, d.Logical(), t, 1)
    modifies d, d.rawBuffer, d.store, d.store.ee
    ensures deleted && d.IsBuilt()
    ensures var documented := Delete(d.schema, old(d.Logical()), t, 1);
            && |documented[t]| == 2 && documented[t][1] == old(d.Logical()[t][2])
            && !(d.Valid() && d.Logical() == documented)
    ensures d.buffers[t].recordId == 1 && old(d.Logical()[t][1]) <= d.buffers[t].columns
  {
    SecondMayGo(d.schema, d.Logical(), t);
    hide *;
    ghost var db := d.Logical();
    var columns := d.GetRecord(t, 1);
    SecondIsBuffered(d.schema, d.Raws(), d.buffers, t);
    deleted := d.DeleteRecordAsCoded(t, 1);
  }

  lemma SecondIsBuffered(schema: Tables, raws: seq<seq<Raw>>, buffers: seq<Buffer>, t: nat)
    requires AllCoherent(schema, raws, buffers) && t < |schema| && |raws[t]| == 3 && buffers[t].recordId == 1
    requires ViewAll(schema, raws, buffers)[t][1] != ViewAll(schema, raws, buffers)[t][2]
    ensures IsCoherent(schema[t], raws[t], buffers[t]) && !DeleteIsHarmless(schema[t], raws[t], buffers[t], 1)
  {
    hide IsCoherent, StoredRecord, RealPart;
  }

  // ---- forEachReference excludes by value alone (src/BitsOfData.c:446-449) ----

  predicate IsSelfColumn(col: Column) {
    col.colType.Reference? && col.colType.refTable == SELF_REFERENCE
  }

  /** A reference to record (target, id): through a column declared as a reference to its own table or
      through another one, in the record itself or in another one. */
  ghost predicate IsReferredTo(schema: Tables, db: Db, target: nat, id: nat, bySelf: bool, own: bool)
    requires |db| == |schema|
  {
    exists t: nat, r: nat, c: nat :: t < |db| && r < |db[t]|
      && IsRef(schema[t], t, db[t][r], c, target) && db[t][r][c] == id
      && IsSelfColumn(ColumnsOf(schema[t], db[t][r])[c]) == bySelf && (t == target && r == id) == own
  }

  /** isRecordReferenced as coded: self references with the record's number are not looked at, from
      whatever record they come; all others are. */
  ghost predicate IsReferencedAsCoded(schema: Tables, db: Db, target: nat, id: nat)
    requires |db| == |schema|
  {
    exists t: nat, r: nat, c: nat :: t < |db| && r < |db[t]|
      && IsRef(schema[t], t, db[t][r], c, target) && db[t][r][c] == id
      && !IsSelfColumn(ColumnsOf(schema[t], db[t][r])[c])
  }

  /** The coded search answers as documented exactly when another record refers to this one through a
      column that is not declared as a self reference, or otherwise: when another record refers to it
      through a self reference just in case it refers to itself through another column. */
  lemma CodedSearchIsRightIff(schema: Tables, db: Db, target: nat, id: nat)
    requires |db| == |schema|
    ensures (IsReferencedAsCoded(schema, db, target, id) <==> IsReferenced(schema, db, target, id))
            <==> (IsReferredTo(schema, db, target, id, false, false)
                  || (IsReferredTo(schema, db, target, id, true, false)
                      <==> IsReferredTo(schema, db, target, id, false, true)))
  {
    hide IsRef;
    assert IsReferencedAsCoded(schema, db, target, id)
        <==> IsReferredTo(schema, db, target, id, false, false) || IsReferredTo(schema, db, target, id, false, true);
    assert IsReferenced(schema, db, target, id)
        <==> IsReferredTo(schema, db, target, id, false, false) || IsReferredTo(schema, db, target, id, true, false);
  }

  /** Deleting a record although another one refers to it: every reference resolves afterwards exactly
      when nobody referred to it, or when it was not the last record of its table. */
  lemma DeleteResolvesIff(schema: Tables, db: Db, t: nat, r: nat)
    requires SchemaIsValid(schema) && IsConsistent(schema, db)
    requires t < |db| && r < |db[t]| && |db[t]| > 1
    ensures RefsExist(schema, Delete(schema, db, t, r)) <==> r + 1 < |db[t]| || !IsReferenced(schema, db, t, r)
  {
    var after := Delete(schema, db, t, r);
    if r + 1 < |db[t]| || !IsReferenced(schema, db, t, r) {
      forall u: nat, i: nat, v: nat | u < |after| && i < |after[u]| && v < |after|
        ensures RefsBelow(schema[u], u, after[u][i], v, |after[v]|)
      {
        hide SchemaIsValid, RefsBelow;
        RecordAfterDelete(schema, db, t, r, u, i, v);
      }
    } else {
      var u: nat, i: nat, c: nat :| u < |db| && i < |db[u]| && !(u == t && i == r)
        && IsRef(schema[u], u, db[u][i], c, t) && db[u][i][c] == r;
      DanglingReference(schema, db, t, r, u, i, c);
    }
  }

  /** One record after a deletion: where it came from, and whether its references resolve. */
  lemma RecordAfterDelete(schema: Tables, db: Db, t: nat, r: nat, u: nat, i: nat, v: nat)
    requires SchemaIsValid(schema) && IsConsistent(schema, db) && t < |db| && r < |db[t]|
    requires u < |db| && i < |Delete(schema, db, t, r)[u]| && v < |db|
    requires r + 1 < |db[t]| || !IsReferenced(schema, db, t, r)
    ensures RefsBelow(schema[u], u, Delete(schema, db, t, r)[u][i], v, |Delete(schema, db, t, r)[v]|)
  {
    var after := Delete(schema, db, t, r);
    var j := if u == t && i >= r then i + 1 else i;
    assert after[u][i] == ShiftRecord(schema[u], u, db[u][j], t, r, false);
    assert |after[v]| == if v == t then |db[t]| - 1 else |db[v]|;
    assert IsTable(schema[u], db[u]) && IsTable(schema[t], db[t]) && db[u][j] != [];
    assert RefsBelow(schema[u], u, db[u][j], v, |db[v]|);
    R.TableSizes(schema, t);
    hide SchemaIsValid, Delete, IsTable, IsRef, RefsBelow, IsPopulated, RefsExist, ShiftRecord;
    ShiftedStaysBelow(schema, u, db[u][j], t, r, v, |db[v]|);
  }

  /** Moving references down keeps them below a count that goes down by one, unless one of them is the
      last record and stands still. */
  lemma ShiftedStaysBelow(schema: Tables, u: nat, rec: Record, t: nat, k: nat, v: nat, n: nat)
    requires SchemaIsValid(schema) && u < |schema| && rec != [] && RefsBelow(schema[u], u, rec, v, n)
    requires v == t ==> k < n <= 250
    requires v == t ==> k + 1 < n || forall c: nat :: IsRef(schema[u], u, rec, c, t) ==> rec[c] != k
    ensures RefsBelow(schema[u], u, ShiftRecord(schema[u], u, rec, t, k, false), v, if v == t then n - 1 else n)
  {
    var s := ShiftRecord(schema[u], u, rec, t, k, false);
    ShiftKeepsType(schema, u, rec, t, k, false);
    hide SchemaIsValid, RefersTo;
    forall c: nat | IsRef(schema[u], u, s, c, v)
      ensures s[c] < if v == t then n - 1 else n
    {
      assert IsRef(schema[u], u, rec, c, v);
      if v != t {
        OneTarget(schema, u, rec, c, v, t);
      }
    }
  }

  lemma OneTarget(schema: Tables, u: nat, rec: Record, c: nat, v: nat, t: nat)
    requires u < |schema| && IsRef(schema[u], u, rec, c, v) && v != t
    ensures !IsRef(schema[u], u, rec, c, t)
  {
  }

  /** A reference to the last record of a table dangles once that record is deleted. */
  lemma DanglingReference(schema: Tables, db: Db, t: nat, r: nat, u: nat, i: nat, c: nat)
    requires SchemaIsValid(schema) && IsConsistent(schema, db) && t < |db| && r + 1 == |db[t]|
    requires u < |db| && i < |db[u]| && !(u == t && i == r)
    requires IsRef(schema[u], u, db[u][i], c, t) && db[u][i][c] == r
    ensures !RefsExist(schema, Delete(schema, db, t, r))
  {
    var after := Delete(schema, db, t, r);
    assert after[u][i] == ShiftRecord(schema[u], u, db[u][i], t, r, false);
    ShiftKeepsType(schema, u, db[u][i], t, r, false);
    hide SchemaIsValid, RefersTo;
    assert IsRef(schema[u], u, after[u][i], c, t) && after[u][i][c] == r == |after[t]|;
    assert !RefsBelow(schema[u], u, after[u][i], t, |after[t]|);
  }

  /** What the coded search lets go: after BDB_deleteRecord every reference resolves exactly when the
      record was not the last one of its table, or no other record referred to it through a self
      reference. */
  lemma CodedDeleteResolvesIff(schema: Tables, db: Db, t: nat, r: nat)
    requires SchemaIsValid(schema) && IsConsistent(schema, db)
    requires t < |db| && r < |db[t]| && |db[t]| > 1 && !IsReferencedAsCoded(schema, db, t, r)
    ensures RefsExist(schema, Delete(schema, db, t, r))
            <==> r + 1 < |db[t]| || !IsReferredTo(schema, db, t, r, true, false)
  {
    DeleteResolvesIff(schema, db, t, r);
    hide IsRef, SchemaIsValid, IsConsistent, Delete, RefsExist;
    assert IsReferenced(schema, db, t, r)
        <==> IsReferredTo(schema, db, t, r, false, false) || IsReferredTo(schema, db, t, r, true, false);
  }

  /** A reference to the deleted record that still resolves denotes the record that stood behind it. */
  lemma StaleReferenceDenotesNext(schema: Tables, db: Db, t: nat, r: nat, u: nat, i: nat, c: nat)
    requires SchemaIsValid(schema) && IsConsistent(schema, db) && t < |db| && r + 1 < |db[t]|
    requires u < |db| && i < |db[u]| && !(u == t && i == r)
    requires IsRef(schema[u], u, db[u][i], c, t) && db[u][i][c] == r
    ensures var after, j := Delete(schema, db, t, r), if u == t && i > r then i - 1 else i;
            && j < |after[u]| && c < |after[u][j]| && IsRef(schema[u], u, after[u][j], c, t) && after[u][j][c] == r
            && after[t][r] == ShiftRecord(schema[t], t, db[t][r + 1], t, r, false)
  {
    var after, j := Delete(schema, db, t, r), if u == t && i > r then i - 1 else i;
    assert after[u][j] == ShiftRecord(schema[u], u, db[u][i], t, r, false);
    ShiftKeepsType(schema, u, db[u][i], t, r, false);
  }

  /** A table whose records refer to records of the same table. */
  const LINKED: Tables := [Table(2, [[Column(Reference(SELF_REFERENCE, 0), 0, 1, 0)]])]

  lemma LinkedIsValid()
    ensures SchemaIsValid(LINKED)
  {
    var cols := LINKED[0].recordDefs[0];
    assert NumBits(1) == 1;
    assert TotalBits(cols) == BitsBefore(cols, 0) + 1 == 1;
    assert RecordSize(cols) == 1;
    assert LINKED[0].recordDefs[..0] == [];
    assert MaxRecordSize(LINKED[0]) == 1;
    assert RecordDefIsValid(LINKED, 0, cols);
    assert TableIsValid(LINKED, 0);
  }

  /** Both records refer to record 0: documented it must not be deleted, coded it may be. */
  lemma ReferencedRecordIsFree()
    ensures SchemaIsValid(LINKED) && RefsExist(LINKED, [[[0], [0]]])
    ensures IsReferenced(LINKED, [[[0], [0]]], 0, 0) && !IsReferencedAsCoded(LINKED, [[[0], [0]]], 0, 0)
  {
    var db: Db := [[[0], [0]]];
    LinkedIsValid();
    assert IsRef(LINKED[0], 0, db[0][1], 0, 0) && db[0][1][0] == 0;
  }
}
