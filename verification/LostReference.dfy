/** A run in which closing an unsynced database leaves a reference without its record: the deletion is
    allowed because the search reads the buffer, and closing forgets the buffer. */
module LostReference {
  import opened MachineInts
  import opened BitUtils
  import opened Schema
  import opened SlotIndex
  import opened LogicalDatabase
  import opened DatabaseRuns
  import opened RecordBuffers
  import opened StoreLayout
  import opened StoreSteps
  import opened EngineState
  import opened OpeningSteps
  import opened Reopening
  import D = Database

  /** Records of table 0 refer to records of table 1. */
  const REFERRING: Table := Table(1, [[Column(Reference(1, 0), 0, 1, 0)]])
  const REFERRED: Table := Table(2, [[Column(Integer, 0, 1, 0)]])
  const TWO_TABLES: Tables := [REFERRING, REFERRED]

  lemma OneBitTable(table: Table, col: Column)
    requires table.recordDefs == [[col]] && col.minValue == 0 && col.maxValue == 1 && Step(col) == 1
    ensures MaxRecordSize(table) == 1 && TotalBits([col]) == 1 && NumReal([col]) == if IsVirtual(col) then 0 else 1
  {
    var cols := [col];
    assert NumBits(1) == 1;
    assert TotalBits(cols) == BitsBefore(cols, 0) + 1 == 1;
    assert RecordSize(cols) == 1;
    assert table.recordDefs[..0] == [];
    assert cols[1..] == [];
  }

  lemma TwoTablesAreValid()
    ensures SchemaIsValid(TWO_TABLES)
    ensures NumReal(REFERRING.recordDefs[0]) == NumReal(REFERRED.recordDefs[0]) == 1
  {
    hide NumReal, TotalBits, MaxRecordSize, TableIsValid, ColumnIsValid;
    ColumnsAreValid();
    OneBitTable(REFERRING, REFERRING.recordDefs[0][0]);
    OneBitTable(REFERRED, REFERRED.recordDefs[0][0]);
    OneColumnIsValid(TWO_TABLES, 0, REFERRING.recordDefs[0][0]);
    OneColumnIsValid(TWO_TABLES, 1, REFERRED.recordDefs[0][0]);
  }

  lemma ColumnsAreValid()
    ensures ColumnIsValid(TWO_TABLES, 0, REFERRING.recordDefs[0][0])
    ensures ColumnIsValid(TWO_TABLES, 1, REFERRED.recordDefs[0][0])
  {
  }

  lemma OneColumnIsValid(schema: Tables, t: nat, col: Column)
    requires t < |schema| && schema[t].recordDefs == [[col]] && 0 < schema[t].maxNumRecords <= 250
    requires ColumnIsValid(schema, t, col) && !col.colType.RecordType?
    requires TotalBits([col]) == 1 && MaxRecordSize(schema[t]) == 1
    ensures TableIsValid(schema, t)
  {
    hide TotalBits, MaxRecordSize, ColumnIsValid;
    assert RecordDefIsValid(schema, t, [col]);
  }

  /** The database whose one reference is `ref`, with n records in table 1. */
  function Referring(ref: uint16, n: nat): Db
    requires n <= 2
  {
    [[[ref]], Zeros(n)]
  }

  function Zeros(n: nat): (recs: seq<Record>)
    ensures |recs| == n && forall i :: 0 <= i < n ==> recs[i] == [0]
  {
    seq(n, _ => [0])
  }

  lemma ReferenceColumn(rec: Record, rec': Record, c: nat)
    requires |rec| == |rec'| == 1
    ensures IsRef(REFERRING, 0, rec, c, 1) <==> c == 0
    ensures !IsRef(REFERRING, 0, rec, c, 0) && !IsRef(REFERRED, 1, rec', c, 0) && !IsRef(REFERRED, 1, rec', c, 1)
  {
  }

  lemma ReferringIsConsistent(ref: uint16, n: nat)
    requires 0 < n <= 2 && ref < 2
    ensures IsPopulated(TWO_TABLES, Referring(ref, n))
    ensures RefsExist(TWO_TABLES, Referring(ref, n)) <==> ref < n
  {
    TwoTablesAreValid();
    var db: Db := Referring(ref, n);
    assert IsTable(REFERRING, db[0]) && IsTable(REFERRED, db[1]);
    hide IsTable, IsRef, SchemaIsValid;
    assert forall t: nat, r: nat :: t < |db| && r < |db[t]| ==> |db[t][r]| == 1;
    forall t: nat, r: nat, u: nat | t < |db| && r < |db[t]| && u < |db|
      ensures RefsBelow(TWO_TABLES[t], t, db[t][r], u, |db[u]|) <==> !(t == 0 && u == 1) || ref < n
    {
      ReferenceColumn(db[0][0], db[1][0], 0);
      forall c: nat | IsRef(TWO_TABLES[t], t, db[t][r], c, u)
        ensures t == 0 && u == 1 && c == 0
      {
        ReferenceColumn(db[0][0], db[1][if t == 1 then r else 0], c);
      }
    }
    assert RefsBelow(TWO_TABLES[0], 0, db[0][0], 1, |db[1]|) <==> ref < n;
  }

  // ---- the calls of the run ----

  lemma ValueIsSet(ref: uint16, n: nat, value: uint16)
    requires 0 < n <= 2 && ref < 2 && value < n && SchemaIsValid(TWO_TABLES) && IsPopulated(TWO_TABLES, Referring(ref, n))
    ensures var (db, op) := (Referring(ref, n), SetValue(0, 0, 0, value));
            && IdsExist(TWO_TABLES, db, op) && Accepts(TWO_TABLES, db, op)
            && Apply(TWO_TABLES, db, op) == Referring(value, n)
  {
    hide SchemaIsValid, IsPopulated;
    var db: Db := Referring(ref, n);
    assert ColumnsOf(REFERRING, db[0][0])[0] == Column(Reference(1, 0), 0, 1, 0);
    assert WithValue(REFERRING, db[0][0], 0, 0, value) == [value];
    assert db[0][0 := [value]] == [[value]];
    assert WithRecord(db, 0, 0, [value]) == Referring(value, n);
  }

  lemma SecondIsInserted()
    requires SchemaIsValid(TWO_TABLES) && IsPopulated(TWO_TABLES, Referring(0, 1))
    requires NumReal(REFERRED.recordDefs[0]) == 1
    ensures var (db, op) := (Referring(0, 1), InsertAfter(1, 0));
            && IdsExist(TWO_TABLES, db, op) && Accepts(TWO_TABLES, db, op)
            && Apply(TWO_TABLES, db, op) == Referring(0, 2)
  {
    hide SchemaIsValid, IsPopulated, NumReal;
    var db: Db := Referring(0, 1);
    NothingMoves(db, true);
    assert DefaultRecord(REFERRED, 1) == [0];
    assert With(db[1], 1, [0]) == Zeros(2);
    assert LogicalDatabase.Insert(TWO_TABLES, db, 1, 0) == db[1 := Zeros(2)] == Referring(0, 2);
  }

  /** The reference 0 is not renumbered by changes behind record 0. */
  lemma NothingMoves(db: Db, up: bool)
    requires exists n: nat :: n <= 2 && db == Referring(0, n)
    ensures forall k: nat :: ShiftDb(TWO_TABLES, db, 1, k, up) == db
  {
    hide IsRef;
    forall k: nat
      ensures ShiftDb(TWO_TABLES, db, 1, k, up) == db
    {
      assert ShiftTable(REFERRING, 0, db[0], 1, k, up) == db[0] by {
        assert ShiftRecord(REFERRING, 0, db[0][0], 1, k, up) == db[0][0];
      }
      assert ShiftTable(REFERRED, 1, db[1], 1, k, up) == db[1] by {
        forall i | 0 <= i < |db[1]|
          ensures ShiftRecord(REFERRED, 1, db[1][i], 1, k, up) == db[1][i]
        {
          ReferenceColumn(db[0][0], db[1][i], 0);
        }
      }
    }
  }

  lemma RefsAreColumns(db: Db)
    requires |db| == 2
    ensures forall t: nat, r: nat, c: nat :: t < |db| && r < |db[t]| && IsRef(TWO_TABLES[t], t, db[t][r], c, 1) ==>
              c < |db[t][r]|
  {
  }

  lemma SecondIsDeleted()
    requires SchemaIsValid(TWO_TABLES) && IsPopulated(TWO_TABLES, Referring(0, 2))
    ensures var (db, op) := (Referring(0, 2), Op.Delete(1, 1));
            && IdsExist(TWO_TABLES, db, op) && Accepts(TWO_TABLES, db, op)
            && Apply(TWO_TABLES, db, op) == Referring(0, 1)
  {
    hide SchemaIsValid, IsPopulated, IsRef;
    var db: Db := Referring(0, 2);
    forall t: nat, r: nat, c: nat | t < |db| && r < |db[t]| && c < |db[t][r]| && IsRef(TWO_TABLES[t], t, db[t][r], c, 1)
      ensures db[t][r][c] != 1
    {
      ReferenceColumn(db[0][0], db[1][if t == 1 then r else 0], c);
    }
    RefsAreColumns(db);
    assert Without(db[1], 1) == Zeros(1);
    assert db[1 := Without(db[1], 1)] == Referring(0, 1);
    NothingMoves(Referring(0, 1), false);
  }

  lemma CallsOfRun()
    ensures SchemaIsValid(TWO_TABLES)
    ensures IsConsistent(TWO_TABLES, Referring(0, 1)) && IsConsistent(TWO_TABLES, Referring(0, 2))
    ensures IsConsistent(TWO_TABLES, Referring(1, 2))
    ensures IsCall(Referring(0, 1), InsertAfter(1, 0), Referring(0, 2))
    ensures IsCall(Referring(0, 2), SetValue(0, 0, 0, 1), Referring(1, 2))
    ensures IsCall(Referring(1, 2), SetValue(0, 0, 0, 0), Referring(0, 2))
    ensures IsCall(Referring(0, 2), Op.Delete(1, 1), Referring(0, 1))
  {
    TwoTablesAreValid();
    ReferringIsConsistent(0, 1);
    ReferringIsConsistent(0, 2);
    ReferringIsConsistent(1, 2);
    hide SchemaIsValid, IsPopulated, RefsExist, Apply, Accepts, Referring, IdsExist, NumReal;
    SecondIsInserted();
    ValueIsSet(0, 2, 1);
    ValueIsSet(1, 2, 0);
    SecondIsDeleted();
  }

  ghost predicate IsCall(db: Db, call: Op, after: Db)
    requires SchemaIsValid(TWO_TABLES) && IsConsistent(TWO_TABLES, db)
  {
    && IdsExist(TWO_TABLES, db, call) && Accepts(TWO_TABLES, db, call) && Apply(TWO_TABLES, db, call) == after
  }

  /** As calls on the logical database: each is legal and keeps every reference, except the reopening,
      which finds an older reference under the changed one. */
  lemma ReferenceIsLost()
    ensures SchemaIsValid(TWO_TABLES) && IsConsistent(TWO_TABLES, Referring(0, 1))
    ensures var calls := [InsertAfter(1, 0), SetValue(0, 0, 0, 1), SetValue(0, 0, 0, 0), Op.Delete(1, 1)];
            && RunIsLegal(TWO_TABLES, Referring(0, 1), calls)
            && Run(TWO_TABLES, Referring(0, 1), calls) == Referring(0, 1)
    ensures var reopen := Reopen(Referring(1, 1));
            && IdsExist(TWO_TABLES, Referring(0, 1), reopen) && !LosesNoTarget(TWO_TABLES, Referring(0, 1), reopen)
            && !RefsExist(TWO_TABLES, Apply(TWO_TABLES, Referring(0, 1), reopen))
  {
    CallsOfRun();
    OlderReferenceIsFound();
    LegalRun(Referring(0, 1), Referring(0, 2), Referring(1, 2));
  }

  lemma LegalRun(one: Db, two: Db, referring: Db)
    requires SchemaIsValid(TWO_TABLES)
    requires IsConsistent(TWO_TABLES, one) && IsConsistent(TWO_TABLES, two) && IsConsistent(TWO_TABLES, referring)
    requires IsCall(one, InsertAfter(1, 0), two) && IsCall(two, SetValue(0, 0, 0, 1), referring)
    requires IsCall(referring, SetValue(0, 0, 0, 0), two) && IsCall(two, Op.Delete(1, 1), one)
    ensures var calls := [InsertAfter(1, 0), SetValue(0, 0, 0, 1), SetValue(0, 0, 0, 0), Op.Delete(1, 1)];
            RunIsLegal(TWO_TABLES, one, calls) && Run(TWO_TABLES, one, calls) == one
  {
    var c1, c2, c3, c4 := InsertAfter(1, 0), SetValue(0, 0, 0, 1), SetValue(0, 0, 0, 0), Op.Delete(1, 1);
    assert [c2] + [c3, c4] == [c2, c3, c4] && [c1] + [c2, c3, c4] == [c1, c2, c3, c4];
    hide *;
    LegalEnd(one, two, referring);
    OneMoreCall(two, c2, [c3, c4], referring);
    OneMoreCall(one, c1, [c2, c3, c4], two);
  }

  lemma LegalEnd(one: Db, two: Db, referring: Db)
    requires SchemaIsValid(TWO_TABLES)
    requires IsConsistent(TWO_TABLES, one) && IsConsistent(TWO_TABLES, two) && IsConsistent(TWO_TABLES, referring)
    requires IsCall(referring, SetValue(0, 0, 0, 0), two) && IsCall(two, Op.Delete(1, 1), one)
    ensures var calls := [SetValue(0, 0, 0, 0), Op.Delete(1, 1)];
            RunIsLegal(TWO_TABLES, referring, calls) && Run(TWO_TABLES, referring, calls) == one
  {
    var c3, c4 := SetValue(0, 0, 0, 0), Op.Delete(1, 1);
    assert [c4] + [] == [c4] && [c3] + [c4] == [c3, c4];
    hide *;
    NoMoreCalls(one);
    OneMoreCall(two, c4, [], one);
    OneMoreCall(referring, c3, [c4], two);
  }

  lemma OlderReferenceIsFound()
    requires SchemaIsValid(TWO_TABLES) && IsConsistent(TWO_TABLES, Referring(0, 1))
    ensures var (db, reopen) := (Referring(0, 1), Reopen(Referring(1, 1)));
            && IdsExist(TWO_TABLES, db, reopen) && !LosesNoTarget(TWO_TABLES, db, reopen)
            && !RefsExist(TWO_TABLES, Apply(TWO_TABLES, db, reopen))
  {
    ReferringIsConsistent(1, 1);
    PopulatedMayBeStored();
    hide SchemaIsValid, IsPopulated, RefsExist, LosesNoTarget, MayBeStored, Referring;
    ReopenKeepsIntegrityIff(TWO_TABLES, Referring(0, 1), Referring(1, 1));
  }

  lemma PopulatedMayBeStored()
    ensures IsPopulated(TWO_TABLES, Referring(1, 1)) ==> MayBeStored(TWO_TABLES, Referring(0, 1), Referring(1, 1))
    ensures |Referring(0, 1)| == |TWO_TABLES|
  {
    hide IsTable;
  }

  lemma NoMoreCalls(db: Db)
    requires SchemaIsValid(TWO_TABLES) && IsConsistent(TWO_TABLES, db)
    ensures RunIsLegal(TWO_TABLES, db, []) && Run(TWO_TABLES, db, []) == db
  {
  }

  lemma OneMoreCall(db: Db, call: Op, calls: seq<Op>, after: Db)
    requires SchemaIsValid(TWO_TABLES) && IsConsistent(TWO_TABLES, db) && IsConsistent(TWO_TABLES, after)
    requires IsCall(db, call, after)
    requires !call.ChangeValue? && !call.Reopen? && RunIsLegal(TWO_TABLES, after, calls)
    ensures RunIsLegal(TWO_TABLES, db, [call] + calls)
    ensures Run(TWO_TABLES, db, [call] + calls) == Run(TWO_TABLES, after, calls)
  {
    assert ([call] + calls)[1..] == calls;
    hide SchemaIsValid, IsPopulated, RefsExist, Apply, IdsExist;
  }

  /** The same on the engine. Table 0 is synced while its reference is 1; then the reference is set back
      to 0 without a sync, record 1 of table 1 is deleted, and the database is closed and opened. */
  method ReferenceIsLostOnDevice(d: D.Database) returns (deleted: bool)
    requires d.Valid() && d.schema == TWO_TABLES && d.Logical() == Referring(0, 1)
    modifies d, d.rawBuffer, d.store, d.store.ee
    ensures d.Valid() && deleted
    ensures d.Logical()[0] == [[1]] && |d.Logical()[1]| == 1 && !RefsExist(TWO_TABLES, d.Logical())
  {
    CallsOfRun();
    hide SchemaIsValid, AllCoherent, ViewAll, StoreIsValid, View, PlacesMatch, Places, IsConsistent,
      IsPopulated, RefsExist, Referring, IsCall, StoredTable, AllStored, StoredDb, AllTablesStored, Apply,
      Accepts, IdsExist, OldContentsResolve, OnlyTouches;
    CallMeans(Referring(0, 1), InsertAfter(1, 0), Referring(0, 2));
    var inserted := d.InsertRecordAfter(1, 0);
    CallMeans(Referring(0, 2), SetValue(0, 0, 0, 1), Referring(1, 2));
    var accepted := d.SetValue(0, 0, 0, 1);
    d.SyncTable(0);
    ghost var raws, buffers := d.Raws(), d.buffers;
    NothingTouched(d.schema, raws, buffers, {});
    SyncedReference(raws, buffers);
    CallMeans(Referring(1, 2), SetValue(0, 0, 0, 0), Referring(0, 2));
    accepted := d.SetValue(0, 0, 0, 0);
    OnlyRecordsStay({0}, raws, buffers, d.Raws(), d.buffers);
    CallMeans(Referring(0, 2), Op.Delete(1, 1), Referring(0, 1));
    deleted := d.DeleteRecord(1, 1);
    NothingTouched(d.schema, d.Raws(), d.buffers, {});
    StoredReference(d.Raws(), d.buffers);
    var existed := d.CloseAndOpen();
  }

  lemma SyncedReference(raws: seq<seq<Raw>>, buffers: seq<Buffer>)
    requires AllCoherent(TWO_TABLES, raws, buffers) && ViewAll(TWO_TABLES, raws, buffers) == Referring(1, 2)
    requires |raws| == 2 && AllStored(REFERRING, raws[0])
    requires StoredTable(REFERRING, raws[0]) == ViewAll(TWO_TABLES, raws, buffers)[0]
    ensures |buffers| == 2 && |raws[0]| == 1 && StoredTable(REFERRING, raws[0]) == [[1]]
  {
  }

  lemma StoredReference(raws: seq<seq<Raw>>, buffers: seq<Buffer>)
    requires AllCoherent(TWO_TABLES, raws, buffers) && ViewAll(TWO_TABLES, raws, buffers) == Referring(0, 1)
    requires |raws| == 2 && AllStored(REFERRING, raws[0]) && StoredTable(REFERRING, raws[0]) == [[1]]
    ensures AllTablesStored(TWO_TABLES, raws)
    ensures var stored := StoredDb(TWO_TABLES, raws);
            && |stored| == 2 && stored[0] == [[1]] && |stored[1]| == 1
            && !RefsExist(TWO_TABLES, stored)
  {
    OneTable(TWO_TABLES, raws, buffers, 1);
    CoherentFacts(REFERRED, raws[1], buffers[1]);
    hide AllStored, StoredTable, IsCoherent, TableView;
    var stored := StoredDb(TWO_TABLES, raws);
    ReferenceColumn(stored[0][0], stored[0][0], 0);
    assert !RefsBelow(REFERRING, 0, stored[0][0], 1, |stored[1]|);
  }

  lemma CallMeans(db: Db, call: Op, after: Db)
    requires SchemaIsValid(TWO_TABLES) && IsConsistent(TWO_TABLES, db) && IsCall(db, call, after)
    ensures IsPopulated(TWO_TABLES, db) && IdsExist(TWO_TABLES, db, call) && Accepts(TWO_TABLES, db, call)
    ensures Apply(TWO_TABLES, db, call) == after
  {
    hide SchemaIsValid, IsPopulated, RefsExist, Apply, Accepts, IdsExist;
  }
}
