/** The steps of forEachReference (src/BitsOfData.c:414-510) on the state of the engine. */
module ReferenceSteps {
  import opened MachineInts
  import opened Schema
  import opened RecordCodec
  import opened LogicalDatabase
  import opened RecordBuffers
  import opened DatabaseRuns
  import opened ReferenceLoops
  import opened EngineState
  import opened ValueSteps

  /** What buffers and storage represent is always a database of complete records. */
  lemma ViewIsDb(schema: Tables, raws: seq<seq<Raw>>, buffers: seq<Buffer>)
    requires SchemaIsValid(schema) && AllCoherent(schema, raws, buffers)
    ensures IsDb(schema, ViewAll(schema, raws, buffers))
  {
    forall t: nat, r: nat | t < |schema| && r < |raws[t]|
      ensures IsRecord(schema[t], ViewAll(schema, raws, buffers)[t][r])
    {
      RecordInView(schema, t, raws[t], buffers[t], r);
    }
  }

  lemma RecordInView(schema: Tables, t: nat, raws: seq<Raw>, b: Buffer, r: nat)
    requires SchemaIsValid(schema) && t < |schema| && IsCoherent(schema[t], raws, b) && r < |raws|
    ensures IsRecord(schema[t], TableView(schema[t], raws, b)[r])
  {
    hide SchemaIsValid, Decoded, FitsColumn, HoldsRecord;
    if r == b.recordId {
      HeldIsRecord(schema, t, b.columns);
    } else {
      HeldIsRecord(schema, t, Decoded(schema[t], raws[r]));
    }
  }

  /** A database with as many records per table as a populated one is populated. */
  lemma LogicalIsPopulated(schema: Tables, raws: seq<seq<Raw>>, buffers: seq<Buffer>, base: Db)
    requires SchemaIsValid(schema) && AllCoherent(schema, raws, buffers) && IsPopulated(schema, base)
    requires forall t :: 0 <= t < |schema| ==> |ViewAll(schema, raws, buffers)[t]| == |base[t]|
    ensures IsPopulated(schema, ViewAll(schema, raws, buffers)) && IsDb(schema, ViewAll(schema, raws, buffers))
  {
    ViewIsDb(schema, raws, buffers);
    hide SchemaIsValid, AllCoherent, ViewAll, IsTable;
  }

  /** What the loops may read of a record, and when it is of type d. */
  lemma TypedRecord(schema: Tables, db: Db, t: nat, r: nat, d: nat, c: nat)
    requires SchemaIsValid(schema) && IsDb(schema, db) && t < |db| && r < |db[t]|
    requires d < |schema[t].recordDefs| && c < |schema[t].recordDefs[d]|
    requires schema[t].recordDefs[d][c].colType.Reference?
    ensures IsReadable(schema, db, t, r, 0) && ValueOf(schema, db, t, r, 0) == db[t][r][0]
    ensures db[t][r] != [] && TablesRead(schema, db, t, r, 0) == {t}
    ensures HasVariableRecords(schema[t]) ==> (db[t][r][0] == d <==> HasDef(schema[t], db[t][r], d))
    ensures !HasVariableRecords(schema[t]) ==> HasDef(schema[t], db[t][r], d)
    ensures HasDef(schema[t], db[t][r], d) ==>
              && c < |db[t][r]| && IsReadable(schema, db, t, r, c) && ValueOf(schema, db, t, r, c) == db[t][r][c]
              && TablesRead(schema, db, t, r, c) == {t}
  {
    RecordStands(schema, db, t, r);
    SchemaColumn(schema, t, d, c);
    TableSizes(schema, t);
    ColumnFacts(schema, db, t, r, 0);
    hide SchemaIsValid;
    if HasDef(schema[t], db[t][r], d) {
      RealColumns(schema[t].recordDefs[d], c);
    }
  }

  lemma RefersIsRef(table: Table, t: nat, rec: Record, d: nat, c: nat, target: nat)
    requires d < |table.recordDefs| && c < |table.recordDefs[d]| && HasDef(table, rec, d) && c < |rec|
    requires RefersTo(table.recordDefs[d][c], t, target)
    ensures IsRef(table, t, rec, c, target)
  {
  }

  lemma NoShift(rec: Record, c: nat, k: nat, up: bool)
    requires c < |rec| && rec[c] <= k
    ensures ShiftCell(rec, c, k, up) == rec
  {
  }

  lemma SafeValue(value: uint16, k: nat, up: bool, count: nat)
    requires IsSafeShift(value, k, up, count)
    ensures value > k ==> value < 0x100
  {
  }

  lemma ChangedReference(schema: Tables, db: Db, t: nat, r: nat, c: nat, k: nat, up: bool, changed: bool, after: Db)
    requires IdsExist(schema, db, Op.ChangeValue(t, r, c, if up then 1 else -1))
    requires ChangeOutcome(schema, db, t, r, c, if up then 1 else -1, changed, after)
    requires Accepts(schema, db, Op.ChangeValue(t, r, c, if up then 1 else -1))
    requires c < |db[t][r]| && (c == 0 ==> !HasVariableRecords(schema[t]))
    requires NewValue(schema, db, t, r, c, if up then 1 else -1) == ShiftValue(db[t][r][c], k, up)
    ensures after == db[t := db[t][r := ShiftCell(db[t][r], c, k, up)]]
  {
    hide NewValue, ShiftValue;
  }

  /** The column test of forEachReference. */
  predicate IsReferenceTo(col: Column, t: nat, target: nat)
    ensures IsReferenceTo(col, t, target) ==> col.colType.Reference?
    ensures target < SELF_REFERENCE ==> (IsReferenceTo(col, t, target) <==> RefersTo(col, t, target))
  {
    && col.colType.Reference?
    && ((col.colType.refTable == SELF_REFERENCE && t == target) || col.colType.refTable == target)
  }

  lemma DefIsNotEmpty(schema: Tables, t: nat, d: nat)
    requires SchemaIsValid(schema) && t < |schema| && d < |schema[t].recordDefs|
    ensures schema[t].recordDefs[d] != [] && |schema| <= 250
  {
    FirstColumnIsReal(schema, t, d);
  }

  lemma SafeTable(schema: Tables, db: Db, target: nat, k: nat, up: bool, t: nat)
    requires |db| == |schema| && target < |db| && t < |db| && ShiftIsSafe(schema, db, target, k, up)
    ensures forall r: nat, i: nat :: r < |db[t]| && IsRef(schema[t], t, db[t][r], i, target) ==>
              IsSafeShift(db[t][r][i], k, up, |db[target]|)
  {
  }

  lemma ShiftColumnsStart(table: Table, t: nat, recs: seq<Record>, d: nat, target: nat, k: nat, up: bool)
    requires d < |table.recordDefs|
    ensures ShiftColumns(table, t, recs, d, target, k, up, 0) == recs
  {
  }

  lemma ShiftColumnsStep(table: Table, t: nat, recs: seq<Record>, d: nat, target: nat, k: nat, up: bool, c: nat)
    requires d < |table.recordDefs| && c < |table.recordDefs[d]|
    ensures var now := ShiftColumns(table, t, recs, d, target, k, up, c);
            ShiftColumns(table, t, recs, d, target, k, up, c + 1)
              == if RefersTo(table.recordDefs[d][c], t, target) then ShiftColumn(table, now, d, c, k, up, |recs|) else now
  {
  }

  lemma TypeColumnHasNoHit(schema: Tables, t: nat, recs: seq<Record>, d: nat, target: nat, id: nat)
    requires SchemaIsValid(schema) && t < |schema| && d < |schema[t].recordDefs| && schema[t].recordDefs[d] != []
    ensures NoHitInDef(schema[t], t, recs, d, target, id, 0)
    ensures HasVariableRecords(schema[t]) ==> NoHitInDef(schema[t], t, recs, d, target, id, 1)
  {
    SchemaIsTyped(schema, t);
  }
}
