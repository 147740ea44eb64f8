/** A record that enters or leaves a table: what buffers and bytes represent before references move. */
module RecordSteps {
  import opened MachineInts
  import opened Schema
  import opened SlotIndex
  import opened RecordCodec
  import opened LogicalDatabase
  import opened RecordBuffers
  import opened DatabaseRuns
  import opened ReferenceLoops
  import opened ValueSteps

  lemma WithTwice<T>(s: seq<T>, at: nat, x: T, y: T)
    requires at <= |s|
    ensures With(s, at, x)[at := y] == With(s, at, y)
  {
  }

  lemma InsertedRaws(schema: Tables, raws: seq<seq<Raw>>, raws': seq<seq<Raw>>, t: nat, at: nat)
    requires t < |raws| && at <= |raws[t]| && t < |raws'| && at < |raws'[t]|
    requires raws' == raws[t := With(raws[t], at, raws'[t][at])]
    ensures |raws'| == |raws| && |raws'[t]| == |raws[t]| + 1
  {
  }

  /** Defaults of the first type make a record to hold. */
  lemma DefaultsHold(schema: Tables, t: nat, r: nat, columns: seq<uint16>)
    requires SchemaIsValid(schema) && t < |schema| && r < schema[t].maxNumRecords
    requires |columns| == MaxNumColumns(schema[t])
    ensures schema[t].recordDefs != [] && |schema[t].recordDefs[0]| <= |columns|
    ensures forall after :: IsDefaulted(schema[t].recordDefs[0], r, 0, columns, after) ==>
              && EncodePre(schema[t], after) && HoldsRecord(schema[t], after)
              && RealPart(schema[t], after) == DefaultRecord(schema[t], r)
  {
    TableSchema(schema, t);
    DefaultIsRecord(schema, t, r);
    var table, cols := schema[t], schema[t].recordDefs[0];
    hide SchemaIsValid, FitsColumn, DefaultValue, CodecSchema, RefsBelow;
    forall after | IsDefaulted(cols, r, 0, columns, after)
      ensures EncodePre(table, after) && HoldsRecord(table, after)
      ensures RealPart(table, after) == DefaultRecord(table, r)
    {
      var rec := DefaultRecord(table, r);
      assert after[0] == rec[0];
      assert RecordDefId(table, rec[0]) == 0 by { DefaultTag(schema, t, r); }
      forall c | 0 <= c < |cols| && !IsVirtual(cols[c])
        ensures FitsColumn(cols[c], after[c])
      {
        RealColumns(cols, c);
        assert after[c] == rec[c];
      }
      assert after[..NumReal(cols)] == rec;
    }
  }

  lemma DefaultTag(schema: Tables, t: nat, r: nat)
    requires SchemaIsValid(schema) && t < |schema| && schema[t].recordDefs != []
    requires DefaultRecord(schema[t], r) != []
    ensures RecordDefId(schema[t], DefaultRecord(schema[t], r)[0]) == 0
  {
    SchemaColumn(schema, t, 0, 0);
  }

  lemma InsertView(table: Table, raws: seq<Raw>, b: Buffer, at: nat, raw: Raw, columns: seq<uint16>)
    requires IsCoherent(table, raws, b) && b.recordId == NO_RECORD_ID && at <= |raws| < 250
    requires StoresRecord(table, raw) && HoldsRecord(table, columns) && |columns| == |b.columns|
    requires StoredRecord(table, raw) == RealPart(table, columns)
    ensures var b' := Buffer(at, false, columns);
            && IsCoherent(table, With(raws, at, raw), b')
            && TableView(table, With(raws, at, raw), b') == With(TableView(table, raws, b), at, RealPart(table, columns))
  {
    hide StoresRecord, HoldsRecord, StoredRecord;
    var raws' := With(raws, at, raw);
    assert forall r :: 0 <= r < |raws'| ==> raws'[r] == if r < at then raws[r] else if r == at then raw else raws[r - 1];
  }

  lemma DeleteView(table: Table, raws: seq<Raw>, b: Buffer, at: nat)
    requires IsCoherent(table, raws, b) && b.recordId == NO_RECORD_ID && at < |raws|
    ensures IsCoherent(table, Without(raws, at), b)
    ensures TableView(table, Without(raws, at), b) == Without(TableView(table, raws, b), at)
  {
    hide StoresRecord, HoldsRecord, StoredRecord;
    var raws' := Without(raws, at);
    assert forall r :: 0 <= r < |raws'| ==> raws'[r] == raws[if r < at then r else r + 1];
  }

  /** With the new record in place every reference may move up; the result is the specified insert. */
  lemma InsertIsShiftSafe(schema: Tables, db: Db, t: nat, r: nat)
    requires SchemaIsValid(schema) && IsConsistent(schema, db) && t < |db| && r < |db[t]| < schema[t].maxNumRecords
    requires schema[t].recordDefs != []
    ensures var db1 := db[t := With(db[t], r + 1, DefaultRecord(schema[t], r + 1))];
            && IsPopulated(schema, db1) && ShiftIsSafe(schema, db1, t, r, true)
            && ShiftDb(schema, db1, t, r, true) == LogicalDatabase.Insert(schema, db, t, r)
  {
    var def := DefaultRecord(schema[t], r + 1);
    var db1 := db[t := With(db[t], r + 1, def)];
    DefaultIsRecord(schema, t, r + 1);
    TableSizes(schema, t);
    hide SchemaIsValid, IsRecord, DefaultRecord, IsRef;
    forall u: nat, i: nat | u < |db1| && i < |db1[u]|
      ensures IsRecord(schema[u], db1[u][i])
      ensures RefsBelow(schema[u], u, db1[u][i], t, |db[t]|)
    {
      if !(u == t && i == r + 1) {
        var j := if u == t && i > r then i - 1 else i;
        assert db1[u][i] == db[u][j];
        assert IsTable(schema[u], db[u]);
      }
    }
    assert IsDb(schema, db1);
    assert RefsBelow(schema[t], t, def, t, 1);
    assert ShiftRecord(schema[t], t, def, t, r, true) == def;
    ShiftOfWith(schema, db, t, r, def);
  }

  lemma ShiftOfWith(schema: Tables, db: Db, t: nat, r: nat, def: Record)
    requires |db| == |schema| && t < |db| && r < |db[t]|
    requires ShiftRecord(schema[t], t, def, t, r, true) == def
    ensures ShiftDb(schema, db[t := With(db[t], r + 1, def)], t, r, true)
         == ShiftDb(schema, db, t, r, true)[t := With(ShiftDb(schema, db, t, r, true)[t], r + 1, def)]
  {
    hide ShiftRecord;
    var db1 := db[t := With(db[t], r + 1, def)];
    assert ShiftTable(schema[t], t, db1[t], t, r, true) == With(ShiftTable(schema[t], t, db[t], t, r, true), r + 1, def);
  }

  /** With the record gone every reference behind it may move down. */
  lemma DeleteIsShiftSafe(schema: Tables, db: Db, t: nat, r: nat)
    requires SchemaIsValid(schema) && IsConsistent(schema, db) && t < |db| && r < |db[t]| && |db[t]| > 1
    ensures var db1 := db[t := Without(db[t], r)];
            && IsPopulated(schema, db1) && ShiftIsSafe(schema, db1, t, r, false)
  {
    var db1 := db[t := Without(db[t], r)];
    TableSizes(schema, t);
    hide SchemaIsValid, IsRecord, IsRef;
    forall u: nat, i: nat | u < |db1| && i < |db1[u]|
      ensures IsRecord(schema[u], db1[u][i])
      ensures RefsBelow(schema[u], u, db1[u][i], t, |db[t]|)
    {
      var j := if u == t && i >= r then i + 1 else i;
      assert db1[u][i] == db[u][j];
      assert IsTable(schema[u], db[u]);
    }
    assert IsTable(schema[t], db[t]);
    assert IsDb(schema, db1);
  }
}
