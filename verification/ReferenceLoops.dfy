/** What the nested loops of forEachReference visit: table by table, record type by record type,
    column by column, record by record. */
module ReferenceLoops {
  import opened MachineInts
  import opened Schema
  import opened LogicalDatabase
  import opened DatabaseRuns

  /** A record has type d. */
  predicate HasDef(table: Table, rec: Record, d: nat) {
    rec != [] && RecordDefId(table, rec[0]) == d
  }

  function ShiftCell(rec: Record, c: nat, k: nat, up: bool): (s: Record)
    requires c < |rec|
    ensures |s| == |rec|
  {
    rec[c := ShiftValue(rec[c], k, up)]
  }

  /** Column c of the first n records of type d, renumbered. */
  function ShiftColumn(table: Table, recs: seq<Record>, d: nat, c: nat, k: nat, up: bool, n: nat): (s: seq<Record>)
    ensures |s| == |recs|
  {
    seq(|recs|, r requires 0 <= r < |recs| =>
      if r < n && HasDef(table, recs[r], d) && c < |recs[r]| then ShiftCell(recs[r], c, k, up) else recs[r])
  }

  /** The first n columns of record type d, renumbered where they refer to the target. */
  function ShiftColumns(table: Table, t: nat, recs: seq<Record>, d: nat, target: nat, k: nat, up: bool, n: nat):
    (s: seq<Record>)
    requires d < |table.recordDefs| && n <= |table.recordDefs[d]|
    ensures |s| == |recs|
  {
    if n == 0 then recs
    else
      var before := ShiftColumns(table, t, recs, d, target, k, up, n - 1);
      if RefersTo(table.recordDefs[d][n - 1], t, target) then ShiftColumn(table, before, d, n - 1, k, up, |recs|) else before
  }

  /** The first n record types. */
  function ShiftDefs(table: Table, t: nat, recs: seq<Record>, target: nat, k: nat, up: bool, n: nat): (s: seq<Record>)
    requires n <= |table.recordDefs|
    ensures |s| == |recs|
  {
    if n == 0 then recs
    else
      ShiftColumns(table, t, ShiftDefs(table, t, recs, target, k, up, n - 1), n - 1, target, k, up, |table.recordDefs[n - 1]|)
  }

  /** The first n tables. */
  function ShiftTables(schema: Tables, db: Db, target: nat, k: nat, up: bool, n: nat): (s: Db)
    requires |db| == |schema| && n <= |db|
    ensures |s| == |db|
  {
    seq(|db|, t requires 0 <= t < |db| =>
      if t < n then ShiftTable(schema[t], t, db[t], target, k, up) else db[t])
  }

  /** Reference columns come behind the record type. */
  ghost predicate TypedByColumn0(table: Table, t: nat) {
    HasVariableRecords(table) ==>
      forall d :: 0 <= d < |table.recordDefs| && table.recordDefs[d] != [] ==> !table.recordDefs[d][0].colType.Reference?
  }

  lemma SchemaIsTyped(schema: Tables, t: nat)
    requires SchemaIsValid(schema) && t < |schema|
    ensures TypedByColumn0(schema[t], t)
  {
    if HasVariableRecords(schema[t]) {
      forall d | 0 <= d < |schema[t].recordDefs| && schema[t].recordDefs[d] != []
        ensures schema[t].recordDefs[d][0].colType.RecordType?
      {
        SchemaColumn(schema, t, d, 0);
      }
    }
  }

  ghost predicate AreTyped(table: Table, recs: seq<Record>) {
    forall r :: 0 <= r < |recs| ==>
      recs[r] != [] && RecordDefId(table, recs[r][0]) < |table.recordDefs| && |recs[r]| <= |ColumnsOf(table, recs[r])|
  }

  /** Cell (r, c) after the first n columns of type d: renumbered once, by its own column. */
  lemma {:induction false} ColumnsVisited(table: Table, t: nat, recs: seq<Record>, d: nat, target: nat, k: nat,
                                          up: bool, n: nat, r: nat)
    requires d < |table.recordDefs| && n <= |table.recordDefs[d]| && r < |recs|
    requires TypedByColumn0(table, t) && AreTyped(table, recs)
    ensures var s := ShiftColumns(table, t, recs, d, target, k, up, n)[r];
            && |s| == |recs[r]| && RecordDefId(table, s[0]) == RecordDefId(table, recs[r][0])
            && forall c :: 0 <= c < |s| ==>
                 s[c] == if HasDef(table, recs[r], d) && c < n && RefersTo(table.recordDefs[d][c], t, target)
                         then ShiftValue(recs[r][c], k, up) else recs[r][c]
  {
    hide ShiftValue;
    if n > 0 {
      ColumnsVisited(table, t, recs, d, target, k, up, n - 1, r);
    }
  }

  /** After all types: every cell is renumbered exactly as its own column asks. */
  lemma {:induction false} DefsVisited(table: Table, t: nat, recs: seq<Record>, target: nat, k: nat, up: bool,
                                       n: nat, r: nat)
    requires n <= |table.recordDefs| && r < |recs| && TypedByColumn0(table, t) && AreTyped(table, recs)
    ensures AreTyped(table, ShiftDefs(table, t, recs, target, k, up, n))
    ensures var s := ShiftDefs(table, t, recs, target, k, up, n)[r];
            && |s| == |recs[r]| && RecordDefId(table, s[0]) == RecordDefId(table, recs[r][0])
            && s == if RecordDefId(table, recs[r][0]) < n then ShiftRecord(table, t, recs[r], target, k, up) else recs[r]
  {
    hide ShiftValue, RefersTo;
    if n > 0 {
      var before := ShiftDefs(table, t, recs, target, k, up, n - 1);
      DefsVisited(table, t, recs, target, k, up, n - 1, r);
      var after := ShiftColumns(table, t, before, n - 1, target, k, up, |table.recordDefs[n - 1]|);
      forall i | 0 <= i < |recs|
        ensures after[i] != [] && RecordDefId(table, after[i][0]) < |table.recordDefs|
        ensures |after[i]| <= |ColumnsOf(table, after[i])|
      {
        ColumnsVisited(table, t, before, n - 1, target, k, up, |table.recordDefs[n - 1]|, i);
      }
      ColumnsVisited(table, t, before, n - 1, target, k, up, |table.recordDefs[n - 1]|, r);
    }
  }

  /** The loops over one table renumber exactly its references to the target. */
  lemma AllDefsVisited(table: Table, t: nat, recs: seq<Record>, target: nat, k: nat, up: bool)
    requires TypedByColumn0(table, t) && AreTyped(table, recs)
    ensures ShiftDefs(table, t, recs, target, k, up, |table.recordDefs|) == ShiftTable(table, t, recs, target, k, up)
  {
    forall r | 0 <= r < |recs|
      ensures ShiftDefs(table, t, recs, target, k, up, |table.recordDefs|)[r] == ShiftTable(table, t, recs, target, k, up)[r]
    {
      DefsVisited(table, t, recs, target, k, up, |table.recordDefs|, r);
    }
  }

  lemma ShiftColumnStep(table: Table, recs: seq<Record>, d: nat, c: nat, k: nat, up: bool, n: nat)
    requires n < |recs|
    ensures ShiftColumn(table, recs, d, c, k, up, n)[n] == recs[n]
    ensures ShiftColumn(table, recs, d, c, k, up, n + 1)
         == if HasDef(table, recs[n], d) && c < |recs[n]|
            then ShiftColumn(table, recs, d, c, k, up, n)[n := ShiftCell(recs[n], c, k, up)]
            else ShiftColumn(table, recs, d, c, k, up, n)
  {
    hide ShiftValue;
  }

  lemma NothingVisited(table: Table, recs: seq<Record>, d: nat, c: nat, k: nat, up: bool)
    ensures ShiftColumn(table, recs, d, c, k, up, 0) == recs
  {
  }

  /** Moving the reference by one keeps it on an existing record. */
  predicate IsSafeShift(v: uint16, k: nat, up: bool, count: nat) {
    v > k ==> (if up then v + 1 else v - 1) < count <= 250
  }

  /** Every reference to the target may be renumbered. */
  ghost predicate ShiftIsSafe(schema: Tables, db: Db, target: nat, k: nat, up: bool)
    requires |db| == |schema| && target < |db|
  {
    forall t: nat, r: nat, c: nat ::
      t < |db| && r < |db[t]| && IsRef(schema[t], t, db[t][r], c, target) ==> IsSafeShift(db[t][r][c], k, up, |db[target]|)
  }

  /** BDB_changeValue on a reference adds or subtracts one, without clamping. */
  lemma ChangeOfReference(schema: Tables, db: Db, t: nat, r: nat, c: nat, target: nat, k: nat, up: bool)
    requires SchemaIsValid(schema) && IsPopulated(schema, db) && t < |db| && r < |db[t]|
    requires IsRef(schema[t], t, db[t][r], c, target) && target < |db|
    requires db[t][r][c] > k && IsSafeShift(db[t][r][c], k, up, |db[target]|)
    ensures HasColumn(schema[t], db[t][r], c) && c < |db[t][r]|
    ensures var delta := if up then 1 else -1;
            && NewValue(schema, db, t, r, c, delta) == ShiftValue(db[t][r][c], k, up) != db[t][r][c]
            && InRange(db, t, ColumnsOf(schema[t], db[t][r])[c], NewValue(schema, db, t, r, c, delta))
            && Accepts(schema, db, ChangeValue(t, r, c, delta))
            && (c == 0 ==> !HasVariableRecords(schema[t]))
  {
    var delta := if up then 1 else -1;
    var col := ColumnsOf(schema[t], db[t][r])[c];
    RefColumn(schema, t, db[t][r], c, target);
    assert IsTable(schema[target], db[target]);
    hide SchemaIsValid, IsPopulated, ToInt16, LimitValue;
    assert MaxValueOf(db, t, col) == |db[target]| - 1;
    ChangedByOne(db[t][r][c], k, up, |db[target]|);
    hide ToUint16, IsSafeShift, ShiftValue;
  }

  lemma ChangedByOne(v: uint16, k: nat, up: bool, count: nat)
    requires v > k && IsSafeShift(v, k, up, count)
    ensures count <= 250
    ensures var (delta, hi) := (if up then 1 else -1, count - 1);
            && ToUint16(LimitValue(ToInt16(0), ToInt16(ToInt16(v) + ToInt16(delta * 1)), ToInt16(hi)))
                 == ShiftValue(v, k, up) != v
            && 0 <= ShiftValue(v, k, up) <= hi && (ShiftValue(v, k, up) - 0) % 1 == 0
  {
    hide ToInt16, LimitValue;
    SmallChange(v, if up then 1 else -1, count - 1);
  }

  lemma SmallChange(v: uint16, d: int, hi: uint16)
    requires d == 1 || d == -1
    requires 0 <= v + d <= hi < 250
    ensures ToUint16(LimitValue(ToInt16(0), ToInt16(ToInt16(v) + ToInt16(d * 1)), ToInt16(hi))) == v + d
  {
  }

  /** A column that has not been visited yet still holds its first values, which are safe to move. */
  lemma UnvisitedIsSafe(table: Table, t: nat, recs: seq<Record>, target: nat, k: nat, up: bool, count: nat, d: nat, c: nat)
    requires TypedByColumn0(table, t) && AreTyped(table, recs)
    requires d < |table.recordDefs| && c < |table.recordDefs[d]| && RefersTo(table.recordDefs[d][c], t, target)
    requires forall r: nat, i: nat :: r < |recs| && IsRef(table, t, recs[r], i, target) ==>
               IsSafeShift(recs[r][i], k, up, count)
    ensures var now := ShiftColumns(table, t, ShiftDefs(table, t, recs, target, k, up, d), d, target, k, up, c);
            forall r :: 0 <= r < |recs| && HasDef(table, now[r], d) && c < |now[r]| ==>
              IsSafeShift(now[r][c], k, up, count)
  {
    hide IsSafeShift, ShiftValue, RefersTo, ShiftColumns, ShiftDefs, ShiftRecord;
    var before := ShiftDefs(table, t, recs, target, k, up, d);
    var now := ShiftColumns(table, t, before, d, target, k, up, c);
    forall r | 0 <= r < |recs| && HasDef(table, now[r], d) && c < |now[r]|
      ensures IsSafeShift(now[r][c], k, up, count)
    {
      DefsVisited(table, t, recs, target, k, up, d, r);
      ColumnsVisited(table, t, before, d, target, k, up, c, r);
      assert before[r] == recs[r];
      assert IsRef(table, t, recs[r], c, target);
    }
  }

  lemma DbIsTyped(schema: Tables, db: Db, t: nat)
    requires SchemaIsValid(schema) && IsDb(schema, db) && t < |db|
    ensures TypedByColumn0(schema[t], t) && AreTyped(schema[t], db[t])
  {
    SchemaIsTyped(schema, t);
    hide SchemaIsValid;
    assert IsTable(schema[t], db[t]);
  }

  /** The record type column is no reference, so starting behind it skips nothing. */
  lemma TypeColumnSkipped(table: Table, t: nat, recs: seq<Record>, d: nat, target: nat, k: nat, up: bool)
    requires d < |table.recordDefs| && table.recordDefs[d] != [] && TypedByColumn0(table, t) && HasVariableRecords(table)
    ensures ShiftColumns(table, t, recs, d, target, k, up, 1) == recs
  {
    assert ShiftColumns(table, t, recs, d, target, k, up, 0) == recs;
  }

  // ---- which tables refer to a table ----

  /** Some column of table t refers to the target. */
  predicate RefersFrom(table: Table, t: nat, target: nat) {
    exists d, c :: 0 <= d < |table.recordDefs| && 0 <= c < |table.recordDefs[d]|
      && RefersTo(table.recordDefs[d][c], t, target)
  }

  /** Some column in front of column n of record type d does. */
  predicate RefersBefore(table: Table, t: nat, target: nat, d: nat, n: nat) {
    exists e, c :: 0 <= e < |table.recordDefs| && 0 <= c < |table.recordDefs[e]| && (e < d || (e == d && c < n))
      && RefersTo(table.recordDefs[e][c], t, target)
  }

  lemma RefersInNext(table: Table, t: nat, target: nat, d: nat, n: nat)
    requires d < |table.recordDefs| && n < |table.recordDefs[d]|
    ensures RefersBefore(table, t, target, d, n + 1)
            <==> RefersBefore(table, t, target, d, n) || RefersTo(table.recordDefs[d][n], t, target)
  {
    hide RefersTo;
  }

  /** The record type column is no reference, and the columns of a type end where the next one begins. */
  lemma RefersInDef(table: Table, t: nat, target: nat, d: nat)
    requires d < |table.recordDefs| && table.recordDefs[d] != [] && TypedByColumn0(table, t)
    ensures HasVariableRecords(table) && RefersBefore(table, t, target, d, 1) ==> RefersBefore(table, t, target, d, 0)
    ensures RefersBefore(table, t, target, d + 1, 0) <==> RefersBefore(table, t, target, d, |table.recordDefs[d]|)
  {
  }

  lemma RefersAtEnd(table: Table, t: nat, target: nat)
    ensures !RefersBefore(table, t, target, 0, 0)
    ensures RefersFrom(table, t, target) <==> RefersBefore(table, t, target, |table.recordDefs|, 0)
  {
    hide RefersTo;
  }

  /** The tables that a loop over references to the target reads and writes: of table t alone. */
  function Referrer(table: Table, t: nat, target: nat): set<nat> {
    if RefersFrom(table, t, target) then {t} else {}
  }

  /** And of all tables. */
  function Referrers(schema: Tables, target: nat): (s: set<nat>)
    ensures forall t: nat :: t < |schema| ==> Referrer(schema[t], t, target) <= s
    ensures forall t: nat :: t < |schema| && !RefersFrom(schema[t], t, target) ==> t !in s
  {
    set t: nat | t < |schema| && RefersFrom(schema[t], t, target)
  }

  lemma ColumnRefers(table: Table, t: nat, d: nat, c: nat, target: nat)
    requires d < |table.recordDefs| && c < |table.recordDefs[d]| && RefersTo(table.recordDefs[d][c], t, target)
    ensures RefersFrom(table, t, target) && Referrer(table, t, target) == {t}
  {
  }

  // ---- searching ----

  /** Column c of record r refers to record id of the target, and is not that record itself. */
  predicate IsHit(table: Table, t: nat, recs: seq<Record>, d: nat, c: nat, target: nat, id: nat, r: nat) {
    && r < |recs| && HasDef(table, recs[r], d) && c < |recs[r]|
    && recs[r][c] == id && !(t == target && r == id)
  }

  ghost predicate NoHitInColumn(table: Table, t: nat, recs: seq<Record>, d: nat, c: nat, target: nat, id: nat, n: nat) {
    forall r: nat :: r < n ==> !IsHit(table, t, recs, d, c, target, id, r)
  }

  ghost predicate NoHitInDef(table: Table, t: nat, recs: seq<Record>, d: nat, target: nat, id: nat, n: nat)
    requires d < |table.recordDefs| && n <= |table.recordDefs[d]|
  {
    forall c: nat :: c < n && RefersTo(table.recordDefs[d][c], t, target) ==>
      NoHitInColumn(table, t, recs, d, c, target, id, |recs|)
  }

  ghost predicate NoHitInTable(table: Table, t: nat, recs: seq<Record>, target: nat, id: nat, n: nat)
    requires n <= |table.recordDefs|
  {
    forall d: nat :: d < n ==> NoHitInDef(table, t, recs, d, target, id, |table.recordDefs[d]|)
  }

  ghost predicate NoHit(schema: Tables, db: Db, target: nat, id: nat, n: nat)
    requires |db| == |schema| && n <= |db|
  {
    forall t: nat :: t < n ==> NoHitInTable(schema[t], t, db[t], target, id, |schema[t].recordDefs|)
  }

  /** One more record looked at. */
  lemma LookedAt(table: Table, t: nat, recs: seq<Record>, d: nat, c: nat, target: nat, id: nat, n: nat)
    requires n < |recs| && (HasDef(table, recs[n], d) ==> c < |recs[n]|)
    ensures IsHit(table, t, recs, d, c, target, id, n)
            <==> HasDef(table, recs[n], d) && recs[n][c] == id && !(t == target && n == id)
    ensures NoHitInColumn(table, t, recs, d, c, target, id, n + 1)
            <==> NoHitInColumn(table, t, recs, d, c, target, id, n) && !IsHit(table, t, recs, d, c, target, id, n)
  {
    hide HasDef;
  }

  lemma NothingLookedAt(table: Table, t: nat, recs: seq<Record>, d: nat, c: nat, target: nat, id: nat)
    ensures NoHitInColumn(table, t, recs, d, c, target, id, 0)
  {
  }

  /** Without a hit in any loop no other record refers to the record. */
  lemma NoHitMeansUnreferenced(schema: Tables, db: Db, target: nat, id: nat)
    requires |db| == |schema| && NoHit(schema, db, target, id, |db|)
    ensures !IsReferenced(schema, db, target, id)
  {
    hide RefersTo;
    forall t: nat, r: nat, c: nat | t < |db| && r < |db[t]| && IsRef(schema[t], t, db[t][r], c, target)
      ensures !(db[t][r][c] == id && !(t == target && r == id))
    {
      var d := RecordDefId(schema[t], db[t][r][0]);
      assert NoHitInTable(schema[t], t, db[t], target, id, |schema[t].recordDefs|);
      assert NoHitInDef(schema[t], t, db[t], d, target, id, |schema[t].recordDefs[d]|);
      assert NoHitInColumn(schema[t], t, db[t], d, c, target, id, |db[t]|);
      assert !IsHit(schema[t], t, db[t], d, c, target, id, r);
    }
  }

  lemma HitMeansReferenced(schema: Tables, db: Db, t: nat, d: nat, c: nat, target: nat, id: nat, r: nat)
    requires |db| == |schema| && t < |db| && d < |schema[t].recordDefs| && c < |schema[t].recordDefs[d]|
    requires RefersTo(schema[t].recordDefs[d][c], t, target) && IsHit(schema[t], t, db[t], d, c, target, id, r)
    ensures IsReferenced(schema, db, target, id)
  {
    assert IsRef(schema[t], t, db[t][r], c, target);
  }
}
