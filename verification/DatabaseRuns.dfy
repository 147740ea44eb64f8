/** Runs of the database: every sequence of API calls keeps referential integrity, and
    references go on denoting the same records while positions shift. */
module DatabaseRuns {
  import opened MachineInts
  import opened Schema
  import opened RecordCodec
  import opened LogicalDatabase

  datatype Op =
    | SetValue(t: nat, r: nat, c: nat, value: uint16)
    | ChangeValue(t: nat, r: nat, c: nat, delta: int)
    | SetRecord(t: nat, r: nat, data: seq<uint16>)
    | InsertAfter(t: nat, r: nat)
    | Delete(t: nat, r: nat)
    | Reopen(stored: Db)

  /** The identifiers exist; anything else is a programming error by contract. What is found at reopening
      is what may have been stored. */
  ghost predicate IdsExist(schema: Tables, db: Db, op: Op) {
    && |db| == |schema|
    && (op.Reopen? ==> MayBeStored(schema, db, op.stored))
    && (!op.Reopen? ==> op.t < |db| && op.r < |db[op.t]|)
    && (op.SetValue? ==> HasColumn(schema[op.t], db[op.t][op.r], op.c))
    && (op.ChangeValue? ==> HasColumn(schema[op.t], db[op.t][op.r], op.c))
    && (op.SetRecord? ==> IsRecordData(schema[op.t], op.data))
  }

  /** Each table has one buffer in front of its stored records: closing loses at most the last changes to
      one record of it. */
  ghost predicate MayBeStored(schema: Tables, db: Db, stored: Db) {
    && IsDb(schema, stored) && |stored| == |db|
    && (forall t :: 0 <= t < |db| ==> |stored[t]| == |db[t]|)
    && forall t, i, j :: 0 <= t < |db| && 0 <= i < j < |db[t]| ==> stored[t][i] == db[t][i] || stored[t][j] == db[t][j]
  }

  /** Every reference of the record denotes an existing record. */
  ghost predicate Resolves(schema: Tables, db: Db, t: nat, rec: Record)
    requires |db| == |schema| && t < |db|
  {
    forall u: nat :: u < |db| ==> RefsBelow(schema[t], t, rec, u, |db[u]|)
  }

  /** What had not been stored yet is no matter: the older contents of every such record resolve. In
      particular nothing is lost when everything has been synced. */
  ghost predicate LosesNoTarget(schema: Tables, db: Db, op: Op)
    requires |db| == |schema|
  {
    op.Reopen? && |op.stored| == |db| ==>
      forall t: nat, r: nat :: t < |db| && r < |db[t]| && r < |op.stored[t]| && op.stored[t][r] != db[t][r] ==>
        Resolves(schema, db, t, op.stored[t][r])
  }

  predicate HasColumn(table: Table, rec: Record, c: nat) {
    rec != [] && RecordDefId(table, rec[0]) < |table.recordDefs| && c < |ColumnsOf(table, rec)|
  }

  /** A change in steps of more than one must not overflow int16. */
  predicate IsSafe(schema: Tables, db: Db, op: Op)
    requires IdsExist(schema, db, op)
  {
    op.ChangeValue? && op.c < |db[op.t][op.r]| ==>
      ChangeIsSafe(ColumnsOf(schema[op.t], db[op.t][op.r])[op.c], db[op.t][op.r][op.c], op.delta)
  }

  /** The value BDB_changeValue stores, when it stores one. */
  function NewValue(schema: Tables, db: Db, t: nat, r: nat, c: nat, delta: int): uint16
    requires |db| == |schema| && t < |db| && r < |db[t]| && HasColumn(schema[t], db[t][r], c) && c < |db[t][r]|
  {
    var col := ColumnsOf(schema[t], db[t][r])[c];
    ChangedValue(col, db[t][r][c], delta, MaxValueOf(db, t, col))
  }

  /** The call changes the database. */
  ghost predicate Accepts(schema: Tables, db: Db, op: Op)
    requires IdsExist(schema, db, op)
  {
    match op
    case SetValue(t, r, c, value) => c < |db[t][r]| && AcceptsValue(db, t, ColumnsOf(schema[t], db[t][r])[c], value)
    case ChangeValue(t, r, c, delta) =>
      c < |db[t][r]| && !ColumnsOf(schema[t], db[t][r])[c].colType.ChildTable?
      && NewValue(schema, db, t, r, c, delta) != db[t][r][c]
    case SetRecord(t, r, data) => HasType(schema[t], data) && AcceptsRecord(schema[t], db, t, data)
    case InsertAfter(t, r) => |db[t]| < schema[t].maxNumRecords
    case Delete(t, r) => |db[t]| > 1 && !IsReferenced(schema, db, t, r)
    case Reopen(_) => true
  }

  function WithRecord(db: Db, t: nat, r: nat, rec: Record): Db
    requires t < |db| && r < |db[t]|
  {
    db[t := db[t][r := rec]]
  }

  /** The database after an accepted call. */
  ghost function Effect(schema: Tables, db: Db, op: Op): Db
    requires IdsExist(schema, db, op) && Accepts(schema, db, op)
    requires SchemaIsValid(schema) && IsPopulated(schema, db)
  {
    match op
    case SetValue(t, r, c, value) =>
      TypeValueInRange(schema, db, t, r, c, value);
      WithRecord(db, t, r, WithValue(schema[t], db[t][r], r, c, value))
    case ChangeValue(t, r, c, delta) =>
      NewTypeInRange(schema, db, t, r, c, delta);
      WithRecord(db, t, r, WithValue(schema[t], db[t][r], r, c, NewValue(schema, db, t, r, c, delta)))
    case SetRecord(t, r, data) => WithRecord(db, t, r, data[..NumReal(ColumnsOf(schema[t], data))])
    case InsertAfter(t, r) =>
      DefaultIsRecord(schema, t, 0);
      LogicalDatabase.Insert(schema, db, t, r)
    case Delete(t, r) => LogicalDatabase.Delete(schema, db, t, r)
    case Reopen(stored) => stored
  }

  /** One API call: rejected calls leave the database as it was. */
  ghost function Apply(schema: Tables, db: Db, op: Op): Db
    requires IdsExist(schema, db, op) && SchemaIsValid(schema) && IsPopulated(schema, db)
  {
    if Accepts(schema, db, op) then Effect(schema, db, op) else db
  }

  /** The outcome of BDB_changeValue, as Apply describes it for consistent databases. */
  ghost predicate ChangeOutcome(schema: Tables, db: Db, t: nat, r: nat, c: nat, delta: int, changed: bool, after: Db)
    requires IdsExist(schema, db, ChangeValue(t, r, c, delta))
  {
    && changed == Accepts(schema, db, ChangeValue(t, r, c, delta))
    && if !changed then after == db
       else
         var value := NewValue(schema, db, t, r, c, delta);
         && (c == 0 && HasVariableRecords(schema[t]) ==> value < |schema[t].recordDefs|)
         && after == WithRecord(db, t, r, WithValue(schema[t], db[t][r], r, c, value))
  }

  // ---- single calls ----

  /** The columns of a record in a consistent database obey the schema. */
  lemma ColumnFacts(schema: Tables, db: Db, t: nat, r: nat, c: nat)
    requires SchemaIsValid(schema) && IsDb(schema, db) && t < |db| && r < |db[t]|
    requires c < |db[t][r]|
    ensures HasColumn(schema[t], db[t][r], c)
    ensures var col := ColumnsOf(schema[t], db[t][r])[c];
            && ColumnIsValid(schema, t, col) && FitsColumn(col, db[t][r][c]) && !IsVirtual(col)
            && (col.colType.RecordType? ==> c == 0)
            && (c == 0 ==> (HasVariableRecords(schema[t]) <==> col.colType.RecordType?))
  {
    assert IsTable(schema[t], db[t]);
    assert IsRecord(schema[t], db[t][r]);
    SchemaColumn(schema, t, RecordDefId(schema[t], db[t][r][0]), c);
    assert TableIsValid(schema, t);
    assert RecordDefIsValid(schema, t, ColumnsOf(schema[t], db[t][r]));
  }

  /** The limits of a column are legal values. */
  lemma LimitsAreLegal(schema: Tables, t: nat, col: Column)
    requires t < |schema| && ColumnIsValid(schema, t, col) && !IsVirtual(col)
    ensures col.minValue <= col.maxValue && (col.maxValue - col.minValue) % Step(col) == 0
  {
  }

  lemma TableSizes(schema: Tables, t: nat)
    requires SchemaIsValid(schema) && t < |schema|
    ensures 0 < schema[t].maxNumRecords <= 250 && 0 < |schema[t].recordDefs| <= 0xFF
  {
    assert TableIsValid(schema, t);
  }

  /** The current maximum of a column is itself a legal value. */
  lemma MaxValueFacts(schema: Tables, db: Db, t: nat, col: Column)
    requires SchemaIsValid(schema) && IsPopulated(schema, db) && t < |db|
    requires ColumnIsValid(schema, t, col) && !IsVirtual(col)
    ensures col.minValue <= MaxValueOf(db, t, col) <= col.maxValue
    ensures (MaxValueOf(db, t, col) - col.minValue) % Step(col) == 0
    ensures col.colType.Reference? ==>
              (TargetTable(col.colType, t) < |db|
               && MaxValueOf(db, t, col) == |db[TargetTable(col.colType, t)]| - 1)
  {
    LimitsAreLegal(schema, t, col);
    if col.colType.Reference? {
      var target := TargetTable(col.colType, t);
      TableSizes(schema, target);
      assert IsTable(schema[target], db[target]);
    }
    hide SchemaIsValid, RefsExist, IsDb;
  }

  lemma TypeValueInRange(schema: Tables, db: Db, t: nat, r: nat, c: nat, value: uint16)
    requires SchemaIsValid(schema) && IsPopulated(schema, db) && t < |db| && r < |db[t]| && c < |db[t][r]|
    requires HasColumn(schema[t], db[t][r], c)
    requires InRange(db, t, ColumnsOf(schema[t], db[t][r])[c], value)
    ensures c == 0 && HasVariableRecords(schema[t]) ==> value < |schema[t].recordDefs|
  {
    ColumnFacts(schema, db, t, r, c);
  }

  lemma NewValueFits(schema: Tables, db: Db, t: nat, r: nat, c: nat, delta: int)
    requires SchemaIsValid(schema) && IsConsistent(schema, db) && t < |db| && r < |db[t]| && c < |db[t][r]|
    requires HasColumn(schema[t], db[t][r], c)
    requires ChangeIsSafe(ColumnsOf(schema[t], db[t][r])[c], db[t][r][c], delta)
    ensures InRange(db, t, ColumnsOf(schema[t], db[t][r])[c], NewValue(schema, db, t, r, c, delta))
  {
    ColumnFacts(schema, db, t, r, c);
    var col := ColumnsOf(schema[t], db[t][r])[c];
    MaxValueFacts(schema, db, t, col);
    ValueBelowMax(schema, db, t, r, c);
    hide MaxValueOf, ChangedValue, ChangeIsSafe;
    ChangedValueFits(col, db[t][r][c], delta, MaxValueOf(db, t, col));
  }

  lemma ValueBelowMax(schema: Tables, db: Db, t: nat, r: nat, c: nat)
    requires SchemaIsValid(schema) && IsConsistent(schema, db) && t < |db| && r < |db[t]| && c < |db[t][r]|
    requires HasColumn(schema[t], db[t][r], c)
    ensures db[t][r][c] <= MaxValueOf(db, t, ColumnsOf(schema[t], db[t][r])[c])
  {
    ColumnFacts(schema, db, t, r, c);
    var col := ColumnsOf(schema[t], db[t][r])[c];
    MaxValueFacts(schema, db, t, col);
    if col.colType.Reference? {
      var target := TargetTable(col.colType, t);
      assert IsRef(schema[t], t, db[t][r], c, target);
      assert RefsBelow(schema[t], t, db[t][r], target, |db[target]|);
    }
  }

  /** Changing a record type stays among the defined types, even when the change overflows. */
  lemma NewTypeInRange(schema: Tables, db: Db, t: nat, r: nat, c: nat, delta: int)
    requires SchemaIsValid(schema) && IsPopulated(schema, db) && t < |db| && r < |db[t]| && c < |db[t][r]|
    requires HasColumn(schema[t], db[t][r], c)
    ensures c == 0 && HasVariableRecords(schema[t]) ==>
              NewValue(schema, db, t, r, c, delta) < |schema[t].recordDefs|
  {
    ColumnFacts(schema, db, t, r, c);
    if c == 0 && HasVariableRecords(schema[t]) {
      var col := ColumnsOf(schema[t], db[t][r])[c];
      TableSizes(schema, t);
      assert col.minValue == 0 && col.maxValue == |schema[t].recordDefs| - 1;
      hide Step, SchemaIsValid, ColumnIsValid, LimitValue, ToInt16, ToUint16;
      SmallLimit(ToInt16(ToInt16(db[t][r][c]) + ToInt16(delta * Step(col))), col.maxValue);
    }
  }

  lemma SmallLimit(w: int, hi: uint16)
    requires hi < 0x8000
    ensures ToUint16(LimitValue(ToInt16(0), w, ToInt16(hi))) <= hi
  {
    Int16OfUint16(hi);
    Int16OfUint16(0);
  }

  // ---- single calls keep the database consistent ----

  /** The record may stand in table t of the database. */
  ghost predicate MayStand(schema: Tables, db: Db, t: nat, rec: Record)
    requires |db| == |schema| && t < |db|
  {
    IsRecord(schema[t], rec) && forall u: nat :: u < |db| ==> RefsBelow(schema[t], t, rec, u, |db[u]|)
  }

  lemma ReplaceKeeps(schema: Tables, db: Db, t: nat, r: nat, rec: Record)
    requires IsConsistent(schema, db) && t < |db| && r < |db[t]| && MayStand(schema, db, t, rec)
    ensures IsConsistent(schema, WithRecord(db, t, r, rec))
  {
    hide IsRecord, RefsBelow;
    var after := WithRecord(db, t, r, rec);
    assert forall u :: 0 <= u < |db| ==> |after[u]| == |db[u]|;
    assert forall u, i :: 0 <= u < |db| && 0 <= i < |db[u]| ==>
        after[u][i] == if u == t && i == r then rec else db[u][i];
    assert forall u :: 0 <= u < |db| ==> IsTable(schema[u], db[u]);
  }

  lemma StandingRecord(schema: Tables, db: Db, t: nat, r: nat)
    requires IsConsistent(schema, db) && t < |db| && r < |db[t]|
    ensures MayStand(schema, db, t, db[t][r])
  {
    assert IsTable(schema[t], db[t]);
  }

  /** A value in range is a legal value of its column, and a reference in range resolves. */
  lemma InRangeIsLegal(schema: Tables, db: Db, t: nat, col: Column, value: uint16)
    requires SchemaIsValid(schema) && IsPopulated(schema, db) && t < |db|
    requires ColumnIsValid(schema, t, col) && !IsVirtual(col) && InRange(db, t, col, value)
    ensures FitsColumn(col, value)
    ensures forall u: nat :: u < |db| && RefersTo(col, t, u) ==> value < |db[u]|
  {
    MaxValueFacts(schema, db, t, col);
  }

  /** Setting a legal value gives a complete record, whatever the state of the references. */
  lemma SetValueIsRecord(schema: Tables, db: Db, t: nat, r: nat, c: nat, value: uint16)
    requires SchemaIsValid(schema) && IsPopulated(schema, db) && t < |db| && r < |db[t]| && c < |db[t][r]|
    requires HasColumn(schema[t], db[t][r], c)
    requires InRange(db, t, ColumnsOf(schema[t], db[t][r])[c], value)
    requires c == 0 && HasVariableRecords(schema[t]) ==> value < |schema[t].recordDefs|
    ensures IsRecord(schema[t], WithValue(schema[t], db[t][r], r, c, value))
  {
    hide SchemaIsValid, InRange, IsTable, ColumnIsValid, FitsColumn, DefaultValues, MayStand;
    var table, rec := schema[t], db[t][r];
    ColumnFacts(schema, db, t, r, c);
    InRangeIsLegal(schema, db, t, ColumnsOf(table, rec)[c], value);
    RecordStands(schema, db, t, r);
    if c == 0 && HasVariableRecords(table) {
      FirstColumnIsReal(schema, t, value);
      NewTypeMayStand(schema, db, t, r, value, ColumnsOf(table, rec)[c]);
      StandsMeans(schema, db, t, WithValue(table, rec, r, c, value));
    } else {
      assert ColumnsOf(table, rec[c := value]) == ColumnsOf(table, rec);
    }
  }

  lemma RecordStands(schema: Tables, db: Db, t: nat, r: nat)
    requires IsDb(schema, db) && t < |db| && r < |db[t]|
    ensures IsRecord(schema[t], db[t][r])
  {
    assert IsTable(schema[t], db[t]);
  }

  lemma StandsMeans(schema: Tables, db: Db, t: nat, rec: Record)
    requires |db| == |schema| && t < |db| && MayStand(schema, db, t, rec)
    ensures IsRecord(schema[t], rec)
  {
  }

  lemma SetValueMayStand(schema: Tables, db: Db, t: nat, r: nat, c: nat, value: uint16)
    requires SchemaIsValid(schema) && IsConsistent(schema, db) && t < |db| && r < |db[t]| && c < |db[t][r]|
    requires HasColumn(schema[t], db[t][r], c)
    requires InRange(db, t, ColumnsOf(schema[t], db[t][r])[c], value)
    requires c == 0 && HasVariableRecords(schema[t]) ==> value < |schema[t].recordDefs|
    ensures MayStand(schema, db, t, WithValue(schema[t], db[t][r], r, c, value))
  {
    hide SchemaIsValid, InRange, RefsExist, IsTable, ColumnIsValid, FitsColumn, DefaultValues, MayStand;
    var table, rec := schema[t], db[t][r];
    var col := ColumnsOf(table, rec)[c];
    ColumnFacts(schema, db, t, r, c);
    InRangeIsLegal(schema, db, t, col, value);
    StandingRecord(schema, db, t, r);
    if c == 0 && HasVariableRecords(table) {
      FirstColumnIsReal(schema, t, value);
      NewTypeMayStand(schema, db, t, r, value, col);
    } else {
      OneValueMayStand(schema, db, t, rec, c, value);
    }
  }

  lemma OneValueMayStand(schema: Tables, db: Db, t: nat, rec: Record, c: nat, value: uint16)
    requires |db| == |schema| && t < |db| && MayStand(schema, db, t, rec) && c < |rec|
    requires c == 0 ==> !HasVariableRecords(schema[t])
    requires FitsColumn(ColumnsOf(schema[t], rec)[c], value)
    requires forall u: nat :: u < |db| && RefersTo(ColumnsOf(schema[t], rec)[c], t, u) ==> value < |db[u]|
    ensures MayStand(schema, db, t, rec[c := value])
  {
    hide FitsColumn, RefersTo;
    var after := rec[c := value];
    assert ColumnsOf(schema[t], after) == ColumnsOf(schema[t], rec);
    forall u: nat, i: nat | u < |db| && IsRef(schema[t], t, after, i, u)
      ensures after[i] < |db[u]|
    {
      assert IsRef(schema[t], t, rec, i, u);
      assert RefsBelow(schema[t], t, rec, u, |db[u]|);
    }
  }

  lemma NewTypeMayStand(schema: Tables, db: Db, t: nat, r: nat, value: uint16, col: Column)
    requires SchemaIsValid(schema) && IsPopulated(schema, db) && t < |db| && r < |db[t]|
    requires HasVariableRecords(schema[t]) && value < |schema[t].recordDefs|
    requires schema[t].recordDefs[value] != [] && db[t][r] != []
    requires RecordDefId(schema[t], db[t][r][0]) < |schema[t].recordDefs|
    requires ColumnsOf(schema[t], db[t][r]) != [] && col == ColumnsOf(schema[t], db[t][r])[0] && FitsColumn(col, value)
    ensures MayStand(schema, db, t, WithValue(schema[t], db[t][r], r, 0, value))
  {
    var rec := WithValue(schema[t], db[t][r], r, 0, value);
    TableSizes(schema, t);
    FirstColumnIsReal(schema, t, value);
    SchemaColumn(schema, t, value, 0);
    SchemaColumn(schema, t, RecordDefId(schema[t], db[t][r][0]), 0);
    assert IsTable(schema[t], db[t]);
    hide SchemaIsValid, DefaultValues, FitsColumn;
    DefaultsAreRecord(schema, t, value, r, rec);
  }

  lemma SetRecordMayStand(schema: Tables, db: Db, t: nat, data: seq<uint16>)
    requires SchemaIsValid(schema) && IsPopulated(schema, db) && t < |db|
    requires HasType(schema[t], data) && AcceptsRecord(schema[t], db, t, data)
    ensures MayStand(schema, db, t, data[..NumReal(ColumnsOf(schema[t], data))])
  {
    var table, cols := schema[t], ColumnsOf(schema[t], data);
    var d := RecordDefId(table, data[0]);
    var rec := data[..NumReal(cols)];
    FirstColumnIsReal(schema, t, d);
    forall c | 0 <= c < |rec|
      ensures FitsColumn(cols[c], rec[c])
      ensures forall u: nat :: u < |db| && RefersTo(cols[c], t, u) ==> rec[c] < |db[u]|
    {
      SchemaColumn(schema, t, d, c);
      InRangeIsLegal(schema, db, t, cols[c], data[c]);
    }
    hide SchemaIsValid, IsPopulated, AcceptsRecord;
    forall u: nat, c: nat | u < |db| && IsRef(table, t, rec, c, u)
      ensures rec[c] < |db[u]|
    {
      assert RefersTo(cols[c], t, u);
    }
  }

  /** Closing without syncing keeps every reference exactly when the older contents of each record whose
      changes are lost resolve. */
  lemma ReopenKeepsIntegrityIff(schema: Tables, db: Db, stored: Db)
    requires IsConsistent(schema, db) && MayBeStored(schema, db, stored)
    ensures IsPopulated(schema, stored)
    ensures IsConsistent(schema, stored) <==> LosesNoTarget(schema, db, Reopen(stored))
  {
    hide IsRecord, RefsBelow, IsTable;
    if LosesNoTarget(schema, db, Reopen(stored)) {
      forall t: nat, r: nat, u: nat | t < |stored| && r < |stored[t]| && u < |stored|
        ensures RefsBelow(schema[t], t, stored[t][r], u, |stored[u]|)
      {
        if stored[t][r] != db[t][r] {
          assert Resolves(schema, db, t, stored[t][r]);
        }
      }
    }
  }

  /** Every API call keeps the database consistent: all records complete and in range, every
      reference denoting an existing record. */
  lemma CallKeepsConsistency(schema: Tables, db: Db, op: Op)
    requires SchemaIsValid(schema) && IsConsistent(schema, db)
    requires IdsExist(schema, db, op) && IsSafe(schema, db, op) && LosesNoTarget(schema, db, op)
    ensures IsConsistent(schema, Apply(schema, db, op))
  {
    hide SchemaIsValid, IsPopulated, RefsExist, MayStand, IsReferenced, AcceptsRecord, WithValue, InRange;
    if Accepts(schema, db, op) {
      match op
      case SetValue(t, r, c, value) =>
        AcceptedInRange(db, t, ColumnsOf(schema[t], db[t][r])[c], value);
        TypeValueInRange(schema, db, t, r, c, value);
        SetValueMayStand(schema, db, t, r, c, value);
        ReplaceKeeps(schema, db, t, r, WithValue(schema[t], db[t][r], r, c, value));
      case ChangeValue(t, r, c, delta) =>
        NewValueFits(schema, db, t, r, c, delta);
        NewTypeInRange(schema, db, t, r, c, delta);
        SetValueMayStand(schema, db, t, r, c, NewValue(schema, db, t, r, c, delta));
        ReplaceKeeps(schema, db, t, r, WithValue(schema[t], db[t][r], r, c, NewValue(schema, db, t, r, c, delta)));
      case SetRecord(t, r, data) =>
        SetRecordMayStand(schema, db, t, data);
        ReplaceKeeps(schema, db, t, r, data[..NumReal(ColumnsOf(schema[t], data))]);
      case InsertAfter(t, r) =>
        InsertKeepsIntegrity(schema, db, t, r);
      case Delete(t, r) =>
        DeleteKeepsIntegrity(schema, db, t, r);
      case Reopen(stored) =>
        ReopenKeepsIntegrityIff(schema, db, stored);
    }
  }

  lemma AcceptedInRange(db: Db, t: nat, col: Column, value: uint16)
    requires AcceptsValue(db, t, col, value)
    ensures InRange(db, t, col, value)
  {
  }

  // ---- whole runs ----

  /** Every call of the run names existing records and columns and does not overflow in steps of more
      than one, and nothing is closed while a change that is still needed has not been stored. */
  ghost predicate RunIsLegal(schema: Tables, db: Db, ops: seq<Op>)
    requires SchemaIsValid(schema) && IsConsistent(schema, db)
    decreases |ops|
  {
    ops == [] ||
    (&& IdsExist(schema, db, ops[0]) && IsSafe(schema, db, ops[0]) && LosesNoTarget(schema, db, ops[0])
     && (CallKeepsConsistency(schema, db, ops[0]); RunIsLegal(schema, Apply(schema, db, ops[0]), ops[1..])))
  }

  ghost function Run(schema: Tables, db: Db, ops: seq<Op>): Db
    requires SchemaIsValid(schema) && IsConsistent(schema, db) && RunIsLegal(schema, db, ops)
    decreases |ops|
  {
    if ops == [] then db
    else
      CallKeepsConsistency(schema, db, ops[0]);
      Run(schema, Apply(schema, db, ops[0]), ops[1..])
  }

  /** Referential integrity over all runs. */
  lemma {:induction false} RunsKeepIntegrity(schema: Tables, db: Db, ops: seq<Op>)
    requires SchemaIsValid(schema) && IsConsistent(schema, db) && RunIsLegal(schema, db, ops)
    ensures IsConsistent(schema, Run(schema, db, ops))
    decreases |ops|
  {
    hide SchemaIsValid, IsPopulated, RefsExist, Apply, IdsExist, IsSafe, LosesNoTarget;
    if ops != [] {
      CallKeepsConsistency(schema, db, ops[0]);
      RunsKeepIntegrity(schema, Apply(schema, db, ops[0]), ops[1..]);
    }
  }
}
