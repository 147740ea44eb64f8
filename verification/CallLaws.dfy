/** What the calls of src/BitsOfData.c do to the database, told from the schema's own fields: which values
    are accepted, and what stands in every cell afterwards. */
module CallLaws {
  import opened MachineInts
  import opened Schema
  import opened LogicalDatabase
  import opened ValueSteps
  import opened OpeningSteps
  import opened TableImport
  import R = DatabaseRuns

  // ---- columns and values, as the schema declares them ----

  /** The column holds a value of its own. */
  predicate HasData(col: Column) {
    !col.colType.Str? && !col.colType.Virtual? && !col.colType.TxtListClone?
  }

  function DeclaredStep(col: Column): Stride {
    if col.colType.IntStep? then col.colType.intStep
    else if col.colType.Decimal? then col.colType.decStep
    else 1
  }

  predicate LeadsTo(col: Column, t: nat, target: nat) {
    col.colType.Reference? && (col.colType.refTable == target || (col.colType.refTable == 0xFF && t == target))
  }

  /** The greatest value of a column: of a reference, the last record of the table it leads to. */
  function Greatest(db: Db, t: nat, col: Column): int {
    if !col.colType.Reference? then col.maxValue
    else
      var target := if col.colType.refTable == 0xFF then t else col.colType.refTable;
      if target < |db| then |db[target]| - 1 else col.maxValue
  }

  predicate IsLegal(db: Db, t: nat, col: Column, value: int) {
    HasData(col) && col.minValue <= value <= Greatest(db, t, col) && (value - col.minValue) % DeclaredStep(col) == 0
  }

  /** The value a new record gets: the declared default, and its number above the minimum in a child column. */
  function DeclaredDefault(col: Column, id: nat): int {
    if col.colType.ChildTable? then col.minValue + id else col.defaultVal
  }

  /** A record of this definition, with the defaults from column `start` on. */
  predicate HoldsDefaults(rec: Record, cols: RecordDef, id: nat, start: nat) {
    && |rec| <= |cols| && (forall c :: 0 <= c < |rec| ==> HasData(cols[c]))
    && (|rec| < |cols| ==> !HasData(cols[|rec|]))
    && forall c :: start <= c < |rec| ==> rec[c] == DeclaredDefault(cols[c], id)
  }

  /** Nothing but record (t, r) is different. */
  predicate OnlyRecordChanges(db: Db, after: Db, t: nat, r: nat) {
    && |after| == |db| && t < |db| && r < |db[t]| == |after[t]|
    && (forall u :: 0 <= u < |db| && u != t ==> after[u] == db[u])
    && forall i :: 0 <= i < |db[t]| && i != r ==> after[t][i] == db[t][i]
  }

  /** Nothing but its column c is different. */
  predicate OnlyCellChanges(db: Db, after: Db, t: nat, r: nat, c: nat) {
    && OnlyRecordChanges(db, after, t, r) && c < |db[t][r]| == |after[t][r]|
    && forall i :: 0 <= i < |db[t][r]| && i != c ==> after[t][r][i] == db[t][r][i]
  }

  /** What the reference definitions above say is what the checks compute. */
  lemma LegalIsInRange(schema: Tables, db: Db, t: nat, d: nat, c: nat, value: uint16)
    requires SchemaIsValid(schema) && IsPopulated(schema, db) && t < |db|
    requires d < |schema[t].recordDefs| && c < |schema[t].recordDefs[d]|
    ensures var col := schema[t].recordDefs[d][c];
            && Greatest(db, t, col) == MaxValueOf(db, t, col) && DeclaredStep(col) == Step(col)
            && (IsLegal(db, t, col, value) <==> InRange(db, t, col, value) && !IsVirtual(col))
            && (c < NumReal(schema[t].recordDefs[d]) <==> HasData(col))
  {
    var col := schema[t].recordDefs[d][c];
    SchemaColumn(schema, t, d, c);
    RealColumns(schema[t].recordDefs[d], c);
    if col.colType.Reference? {
      assert IsTable(schema[TargetTable(col.colType, t)], db[TargetTable(col.colType, t)]);
      R.TableSizes(schema, TargetTable(col.colType, t));
    }
    hide SchemaIsValid, IsPopulated;
  }

  /** The columns of a record of the database. */
  lemma RecordColumns(schema: Tables, db: Db, t: nat, r: nat)
    requires IsPopulated(schema, db) && t < |db| && r < |db[t]|
    ensures |db| == |schema| && db[t][r] != [] && RecordDefId(schema[t], db[t][r][0]) < |schema[t].recordDefs|
    ensures |db[t][r]| == NumReal(ColumnsOf(schema[t], db[t][r]))
  {
    assert IsTable(schema[t], db[t]);
  }

  /** A record is of the type in its column 0, where there is more than one. */
  lemma TypeIsColumn0(schema: Tables, db: Db, t: nat, r: nat)
    requires SchemaIsValid(schema) && IsPopulated(schema, db) && t < |db| && r < |db[t]|
    ensures db[t][r] != [] && RecordDefId(schema[t], db[t][r][0]) < |schema[t].recordDefs|
    ensures var d: nat := if |schema[t].recordDefs| > 1 then db[t][r][0] else 0;
            d < |schema[t].recordDefs| && ColumnsOf(schema[t], db[t][r]) == schema[t].recordDefs[d]
  {
    RecordColumns(schema, db, t, r);
    R.ColumnFacts(schema, db, t, r, 0);
    R.TableSizes(schema, t);
    hide SchemaIsValid, IsPopulated;
  }

  // ---- setting values ----

  lemma CellSet(db: Db, t: nat, r: nat, c: nat, value: uint16)
    requires t < |db| && r < |db[t]| && c < |db[t][r]|
    ensures OnlyCellChanges(db, R.WithRecord(db, t, r, db[t][r][c := value]), t, r, c)
  {
  }

  lemma RecordSet(db: Db, t: nat, r: nat, rec: Record)
    requires t < |db| && r < |db[t]|
    ensures OnlyRecordChanges(db, R.WithRecord(db, t, r, rec), t, r) && R.WithRecord(db, t, r, rec)[t][r] == rec
  {
  }

  /** The record after its type has been set. */
  lemma NewTypeDefaults(schema: Tables, t: nat, rec: Record, r: nat, value: uint16)
    requires SchemaIsValid(schema) && t < |schema| && HasVariableRecords(schema[t]) && value < |schema[t].recordDefs|
    requires rec != [] && r < schema[t].maxNumRecords
    ensures var after := WithValue(schema[t], rec, r, 0, value);
            after != [] && after[0] == value && HoldsDefaults(after, schema[t].recordDefs[value], r, 1)
  {
    var cols := schema[t].recordDefs[value];
    FirstColumnIsReal(schema, t, value);
    var after := WithValue(schema[t], rec, r, 0, value);
    forall c | 1 <= c < NumReal(cols)
      ensures DefaultValue(cols[c], r) == DeclaredDefault(cols[c], r)
    {
      DefaultIsDeclared(schema, t, value, c, r);
    }
    hide SchemaIsValid, DefaultValue;
    assert |after| == NumReal(cols);
    assert forall c :: 1 <= c < |after| ==>
        after[c] == DefaultValues(cols, r)[1..NumReal(cols)][c - 1] == DefaultValue(cols[c], r);
  }

  /** The default of a column with data is the declared one, in a child column the record's number above
      the minimum. */
  lemma DefaultIsDeclared(schema: Tables, t: nat, d: nat, c: nat, id: nat)
    requires SchemaIsValid(schema) && t < |schema| && d < |schema[t].recordDefs| && c < NumReal(schema[t].recordDefs[d])
    requires id < schema[t].maxNumRecords
    ensures var col := schema[t].recordDefs[d][c];
            DefaultValue(col, id) == DeclaredDefault(col, id)
  {
    SchemaColumn(schema, t, d, c);
    R.TableSizes(schema, t);
    assert |schema| <= 250;
    hide SchemaIsValid;
  }

  /** What one more value does, whatever computed it. */
  lemma ValueSet(schema: Tables, db: Db, t: nat, r: nat, c: nat, value: uint16)
    requires SchemaIsValid(schema) && IsPopulated(schema, db) && t < |db| && r < |db[t]| && c < |db[t][r]|
    requires c == 0 && HasVariableRecords(schema[t]) ==> value < |schema[t].recordDefs|
    ensures var after := R.WithRecord(db, t, r, WithValue(schema[t], db[t][r], r, c, value));
            && OnlyRecordChanges(db, after, t, r) && c < |after[t][r]| && after[t][r][c] == value
            && (c > 0 || |schema[t].recordDefs| == 1 ==> OnlyCellChanges(db, after, t, r, c))
            && (c == 0 && |schema[t].recordDefs| > 1 ==>
                  HoldsDefaults(after[t][r], schema[t].recordDefs[value], r, 1))
  {
    R.TableSizes(schema, t);
    assert IsTable(schema[t], db[t]);
    RecordSet(db, t, r, WithValue(schema[t], db[t][r], r, c, value));
    if c == 0 && HasVariableRecords(schema[t]) {
      NewTypeDefaults(schema, t, db[t][r], r, value);
    } else {
      CellSet(db, t, r, c, value);
    }
    hide SchemaIsValid, IsPopulated, HoldsDefaults, OnlyRecordChanges, OnlyCellChanges;
  }

  /** BDB_setValue accepts exactly the legal values of columns with data that name no child. Then the value
      stands in its cell and nothing else has changed, except that a new record type brings its defaults;
      otherwise nothing has changed. */
  lemma SetValueLaw(schema: Tables, db: Db, t: nat, r: nat, c: nat, value: uint16)
    requires SchemaIsValid(schema) && IsPopulated(schema, db) && R.IdsExist(schema, db, R.SetValue(t, r, c, value))
    ensures var (op, col) := (R.SetValue(t, r, c, value), ColumnsOf(schema[t], db[t][r])[c]);
            var after := R.Apply(schema, db, op);
            && (R.Accepts(schema, db, op) <==> IsLegal(db, t, col, value) && !col.colType.ChildTable?)
            && (!R.Accepts(schema, db, op) ==> after == db)
            && (R.Accepts(schema, db, op) ==>
                  && OnlyRecordChanges(db, after, t, r) && c < |after[t][r]| && after[t][r][c] == value
                  && (c > 0 || |schema[t].recordDefs| == 1 ==> OnlyCellChanges(db, after, t, r, c))
                  && (c == 0 && |schema[t].recordDefs| > 1 ==>
                        value < |schema[t].recordDefs| && HoldsDefaults(after[t][r], schema[t].recordDefs[value], r, 1)))
  {
    RecordColumns(schema, db, t, r);
    LegalIsInRange(schema, db, t, RecordDefId(schema[t], db[t][r][0]), c, value);
    hide SchemaIsValid, IsPopulated, InRange, IsLegal, HasData, OnlyRecordChanges, OnlyCellChanges,
      HoldsDefaults, WithValue;
    if R.Accepts(schema, db, R.SetValue(t, r, c, value)) {
      R.TypeValueInRange(schema, db, t, r, c, value);
      ValueSet(schema, db, t, r, c, value);
    }
  }

  // ---- changing values ----

  /** The number from -0x8000 to 0x7FFF with the same low 16 bits. */
  function Signed(x: int): int {
    (x + 0x8000) % 0x1_0000 - 0x8000
  }

  function Between(lo: int, x: int, hi: int): int {
    if x >= hi then hi else if x <= lo then lo else x
  }

  lemma SignedIsInt16(x: int)
    ensures ToInt16(x) == Signed(x) && ToUint16(x) == x % 0x1_0000
  {
  }

  lemma SumOfSigned(a: int, b: int)
    ensures Signed(Signed(a) + Signed(b)) == Signed(a + b)
  {
  }

  /** BDB_changeValue, for all changes: the old value plus delta steps, in 16 bits with sign, limited to
      minimum and current maximum. It reports whether that differs from the old value. */
  lemma ChangeValueLaw(schema: Tables, db: Db, t: nat, r: nat, c: nat, delta: int)
    requires SchemaIsValid(schema) && IsPopulated(schema, db) && R.IdsExist(schema, db, R.ChangeValue(t, r, c, delta))
    ensures var (op, col) := (R.ChangeValue(t, r, c, delta), ColumnsOf(schema[t], db[t][r])[c]);
            var after := R.Apply(schema, db, op);
            && (!HasData(col) || col.colType.ChildTable? ==> !R.Accepts(schema, db, op))
            && (!R.Accepts(schema, db, op) ==> after == db)
            && (HasData(col) && !col.colType.ChildTable? ==>
                  && c < |db[t][r]|
                  && var value := Between(Signed(col.minValue), Signed(db[t][r][c] + delta * DeclaredStep(col)),
                                          Signed(Greatest(db, t, col))) % 0x1_0000;
                     && (R.Accepts(schema, db, op) <==> value != db[t][r][c])
                     && (R.Accepts(schema, db, op) ==>
                           && OnlyRecordChanges(db, after, t, r) && c < |after[t][r]| && after[t][r][c] == value
                           && (c > 0 || |schema[t].recordDefs| == 1 ==> OnlyCellChanges(db, after, t, r, c))
                           && (c == 0 && |schema[t].recordDefs| > 1 ==>
                                 value < |schema[t].recordDefs|
                                 && HoldsDefaults(after[t][r], schema[t].recordDefs[value], r, 1))))
  {
    RecordColumns(schema, db, t, r);
    var col := ColumnsOf(schema[t], db[t][r])[c];
    LegalIsInRange(schema, db, t, RecordDefId(schema[t], db[t][r][0]), c, 0);
    if HasData(col) && !col.colType.ChildTable? {
      R.NewTypeInRange(schema, db, t, r, c, delta);
      NewValueIs(schema, db, t, r, c, delta);
      hide SchemaIsValid, IsPopulated, IsLegal, InRange, HasData, OnlyRecordChanges, OnlyCellChanges,
        HoldsDefaults, WithValue, R.NewValue, Signed, Between, DeclaredStep, Greatest, MaxValueOf;
      ValueSet(schema, db, t, r, c, R.NewValue(schema, db, t, r, c, delta));
    }
  }

  lemma NewValueIs(schema: Tables, db: Db, t: nat, r: nat, c: nat, delta: int)
    requires SchemaIsValid(schema) && IsPopulated(schema, db) && t < |db| && r < |db[t]| && c < |db[t][r]|
    requires R.HasColumn(schema[t], db[t][r], c)
    ensures var col := ColumnsOf(schema[t], db[t][r])[c];
            R.NewValue(schema, db, t, r, c, delta)
            == Between(Signed(col.minValue), Signed(db[t][r][c] + delta * DeclaredStep(col)), Signed(Greatest(db, t, col)))
               % 0x1_0000
  {
    var col := ColumnsOf(schema[t], db[t][r])[c];
    LegalIsInRange(schema, db, t, RecordDefId(schema[t], db[t][r][0]), c, 0);
    hide SchemaIsValid, IsPopulated, IsLegal, InRange, Greatest, MaxValueOf, DeclaredStep, Step, ToInt16,
      Signed, ToUint16;
    ChangedInInt16(col.minValue, db[t][r][c], delta * Step(col), MaxValueOf(db, t, col));
  }

  lemma ChangedInInt16(lo: int, value: int, d: int, hi: int)
    ensures ToUint16(LimitValue(ToInt16(lo), ToInt16(ToInt16(value) + ToInt16(d)), ToInt16(hi)))
         == Between(Signed(lo), Signed(value + d), Signed(hi)) % 0x1_0000
  {
    SignedIsInt16(lo);
    SignedIsInt16(value);
    SignedIsInt16(d);
    SignedIsInt16(hi);
    SignedIsInt16(Signed(value) + Signed(d));
    SumOfSigned(value, d);
    SignedIsInt16(Between(Signed(lo), Signed(value + d), Signed(hi)));
    hide ToInt16, Signed, ToUint16;
  }

  /** Where the sum does not overflow and the limits lie on one side of 0x8000 this is addition, clamped to
      minimum and current maximum. */
  lemma ChangeIsClamped(schema: Tables, db: Db, t: nat, r: nat, c: nat, delta: int)
    requires SchemaIsValid(schema) && IsPopulated(schema, db) && R.IdsExist(schema, db, R.ChangeValue(t, r, c, delta))
    requires var col := ColumnsOf(schema[t], db[t][r])[c];
             && HasData(col) && !col.colType.ChildTable? && c < |db[t][r]|
             && (Greatest(db, t, col) < 0x8000 || col.minValue >= 0x8000)
             && var low := if col.minValue >= 0x8000 then 0x8000 else -0x8000;
                low <= db[t][r][c] + delta * DeclaredStep(col) < low + 0x1_0000
    ensures var (op, col) := (R.ChangeValue(t, r, c, delta), ColumnsOf(schema[t], db[t][r])[c]);
            var (after, sum) := (R.Apply(schema, db, op), db[t][r][c] + delta * DeclaredStep(col));
            var clamped := if sum > Greatest(db, t, col) then Greatest(db, t, col)
                           else if sum < col.minValue then col.minValue else sum;
            && (R.Accepts(schema, db, op) <==> clamped != db[t][r][c])
            && (R.Accepts(schema, db, op) ==>
                  && OnlyRecordChanges(db, after, t, r) && c < |after[t][r]| && after[t][r][c] == clamped
                  && (c > 0 || |schema[t].recordDefs| == 1 ==> OnlyCellChanges(db, after, t, r, c)))
            && (!R.Accepts(schema, db, op) ==> after == db)
  {
    var col := ColumnsOf(schema[t], db[t][r])[c];
    var max := Greatest(db, t, col);
    ChangeValueLaw(schema, db, t, r, c, delta);
    RecordColumns(schema, db, t, r);
    LegalIsInRange(schema, db, t, RecordDefId(schema[t], db[t][r][0]), c, 0);
    GreatestIsLegal(schema, db, t, r, c);
    hide *;
    ClampedSum(col.minValue, db[t][r][c] + delta * DeclaredStep(col), max);
  }

  lemma GreatestIsLegal(schema: Tables, db: Db, t: nat, r: nat, c: nat)
    requires SchemaIsValid(schema) && IsPopulated(schema, db) && t < |db| && r < |db[t]| && c < |db[t][r]|
    requires R.HasColumn(schema[t], db[t][r], c)
    ensures var col := ColumnsOf(schema[t], db[t][r])[c];
            col.minValue <= Greatest(db, t, col) <= 0xFFFF && IsLegal(db, t, col, Greatest(db, t, col))
  {
    var col := ColumnsOf(schema[t], db[t][r])[c];
    RecordColumns(schema, db, t, r);
    R.ColumnFacts(schema, db, t, r, c);
    R.MaxValueFacts(schema, db, t, col);
    LegalIsInRange(schema, db, t, RecordDefId(schema[t], db[t][r][0]), c, MaxValueOf(db, t, col));
    hide SchemaIsValid, IsPopulated, Greatest, DeclaredStep, Step, MaxValueOf;
  }

  lemma ClampedSum(lo: uint16, sum: int, hi: int)
    requires lo <= hi <= 0xFFFF && (hi < 0x8000 || lo >= 0x8000)
    requires var low := if lo >= 0x8000 then 0x8000 else -0x8000; low <= sum < low + 0x1_0000
    ensures Between(Signed(lo), Signed(sum), Signed(hi)) % 0x1_0000
         == if sum > hi then hi else if sum < lo then lo else sum
  {
  }

  // ---- whole records ----

  /** The real columns of the data are legal values. */
  predicate IsLegalData(db: Db, t: nat, cols: RecordDef, data: seq<uint16>) {
    forall c :: 0 <= c < |cols| && c < |data| && HasData(cols[c]) ==> IsLegal(db, t, cols[c], data[c])
  }

  lemma AcceptedIsLegal(schema: Tables, db: Db, t: nat, data: seq<uint16>)
    requires SchemaIsValid(schema) && IsPopulated(schema, db) && t < |db| && HasType(schema[t], data)
    ensures AcceptsRecord(schema[t], db, t, data) <==> IsLegalData(db, t, ColumnsOf(schema[t], data), data)
  {
    var d, cols := RecordDefId(schema[t], data[0]), ColumnsOf(schema[t], data);
    forall c | 0 <= c < |cols|
      ensures c < NumReal(cols) <==> HasData(cols[c])
      ensures c < NumReal(cols) ==> (InRange(db, t, cols[c], data[c]) <==> IsLegal(db, t, cols[c], data[c]))
    {
      LegalIsInRange(schema, db, t, d, c, if c < |data| then data[c] else 0);
      RealIsData(schema, t, d, c);
    }
    hide SchemaIsValid, IsPopulated, InRange, IsLegal, HasData;
  }

  lemma RealIsData(schema: Tables, t: nat, d: nat, c: nat)
    requires SchemaIsValid(schema) && t < |schema| && d < |schema[t].recordDefs| && c < |schema[t].recordDefs[d]|
    ensures c < NumReal(schema[t].recordDefs[d]) <==> !IsVirtual(schema[t].recordDefs[d][c])
  {
    SchemaColumn(schema, t, d, c);
    RealColumns(schema[t].recordDefs[d], c);
  }

  /** A legal value fits its column, and a legal reference resolves: so accepted data is exactly what may
      stand in the table. */
  lemma AcceptedMayStandIff(schema: Tables, db: Db, t: nat, data: seq<uint16>)
    requires SchemaIsValid(schema) && IsPopulated(schema, db) && t < |db| && HasType(schema[t], data)
    ensures AcceptsRecord(schema[t], db, t, data)
            <==> R.MayStand(schema, db, t, data[..NumReal(ColumnsOf(schema[t], data))])
  {
    var cols := ColumnsOf(schema[t], data);
    var rec := data[..NumReal(cols)];
    if AcceptsRecord(schema[t], db, t, data) {
      R.SetRecordMayStand(schema, db, t, data);
    }
    if R.MayStand(schema, db, t, rec) {
      forall c | 0 <= c < NumReal(cols)
        ensures InRange(db, t, cols[c], data[c])
      {
        assert rec[c] == data[c] && ColumnsOf(schema[t], rec) == cols;
        StandingIsInRange(schema, db, t, rec, c);
      }
    }
  }

  lemma StandingIsInRange(schema: Tables, db: Db, t: nat, rec: Record, c: nat)
    requires SchemaIsValid(schema) && IsPopulated(schema, db) && t < |db| && c < |rec| && R.MayStand(schema, db, t, rec)
    ensures rec != [] && RecordDefId(schema[t], rec[0]) < |schema[t].recordDefs| && c < |ColumnsOf(schema[t], rec)|
    ensures InRange(db, t, ColumnsOf(schema[t], rec)[c], rec[c])
  {
    var col := ColumnsOf(schema[t], rec)[c];
    SchemaColumn(schema, t, RecordDefId(schema[t], rec[0]), c);
    if col.colType.Reference? {
      var target := TargetTable(col.colType, t);
      assert IsRef(schema[t], t, rec, c, target);
      assert RefsBelow(schema[t], t, rec, target, |db[target]|);
      R.TableSizes(schema, target);
      assert IsTable(schema[target], db[target]);
    }
    hide SchemaIsValid, IsPopulated, Step;
  }

  /** BDB_setRecord accepts exactly data of a defined type whose real columns are legal; then these are the
      record and no other record has changed, otherwise nothing has. */
  lemma SetRecordLaw(schema: Tables, db: Db, t: nat, r: nat, data: seq<uint16>)
    requires SchemaIsValid(schema) && IsPopulated(schema, db) && R.IdsExist(schema, db, R.SetRecord(t, r, data))
    ensures var op := R.SetRecord(t, r, data);
            var after := R.Apply(schema, db, op);
            && (R.Accepts(schema, db, op)
                <==> RecordDefId(schema[t], data[0]) < |schema[t].recordDefs|
                     && IsLegalData(db, t, ColumnsOf(schema[t], data), data))
            && (!R.Accepts(schema, db, op) ==> after == db)
            && (R.Accepts(schema, db, op) ==>
                  && OnlyRecordChanges(db, after, t, r) && after[t][r] <= data
                  && var (cols, n) := (ColumnsOf(schema[t], data), |after[t][r]|);
                     && n <= |cols| && (forall c :: 0 <= c < n ==> HasData(cols[c]))
                     && (n < |cols| ==> !HasData(cols[n])))
  {
    if HasType(schema[t], data) {
      AcceptedIsLegal(schema, db, t, data);
      var cols := ColumnsOf(schema[t], data);
      RealAreData(cols);
      RecordSet(db, t, r, data[..NumReal(cols)]);
    }
    hide SchemaIsValid, IsPopulated, OnlyRecordChanges, AcceptsRecord, IsLegalData, HasData, R.WithRecord, NumReal;
  }

  lemma RealAreData(cols: RecordDef)
    ensures forall c :: 0 <= c < NumReal(cols) ==> HasData(cols[c])
    ensures NumReal(cols) < |cols| ==> !HasData(cols[NumReal(cols)])
  {
  }

  // ---- inserting, deleting, creating ----

  /** BDB_insertRecordAfter inserts exactly while the table is not full. The new record stands behind the
      given one and has the defaults of the first type. */
  lemma InsertLaw(schema: Tables, db: Db, t: nat, r: nat)
    requires SchemaIsValid(schema) && IsPopulated(schema, db) && R.IdsExist(schema, db, R.InsertAfter(t, r))
    ensures var op := R.InsertAfter(t, r);
            var after := R.Apply(schema, db, op);
            && (R.Accepts(schema, db, op) <==> |db[t]| < schema[t].maxNumRecords)
            && (!R.Accepts(schema, db, op) ==> after == db)
            && (R.Accepts(schema, db, op) ==>
                  && |after| == |db| && |after[t]| == |db[t]| + 1 && schema[t].recordDefs != []
                  && HoldsDefaults(after[t][r + 1], schema[t].recordDefs[0], r + 1, 0))
  {
    if |db[t]| < schema[t].maxNumRecords {
      DefaultIsRecord(schema, t, 0);
      DefaultRecordHolds(schema, t, r + 1);
      InsertedTable(schema, db, t, r, t);
    }
    hide SchemaIsValid, IsPopulated, Insert, HoldsDefaults, DefaultRecord;
  }

  lemma DefaultRecordHolds(schema: Tables, t: nat, id: nat)
    requires SchemaIsValid(schema) && t < |schema| && schema[t].recordDefs != [] && id < schema[t].maxNumRecords
    ensures HoldsDefaults(DefaultRecord(schema[t], id), schema[t].recordDefs[0], id, 0)
  {
    var cols := schema[t].recordDefs[0];
    forall c | 0 <= c < NumReal(cols)
      ensures DefaultValue(cols[c], id) == DeclaredDefault(cols[c], id)
    {
      DefaultIsDeclared(schema, t, 0, c, id);
    }
    RealAreData(cols);
    hide SchemaIsValid, DefaultValue, HasData;
  }

  /** A new database has one record in every table, with the defaults of the first type. */
  lemma InitialLaw(schema: Tables, t: nat)
    requires SchemaIsValid(schema) && t < |schema|
    ensures |InitialDb(schema)| == |schema| && |InitialDb(schema)[t]| == 1 && schema[t].recordDefs != []
    ensures HoldsDefaults(InitialDb(schema)[t][0], schema[t].recordDefs[0], 0, 0)
  {
    R.TableSizes(schema, t);
    DefaultRecordHolds(schema, t, 0);
    hide SchemaIsValid, HoldsDefaults, DefaultRecord;
  }

  /** BDB_deleteRecord deletes exactly when another record remains in the table and no reference in another
      record denotes this one. */
  lemma DeleteLaw(schema: Tables, db: Db, t: nat, r: nat)
    requires SchemaIsValid(schema) && IsPopulated(schema, db) && R.IdsExist(schema, db, R.Delete(t, r))
    ensures forall u: nat, i: nat :: u < |db| && i < |db[u]| ==>
              db[u][i] != [] && RecordDefId(schema[u], db[u][i][0]) < |schema[u].recordDefs|
              && |db[u][i]| <= |ColumnsOf(schema[u], db[u][i])|
    ensures R.Accepts(schema, db, R.Delete(t, r))
            <==> |db[t]| > 1
                 && forall u: nat, i: nat, c: nat ::
                      u < |db| && i < |db[u]| && c < |db[u][i]| && !(u == t && i == r) && db[u][i][c] == r ==>
                        !LeadsTo(ColumnsOf(schema[u], db[u][i])[c], u, t)
  {
    forall u: nat, i: nat | u < |db| && i < |db[u]|
      ensures db[u][i] != [] && RecordDefId(schema[u], db[u][i][0]) < |schema[u].recordDefs|
      ensures |db[u][i]| <= |ColumnsOf(schema[u], db[u][i])|
    {
      RecordColumns(schema, db, u, i);
    }
    forall u: nat, i: nat, c: nat | u < |db| && i < |db[u]| && c < |db[u][i]|
      ensures IsRef(schema[u], u, db[u][i], c, t) <==> LeadsTo(ColumnsOf(schema[u], db[u][i])[c], u, t)
    {
      assert |schema| <= 250;
    }
    hide SchemaIsValid, IsPopulated, LeadsTo, RecordDefId;
    RefsAreCells(schema, db, t);
  }

  lemma RefsAreCells(schema: Tables, db: Db, t: nat)
    requires |db| == |schema|
    ensures forall u: nat, i: nat, c: nat ::
              u < |db| && i < |db[u]| && IsRef(schema[u], u, db[u][i], c, t) ==> c < |db[u][i]|
  {
  }

  lemma CellIsSmall(schema: Tables, db: Db, t: nat, r: nat, c: nat, target: nat)
    requires SchemaIsValid(schema) && IsPopulated(schema, db) && t < |db| && r < |db[t]| && c < |db[t][r]| && target < |db|
    ensures R.HasColumn(schema[t], db[t][r], c)
    ensures IsRef(schema[t], t, db[t][r], c, target) <==> LeadsTo(ColumnsOf(schema[t], db[t][r])[c], t, target)
    ensures LeadsTo(ColumnsOf(schema[t], db[t][r])[c], t, target) ==> db[t][r][c] < 250
  {
    RecordColumns(schema, db, t, r);
    R.RecordStands(schema, db, t, r);
    assert |schema| <= 250;
    if IsRef(schema[t], t, db[t][r], c, target) {
      RefColumn(schema, t, db[t][r], c, target);
      R.TableSizes(schema, target);
    }
    hide SchemaIsValid, IsPopulated;
  }

  lemma ShiftedCell(schema: Tables, db: Db, u: nat, i: nat, c: nat, t: nat, k: nat, up: bool)
    requires SchemaIsValid(schema) && IsPopulated(schema, db) && u < |db| && i < |db[u]| && c < |db[u][i]| && t < |db|
    ensures var s := ShiftRecord(schema[u], u, db[u][i], t, k, up);
            && |s| == |db[u][i]| && R.HasColumn(schema[u], db[u][i], c)
            && s[c] == Moved(db[u][i][c], LeadsTo(ColumnsOf(schema[u], db[u][i])[c], u, t), k, up)
  {
    CellIsSmall(schema, db, u, i, c, t);
    hide SchemaIsValid, IsPopulated, LeadsTo, IsRef, RecordDefId;
  }

  /** A reference to a record behind k, when these have moved by one. */
  function Moved(cell: int, isRef: bool, k: nat, up: bool): int {
    if !isRef || cell <= k then cell else if up then cell + 1 else cell - 1
  }

  lemma InsertApplied(schema: Tables, db: Db, t: nat, r: nat)
    requires SchemaIsValid(schema) && IsPopulated(schema, db) && R.IdsExist(schema, db, R.InsertAfter(t, r))
    requires |db[t]| < schema[t].maxNumRecords
    ensures schema[t].recordDefs != [] && R.Apply(schema, db, R.InsertAfter(t, r)) == Insert(schema, db, t, r)
  {
    R.TableSizes(schema, t);
  }

  /** What becomes of every other cell: its record moves up behind the new one, and a reference to a record
      that moved is raised by one. */
  lemma InsertMoves(schema: Tables, db: Db, t: nat, r: nat, u: nat, i: nat, c: nat)
    requires SchemaIsValid(schema) && IsPopulated(schema, db) && R.IdsExist(schema, db, R.InsertAfter(t, r))
    requires |db[t]| < schema[t].maxNumRecords && u < |db| && i < |db[u]| && c < |db[u][i]|
    ensures var (after, j) := (R.Apply(schema, db, R.InsertAfter(t, r)), if u == t && i > r then i + 1 else i);
            && |after| == |db| && |after[u]| == (if u == t then |db[u]| + 1 else |db[u]|) && |after[u][j]| == |db[u][i]|
            && R.HasColumn(schema[u], db[u][i], c)
            && after[u][j][c] == Moved(db[u][i][c], LeadsTo(ColumnsOf(schema[u], db[u][i])[c], u, t), r, true)
  {
    assert t < |db| && r < |db[t]| && |db| == |schema|;
    hide *;
    InsertApplied(schema, db, t, r);
    InsertedTable(schema, db, t, r, u);
    var (after, j) := (Insert(schema, db, t, r), if u == t && i > r then i + 1 else i);
    assert after[u][j] == ShiftRecord(schema[u], u, db[u][i], t, r, true);
    ShiftedCell(schema, db, u, i, c, t, r, true);
  }

  /** And after a deletion: the records behind move down, and a reference to one of them is lowered by one. */
  lemma DeleteMoves(schema: Tables, db: Db, t: nat, r: nat, u: nat, i: nat, c: nat)
    requires SchemaIsValid(schema) && IsPopulated(schema, db) && R.IdsExist(schema, db, R.Delete(t, r))
    requires R.Accepts(schema, db, R.Delete(t, r)) && u < |db| && i < |db[u]| && c < |db[u][i]| && !(u == t && i == r)
    ensures var (after, j) := (R.Apply(schema, db, R.Delete(t, r)), if u == t && i > r then i - 1 else i);
            && |after| == |db| && |after[u]| == (if u == t then |db[u]| - 1 else |db[u]|) && |after[u][j]| == |db[u][i]|
            && R.HasColumn(schema[u], db[u][i], c)
            && after[u][j][c] == Moved(db[u][i][c], LeadsTo(ColumnsOf(schema[u], db[u][i])[c], u, t), r, false)
  {
    assert t < |db| && r < |db[t]| && |db| == |schema| && R.Apply(schema, db, R.Delete(t, r)) == Delete(schema, db, t, r);
    hide *;
    DeletedTable(schema, db, t, r, u);
    var (after, j) := (Delete(schema, db, t, r), if u == t && i > r then i - 1 else i);
    assert after[u][j] == ShiftRecord(schema[u], u, db[u][i], t, r, false);
    ShiftedCell(schema, db, u, i, c, t, r, false);
  }

  // ---- importing ----

  /** The record may become record k of table t: complete and legal, with references to records of other
      tables that exist, and to records of its own table up to itself. */
  ghost predicate MayBeImported(schema: Tables, db: Db, t: nat, k: nat, rec: Record)
    requires |db| == |schema| && t < |db|
  {
    && IsRecord(schema[t], rec)
    && forall u: nat :: u < |db| ==> RefsBelow(schema[t], t, rec, u, if u == t then k + 1 else |db[u]|)
  }

  lemma StandsWhileCounting(schema: Tables, db: Db, t: nat, k: nat, rec: Record)
    requires |db| == |schema| && t < |db| && schema[t].recordDefs != []
    ensures R.MayStand(schema, Counting(schema, db, t, k + 1), t, rec) <==> MayBeImported(schema, db, t, k, rec)
  {
    hide IsRecord, RefsBelow, Counting;
    var counting := Counting(schema, db, t, k + 1);
    assert forall u: nat :: u < |db| ==> |counting[u]| == if u == t then k + 1 else |db[u]|;
  }

  /** The first record of the data is accepted as record k exactly when it may be imported as that. */
  lemma FirstIsImported(schema: Tables, db: Db, t: nat, data: seq<uint16>, k: nat, n: nat)
    requires SchemaIsValid(schema) && IsPopulated(schema, db) && t < |db| && schema[t].recordDefs != []
    requires HoldsRecords(schema[t], data, n) && 0 < n && k < schema[t].maxNumRecords
    ensures HasType(schema[t], data)
    ensures AcceptsRecord(schema[t], Counting(schema, db, t, k + 1), t, data)
            <==> MayBeImported(schema, db, t, k, Cut(schema[t], data, n)[0])
  {
    FirstOf(schema[t], data, n);
    PopulatedElsewhere(schema, db, t);
    CountingIsPopulated(schema, db, t, k + 1);
    hide SchemaIsValid, IsPopulated, AcceptsRecord, MayBeImported, R.MayStand, HasType, Cut, Counting;
    AcceptedMayStandIff(schema, Counting(schema, db, t, k + 1), t, data);
    StandsWhileCounting(schema, db, t, k, Cut(schema[t], data, n)[0]);
  }

  /** The first m of these may become records k and on; one behind them may not. */
  ghost predicate CountsTo(schema: Tables, db: Db, t: nat, k: nat, recs: seq<Record>, m: nat)
    requires |db| == |schema| && t < |db|
  {
    && m <= |recs| && (forall i :: 0 <= i < m ==> MayBeImported(schema, db, t, k + i, recs[i]))
    && (m < |recs| ==> !MayBeImported(schema, db, t, k + m, recs[m]))
  }

  lemma CountsOneMore(schema: Tables, db: Db, t: nat, k: nat, recs: seq<Record>, m: nat)
    requires |db| == |schema| && t < |db| && recs != []
    requires MayBeImported(schema, db, t, k, recs[0]) && CountsTo(schema, db, t, k + 1, recs[1..], m)
    ensures CountsTo(schema, db, t, k, recs, m + 1)
  {
    hide MayBeImported;
    forall i | 1 <= i < m + 1
      ensures MayBeImported(schema, db, t, k + i, recs[i])
    {
      assert MayBeImported(schema, db, t, k + 1 + (i - 1), recs[1..][i - 1]);
    }
  }

  /** BDB_importTable counts the records up to the first that may not be imported: record k of the data
      counts exactly when it and all records before it may be imported. */
  lemma {:induction false} ImportCountLaw(schema: Tables, db: Db, t: nat, data: seq<uint16>, k: nat, n: nat)
    requires SchemaIsValid(schema) && IsPopulated(schema, db) && t < |db| && schema[t].recordDefs != []
    requires HoldsRecords(schema[t], data, n) && k + n <= schema[t].maxNumRecords
    ensures CountsTo(schema, db, t, k, Cut(schema[t], data, n), AcceptedCount(schema, db, t, data, k, n))
    decreases n
  {
    if n == 0 {
      NothingCounts(schema, db, t, data, k);
    } else {
      FirstIsImported(schema, db, t, data, k, n);
      FirstOf(schema[t], data, n);
      CountStep(schema, db, t, data, k, n);
      hide *;
      if AcceptsRecord(schema[t], Counting(schema, db, t, k + 1), t, data) {
        var rest := Behind(schema[t], data);
        ImportCountLaw(schema, db, t, rest, k + 1, n - 1);
        CountsOneMore(schema, db, t, k, Cut(schema[t], data, n), AcceptedCount(schema, db, t, rest, k + 1, n - 1));
      } else {
        CountsNone(schema, db, t, k, Cut(schema[t], data, n));
      }
    }
  }

  lemma NothingCounts(schema: Tables, db: Db, t: nat, data: seq<uint16>, k: nat)
    requires |db| == |schema| && t < |db| && schema[t].recordDefs != []
    ensures CountsTo(schema, db, t, k, Cut(schema[t], data, 0), AcceptedCount(schema, db, t, data, k, 0))
  {
  }

  lemma CountsNone(schema: Tables, db: Db, t: nat, k: nat, recs: seq<Record>)
    requires |db| == |schema| && t < |db| && recs != [] && !MayBeImported(schema, db, t, k, recs[0])
    ensures CountsTo(schema, db, t, k, recs, 0)
  {
  }

  lemma CountStep(schema: Tables, db: Db, t: nat, data: seq<uint16>, k: nat, n: nat)
    requires |db| == |schema| && t < |db| && schema[t].recordDefs != [] && HoldsRecords(schema[t], data, n) && n > 0
    ensures HasType(schema[t], data) && HoldsRecords(schema[t], Behind(schema[t], data), n - 1)
    ensures AcceptedCount(schema, db, t, data, k, n)
         == if AcceptsRecord(schema[t], Counting(schema, db, t, k + 1), t, data)
            then 1 + AcceptedCount(schema, db, t, Behind(schema[t], data), k + 1, n - 1) else 0
  {
    hide AcceptsRecord, Counting, Behind, HasType;
  }

  /** Data is imported completely exactly when each of its records may be. */
  lemma ImportedCompletelyIff(schema: Tables, db: Db, t: nat, data: seq<uint16>, n: nat)
    requires SchemaIsValid(schema) && IsPopulated(schema, db) && t < |db| && schema[t].recordDefs != []
    requires HoldsRecords(schema[t], data, n) && n <= schema[t].maxNumRecords
    ensures AcceptedCount(schema, db, t, data, 0, n) == n
            <==> forall i :: 0 <= i < n ==> MayBeImported(schema, db, t, i, Cut(schema[t], data, n)[i])
  {
    ImportCountLaw(schema, db, t, data, 0, n);
    hide SchemaIsValid, IsPopulated, MayBeImported, AcceptedCount, Cut, HoldsRecords;
  }

  lemma PopulatedElsewhere(schema: Tables, db: Db, t: nat)
    requires IsPopulated(schema, db)
    ensures |db| == |schema| && forall u :: 0 <= u < |schema| && u != t ==> db[u] != [] && IsTable(schema[u], db[u])
  {
  }

  // ---- reading through references ----

  /** A virtual column shows what the column it names shows of the record that the reference denotes. */
  lemma VirtualShowsReferenced(schema: Tables, db: Db, t: nat, r: nat, c: nat)
    requires IsReadable(schema, db, t, r, c) && ColumnsOf(schema[t], db[t][r])[c].colType.Virtual?
    requires c >= |db[t][r]|
    ensures var (rec, cols) := (db[t][r], ColumnsOf(schema[t], db[t][r]));
            var (refCol, valueCol) := (cols[c].colType.refCol, cols[c].colType.valueCol);
            && refCol < |rec| && cols[refCol].colType.Reference?
            && var (target, id) := (cols[refCol].colType.refTable, rec[refCol] % 0x100);
               && target < |db| && id < |db[target]| && IsReadable(schema, db, target, id, valueCol)
               && ValueOf(schema, db, t, r, c) == ValueOf(schema, db, target, id, valueCol)
               && (valueCol < |db[target][id]| ==> ValueOf(schema, db, t, r, c) == db[target][id][valueCol])
               && (valueCol >= |db[target][id]| ==> ValueOf(schema, db, t, r, c) == 0xFFFF)
  {
  }

  /** Any other column shows its own value, a string column none. */
  lemma OwnValueIsShown(schema: Tables, db: Db, t: nat, r: nat, c: nat)
    requires IsReadable(schema, db, t, r, c) && !ColumnsOf(schema[t], db[t][r])[c].colType.Virtual?
    ensures ValueOf(schema, db, t, r, c) == if c < |db[t][r]| then db[t][r][c] else 0xFFFF
  {
  }
}
