/** The database as its API shows it: tables of records of column values, addressed by position.
    Reference columns hold positions, so inserting and deleting renumbers them. */
module LogicalDatabase {
  import opened MachineInts
  import opened Schema
  import opened SlotIndex
  import opened RecordCodec

  /** The values of the real columns of a record. */
  type Record = seq<uint16>

  type Db = seq<seq<Record>>

  // ---- records ----

  /** The number of leading columns that hold data. */
  function NumReal(cols: RecordDef): (n: nat)
    ensures n <= |cols|
    ensures forall c :: 0 <= c < n ==> !IsVirtual(cols[c])
    ensures n < |cols| ==> IsVirtual(cols[n])
  {
    if cols == [] || IsVirtual(cols[0]) then 0 else 1 + NumReal(cols[1..])
  }

  lemma RealColumns(cols: RecordDef, c: nat)
    requires VirtualColumnsLast(cols) && c < |cols|
    ensures c < NumReal(cols) <==> !IsVirtual(cols[c])
  {
  }

  /** The columns of a record, by its type. */
  function ColumnsOf(table: Table, rec: Record): RecordDef
    requires rec != [] && RecordDefId(table, rec[0]) < |table.recordDefs|
  {
    table.recordDefs[RecordDefId(table, rec[0])]
  }

  /** A complete record of its type, every value in range and on a step. */
  ghost predicate IsRecord(table: Table, rec: Record) {
    && rec != [] && RecordDefId(table, rec[0]) < |table.recordDefs|
    && |rec| == NumReal(ColumnsOf(table, rec))
    && forall c :: 0 <= c < |rec| ==> FitsColumn(ColumnsOf(table, rec)[c], rec[c])
  }

  ghost predicate IsTable(table: Table, recs: seq<Record>) {
    |recs| <= table.maxNumRecords && forall r :: 0 <= r < |recs| ==> IsRecord(table, recs[r])
  }

  ghost predicate IsDb(schema: Tables, db: Db) {
    |db| == |schema| && forall t :: 0 <= t < |db| ==> IsTable(schema[t], db[t])
  }

  // ---- references ----

  /** The column refers to records of table `target`. */
  predicate RefersTo(col: Column, t: nat, target: nat) {
    col.colType.Reference? && TargetTable(col.colType, t) == target
  }

  /** Column c of a record of table t is a reference to table `target`. */
  predicate IsRef(table: Table, t: nat, rec: Record, c: nat, target: nat) {
    && rec != [] && RecordDefId(table, rec[0]) < |table.recordDefs|
    && c < |rec| && c < |ColumnsOf(table, rec)| && RefersTo(ColumnsOf(table, rec)[c], t, target)
  }

  /** Every reference of the record to table `target` is below n. */
  ghost predicate RefsBelow(table: Table, t: nat, rec: Record, target: nat, n: nat) {
    forall c: nat :: IsRef(table, t, rec, c, target) ==> rec[c] < n
  }

  /** Referential integrity: every reference denotes an existing record. */
  ghost predicate RefsExist(schema: Tables, db: Db)
    requires |db| == |schema|
  {
    forall t: nat, r: nat, u: nat :: t < |db| && r < |db[t]| && u < |db| ==>
      RefsBelow(schema[t], t, db[t][r], u, |db[u]|)
  }

  /** Some record other than (target, id) itself refers to (target, id). */
  ghost predicate IsReferenced(schema: Tables, db: Db, target: nat, id: nat)
    requires |db| == |schema|
  {
    exists t: nat, r: nat, c: nat :: t < |db| && r < |db[t]| && !(t == target && r == id)
      && IsRef(schema[t], t, db[t][r], c, target) && db[t][r][c] == id
  }

  // ---- renumbering ----

  /** One reference, after the records behind k have moved up or down by one. */
  function ShiftValue(v: uint16, k: nat, up: bool): uint16 {
    if v > k then ToUint16(if up then v + 1 else v - 1) else v
  }

  /** The references of a record to table `target`, renumbered. */
  function ShiftRecord(table: Table, t: nat, rec: Record, target: nat, k: nat, up: bool): (r: Record)
    ensures |r| == |rec|
  {
    seq(|rec|, c requires 0 <= c < |rec| =>
      if IsRef(table, t, rec, c, target) then ShiftValue(rec[c], k, up) else rec[c])
  }

  function ShiftTable(table: Table, t: nat, recs: seq<Record>, target: nat, k: nat, up: bool): (r: seq<Record>)
    ensures |r| == |recs|
  {
    seq(|recs|, i requires 0 <= i < |recs| => ShiftRecord(table, t, recs[i], target, k, up))
  }

  function ShiftDb(schema: Tables, db: Db, target: nat, k: nat, up: bool): (r: Db)
    requires |db| == |schema|
    ensures |r| == |db|
  {
    seq(|db|, t requires 0 <= t < |db| => ShiftTable(schema[t], t, db[t], target, k, up))
  }

  // ---- defaults ----

  /** The value a new record gets: child tables are numbered by record. */
  function DefaultValue(col: Column, id: nat): uint16 {
    if IsVirtual(col) then NO_VALUE
    else if col.colType.ChildTable? then ToUint16(ToUint8(col.minValue) + id)
    else col.defaultVal
  }

  function DefaultValues(cols: RecordDef, id: nat): (d: seq<uint16>)
    ensures |d| == |cols|
  {
    seq(|cols|, c requires 0 <= c < |cols| => DefaultValue(cols[c], id))
  }

  /** New records are of the first type. */
  function DefaultRecord(table: Table, id: nat): Record
    requires table.recordDefs != []
  {
    DefaultValues(table.recordDefs[0], id)[..NumReal(table.recordDefs[0])]
  }

  // ---- inserting and deleting ----

  /** BDB_insertRecordAfter on a table that is not full. */
  function Insert(schema: Tables, db: Db, t: nat, r: nat): Db
    requires |db| == |schema| && t < |db| && r < |db[t]| && schema[t].recordDefs != []
  {
    var shifted := ShiftDb(schema, db, t, r, true);
    shifted[t := With(shifted[t], r + 1, DefaultRecord(schema[t], r + 1))]
  }

  /** BDB_deleteRecord on a record that can be deleted. */
  function Delete(schema: Tables, db: Db, t: nat, r: nat): Db
    requires |db| == |schema| && t < |db| && r < |db[t]|
  {
    ShiftDb(schema, db[t := Without(db[t], r)], t, r, false)
  }

  // ---- schema facts ----

  lemma SchemaColumn(schema: Tables, t: nat, d: nat, c: nat)
    requires SchemaIsValid(schema) && t < |schema| && d < |schema[t].recordDefs| && c < |schema[t].recordDefs[d]|
    ensures ColumnIsValid(schema, t, schema[t].recordDefs[d][c])
    ensures VirtualColumnsLast(schema[t].recordDefs[d])
    ensures HasVariableRecords(schema[t]) ==> schema[t].recordDefs[d][0].colType.RecordType?
    ensures schema[t].recordDefs[0] != [] && schema[t].recordDefs[d][0] == schema[t].recordDefs[0][0]
    ensures schema[t].recordDefs[d][c].colType.RecordType? ==> c == 0
  {
    assert TableIsValid(schema, t);
    assert RecordDefIsValid(schema, t, schema[t].recordDefs[d]);
  }

  /** A reference column holds exactly the positions of its target table. */
  lemma RefColumn(schema: Tables, t: nat, rec: Record, c: nat, target: nat)
    requires SchemaIsValid(schema) && t < |schema| && IsRef(schema[t], t, rec, c, target)
    ensures target < |schema|
    ensures var col := ColumnsOf(schema[t], rec)[c];
            && Step(col) == 1 && col.minValue == 0 && col.maxValue == schema[target].maxNumRecords - 1
            && !col.colType.RecordType? && (c == 0 ==> !HasVariableRecords(schema[t]))
  {
    SchemaColumn(schema, t, RecordDefId(schema[t], rec[0]), c);
    assert TableIsValid(schema, t);
    assert RecordDefIsValid(schema, t, ColumnsOf(schema[t], rec));
  }

  /** Renumbering changes no record type. */
  lemma ShiftKeepsType(schema: Tables, t: nat, rec: Record, target: nat, k: nat, up: bool)
    requires SchemaIsValid(schema) && t < |schema| && rec != []
    ensures RecordDefId(schema[t], ShiftRecord(schema[t], t, rec, target, k, up)[0]) == RecordDefId(schema[t], rec[0])
  {
    if IsRef(schema[t], t, rec, 0, target) {
      RefColumn(schema, t, rec, 0, target);
    }
  }

  /** Renumbered references stay in range, and references to other tables stay as they are. */
  lemma ShiftedRecord(schema: Tables, t: nat, rec: Record, target: nat, k: nat, up: bool, n: nat)
    requires SchemaIsValid(schema) && t < |schema| && target < |schema| && IsRecord(schema[t], rec)
    requires RefsBelow(schema[t], t, rec, target, n)
    requires up ==> k < n < schema[target].maxNumRecords
    requires !up ==> k < n <= schema[target].maxNumRecords
    requires !up ==> forall c: nat :: IsRef(schema[t], t, rec, c, target) ==> rec[c] != k
    ensures var s := ShiftRecord(schema[t], t, rec, target, k, up);
            && IsRecord(schema[t], s)
            && RefsBelow(schema[t], t, s, target, if up then n + 1 else n - 1)
            && forall u, m :: u != target && RefsBelow(schema[t], t, rec, u, m) ==> RefsBelow(schema[t], t, s, u, m)
  {
    var s := ShiftRecord(schema[t], t, rec, target, k, up);
    ShiftKeepsRefs(schema, t, rec, target, k, up);
    hide SchemaIsValid, ColumnIsValid, IsRef, ShiftValue, FitsColumn;
    forall c: nat | c < |rec|
      ensures FitsColumn(ColumnsOf(schema[t], rec)[c], s[c])
      ensures IsRef(schema[t], t, rec, c, target) ==> s[c] < if up then n + 1 else n - 1
    {
      if IsRef(schema[t], t, rec, c, target) {
        ShiftedReference(schema, t, rec, c, target, k, up, n);
      }
    }
  }

  /** Renumbering makes no reference and unmakes none, and touches those to the target only. */
  lemma ShiftKeepsRefs(schema: Tables, t: nat, rec: Record, target: nat, k: nat, up: bool)
    requires SchemaIsValid(schema) && t < |schema| && rec != []
    requires RecordDefId(schema[t], rec[0]) < |schema[t].recordDefs|
    ensures var s := ShiftRecord(schema[t], t, rec, target, k, up);
            && RecordDefId(schema[t], s[0]) == RecordDefId(schema[t], rec[0])
            && (forall c: nat, u :: IsRef(schema[t], t, s, c, u) <==> IsRef(schema[t], t, rec, c, u))
            && forall c: nat, u :: u != target && IsRef(schema[t], t, rec, c, u) ==> c < |rec| && s[c] == rec[c]
  {
    ShiftKeepsType(schema, t, rec, target, k, up);
    hide SchemaIsValid, ShiftValue;
  }

  lemma ShiftedReference(schema: Tables, t: nat, rec: Record, c: nat, target: nat, k: nat, up: bool, n: nat)
    requires SchemaIsValid(schema) && t < |schema| && target < |schema| && IsRef(schema[t], t, rec, c, target)
    requires rec[c] < n
    requires up ==> k < n < schema[target].maxNumRecords
    requires !up ==> k < n <= schema[target].maxNumRecords && rec[c] != k
    ensures ShiftValue(rec[c], k, up) < if up then n + 1 else n - 1
    ensures FitsColumn(ColumnsOf(schema[t], rec)[c], ShiftValue(rec[c], k, up))
  {
    RefColumn(schema, t, rec, c, target);
    hide SchemaIsValid;
  }

  lemma {:induction false} NoBits(schema: Tables, t: nat, cols: RecordDef, k: nat)
    requires t < |schema| && k <= |cols|
    requires forall c :: 0 <= c < |cols| ==> ColumnIsValid(schema, t, cols[c]) && IsVirtual(cols[c])
    ensures BitsBefore(cols, k) == 0
  {
    if k > 0 {
      NoBits(schema, t, cols, k - 1);
    }
  }

  /** Every record has at least one column that holds data. */
  lemma FirstColumnIsReal(schema: Tables, t: nat, d: nat)
    requires SchemaIsValid(schema) && t < |schema| && d < |schema[t].recordDefs|
    ensures schema[t].recordDefs[d] != [] && NumReal(schema[t].recordDefs[d]) > 0
  {
    var cols := schema[t].recordDefs[d];
    assert TableIsValid(schema, t);
    assert RecordDefIsValid(schema, t, cols);
    SchemaColumn(schema, t, d, 0);
    if IsVirtual(cols[0]) {
      assert d == 0 && schema[t].recordDefs == [cols];
      NoBits(schema, t, cols, |cols|);
      assert false;
    }
  }

  lemma DefaultFits(schema: Tables, t: nat, d: nat, c: nat, id: nat)
    requires SchemaIsValid(schema) && t < |schema| && d < |schema[t].recordDefs| && c < |schema[t].recordDefs[d]|
    requires id < schema[t].maxNumRecords && !IsVirtual(schema[t].recordDefs[d][c])
    ensures FitsColumn(schema[t].recordDefs[d][c], DefaultValue(schema[t].recordDefs[d][c], id))
  {
    SchemaColumn(schema, t, d, c);
    assert |schema| <= 250;
    hide SchemaIsValid, ColumnIsValid, FitsColumn, DefaultValue;
    LegalDefault(schema, t, schema[t].recordDefs[d][c], id);
  }

  lemma LegalDefault(schema: Tables, t: nat, col: Column, id: nat)
    requires t < |schema| <= 250 && ColumnIsValid(schema, t, col) && !IsVirtual(col) && id < schema[t].maxNumRecords
    ensures FitsColumn(col, DefaultValue(col, id))
  {
    if col.colType.Decimal? || col.colType.IntStep? {
      assert DefaultValue(col, id) == col.defaultVal;
    } else {
      assert Step(col) == 1;
      hide Step;
      assert DefaultValue(col, id) == if col.colType.ChildTable? then col.minValue + id else col.defaultVal;
    }
  }

  /** Defaults of record type d make a record, given a fitting value for column 0. */
  lemma DefaultsAreRecord(schema: Tables, t: nat, d: nat, id: nat, rec: Record)
    requires SchemaIsValid(schema) && t < |schema| && d < |schema[t].recordDefs| && id < schema[t].maxNumRecords
    requires |rec| == NumReal(schema[t].recordDefs[d]) && rec != []
    requires RecordDefId(schema[t], rec[0]) == d && FitsColumn(schema[t].recordDefs[d][0], rec[0])
    requires rec[1..] == DefaultValues(schema[t].recordDefs[d], id)[1..|rec|]
    requires schema[t].recordDefs[d][0].colType.Reference? ==> rec[0] == 0
    ensures IsRecord(schema[t], rec)
    ensures forall u, n :: n > 0 ==> RefsBelow(schema[t], t, rec, u, n)
  {
    var cols := schema[t].recordDefs[d];
    hide SchemaIsValid;
    forall c | 0 < c < |rec|
      ensures rec[c] == DefaultValue(cols[c], id) && FitsColumn(cols[c], rec[c])
      ensures cols[c].colType.Reference? ==> rec[c] == 0
    {
      assert rec[c] == rec[1..][c - 1];
      DefaultFits(schema, t, d, c, id);
      SchemaColumn(schema, t, d, c);
    }
  }

  lemma DefaultIsRecord(schema: Tables, t: nat, id: nat)
    requires SchemaIsValid(schema) && t < |schema| && id < schema[t].maxNumRecords
    ensures schema[t].recordDefs != []
    ensures IsRecord(schema[t], DefaultRecord(schema[t], id))
    ensures forall u, n :: n > 0 ==> RefsBelow(schema[t], t, DefaultRecord(schema[t], id), u, n)
  {
    assert TableIsValid(schema, t);
    FirstColumnIsReal(schema, t, 0);
    DefaultFits(schema, t, 0, 0, id);
    SchemaColumn(schema, t, 0, 0);
    hide SchemaIsValid;
    DefaultsAreRecord(schema, t, 0, id, DefaultRecord(schema[t], id));
  }

  // ---- referential integrity is kept ----

  /** Complete records, no table empty. */
  ghost predicate IsPopulated(schema: Tables, db: Db) {
    IsDb(schema, db) && forall t :: 0 <= t < |db| ==> db[t] != []
  }

  /** A consistent database: complete records, no table empty, every reference resolves. */
  ghost predicate IsConsistent(schema: Tables, db: Db) {
    IsPopulated(schema, db) && RefsExist(schema, db)
  }

  /** A record that moves up with its references. */
  lemma MovedUp(schema: Tables, db: Db, t: nat, r: nat, u: nat, j: nat)
    requires SchemaIsValid(schema) && IsConsistent(schema, db) && u < |db| && j < |db[u]|
    requires t < |db| && r < |db[t]| < schema[t].maxNumRecords
    ensures var s := ShiftRecord(schema[u], u, db[u][j], t, r, true);
            && IsRecord(schema[u], s)
            && forall v: nat :: v < |db| ==> RefsBelow(schema[u], u, s, v, if v == t then |db[v]| + 1 else |db[v]|)
  {
    assert IsTable(schema[u], db[u]);
    assert forall v: nat :: v < |db| ==> RefsBelow(schema[u], u, db[u][j], v, |db[v]|);
    hide SchemaIsValid, IsRecord, RefsBelow, ShiftRecord, IsConsistent;
    ShiftedRecord(schema, u, db[u][j], t, r, true, |db[t]|);
  }

  /** Where the records of table u stand after an insert. */
  lemma InsertedTable(schema: Tables, db: Db, t: nat, r: nat, u: nat)
    requires |db| == |schema| && t < |db| && r < |db[t]| && u < |db| && schema[t].recordDefs != []
    ensures var (after, grows) := (Insert(schema, db, t, r), u == t);
            && |after| == |db| && |after[u]| == (if grows then |db[u]| + 1 else |db[u]|)
            && forall i :: 0 <= i < |after[u]| ==>
                 after[u][i] == if grows && i == r + 1 then DefaultRecord(schema[t], r + 1)
                                else ShiftRecord(schema[u], u, db[u][if grows && i > r then i - 1 else i], t, r, true)
  {
    hide ShiftRecord, DefaultRecord;
  }

  lemma InsertKeepsIntegrity(schema: Tables, db: Db, t: nat, r: nat)
    requires SchemaIsValid(schema) && IsConsistent(schema, db)
    requires t < |db| && r < |db[t]| < schema[t].maxNumRecords
    ensures schema[t].recordDefs != [] && IsConsistent(schema, Insert(schema, db, t, r))
  {
    DefaultIsRecord(schema, t, r + 1);
    var after := Insert(schema, db, t, r);
    forall u: nat | u < |db|
      ensures |after| == |db| && |after[u]| == if u == t then |db[u]| + 1 else |db[u]|
    {
      InsertedTable(schema, db, t, r, u);
    }
    forall u: nat, i: nat | u < |db| && i < |after[u]|
      ensures IsRecord(schema[u], after[u][i])
      ensures forall v: nat :: v < |after| ==> RefsBelow(schema[u], u, after[u][i], v, |after[v]|)
    {
      hide SchemaIsValid, IsConsistent, IsRecord, RefsBelow, ShiftRecord, DefaultRecord, Insert;
      InsertedTable(schema, db, t, r, u);
      if !(u == t && i == r + 1) {
        MovedUp(schema, db, t, r, u, if u == t && i > r then i - 1 else i);
      }
    }
    assert forall u :: 0 <= u < |db| ==> |db[u]| <= schema[u].maxNumRecords && db[u] != [] by {
      hide SchemaIsValid, RefsExist, Insert;
      assert forall u :: 0 <= u < |db| ==> IsTable(schema[u], db[u]);
    }
    hide SchemaIsValid, IsRecord, RefsBelow, ShiftRecord, DefaultRecord, Insert;
    assert IsDb(schema, after);
  }

  /** And after a deletion. */
  lemma DeletedTable(schema: Tables, db: Db, t: nat, r: nat, u: nat)
    requires |db| == |schema| && t < |db| && r < |db[t]| && u < |db|
    ensures var (after, shrinks) := (Delete(schema, db, t, r), u == t);
            && |after| == |db| && |after[u]| == (if shrinks then |db[u]| - 1 else |db[u]|)
            && forall i :: 0 <= i < |after[u]| ==>
                 after[u][i] == ShiftRecord(schema[u], u, db[u][if shrinks && i >= r then i + 1 else i], t, r, false)
  {
    hide ShiftRecord;
  }

  lemma DeleteKeepsIntegrity(schema: Tables, db: Db, t: nat, r: nat)
    requires SchemaIsValid(schema) && IsConsistent(schema, db)
    requires t < |db| && r < |db[t]| && |db[t]| > 1 && !IsReferenced(schema, db, t, r)
    ensures IsConsistent(schema, Delete(schema, db, t, r))
  {
    hide SchemaIsValid, IsRecord, RefsBelow, ShiftRecord;
    var after := Delete(schema, db, t, r);
    forall u: nat, i: nat | u < |after| && i < |after[u]|
      ensures IsRecord(schema[u], after[u][i])
      ensures forall v: nat :: v < |after| ==> RefsBelow(schema[u], u, after[u][i], v, |after[v]|)
    {
      var j := if u == t && i >= r then i + 1 else i;
      assert after[u][i] == ShiftRecord(schema[u], u, db[u][j], t, r, false);
      ShiftedRecord(schema, u, db[u][j], t, r, false, |db[t]|);
    }
    assert IsDb(schema, after);
  }

  // ---- changing values ----

  /** getMaxValue: references go up to the live record count of their target. */
  function MaxValueOf(db: Db, t: nat, col: Column): uint16 {
    if col.colType.Reference? && TargetTable(col.colType, t) < |db|
    then ToUint16(|db[TargetTable(col.colType, t)]| - 1)
    else col.maxValue
  }

  /** The range and step checks shared by BDB_setValue and validateRecord. */
  predicate InRange(db: Db, t: nat, col: Column, value: uint16) {
    col.minValue <= value <= MaxValueOf(db, t, col) && (value - col.minValue) % Step(col) == 0
  }

  /** BDB_setValue accepts the value. */
  predicate AcceptsValue(db: Db, t: nat, col: Column, value: uint16) {
    InRange(db, t, col, value) && !IsVirtual(col) && !col.colType.ChildTable?
  }

  /** Data for a record: where column 0 names a record type, there is a value for each real column. */
  predicate IsRecordData(table: Table, data: seq<uint16>) {
    data != [] && (RecordDefId(table, data[0]) < |table.recordDefs| ==> NumReal(ColumnsOf(table, data)) <= |data|)
  }

  /** Data whose record type is defined. */
  predicate HasType(table: Table, data: seq<uint16>) {
    data != [] && RecordDefId(table, data[0]) < |table.recordDefs| && NumReal(ColumnsOf(table, data)) <= |data|
  }

  /** validateRecord */
  ghost predicate AcceptsRecord(table: Table, db: Db, t: nat, data: seq<uint16>)
    requires HasType(table, data)
  {
    var cols := ColumnsOf(table, data);
    forall c :: 0 <= c < NumReal(cols) ==> InRange(db, t, cols[c], data[c])
  }

  /** The record after column c is set; a new record type resets all other columns. */
  function WithValue(table: Table, rec: Record, id: nat, c: nat, value: uint16): Record
    requires c < |rec| && (c == 0 && HasVariableRecords(table) ==> value < |table.recordDefs|)
  {
    if c == 0 && HasVariableRecords(table) then
      var cols := table.recordDefs[value];
      [value] + DefaultValues(cols, id)[if NumReal(cols) > 0 then 1 else 0..NumReal(cols)]
    else rec[c := value]
  }

  /** mu_limitValue */
  function LimitValue(minValue: int, value: int, maxValue: int): int {
    if value >= maxValue then maxValue else if value <= minValue then minValue else value
  }

  /** BDB_changeValue computes in int16. */
  function ChangedValue(col: Column, value: uint16, delta: int, maxValue: uint16): uint16 {
    ToUint16(LimitValue(ToInt16(col.minValue), ToInt16(ToInt16(value) + ToInt16(delta * Step(col))), ToInt16(maxValue)))
  }

  predicate IsInt16(x: int) {
    -0x8000 <= x < 0x8000
  }

  /** Neither the scaled delta nor the sum leaves int16. */
  predicate ChangeIsExact(col: Column, value: uint16, delta: int) {
    IsInt16(delta * Step(col)) && IsInt16(ToInt16(value) + delta * Step(col))
  }

  /** In steps of one an overflow lands on a legal value, too. */
  predicate ChangeIsSafe(col: Column, value: uint16, delta: int) {
    Step(col) == 1 || ChangeIsExact(col, value, delta)
  }

  /** A changed value is a legal value again: in range and, without overflow, on a step. */
  lemma ChangedValueFits(col: Column, value: uint16, delta: int, maxValue: uint16)
    requires FitsColumn(col, value) && value <= maxValue <= col.maxValue
    requires (maxValue - col.minValue) % Step(col) == 0 && ChangeIsSafe(col, value, delta)
    ensures FitsColumn(col, ChangedValue(col, value, delta, maxValue))
    ensures ChangedValue(col, value, delta, maxValue) <= maxValue
  {
    var step := Step(col);
    var d := delta * step;
    var r := ChangedValue(col, value, delta, maxValue);
    hide Step, LimitValue, ToInt16, ToUint16;
    if step == 1 {
      LimitsAreKept(col.minValue, ToInt16(value) + ToInt16(d), maxValue);
    } else {
      LimitCases(col.minValue, value, d, maxValue);
      MovedIsAligned(value - col.minValue, delta, step, d);
      LimitIsAligned(col.minValue, value, maxValue, step, d, r);
    }
  }

  /** Whatever the sum wraps around to, the result lies within the limits. */
  lemma LimitsAreKept(lo: uint16, sum: int, hi: uint16)
    requires lo <= hi
    ensures lo <= ToUint16(LimitValue(ToInt16(lo), ToInt16(sum), ToInt16(hi))) <= hi
  {
    Int16OfUint16(lo);
    Int16OfUint16(hi);
    var w := ToInt16(sum);
    Int16IsExact(w);
    hide ToInt16, ToUint16;
  }

  lemma MovedIsAligned(distance: int, delta: int, step: nat, d: int)
    requires step > 0 && distance % step == 0 && d == delta * step
    ensures (distance + d) % step == 0
  {
    AlignedMove(distance, delta, step);
  }

  /** The lower limit, the upper limit and the moved value are all on a step. */
  lemma LimitIsAligned(lo: int, value: int, hi: int, step: nat, d: int, r: int)
    requires step > 0 && lo <= hi && (hi - lo) % step == 0 && (value - lo + d) % step == 0
    requires r == lo || r == hi || (r == value + d && lo < r < hi)
    ensures lo <= r <= hi && (r - lo) % step == 0
  {
    if r == lo {
      MultipleHasNoRemainder(0, step);
    } else if r != hi {
      assert r - lo == value - lo + d;
    }
  }

  lemma Int16OfUint16(x: uint16)
    ensures ToInt16(x) == if x < 0x8000 then x else x - 0x1_0000
    ensures ToUint16(ToInt16(x)) == x
  {
  }

  lemma Int16IsExact(y: int)
    requires IsInt16(y)
    ensures ToInt16(y) == y
    ensures ToUint16(y) == if y >= 0 then y else y + 0x1_0000
  {
  }

  /** The limit computed in int16, on values that do not overflow. */
  lemma LimitCases(lo: uint16, value: uint16, d: int, hi: uint16)
    requires lo <= value <= hi && IsInt16(d) && IsInt16(ToInt16(value) + d)
    ensures var r := ToUint16(LimitValue(ToInt16(lo), ToInt16(ToInt16(value) + ToInt16(d)), ToInt16(hi)));
            && (r == lo || r == hi || (r == value + d && lo < r < hi))
            && (hi < 0x8000 || lo >= 0x8000 ==> r == LimitValue(lo, value + d, hi))
  {
    Int16OfUint16(lo);
    Int16OfUint16(value);
    Int16OfUint16(hi);
    Int16IsExact(d);
    Int16IsExact(ToInt16(value) + d);
    hide ToInt16, ToUint16;
  }

  lemma AlignedMove(distance: int, delta: int, step: nat)
    requires step > 0 && distance % step == 0
    ensures (distance + delta * step) % step == 0
  {
    var q := distance / step;
    assert distance == q * step;
    assert distance + delta * step == (q + delta) * step;
    MultipleHasNoRemainder(q + delta, step);
  }

  lemma MultipleHasNoRemainder(q: int, step: nat)
    requires step > 0
    ensures q * step % step == 0
  {
    var x := q * step;
    assert x == step * (x / step) + x % step;
    var d := q - x / step;
    assert d * step == x % step;
    if d > 0 {
      MulAtLeast(step, d);
    }
  }

  /** When the limits lie on one side of the int16 range, changing a value is clamped addition. */
  lemma ChangeIsClampedAddition(col: Column, value: uint16, delta: int, maxValue: uint16)
    requires col.minValue <= value <= maxValue && ChangeIsExact(col, value, delta)
    requires maxValue < 0x8000 || col.minValue >= 0x8000
    ensures ChangedValue(col, value, delta, maxValue)
         == LimitValue(col.minValue, value + delta * Step(col), maxValue)
  {
    hide Step, LimitValue, ToInt16, ToUint16;
    LimitCases(col.minValue, value, delta * Step(col), maxValue);
  }

  /** Exactly then: limits on both sides of 0x8000 make even a zero change jump. */
  lemma ZeroChangeKeepsValue(col: Column, maxValue: uint16)
    requires col.minValue < maxValue
    ensures (forall value: uint16 :: col.minValue <= value <= maxValue ==> ChangedValue(col, value, 0, maxValue) == value)
       <==> (maxValue < 0x8000 || col.minValue >= 0x8000)
  {
    hide Step, ToInt16, ToUint16, LimitValue;
    ZeroTimes(Step(col));
    ZeroChange(col.minValue, col.minValue, maxValue);
    assert col.minValue < 0x8000 <= maxValue ==> ChangedValue(col, col.minValue, 0, maxValue) == maxValue;
    forall value: uint16 | col.minValue <= value <= maxValue
      ensures maxValue < 0x8000 || col.minValue >= 0x8000 ==> ChangedValue(col, value, 0, maxValue) == value
    {
      ZeroChange(col.minValue, value, maxValue);
    }
  }

  lemma ZeroTimes(step: int)
    ensures 0 * step == 0
  {
  }

  lemma ZeroChange(lo: uint16, value: uint16, hi: uint16)
    requires lo <= value <= hi
    ensures var r := ToUint16(LimitValue(ToInt16(lo), ToInt16(ToInt16(value) + ToInt16(0)), ToInt16(hi)));
            && (hi < 0x8000 || lo >= 0x8000 ==> r == value)
            && (value == lo < 0x8000 <= hi ==> r == hi)
  {
    Int16OfUint16(lo);
    Int16OfUint16(value);
    Int16OfUint16(hi);
    Int16IsExact(0);
    Int16IsExact(ToInt16(value));
    hide ToInt16, ToUint16;
  }
}
