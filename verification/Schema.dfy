/** Database schemas of include/BitsOfDataTypes.h and the rules of ValidateDbaseSchema.c. */
module Schema {
  import opened MachineInts
  import opened BitUtils
  import opened Limits

  /** Steps are positive: a zero step would divide by zero. */
  type Stride = x: int | 0 < x < 0x100 witness 1

  datatype ColumnType =
    | Integer
    | Percentage
    | IntStep(intStep: Stride)
    | Decimal(shift: uint8, decStep: Stride)
    | RecordType
    | TxtList
    | TxtListCopy(copyRefCol: uint8, copyColumn: uint8)
    | Char
    | ChildTable
    | Reference(refTable: uint8, refColumn: uint8)
    | Str(firstChar: uint8, length: uint8)
    | Virtual(refCol: uint8, valueCol: uint8)
    | TxtListClone(valueColumn: uint8)

  datatype Column = Column(colType: ColumnType, minValue: uint16, maxValue: uint16, defaultVal: uint16)

  type RecordDef = seq<Column>

  datatype Table = Table(maxNumRecords: uint8, recordDefs: seq<RecordDef>)

  type Tables = seq<Table>

  const SELF_REFERENCE: uint8 := 0xFF
  const MAX_NUM_TABLES := 250
  const NO_VALUE: uint16 := 0xFFFF

  predicate IsVirtual(col: Column) {
    col.colType.Virtual? || col.colType.Str? || col.colType.TxtListClone?
  }

  /** getStep: 1 for columns without a step. */
  function Step(col: Column): Stride {
    match col.colType
    case Decimal(_, step) => step
    case IntStep(step) => step
    case _ => 1
  }

  predicate HasVariableRecords(table: Table) {
    |table.recordDefs| > 1
  }

  /** getRecordDef: the tag is cut to uint8 and ignored in tables with one record type. */
  function RecordDefId(table: Table, tag: uint16): nat {
    if HasVariableRecords(table) then ToUint8(tag) else 0
  }

  /** The table a reference column points into. */
  function TargetTable(colType: ColumnType, tableId: nat): nat
    requires colType.Reference?
  {
    if colType.refTable == SELF_REFERENCE then tableId else colType.refTable
  }

  predicate DefaultInRange(col: Column) {
    col.minValue < col.maxValue && col.minValue <= col.defaultVal <= col.maxValue
  }

  predicate ColumnIsValid(tables: Tables, tableId: nat, col: Column)
    requires tableId < |tables|
  {
    var numDefs := |tables[tableId].recordDefs|;
    match col.colType
    case Integer => DefaultInRange(col)
    case Percentage => DefaultInRange(col)
    case IntStep(step) =>
      DefaultInRange(col) && 1 < step < 128
      && (col.maxValue - col.minValue) % step == 0 && (col.defaultVal - col.minValue) % step == 0
    case Decimal(shift, step) =>
      DefaultInRange(col) && 0 < shift <= 5 && (step == 1 || step == 2 || step == 5)
      && (col.maxValue - col.minValue) % step == 0 && (col.defaultVal - col.minValue) % step == 0
    case RecordType =>
      col.minValue == col.defaultVal == 0 && col.maxValue == numDefs - 1 && numDefs > 1
    case TxtList => col.minValue == 0 && DefaultInRange(col)
    case TxtListCopy(_, _) => col.minValue == col.defaultVal == 0 < col.maxValue
    case Char => col.minValue == col.defaultVal == 0 < col.maxValue
    case ChildTable =>
      numDefs == 1 && col.minValue < col.maxValue < |tables| && col.defaultVal == 0
      && tables[tableId].maxNumRecords == col.maxValue - col.minValue + 1
    case Reference(refTable, _) =>
      col.minValue == col.defaultVal == 0 < col.maxValue
      && TargetTable(col.colType, tableId) < |tables|
      && col.maxValue == tables[TargetTable(col.colType, tableId)].maxNumRecords - 1
    case Str(_, _) => col.minValue == col.defaultVal == col.maxValue == 0
    case Virtual(_, _) => col.minValue == col.defaultVal == col.maxValue == 0
    case TxtListClone(_) => col.minValue == col.defaultVal == col.maxValue == 0
  }

  predicate VirtualColumnsLast(cols: RecordDef) {
    forall i, j :: 0 <= i < j < |cols| && IsVirtual(cols[i]) ==> IsVirtual(cols[j])
  }

  /** Record types are told apart by column 0, which all record definitions of a table share;
      no other column is a record type. */
  predicate RecordDefIsValid(tables: Tables, tableId: nat, cols: RecordDef)
    requires tableId < |tables| && tables[tableId].recordDefs != []
  {
    && 0 < |cols| < 0x100
    && (forall i :: 0 <= i < |cols| ==> ColumnIsValid(tables, tableId, cols[i]))
    && (forall i :: 0 < i < |cols| ==> !cols[i].colType.RecordType?)
    && VirtualColumnsLast(cols)
    && (HasVariableRecords(tables[tableId]) <==> cols[0].colType.RecordType?)
    && TotalBits(cols) < 2033
  }

  predicate TableIsValid(tables: Tables, tableId: nat)
    requires tableId < |tables|
  {
    var table := tables[tableId];
    && 0 < table.maxNumRecords <= MAX_NUM_RECORDS
    && 0 < |table.recordDefs| <= 0xFF
    && (forall d :: 0 <= d < |table.recordDefs| ==> RecordDefIsValid(tables, tableId, table.recordDefs[d]))
    && (forall d :: 0 <= d < |table.recordDefs| ==> table.recordDefs[d][0] == table.recordDefs[0][0])
    && 0 < MaxRecordSize(table) <= MAX_RECORD_SIZE
  }

  predicate SchemaIsValid(tables: Tables) {
    && 0 < |tables| <= MAX_NUM_TABLES
    && forall t :: 0 <= t < |tables| ==> TableIsValid(tables, t)
  }

  // ---- packed sizes ----

  /** getNumBitsOfColumn */
  function ColumnBits(col: Column): nat {
    NumBits(ToUint16(col.maxValue - col.minValue) / Step(col))
  }

  lemma ColumnBitsBound(col: Column)
    ensures ColumnBits(col) <= 16
  {
    hide NumBits, Pow2, Step;
    var range := ToUint16(col.maxValue - col.minValue);
    QuotientBound(range, Step(col));
    Pow2Values();
    NumBitsBound(range / Step(col), 16);
  }

  lemma QuotientBound(a: nat, d: nat)
    requires d > 0
    ensures a / d <= a
  {
    if a / d > a {
      MulGrows(a / d, d);
      assert false;
    }
  }

  lemma MulGrows(q: nat, d: nat)
    requires d > 0
    ensures q <= q * d
  {
    var e := d - 1;
    assert q * (e + 1) == q * e + q;
  }

  function BitsBefore(cols: RecordDef, k: nat): nat
    requires k <= |cols|
  {
    if k == 0 then 0 else BitsBefore(cols, k - 1) + ColumnBits(cols[k - 1])
  }

  function TotalBits(cols: RecordDef): nat {
    BitsBefore(cols, |cols|)
  }

  function RecordSize(cols: RecordDef): nat {
    NumBytes(TotalBits(cols))
  }

  function MaxSizeOf(defs: seq<RecordDef>): (m: nat)
    ensures forall d :: 0 <= d < |defs| ==> RecordSize(defs[d]) <= m
    ensures defs != [] ==> exists d :: 0 <= d < |defs| && RecordSize(defs[d]) == m
  {
    if defs == [] then 0
    else
      var m := MaxSizeOf(defs[..|defs| - 1]);
      var last := RecordSize(defs[|defs| - 1]);
      if last > m then last else
        assert |defs| > 1 ==> exists d :: 0 <= d < |defs| - 1 && RecordSize(defs[d]) == m by {
          if |defs| > 1 {
            var d :| 0 <= d < |defs| - 1 && RecordSize(defs[..|defs| - 1][d]) == m;
            assert RecordSize(defs[d]) == m;
          }
        }
        m
  }

  function MaxRecordSize(table: Table): nat {
    MaxSizeOf(table.recordDefs)
  }
}
