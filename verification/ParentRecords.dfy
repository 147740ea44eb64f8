/** The records of a parent table name their child tables (BDB_COLUMN_CHILD_TABLE); the list of parent
    records (src/BitsOfData.c:269-283, 775-793) is the way back. */
module ParentRecords {
  import opened MachineInts
  import opened SlotIndex
  import opened Schema
  import opened LogicalDatabase
  import opened DatabaseRuns
  import opened RecordBuffers
  import opened ValueSteps
  import opened OpeningSteps

  /** The last record with this child, or none. */
  function ParentOf(children: seq<uint16>, child: nat): (r: nat)
    ensures r == NO_RECORD_ID || (r < |children| && children[r] == child)
  {
    if children == [] then NO_RECORD_ID
    else if children[|children| - 1] == child then |children| - 1
    else ParentOf(children[..|children| - 1], child)
  }

  function ParentList(children: seq<uint16>, minValue: uint16, size: nat): (list: seq<nat>)
    ensures |list| == size
  {
    seq<nat>(size, i requires 0 <= i < size => ParentOf(children, minValue + i))
  }

  /** Column c of the records of one table. */
  function ColumnValues(recs: seq<Record>, c: nat): (v: seq<uint16>)
    requires forall r :: 0 <= r < |recs| ==> c < |recs[r]|
    ensures |v| == |recs|
  {
    seq(|recs|, r requires 0 <= r < |recs| => recs[r][c])
  }

  /** The list of parents for child column c of a table with these records. */
  predicate IsParentList(list: seq<nat>, recs: seq<Record>, c: nat, col: Column) {
    && (forall r :: 0 <= r < |recs| ==> c < |recs[r]|)
    && col.minValue <= col.maxValue
    && list == ParentList(ColumnValues(recs, c), col.minValue, col.maxValue - col.minValue + 1)
  }

  predicate AreDistinct(children: seq<uint16>) {
    forall i, j :: 0 <= i < j < |children| ==> children[i] != children[j]
  }

  lemma {:induction false} LastParent(children: seq<uint16>, r: nat)
    requires r < |children| <= 250
    ensures r <= ParentOf(children, children[r]) < |children|
    ensures ParentOf(children, children[r]) == r <==> children[r] !in children[r + 1..]
    decreases |children|
  {
    var last := |children| - 1;
    if r < last {
      assert children[..last][r] == children[r];
      assert children[r + 1..] == children[..last][r + 1..] + [children[last]];
      if children[last] != children[r] {
        LastParent(children[..last], r);
      }
    }
  }

  /** Entry k names the last record whose child is minValue + k, or none. */
  lemma ParentListLaw(list: seq<nat>, recs: seq<Record>, c: nat, col: Column, k: nat)
    requires IsParentList(list, recs, c, col) && |recs| <= 250 && k <= col.maxValue - col.minValue
    ensures |list| == col.maxValue - col.minValue + 1
    ensures (forall r :: 0 <= r < |recs| ==> recs[r][c] != col.minValue + k) ==> list[k] == 0xFF
    ensures forall r :: 0 <= r < |recs| && recs[r][c] == col.minValue + k ==>
              r <= list[k] < |recs| && recs[list[k]][c] == col.minValue + k
  {
    var children := ColumnValues(recs, c);
    assert list[k] == ParentOf(children, col.minValue + k);
    assert forall r :: 0 <= r < |recs| ==> children[r] == recs[r][c];
    assert list[k] != 0xFF ==> list[k] < |children| && children[list[k]] == recs[list[k]][c];
    forall r | 0 <= r < |recs| && recs[r][c] == col.minValue + k
      ensures r <= list[k] < |recs|
    {
      LastParent(children, r);
    }
  }

  /** BDB_getParentRecord leads back from every child table to its parent record exactly when no two
      parent records name the same child. */
  lemma ParentListIsInverse(children: seq<uint16>, minValue: uint16, maxValue: uint16)
    requires |children| <= 250 && minValue <= maxValue
    requires forall r :: 0 <= r < |children| ==> minValue <= children[r] <= maxValue
    ensures AreDistinct(children)
            <==> forall r :: 0 <= r < |children| ==>
                   ParentList(children, minValue, maxValue - minValue + 1)[children[r] - minValue] == r
  {
    forall r | 0 <= r < |children|
      ensures ParentList(children, minValue, maxValue - minValue + 1)[children[r] - minValue] == r
              <==> children[r] !in children[r + 1..]
    {
      LastParent(children, r);
    }
    DistinctMeans(children);
  }

  lemma DistinctMeans(children: seq<uint16>)
    ensures AreDistinct(children) <==> forall r :: 0 <= r < |children| ==> children[r] !in children[r + 1..]
  {
    if AreDistinct(children) {
    } else {
      var i, j :| 0 <= i < j < |children| && children[i] == children[j];
      assert children[i + 1..][j - i - 1] == children[i];
    }
  }

  /** A new record at position r + 1 of a parent table names child minValue + r + 1; the children stay
      distinct exactly when no record named that child before. */
  lemma NewChildIsDistinct(children: seq<uint16>, minValue: uint8, r: nat)
    requires r < |children| && minValue + r + 1 < 0x1_0000 && AreDistinct(children)
    ensures AreDistinct(With(children, r + 1, minValue + r + 1)) <==> minValue + r + 1 !in children
  {
    var child, after := minValue + r + 1, With(children, r + 1, minValue + r + 1);
    assert forall i :: 0 <= i < |children| ==> after[if i <= r then i else i + 1] == children[i];
    if child in children {
      var i :| 0 <= i < |children| && children[i] == child;
      assert after[if i <= r then i else i + 1] == after[r + 1];
    }
  }

  /** What BDB_insertRecordAfter does to the child column of a parent table: the new record, at position
      r + 1, names the child minValue + r + 1. */
  lemma InsertNamesChild(schema: Tables, db: Db, t: nat, r: nat, c: nat)
    requires SchemaIsValid(schema) && IsConsistent(schema, db) && t < |db| && r < |db[t]| < schema[t].maxNumRecords
    requires |schema[t].recordDefs| == 1 && c < |schema[t].recordDefs[0]| && schema[t].recordDefs[0][c].colType.ChildTable?
    ensures forall i :: 0 <= i < |db[t]| ==> c < |db[t][i]|
    ensures forall i :: 0 <= i <= |db[t]| ==> c < |Insert(schema, db, t, r)[t][i]|
    ensures var minValue := schema[t].recordDefs[0][c].minValue;
            && minValue < 0x100
            && ColumnValues(Insert(schema, db, t, r)[t], c)
                 == With(ColumnValues(db[t], c), r + 1, minValue + r + 1)
  {
    var after := Insert(schema, db, t, r)[t];
    assert |after| == |db[t]| + 1;
    hide SchemaIsValid, IsConsistent, Insert, DefaultRecord;
    forall i | 0 <= i < |db[t]|
      ensures c < |db[t][i]|
    {
      CellBeforeInsert(schema, db, t, c, i);
    }
    forall i | 0 <= i <= |db[t]|
      ensures c < |after[i]|
      ensures after[i][c] == if i == r + 1 then schema[t].recordDefs[0][c].minValue + r + 1
                             else db[t][if i > r then i - 1 else i][c]
    {
      CellAfterInsert(schema, db, t, r, c, i);
    }
    CellAfterInsert(schema, db, t, r, c, r + 1);
  }

  lemma CellBeforeInsert(schema: Tables, db: Db, t: nat, c: nat, i: nat)
    requires SchemaIsValid(schema) && IsConsistent(schema, db) && t < |db| && i < |db[t]|
    requires |schema[t].recordDefs| == 1 && c < |schema[t].recordDefs[0]| && schema[t].recordDefs[0][c].colType.ChildTable?
    ensures c < |db[t][i]|
  {
    PopulatedIsDb(schema, db);
    hide SchemaIsValid, IsConsistent, IsDb;
    ChildColumn(schema, db, t, c, i);
  }

  lemma CellAfterInsert(schema: Tables, db: Db, t: nat, r: nat, c: nat, i: nat)
    requires SchemaIsValid(schema) && IsConsistent(schema, db) && t < |db| && r < |db[t]| < schema[t].maxNumRecords
    requires |schema[t].recordDefs| == 1 && c < |schema[t].recordDefs[0]| && schema[t].recordDefs[0][c].colType.ChildTable?
    requires i <= |db[t]|
    ensures schema[t].recordDefs[0][c].minValue < 0x100 && r + 1 < 250
    ensures c < |Insert(schema, db, t, r)[t][i]|
    ensures i != r + 1 ==> c < |db[t][if i > r then i - 1 else i]|
    ensures Insert(schema, db, t, r)[t][i][c]
         == if i == r + 1 then schema[t].recordDefs[0][c].minValue + r + 1
            else db[t][if i > r then i - 1 else i][c]
  {
    SchemaColumn(schema, t, 0, c);
    TableSizes(schema, t);
    InsertKeepsIntegrity(schema, db, t, r);
    InsertedTable(schema, db, t, r, t);
    hide SchemaIsValid, IsConsistent, Insert, DefaultRecord, ShiftRecord;
    CellBeforeInsert(schema, Insert(schema, db, t, r), t, c, i);
    if i == r + 1 {
      ChildOfDefault(schema[t], r + 1, c);
    } else {
      CellBeforeInsert(schema, db, t, c, if i > r then i - 1 else i);
      ChildStays(schema[t], t, db[t][if i > r then i - 1 else i], r, c);
    }
  }

  lemma ChildOfDefault(table: Table, id: nat, c: nat)
    requires table.recordDefs != [] && c < |table.recordDefs[0]| && table.recordDefs[0][c].colType.ChildTable?
    requires c < |DefaultRecord(table, id)| && table.recordDefs[0][c].minValue <= 250 && id < 250
    ensures DefaultRecord(table, id)[c] == table.recordDefs[0][c].minValue + id
  {
  }

  lemma ChildStays(table: Table, t: nat, rec: Record, r: nat, c: nat)
    requires |table.recordDefs| == 1 && c < |table.recordDefs[0]| && table.recordDefs[0][c].colType.ChildTable?
    requires c < |rec|
    ensures ShiftRecord(table, t, rec, t, r, true)[c] == rec[c]
  {
  }

  /** After an insert the records of a parent table still name different children exactly when no
      record named the child of the new one before. */
  lemma InsertKeepsChildrenDistinct(schema: Tables, db: Db, t: nat, r: nat, c: nat)
    requires SchemaIsValid(schema) && IsConsistent(schema, db) && t < |db| && r < |db[t]| < schema[t].maxNumRecords
    requires |schema[t].recordDefs| == 1 && c < |schema[t].recordDefs[0]| && schema[t].recordDefs[0][c].colType.ChildTable?
    requires forall i :: 0 <= i < |db[t]| ==> c < |db[t][i]|
    requires AreDistinct(ColumnValues(db[t], c))
    ensures forall i :: 0 <= i <= |db[t]| ==> c < |Insert(schema, db, t, r)[t][i]|
    ensures AreDistinct(ColumnValues(Insert(schema, db, t, r)[t], c))
            <==> schema[t].recordDefs[0][c].minValue + r + 1 !in ColumnValues(db[t], c)
  {
    InsertNamesChild(schema, db, t, r, c);
    hide SchemaIsValid, IsConsistent, Insert, AreDistinct;
    NewChildIsDistinct(ColumnValues(db[t], c), schema[t].recordDefs[0][c].minValue, r);
  }

  /** Inserting twice after the first record of the parent table of a new database names a child twice. */
  lemma MiddleInsertRepeatsChild(schema: Tables, t: nat, c: nat)
    requires SchemaIsValid(schema) && t < |schema| && schema[t].maxNumRecords > 2
    requires |schema[t].recordDefs| == 1 && c < |schema[t].recordDefs[0]| && schema[t].recordDefs[0][c].colType.ChildTable?
    ensures var (one, child) := (Insert(schema, InitialDb(schema), t, 0), schema[t].recordDefs[0][c].minValue);
            && child < 0x100 && |one| == |schema| && |one[t]| == 2 && c < |one[t][0]| && c < |one[t][1]|
            && ColumnValues(one[t], c) == [child, child + 1] && AreDistinct(ColumnValues(one[t], c))
            && var two := Insert(schema, one, t, 0);
               && |two[t]| == 3 && c < |two[t][0]| && c < |two[t][1]| && c < |two[t][2]|
               && ColumnValues(two[t], c) == [child, child + 1, child + 1] && !AreDistinct(ColumnValues(two[t], c))
  {
    var (db, child) := (InitialDb(schema), schema[t].recordDefs[0][c].minValue);
    var one := Insert(schema, db, t, 0);
    InitialIsConsistent(schema);
    FirstNamesFirst(schema, t, c);
    InsertNamesChild(schema, db, t, 0, c);
    InsertKeepsIntegrity(schema, db, t, 0);
    InsertNamesChild(schema, one, t, 0, c);
    hide *;
    MiddleRepeats(child);
  }

  lemma MiddleRepeats(child: uint8)
    ensures With([child], 1, child + 1) == [child, child + 1] && AreDistinct([child, child + 1])
    ensures With([child, child + 1], 1, child + 1) == [child, child + 1, child + 1]
    ensures !AreDistinct([child, child + 1, child + 1])
  {
    var children := [child, child + 1, child + 1];
    assert children[1] == children[2];
  }

  lemma FirstNamesFirst(schema: Tables, t: nat, c: nat)
    requires SchemaIsValid(schema) && t < |schema|
    requires |schema[t].recordDefs| == 1 && c < |schema[t].recordDefs[0]| && schema[t].recordDefs[0][c].colType.ChildTable?
    ensures |InitialDb(schema)[t]| == 1 && c < |InitialDb(schema)[t][0]|
    ensures ColumnValues(InitialDb(schema)[t], c) == [schema[t].recordDefs[0][c].minValue]
  {
    InitialIsConsistent(schema);
    SchemaColumn(schema, t, 0, c);
    var db := InitialDb(schema);
    assert db[t] == [DefaultRecord(schema[t], 0)];
    CellBeforeInsert(schema, db, t, c, 0);
    hide SchemaIsValid, IsConsistent, InitialDb, DefaultRecord;
    ChildOfDefault(schema[t], 0, c);
  }

  lemma PopulatedIsDb(schema: Tables, db: Db)
    requires IsPopulated(schema, db)
    ensures IsDb(schema, db) && |db| == |schema| && forall t :: 0 <= t < |db| ==> db[t] != []
  {
  }

  lemma ChildColumn(schema: Tables, db: Db, t: nat, c: nat, r: nat)
    requires SchemaIsValid(schema) && IsDb(schema, db) && t < |db| && r < |db[t]|
    requires |schema[t].recordDefs| == 1 && c < |schema[t].recordDefs[0]| && schema[t].recordDefs[0][c].colType.ChildTable?
    ensures c < |db[t][r]| && IsReadable(schema, db, t, r, c) && ValueOf(schema, db, t, r, c) == db[t][r][c]
    ensures schema[t].recordDefs[0][c].minValue <= db[t][r][c] <= schema[t].recordDefs[0][c].maxValue <= 250
  {
    RecordStands(schema, db, t, r);
    SchemaColumn(schema, t, 0, c);
    TableSizes(schema, t);
    hide SchemaIsValid;
    RealColumns(schema[t].recordDefs[0], c);
  }

  lemma ListUpdated(children: seq<uint16>, child: uint16, minValue: uint16, size: nat, list: seq<nat>)
    requires minValue <= child < minValue + size
    requires list == ParentList(children, minValue, size)
    ensures list[child - minValue := |children|] == ParentList(children + [child], minValue, size)
  {
    var next := list[child - minValue := |children|];
    assert (children + [child])[..|children|] == children;
    forall i | 0 <= i < size
      ensures next[i] == ParentOf(children + [child], minValue + i)
    {
      assert list[i] == ParentOf(children, minValue + i);
    }
  }

  lemma EmptyList(minValue: uint16, size: nat)
    ensures ParentList([], minValue, size) == seq<nat>(size, _ => NO_RECORD_ID)
  {
    var list := ParentList([], minValue, size);
    forall i | 0 <= i < size
      ensures list[i] == NO_RECORD_ID
    {
      assert list[i] == ParentOf([], minValue + i);
    }
  }
}
