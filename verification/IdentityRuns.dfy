/** Runs in which inserts and deletes are interleaved with all other calls: a reference that no call
    writes goes on denoting the same record. */
module IdentityRuns {
  import opened Schema
  import opened LogicalDatabase
  import R = DatabaseRuns
  import opened RecordIdentity

  /** An insert or delete that is carried out; all other calls leave every record at its position. */
  ghost predicate MovesRecords(schema: Tables, db: Db, op: R.Op)
    requires R.IdsExist(schema, db, op)
    ensures MovesRecords(schema, db, op) ==> op.InsertAfter? || op.Delete?
  {
    (op.InsertAfter? || op.Delete?) && R.Accepts(schema, db, op)
  }

  function MoveOf(op: R.Op): (m: Move)
    requires op.InsertAfter? || op.Delete?
  {
    if op.InsertAfter? then InsertAfter(op.t, op.r) else Remove(op.t, op.r)
  }

  /** One call on a database whose records carry names. */
  ghost function Call(schema: Tables, s: Named, op: R.Op): Named
    requires IsGood(schema, s) && R.IdsExist(schema, s.db, op)
  {
    if MovesRecords(schema, s.db, op) then Moved(schema, s, MoveOf(op))
    else Named(R.Apply(schema, s.db, op), s.names, s.next)
  }

  function PositionAfter(op: R.Op, moves: bool, u: nat, i: nat): nat
    requires moves ==> op.InsertAfter? || op.Delete?
  {
    if moves then NewPosition(MoveOf(op), u, i) else i
  }

  ghost predicate IsKept(schema: Tables, db: Db, op: R.Op, u: nat, i: nat)
    requires R.IdsExist(schema, db, op)
  {
    MovesRecords(schema, db, op) ==> Survives(MoveOf(op), u, i)
  }

  /** The call leaves this value alone, and the type of its record. Moving a record does. */
  ghost predicate Leaves(schema: Tables, db: Db, op: R.Op, u: nat, i: nat, c: nat)
    requires SchemaIsValid(schema) && IsConsistent(schema, db) && R.IdsExist(schema, db, op)
    requires u < |db| && i < |db[u]| && c < |db[u][i]|
  {
    var after := R.Apply(schema, db, op);
    MovesRecords(schema, db, op)
    || (&& u < |after| && i < |after[u]| && c < |after[u][i]| && after[u][i][c] == db[u][i][c]
        && RecordDefId(schema[u], after[u][i][0]) == RecordDefId(schema[u], db[u][i][0]))
  }

  lemma SizesStay(schema: Tables, db: Db, op: R.Op)
    requires SchemaIsValid(schema) && IsConsistent(schema, db)
    requires R.IdsExist(schema, db, op) && !MovesRecords(schema, db, op)
    ensures var after := R.Apply(schema, db, op);
            |after| == |db| == |schema| && forall u :: 0 <= u < |db| ==> |after[u]| == |db[u]|
  {
    hide SchemaIsValid, IsConsistent, IsDb, RefsExist, WithValue, AcceptsRecord, R.NewValue, R.HasColumn;
  }

  lemma CallIsGood(schema: Tables, s: Named, op: R.Op)
    requires IsGood(schema, s) && R.IdsExist(schema, s.db, op)
    requires R.IsSafe(schema, s.db, op) && R.LosesNoTarget(schema, s.db, op)
    ensures IsGood(schema, Call(schema, s, op)) && Call(schema, s, op).db == R.Apply(schema, s.db, op)
    ensures |Call(schema, s, op).names| == |s.names| && Call(schema, s, op).next >= s.next
  {
    R.CallKeepsConsistency(schema, s.db, op);
    if MovesRecords(schema, s.db, op) {
      MoveIsCall(schema, s, op);
      StepIsGood(schema, s, MoveOf(op));
      NameCounts(schema, s, MoveOf(op));
      NextGrows(schema, s, MoveOf(op));
    } else {
      SizesStay(schema, s.db, op);
      hide SchemaIsValid, IsConsistent, R.Apply, R.IsSafe, R.LosesNoTarget, R.IdsExist;
    }
  }

  lemma MoveIsCall(schema: Tables, s: Named, op: R.Op)
    requires IsGood(schema, s) && R.IdsExist(schema, s.db, op) && MovesRecords(schema, s.db, op)
    ensures IsPossible(schema, s, MoveOf(op))
    ensures Moved(schema, s, MoveOf(op)).db == R.Apply(schema, s.db, op)
  {
    hide SchemaIsValid, IsConsistent, IsReferenced, Insert, LogicalDatabase.Delete;
  }

  /** Where a record stands after a call that keeps it, and under which name. */
  lemma NameAfterCall(schema: Tables, s: Named, op: R.Op, u: nat, i: nat)
    requires IsGood(schema, s) && R.IdsExist(schema, s.db, op) && u < |s.db| && i < |s.db[u]|
    ensures u < |s.names| && i < |s.names[u]| && u < |Call(schema, s, op).names|
    ensures !IsKept(schema, s.db, op, u, i) ==> s.names[u][i] !in Call(schema, s, op).names[u]
    ensures var p := PositionAfter(op, MovesRecords(schema, s.db, op), u, i);
            IsKept(schema, s.db, op, u, i) ==>
              && p < |Call(schema, s, op).names[u]| && Call(schema, s, op).names[u][p] == s.names[u][i]
  {
    NameCountsOf(schema, s);
    if MovesRecords(schema, s.db, op) {
      MoveIsCall(schema, s, op);
      NamesMove(schema, s, MoveOf(op));
      NameCounts(schema, s, MoveOf(op));
      if !IsKept(schema, s.db, op, u, i) {
        RemovedNameIsGone(schema, s, MoveOf(op), u, i);
      }
    }
    hide SchemaIsValid, IsConsistent, R.Apply, Moved, R.IdsExist, IsPossible;
  }

  /** One call: a value that it leaves alone is the same, or denotes the same record. */
  lemma CallKeepsColumn(schema: Tables, s: Named, op: R.Op, u: nat, i: nat, c: nat)
    requires IsGood(schema, s) && R.IdsExist(schema, s.db, op) && u < |s.db| && i < |s.db[u]| && c < |s.db[u][i]|
    requires IsKept(schema, s.db, op, u, i) && Leaves(schema, s.db, op, u, i, c)
    ensures var (s', p) := (Call(schema, s, op), PositionAfter(op, MovesRecords(schema, s.db, op), u, i));
            && |s'.db| == |s.db| == |schema| && p < |s'.db[u]| && c < |s'.db[u][p]|
            && SameColumn(schema, s, s', u, i, p, c)
  {
    if MovesRecords(schema, s.db, op) {
      MoveIsCall(schema, s, op);
      NameCounts(schema, s, MoveOf(op));
      MoveKeepsRecord(schema, s, MoveOf(op), u, i);
      hide SchemaIsValid, IsConsistent, R.Apply, Moved, R.IdsExist, IsPossible, SameColumn;
    } else {
      SizesStay(schema, s.db, op);
      hide SchemaIsValid, IsConsistent, R.Apply, R.IdsExist, NamesAreGood, SameColumn;
      ValueStands(schema, s, Call(schema, s, op), u, i, c);
    }
  }

  /** A value that is left where it is, under the same names. */
  lemma ValueStands(schema: Tables, s: Named, s': Named, u: nat, i: nat, c: nat)
    requires IsGood(schema, s) && s'.names == s.names && |s'.db| == |s.db| == |schema|
    requires u < |s.db| && i < |s.db[u]| && i < |s'.db[u]| && c < |s.db[u][i]| && c < |s'.db[u][i]|
    requires s'.db[u][i][c] == s.db[u][i][c]
    requires RecordDefId(schema[u], s'.db[u][i][0]) == RecordDefId(schema[u], s.db[u][i][0])
    ensures SameColumn(schema, s, s', u, i, i, c)
  {
    NameCountsOf(schema, s);
    forall target: nat | target < |schema| && IsRef(schema[u], u, s.db[u][i], c, target)
      ensures s.db[u][i][c] < |s.names[target]|
    {
      ReferenceFacts(schema, s.db, u, i, c, target);
    }
    hide SchemaIsValid, IsConsistent, NamesAreGood, RefersTo;
    assert forall target: nat ::
        IsRef(schema[u], u, s'.db[u][i], c, target) <==> IsRef(schema[u], u, s.db[u][i], c, target);
  }

  // ---- whole runs ----

  ghost function Calls(schema: Tables, s: Named, ops: seq<R.Op>): Named
    requires IsGood(schema, s) && R.RunIsLegal(schema, s.db, ops)
    decreases |ops|
  {
    if ops == [] then s
    else
      CallIsGood(schema, s, ops[0]);
      Calls(schema, Call(schema, s, ops[0]), ops[1..])
  }

  /** No call of the run writes column c of the record that starts as (u, i). */
  ghost predicate AllLeave(schema: Tables, s: Named, ops: seq<R.Op>, u: nat, i: nat, c: nat)
    requires IsGood(schema, s) && R.RunIsLegal(schema, s.db, ops)
    requires u < |s.db| && i < |s.db[u]| && c < |s.db[u][i]|
    decreases |ops|
  {
    ops != [] && IsKept(schema, s.db, ops[0], u, i) ==>
      Leaves(schema, s.db, ops[0], u, i, c)
      && (CallIsGood(schema, s, ops[0]);
          CallKeepsColumn(schema, s, ops[0], u, i, c);
          AllLeave(schema, Call(schema, s, ops[0]), ops[1..], u,
                   PositionAfter(ops[0], MovesRecords(schema, s.db, ops[0]), u, i), c))
  }

  /** The names of a run belong to the database that the calls lead to. */
  lemma {:induction false} CallsAreRun(schema: Tables, s: Named, ops: seq<R.Op>)
    requires IsGood(schema, s) && R.RunIsLegal(schema, s.db, ops)
    ensures IsGood(schema, Calls(schema, s, ops)) && Calls(schema, s, ops).db == R.Run(schema, s.db, ops)
    ensures |Calls(schema, s, ops).names| == |s.names|
    decreases |ops|
  {
    hide IsGood, R.Apply, Call, R.IdsExist, R.IsSafe, R.LosesNoTarget;
    if ops != [] {
      CallIsGood(schema, s, ops[0]);
      CallsAreRun(schema, Call(schema, s, ops[0]), ops[1..]);
    }
  }

  lemma {:induction false} OldNamesRemain(schema: Tables, s: Named, ops: seq<R.Op>, u: nat, j: nat)
    requires IsGood(schema, s) && R.RunIsLegal(schema, s.db, ops)
    requires u < |s.names| == |Calls(schema, s, ops).names| && j < |Calls(schema, s, ops).names[u]|
    requires Calls(schema, s, ops).names[u][j] < s.next
    ensures Calls(schema, s, ops).names[u][j] in s.names[u]
    decreases |ops|
  {
    hide SchemaIsValid, IsConsistent, R.Apply, R.IdsExist, R.IsSafe, R.LosesNoTarget, Call;
    if ops != [] {
      CallIsGood(schema, s, ops[0]);
      OldNamesRemain(schema, Call(schema, s, ops[0]), ops[1..], u, j);
      NewNames(schema, s, ops[0], u);
    }
  }

  /** A call adds no name but the next one. */
  lemma NewNames(schema: Tables, s: Named, op: R.Op, u: nat)
    requires IsGood(schema, s) && R.IdsExist(schema, s.db, op)
    requires R.IsSafe(schema, s.db, op) && R.LosesNoTarget(schema, s.db, op) && u < |s.names|
    ensures u < |Call(schema, s, op).names|
    ensures forall name :: name in Call(schema, s, op).names[u] && name < s.next ==> name in s.names[u]
  {
    hide SchemaIsValid, IsConsistent, R.Apply, IsReferenced, DefaultRecord, ShiftRecord;
  }

  lemma ColumnTransitive(schema: Tables, s: Named, s1: Named, s2: Named, u: nat, i: nat, p: nat, j: nat, c: nat)
    requires |schema| == |s.db| == |s1.db| == |s2.db|
    requires u < |s.db| && i < |s.db[u]| && p < |s1.db[u]| && j < |s2.db[u]|
    requires c < |s.db[u][i]| && c < |s1.db[u][p]| && c < |s2.db[u][j]|
    requires SameColumn(schema, s, s1, u, i, p, c) && SameColumn(schema, s1, s2, u, p, j, c)
    ensures SameColumn(schema, s, s2, u, i, j, c)
  {
    hide IsRef;
  }

  /** References follow records through all calls: in the record that carries a name at the end of any
      legal run, each value that no call wrote is the one that this record had at the start, and each
      such reference denotes the record that it denoted then. */
  lemma {:induction false} ValuesFollowRecords(schema: Tables, s: Named, ops: seq<R.Op>, u: nat, i: nat, j: nat, c: nat)
    requires IsGood(schema, s) && R.RunIsLegal(schema, s.db, ops)
    requires u < |s.db| == |Calls(schema, s, ops).db| && i < |s.db[u]| && j < |Calls(schema, s, ops).db[u]|
    requires |s.names| == |Calls(schema, s, ops).names| == |schema|
    requires i < |s.names[u]| && j < |Calls(schema, s, ops).names[u]|
    requires Calls(schema, s, ops).names[u][j] == s.names[u][i]
    requires c < |s.db[u][i]| && AllLeave(schema, s, ops, u, i, c)
    ensures c < |Calls(schema, s, ops).db[u][j]| && SameColumn(schema, s, Calls(schema, s, ops), u, i, j, c)
    decreases |ops|
  {
    hide SchemaIsValid, IsConsistent, R.Apply, Call, SameColumn, NamesAreGood, IsKept, Leaves, PositionAfter,
      MovesRecords, R.IdsExist, R.IsSafe, R.LosesNoTarget;
    CallsAreRun(schema, s, ops);
    GoodNames(schema, s, u, i);
    if ops == [] {
      NameOccursOnce(s, u, i, j);
      SameAsItself(schema, s, u, i);
      SameInColumn(schema, s, s, u, i, i, c);
    } else {
      var op, rest := ops[0], ops[1..];
      CallIsGood(schema, s, op);
      var s1 := Call(schema, s, op);
      CallsAreRun(schema, s1, rest);
      OldNamesRemain(schema, s1, rest, u, j);
      NameAfterCall(schema, s, op, u, i);
      var p := PositionAfter(op, MovesRecords(schema, s.db, op), u, i);
      CallKeepsColumn(schema, s, op, u, i, c);
      NameCountsOf(schema, s1);
      ValuesFollowRecords(schema, s1, rest, u, p, j, c);
      ColumnTransitive(schema, s, s1, Calls(schema, s, ops), u, i, p, j, c);
    }
  }

  lemma SameInColumn(schema: Tables, s: Named, s': Named, u: nat, i: nat, j: nat, c: nat)
    requires |schema| == |s.db| == |s'.db| && SameRecord(schema, s, s', u, i, j) && c < |s.db[u][i]|
    ensures SameColumn(schema, s, s', u, i, j, c)
  {
    hide SameColumn;
  }
}
