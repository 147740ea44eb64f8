/** Positions shift, identities do not: across every insert and delete each surviving reference
    goes on denoting the same record. */
module RecordIdentity {
  import opened Schema
  import opened SlotIndex
  import opened LogicalDatabase

  /** A database whose records carry names: names[t][i] is the name of record i of table t. */
  datatype Named = Named(db: Db, names: seq<seq<nat>>, next: nat)

  datatype Move = InsertAfter(t: nat, r: nat) | Remove(t: nat, r: nat)

  /** The names of the n records of one table: different from each other, and all given out. */
  predicate AreNames(names: seq<nat>, n: nat, next: nat) {
    && |names| == n
    && (forall i, j :: 0 <= i < j < n ==> names[i] != names[j])
    && forall i :: 0 <= i < n ==> names[i] < next
  }

  ghost predicate NamesAreGood(s: Named) {
    |s.names| == |s.db| && forall t :: 0 <= t < |s.db| ==> AreNames(s.names[t], |s.db[t]|, s.next)
  }

  ghost predicate IsGood(schema: Tables, s: Named) {
    SchemaIsValid(schema) && IsConsistent(schema, s.db) && NamesAreGood(s)
  }

  /** The move is carried out: there is room for the new record, or the record may be deleted. */
  ghost predicate IsPossible(schema: Tables, s: Named, m: Move)
    requires |s.db| == |schema|
  {
    && m.t < |s.db| && m.r < |s.db[m.t]|
    && match m
       case InsertAfter(t, _) => |s.db[t]| < schema[t].maxNumRecords
       case Remove(t, r) => |s.db[t]| > 1 && !IsReferenced(schema, s.db, t, r)
  }

  /** A new record gets a fresh name; all others keep theirs. */
  ghost function Moved(schema: Tables, s: Named, m: Move): Named
    requires IsGood(schema, s) && IsPossible(schema, s, m)
  {
    match m
    case InsertAfter(t, r) =>
      DefaultIsRecord(schema, t, 0);
      Named(Insert(schema, s.db, t, r), s.names[t := With(s.names[t], r + 1, s.next)], s.next + 1)
    case Remove(t, r) => Named(Delete(schema, s.db, t, r), s.names[t := Without(s.names[t], r)], s.next)
  }

  /** Where record (u, i) stands after the move. */
  function NewPosition(m: Move, u: nat, i: nat): nat {
    match m
    case InsertAfter(t, r) => if u == t && i > r then i + 1 else i
    case Remove(t, r) => if u == t && i > r then i - 1 else i
  }

  predicate Survives(m: Move, u: nat, i: nat) {
    m.Remove? ==> !(u == m.t && i == m.r)
  }

  /** The name of the record that reference column c of record (u, i) denotes. */
  function Denoted(s: Named, u: nat, i: nat, c: nat, target: nat): nat
    requires u < |s.db| && i < |s.db[u]| && c < |s.db[u][i]|
    requires target < |s.names| && s.db[u][i][c] < |s.names[target]|
  {
    s.names[target][s.db[u][i][c]]
  }

  /** Record (u, i) of s is record (u, j) of s': same name, same values in every other column, and
      each of its references denotes the record of the same name. */
  ghost predicate SameRecord(schema: Tables, s: Named, s': Named, u: nat, i: nat, j: nat)
    requires |schema| == |s.db| == |s'.db|
  {
    && u < |s.db| && i < |s.db[u]| && j < |s'.db[u]|
    && |s'.db[u][j]| == |s.db[u][i]|
    && forall c: nat :: c < |s.db[u][i]| ==> SameColumn(schema, s, s', u, i, j, c)
  }

  ghost predicate SameColumn(schema: Tables, s: Named, s': Named, u: nat, i: nat, j: nat, c: nat)
    requires |schema| == |s.db| == |s'.db| && u < |s.db| && i < |s.db[u]| && j < |s'.db[u]|
    requires c < |s.db[u][i]| && c < |s'.db[u][j]|
  {
    && (forall target: nat :: target < |schema| ==>
          (IsRef(schema[u], u, s'.db[u][j], c, target) <==> IsRef(schema[u], u, s.db[u][i], c, target)))
    && ((forall target: nat :: target < |schema| ==> !IsRef(schema[u], u, s.db[u][i], c, target))
          ==> s'.db[u][j][c] == s.db[u][i][c])
    && forall target: nat :: target < |schema| && IsRef(schema[u], u, s.db[u][i], c, target) ==>
         && target < |s.names| == |s'.names|
         && s.db[u][i][c] < |s.names[target]| && s'.db[u][j][c] < |s'.names[target]|
         && Denoted(s', u, j, c, target) == Denoted(s, u, i, c, target)
  }

  lemma StepIsGood(schema: Tables, s: Named, m: Move)
    requires IsGood(schema, s) && IsPossible(schema, s, m)
    ensures IsGood(schema, Moved(schema, s, m))
  {
    if m.InsertAfter? {
      InsertKeepsIntegrity(schema, s.db, m.t, m.r);
    } else {
      DeleteKeepsIntegrity(schema, s.db, m.t, m.r);
    }
    hide SchemaIsValid, IsConsistent, DefaultRecord, ShiftRecord, IsReferenced;
    NamesMove(schema, s, m);
  }

  lemma NamesMove(schema: Tables, s: Named, m: Move)
    requires IsGood(schema, s) && IsPossible(schema, s, m)
    ensures NamesAreGood(Moved(schema, s, m))
    ensures forall u: nat, i: nat :: u < |s.db| && i < |s.db[u]| && Survives(m, u, i) ==>
              && NewPosition(m, u, i) < |Moved(schema, s, m).names[u]|
              && Moved(schema, s, m).names[u][NewPosition(m, u, i)] == s.names[u][i]
  {
    MovedParts(schema, s, m);
    var s' := Moved(schema, s, m);
    GoodTables(schema, s);
    hide Moved, SchemaIsValid, IsConsistent, IsReferenced, IsGood, IsPossible, With, Without, AreNames,
      Survives, NewPosition;
    forall u: nat | u < |s.db|
      ensures AreNames(s'.names[u], |s'.db[u]|, s'.next)
      ensures forall i: nat :: i < |s.db[u]| && Survives(m, u, i) ==>
                NewPosition(m, u, i) < |s'.names[u]| && s'.names[u][NewPosition(m, u, i)] == s.names[u][i]
    {
      NamesMoveIn(s.names[u], s'.names[u], s.next, m, u);
    }
  }

  lemma GoodTables(schema: Tables, s: Named)
    requires IsGood(schema, s)
    ensures |s.names| == |s.db| == |schema|
    ensures forall u: nat :: u < |s.db| ==> AreNames(s.names[u], |s.names[u]|, s.next) && |s.names[u]| == |s.db[u]|
  {
    hide SchemaIsValid;
  }

  /** The names of one table. */
  lemma NamesMoveIn(names: seq<nat>, names': seq<nat>, next: nat, m: Move, u: nat)
    requires AreNames(names, |names|, next) && (u == m.t ==> m.r < |names|)
    requires names' == if u != m.t then names
                       else if m.InsertAfter? then With(names, m.r + 1, next) else Without(names, m.r)
    ensures AreNames(names', |names'|, if m.InsertAfter? then next + 1 else next)
    ensures forall i: nat :: i < |names| && Survives(m, u, i) ==>
              NewPosition(m, u, i) < |names'| && names'[NewPosition(m, u, i)] == names[i]
  {
    if u == m.t {
      hide AreNames;
      if m.InsertAfter? {
        NameInserted(names, m.r + 1, next);
      } else {
        NameRemoved(names, m.r, next);
      }
    }
  }

  lemma MovedParts(schema: Tables, s: Named, m: Move)
    requires IsGood(schema, s) && IsPossible(schema, s, m)
    ensures var s' := Moved(schema, s, m);
            && |s'.names| == |s.names| == |s'.db| == |s.db| == |schema|
            && m.r < |s.names[m.t]| && s'.next == (if m.InsertAfter? then s.next + 1 else s.next)
            && (forall u :: 0 <= u < |s.db| && u != m.t ==> s'.names[u] == s.names[u] && |s'.db[u]| == |s.db[u]|)
            && s'.names[m.t] == (if m.InsertAfter? then With(s.names[m.t], m.r + 1, s.next)
                                 else Without(s.names[m.t], m.r))
            && |s'.db[m.t]| == |s'.names[m.t]| && schema[m.t].recordDefs != []
            && s'.db == if m.InsertAfter? then Insert(schema, s.db, m.t, m.r) else Delete(schema, s.db, m.t, m.r)
  {
    DefaultIsRecord(schema, m.t, 0);
    GoodTables(schema, s);
    hide SchemaIsValid, IsConsistent, DefaultRecord, IsReferenced, AreNames, Insert, Delete, With, Without;
    forall u: nat | u < |s.db|
      ensures |Moved(schema, s, m).db| == |s.db|
      ensures |Moved(schema, s, m).db[u]|
           == if u != m.t then |s.db[u]| else if m.InsertAfter? then |s.db[u]| + 1 else |s.db[u]| - 1
    {
      if m.InsertAfter? {
        InsertedTable(schema, s.db, m.t, m.r, u);
      } else {
        DeletedTable(schema, s.db, m.t, m.r, u);
      }
    }
  }

  lemma NameInserted(names: seq<nat>, at: nat, next: nat)
    requires at <= |names| && AreNames(names, |names|, next)
    ensures AreNames(With(names, at, next), |names| + 1, next + 1)
    ensures forall i :: 0 <= i < |names| ==> With(names, at, next)[if i >= at then i + 1 else i] == names[i]
  {
  }

  lemma NameRemoved(names: seq<nat>, at: nat, next: nat)
    requires at < |names| && AreNames(names, |names|, next)
    ensures AreNames(Without(names, at), |names| - 1, next)
    ensures forall i :: 0 <= i < |names| && i != at ==> Without(names, at)[if i > at then i - 1 else i] == names[i]
  {
  }

  /** One move: a surviving record stands at its new position and is the same record. */
  lemma MoveKeepsRecord(schema: Tables, s: Named, m: Move, u: nat, i: nat)
    requires IsGood(schema, s) && IsPossible(schema, s, m)
    requires u < |s.db| && i < |s.db[u]| && Survives(m, u, i)
    ensures SameRecord(schema, s, Moved(schema, s, m), u, i, NewPosition(m, u, i))
  {
    var s', j, rec := Moved(schema, s, m), NewPosition(m, u, i), s.db[u][i];
    RecordMoves(schema, s, m, u, i);
    hide SchemaIsValid, IsConsistent, IsReferenced, Moved, IsGood, IsPossible, SameColumn, ShiftRecord,
      NewPosition, Survives;
    forall c: nat | c < |rec|
      ensures SameColumn(schema, s, s', u, i, j, c)
    {
      ColumnMoves(schema, s, m, u, i, c);
    }
  }

  /** Where a surviving record stands, with its references renumbered. */
  lemma RecordMoves(schema: Tables, s: Named, m: Move, u: nat, i: nat)
    requires IsGood(schema, s) && IsPossible(schema, s, m)
    requires u < |s.db| && i < |s.db[u]| && Survives(m, u, i)
    ensures |Moved(schema, s, m).db| == |s.db| == |schema|
    ensures var (db, j, rec) := (Moved(schema, s, m).db, NewPosition(m, u, i), s.db[u][i]);
            && j < |db[u]| && rec != [] && db[u][j] == ShiftRecord(schema[u], u, rec, m.t, m.r, m.InsertAfter?)
            && |db[u][j]| == |rec| && RecordDefId(schema[u], db[u][j][0]) == RecordDefId(schema[u], rec[0])
  {
    var rec := s.db[u][i];
    RecordIsNotEmpty(schema, s.db, u, i);
    ShiftKeepsType(schema, u, rec, m.t, m.r, m.InsertAfter?);
    MovedParts(schema, s, m);
    hide SchemaIsValid, IsConsistent, IsReferenced, ShiftRecord, NamesAreGood, Moved, Insert, Delete,
      NewPosition, Survives;
    RecordShifts(schema, s.db, m, u, i);
  }

  lemma RecordShifts(schema: Tables, db: Db, m: Move, u: nat, i: nat)
    requires |db| == |schema| && m.t < |db| && m.r < |db[m.t]| && schema[m.t].recordDefs != []
    requires u < |db| && i < |db[u]| && Survives(m, u, i)
    ensures var (after, j) := (if m.InsertAfter? then Insert(schema, db, m.t, m.r) else Delete(schema, db, m.t, m.r),
                               NewPosition(m, u, i));
            && |after| == |db| && j < |after[u]|
            && after[u][j] == ShiftRecord(schema[u], u, db[u][i], m.t, m.r, m.InsertAfter?)
  {
    hide ShiftRecord, Insert, Delete, DefaultRecord;
    if m.InsertAfter? {
      InsertedTable(schema, db, m.t, m.r, u);
    } else {
      DeletedTable(schema, db, m.t, m.r, u);
    }
  }

  lemma RecordIsNotEmpty(schema: Tables, db: Db, u: nat, i: nat)
    requires IsConsistent(schema, db) && u < |db| && i < |db[u]|
    ensures |db| == |schema| && db[u][i] != []
  {
    assert IsTable(schema[u], db[u]);
  }

  lemma ColumnMoves(schema: Tables, s: Named, m: Move, u: nat, i: nat, c: nat)
    requires IsGood(schema, s) && IsPossible(schema, s, m)
    requires u < |s.db| && i < |s.db[u]| && Survives(m, u, i) && c < |s.db[u][i]|
    requires var j := NewPosition(m, u, i);
             j < |Moved(schema, s, m).db[u]|
             && Moved(schema, s, m).db[u][j] == ShiftRecord(schema[u], u, s.db[u][i], m.t, m.r, m.InsertAfter?)
             && RecordDefId(schema[u], Moved(schema, s, m).db[u][j][0]) == RecordDefId(schema[u], s.db[u][i][0])
    ensures SameColumn(schema, s, Moved(schema, s, m), u, i, NewPosition(m, u, i), c)
  {
    hide SchemaIsValid, IsConsistent, Moved, IsReferenced, NamesAreGood, RefersTo, ShiftRecord, DefaultRecord;
    var s', j := Moved(schema, s, m), NewPosition(m, u, i);
    NamesMove(schema, s, m);
    NameCounts(schema, s, m);
    var rec, rec' := s.db[u][i], s'.db[u][j];
    assert forall target: nat :: IsRef(schema[u], u, rec', c, target) <==> IsRef(schema[u], u, rec, c, target);
    forall target: nat | target < |schema| && IsRef(schema[u], u, rec, c, target)
      ensures target < |s.names| == |s'.names|
      ensures rec[c] < |s.names[target]| && rec'[c] < |s'.names[target]|
      ensures Denoted(s', u, j, c, target) == Denoted(s, u, i, c, target)
    {
      ReferenceMoves(schema, s, m, u, i, c, target);
    }
    PlainColumn(schema, u, rec, m.t, m.r, m.InsertAfter?, c);
  }

  lemma PlainColumn(schema: Tables, u: nat, rec: Record, t: nat, r: nat, up: bool, c: nat)
    requires u < |schema| && t < |schema| && c < |rec|
    ensures !IsRef(schema[u], u, rec, c, t) ==> ShiftRecord(schema[u], u, rec, t, r, up)[c] == rec[c]
  {
  }

  lemma NameCounts(schema: Tables, s: Named, m: Move)
    requires IsGood(schema, s) && IsPossible(schema, s, m)
    ensures |Moved(schema, s, m).names| == |s.names| == |s.db| == |schema| == |Moved(schema, s, m).db|
    ensures forall u :: 0 <= u < |s.db| ==> |s.names[u]| == |s.db[u]|
  {
    hide SchemaIsValid, DefaultRecord, ShiftRecord, IsReferenced;
  }

  /** What a consistent database knows of one reference. */
  lemma ReferenceFacts(schema: Tables, db: Db, u: nat, i: nat, c: nat, target: nat)
    requires SchemaIsValid(schema) && IsConsistent(schema, db) && u < |db| && i < |db[u]|
    requires target < |schema| && IsRef(schema[u], u, db[u][i], c, target)
    ensures db[u][i][c] < |db[target]| <= 250
    ensures forall id: nat :: !IsReferenced(schema, db, target, id) && db[u][i][c] == id ==> u == target && i == id
  {
    hide RefersTo, ColumnsOf;
    assert RefsBelow(schema[u], u, db[u][i], target, |db[target]|);
    assert IsTable(schema[target], db[target]);
    assert TableIsValid(schema, target);
  }

  lemma ReferenceMoves(schema: Tables, s: Named, m: Move, u: nat, i: nat, c: nat, target: nat)
    requires IsGood(schema, s) && IsPossible(schema, s, m)
    requires u < |s.db| && i < |s.db[u]| && Survives(m, u, i)
    requires target < |schema| && IsRef(schema[u], u, s.db[u][i], c, target)
    ensures s.db[u][i][c] < |s.db[target]| && Survives(m, target, s.db[u][i][c])
    ensures ShiftRecord(schema[u], u, s.db[u][i], m.t, m.r, m.InsertAfter?)[c] == NewPosition(m, target, s.db[u][i][c])
  {
    var rec := s.db[u][i];
    ReferenceFacts(schema, s.db, u, i, c, target);
    hide SchemaIsValid, IsConsistent, IsReferenced;
    assert target != m.t ==> !IsRef(schema[u], u, rec, c, m.t);
  }

  // ---- whole runs ----

  ghost predicate RunIsPossible(schema: Tables, s: Named, moves: seq<Move>)
    requires IsGood(schema, s)
    decreases |moves|
  {
    moves == [] ||
    (IsPossible(schema, s, moves[0])
     && (StepIsGood(schema, s, moves[0]); RunIsPossible(schema, Moved(schema, s, moves[0]), moves[1..])))
  }

  ghost function Run(schema: Tables, s: Named, moves: seq<Move>): Named
    requires IsGood(schema, s) && RunIsPossible(schema, s, moves)
    decreases |moves|
  {
    if moves == [] then s
    else
      StepIsGood(schema, s, moves[0]);
      Run(schema, Moved(schema, s, moves[0]), moves[1..])
  }

  lemma {:induction false} RunIsGood(schema: Tables, s: Named, moves: seq<Move>)
    requires IsGood(schema, s) && RunIsPossible(schema, s, moves)
    ensures IsGood(schema, Run(schema, s, moves)) && |Run(schema, s, moves).names| == |s.names|
    decreases |moves|
  {
    hide IsGood, IsPossible, Moved;
    if moves != [] {
      StepIsGood(schema, s, moves[0]);
      NameCounts(schema, s, moves[0]);
      RunIsGood(schema, Moved(schema, s, moves[0]), moves[1..]);
    }
  }

  /** Names are never reused: an old name at the end is the name of a record that was there. */
  lemma {:induction false} OldNamesStay(schema: Tables, s: Named, moves: seq<Move>, u: nat, j: nat)
    requires IsGood(schema, s) && RunIsPossible(schema, s, moves)
    requires u < |s.names| == |Run(schema, s, moves).names| && j < |Run(schema, s, moves).names[u]|
    requires Run(schema, s, moves).names[u][j] < s.next
    ensures Run(schema, s, moves).names[u][j] in s.names[u]
    decreases |moves|
  {
    hide SchemaIsValid, IsConsistent, IsPossible;
    if moves != [] {
      StepIsGood(schema, s, moves[0]);
      NameCounts(schema, s, moves[0]);
      OldNamesStay(schema, Moved(schema, s, moves[0]), moves[1..], u, j);
    }
  }

  lemma NameOccursOnce(s: Named, u: nat, i: nat, j: nat)
    requires NamesAreGood(s) && u < |s.db| && i < |s.db[u]| && j < |s.db[u]| && s.names[u][i] == s.names[u][j]
    ensures i == j
  {
  }

  lemma SameRecordTransitive(schema: Tables, s: Named, s1: Named, s2: Named, u: nat, i: nat, p: nat, j: nat)
    requires |schema| == |s.db| == |s1.db| == |s2.db|
    requires SameRecord(schema, s, s1, u, i, p) && SameRecord(schema, s1, s2, u, p, j)
    ensures SameRecord(schema, s, s2, u, i, j)
  {
    hide IsRef;
    forall c: nat | c < |s.db[u][i]|
      ensures SameColumn(schema, s, s2, u, i, j, c)
    {
      assert SameColumn(schema, s, s1, u, i, p, c) && SameColumn(schema, s1, s2, u, p, j, c);
    }
  }

  /** A removed name is gone from its table for good. */
  lemma RemovedNameIsGone(schema: Tables, s: Named, m: Move, u: nat, i: nat)
    requires IsGood(schema, s) && IsPossible(schema, s, m) && u < |s.db| && i < |s.db[u]|
    requires !Survives(m, u, i)
    ensures u < |Moved(schema, s, m).names| && s.names[u][i] !in Moved(schema, s, m).names[u]
  {
    hide SchemaIsValid, IsConsistent, IsReferenced, DefaultRecord, ShiftRecord;
    var names := Moved(schema, s, m).names[u];
    assert forall k :: 0 <= k < |names| ==> names[k] == s.names[u][if k < i then k else k + 1];
  }

  /** References follow records over whole runs: the record that carries a name at the end of any
      sequence of inserts and deletes is the one that carried it at the start, and each of its
      references still denotes the record it denoted. */
  lemma {:induction false} ReferencesFollowRecords(schema: Tables, s: Named, moves: seq<Move>, u: nat, i: nat, j: nat)
    requires IsGood(schema, s) && RunIsPossible(schema, s, moves)
    requires u < |s.db| == |Run(schema, s, moves).db| && i < |s.db[u]| && j < |Run(schema, s, moves).db[u]|
    requires |s.names| == |Run(schema, s, moves).names| == |schema|
    requires i < |s.names[u]| && j < |Run(schema, s, moves).names[u]|
    requires Run(schema, s, moves).names[u][j] == s.names[u][i]
    ensures SameRecord(schema, s, Run(schema, s, moves), u, i, j)
    decreases |moves|
  {
    hide SchemaIsValid, IsConsistent, IsPossible, Moved, SameRecord, NamesAreGood;
    RunIsGood(schema, s, moves);
    GoodNames(schema, s, u, i);
    if moves == [] {
      NameOccursOnce(s, u, i, j);
      SameAsItself(schema, s, u, i);
    } else {
      var m, rest := moves[0], moves[1..];
      StepIsGood(schema, s, m);
      NameCounts(schema, s, m);
      var s1 := Moved(schema, s, m);
      NextGrows(schema, s, m);
      OldNamesStay(schema, s1, rest, u, j);
      if !Survives(m, u, i) {
        RemovedNameIsGone(schema, s, m, u, i);
      }
      NamesMove(schema, s, m);
      MoveKeepsRecord(schema, s, m, u, i);
      var p := NewPosition(m, u, i);
      NameCountsOf(schema, s1);
      ReferencesFollowRecords(schema, s1, rest, u, p, j);
      SameRecordTransitive(schema, s, s1, Run(schema, s, moves), u, i, p, j);
    }
  }

  lemma GoodNames(schema: Tables, s: Named, u: nat, i: nat)
    requires IsGood(schema, s) && u < |s.db| && i < |s.db[u]|
    ensures NamesAreGood(s) && |s.db| == |schema| && s.names[u][i] < s.next
  {
    hide SchemaIsValid;
  }

  lemma NameCountsOf(schema: Tables, s: Named)
    requires IsGood(schema, s)
    ensures |s.names| == |s.db| == |schema| && forall u :: 0 <= u < |s.db| ==> |s.names[u]| == |s.db[u]|
  {
    hide SchemaIsValid;
  }

  lemma NextGrows(schema: Tables, s: Named, m: Move)
    requires IsGood(schema, s) && IsPossible(schema, s, m)
    ensures Moved(schema, s, m).next >= s.next
  {
    hide SchemaIsValid, IsConsistent;
  }

  lemma SameAsItself(schema: Tables, s: Named, u: nat, i: nat)
    requires IsGood(schema, s) && u < |s.db| == |schema| && i < |s.db[u]|
    ensures SameRecord(schema, s, s, u, i, i)
  {
    NameCountsOf(schema, s);
    forall c: nat, target: nat | c < |s.db[u][i]| && target < |schema| && IsRef(schema[u], u, s.db[u][i], c, target)
      ensures s.db[u][i][c] < |s.names[target]|
    {
      ReferenceFacts(schema, s.db, u, i, c, target);
    }
    hide SchemaIsValid, IsConsistent, NamesAreGood, IsRef;
    assert forall c: nat :: c < |s.db[u][i]| ==> SameColumn(schema, s, s, u, i, i, c);
  }
}
