/** What BDB_importTable (src/BitsOfData.c:750-769) reads: records of different types, one behind
    another in one array, without virtual columns. */
module TableImport {
  import opened MachineInts
  import opened Schema
  import opened RecordCodec
  import opened RecordBuffers
  import opened LogicalDatabase
  import opened DatabaseRuns
  import opened EngineState
  import opened ValueSteps
  import opened SlotIndex
  import opened StoreLayout
  import opened StoreSteps

  /** How many values the record at the start of data takes up. */
  function Extent(table: Table, data: seq<uint16>): (n: nat)
    requires HasType(table, data)
    ensures n <= |data|
  {
    NumReal(ColumnsOf(table, data))
  }

  /** The data behind its first record. */
  function Behind(table: Table, data: seq<uint16>): seq<uint16>
    requires HasType(table, data)
  {
    data[Extent(table, data)..]
  }

  function From(data: seq<uint16>, start: nat): seq<uint16> {
    if start <= |data| then data[start..] else []
  }

  /** n records of known types follow one another in data. */
  predicate HoldsRecords(table: Table, data: seq<uint16>, n: nat) {
    n == 0 || (HasType(table, data) && HoldsRecords(table, Behind(table, data), n - 1))
  }

  /** The records, cut out with their own lengths. */
  function Cut(table: Table, data: seq<uint16>, n: nat): (recs: seq<Record>)
    requires HoldsRecords(table, data, n)
    ensures |recs| == n
  {
    if n == 0 then [] else [data[..Extent(table, data)]] + Cut(table, Behind(table, data), n - 1)
  }

  /** The database while table t has n records, as far as its record counts go. */
  function Counting(schema: Tables, db: Db, t: nat, n: nat): (r: Db)
    requires |db| == |schema| && t < |db| && schema[t].recordDefs != []
    ensures |r| == |db| && |r[t]| == n && forall u :: 0 <= u < |db| && u != t ==> r[u] == db[u]
  {
    db[t := seq(n, _ => DefaultRecord(schema[t], 0))]
  }

  /** How many records are valid at the time they are imported, up to the first that is not: a reference
      to the table itself must not point beyond the records that are there by then. k records have been
      imported. */
  ghost function AcceptedCount(schema: Tables, db: Db, t: nat, data: seq<uint16>, k: nat, n: nat): (m: nat)
    requires |db| == |schema| && t < |db| && schema[t].recordDefs != [] && HoldsRecords(schema[t], data, n)
    ensures m <= n
    decreases n
  {
    if n == 0 || !AcceptsRecord(schema[t], Counting(schema, db, t, k + 1), t, data) then 0
    else 1 + AcceptedCount(schema, db, t, Behind(schema[t], data), k + 1, n - 1)
  }

  lemma CountingIsPopulated(schema: Tables, db: Db, t: nat, n: nat)
    requires SchemaIsValid(schema) && t < |schema| && 0 < n <= schema[t].maxNumRecords
    requires |db| == |schema| && forall u :: 0 <= u < |schema| && u != t ==> db[u] != [] && IsTable(schema[u], db[u])
    ensures schema[t].recordDefs != [] && IsPopulated(schema, Counting(schema, db, t, n))
  {
    TableSizes(schema, t);
    DefaultIsRecord(schema, t, 0);
    hide SchemaIsValid, IsRecord, DefaultRecord;
  }

  /** More records never make a record unacceptable. */
  lemma AcceptedLater(schema: Tables, db: Db, t: nat, data: seq<uint16>, k: nat, n: nat)
    requires |db| == |schema| && t < |db| && schema[t].recordDefs != [] && HasType(schema[t], data)
    requires 0 < k <= n <= 250 && AcceptsRecord(schema[t], Counting(schema, db, t, k), t, data)
    ensures AcceptsRecord(schema[t], Counting(schema, db, t, n), t, data)
  {
    var before, after := Counting(schema, db, t, k), Counting(schema, db, t, n);
    hide DefaultRecord, Step;
    forall col: Column
      ensures MaxValueOf(before, t, col) <= MaxValueOf(after, t, col)
    {
    }
  }

  /** Where record k begins. */
  function StartOf(table: Table, data: seq<uint16>, n: nat, k: nat): (start: nat)
    requires HoldsRecords(table, data, n) && k < n
    ensures HasType(table, From(data, start))
    decreases k
  {
    if k == 0 then
      FromStart(data);
      0
    else
      var start := StartOf(table, Behind(table, data), n - 1, k - 1);
      FromBehind(table, data, start);
      Extent(table, data) + start
  }

  lemma FromStart(data: seq<uint16>)
    ensures From(data, 0) == data
  {
  }

  lemma FromBehind(table: Table, data: seq<uint16>, start: nat)
    requires HasType(table, data)
    ensures From(Behind(table, data), start) == From(data, Extent(table, data) + start)
  {
  }

  lemma FirstOf(table: Table, data: seq<uint16>, n: nat)
    requires HoldsRecords(table, data, n) && n > 0
    ensures HasType(table, data) && HoldsRecords(table, Behind(table, data), n - 1)
    ensures StartOf(table, data, n, 0) == 0 && From(data, 0) == data
    ensures Cut(table, data, n)[0] == data[..Extent(table, data)]
    ensures Cut(table, data, n)[1..] == Cut(table, Behind(table, data), n - 1)
  {
    hide HasType, Extent, Behind;
    FromStart(data);
  }

  lemma NextOf(table: Table, data: seq<uint16>, n: nat, k: nat)
    requires HoldsRecords(table, data, n) && 0 < k < n
    ensures HasType(table, data) && HoldsRecords(table, Behind(table, data), n - 1)
    ensures StartOf(table, data, n, k) == Extent(table, data) + StartOf(table, Behind(table, data), n - 1, k - 1)
    ensures From(data, StartOf(table, data, n, k))
         == From(Behind(table, data), StartOf(table, Behind(table, data), n - 1, k - 1))
  {
    hide HasType, Extent, Behind, From;
    FromBehind(table, data, StartOf(table, Behind(table, data), n - 1, k - 1));
  }

  /** The records start one behind the other, each as far behind the last as that is long. */
  lemma {:induction false} StartsFollow(table: Table, data: seq<uint16>, n: nat, k: nat)
    requires HoldsRecords(table, data, n) && k + 1 < n
    ensures StartOf(table, data, n, 0) == 0
    ensures StartOf(table, data, n, k + 1)
         == StartOf(table, data, n, k) + Extent(table, From(data, StartOf(table, data, n, k)))
    decreases k
  {
    hide *;
    FirstOf(table, data, n);
    NextOf(table, data, n, k + 1);
    if k == 0 {
      FirstOf(table, Behind(table, data), n - 1);
    } else {
      NextOf(table, data, n, k);
      StartsFollow(table, Behind(table, data), n - 1, k - 1);
    }
  }

  /** Record k of the import is cut out where the records before it end. */
  lemma {:induction false} CutOfData(table: Table, data: seq<uint16>, n: nat, k: nat)
    requires HoldsRecords(table, data, n) && k < n
    ensures var rest := From(data, StartOf(table, data, n, k));
            Cut(table, data, n)[k] == rest[..Extent(table, rest)]
    decreases k
  {
    hide *;
    FirstOf(table, data, n);
    if k > 0 {
      NextOf(table, data, n, k);
      CutOfData(table, Behind(table, data), n - 1, k - 1);
      assert Cut(table, data, n)[1..][k - 1] == Cut(table, data, n)[k];
    }
  }

  // ---- the table while it is being imported ----

  /** Records 0 .. |done| have been imported: the last one is in the buffer, the others are stored. */
  ghost predicate IsImporting(table: Table, raws: seq<Raw>, b: Buffer, done: seq<Record>) {
    && |raws| == |done| <= 250 && |b.columns| == MaxNumColumns(table)
    && (done == [] ==> b.recordId == NO_RECORD_ID && !b.isModified)
    && (done != [] ==>
          && b.recordId == |done| - 1 && b.isModified
          && HoldsRecord(table, b.columns) && RealPart(table, b.columns) == done[|done| - 1])
    && forall r :: 0 <= r < |raws| - 1 ==> StoresRecord(table, raws[r]) && StoredRecord(table, raws[r]) == done[r]
  }

  /** All of them are stored. */
  ghost predicate AreImported(table: Table, raws: seq<Raw>, done: seq<Record>) {
    && |raws| == |done|
    && forall r :: 0 <= r < |raws| ==> StoresRecord(table, raws[r]) && StoredRecord(table, raws[r]) == done[r]
  }

  /** The import has stopped at a record that is not valid: the slot that was appended for it holds what
      it held before, and the buffer is dropped. */
  ghost predicate IsCutOff(table: Table, raws: seq<Raw>, b: Buffer, done: seq<Record>) {
    && |raws| == |done| + 1 && AreImported(table, raws[..|done|], done)
    && b.recordId == NO_RECORD_ID && !b.isModified && |b.columns| == MaxNumColumns(table)
  }

  lemma FlushImport(schema: Tables, t: nat, raws: seq<Raw>, b: Buffer, done: seq<Record>, raw: Raw)
    requires SchemaIsValid(schema) && t < |schema| && IsImporting(schema[t], raws, b, done) && done != []
    requires EncodePre(schema[t], b.columns) && Encoded(schema[t], b.columns) <= raw
    requires |raw| == MaxRecordSize(schema[t])
    ensures AreImported(schema[t], raws[|done| - 1 := raw], done)
  {
    hide SchemaIsValid, StoresRecord, HoldsRecord, StoredRecord, Encoded, EncodePre;
    EncodedIsStored(schema, t, b.columns, raw);
  }

  /** A new record in the buffer, behind the stored ones. */
  lemma NextImport(table: Table, raws: seq<Raw>, done: seq<Record>, raw: Raw, columns: seq<uint16>)
    requires AreImported(table, raws, done) && |raws| < 250
    requires |columns| == MaxNumColumns(table) && HoldsRecord(table, columns)
    ensures IsImporting(table, raws + [raw], Buffer(|raws|, true, columns), done + [RealPart(table, columns)])
  {
    hide StoresRecord, HoldsRecord, StoredRecord;
  }

  lemma ImportFacts(schema: Tables, t: nat, raws: seq<Raw>, b: Buffer, done: seq<Record>)
    requires SchemaIsValid(schema) && t < |schema| && IsImporting(schema[t], raws, b, done)
    ensures |raws| == |done| && |b.columns| == MaxNumColumns(schema[t])
    ensures b.isModified <==> done != []
    ensures b.isModified ==> b.recordId == |done| - 1 && EncodePre(schema[t], b.columns)
    ensures schema[t].maxNumRecords <= 250
  {
    TableSizes(schema, t);
    if b.isModified {
      HeldCanBeEncoded(schema, t, b.columns);
    }
  }

  /** The flush of the previous record leaves the new slot alone. */
  lemma SlotKept(was: seq<seq<Raw>>, raws: seq<seq<Raw>>, raws': seq<seq<Raw>>, t: nat, b: Buffer, done: seq<Record>)
    requires t < |was| == |raws| == |raws'| && |was[t]| == |done| < |raws[t]|
    requires raws == was[t := was[t] + [raws[t][|done|]]]
    requires done == [] ==> raws' == raws
    requires done != [] ==>
               && b.recordId == |done| - 1 && b.recordId < |raws'[t]|
               && raws' == raws[t := raws[t][b.recordId := raws'[t][b.recordId]]]
    ensures done == [] ==> raws'[t] == was[t] + [raws[t][|done|]]
    ensures done != [] ==>
              |raws'[t]| == |was[t]| + 1
              && raws'[t] == (was[t] + [raws[t][|done|]])[|done| - 1 := raws'[t][|done| - 1]]
    ensures forall u :: 0 <= u < |was| && u != t ==> raws'[u] == was[u]
  {
  }

  /** Accepted data, copied while the table has n records, is held by the buffer. */
  lemma AcceptedHolds(schema: Tables, db: Db, t: nat, n: nat, data: seq<uint16>, before: seq<uint16>, columns: seq<uint16>)
    requires SchemaIsValid(schema) && t < |schema| == |db| && 0 < n <= schema[t].maxNumRecords
    requires forall u :: 0 <= u < |schema| && u != t ==> db[u] != [] && IsTable(schema[u], db[u])
    requires schema[t].recordDefs != [] && HasType(schema[t], data)
    requires AcceptsRecord(schema[t], Counting(schema, db, t, n), t, data)
    requires IsCopied(schema[t], data, before, columns)
    ensures HoldsRecord(schema[t], columns) && RealPart(schema[t], columns) == data[..Extent(schema[t], data)]
    ensures |columns| == |before| && schema[t].maxNumRecords <= 250
  {
    hide HasType, IsTable, AcceptsRecord, IsCopied, NumReal;
    TableSizes(schema, t);
    CountingIsPopulated(schema, db, t, n);
    CopiedRecord(schema, Counting(schema, db, t, n), t, data, before, columns);
    CopiedSize(schema[t], data, before, columns);
  }

  /** A record is appended, the previous one is flushed, and the new one is put into the buffer. */
  lemma ImportStep(schema: Tables, db: Db, t: nat, data: seq<uint16>, was: seq<Raw>, b: Buffer, done: seq<Record>,
                   slot: Raw, raws: seq<Raw>, columns: seq<uint16>)
    requires SchemaIsValid(schema) && t < |schema| == |db| && IsImporting(schema[t], was, b, done)
    requires forall u :: 0 <= u < |schema| && u != t ==> db[u] != [] && IsTable(schema[u], db[u])
    requires |was| < schema[t].maxNumRecords && schema[t].recordDefs != [] && HasType(schema[t], data)
    requires AcceptsRecord(schema[t], Counting(schema, db, t, |was| + 1), t, data)
    requires IsCopied(schema[t], data, b.columns, columns)
    requires done == [] ==> raws == was + [slot]
    requires done != [] ==>
               && |raws| == |was| + 1 && raws == (was + [slot])[|was| - 1 := raws[|was| - 1]]
               && EncodePre(schema[t], b.columns) && Encoded(schema[t], b.columns) <= raws[|was| - 1]
               && |raws[|was| - 1]| == MaxRecordSize(schema[t])
    ensures IsImporting(schema[t], raws, Buffer(|was|, true, columns), done + [data[..Extent(schema[t], data)]])
  {
    AcceptedHolds(schema, db, t, |was| + 1, data, b.columns, columns);
    hide SchemaIsValid, StoresRecord, HoldsRecord, StoredRecord, Encoded, EncodePre, Counting, IsTable,
      AcceptsRecord, HasType, RealPart, IsCopied, NumReal, AreImported, Extent;
    var stored := PreviousStored(schema, t, was, b, done, slot, raws);
    NextImport(schema[t], stored, done, slot, columns);
  }

  /** The record is not valid: the previous one has been flushed all the same. */
  lemma ImportStops(schema: Tables, t: nat, data: seq<uint16>, was: seq<Raw>, b: Buffer, done: seq<Record>,
                    slot: Raw, raws: seq<Raw>, columns: seq<uint16>)
    requires SchemaIsValid(schema) && t < |schema| && IsImporting(schema[t], was, b, done)
    requires HasType(schema[t], data) && IsCopied(schema[t], data, b.columns, columns)
    requires done == [] ==> raws == was + [slot]
    requires done != [] ==>
               && |raws| == |was| + 1 && raws == (was + [slot])[|was| - 1 := raws[|was| - 1]]
               && EncodePre(schema[t], b.columns) && Encoded(schema[t], b.columns) <= raws[|was| - 1]
               && |raws[|was| - 1]| == MaxRecordSize(schema[t])
    ensures IsCutOff(schema[t], raws, Buffer(NO_RECORD_ID, false, columns), done)
  {
    CopiedSize(schema[t], data, b.columns, columns);
    hide SchemaIsValid, StoresRecord, HoldsRecord, StoredRecord, Encoded, EncodePre, HasType, IsCopied,
      AreImported, RealPart;
    var stored := PreviousStored(schema, t, was, b, done, slot, raws);
    assert raws[..|done|] == stored;
  }

  lemma ImportOutcome(schema: Tables, db: Db, t: nat, data: seq<uint16>, was: seq<Raw>, b: Buffer, done: seq<Record>,
                      slot: Raw, raws: seq<Raw>, b': Buffer, accepted: bool)
    requires SchemaIsValid(schema) && t < |schema| == |db| && IsImporting(schema[t], was, b, done)
    requires forall u :: 0 <= u < |schema| && u != t ==> db[u] != [] && IsTable(schema[u], db[u])
    requires |was| < schema[t].maxNumRecords && schema[t].recordDefs != [] && HasType(schema[t], data)
    requires accepted <==> AcceptsRecord(schema[t], Counting(schema, db, t, |was| + 1), t, data)
    requires IsCopied(schema[t], data, b.columns, b'.columns) && schema[t].maxNumRecords <= 250
    requires b' == if accepted then Buffer(|was|, true, b'.columns) else Buffer(NO_RECORD_ID, false, b'.columns)
    requires done == [] ==> raws == was + [slot]
    requires done != [] ==>
               && |raws| == |was| + 1 && raws == (was + [slot])[|was| - 1 := raws[|was| - 1]]
               && EncodePre(schema[t], b.columns) && Encoded(schema[t], b.columns) <= raws[|was| - 1]
               && |raws[|was| - 1]| == MaxRecordSize(schema[t])
    ensures accepted ==> IsImporting(schema[t], raws, b', done + [data[..Extent(schema[t], data)]])
    ensures !accepted ==> IsCutOff(schema[t], raws, b', done)
  {
    hide *;
    if accepted {
      ImportStep(schema, db, t, data, was, b, done, slot, raws, b'.columns);
    } else {
      ImportStops(schema, t, data, was, b, done, slot, raws, b'.columns);
    }
  }

  /** After the flush all earlier records are stored. */
  lemma PreviousStored(schema: Tables, t: nat, was: seq<Raw>, b: Buffer, done: seq<Record>, slot: Raw, raws: seq<Raw>)
    returns (stored: seq<Raw>)
    requires SchemaIsValid(schema) && t < |schema| && IsImporting(schema[t], was, b, done)
    requires done == [] ==> raws == was + [slot]
    requires done != [] ==>
               && |raws| == |was| + 1 && raws == (was + [slot])[|was| - 1 := raws[|was| - 1]]
               && EncodePre(schema[t], b.columns) && Encoded(schema[t], b.columns) <= raws[|was| - 1]
               && |raws[|was| - 1]| == MaxRecordSize(schema[t])
    ensures AreImported(schema[t], stored, done) && raws == stored + [slot] && |stored| == |was|
  {
    hide SchemaIsValid, StoresRecord, HoldsRecord, StoredRecord, Encoded, EncodePre, RealPart;
    stored := was;
    if done != [] {
      stored := was[|was| - 1 := raws[|was| - 1]];
      FlushImport(schema, t, was, b, done, raws[|was| - 1]);
    }
  }

  lemma CopiedSize(table: Table, data: seq<uint16>, before: seq<uint16>, columns: seq<uint16>)
    requires HasType(table, data) && IsCopied(table, data, before, columns)
    ensures |columns| == |before|
  {
  }

  /** At the end record 0 is written once more, which leaves everything else stored. */
  lemma ImportEnds(table: Table, raws: seq<Raw>, done: seq<Record>, columns: seq<uint16>)
    requires AreImported(table, raws, done) && 0 < |done| <= 250
    requires |columns| == MaxNumColumns(table) && HoldsRecord(table, columns) && RealPart(table, columns) == done[0]
    ensures IsCoherent(table, raws, Buffer(0, true, columns))
    ensures TableView(table, raws, Buffer(0, true, columns)) == done
  {
    hide StoresRecord, HoldsRecord, StoredRecord;
  }

  lemma HeldCanBeEncoded(schema: Tables, t: nat, columns: seq<uint16>)
    requires SchemaIsValid(schema) && t < |schema| && HoldsRecord(schema[t], columns)
    ensures EncodePre(schema[t], columns)
  {
  }

  lemma AppendedRaw(was: seq<seq<Raw>>, raws: seq<seq<Raw>>, t: nat, n: nat)
    requires t < |was| && n == |was[t]| && t < |raws| && n < |raws[t]|
    requires raws == was[t := With(was[t], n, raws[t][n])]
    ensures |raws| == |was| && raws[t] == was[t] + [raws[t][n]]
    ensures forall u :: 0 <= u < |was| && u != t ==> raws[u] == was[u]
  {
  }

  lemma ImportCounts(schema: Tables, mem: Memory, catalog: seq<Row>, db: Db, t: nat, n: nat)
    requires StoreIsValid(mem, catalog) && PlacesMatch(schema, Places(catalog)) && t < |schema| == |db|
    requires schema[t].recordDefs != [] && StoreAgrees(mem, catalog) && |View(mem, catalog)| == |schema|
    requires |View(mem, catalog)[t]| == n && forall u :: 0 <= u < |schema| && u != t ==> |db[u]| == |View(mem, catalog)[u]|
    ensures CountsAgree(Counting(schema, db, t, n), catalog)
  {
    hide StoreIsValid, View, Places, PlacesMatch, Counting;
    forall u | 0 <= u < |schema|
      ensures |View(mem, catalog)[u]| == catalog[u].numRecords
    {
      BuiltTable(schema, mem, catalog, u);
    }
    assert |catalog| == |schema| by {
      BuiltTable(schema, mem, catalog, t);
    }
  }

  lemma ImportLast(schema: Tables, db: Db, t: nat, data: seq<uint16>, was: seq<Raw>, b: Buffer, done: seq<Record>,
                   raws: seq<Raw>, b': Buffer)
    requires SchemaIsValid(schema) && t < |schema| == |db| && IsImporting(schema[t], was, b, done) && done != []
    requires forall u :: 0 <= u < |schema| && u != t ==> db[u] != [] && IsTable(schema[u], db[u])
    requires |done| <= schema[t].maxNumRecords && schema[t].recordDefs != [] && HasType(schema[t], data)
    requires AcceptsRecord(schema[t], Counting(schema, db, t, 1), t, data) && done[0] == data[..Extent(schema[t], data)]
    requires IsCopied(schema[t], data, b.columns, b'.columns)
    requires AcceptsRecord(schema[t], Counting(schema, db, t, |done|), t, data) ==> b' == Buffer(0, true, b'.columns)
    requires |raws| == |was| && raws == was[|was| - 1 := raws[|was| - 1]]
    requires EncodePre(schema[t], b.columns) && Encoded(schema[t], b.columns) <= raws[|was| - 1]
    requires |raws[|was| - 1]| == MaxRecordSize(schema[t])
    ensures IsCoherent(schema[t], raws, b') && TableView(schema[t], raws, b') == done
  {
    TableSizes(schema, t);
    AcceptedLater(schema, db, t, data, 1, |done|);
    AcceptedHolds(schema, db, t, |done|, data, b.columns, b'.columns);
    hide SchemaIsValid, StoresRecord, HoldsRecord, StoredRecord, Encoded, EncodePre, Counting, IsTable,
      AcceptsRecord, HasType, RealPart, IsCopied, NumReal;
    FlushImport(schema, t, was, b, done, raws[|was| - 1]);
    ImportEnds(schema[t], raws, done, b'.columns);
  }

  lemma PopulatedTables(schema: Tables, raws: seq<seq<Raw>>, buffers: seq<Buffer>)
    requires AllCoherent(schema, raws, buffers) && IsPopulated(schema, ViewAll(schema, raws, buffers))
    ensures |raws| == |schema| == |buffers|
    ensures var db := ViewAll(schema, raws, buffers);
            forall u :: 0 <= u < |schema| ==> db[u] != [] && IsTable(schema[u], db[u]) && |db[u]| == |raws[u]|
  {
    hide IsTable, IsCoherent;
    forall u | 0 <= u < |schema|
      ensures |ViewAll(schema, raws, buffers)[u]| == |raws[u]|
    {
      OneTable(schema, raws, buffers, u);
    }
  }

  lemma NothingImported(schema: Tables, raws: seq<seq<Raw>>, buffers: seq<Buffer>, t: nat, columns: seq<uint16>)
    requires AllCoherent(schema, raws, buffers) && t < |schema| && columns == buffers[t].columns
    ensures IsImporting(schema[t], [], Buffer(NO_RECORD_ID, false, columns), [])
  {
    OneTable(schema, raws, buffers, t);
    CoherentFacts(schema[t], raws[t], buffers[t]);
  }

  /** `done` has been imported from the front of data; `rest` is what is left of it. */
  ghost predicate IsRest(schema: Tables, db: Db, t: nat, data: seq<uint16>, n: nat, done: seq<Record>, rest: seq<uint16>)
    requires |db| == |schema| && t < |db| && schema[t].recordDefs != []
  {
    && |done| <= n && HoldsRecords(schema[t], data, n) && HoldsRecords(schema[t], rest, n - |done|)
    && AcceptedCount(schema, db, t, data, 0, n) == |done| + AcceptedCount(schema, db, t, rest, |done|, n - |done|)
    && Cut(schema[t], data, n) == done + Cut(schema[t], rest, n - |done|)
  }

  lemma NothingCut(schema: Tables, db: Db, t: nat, data: seq<uint16>, n: nat)
    requires |db| == |schema| && t < |db| && schema[t].recordDefs != [] && HoldsRecords(schema[t], data, n)
    ensures IsRest(schema, db, t, data, n, [], data) && data == data[0..]
  {
    hide AcceptedCount, Cut, HoldsRecords;
    assert [] + Cut(schema[t], data, n) == Cut(schema[t], data, n);
  }

  /** One record is taken from the rest, or the import stops at it. */
  lemma NextCut(schema: Tables, db: Db, t: nat, data: seq<uint16>, n: nat, done: seq<Record>, rest: seq<uint16>)
    requires |db| == |schema| && t < |db| && schema[t].recordDefs != []
    requires IsRest(schema, db, t, data, n, done, rest) && |done| < n
    ensures HoldsRecords(schema[t], data, n) && HasType(schema[t], rest) && Extent(schema[t], rest) <= |rest|
    ensures AcceptsRecord(schema[t], Counting(schema, db, t, |done| + 1), t, rest) ==>
              IsRest(schema, db, t, data, n, done + [rest[..Extent(schema[t], rest)]], rest[Extent(schema[t], rest)..])
    ensures !AcceptsRecord(schema[t], Counting(schema, db, t, |done| + 1), t, rest) ==>
              AcceptedCount(schema, db, t, data, 0, n) == |done| && Cut(schema[t], data, n)[..|done|] == done
  {
    hide AcceptsRecord, Counting, HasType, Extent;
    var record, more := rest[..Extent(schema[t], rest)], Cut(schema[t], Behind(schema[t], rest), n - |done| - 1);
    assert done + ([record] + more) == (done + [record]) + more;
    CutUpTo(done, Cut(schema[t], rest, n - |done|));
  }

  lemma AllCut(schema: Tables, db: Db, t: nat, data: seq<uint16>, n: nat, done: seq<Record>, rest: seq<uint16>)
    requires |db| == |schema| && t < |db| && schema[t].recordDefs != []
    requires IsRest(schema, db, t, data, n, done, rest) && |done| == n
    ensures AcceptedCount(schema, db, t, data, 0, n) == n && Cut(schema[t], data, n) == done
  {
  }

  lemma CutUpTo(done: seq<Record>, rest: seq<Record>)
    ensures (done + rest)[..|done|] == done
  {
  }

  /** At the end of a broken import record 0 is written once more; nothing is flushed. */
  ghost predicate IsBroken(table: Table, raws: seq<Raw>, b: Buffer, done: seq<Record>) {
    && |raws| == |done| + 1 && AreImported(table, raws[..|done|], done)
    && |b.columns| == MaxNumColumns(table)
    && (done == [] ==> b.recordId == NO_RECORD_ID && !b.isModified)
    && (done != [] ==> b.recordId == 0 && b.isModified
                       && HoldsRecord(table, b.columns) && RealPart(table, b.columns) == done[0])
  }

  lemma ImportBroken(schema: Tables, db: Db, t: nat, data: seq<uint16>, raws: seq<Raw>, b: Buffer, done: seq<Record>,
                     b': Buffer)
    requires SchemaIsValid(schema) && t < |schema| == |db| && IsCutOff(schema[t], raws, b, done)
    requires forall u :: 0 <= u < |schema| && u != t ==> db[u] != [] && IsTable(schema[u], db[u])
    requires |done| < schema[t].maxNumRecords && schema[t].recordDefs != [] && HasType(schema[t], data)
    requires AcceptsRecord(schema[t], Counting(schema, db, t, 1), t, data) <==> done != []
    requires done != [] ==> done[0] == data[..Extent(schema[t], data)]
    requires IsCopied(schema[t], data, b.columns, b'.columns)
    requires b' == if AcceptsRecord(schema[t], Counting(schema, db, t, |done| + 1), t, data)
                   then Buffer(0, true, b'.columns) else Buffer(NO_RECORD_ID, false, b'.columns)
    ensures IsBroken(schema[t], raws, b', done)
  {
    TableSizes(schema, t);
    CopiedSize(schema[t], data, b.columns, b'.columns);
    if done != [] {
      AcceptedLater(schema, db, t, data, 1, |done| + 1);
      AcceptedHolds(schema, db, t, |done| + 1, data, b.columns, b'.columns);
    }
    hide SchemaIsValid, HoldsRecord, Counting, IsTable, AcceptsRecord, HasType, RealPart, IsCopied, NumReal,
      AreImported;
  }

  lemma ImportSize(schema: Tables, t: nat, raws: seq<Raw>, b: Buffer)
    requires t < |schema| && IsCoherent(schema[t], raws, b)
    ensures |TableView(schema[t], raws, b)| == |raws|
  {
  }

  lemma FirstCut(schema: Tables, db: Db, t: nat, data: seq<uint16>, n: nat)
    requires |db| == |schema| && t < |db| && schema[t].recordDefs != [] && n > 0 && HoldsRecords(schema[t], data, n)
    ensures HasType(schema[t], data) && Cut(schema[t], data, n)[0] == data[..Extent(schema[t], data)]
    ensures AcceptsRecord(schema[t], Counting(schema, db, t, 1), t, data) <==> AcceptedCount(schema, db, t, data, 0, n) > 0
  {
  }

  lemma ImportedExtent(table: Table, raws: seq<Raw>, b: Buffer, done: seq<Record>, data: seq<uint16>)
    requires HasType(table, data) && done != [] && done[|done| - 1] == data[..Extent(table, data)]
    requires IsImporting(table, raws, b, done)
    ensures HoldsRecord(table, b.columns) && NumReal(ColumnsOf(table, b.columns)) == Extent(table, data) <= |data|
  {
  }
}
