/** The state of src/BitsOfData.c as values: the records of the store and the buffers over them, and the
    logical database that the two represent. */
module EngineState {
  import opened MachineInts
  import opened Schema
  import opened StoreLayout
  import opened StoreSteps
  import opened StoreWrites
  import opened RecordCodec
  import opened LogicalDatabase
  import opened RecordBuffers

  /** The store has one table per schema table, of the right sizes. */
  ghost predicate PlacesMatch(schema: Tables, places: seq<Place>) {
    && |places| == |schema|
    && forall t :: 0 <= t < |schema| ==>
         places[t].recordSize == MaxRecordSize(schema[t]) && places[t].maxNumRecords == schema[t].maxNumRecords
  }

  ghost predicate AllCoherent(schema: Tables, raws: seq<seq<Raw>>, buffers: seq<Buffer>) {
    && |raws| == |schema| == |buffers|
    && forall t :: 0 <= t < |schema| ==>
         |raws[t]| <= schema[t].maxNumRecords && IsCoherent(schema[t], raws[t], buffers[t])
  }

  ghost function ViewAll(schema: Tables, raws: seq<seq<Raw>>, buffers: seq<Buffer>): (db: Db)
    requires AllCoherent(schema, raws, buffers)
    ensures |db| == |schema|
  {
    seq(|schema|, t requires 0 <= t < |schema| => TableView(schema[t], raws[t], buffers[t]))
  }

  lemma OneTable(schema: Tables, raws: seq<seq<Raw>>, buffers: seq<Buffer>, t: nat)
    requires AllCoherent(schema, raws, buffers) && t < |schema|
    ensures |raws| == |buffers| == |schema|
    ensures IsCoherent(schema[t], raws[t], buffers[t]) && |raws[t]| <= schema[t].maxNumRecords
    ensures ViewAll(schema, raws, buffers)[t] == TableView(schema[t], raws[t], buffers[t])
    ensures |ViewAll(schema, raws, buffers)[t]| == |raws[t]|
  {
  }

  /** A step on one table. */
  lemma TableChanges(schema: Tables, raws: seq<seq<Raw>>, buffers: seq<Buffer>, t: nat, recs: seq<Raw>, b: Buffer)
    requires AllCoherent(schema, raws, buffers) && t < |schema|
    requires |recs| <= schema[t].maxNumRecords && IsCoherent(schema[t], recs, b)
    ensures AllCoherent(schema, raws[t := recs], buffers[t := b])
    ensures ViewAll(schema, raws[t := recs], buffers[t := b])
         == ViewAll(schema, raws, buffers)[t := TableView(schema[t], recs, b)]
  {
    hide IsCoherent, TableView;
  }

  /** What reading and writing records of the touched tables leaves alone: all other tables, and the
      stored bytes of a table whose only record is in the buffer. */
  ghost predicate OnlyTouches(touched: set<nat>, raws: seq<seq<Raw>>, buffers: seq<Buffer>, raws': seq<seq<Raw>>,
                              buffers': seq<Buffer>) {
    && |raws| == |buffers| == |raws'| == |buffers'|
    && (forall u: nat :: u < |raws| && u !in touched ==> raws'[u] == raws[u] && buffers'[u] == buffers[u])
    && forall u :: 0 <= u < |raws| && |raws[u]| == 1 && buffers[u].recordId == 0 ==>
         raws'[u] == raws[u] && buffers'[u].recordId == 0
  }

  lemma NothingTouched(schema: Tables, raws: seq<seq<Raw>>, buffers: seq<Buffer>, touched: set<nat>)
    requires AllCoherent(schema, raws, buffers)
    ensures |raws| == |buffers| == |schema| && OnlyTouches(touched, raws, buffers, raws, buffers)
  {
  }

  lemma TouchesMore(some: set<nat>, touched: set<nat>, raws: seq<seq<Raw>>, buffers: seq<Buffer>,
                    raws': seq<seq<Raw>>, buffers': seq<Buffer>, raws'': seq<seq<Raw>>, buffers'': seq<Buffer>)
    requires OnlyTouches(touched, raws, buffers, raws', buffers') && OnlyTouches(some, raws', buffers', raws'', buffers'')
    requires some <= touched
    ensures OnlyTouches(touched, raws, buffers, raws'', buffers'')
  {
  }

  lemma Untouched(touched: set<nat>, raws: seq<seq<Raw>>, buffers: seq<Buffer>, raws': seq<seq<Raw>>,
                  buffers': seq<Buffer>, t: nat)
    requires OnlyTouches(touched, raws, buffers, raws', buffers') && t < |raws|
    ensures |raws| == |buffers| == |raws'| == |buffers'|
    ensures t !in touched ==> raws'[t] == raws[t] && buffers'[t] == buffers[t]
  {
  }

  lemma OnlyRecordsStay(touched: set<nat>, raws: seq<seq<Raw>>, buffers: seq<Buffer>, raws': seq<seq<Raw>>,
                        buffers': seq<Buffer>)
    requires OnlyTouches(touched, raws, buffers, raws', buffers')
    ensures |raws| == |buffers| == |raws'| == |buffers'|
    ensures forall u :: 0 <= u < |raws| && |raws[u]| == 1 && buffers[u].recordId == 0 ==>
              raws'[u] == raws[u] && buffers'[u].recordId == 0
  {
  }

  /** A step on another record of table t than the buffered one, or on its buffer only. */
  lemma TableTouched(raws: seq<seq<Raw>>, buffers: seq<Buffer>, raws': seq<seq<Raw>>, b: Buffer, t: nat)
    requires |raws| == |buffers| == |raws'| && t < |raws| && forall u :: 0 <= u < |raws| && u != t ==> raws'[u] == raws[u]
    requires |raws[t]| == 1 && buffers[t].recordId == 0 ==> raws'[t] == raws[t] && b.recordId == 0
    ensures OnlyTouches({t}, raws, buffers, raws', buffers[t := b])
  {
  }

  /** The buffer after record r has been read: a record that is filled in is not marked as modified. */
  predicate IsRead(before: Buffer, b: Buffer, r: nat) {
    b.recordId == r && (b.isModified ==> before.isModified && before.recordId == r)
  }

  /** The buffer after all n records have been read in order. */
  predicate IsReadThrough(b: Buffer, n: nat) {
    b.recordId + 1 == n && !b.isModified
  }

  predicate IsEmptyBuffer(table: Table, b: Buffer) {
    b.recordId == NO_RECORD_ID && !b.isModified && |b.columns| == MaxNumColumns(table)
  }

  lemma BuiltTable(schema: Tables, mem: Memory, catalog: seq<Row>, t: nat)
    requires StoreIsValid(mem, catalog) && PlacesMatch(schema, Places(catalog)) && t < |schema|
    ensures StoreAgrees(mem, catalog) && |catalog| == |schema| == |View(mem, catalog)|
    ensures catalog[t].numRecords == |View(mem, catalog)[t]| <= catalog[t].place.maxNumRecords
    ensures catalog[t].place.recordSize == MaxRecordSize(schema[t])
    ensures catalog[t].place.maxNumRecords == schema[t].maxNumRecords
    ensures forall r :: 0 <= r < |View(mem, catalog)[t]| ==> |View(mem, catalog)[t][r]| == MaxRecordSize(schema[t])
  {
    RowAgrees(mem, catalog, t);
  }

  lemma HeldEncodes(schema: Tables, t: nat, raws: seq<Raw>, b: Buffer)
    requires SchemaIsValid(schema) && t < |schema| && IsCoherent(schema[t], raws, b) && b.recordId != NO_RECORD_ID
    ensures b.recordId < |raws| && EncodePre(schema[t], b.columns)
  {
  }

  lemma CoherentFacts(table: Table, raws: seq<Raw>, b: Buffer)
    requires IsCoherent(table, raws, b)
    ensures AllStored(table, raws)
    ensures b.isModified ==> b.recordId != NO_RECORD_ID
    ensures !b.isModified ==> IsSynced(table, raws, b)
    ensures |b.columns| == MaxNumColumns(table) && |raws| <= 250
  {
  }

  lemma BufferedIsRecord(table: Table, raws: seq<Raw>, b: Buffer)
    requires IsCoherent(table, raws, b)
    ensures b.isModified ==> b.recordId < |raws|
  {
  }

  lemma StoredFacts(table: Table, raws: seq<Raw>, b: Buffer, r: nat)
    requires IsCoherent(table, raws, b) && r < |raws|
    ensures StoresRecord(table, raws[r]) && |b.columns| == MaxNumColumns(table)
  {
  }

  lemma DecodeFacts(schema: Tables, t: nat, raw: Raw)
    requires SchemaIsValid(schema) && t < |schema| && StoresRecord(schema[t], raw)
    ensures DecodePre(schema[t], raw)
    ensures |schema[t].recordDefs[TagOf(schema[t], raw)]| <= MaxNumColumns(schema[t])
  {
    TableSchema(schema, t);
  }

  /** A buffered record is what readers see. */
  lemma BufferShows(table: Table, raws: seq<Raw>, b: Buffer)
    requires IsCoherent(table, raws, b) && b.recordId != NO_RECORD_ID
    ensures HoldsRecord(table, b.columns) && b.recordId < |raws|
    ensures TableView(table, raws, b)[b.recordId] == RealPart(table, b.columns)
  {
  }

  lemma RealIsPrefix(table: Table, columns: seq<uint16>)
    requires HoldsRecord(table, columns)
    ensures RealPart(table, columns) <= columns
  {
  }

  lemma StoreIsBuilt(schema: Tables, mem: Memory, catalog: seq<Row>)
    requires StoreIsValid(mem, catalog)
    ensures StoreAgrees(mem, catalog) && |View(mem, catalog)| == |catalog|
  {
  }

  lemma EncodedSize(schema: Tables, t: nat, columns: seq<uint16>)
    requires SchemaIsValid(schema) && t < |schema| && EncodePre(schema[t], columns)
    ensures |Encoded(schema[t], columns)| == RecordSize(schema[t].recordDefs[RecordDefId(schema[t], columns[0])])
    ensures |Encoded(schema[t], columns)| <= MaxRecordSize(schema[t])
  {
  }

  lemma SameUpdate<T>(s: seq<T>, i: nat)
    requires i < |s|
    ensures s[i := s[i]] == s
  {
  }

  lemma UpdateTwice<T>(s: seq<T>, i: nat, x: T, y: T)
    requires i < |s|
    ensures s[i := x][i := y] == s[i := y]
  {
  }

  lemma BeginsWith<T>(prefix: seq<T>, whole: seq<T>, part: seq<T>)
    requires prefix <= whole && part <= whole && |prefix| <= |part|
    ensures prefix <= part
  {
  }

  lemma RawReplaced(raws: seq<seq<Raw>>, raws': seq<seq<Raw>>, t: nat, id: nat, raw: Raw)
    requires t < |raws| && id < |raws[t]| && raws' == raws[t := raws[t][id := raw]]
    ensures |raws'| == |raws| && id < |raws'[t]| && raws'[t][id] == raw
  {
  }
}
