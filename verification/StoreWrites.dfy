/** What the byte writes of src/RecordStore.c add up to: after any number of them, and after a whole
    operation. */
module StoreWrites {
  import opened MachineInts
  import opened BitUtils
  import opened Limits
  import opened Bitmap
  import opened SlotIndex
  import opened StoreLayout
  import opened StoreSteps
  import opened StoreOpening

  const NO_FREE_RECORD_FOUND: uint8 := 0xFF
  const MAX_NUM_RECORDS_REACHED: uint8 := 0xFF

  // ---- the single writes of an insert ----

  /** The last k index entries have moved up by one and nothing else has changed. */
  ghost predicate RoomMade(mem: Memory, mem': Memory, row: Row, k: nat)
    requires IndexAgrees(mem, row) && k <= row.numRecords < row.place.maxNumRecords
  {
    && SameOutsideIndex(mem, mem', row.place)
    && IndexOf(mem', row.place) == MakeRoomCut(IndexOf(mem, row.place), row.numRecords, k)
  }

  /** A store opened on mem' lists every record of mem, in order. */
  ghost predicate KeepsAll(mem: Memory, mem': Memory, row: Row)
    requires IndexAgrees(mem, row)
  {
    SameOutsideIndex(mem, mem', row.place) && ReopensAs(mem', row.place, Records(mem, row))
  }

  lemma NoRoomMade(mem: Memory, row: Row)
    requires IndexAgrees(mem, row) && row.numRecords < row.place.maxNumRecords
    ensures RoomMade(mem, mem, row, 0)
  {
    var index := IndexOf(mem, row.place);
    assert MakeRoomCut(index, row.numRecords, 0) == index;
  }

  lemma RoomMadeStep(was: Memory, mem: Memory, row: Row, k: nat)
    requires IndexAgrees(was, row) && k < row.numRecords < row.place.maxNumRecords && RoomMade(was, mem, row, k)
    ensures var a := row.place.indexAddress + row.numRecords - k;
            && 0 < a < |mem| == |was|
            && RoomMade(was, mem[a := mem[a - 1]], row, k + 1)
            && KeepsAll(was, mem[a := mem[a - 1]], row)
  {
    hide Compact, MakeRoomCut;
    var p, i := row.place, row.numRecords - k;
    var a := p.indexAddress + i;
    IndexBeforeEnd(p);
    var mem' := mem[a := mem[a - 1]];
    IndexWrite(mem, mem', p, i);
    MakeRoomStep(IndexOf(was, p), row.numRecords, k);
    MakeRoomSurvivesCut(was, mem', row, k + 1);
  }

  // ---- the single writes of a delete ----

  /** The first k entries behind the gap have moved down by one and nothing else has changed. */
  ghost predicate GapClosed(mem: Memory, mem': Memory, row: Row, id: nat, k: nat)
    requires IndexAgrees(mem, row) && id < row.numRecords && k <= row.numRecords - id
  {
    && SameOutsideIndex(mem, mem', row.place)
    && IndexOf(mem', row.place) == CloseGapCut(IndexOf(mem, row.place), row.numRecords, id, k)
  }

  /** A store opened on mem' lists every record of mem but record id, in order. */
  ghost predicate KeepsOthers(mem: Memory, mem': Memory, row: Row, id: nat)
    requires IndexAgrees(mem, row) && id < row.numRecords
  {
    SameOutsideIndex(mem, mem', row.place) && ReopensAs(mem', row.place, Without(Records(mem, row), id))
  }

  lemma NoGapClosed(mem: Memory, row: Row, id: nat)
    requires IndexAgrees(mem, row) && id < row.numRecords
    ensures GapClosed(mem, mem, row, id, 0)
  {
    var index := IndexOf(mem, row.place);
    assert CloseGapCut(index, row.numRecords, id, 0) == index;
  }

  lemma GapClosedStep(was: Memory, mem: Memory, row: Row, id: nat, k: nat)
    requires IndexAgrees(was, row) && id + k < row.numRecords && GapClosed(was, mem, row, id, k)
    ensures var a, rec := row.place.indexAddress + id + k, id + k;
            && a + 1 < |mem| == |was|
            && var value := if rec >= row.place.maxNumRecords - 1 then NO_SLOT else mem[a + 1];
            && GapClosed(was, mem[a := value], row, id, k + 1)
            && KeepsOthers(was, mem[a := value], row, id)
  {
    var rec := id + k;
    var a := row.place.indexAddress + rec;
    EntryFits(was, row, rec);
    NextEntry(was, mem, row, id, k);
    var value := if rec >= row.place.maxNumRecords - 1 then NO_SLOT else mem[a + 1];
    hide IndexOf, PlaceIsValid, EndAddress, Compact, CloseGapCut, IndexAgrees, GapClosed, KeepsOthers;
    EntryClosed(was, mem, mem[a := value], row, id, k);
  }

  /** The entry behind the next one to move, as the partly shifted index has it. */
  lemma NextEntry(was: Memory, mem: Memory, row: Row, id: nat, k: nat)
    requires IndexAgrees(was, row) && id + k < row.numRecords && GapClosed(was, mem, row, id, k)
    ensures var (rec, m) := (id + k, row.place.maxNumRecords);
            && |mem| == |was| && TableFitsMemory(mem, row.place) && m <= |IndexOf(was, row.place)|
            && (rec < m - 1 ==> mem[row.place.indexAddress + rec + 1]
                                == CloseGapCut(IndexOf(was, row.place), row.numRecords, id, k)[rec + 1])
  {
    EntryFits(was, row, id + k);
    hide Compact, CloseGapCut, EndAddress;
    assert forall i :: 0 <= i < row.place.maxNumRecords ==> mem[row.place.indexAddress + i] == IndexOf(mem, row.place)[i];
  }

  lemma EntryClosed(was: Memory, mem: Memory, mem': Memory, row: Row, id: nat, k: nat)
    requires IndexAgrees(was, row) && id + k < row.numRecords && GapClosed(was, mem, row, id, k)
    requires TableFitsMemory(mem, row.place) && |mem'| == |mem|
    requires var a := row.place.indexAddress + id + k; a < |mem| && mem' == mem[a := mem'[a]]
    requires var (rec, index) := (id + k, IndexOf(was, row.place));
             rec < |index| && mem'[row.place.indexAddress + id + k]
             == if rec >= |index| - 1 then NO_SLOT else CloseGapCut(index, row.numRecords, id, k)[rec + 1]
    ensures GapClosed(was, mem', row, id, k + 1) && KeepsOthers(was, mem', row, id)
  {
    var p, rec := row.place, id + k;
    EntryFits(was, row, rec);
    hide PlaceIsValid, EndAddress, Compact, CloseGapCut, IndexAgrees;
    IndexWrite(mem, mem', p, rec);
    CloseGapStep(IndexOf(was, p), row.numRecords, id, k);
    hide IndexOf;
    CloseGapSurvivesCut(was, mem', row, id, k + 1);
  }

  lemma EntryFits(mem: Memory, row: Row, rec: nat)
    requires IndexAgrees(mem, row) && rec < row.numRecords
    ensures rec < row.numRecords <= row.place.maxNumRecords && TableFitsMemory(mem, row.place)
    ensures row.place.indexAddress + rec + 1 <= row.place.indexAddress + row.place.maxNumRecords < |mem|
  {
    CountFits(mem, row);
    IndexBeforeEnd(row.place);
  }

  lemma CountFits(mem: Memory, row: Row)
    requires IndexAgrees(mem, row)
    ensures row.numRecords <= row.place.maxNumRecords
  {
  }

  lemma CloseGapStep(index: seq<uint8>, n: nat, id: nat, k: nat)
    requires id + k < n <= |index|
    ensures var rec, cut := id + k, CloseGapCut(index, n, id, k);
            var value := if rec >= |index| - 1 then NO_SLOT else cut[rec + 1];
            cut[rec := value] == CloseGapCut(index, n, id, k + 1)
  {
  }

  // ---- the writes of a whole operation ----

  /** `cuts` is the memory after each write of making room for entry `index`; one more write, of
      that entry, gives mem'. */
  ghost predicate InsertWrites(mem: Memory, cuts: seq<Memory>, mem': Memory, row: Row, index: nat) {
    && IndexAgrees(mem, row) && index <= row.numRecords < row.place.maxNumRecords
    && RoomCuts(mem, cuts, row, index)
    && IsIndexWrite(([mem] + cuts)[|cuts|], mem', row.place, index)
  }

  ghost predicate RoomCuts(mem: Memory, cuts: seq<Memory>, row: Row, index: nat)
    requires IndexAgrees(mem, row) && index <= row.numRecords < row.place.maxNumRecords
  {
    |cuts| == row.numRecords - index && forall i :: 0 <= i < |cuts| ==> RoomMade(mem, cuts[i], row, i + 1)
  }

  ghost predicate IsIndexWrite(mem: Memory, mem': Memory, p: Place, index: nat) {
    && p.indexAddress + index < |mem| == |mem'|
    && mem' == mem[p.indexAddress + index := mem'[p.indexAddress + index]]
  }

  /** `cuts` is the memory after each write of closing the gap at `id`; the last one is mem'. */
  ghost predicate DeleteWrites(mem: Memory, cuts: seq<Memory>, mem': Memory, row: Row, id: nat) {
    && IndexAgrees(mem, row) && id < row.numRecords
    && |cuts| == row.numRecords - id
    && (forall i :: 0 <= i < |cuts| ==> GapClosed(mem, cuts[i], row, id, i + 1))
    && mem' == cuts[|cuts| - 1]
  }

  /** Opened after a power cut, the store is found, table t lists `base` with at most one record
      twice in a row, and no other table's byte has changed. */
  ghost predicate CutIsSafe(cut: Memory, mem: Memory, catalog: seq<Row>, t: nat, base: seq<seq<uint8>>)
    requires t < |catalog|
  {
    && catalog != [] && CatalogIsStored(cut, Places(catalog))
    && ReopensAs(cut, catalog[t].place, base)
    && SameOutsideIndex(mem, cut, catalog[t].place)
  }

  lemma CutsAreSafe(cuts: seq<Memory>, mem: Memory, catalog: seq<Row>, t: nat, id: nat)
    requires StoreAgrees(mem, catalog) && t < |catalog| && id < catalog[t].numRecords
    requires forall c :: c in cuts ==> KeepsOthers(mem, c, catalog[t], id)
    ensures forall c :: c in cuts ==> CutIsSafe(c, mem, catalog, t, Without(View(mem, catalog)[t], id))
  {
    hide ReopensAs, Records, IndexAgrees, Layout, CatalogIsStored;
    forall c | c in cuts
      ensures CatalogIsStored(c, Places(catalog))
    {
      IndexOnly(mem, c, catalog[t].place);
      CatalogUnaffected(mem, c, Places(catalog), t);
    }
  }

  lemma IndexOnly(mem: Memory, mem': Memory, p: Place)
    requires SameOutsideIndex(mem, mem', p)
    ensures SameOutside(mem, mem', p)
  {
  }

  lemma RowAgrees(mem: Memory, catalog: seq<Row>, t: nat)
    requires StoreAgrees(mem, catalog) && t < |catalog|
    ensures IndexAgrees(mem, catalog[t]) && |View(mem, catalog)| == |catalog|
    ensures View(mem, catalog)[t] == Records(mem, catalog[t])
    ensures |Records(mem, catalog[t])| == catalog[t].numRecords <= catalog[t].place.maxNumRecords
  {
  }

  lemma RowBitmapAgrees(mem: Memory, catalog: seq<Row>, t: nat)
    requires StoreIsValid(mem, catalog) && t < |catalog|
    ensures StoreAgrees(mem, catalog) && RowIsValid(mem, catalog[t]) && IndexAgrees(mem, catalog[t])
    ensures |catalog[t].inUse| == NumBytes(catalog[t].place.maxNumRecords)
  {
  }

  lemma IndexEntry(mem: Memory, row: Row, id: nat)
    requires IndexAgrees(mem, row) && id < row.numRecords
    ensures row.place.indexAddress + id < |mem| && id < |Slots(mem, row)|
    ensures mem[row.place.indexAddress + id] == Slots(mem, row)[id] < row.place.maxNumRecords
  {
    IndexBeforeEnd(row.place);
  }

  /** The catalog row after a delete that frees bit `freed`. */
  function RowWithout(row: Row, freed: nat): Row
    requires freed < row.place.maxNumRecords && |row.inUse| == NumBytes(row.place.maxNumRecords) && row.numRecords > 0
  {
    row.(numRecords := row.numRecords - 1, inUse := Unmark(row.inUse, freed))
  }

  ghost predicate DeleteOutcome(mem: Memory, catalog: seq<Row>, mem': Memory, catalog': seq<Row>, t: nat, id: nat,
                                freed: nat)
    requires StoreAgrees(mem, catalog) && t < |catalog| && id < catalog[t].numRecords
  {
    && StoreAgrees(mem', catalog') && Places(catalog') == Places(catalog)
    && View(mem', catalog') == View(mem, catalog)[t := Without(View(mem, catalog)[t], id)]
    && (StoreIsValid(mem, catalog) ==> (StoreIsValid(mem', catalog') <==> Slots(mem, catalog[t])[id] == freed))
    && |catalog'| == |catalog| && IndexAgrees(mem', catalog'[t])
    && Slots(mem', catalog'[t]) == Without(Slots(mem, catalog[t]), id)
  }

  lemma DeleteStep(mem: Memory, mem': Memory, catalog: seq<Row>, t: nat, id: nat, freed: nat)
    requires StoreAgrees(mem, catalog) && t < |catalog| && id < catalog[t].numRecords
    requires |catalog[t].inUse| == NumBytes(catalog[t].place.maxNumRecords) && freed < catalog[t].place.maxNumRecords
    requires GapClosed(mem, mem', catalog[t], id, catalog[t].numRecords - id)
    ensures DeleteOutcome(mem, catalog, mem', catalog[t := RowWithout(catalog[t], freed)], t, id, freed)
  {
    hide Layout, CatalogIsStored, Unmark, Records, Compact, SlotBytes, CloseGapCut, Removed, MarkedSet, SlotSet;
    RowAgrees(mem, catalog, t);
    var row, row' := catalog[t], RowWithout(catalog[t], freed);
    CloseGapDone(IndexOf(mem, row.place), row.numRecords, id);
    DeleteRefines(mem, mem', row, row', id, freed);
    RemovedSlots(mem, mem', row, row', id);
    IndexOnly(mem, mem', row.place);
    TableStep(mem, mem', catalog, t, row');
    if StoreIsValid(mem', catalog[t := row']) {
      RowBitmapAgrees(mem', catalog[t := row'], t);
    }
    if StoreIsValid(mem, catalog) {
      RowBitmapAgrees(mem, catalog, t);
    }
  }

  lemma RemovedSlots(mem: Memory, mem': Memory, row: Row, row': Row, id: nat)
    requires IndexAgrees(mem, row) && IndexAgrees(mem', row') && id < row.numRecords
    requires row'.place == row.place && row'.numRecords == row.numRecords - 1
    requires IndexOf(mem', row.place) == Removed(IndexOf(mem, row.place), row.numRecords, id)
    ensures Slots(mem', row') == Without(Slots(mem, row), id)
  {
  }

  // ---- inserting ----

  /** getNextFreeRecord: `free` is the first unmarked slot. */
  ghost predicate IsLowestFree(inUse: seq<bv8>, maxNumRecords: nat, free: nat)
    requires maxNumRecords <= 8 * |inUse|
  {
    free < maxNumRecords && !IsMarked(inUse, free) && forall i: nat :: i < free ==> IsMarked(inUse, i)
  }

  /** The new record `at` has taken the lowest free slot; the slots of the others have not changed. */
  ghost predicate SlotTaken(mem: Memory, row: Row, mem': Memory, row': Row, at: nat) {
    && RowIsValid(mem, row) && RowIsValid(mem', row') && at <= row.numRecords
    && row'.numRecords == row.numRecords + 1
    && var slot := Slots(mem', row')[at];
       && IsLowestFree(row.inUse, row.place.maxNumRecords, slot)
       && row'.place == row.place && row'.inUse == Mark(row.inUse, slot)
       && Slots(mem', row') == With(Slots(mem, row), at, slot)
  }

  /** Pigeonhole: a table that is not full has an unmarked slot. */
  lemma AllocatorNeverFails(mem: Memory, row: Row)
    requires RowIsValid(mem, row) && row.numRecords < row.place.maxNumRecords
    ensures exists i: nat :: i < row.place.maxNumRecords && i < 8 * |row.inUse| && !IsMarked(row.inUse, i)
  {
    FreeSlotExists(Slots(mem, row), row.place.maxNumRecords);
    var slot: nat :| slot < row.place.maxNumRecords && slot !in SlotSet(Slots(mem, row));
    assert slot !in MarkedSet(row.inUse, row.place.maxNumRecords);
  }

  lemma SizesFit(mem: Memory, row: Row)
    requires IndexAgrees(mem, row)
    ensures row.place.maxNumRecords <= 250
  {
  }

  lemma IndexRoom(mem: Memory, mem': Memory, row: Row, index: nat)
    requires IndexAgrees(mem, row) && index <= row.numRecords < row.place.maxNumRecords
    requires RoomMade(mem, mem', row, row.numRecords - index)
    ensures row.place.indexAddress + index < |mem'|
  {
    IndexBeforeEnd(row.place);
  }

  /** Table t has one more record, at `at`; nothing else has changed. */
  ghost predicate InsertOutcome(mem: Memory, catalog: seq<Row>, mem': Memory, catalog': seq<Row>, t: nat, at: nat) {
    && StoreIsValid(mem, catalog) && StoreIsValid(mem', catalog') && Places(catalog') == Places(catalog)
    && t < |catalog| == |catalog'| && at <= catalog[t].numRecords
    && catalog'[t].numRecords == catalog[t].numRecords + 1
    && View(mem', catalog')
         == View(mem, catalog)[t := With(View(mem, catalog)[t], at, View(mem', catalog')[t][at])]
  }

  function RowWith(row: Row, slot: nat): Row
    requires slot < 8 * |row.inUse| && row.numRecords < 0xFF
  {
    row.(numRecords := row.numRecords + 1, inUse := Mark(row.inUse, slot))
  }

  lemma InsertStep(was: Memory, mem: Memory, catalog: seq<Row>, t: nat, index: nat, slot: uint8)
    requires StoreIsValid(was, catalog) && t < |catalog|
    requires index <= catalog[t].numRecords < catalog[t].place.maxNumRecords
    requires slot < catalog[t].place.maxNumRecords <= 250
    requires slot < 8 * |catalog[t].inUse| && !IsMarked(catalog[t].inUse, slot)
    requires IndexAgrees(was, catalog[t])
    requires RoomMade(was, mem, catalog[t], catalog[t].numRecords - index)
    requires catalog[t].place.indexAddress + index < |mem|
    requires IsLowestFree(catalog[t].inUse, catalog[t].place.maxNumRecords, slot)
    ensures InsertOutcome(was, catalog, mem[catalog[t].place.indexAddress + index := slot],
                          catalog[t := RowWith(catalog[t], slot)], t, index)
    ensures SlotTaken(was, catalog[t], mem[catalog[t].place.indexAddress + index := slot],
                      RowWith(catalog[t], slot), index)
  {
    hide Layout, CatalogIsStored, MarkedSet, SlotSet, SlotBytes;
    var row, row' := catalog[t], RowWith(catalog[t], slot);
    var p, n := row.place, row.numRecords;
    var mem' := mem[p.indexAddress + index := slot];
    IndexWriteTwice(was, mem, mem', p, index);
    RoomFilled(IndexOf(was, p), n, index, slot);
    InsertRefines(was, mem', row, row', index, slot);
    InsertedSlots(was, mem', row, row', index, slot);
    IndexOnly(was, mem', p);
    hide Mark, Records, Compact, Inserted, BitmapAgrees;
    TableStep(was, mem', catalog, t, row');
  }

  lemma InsertedSlots(mem: Memory, mem': Memory, row: Row, row': Row, at: nat, slot: uint8)
    requires RowIsValid(mem, row) && RowIsValid(mem', row') && at <= row.numRecords < row.place.maxNumRecords
    requires IsLowestFree(row.inUse, row.place.maxNumRecords, slot)
    requires row'.place == row.place && row'.numRecords == row.numRecords + 1 && row'.inUse == Mark(row.inUse, slot)
    requires IndexOf(mem', row.place) == Inserted(IndexOf(mem, row.place), row.numRecords, at, slot)
    ensures SlotTaken(mem, row, mem', row', at)
  {
    hide IsLowestFree, Mark, MarkedSet, SlotSet;
    assert Slots(mem', row') == With(Slots(mem, row), at, slot);
  }

  lemma IndexWriteTwice(was: Memory, mem: Memory, mem': Memory, p: Place, i: nat)
    requires TableFitsMemory(was, p) && i < p.maxNumRecords && SameOutsideIndex(was, mem, p)
    requires p.indexAddress + i < |mem| == |mem'| && mem' == mem[p.indexAddress + i := mem'[p.indexAddress + i]]
    ensures IndexOf(mem', p) == IndexOf(mem, p)[i := mem'[p.indexAddress + i]]
    ensures SameOutsideIndex(was, mem', p)
  {
    IndexWrite(mem, mem', p, i);
  }

  lemma RoomFilled(index: seq<uint8>, n: nat, at: nat, slot: uint8)
    requires at <= n < |index|
    ensures MakeRoomCut(index, n, n - at)[at := slot] == Inserted(index, n, at, slot)
  {
  }

  lemma InsertCutsAreSafe(cuts: seq<Memory>, mem: Memory, catalog: seq<Row>, t: nat)
    requires StoreAgrees(mem, catalog) && t < |catalog| && IndexAgrees(mem, catalog[t])
    requires forall c :: c in cuts ==> KeepsAll(mem, c, catalog[t])
    ensures forall c :: c in cuts ==> CutIsSafe(c, mem, catalog, t, View(mem, catalog)[t])
  {
    hide ReopensAs, Records, IndexAgrees, Layout, CatalogIsStored;
    forall c | c in cuts
      ensures CatalogIsStored(c, Places(catalog))
    {
      IndexOnly(mem, c, catalog[t].place);
      CatalogUnaffected(mem, c, Places(catalog), t);
    }
  }

  // ---- opening after a power cut ----

  /** The records a store opened on this memory lists for a table. */
  ghost predicate Lists(mem: Memory, p: Place, records: seq<seq<uint8>>) {
    && TableFitsMemory(mem, p)
    && Below(Live(StoredIndex(mem, p)), p.maxNumRecords)
    && records == RecordsAt(mem, p, Live(StoredIndex(mem, p)))
  }

  lemma ReopensAsLists(mem: Memory, p: Place, base: seq<seq<uint8>>) returns (records: seq<seq<uint8>>)
    requires ReopensAs(mem, p, base)
    ensures Lists(mem, p, records) && OneAdjacentCopy(records, base)
  {
    hide OneAdjacentCopy, SlotBytes;
    StoredIndexFits(mem, p);
    records := RecordsAt(mem, p, Live(StoredIndex(mem, p)));
  }

  lemma AgreesLists(mem: Memory, row: Row)
    requires IndexAgrees(mem, row)
    ensures Lists(mem, row.place, Records(mem, row))
  {
    hide SlotBytes;
    StoredIndexFits(mem, row.place);
    LiveOfCompact(IndexOf(mem, row.place), row.numRecords);
  }

  lemma PassesAsStored(mem: Memory, places: seq<Place>)
    requires Layout(places, |mem|) && CatalogIsStored(mem, places)
    ensures CatalogPasses(mem, |places|) && StoredPlaces(mem, |places|) == places
  {
    assert StoredPlaces(mem, |places|) == places;
    LayoutFits(places, |mem|);
    hide Layout, CatalogIsStored, CatalogPasses, StoredPlaces, SizesFitDevice;
    CheckAcceptsLayouts(mem, |places|);
  }

  /** A store cut off in the middle of an operation on table t opens: every other table lists its
      records, and table t lists `base` with at most one record twice in a row. */
  lemma CutReopens(cut: Memory, mem: Memory, catalog: seq<Row>, t: nat, base: seq<seq<uint8>>)
    returns (records: seq<seq<uint8>>)
    requires StoreAgrees(mem, catalog) && t < |catalog| && CutIsSafe(cut, mem, catalog, t, base)
    ensures CatalogPasses(cut, |catalog|) && StoredPlaces(cut, |catalog|) == Places(catalog)
    ensures Lists(cut, catalog[t].place, records) && OneAdjacentCopy(records, base)
    ensures forall u :: 0 <= u < |catalog| ==> Lists(cut, catalog[u].place, View(mem, catalog)[t := records][u])
  {
    hide Layout, CatalogIsStored, ReopensAs, Records, Lists, IndexAgrees, SameOutsideIndex, CatalogPasses,
      OneAdjacentCopy;
    var places := Places(catalog);
    IndexOnly(mem, cut, catalog[t].place);
    SameLength(mem, cut, catalog[t].place);
    PassesAsStored(cut, places);
    records := ReopensAsLists(cut, catalog[t].place, base);
    forall u | 0 <= u < |catalog| && u != t
      ensures Lists(cut, catalog[u].place, View(mem, catalog)[u])
    {
      OtherTableUnaffected(mem, cut, places, t, catalog[u], u);
      AgreesLists(cut, catalog[u]);
    }
  }

  lemma ListedInRange(mem: Memory, places: seq<Place>, listed: seq<seq<seq<uint8>>>)
    requires StoredPlaces(mem, |places|) == places && |listed| == |places|
    requires forall u :: 0 <= u < |places| ==> Lists(mem, places[u], listed[u])
    ensures SlotsInRange(mem, |places|)
  {
    hide Live, StoredPlace, StoredIndex, RecordsAt;
    forall u | 0 <= u < |places|
      ensures Below(Live(StoredIndex(mem, StoredPlace(mem, u))), StoredPlace(mem, u).maxNumRecords)
    {
      assert Lists(mem, places[u], listed[u]);
      assert StoredPlaces(mem, |places|)[u] == StoredPlace(mem, u);
    }
  }

  lemma NumTablesFit(mem: Memory, catalog: seq<Row>)
    requires StoreAgrees(mem, catalog)
    ensures 0 < |catalog| <= 250
  {
  }

  lemma RebuiltPlaces(mem: Memory, catalog: seq<Row>, catalog': seq<Row>)
    requires StoredPlaces(mem, |catalog|) == Places(catalog) && |catalog'| == |catalog|
    requires forall t :: 0 <= t < |catalog'| ==> IsRebuilt(mem, t, catalog'[t])
    ensures Places(catalog') == Places(catalog)
    ensures forall t :: 0 <= t < |catalog| ==> catalog'[t].place == catalog[t].place
  {
    hide StoredPlace, Live, MarkedSet, SlotSet;
    forall t | 0 <= t < |catalog|
      ensures catalog'[t].place == catalog[t].place
    {
      assert StoredPlaces(mem, |catalog|)[t] == StoredPlace(mem, t);
    }
  }

  // ---- deleting all records ----

  /** The first `rec` index bytes and bitmap bits are cleared. */
  ghost predicate FirstFreed(mem: Memory, mem': Memory, row: Row, rec: nat)
    requires TableFitsMemory(mem, row.place) && |row.inUse| == NumBytes(row.place.maxNumRecords)
  {
    && rec <= row.place.maxNumRecords
    && SameOutsideIndex(mem, mem', row.place)
    && AllFree(IndexOf(mem', row.place)[..rec])
    && forall i: nat :: i < rec ==> !IsMarked(row.inUse, i)
  }

  lemma NothingFreed(mem: Memory, row: Row)
    requires RowIsValid(mem, row)
    ensures TableFitsMemory(mem, row.place)
    ensures |row.inUse| == NumBytes(row.place.maxNumRecords) && FirstFreed(mem, mem, row, 0)
  {
  }

  lemma FreeStep(was: Memory, mem: Memory, row: Row, rec: nat)
    requires TableFitsMemory(was, row.place) && |row.inUse| == NumBytes(row.place.maxNumRecords)
    requires rec < row.place.maxNumRecords && FirstFreed(was, mem, row, rec)
    ensures row.place.indexAddress + rec < |mem|
    ensures FirstFreed(was, mem[row.place.indexAddress + rec := NO_SLOT], row.(inUse := Unmark(row.inUse, rec)), rec + 1)
  {
    var p := row.place;
    IndexBeforeEnd(p);
    var mem' := mem[p.indexAddress + rec := NO_SLOT];
    IndexWriteTwice(was, mem, mem', p, rec);
    assert IndexOf(mem', p)[..rec + 1] == IndexOf(mem, p)[..rec] + [NO_SLOT];
    forall i: nat | i < rec + 1
      ensures !IsMarked(Unmark(row.inUse, rec), i)
    {
      MarkedAfter(row.inUse, rec, i);
    }
  }

  lemma AllFreed(mem: Memory, mem': Memory, catalog: seq<Row>, t: nat, row: Row)
    requires StoreIsValid(mem, catalog) && t < |catalog| && row == catalog[t].(inUse := row.inUse)
    requires TableFitsMemory(mem, row.place) && |row.inUse| == NumBytes(row.place.maxNumRecords)
    requires FirstFreed(mem, mem', row, row.place.maxNumRecords)
    ensures var catalog' := catalog[t := row.(numRecords := 0)];
            && StoreIsValid(mem', catalog') && Places(catalog') == Places(catalog)
            && View(mem', catalog') == View(mem, catalog)[t := []]
  {
    var p, row' := row.place, row.(numRecords := 0);
    assert IndexOf(mem', p)[..p.maxNumRecords] == IndexOf(mem', p);
    assert MarkedSet(row'.inUse, p.maxNumRecords) == {};
    DeleteAllRefines(mem', row');
    IndexOnly(mem, mem', p);
    hide Layout, CatalogIsStored, Records, Compact, SlotBytes, MarkedSet, SlotSet, BitmapAgrees;
    TableStep(mem, mem', catalog, t, row');
  }

  // ---- record contents ----

  lemma SlotInMemory(mem: Memory, p: Place, slot: nat)
    requires TableFitsMemory(mem, p) && slot < p.maxNumRecords
    ensures SlotAddress(p, slot) + p.recordSize <= |mem|
  {
    SlotFits(p, slot);
  }

  lemma RecordOfSlot(mem: Memory, row: Row, id: nat)
    requires IndexAgrees(mem, row) && id < row.numRecords
    ensures TableFitsMemory(mem, row.place) && Slots(mem, row)[id] < row.place.maxNumRecords
    ensures Records(mem, row)[id] == SlotBytes(mem, row.place, Slots(mem, row)[id])
  {
  }

  lemma SetStep(mem: Memory, mem': Memory, catalog: seq<Row>, t: nat, id: nat, raw: seq<uint8>)
    requires StoreIsValid(mem, catalog) && t < |catalog| && id < catalog[t].numRecords
    requires IndexAgrees(mem, catalog[t]) && TableFitsMemory(mem, catalog[t].place)
    requires Slots(mem, catalog[t])[id] < catalog[t].place.maxNumRecords
    requires SlotWritten(mem, mem', catalog[t].place, Slots(mem, catalog[t])[id], raw)
    ensures StoreIsValid(mem', catalog)
    ensures View(mem', catalog) == View(mem, catalog)[t := View(mem, catalog)[t][id := raw]]
  {
    hide Layout, CatalogIsStored, Records, Compact, SlotBytes, MarkedSet, SlotSet, BitmapAgrees, SlotWritten;
    RowBitmapAgrees(mem, catalog, t);
    RowAgrees(mem, catalog, t);
    SetRefines(mem, mem', catalog[t], id, raw);
    assert catalog[t := catalog[t]] == catalog;
    TableStep(mem, mem', catalog, t, catalog[t]);
  }

  // ---- opening ----

  function LoadedRow(mem: Memory, t: nat): Row {
    Row(StoredPlace(mem, t), |Live(StoredIndex(mem, StoredPlace(mem, t)))|, [])
  }

  /** No stored index names a slot outside its table: the bitmap has no bit for it. */
  ghost predicate SlotsInRange(mem: Memory, n: nat) {
    forall t :: 0 <= t < n ==>
      Below(Live(StoredIndex(mem, StoredPlace(mem, t))), StoredPlace(mem, t).maxNumRecords)
  }

  function LiveOf(mem: Memory, t: nat): seq<uint8> {
    Live(StoredIndex(mem, StoredPlace(mem, t)))
  }

  /** Every slot that the stored index of table t names has a bit in the table's bitmap, which has whole
      bytes. */
  predicate SlotsHaveBits(mem: Memory, t: nat) {
    Below(LiveOf(mem, t), 8 * NumBytes(StoredPlace(mem, t).maxNumRecords))
  }

  /** The row of table t as opening leaves it: rebuilt from the bytes when the stored slots are in range. */
  ghost predicate IsOpened(mem: Memory, t: nat, row: Row) {
    && row == LoadedRow(mem, t).(inUse := row.inUse) && |row.inUse| == NumBytes(row.place.maxNumRecords)
    && (Below(LiveOf(mem, t), row.place.maxNumRecords) ==> IsRebuilt(mem, t, row))
  }

  lemma OpenedIsRebuilt(mem: Memory, n: nat, catalog: seq<Row>)
    requires SlotsInRange(mem, n) && |catalog| == n && forall t :: 0 <= t < n ==> IsOpened(mem, t, catalog[t])
    ensures forall t :: 0 <= t < n ==> IsRebuilt(mem, t, catalog[t]) && SlotsHaveBits(mem, t)
  {
    hide Live, StoredIndex, StoredPlace, IsRebuilt;
    forall t | 0 <= t < n
      ensures Below(LiveOf(mem, t), StoredPlace(mem, t).maxNumRecords)
    {
    }
  }

  /** Bits behind the last slot do not count. */
  lemma MarkedInRange(inUse: seq<bv8>, m: nat, live: seq<uint8>)
    requires m <= 8 * |inUse| && MarkedSet(inUse, 8 * |inUse|) == SlotSet(live) && Below(live, m)
    ensures MarkedSet(inUse, m) == SlotSet(live)
  {
    forall x | x in SlotSet(live)
      ensures x < m
    {
    }
    assert forall x: nat :: x in MarkedSet(inUse, m) <==> x in MarkedSet(inUse, 8 * |inUse|) && x < m;
  }

  lemma OneMoreBelow(live: seq<uint8>, rec: nat, m: nat)
    requires rec < |live|
    ensures Below(live[..rec + 1], m) <==> Below(live[..rec], m) && live[rec] < m
  {
    assert live[..rec + 1] == live[..rec] + [live[rec]];
    if Below(live[..rec + 1], m) {
      assert forall i :: 0 <= i < rec ==> live[..rec][i] == live[..rec + 1][i];
      assert live[..rec + 1][rec] == live[rec];
    }
  }

  lemma GeneratedRow(mem: Memory, t: nat, row: Row, inUse: seq<bv8>, pastEnd: bool)
    requires row == LoadedRow(mem, t) && |inUse| == NumBytes(row.place.maxNumRecords)
    requires pastEnd <==> !Below(Live(StoredIndex(mem, row.place)), 8 * |inUse|)
    requires !pastEnd ==> MarkedSet(inUse, 8 * |inUse|) == SlotSet(Live(StoredIndex(mem, row.place)))
    ensures IsOpened(mem, t, row.(inUse := inUse)) && (pastEnd <==> !SlotsHaveBits(mem, t))
  {
    var live, m := Live(StoredIndex(mem, row.place)), row.place.maxNumRecords;
    hide Live, StoredIndex, StoredPlace, MarkedSet, SlotSet;
    if Below(live, m) {
      assert Below(live, 8 * |inUse|);
      MarkedInRange(inUse, m, live);
    }
  }

  lemma PassingMeansCount(mem: Memory, n: nat)
    ensures CatalogPasses(mem, n) ==> Read8(mem, 0) == n
  {
  }

  lemma StoredSlotsInRange(mem: Memory, catalog: seq<Row>)
    requires StoreAgrees(mem, catalog) && StoredPlaces(mem, |catalog|) == Places(catalog)
    ensures SlotsInRange(mem, |catalog|) && 0 < |catalog| <= 250
  {
    hide CatalogIsStored, EndAddress, StoredPlace, Live;
    forall t | 0 <= t < |catalog|
      ensures Below(Live(StoredIndex(mem, StoredPlace(mem, t))), StoredPlace(mem, t).maxNumRecords)
    {
      assert StoredPlace(mem, t) == StoredPlaces(mem, |catalog|)[t] == Places(catalog)[t] == catalog[t].place;
      IndexBeforeEnd(catalog[t].place);
      StoredIndexFits(mem, catalog[t].place);
      LiveOfCompact(IndexOf(mem, catalog[t].place), catalog[t].numRecords);
    }
  }

  // ---- creating ----

  lemma FirstZeroRow(catalog: seq<Row>, k: nat, deviceSize: nat)
    requires PartlyLaidOut(catalog, k, deviceSize) && k < |catalog|
    ensures catalog[k].place.maxNumRecords == 0 && deviceSize <= 0x1_0000
    ensures forall t :: 0 <= t < k ==> catalog[t].place.maxNumRecords != 0
  {
  }

  lemma AddressOfEnd(p: Place)
    ensures EndAddress(p) == p.dataAddress + AreaSize(p)
    ensures AreaSize(p) == p.recordSize * p.maxNumRecords
    ensures AreaSize(p) >= 0
  {
  }

  /** The next table begins where rs_createTable computes it, in 16 bits, and extends the layout. */
  lemma TableCreated(catalog: seq<Row>, k: nat, deviceSize: nat, maxNumRecords: uint8, recordSize: uint8)
    requires PartlyLaidOut(catalog, k, deviceSize) && k < |catalog|
    requires 0 < maxNumRecords <= MAX_NUM_RECORDS && 0 < recordSize <= MAX_RECORD_SIZE
    requires NextIndexAddress(catalog, k) + maxNumRecords + 1 + recordSize * maxNumRecords < deviceSize
    ensures var (index, data) := (NextIndexAddress(catalog, k), NextIndexAddress(catalog, k) + maxNumRecords + 1);
            && index == (if k > 0 then ToUint16(catalog[k - 1].place.dataAddress + AreaSize(catalog[k - 1].place) + 1)
                         else ToUint16(|catalog| * TABLE_CATALOG_ROW_SIZE + 2))
            && data == ToUint16(index + maxNumRecords + 1)
            && PartlyLaidOut(catalog[k := Row(Place(index, data, recordSize, maxNumRecords), 0, [])], k + 1, deviceSize)
  {
    var index := NextIndexAddress(catalog, k);
    var data := index + maxNumRecords + 1;
    var place := Place(index, data, recordSize, maxNumRecords);
    if k > 0 {
      AddressOfEnd(catalog[k - 1].place);
    }
    AddressOfEnd(place);
    NoWrap(index);
    NoWrap(data);
    hide EndAddress, AreaSize, ToUint16;
    RowAppended(catalog, k, deviceSize, place);
  }

  lemma RowAppended(catalog: seq<Row>, k: nat, deviceSize: nat, place: Place)
    requires PartlyLaidOut(catalog, k, deviceSize) && k < |catalog|
    requires PlaceIsValid(place) && place.indexAddress == NextIndexAddress(catalog, k) && EndAddress(place) < deviceSize
    ensures PartlyLaidOut(catalog[k := Row(place, 0, [])], k + 1, deviceSize)
  {
    hide EndAddress, PlaceIsValid;
  }

  lemma NothingStored(was: Memory, mem: Memory, places: seq<Place>)
    requires Layout(places, |was|) && mem == was[0 := |places|]
    ensures StoredUpTo(was, mem, places, 0)
  {
    hide EndAddress, PlaceIsValid;
    TableFits(places, |was|, 0);
    forall u, a | 0 <= u < |places| && InTable(places[u], a)
      ensures Read8(mem, a) == Read8(was, a)
    {
      RegionsAreDisjoint(places, |was|, u, a);
    }
  }

  /** The closing byte completes the catalog. */
  lemma CloseCatalog(was: Memory, mem: Memory, places: seq<Place>)
    requires Layout(places, |was|) && StoredUpTo(was, mem, places, |places|)
    ensures var closing := EndAddress(places[|places| - 1]);
            && closing < |mem| == |was|
            && CatalogIsStored(mem[closing := 0], places)
            && forall u, a :: 0 <= u < |places| && InTable(places[u], a) ==> Read8(mem[closing := 0], a) == Read8(was, a)
  {
    var n, closing := |places|, EndAddress(places[|places| - 1]);
    var mem' := mem[closing := 0];
    TableFits(places, |was|, n - 1);
    hide EndAddress, PlaceIsValid, Layout, StoredPlace, IsSeparated, Read8;
    forall a
      ensures Read8(mem', a) == if a == closing then 0 else Read8(mem, a)
    {
      ReadAfterWrite(mem, closing, 0, a);
    }
    forall t | 0 <= t < n
      ensures StoredPlace(mem', t) == places[t] && IsSeparated(mem', places[t])
    {
      ClosingIsBehind(places, |was|);
      RowUnaffected(mem, mem', places, t);
      SeparatorsStay(mem, mem', places[t], closing);
    }
    forall u, a | 0 <= u < n && InTable(places[u], a)
      ensures a != closing
    {
      RegionsAreDisjoint(places, |was|, u, a);
    }
  }

  lemma ReadAfterWrite(mem: Memory, at: nat, b: uint8, a: int)
    requires at < |mem|
    ensures Read8(mem[at := b], a) == if a == at then b else Read8(mem, a)
  {
  }

  /** The byte behind the last table lies behind the catalog. */
  lemma ClosingIsBehind(places: seq<Place>, deviceSize: nat)
    requires Layout(places, deviceSize)
    ensures FirstIndexAddress(|places|) <= EndAddress(places[|places| - 1])
  {
    TableFits(places, deviceSize, |places| - 1);
    IndexBeforeEnd(places[|places| - 1]);
  }

  lemma SeparatorsStay(mem: Memory, mem': Memory, p: Place, closing: nat)
    requires IsSeparated(mem, p) && forall a :: Read8(mem', a) == if a == closing then 0 else Read8(mem, a)
    ensures IsSeparated(mem', p)
  {
    hide Read8;
  }

  lemma MarkSlot(inUse: seq<bv8>, m: nat, live: seq<uint8>, rec: nat)
    requires rec < |live| && live[rec] < m <= 8 * |inUse| && MarkedSet(inUse, m) == SlotSet(live[..rec])
    ensures MarkedSet(Mark(inUse, live[rec]), m) == SlotSet(live[..rec + 1])
  {
    SlotSetWith(live[..rec], rec, live[rec]);
    assert With(live[..rec], rec, live[rec]) == live[..rec + 1];
    forall i: nat | i < m
      ensures i in MarkedSet(Mark(inUse, live[rec]), m) <==> i in SlotSet(live[..rec + 1])
    {
      MarkedAfter(inUse, live[rec], i);
    }
    forall x | x in SlotSet(live[..rec])
      ensures x < m
    {
      assert x in MarkedSet(inUse, m);
    }
  }

  lemma IndexWrite(mem: Memory, mem': Memory, p: Place, i: nat)
    requires TableFitsMemory(mem, p) && i < p.maxNumRecords && |mem'| == |mem|
    requires p.indexAddress + i < |mem| && mem' == mem[p.indexAddress + i := mem'[p.indexAddress + i]]
    ensures IndexOf(mem', p) == IndexOf(mem, p)[i := mem'[p.indexAddress + i]]
    ensures SameOutsideIndex(mem, mem', p)
  {
  }

  lemma MakeRoomStep(index: seq<uint8>, n: nat, k: nat)
    requires k < n < |index|
    ensures MakeRoomCut(index, n, k)[n - k := MakeRoomCut(index, n, k)[n - k - 1]] == MakeRoomCut(index, n, k + 1)
  {
  }
}
