/** src/RecordStore.c: tables of fixed-size byte records in EEPROM.
    The C asserts on identifiers are preconditions here. */
module RecordStore {
  import opened MachineInts
  import opened BitUtils
  import opened Limits
  import opened Bitmap
  import opened SlotIndex
  import opened StoreLayout
  import opened StoreSteps
  import opened StoreOpening
  import opened StoreWrites

  class Store {
    /** The EEPROM, written one byte at a time. */
    const ee: array<uint8>
    /** TableCatalog: the RAM copy of the catalog with the run-time state of each table. */
    var catalog: seq<Row>

    constructor (device: array<uint8>)
      ensures ee == device && catalog == []
    {
      ee := device;
      catalog := [];
    }

    ghost predicate Valid()
      reads this, ee
    {
      StoreIsValid(ee[..], catalog)
    }

    /** The record lists of all tables. */
    ghost function Tables(): seq<seq<seq<uint8>>>
      requires StoreAgrees(ee[..], catalog)
      reads this, ee
    {
      View(ee[..], catalog)
    }

    method WriteByte(a: nat, value: uint8)
      requires a < ee.Length
      modifies ee
      ensures ee[..] == old(ee[..])[a := value]
    {
      ee[a] := value;
    }

    // ---- the index ----

    /** shiftRecordIndexUp, for a new entry at `index`. The counters are uint8: for index 0 of an
        empty table both wrap to 255 and nothing happens. `cuts` is the memory after each write. */
    method ShiftRecordIndexUp(row: Row, index: uint8) returns (ghost cuts: seq<Memory>)
      requires IndexAgrees(ee[..], row)
      requires index <= row.numRecords < row.place.maxNumRecords && (index == 0 ==> row.numRecords == 0)
      modifies ee
      ensures RoomMade(old(ee[..]), ee[..], row, row.numRecords - index)
      ensures RoomCuts(old(ee[..]), cuts, row, index) && ee[..] == (old([ee[..]]) + cuts)[|cuts|]
      ensures forall c :: c in cuts ==> KeepsAll(old(ee[..]), c, row)
    {
      hide RoomMade, KeepsAll, IndexAgrees;
      ghost var was, n := ee[..], row.numRecords as int;
      cuts := [];
      var record := ToUint8(index - 1);
      var rec := ToUint8(row.numRecords - 1);
      NoRoomMade(was, row);
      while rec > record
        invariant if n == 0 then rec == record else index - 1 <= rec < n
        invariant RoomMade(was, ee[..], row, if n == 0 then 0 else n - 1 - rec)
        invariant |cuts| == if n == 0 then 0 else n - 1 - rec
        invariant forall i :: 0 <= i < |cuts| ==> RoomMade(was, cuts[i], row, i + 1)
        invariant ee[..] == ([was] + cuts)[|cuts|]
        invariant forall c :: c in cuts ==> KeepsAll(was, c, row)
      {
        var a := row.place.indexAddress + rec;
        RoomMadeStep(was, ee[..], row, n - 1 - rec);
        WriteByte(a + 1, ee[a]);
        cuts := cuts + [ee[..]];
        rec := rec - 1;
      }
    }

    /** shiftRecordIndexDown: closes the gap of a deleted record. */
    method ShiftRecordIndexDown(row: Row, id: uint8) returns (ghost cuts: seq<Memory>)
      requires IndexAgrees(ee[..], row) && id < row.numRecords
      modifies ee
      ensures GapClosed(old(ee[..]), ee[..], row, id, row.numRecords - id)
      ensures DeleteWrites(old(ee[..]), cuts, ee[..], row, id)
      ensures forall c :: c in cuts ==> KeepsOthers(old(ee[..]), c, row, id)
    {
      hide GapClosed, KeepsOthers, IndexAgrees;
      ghost var was := ee[..];
      cuts := [];
      NoGapClosed(was, row, id);
      var rec := id;
      while rec < row.numRecords
        invariant id <= rec <= row.numRecords
        invariant GapClosed(was, ee[..], row, id, rec - id)
        invariant |cuts| == rec - id && ee[..] == ([was] + cuts)[|cuts|]
        invariant forall i :: 0 <= i < |cuts| ==> GapClosed(was, cuts[i], row, id, i + 1)
        invariant forall c :: c in cuts ==> KeepsOthers(was, c, row, id)
      {
        var a := row.place.indexAddress + rec;
        GapClosedStep(was, ee[..], row, id, rec - id);
        var index := ee[a + 1];
        if rec >= row.place.maxNumRecords - 1 {
          index := NO_SLOT;
        }
        WriteByte(a, index);
        cuts := cuts + [ee[..]];
        rec := rec + 1;
      }
    }

    /** rs_deleteRecord. The bit it frees is that of the logical id, while the bitmap is indexed
        by slot: the record lists are right, the store is valid again exactly when the two agree. */
    method DeleteRecord(t: nat, id: uint8) returns (ghost cuts: seq<Memory>)
      requires StoreAgrees(ee[..], catalog) && t < |catalog| && id < catalog[t].numRecords
      requires |catalog[t].inUse| == NumBytes(catalog[t].place.maxNumRecords)
      modifies this, ee
      ensures StoreAgrees(ee[..], catalog) && Places(catalog) == old(Places(catalog))
      ensures Tables() == old(Tables())[t := Without(old(Tables())[t], id)]
      ensures old(Valid()) ==> (Valid() <==> old(Slots(ee[..], catalog[t])[id]) == id)
      ensures catalog[t] == old(RowWithout(catalog[t], id))
      ensures Slots(ee[..], catalog[t]) == old(Without(Slots(ee[..], catalog[t]), id))
      ensures DeleteWrites(old(ee[..]), cuts, ee[..], old(catalog)[t], id)
      ensures forall c :: c in cuts ==> CutIsSafe(c, old(ee[..]), old(catalog), t, old(Without(Tables()[t], id)))
    {
      cuts := DeleteFreeing(t, id, id);
    }

    /** The documented delete: it frees the slot of the record, read before the index moves. */
    method DeleteRecordAndFreeSlot(t: nat, id: uint8) returns (ghost cuts: seq<Memory>)
      requires Valid() && t < |catalog| && id < catalog[t].numRecords
      modifies this, ee
      ensures Valid() && Places(catalog) == old(Places(catalog))
      ensures Tables() == old(Tables())[t := Without(old(Tables())[t], id)]
      ensures Slots(ee[..], catalog[t]) == old(Without(Slots(ee[..], catalog[t]), id))
      ensures DeleteWrites(old(ee[..]), cuts, ee[..], old(catalog)[t], id)
      ensures forall c :: c in cuts ==> CutIsSafe(c, old(ee[..]), old(catalog), t, old(Without(Tables()[t], id)))
    {
      hide StoreAgrees, StoreIsValid, View, Slots, CutIsSafe, Places, IndexAgrees, RowIsValid;
      RowBitmapAgrees(ee[..], catalog, t);
      IndexEntry(ee[..], catalog[t], id);
      cuts := DeleteFreeing(t, id, ee[catalog[t].place.indexAddress + id]);
    }

    method DeleteFreeing(t: nat, id: uint8, freed: uint8) returns (ghost cuts: seq<Memory>)
      requires StoreAgrees(ee[..], catalog) && t < |catalog| && id < catalog[t].numRecords
      requires |catalog[t].inUse| == NumBytes(catalog[t].place.maxNumRecords) && freed < catalog[t].place.maxNumRecords
      modifies this, ee
      ensures StoreAgrees(ee[..], catalog) && Places(catalog) == old(Places(catalog))
      ensures Tables() == old(Tables())[t := Without(old(Tables())[t], id)]
      ensures old(Valid()) ==> (Valid() <==> old(Slots(ee[..], catalog[t])[id]) == freed)
      ensures catalog[t] == old(RowWithout(catalog[t], freed))
      ensures Slots(ee[..], catalog[t]) == old(Without(Slots(ee[..], catalog[t]), id))
      ensures DeleteWrites(old(ee[..]), cuts, ee[..], old(catalog)[t], id)
      ensures forall c :: c in cuts ==> CutIsSafe(c, old(ee[..]), old(catalog), t, old(Without(Tables()[t], id)))
    {
      hide StoreAgrees, StoreIsValid, View, Slots, CutIsSafe, Places, IndexAgrees, GapClosed, KeepsOthers, Unmark;
      ghost var was, before := ee[..], catalog;
      RowAgrees(was, catalog, t);
      var row := catalog[t];
      row := row.(inUse := Unmark(row.inUse, freed)); // markRecordFree
      cuts := ShiftRecordIndexDown(catalog[t], id);
      DeleteStep(was, ee[..], before, t, id, freed);
      CutsAreSafe(cuts, was, before, t, id);
      catalog := catalog[t := row.(numRecords := row.numRecords - 1)];
    }

    // ---- inserting ----

    /** getNextFreeRecord: the lowest free slot. */
    method GetNextFreeRecord(row: Row) returns (free: uint8)
      requires |row.inUse| == NumBytes(row.place.maxNumRecords) && row.place.maxNumRecords <= 250
      ensures if free == NO_FREE_RECORD_FOUND
              then forall i: nat :: i < row.place.maxNumRecords ==> IsMarked(row.inUse, i)
              else IsLowestFree(row.inUse, row.place.maxNumRecords, free)
    {
      for rec := 0 to row.place.maxNumRecords
        invariant forall i: nat :: i < rec ==> IsMarked(row.inUse, i)
      {
        if !IsMarked(row.inUse, rec) {
          return rec;
        }
      }
      return NO_FREE_RECORD_FOUND;
    }

    /** insertRecordAt. The assertion that a free slot exists never fails. */
    method InsertRecordAt(t: nat, index: uint8) returns (id: uint8, ghost cuts: seq<Memory>)
      requires Valid() && t < |catalog| && index <= catalog[t].numRecords
      requires index == 0 ==> catalog[t].numRecords == 0
      modifies this, ee
      ensures Valid() && Places(catalog) == old(Places(catalog))
      ensures old(catalog[t].numRecords) >= catalog[t].place.maxNumRecords ==>
                id == MAX_NUM_RECORDS_REACHED && catalog == old(catalog) && ee[..] == old(ee[..]) && cuts == []
      ensures old(catalog[t].numRecords) < catalog[t].place.maxNumRecords ==>
                && id == index
                && InsertOutcome(old(ee[..]), old(catalog), ee[..], catalog, t, index)
                && SlotTaken(old(ee[..]), old(catalog)[t], ee[..], catalog[t], index)
                && InsertWrites(old(ee[..]), cuts, ee[..], old(catalog)[t], index)
      ensures forall c :: c in cuts ==> CutIsSafe(c, old(ee[..]), old(catalog), t, old(Tables()[t]))
    {
      hide StoreAgrees, StoreIsValid, View, Slots, CutIsSafe, Places, IndexAgrees, RowIsValid, RoomMade, KeepsAll, Mark;
      ghost var was, before := ee[..], catalog;
      RowBitmapAgrees(was, catalog, t);
      RowAgrees(was, catalog, t);
      var row := catalog[t];
      if row.numRecords >= row.place.maxNumRecords {
        return MAX_NUM_RECORDS_REACHED, [];
      }
      SizesFit(was, row);
      var freeRecord := GetNextFreeRecord(row);
      AllocatorNeverFails(was, row);
      assert freeRecord != NO_FREE_RECORD_FOUND;
      cuts := ShiftRecordIndexUp(row, index);
      IndexRoom(was, ee[..], row, index);
      InsertStep(was, ee[..], before, t, index, freeRecord);
      InsertCutsAreSafe(cuts, was, before, t);
      WriteByte(row.place.indexAddress + index, freeRecord); // setRecordIndex
      row := row.(inUse := Mark(row.inUse, freeRecord)); // markRecordInUse
      catalog := catalog[t := row.(numRecords := row.numRecords + 1)];
      id := index;
    }

    /** rs_appendRecord */
    method AppendRecord(t: nat) returns (id: uint8, ghost cuts: seq<Memory>)
      requires Valid() && t < |catalog|
      modifies this, ee
      ensures Valid() && Places(catalog) == old(Places(catalog))
      ensures old(catalog[t].numRecords) >= catalog[t].place.maxNumRecords ==>
                id == MAX_NUM_RECORDS_REACHED && catalog == old(catalog) && ee[..] == old(ee[..]) && cuts == []
      ensures old(catalog[t].numRecords) < catalog[t].place.maxNumRecords ==>
                && id == old(catalog[t].numRecords)
                && InsertOutcome(old(ee[..]), old(catalog), ee[..], catalog, t, id)
                && SlotTaken(old(ee[..]), old(catalog)[t], ee[..], catalog[t], id)
                && InsertWrites(old(ee[..]), cuts, ee[..], old(catalog)[t], id)
      ensures forall c :: c in cuts ==> CutIsSafe(c, old(ee[..]), old(catalog), t, old(Tables()[t]))
    {
      id, cuts := InsertRecordAt(t, catalog[t].numRecords);
    }

    /** rs_insertRecordAfter */
    method InsertRecordAfter(t: nat, record: uint8) returns (id: uint8, ghost cuts: seq<Memory>)
      requires Valid() && t < |catalog| && record < catalog[t].numRecords
      modifies this, ee
      ensures Valid() && Places(catalog) == old(Places(catalog))
      ensures old(catalog[t].numRecords) >= catalog[t].place.maxNumRecords ==>
                id == MAX_NUM_RECORDS_REACHED && catalog == old(catalog) && ee[..] == old(ee[..]) && cuts == []
      ensures old(catalog[t].numRecords) < catalog[t].place.maxNumRecords ==>
                && id == record + 1
                && InsertOutcome(old(ee[..]), old(catalog), ee[..], catalog, t, id)
                && SlotTaken(old(ee[..]), old(catalog)[t], ee[..], catalog[t], id)
                && InsertWrites(old(ee[..]), cuts, ee[..], old(catalog)[t], id)
      ensures forall c :: c in cuts ==> CutIsSafe(c, old(ee[..]), old(catalog), t, old(Tables()[t]))
    {
      id, cuts := InsertRecordAt(t, record + 1);
    }

    /** rs_deleteAllRecords */
    method DeleteAllRecords(t: nat) returns (numDeleted: uint8)
      requires Valid() && t < |catalog|
      modifies this, ee
      ensures Valid() && Places(catalog) == old(Places(catalog))
      ensures numDeleted == old(catalog[t].numRecords) && catalog[t].numRecords == 0
      ensures Tables() == old(Tables())[t := []]
    {
      hide StoreAgrees, StoreIsValid, View, Slots, Places, IndexAgrees, RowIsValid, SameOutsideIndex, Unmark,
        IndexOf, BitmapAgrees, MarkedSet, TableFitsMemory;
      ghost var was, before := ee[..], catalog;
      RowBitmapAgrees(was, catalog, t);
      RowAgrees(was, catalog, t);
      var row := catalog[t];
      NothingFreed(was, row);
      for rec := 0 to row.place.maxNumRecords
        invariant catalog == before && row == before[t].(inUse := row.inUse)
        invariant TableFitsMemory(was, row.place) && |row.inUse| == NumBytes(row.place.maxNumRecords)
        invariant FirstFreed(was, ee[..], row, rec)
      {
        FreeStep(was, ee[..], row, rec);
        WriteByte(row.place.indexAddress + rec, NO_SLOT);
        row := row.(inUse := Unmark(row.inUse, rec));
      }
      numDeleted := row.numRecords;
      AllFreed(was, ee[..], before, t, row);
      catalog := catalog[t := row.(numRecords := 0)];
    }

    // ---- record contents ----

    /** rs_setRawRecord: writes recordSize bytes of the given buffer. */
    method SetRawRecord(t: nat, id: uint8, raw: array<uint8>)
      requires Valid() && t < |catalog| && id < catalog[t].numRecords
      requires catalog[t].place.recordSize <= raw.Length && raw != ee
      modifies ee
      ensures Valid() && Tables() == old(Tables())[t := old(Tables()[t])[id := raw[..catalog[t].place.recordSize]]]
    {
      hide StoreAgrees, StoreIsValid, View, Slots, IndexAgrees, RowIsValid, SlotAddress, PlaceIsValid, EndAddress;
      ghost var was := ee[..];
      RowBitmapAgrees(was, catalog, t);
      RowAgrees(was, catalog, t);
      var p := catalog[t].place;
      IndexEntry(was, catalog[t], id);
      var offset := ee[p.indexAddress + id]; // getRecordIndex
      SlotInMemory(was, p, offset);
      var eeAddress := SlotAddress(p, offset); // getDataAddress
      for i := 0 to p.recordSize
        invariant ee.Length == |was| && raw[..] == old(raw[..])
        invariant forall a :: 0 <= a < ee.Length ==>
                    ee[a] == if eeAddress <= a < eeAddress + i then raw[a - eeAddress] else was[a]
      {
        ee[eeAddress + i] := raw[i];
      }
      SetStep(was, ee[..], catalog, t, id, raw[..p.recordSize]);
    }

    /** rs_getRawRecord: the bytes of a record, in a buffer of the table's record size. */
    method GetRawRecord(t: nat, id: uint8) returns (buffer: array<uint8>)
      requires StoreAgrees(ee[..], catalog) && t < |catalog| && id < catalog[t].numRecords
      ensures fresh(buffer) && buffer[..] == Tables()[t][id]
    {
      hide StoreAgrees, View, Slots, IndexAgrees, SlotAddress;
      RowAgrees(ee[..], catalog, t);
      var p := catalog[t].place;
      IndexEntry(ee[..], catalog[t], id);
      RecordOfSlot(ee[..], catalog[t], id);
      var offset := ee[p.indexAddress + id];
      SlotInMemory(ee[..], p, offset);
      var eeAddress := SlotAddress(p, offset);
      buffer := new uint8[p.recordSize];
      for i := 0 to p.recordSize
        invariant buffer[..i] == ee[eeAddress..eeAddress + i]
      {
        buffer[i] := ee[eeAddress + i];
      }
      assert buffer[..] == buffer[..p.recordSize];
    }

    // ---- opening ----

    /** getNumRecordsFromIndex */
    method GetNumRecordsFromIndex(p: Place) returns (n: uint8)
      ensures n == |Live(StoredIndex(ee[..], p))| <= p.maxNumRecords
    {
      ghost var index := StoredIndex(ee[..], p);
      for rec := 0 to p.maxNumRecords
        invariant NO_SLOT !in index[..rec]
      {
        if Read8(ee[..], ToUint16(p.indexAddress + rec)) == NO_SLOT {
          LiveIs(index, rec);
          return rec;
        }
        assert index[..rec + 1] == index[..rec] + [index[rec]];
      }
      LiveIs(index, p.maxNumRecords);
      return p.maxNumRecords;
    }

    /** loadTableCatalog: nothing is loaded when the stored table count differs. */
    method LoadTableCatalog()
      requires forall t :: 0 <= t < |catalog| ==> catalog[t] == ZERO_ROW
      modifies this
      ensures |catalog| == old(|catalog|)
      ensures forall t :: 0 <= t < |catalog| ==>
                catalog[t] == if Read8(ee[..], 0) == |catalog| then LoadedRow(ee[..], t) else ZERO_ROW
    {
      hide Live, StoredIndex, StoredPlace, Read8;
      if Read8(ee[..], 0) != |catalog| {
        return;
      }
      for t := 0 to |catalog|
        invariant |catalog| == old(|catalog|)
        invariant forall u :: 0 <= u < |catalog| ==> catalog[u] == if u < t then LoadedRow(ee[..], u) else ZERO_ROW
      {
        var place := StoredPlace(ee[..], t);
        var numRecords := GetNumRecordsFromIndex(place);
        catalog := catalog[t := Row(place, numRecords, [])];
      }
    }

    /** isTableCatalogValid */
    method IsTableCatalogValid() returns (valid: bool)
      requires 0 < |catalog| <= 250
      requires Read8(ee[..], 0) == |catalog| ==> Places(catalog) == StoredPlaces(ee[..], |catalog|)
      ensures valid <==> CatalogPasses(ee[..], |catalog|)
    {
      hide Read8, AreaSize, StoredPlace, ToUint16, IsSeparatorByte;
      ghost var mem, places := ee[..], StoredPlaces(ee[..], |catalog|);
      if Read8(ee[..], 0) != |catalog| {
        return false;
      }
      var address: uint16 := ToUint16(ADDR_TABLE_CATALOG + |catalog| * TABLE_CATALOG_ROW_SIZE + 1);
      assert address == ToUint16(FirstIndexAddress(|catalog|));
      for t := 0 to |catalog|
        invariant CatalogPasses(mem, |catalog|) <==> CheckFrom(mem, places, t, address)
      {
        var p := catalog[t].place;
        assert p == places[t];
        if p.indexAddress != address {
          return false;
        }
        if !IsSeparatorByte(ee[..], address - 1) {
          return false;
        }
        address := ToUint16(address + p.maxNumRecords + 1);
        if p.dataAddress != address {
          return false;
        }
        if !IsSeparatorByte(ee[..], address - 1) {
          return false;
        }
        address := ToUint16(address + AreaSize(p) + 1);
      }
      return IsSeparatorByte(ee[..], address - 1);
    }

    /** generateRecordInUseBitmap for one table, on a freshly allocated bitmap. A stored slot may lie
        behind it: pastEnd tells that the code marks a bit there. */
    method GenerateBitmap(row: Row) returns (inUse: seq<bv8>, pastEnd: bool)
      requires row.numRecords == |Live(StoredIndex(ee[..], row.place))|
      ensures |inUse| == NumBytes(row.place.maxNumRecords)
      ensures pastEnd <==> !Below(Live(StoredIndex(ee[..], row.place)), 8 * |inUse|)
      ensures !pastEnd ==> MarkedSet(inUse, 8 * |inUse|) == SlotSet(Live(StoredIndex(ee[..], row.place)))
    {
      ghost var live := Live(StoredIndex(ee[..], row.place));
      inUse, pastEnd := Cleared(row.place.maxNumRecords), false;
      assert MarkedSet(inUse, 8 * |inUse|) == SlotSet(live[..0]);
      for rec := 0 to row.numRecords
        invariant |inUse| == NumBytes(row.place.maxNumRecords)
        invariant pastEnd <==> !Below(live[..rec], 8 * |inUse|)
        invariant !pastEnd ==> MarkedSet(inUse, 8 * |inUse|) == SlotSet(live[..rec])
      {
        var offset := Read8(ee[..], ToUint16(row.place.indexAddress + rec)); // getRecordIndex
        assert offset == live[rec];
        OneMoreBelow(live, rec, 8 * |inUse|);
        if offset >= 8 * |inUse| {
          pastEnd := true;
        } else {
          if !pastEnd {
            MarkSlot(inUse, 8 * |inUse|, live, rec);
          }
          inUse := Mark(inUse, offset);
        }
      }
      assert live[..row.numRecords] == live;
    }

    /** rs_tryToOpenRecordStore. When no valid store is found the device is erased. pastEnd tells that
        a stored index names a slot for which the bitmap has no bit. */
    method TryToOpenRecordStore(numTables: nat) returns (found: bool, pastEnd: bool)
      requires 0 < numTables <= 250
      modifies this, ee
      ensures found <==> CatalogPasses(old(ee[..]), numTables)
      ensures |catalog| == numTables
      ensures found ==> ee[..] == old(ee[..]) && forall t :: 0 <= t < numTables ==> IsOpened(ee[..], t, catalog[t])
      ensures pastEnd <==> found && exists t: nat :: t < numTables && !SlotsHaveBits(ee[..], t)
      ensures !found ==> AllFree(ee[..])
      ensures !found && old(Read8(ee[..], 0)) != numTables ==> forall t :: 0 <= t < numTables ==> catalog[t] == ZERO_ROW
    {
      hide Live, StoredIndex, StoredPlace, Read8, MarkedSet, SlotSet, CatalogPasses;
      catalog := seq(numTables, _ => ZERO_ROW);
      LoadTableCatalog();
      PassingMeansCount(ee[..], numTables);
      found := IsTableCatalogValid();
      pastEnd := false;
      if found {
        for t := 0 to numTables
          invariant ee[..] == old(ee[..]) && |catalog| == numTables
          invariant forall u :: 0 <= u < t ==> IsOpened(ee[..], u, catalog[u])
          invariant forall u :: t <= u < numTables ==> catalog[u] == LoadedRow(ee[..], u)
          invariant pastEnd <==> exists u: nat :: u < t && !SlotsHaveBits(ee[..], u)
        {
          var row := catalog[t];
          var inUse, isPastEnd := GenerateBitmap(row);
          GeneratedRow(ee[..], t, row, inUse, isPastEnd);
          pastEnd := pastEnd || isPastEnd;
          catalog := catalog[t := row.(inUse := inUse)];
        }
      } else {
        ghost var loaded := catalog;
        for a := 0 to ee.Length // eeClear
          invariant catalog == loaded
          invariant forall b :: 0 <= b < a ==> ee[b] == NO_SLOT
        {
          ee[a] := NO_SLOT;
        }
      }
    }

    /** Closing and opening again: RAM state is rebuilt from the bytes alone. A consistent store is
        found with the same records, and is valid even if its bitmaps had gone wrong before. */
    method Reopen() returns (found: bool)
      requires StoreAgrees(ee[..], catalog)
      modifies this, ee
      ensures found && Valid() && ee[..] == old(ee[..])
      ensures Places(catalog) == old(Places(catalog)) && Tables() == old(Tables())
    {
      hide StoreAgrees, StoreIsValid, View, IsRebuilt, CatalogPasses, Places;
      ghost var was, before := ee[..], catalog;
      var numTables := |catalog|;
      ConsistentStorePasses(was, before);
      StoredSlotsInRange(was, before);
      catalog := []; // rs_closeRecordStore
      var pastEnd;
      found, pastEnd := TryToOpenRecordStore(numTables);
      OpenedIsRebuilt(was, numTables, catalog);
      RebuiltStoreIsValid(was, before, catalog);
    }

    /** Opening after a power cut in the middle of an insert into or a delete from table t, which
        left the device as it is now. */
    method OpenAfterCut(numTables: nat, ghost mem: Memory, ghost before: seq<Row>, ghost t: nat,
                        ghost base: seq<seq<uint8>>)
      returns (found: bool, ghost records: seq<seq<uint8>>)
      requires StoreAgrees(mem, before) && numTables == |before| && t < |before|
      requires CutIsSafe(ee[..], mem, before, t, base)
      modifies this, ee
      ensures found && ee[..] == old(ee[..]) && Places(catalog) == Places(before)
      ensures forall u :: 0 <= u < numTables ==> IsRebuilt(ee[..], u, catalog[u])
      ensures OneAdjacentCopy(records, base)
      ensures forall u :: 0 <= u < numTables ==> Lists(ee[..], catalog[u].place, View(mem, before)[t := records][u])
    {
      hide StoreAgrees, View, IsRebuilt, CatalogPasses, Places, Lists, OneAdjacentCopy, CutIsSafe, StoredPlaces,
        SlotsInRange;
      records := CutReopens(ee[..], mem, before, t, base);
      NumTablesFit(mem, before);
      ListedInRange(ee[..], Places(before), View(mem, before)[t := records]);
      var pastEnd;
      found, pastEnd := TryToOpenRecordStore(numTables);
      OpenedIsRebuilt(ee[..], numTables, catalog);
      RebuiltPlaces(ee[..], before, catalog);
    }

    // ---- creating ----

    /** rs_createTable, which calls createTable for the first row that is still zero. */
    method CreateTable(maxNumRecords: uint8, recordSize: uint8, ghost k: nat) returns (tableId: nat)
      requires 0 < maxNumRecords <= MAX_NUM_RECORDS && 0 < recordSize <= MAX_RECORD_SIZE
      requires k < |catalog| && PartlyLaidOut(catalog, k, ee.Length)
      requires NextIndexAddress(catalog, k) + maxNumRecords + 1 + recordSize * maxNumRecords < ee.Length
      modifies this
      ensures tableId == k && PartlyLaidOut(catalog, k + 1, ee.Length)
      ensures catalog[k].place.maxNumRecords == maxNumRecords && catalog[k].place.recordSize == recordSize
      ensures |catalog| == old(|catalog|) && forall t :: 0 <= t < |catalog| && t != k ==> catalog[t] == old(catalog[t])
    {
      hide EndAddress, PartlyLaidOut, AreaSize, PlaceIsValid, ToUint16, NextIndexAddress;
      FirstZeroRow(catalog, k, ee.Length);
      TableCreated(catalog, k, ee.Length, maxNumRecords, recordSize);
      tableId := 0;
      while catalog[tableId].place.maxNumRecords != 0
        invariant tableId <= k
        decreases k - tableId
      {
        tableId := tableId + 1;
      }
      var recordIndexAddress: uint16;
      if tableId > 0 {
        var previous := catalog[tableId - 1].place;
        recordIndexAddress := ToUint16(previous.dataAddress + AreaSize(previous) + 1);
      } else {
        recordIndexAddress := ToUint16(|catalog| * TABLE_CATALOG_ROW_SIZE + 2);
      }
      var recordDataAddress: uint16 := ToUint16(recordIndexAddress + maxNumRecords + 1);
      catalog := catalog[tableId := Row(Place(recordIndexAddress, recordDataAddress, recordSize, maxNumRecords), 0, [])];
    }

    /** rs_commitTables on an erased device. */
    method CommitTables()
      requires PartlyLaidOut(catalog, |catalog|, ee.Length) && AllFree(ee[..])
      modifies this, ee
      ensures Valid() && Places(catalog) == old(Places(catalog))
      ensures forall t :: 0 <= t < |catalog| ==> Tables()[t] == []
    {
      hide StoreIsValid, View, EndAddress, AllFree, WithRow, Read8, AreaSize, StoredPlace, IsSeparated,
        PlaceIsValid, CatalogIsStored;
      ghost var was, before := ee[..], catalog;
      LaidOut(catalog, ee.Length);
      // storeTableCatalog
      WriteByte(0, |catalog|);
      ghost var places := Places(catalog);
      NothingStored(was, ee[..], places);
      for t := 0 to |catalog|
        invariant catalog == before && StoredUpTo(was, ee[..], places, t)
      {
        StoreOneRow(was, ee[..], places, t);
        StoreRow(catalog[t].place, t);
      }
      var last := catalog[|catalog| - 1].place;
      RowFits(places, ee.Length, |catalog| - 1);
      AddressOfEnd(last);
      var closing := last.dataAddress + AreaSize(last);
      CloseCatalog(was, ee[..], places);
      WriteByte(closing, 0);
      ghost var stored := ee[..];
      // allocateRecordInUseBitmap
      for t := 0 to |catalog|
        invariant |catalog| == |before|
        invariant forall u :: 0 <= u < |catalog| ==>
                    catalog[u] == if u < t then before[u].(inUse := Cleared(before[u].place.maxNumRecords)) else before[u]
        invariant ee[..] == stored
      {
        catalog := catalog[t := catalog[t].(inUse := Cleared(catalog[t].place.maxNumRecords))];
      }
      CommittedStoreIsValid(was, ee[..], before, catalog);
    }

    /** The byte writes of storeTableCatalog for one table. */
    method StoreRow(p: Place, t: nat)
      requires RowAddress(t) + 6 <= ee.Length && 0 < p.indexAddress <= ee.Length && 0 < p.dataAddress <= ee.Length
      modifies ee
      ensures ee[..] == WithRow(old(ee[..]), p, t)
    {
      var address := RowAddress(t);
      WriteByte(address, p.indexAddress % 0x100);
      WriteByte(address + 1, p.indexAddress / 0x100);
      WriteByte(address + 2, p.dataAddress % 0x100);
      WriteByte(address + 3, p.dataAddress / 0x100);
      WriteByte(address + 4, p.recordSize);
      WriteByte(address + 5, p.maxNumRecords);
      WriteByte(p.indexAddress - 1, 0);
      WriteByte(p.dataAddress - 1, 0);
    }

    /** rs_deleteTableCatalog: the next open does not find the store. */
    method DeleteTableCatalog()
      requires ee.Length > 0
      modifies ee
      ensures ee[..] == old(ee[..])[0 := 0]
      ensures forall n: nat :: n > 0 ==> !CatalogPasses(ee[..], n)
    {
      WriteByte(0, 0);
    }
  }
}
