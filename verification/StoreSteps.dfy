/** What the byte writes of the record store do to the record lists: each operation on one
    table, seen on memory images. */
module StoreSteps {
  import opened MachineInts
  import opened BitUtils
  import opened Bitmap
  import opened SlotIndex
  import opened StoreLayout

  lemma RowBelowFirstIndex(numTables: nat, t: nat)
    requires t < numTables
    ensures RowAddress(t) + 6 <= FirstIndexAddress(numTables) - 1
  {
  }

  /** No table writes a byte that opening the store checks. */
  lemma CatalogUnaffected(mem: Memory, mem': Memory, places: seq<Place>, t: nat)
    requires Layout(places, |mem|) && t < |places| && CatalogIsStored(mem, places)
    requires SameOutside(mem, mem', places[t])
    ensures CatalogIsStored(mem', places)
  {
    hide EndAddress, PlaceIsValid, FirstIndexAddress, RowAddress, Read16;
    forall a | InCatalog(places, a)
      ensures Read8(mem', a) == Read8(mem, a)
    {
      if InTable(places[t], a) {
        RegionsAreDisjoint(places, |mem|, t, a);
        assert false;
      }
    }
    assert InCatalog(places, 0) by { FirstIndexIsPositive(|places|); }
    forall u | 0 <= u < |places|
      ensures StoredPlace(mem', u) == places[u] && IsSeparated(mem', places[u])
    {
      RowUnaffected(mem, mem', places, u);
      assert InCatalog(places, places[u].indexAddress - 1) && InCatalog(places, places[u].dataAddress - 1);
    }
    assert InCatalog(places, EndAddress(places[|places| - 1]));
  }

  lemma FirstIndexIsPositive(n: nat)
    ensures FirstIndexAddress(n) > 0
  {
  }

  lemma RowUnaffected(mem: Memory, mem': Memory, places: seq<Place>, u: nat)
    requires u < |places|
    requires forall a :: 0 <= a < FirstIndexAddress(|places|) ==> Read8(mem', a) == Read8(mem, a)
    ensures StoredPlace(mem', u) == StoredPlace(mem, u)
  {
    RowBelowFirstIndex(|places|, u);
  }

  /** Tables do not touch each other's bytes. */
  lemma OtherTableUnaffected(mem: Memory, mem': Memory, places: seq<Place>, t: nat, row: Row, u: nat)
    requires Layout(places, |mem|) && t < |places| && u < |places| && u != t && row.place == places[u]
    requires SameOutside(mem, mem', places[t])
    requires IndexAgrees(mem, row)
    ensures IndexAgrees(mem', row) && Records(mem', row) == Records(mem, row)
    ensures BitmapAgrees(mem, row) ==> BitmapAgrees(mem', row)
  {
    hide EndAddress, PlaceIsValid, Compact, SlotBytes;
    forall a | InTable(places[u], a)
      ensures 0 <= a < |mem| && mem'[a] == mem[a]
    {
      RegionsAreDisjoint(places, |mem|, u, a);
    }
    assert forall a :: InIndex(row.place, a) ==> InTable(places[u], a);
    SameIndex(mem, mem', row.place);
    assert forall a :: InData(row.place, a) ==> InTable(places[u], a);
    SameData(mem, mem', row.place);
  }

  lemma SameIndex(mem: Memory, mem': Memory, p: Place)
    requires TableFitsMemory(mem, p) && |mem'| == |mem|
    requires forall a :: InIndex(p, a) ==> 0 <= a < |mem| && mem'[a] == mem[a]
    ensures IndexOf(mem', p) == IndexOf(mem, p)
  {
    assert forall a :: p.indexAddress <= a < p.indexAddress + p.maxNumRecords ==> InIndex(p, a);
  }

  lemma SameData(mem: Memory, mem': Memory, p: Place)
    requires TableFitsMemory(mem, p) && |mem'| == |mem|
    requires forall a :: InData(p, a) ==> 0 <= a < |mem| && mem'[a] == mem[a]
    ensures forall slot: nat :: slot < p.maxNumRecords ==> SlotBytes(mem', p, slot) == SlotBytes(mem, p, slot)
  {
    forall slot: nat | slot < p.maxNumRecords
      ensures SlotBytes(mem', p, slot) == SlotBytes(mem, p, slot)
    {
      SlotFits(p, slot);
      var from := SlotAddress(p, slot);
      assert forall i :: from <= i < from + p.recordSize ==> InData(p, i);
    }
  }

  /** Writes confined to the index leave every slot as it was. */
  lemma IndexWritesKeepData(mem: Memory, mem': Memory, p: Place)
    requires TableFitsMemory(mem, p) && SameOutsideIndex(mem, mem', p)
    ensures SameOutside(mem, mem', p)
    ensures forall slot: nat :: slot < p.maxNumRecords ==> SlotBytes(mem', p, slot) == SlotBytes(mem, p, slot)
  {
    IndexBeforeEnd(p);
    SameData(mem, mem', p);
  }

  /** The record lists of all tables. */
  function View(mem: Memory, catalog: seq<Row>): (v: seq<seq<seq<uint8>>>)
    requires StoreAgrees(mem, catalog)
    ensures |v| == |catalog|
  {
    seq(|catalog|, t requires 0 <= t < |catalog| => Records(mem, catalog[t]))
  }

  /** One table changes; the store stays consistent and the other tables keep their records. */
  lemma TableStep(mem: Memory, mem': Memory, catalog: seq<Row>, t: nat, row: Row)
    requires StoreAgrees(mem, catalog) && t < |catalog|
    requires SameOutside(mem, mem', catalog[t].place)
    requires row.place == catalog[t].place && IndexAgrees(mem', row)
    ensures StoreAgrees(mem', catalog[t := row])
    ensures View(mem', catalog[t := row]) == View(mem, catalog)[t := Records(mem', row)]
    ensures StoreIsValid(mem, catalog) && BitmapAgrees(mem', row) ==> StoreIsValid(mem', catalog[t := row])
  {
    hide Layout, CatalogIsStored, IndexAgrees, BitmapAgrees, Records, SameOutside;
    var places := Places(catalog);
    assert Places(catalog[t := row]) == places;
    assert |mem'| == |mem| by { SameLength(mem, mem', row.place); }
    CatalogUnaffected(mem, mem', places, t);
    forall u | 0 <= u < |catalog| && u != t
      ensures IndexAgrees(mem', catalog[u]) && Records(mem', catalog[u]) == Records(mem, catalog[u])
      ensures BitmapAgrees(mem, catalog[u]) ==> BitmapAgrees(mem', catalog[u])
    {
      OtherTableUnaffected(mem, mem', places, t, catalog[u], u);
    }
  }

  lemma SameLength(mem: Memory, mem': Memory, p: Place)
    requires SameOutside(mem, mem', p)
    ensures |mem'| == |mem|
  {
  }

  // ---- the operations on one table ----

  lemma InsertRefines(mem: Memory, mem': Memory, row: Row, row': Row, at: nat, slot: uint8)
    requires RowIsValid(mem, row) && at <= row.numRecords < row.place.maxNumRecords
    requires slot < row.place.maxNumRecords && !IsMarked(row.inUse, slot)
    requires SameOutsideIndex(mem, mem', row.place)
    requires IndexOf(mem', row.place) == Inserted(IndexOf(mem, row.place), row.numRecords, at, slot)
    requires row' == row.(numRecords := row.numRecords + 1, inUse := Mark(row.inUse, slot))
    ensures RowIsValid(mem', row')
    ensures Records(mem', row') == With(Records(mem, row), at, SlotBytes(mem, row.place, slot))
  {
    var p, index, n := row.place, IndexOf(mem, row.place), row.numRecords;
    var slots := index[..n];
    assert slot !in SlotSet(slots) by {
      assert slot in MarkedSet(row.inUse, p.maxNumRecords) <==> IsMarked(row.inUse, slot);
    }
    InsertedIsCompact(index, n, at, slot);
    IndexWritesKeepData(mem, mem', p);
    SlotSetWith(slots, at, slot);
    forall i: nat | i < p.maxNumRecords
      ensures i in MarkedSet(row'.inUse, p.maxNumRecords) <==> i in SlotSet(With(slots, at, slot))
    {
      MarkedAfter(row.inUse, slot, i);
    }
    MarkedSetBelow(row', With(slots, at, slot));
    RecordsWith(mem, p, slots, at, slot);
    SameRecordsAt(mem, mem', p, With(slots, at, slot));
    hide SlotBytes, Compact, RecordsAt, With;
  }

  lemma RecordsWith(mem: Memory, p: Place, slots: seq<uint8>, at: nat, slot: uint8)
    requires TableFitsMemory(mem, p) && Below(slots, p.maxNumRecords) && at <= |slots| && slot < p.maxNumRecords
    ensures Below(With(slots, at, slot), p.maxNumRecords)
    ensures RecordsAt(mem, p, With(slots, at, slot)) == With(RecordsAt(mem, p, slots), at, SlotBytes(mem, p, slot))
  {
    hide SlotBytes, PlaceIsValid, EndAddress;
  }

  lemma SlotSetWith(slots: seq<uint8>, at: nat, slot: uint8)
    requires at <= |slots|
    ensures SlotSet(With(slots, at, slot)) == SlotSet(slots) + {slot}
  {
    var w := With(slots, at, slot);
    forall x | x in SlotSet(slots)
      ensures x in SlotSet(w)
    {
      var i :| 0 <= i < |slots| && slots[i] == x;
      assert w[if i < at then i else i + 1] == x;
    }
    assert w[at] == slot;
    forall i | 0 <= i < |w| && i != at
      ensures w[i] in SlotSet(slots)
    {
      assert w[i] == slots[if i < at then i else i - 1];
    }
  }

  /** Sets of slots are compared below maxNumRecords only. */
  lemma MarkedSetBelow(row: Row, slots: seq<uint8>)
    requires |row.inUse| == NumBytes(row.place.maxNumRecords) && Below(slots, row.place.maxNumRecords)
    requires forall i: nat :: i < row.place.maxNumRecords ==>
               (i in MarkedSet(row.inUse, row.place.maxNumRecords) <==> i in SlotSet(slots))
    ensures MarkedSet(row.inUse, row.place.maxNumRecords) == SlotSet(slots)
  {
  }

  /** Deleting removes the record from the list. The bitmap stays right exactly when the bit
      that is freed is the bit of the record's slot. */
  lemma DeleteRefines(mem: Memory, mem': Memory, row: Row, row': Row, id: nat, freed: nat)
    requires IndexAgrees(mem, row) && id < row.numRecords && freed < row.place.maxNumRecords
    requires |row.inUse| == NumBytes(row.place.maxNumRecords)
    requires SameOutsideIndex(mem, mem', row.place)
    requires IndexOf(mem', row.place) == Removed(IndexOf(mem, row.place), row.numRecords, id)
    requires row' == row.(numRecords := row.numRecords - 1, inUse := Unmark(row.inUse, freed))
    ensures IndexAgrees(mem', row')
    ensures Records(mem', row') == Without(Records(mem, row), id)
    ensures BitmapAgrees(mem, row) ==> (BitmapAgrees(mem', row') <==> freed == Slots(mem, row)[id])
  {
    var p, n := row.place, row.numRecords;
    var slots := Slots(mem, row);
    RemovedIsCompact(IndexOf(mem, p), n, id);
    IndexWritesKeepData(mem, mem', p);
    UnmarkedSet(row.inUse, p.maxNumRecords, freed);
    hide SlotBytes, Compact, MarkedSet;
    assert Slots(mem', row') == Without(slots, id);
    assert Records(mem', row') == Without(Records(mem, row), id);
    assert slots[id] in SlotSet(slots);
  }

  lemma UnmarkedSet(inUse: seq<bv8>, m: nat, freed: nat)
    requires freed < m <= 8 * |inUse|
    ensures MarkedSet(Unmark(inUse, freed), m) == MarkedSet(inUse, m) - {freed}
  {
    forall i: nat | i < m
      ensures i in MarkedSet(Unmark(inUse, freed), m) <==> i in MarkedSet(inUse, m) - {freed}
    {
      MarkedAfter(inUse, freed, i);
    }
  }

  lemma DeleteAllRefines(mem': Memory, row': Row)
    requires TableFitsMemory(mem', row'.place) && row'.numRecords == 0
    requires AllFree(IndexOf(mem', row'.place))
    requires |row'.inUse| == NumBytes(row'.place.maxNumRecords)
    requires MarkedSet(row'.inUse, row'.place.maxNumRecords) == {}
    ensures RowIsValid(mem', row') && Records(mem', row') == []
  {
    assert IndexOf(mem', row'.place)[0..] == IndexOf(mem', row'.place);
    assert SlotSet(Slots(mem', row')) == {};
  }

  /** The bytes of one slot have been overwritten. */
  ghost predicate SlotWritten(mem: Memory, mem': Memory, p: Place, slot: nat, raw: seq<uint8>)
    requires TableFitsMemory(mem, p) && slot < p.maxNumRecords
  {
    && |mem'| == |mem| && |raw| == p.recordSize
    && forall a :: 0 <= a < |mem| ==>
         mem'[a] == if SlotAddress(p, slot) <= a < SlotAddress(p, slot) + p.recordSize
                    then raw[a - SlotAddress(p, slot)] else mem[a]
  }

  /** A written record reads back as written, and no other slot changes. */
  lemma SetRefines(mem: Memory, mem': Memory, row: Row, id: nat, raw: seq<uint8>)
    requires IndexAgrees(mem, row) && id < row.numRecords
    requires SlotWritten(mem, mem', row.place, Slots(mem, row)[id], raw)
    ensures SameOutside(mem, mem', row.place)
    ensures IndexAgrees(mem', row) && Records(mem', row) == Records(mem, row)[id := raw]
    ensures BitmapAgrees(mem, row) ==> BitmapAgrees(mem', row)
  {
    var p, slots := row.place, Slots(mem, row);
    IndexBeforeEnd(p);
    SlotFits(p, slots[id]);
    SameIndex(mem, mem', p);
    forall i | 0 <= i < |slots|
      ensures SlotBytes(mem', p, slots[i]) == if i == id then raw else SlotBytes(mem, p, slots[i])
    {
      SlotsAreDisjoint(p, slots[i], slots[id]);
      assert i < id ==> slots[i] != slots[id];
      assert id < i ==> slots[id] != slots[i];
    }
    hide SlotBytes, Compact;
    assert Records(mem', row) == Records(mem, row)[id := raw];
  }

  lemma SlotsAreDisjoint(p: Place, i: nat, j: nat)
    requires i < p.maxNumRecords && j < p.maxNumRecords
    ensures i < j ==> SlotAddress(p, i) + p.recordSize <= SlotAddress(p, j)
    ensures j < i ==> SlotAddress(p, j) + p.recordSize <= SlotAddress(p, i)
    ensures SlotAddress(p, i) + p.recordSize <= EndAddress(p)
  {
    SlotFits(p, i);
    if i < j {
      SlotStep(i, j, p.recordSize);
    } else if j < i {
      SlotStep(j, i, p.recordSize);
    }
  }

  // ---- power cuts ----

  /** What a store opened on this memory would list: `base`, with at most one record twice in a row. */
  ghost predicate ReopensAs(mem: Memory, p: Place, base: seq<seq<uint8>>) {
    && TableFitsMemory(mem, p)
    && Below(Live(IndexOf(mem, p)), p.maxNumRecords)
    && OneAdjacentCopy(RecordsAt(mem, p, Live(IndexOf(mem, p))), base)
  }

  lemma ReopensAsSlots(mem: Memory, mem': Memory, p: Place, slots: seq<uint8>)
    requires TableFitsMemory(mem, p) && SameOutsideIndex(mem, mem', p)
    requires Below(slots, p.maxNumRecords) && OneAdjacentCopy(Live(IndexOf(mem', p)), slots)
    ensures ReopensAs(mem', p, RecordsAt(mem, p, slots))
  {
    IndexWritesKeepData(mem, mem', p);
    var live := Live(IndexOf(mem', p));
    hide SlotBytes, RecordsAt, IndexOf, Live, PlaceIsValid, EndAddress, SameOutsideIndex;
    SameRecordsAt(mem, mem', p, slots);
    if live != slots {
      var j :| 0 <= j < |slots| && live == slots[..j + 1] + slots[j..];
      RecordsOfCopy(mem', p, slots, j);
    }
  }

  lemma SameRecordsAt(mem: Memory, mem': Memory, p: Place, slots: seq<uint8>)
    requires TableFitsMemory(mem, p) && |mem'| == |mem| && Below(slots, p.maxNumRecords)
    requires forall slot: nat :: slot < p.maxNumRecords ==> SlotBytes(mem', p, slot) == SlotBytes(mem, p, slot)
    ensures RecordsAt(mem', p, slots) == RecordsAt(mem, p, slots)
  {
    hide SlotBytes;
  }

  lemma RecordsOfCopy(mem: Memory, p: Place, slots: seq<uint8>, j: nat)
    requires TableFitsMemory(mem, p) && Below(slots, p.maxNumRecords) && j < |slots|
    ensures Below(slots[..j + 1] + slots[j..], p.maxNumRecords)
    ensures |RecordsAt(mem, p, slots)| == |slots|
    ensures RecordsAt(mem, p, slots[..j + 1] + slots[j..])
         == RecordsAt(mem, p, slots)[..j + 1] + RecordsAt(mem, p, slots)[j..]
  {
    hide SlotBytes, PlaceIsValid, EndAddress;
  }

  /** While room is made, every record stays listed in order. */
  lemma MakeRoomSurvivesCut(mem: Memory, cut: Memory, row: Row, k: nat)
    requires IndexAgrees(mem, row) && k <= row.numRecords < row.place.maxNumRecords
    requires SameOutsideIndex(mem, cut, row.place)
    requires IndexOf(cut, row.place) == MakeRoomCut(IndexOf(mem, row.place), row.numRecords, k)
    ensures ReopensAs(cut, row.place, Records(mem, row))
  {
    MakeRoomCutIsSafe(IndexOf(mem, row.place), row.numRecords, k);
    ReopensAsSlots(mem, cut, row.place, Slots(mem, row));
  }

  /** While a gap is closed, every other record stays listed in order. */
  lemma CloseGapSurvivesCut(mem: Memory, cut: Memory, row: Row, id: nat, k: nat)
    requires IndexAgrees(mem, row) && id < row.numRecords && 0 < k <= row.numRecords - id
    requires SameOutsideIndex(mem, cut, row.place)
    requires IndexOf(cut, row.place) == CloseGapCut(IndexOf(mem, row.place), row.numRecords, id, k)
    ensures ReopensAs(cut, row.place, Without(Records(mem, row), id))
  {
    hide SlotBytes, CloseGapCut, OneAdjacentCopy, Compact;
    var slots := Slots(mem, row);
    CloseGapCutIsSafe(IndexOf(mem, row.place), row.numRecords, id, k);
    ReopensAsSlots(mem, cut, row.place, Without(slots, id));
    assert RecordsAt(mem, row.place, Without(slots, id)) == Without(Records(mem, row), id);
  }
}
