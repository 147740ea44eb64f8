/** Creating, committing and reopening a record store: what the catalog check of
    src/RecordStore.c accepts, and what a reopened store finds. */
module StoreOpening {
  import opened MachineInts
  import opened BitUtils
  import opened Limits
  import opened Bitmap
  import opened SlotIndex
  import opened StoreLayout
  import opened StoreSteps

  const NO_PLACE := Place(0, 0, 0, 0)
  const ZERO_ROW := Row(NO_PLACE, 0, [])

  // ---- the catalog check ----

  function StoredPlaces(mem: Memory, n: nat): (p: seq<Place>)
    ensures |p| == n
    ensures forall t :: 0 <= t < n ==> p[t] == StoredPlace(mem, t)
  {
    seq(n, t requires 0 <= t < n => StoredPlace(mem, t))
  }

  predicate IsSeparatorByte(mem: Memory, a: int) {
    Read8(mem, ToUint16(a)) == 0
  }

  /** The checks on one table at the running address: both start addresses and both separators. */
  predicate TableChecks(mem: Memory, p: Place, address: uint16) {
    && p.indexAddress == address && IsSeparatorByte(mem, address - 1)
    && p.dataAddress == ToUint16(address + p.maxNumRecords + 1) && IsSeparatorByte(mem, p.dataAddress - 1)
  }

  /** isTableCatalogValid from table t on, with its 16-bit running address. */
  predicate CheckFrom(mem: Memory, places: seq<Place>, t: nat, address: uint16)
    requires t <= |places|
    decreases |places| - t
  {
    if t == |places| then IsSeparatorByte(mem, address - 1)
    else
      && TableChecks(mem, places[t], address)
      && CheckFrom(mem, places, t + 1, ToUint16(places[t].dataAddress + AreaSize(places[t]) + 1))
  }

  predicate CatalogPasses(mem: Memory, n: nat) {
    Read8(mem, 0) == n && CheckFrom(mem, StoredPlaces(mem, n), 0, ToUint16(FirstIndexAddress(n)))
  }

  /** The stored sizes are sane and the tables they describe fit the device. */
  ghost predicate SizesFitDevice(places: seq<Place>, deviceSize: nat) {
    && 0 < |places| <= 250 && deviceSize <= 0x1_0000
    && (forall t :: 0 <= t < |places| ==>
          0 < places[t].maxNumRecords <= MAX_NUM_RECORDS && 0 < places[t].recordSize <= MAX_RECORD_SIZE)
    && FirstIndexAddress(|places|) + BytesOfTables(places, |places|) <= deviceSize
  }

  lemma {:induction false} BytesMonotone(places: seq<Place>, j: nat, k: nat)
    requires j <= k <= |places|
    ensures BytesOfTables(places, j) <= BytesOfTables(places, k)
    decreases k
  {
    hide AreaSize;
    if j < k {
      BytesMonotone(places, j, k - 1);
    }
  }

  /** Table t lies where the documented formula puts it, between separators. */
  ghost predicate TableInPlace(mem: Memory, places: seq<Place>, t: nat)
    requires t < |places|
  {
    && places[t].indexAddress == FirstIndexAddress(|places|) + BytesOfTables(places, t)
    && places[t].dataAddress == places[t].indexAddress + places[t].maxNumRecords + 1
    && IsSeparated(mem, places[t])
  }

  ghost predicate InPlaceFrom(mem: Memory, places: seq<Place>, t: nat)
    requires t <= |places|
  {
    forall u :: t <= u < |places| ==> TableInPlace(mem, places, u)
  }

  lemma InPlaceFromNext(mem: Memory, places: seq<Place>, t: nat)
    requires t < |places|
    ensures InPlaceFrom(mem, places, t) <==> TableInPlace(mem, places, t) && InPlaceFrom(mem, places, t + 1)
  {
    hide TableInPlace;
  }

  lemma {:induction false} CheckMeansInPlace(mem: Memory, places: seq<Place>, t: nat)
    requires SizesFitDevice(places, |mem|) && t <= |places|
    ensures CheckFrom(mem, places, t, ToUint16(FirstIndexAddress(|places|) + BytesOfTables(places, t)))
        <==> && InPlaceFrom(mem, places, t)
             && Read8(mem, FirstIndexAddress(|places|) + BytesOfTables(places, |places|) - 1) == 0
    decreases |places| - t
  {
    if t < |places| {
      CheckMeansInPlace(mem, places, t + 1);
      CheckOneTable(mem, places, t);
      InPlaceFromNext(mem, places, t);
      hide BytesOfTables, TableInPlace, TableChecks, ToUint16, AreaSize, SizesFitDevice, InPlaceFrom, Read8;
    } else {
      SeparatorRead(mem, FirstIndexAddress(|places|) + BytesOfTables(places, |places|));
    }
  }

  /** The running address wraps only behind the very last byte of a full 64 KiB device. */
  lemma SeparatorRead(mem: Memory, address: nat)
    requires 0 < address <= |mem| <= 0x1_0000
    ensures IsSeparatorByte(mem, ToUint16(address) - 1) <==> Read8(mem, address - 1) == 0
  {
  }

  lemma CheckOneTable(mem: Memory, places: seq<Place>, t: nat)
    requires SizesFitDevice(places, |mem|) && t < |places|
    ensures var here := FirstIndexAddress(|places|) + BytesOfTables(places, t);
            TableChecks(mem, places[t], ToUint16(here)) <==> TableInPlace(mem, places, t)
    ensures TableInPlace(mem, places, t) ==>
              places[t].dataAddress + AreaSize(places[t]) + 1 == FirstIndexAddress(|places|) + BytesOfTables(places, t + 1)
  {
    BytesMonotone(places, t + 1, |places|);
    var here := FirstIndexAddress(|places|) + BytesOfTables(places, t);
    var data := here + places[t].maxNumRecords + 1;
    assert FirstIndexAddress(|places|) + BytesOfTables(places, t + 1) == data + AreaSize(places[t]) + 1;
    SeparatorRead(mem, here);
    SeparatorRead(mem, data);
    NoWrap(here);
    NoWrap(data);
    hide AreaSize, BytesOfTables, IsSeparatorByte, Read8, ToUint16;
    IsSeparatedMeans(mem, places[t]);
  }

  lemma NoWrap(x: nat)
    requires x < 0x1_0000
    ensures ToUint16(x) == x
  {
  }

  lemma IsSeparatedMeans(mem: Memory, p: Place)
    ensures IsSeparated(mem, p) <==> Read8(mem, p.indexAddress - 1) == 0 && Read8(mem, p.dataAddress - 1) == 0
  {
  }

  /** The check accepts exactly the layouts of the documented format. */
  lemma CheckAcceptsLayouts(mem: Memory, n: nat)
    requires SizesFitDevice(StoredPlaces(mem, n), |mem|)
    ensures CatalogPasses(mem, n)
       <==> Read8(mem, 0) == n && Layout(StoredPlaces(mem, n), |mem|) && CatalogIsStored(mem, StoredPlaces(mem, n))
  {
    hide CheckFrom, TableInPlace, Layout, EndAddress, BytesOfTables, StoredPlace, Read8, IsSeparated;
    var places := StoredPlaces(mem, n);
    CheckMeansInPlace(mem, places, 0);
    NoBytesBefore(places);
    if Layout(places, |mem|) {
      LayoutPutsTables(mem, places);
    }
    if InPlaceFrom(mem, places, 0) {
      InPlaceIsLayout(mem, places);
      LayoutPutsTables(mem, places);
    }
  }

  lemma NoBytesBefore(places: seq<Place>)
    ensures BytesOfTables(places, 0) == 0
  {
  }

  lemma LayoutPutsTables(mem: Memory, places: seq<Place>)
    requires Layout(places, |mem|)
    ensures forall t :: 0 <= t < |places| ==> (TableInPlace(mem, places, t) <==> IsSeparated(mem, places[t]))
    ensures EndAddress(places[|places| - 1]) == FirstIndexAddress(|places|) + BytesOfTables(places, |places|) - 1
  {
    hide EndAddress, BytesOfTables;
    forall t | 0 <= t < |places|
      ensures TableInPlace(mem, places, t) <==> IsSeparated(mem, places[t])
    {
      LayoutFormula(places, |mem|, t);
    }
    LayoutFormula(places, |mem|, |places| - 1);
  }

  lemma EndOfTable(mem: Memory, places: seq<Place>, t: nat)
    requires SizesFitDevice(places, |mem|) && t < |places| && TableInPlace(mem, places, t)
    ensures PlaceIsValid(places[t])
    ensures EndAddress(places[t]) + 1 == FirstIndexAddress(|places|) + BytesOfTables(places, t + 1)
  {
    assert BytesOfTables(places, t + 1)
        == BytesOfTables(places, t) + places[t].maxNumRecords + 1 + AreaSize(places[t]) + 1;
    hide AreaSize;
  }

  lemma InPlaceIsLayout(mem: Memory, places: seq<Place>)
    requires SizesFitDevice(places, |mem|) && InPlaceFrom(mem, places, 0)
    ensures Layout(places, |mem|)
  {
    var n := |places|;
    forall t | 0 <= t < n
      ensures PlaceIsValid(places[t])
      ensures EndAddress(places[t]) + 1 == FirstIndexAddress(n) + BytesOfTables(places, t + 1)
      ensures places[t].indexAddress == FirstIndexAddress(n) + BytesOfTables(places, t)
    {
      assert TableInPlace(mem, places, t);
      EndOfTable(mem, places, t);
    }
    assert BytesOfTables(places, 0) == 0;
    hide EndAddress, BytesOfTables, PlaceIsValid;
    assert EndAddress(places[n - 1]) + 1 == FirstIndexAddress(n) + BytesOfTables(places, (n - 1) + 1);
    forall t | 0 < t < n
      ensures places[t].indexAddress == EndAddress(places[t - 1]) + 1
    {
      assert EndAddress(places[t - 1]) + 1 == FirstIndexAddress(n) + BytesOfTables(places, (t - 1) + 1);
    }
  }

  // ---- what a reopened store finds ----

  /** The index bytes of a stored table, read through 16-bit addresses. */
  function StoredIndex(mem: Memory, p: Place): (index: seq<uint8>)
    ensures |index| == p.maxNumRecords
  {
    seq<uint8>(p.maxNumRecords, i requires 0 <= i < p.maxNumRecords => Read8(mem, ToUint16(p.indexAddress + i)))
  }

  /** A catalog row rebuilt from the bytes alone. */
  ghost predicate IsRebuilt(mem: Memory, t: nat, row: Row) {
    && row.place == StoredPlace(mem, t)
    && row.numRecords == |Live(StoredIndex(mem, row.place))|
    && |row.inUse| == NumBytes(row.place.maxNumRecords)
    && MarkedSet(row.inUse, row.place.maxNumRecords) == SlotSet(Live(StoredIndex(mem, row.place)))
  }

  /** A consistent store passes the check, whatever its bitmaps say. */
  lemma ConsistentStorePasses(mem: Memory, catalog: seq<Row>)
    requires StoreAgrees(mem, catalog)
    ensures CatalogPasses(mem, |catalog|) && StoredPlaces(mem, |catalog|) == Places(catalog)
  {
    var places := Places(catalog);
    assert StoredPlaces(mem, |catalog|) == places;
    LayoutFits(places, |mem|);
    CheckAcceptsLayouts(mem, |catalog|);
  }

  lemma LayoutFits(places: seq<Place>, deviceSize: nat)
    requires Layout(places, deviceSize)
    ensures SizesFitDevice(places, deviceSize)
  {
    LayoutFormula(places, deviceSize, |places| - 1);
  }

  /** Rebuilding from the bytes gives a valid store with the same records, even when the
      bitmaps in RAM had gone wrong. */
  lemma RebuiltStoreIsValid(mem: Memory, catalog: seq<Row>, catalog': seq<Row>)
    requires StoreAgrees(mem, catalog) && |catalog'| == |catalog|
    requires forall t :: 0 <= t < |catalog'| ==> IsRebuilt(mem, t, catalog'[t])
    ensures StoreIsValid(mem, catalog') && Places(catalog') == Places(catalog)
    ensures View(mem, catalog') == View(mem, catalog)
  {
    hide Layout, EndAddress, Compact, Live, MarkedSet, SlotSet, SlotBytes, PlaceIsValid, StoredPlace;
    assert Places(catalog') == Places(catalog);
    forall t | 0 <= t < |catalog|
      ensures RowIsValid(mem, catalog'[t]) && Records(mem, catalog'[t]) == Records(mem, catalog[t])
    {
      RebuiltRow(mem, catalog[t], catalog'[t], t);
    }
  }

  lemma RebuiltRow(mem: Memory, row: Row, row': Row, t: nat)
    requires IndexAgrees(mem, row) && IsRebuilt(mem, t, row') && row'.place == row.place
    ensures RowIsValid(mem, row') && Records(mem, row') == Records(mem, row)
    ensures row'.numRecords == row.numRecords
  {
    hide MarkedSet, SlotSet, SlotBytes;
    var p := row.place;
    StoredIndexFits(mem, p);
    LiveOfCompact(IndexOf(mem, p), row.numRecords);
  }

  lemma StoredIndexFits(mem: Memory, p: Place)
    requires TableFitsMemory(mem, p)
    ensures StoredIndex(mem, p) == IndexOf(mem, p)
  {
    IndexBeforeEnd(p);
    forall i | 0 <= i < p.maxNumRecords
      ensures StoredIndex(mem, p)[i] == IndexOf(mem, p)[i]
    {
      assert ToUint16(p.indexAddress + i) == p.indexAddress + i;
    }
  }

  // ---- creating tables ----

  /** The first k tables are laid out, the other rows are still zero. */
  ghost predicate PartlyLaidOut(catalog: seq<Row>, k: nat, deviceSize: nat) {
    && k <= |catalog| && 0 < |catalog| <= 250 && deviceSize <= 0x1_0000
    && (forall t :: 0 <= t < k ==> PlaceIsValid(catalog[t].place) && catalog[t].numRecords == 0 && catalog[t].inUse == [])
    && (k > 0 ==> catalog[0].place.indexAddress == FirstIndexAddress(|catalog|)
                  && EndAddress(catalog[k - 1].place) < deviceSize)
    && (forall t :: 0 < t < k ==> catalog[t].place.indexAddress == EndAddress(catalog[t - 1].place) + 1)
    && (forall t :: k <= t < |catalog| ==> catalog[t] == ZERO_ROW)
  }

  /** Where the next table's index goes. */
  function NextIndexAddress(catalog: seq<Row>, k: nat): nat
    requires k <= |catalog|
  {
    if k > 0 then EndAddress(catalog[k - 1].place) + 1 else FirstIndexAddress(|catalog|)
  }

  lemma LaidOut(catalog: seq<Row>, deviceSize: nat)
    requires PartlyLaidOut(catalog, |catalog|, deviceSize)
    ensures Layout(Places(catalog), deviceSize)
  {
  }

  // ---- storing the catalog ----

  /** Rows and separators of the first t tables are stored; table bytes are untouched. */
  ghost predicate StoredUpTo(was: Memory, mem: Memory, places: seq<Place>, t: nat)
    requires t <= |places|
  {
    && |mem| == |was|
    && Read8(mem, 0) == |places|
    && (forall u :: 0 <= u < t ==> StoredPlace(mem, u) == places[u] && IsSeparated(mem, places[u]))
    && forall u, a :: 0 <= u < |places| && InTable(places[u], a) ==> Read8(mem, a) == Read8(was, a)
  }

  function RowByte(p: Place, i: nat): uint8
    requires i < 6
  {
    match i
    case 0 => p.indexAddress % 0x100
    case 1 => p.indexAddress / 0x100
    case 2 => p.dataAddress % 0x100
    case 3 => p.dataAddress / 0x100
    case 4 => p.recordSize
    case _ => p.maxNumRecords
  }

  /** The writes for one table: its row and its two separators. */
  function WithRow(mem: Memory, p: Place, t: nat): (mem': Memory)
    requires RowAddress(t) + 6 <= |mem| && 0 < p.indexAddress <= |mem| && 0 < p.dataAddress <= |mem|
    ensures |mem'| == |mem|
  {
    mem[RowAddress(t) := RowByte(p, 0)][RowAddress(t) + 1 := RowByte(p, 1)]
       [RowAddress(t) + 2 := RowByte(p, 2)][RowAddress(t) + 3 := RowByte(p, 3)]
       [RowAddress(t) + 4 := RowByte(p, 4)][RowAddress(t) + 5 := RowByte(p, 5)]
       [p.indexAddress - 1 := 0][p.dataAddress - 1 := 0]
  }

  lemma WithRowReads(mem: Memory, p: Place, t: nat, a: nat)
    requires RowAddress(t) + 6 <= |mem| && RowAddress(t) + 6 < p.indexAddress <= |mem|
    requires p.indexAddress < p.dataAddress <= |mem|
    ensures Read8(WithRow(mem, p, t), a)
         == if a == p.indexAddress - 1 || a == p.dataAddress - 1 then 0
            else if RowAddress(t) <= a < RowAddress(t) + 6 then RowByte(p, a - RowAddress(t))
            else Read8(mem, a)
  {
    hide RowByte;
  }

  lemma SplitWord(w: uint16)
    ensures (w / 0x100) * 0x100 + w % 0x100 == w
  {
  }

  lemma WithRowStored(mem: Memory, p: Place, t: nat)
    requires RowAddress(t) + 6 <= |mem| && RowAddress(t) + 6 < p.indexAddress <= |mem|
    requires p.indexAddress < p.dataAddress <= |mem|
    ensures StoredPlace(WithRow(mem, p, t), t) == p && IsSeparated(WithRow(mem, p, t), p)
  {
    hide WithRow, Read8;
    forall i | 0 <= i < 6
      ensures Read8(WithRow(mem, p, t), RowAddress(t) + i) == RowByte(p, i)
    {
      WithRowReads(mem, p, t, RowAddress(t) + i);
    }
    WithRowReads(mem, p, t, p.indexAddress - 1);
    WithRowReads(mem, p, t, p.dataAddress - 1);
    SplitWord(p.indexAddress);
    SplitWord(p.dataAddress);
    hide RowAddress;
    assert Read8(WithRow(mem, p, t), RowAddress(t) + 0) == RowByte(p, 0);
    assert Read8(WithRow(mem, p, t), RowAddress(t) + 1) == RowByte(p, 1);
    assert Read8(WithRow(mem, p, t), RowAddress(t) + 2) == RowByte(p, 2);
    assert Read8(WithRow(mem, p, t), RowAddress(t) + 2 + 1) == RowByte(p, 3);
    assert Read8(WithRow(mem, p, t), RowAddress(t) + 4) == RowByte(p, 4);
    assert Read8(WithRow(mem, p, t), RowAddress(t) + 5) == RowByte(p, 5);
  }

  lemma RowFits(places: seq<Place>, deviceSize: nat, t: nat)
    requires Layout(places, deviceSize) && t < |places|
    ensures RowAddress(t) + 6 < places[t].indexAddress < places[t].dataAddress <= EndAddress(places[t]) < deviceSize
  {
    hide EndAddress;
    TableFits(places, deviceSize, t);
    IndexBeforeEnd(places[t]);
  }

  lemma StoreOneRow(was: Memory, mem: Memory, places: seq<Place>, t: nat)
    requires Layout(places, |was|) && t < |places| && StoredUpTo(was, mem, places, t)
    ensures RowAddress(t) + 6 < places[t].indexAddress < places[t].dataAddress <= |mem|
    ensures StoredUpTo(was, WithRow(mem, places[t], t), places, t + 1)
  {
    hide EndAddress, WithRow, Read8, StoredPlace, IsSeparated, PlaceIsValid;
    RowFits(places, |was|, t);
    var mem' := WithRow(mem, places[t], t);
    WithRowStored(mem, places[t], t);
    WithRowReads(mem, places[t], t, 0);
    forall u | 0 <= u < t
      ensures StoredPlace(mem', u) == places[u] && IsSeparated(mem', places[u])
    {
      EarlierRowStays(mem, places, |was|, t, u);
    }
    forall u, a | 0 <= u < |places| && InTable(places[u], a)
      ensures Read8(mem', a) == Read8(was, a)
    {
      TableByteStays(mem, places, |was|, t, u, a);
    }
  }

  lemma EarlierRowStays(mem: Memory, places: seq<Place>, deviceSize: nat, t: nat, u: nat)
    requires Layout(places, deviceSize) && |mem| == deviceSize && u < t < |places|
    requires StoredPlace(mem, u) == places[u] && IsSeparated(mem, places[u])
    requires RowAddress(t) + 6 < places[t].indexAddress < places[t].dataAddress <= |mem|
    ensures StoredPlace(WithRow(mem, places[t], t), u) == places[u]
    ensures IsSeparated(WithRow(mem, places[t], t), places[u])
  {
    hide EndAddress, WithRow, Read8, PlaceIsValid, RowByte;
    var p := places[t];
    TableFits(places, deviceSize, t);
    TableFits(places, deviceSize, u);
    IndexBeforeEnd(places[u]);
    RowBelowFirstIndex(|places|, t);
    forall a | RowAddress(u) <= a < RowAddress(u) + 6
      ensures Read8(WithRow(mem, p, t), a) == Read8(mem, a)
    {
      WithRowReads(mem, p, t, a);
    }
    WithRowReads(mem, p, t, places[u].indexAddress - 1);
    WithRowReads(mem, p, t, places[u].dataAddress - 1);
  }

  lemma TableByteStays(mem: Memory, places: seq<Place>, deviceSize: nat, t: nat, u: nat, a: int)
    requires Layout(places, deviceSize) && |mem| == deviceSize && u < |places| && t < |places|
    requires InTable(places[u], a)
    requires RowAddress(t) + 6 < places[t].indexAddress < places[t].dataAddress <= |mem|
    ensures Read8(WithRow(mem, places[t], t), a) == Read8(mem, a)
  {
    hide EndAddress, WithRow, Read8, PlaceIsValid, RowByte, InTable;
    RegionsAreDisjoint(places, deviceSize, u, a);
    RowBelowFirstIndex(|places|, t);
    WithRowReads(mem, places[t], t, a);
  }

  /** Committing on a cleared device gives a valid store of empty tables. */
  lemma CommittedStoreIsValid(was: Memory, mem: Memory, catalog: seq<Row>, catalog': seq<Row>)
    requires PartlyLaidOut(catalog, |catalog|, |was|) && |catalog'| == |catalog|
    requires Layout(Places(catalog), |was|) && CatalogIsStored(mem, Places(catalog))
    requires |mem| == |was| && AllFree(was)
    requires forall u, a :: 0 <= u < |catalog| && InTable(catalog[u].place, a) ==> Read8(mem, a) == Read8(was, a)
    requires forall t :: 0 <= t < |catalog| ==>
               catalog'[t] == catalog[t].(inUse := Cleared(catalog[t].place.maxNumRecords))
    ensures StoreIsValid(mem, catalog') && Places(catalog') == Places(catalog)
    ensures forall t :: 0 <= t < |catalog| ==> View(mem, catalog')[t] == []
  {
    hide Layout, CatalogIsStored, EndAddress, Compact, SlotBytes;
    assert Places(catalog') == Places(catalog);
    forall t | 0 <= t < |catalog|
      ensures RowIsValid(mem, catalog'[t]) && Records(mem, catalog'[t]) == []
    {
      TableFits(Places(catalog), |was|, t);
      EmptyTableIsValid(was, mem, catalog'[t]);
    }
  }

  lemma EmptyTableIsValid(was: Memory, mem: Memory, row: Row)
    requires PlaceIsValid(row.place) && EndAddress(row.place) < |was| == |mem| <= 0x1_0000 && AllFree(was)
    requires forall a :: InTable(row.place, a) ==> Read8(mem, a) == Read8(was, a)
    requires row.numRecords == 0 && row.inUse == Cleared(row.place.maxNumRecords)
    ensures RowIsValid(mem, row) && Records(mem, row) == []
  {
    IndexBeforeEnd(row.place);
    assert forall a :: InIndex(row.place, a) ==> InTable(row.place, a) && Read8(mem, a) == NO_SLOT;
    assert forall a :: row.place.indexAddress <= a < row.place.indexAddress + row.place.maxNumRecords ==>
        InIndex(row.place, a) && Read8(mem, a) == mem[a];
    assert AllFree(IndexOf(mem, row.place));
    assert MarkedSet(row.inUse, row.place.maxNumRecords) == {};
    DeleteAllRefines(mem, row);
  }
}
