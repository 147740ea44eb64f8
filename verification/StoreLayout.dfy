/** Where the record store keeps what in EEPROM: the documented byte layout of
    src/RecordStore.c, and the record lists that a memory image holds. */
module StoreLayout {
  import opened MachineInts
  import opened BitUtils
  import opened Limits
  import opened Bitmap
  import opened SlotIndex

  const ADDR_TABLE_CATALOG := 1
  const TABLE_CATALOG_ROW_SIZE := 6

  type Memory = seq<uint8>

  /** The persistent part of a catalog row. */
  datatype Place = Place(indexAddress: uint16, dataAddress: uint16, recordSize: uint8, maxNumRecords: uint8)

  /** tableDescriptorT: a catalog row with its run-time state. */
  datatype Row = Row(place: Place, numRecords: uint8, inUse: seq<bv8>)

  function Places(catalog: seq<Row>): (p: seq<Place>)
    ensures |p| == |catalog|
    ensures forall t :: 0 <= t < |catalog| ==> p[t] == catalog[t].place
  {
    seq(|catalog|, t requires 0 <= t < |catalog| => catalog[t].place)
  }

  /** getDataAreaSize */
  function AreaSize(p: Place): nat {
    p.recordSize * p.maxNumRecords
  }

  /** The byte that closes the record data. */
  function EndAddress(p: Place): nat {
    p.dataAddress + AreaSize(p)
  }

  predicate PlaceIsValid(p: Place) {
    && 0 < p.maxNumRecords <= MAX_NUM_RECORDS
    && 0 < p.recordSize <= MAX_RECORD_SIZE
    && p.dataAddress == p.indexAddress + p.maxNumRecords + 1
  }

  function FirstIndexAddress(numTables: nat): nat {
    TABLE_CATALOG_ROW_SIZE * numTables + 2
  }

  /** Tables follow each other, one separator byte apart, and fit the device. */
  ghost predicate Layout(places: seq<Place>, deviceSize: nat) {
    && 0 < |places| <= 250 && deviceSize <= 0x1_0000
    && (forall t :: 0 <= t < |places| ==> PlaceIsValid(places[t]))
    && places[0].indexAddress == FirstIndexAddress(|places|)
    && (forall t :: 0 < t < |places| ==> places[t].indexAddress == EndAddress(places[t - 1]) + 1)
    && EndAddress(places[|places| - 1]) < deviceSize
  }

  lemma {:induction false} TablesInOrder(places: seq<Place>, deviceSize: nat, t: nat, u: nat)
    requires Layout(places, deviceSize) && t < u < |places|
    ensures EndAddress(places[t]) < places[u].indexAddress
    decreases u
  {
    hide EndAddress, PlaceIsValid;
    if t < u - 1 {
      TablesInOrder(places, deviceSize, t, u - 1);
      IndexBeforeEnd(places[u - 1]);
    }
  }

  lemma IndexBeforeEnd(p: Place)
    requires PlaceIsValid(p)
    ensures p.indexAddress + p.maxNumRecords < p.dataAddress <= EndAddress(p)
  {
  }

  lemma TableFits(places: seq<Place>, deviceSize: nat, t: nat)
    requires Layout(places, deviceSize) && t < |places|
    ensures FirstIndexAddress(|places|) <= places[t].indexAddress
    ensures EndAddress(places[t]) < deviceSize
  {
    hide EndAddress, PlaceIsValid;
    if t > 0 {
      TablesInOrder(places, deviceSize, 0, t);
      IndexBeforeEnd(places[0]);
    }
    if t < |places| - 1 {
      TablesInOrder(places, deviceSize, t, |places| - 1);
      IndexBeforeEnd(places[|places| - 1]);
    }
  }

  /** The documented formula: the bytes taken by the tables before table t. */
  function BytesOfTables(places: seq<Place>, t: nat): nat
    requires t <= |places|
  {
    if t == 0 then 0
    else BytesOfTables(places, t - 1) + places[t - 1].maxNumRecords + 1 + AreaSize(places[t - 1]) + 1
  }

  lemma {:induction false} LayoutFormula(places: seq<Place>, deviceSize: nat, t: nat)
    requires Layout(places, deviceSize) && t < |places|
    ensures places[t].indexAddress == 6 * |places| + 2 + BytesOfTables(places, t)
    ensures places[t].dataAddress == 6 * |places| + 2 + BytesOfTables(places, t) + places[t].maxNumRecords + 1
    ensures EndAddress(places[t]) + 1 == 6 * |places| + 2 + BytesOfTables(places, t + 1)
  {
    if t > 0 {
      LayoutFormula(places, deviceSize, t - 1);
    }
  }

  // ---- regions ----

  predicate InIndex(p: Place, a: int) {
    p.indexAddress <= a < p.indexAddress + p.maxNumRecords
  }

  predicate InData(p: Place, a: int) {
    p.dataAddress <= a < EndAddress(p)
  }

  predicate InTable(p: Place, a: int) {
    InIndex(p, a) || InData(p, a)
  }

  /** The catalog rows, the table count and every separator byte. */
  ghost predicate InCatalog(places: seq<Place>, a: int) {
    || 0 <= a < FirstIndexAddress(|places|)
    || exists t :: 0 <= t < |places|
         && (a == places[t].indexAddress - 1 || a == places[t].dataAddress - 1 || a == EndAddress(places[t]))
  }

  /** Catalog, separators and all index and data regions are pairwise disjoint. */
  lemma RegionsAreDisjoint(places: seq<Place>, deviceSize: nat, t: nat, a: int)
    requires Layout(places, deviceSize) && t < |places| && InTable(places[t], a)
    ensures 0 <= a < deviceSize
    ensures !InCatalog(places, a)
    ensures InIndex(places[t], a) ==> !InData(places[t], a)
    ensures forall u :: 0 <= u < |places| && u != t ==> !InTable(places[u], a)
  {
    TableFits(places, deviceSize, t);
    forall u | 0 <= u < |places| && u != t
      ensures places[u].indexAddress - 1 != a && places[u].dataAddress - 1 != a
      ensures EndAddress(places[u]) != a && !InTable(places[u], a)
    {
      TwoTables(places, deviceSize, t, u, a);
    }
  }

  lemma TwoTables(places: seq<Place>, deviceSize: nat, t: nat, u: nat, a: int)
    requires Layout(places, deviceSize) && t < |places| && u < |places| && u != t && InTable(places[t], a)
    ensures places[u].indexAddress - 1 != a && places[u].dataAddress - 1 != a
    ensures EndAddress(places[u]) != a && !InTable(places[u], a)
  {
    TablesInOrder(places, deviceSize, if t < u then t else u, if t < u then u else t);
    hide EndAddress;
    IndexBeforeEnd(places[t]);
    IndexBeforeEnd(places[u]);
  }

  /** Only bytes of one table differ. */
  ghost predicate SameOutside(mem: Memory, mem': Memory, p: Place) {
    |mem'| == |mem| && forall a :: 0 <= a < |mem| && !InTable(p, a) ==> mem'[a] == mem[a]
  }

  /** Only index bytes of one table differ. */
  ghost predicate SameOutsideIndex(mem: Memory, mem': Memory, p: Place) {
    |mem'| == |mem| && forall a :: 0 <= a < |mem| && !InIndex(p, a) ==> mem'[a] == mem[a]
  }

  // ---- reading ----

  function IndexOf(mem: Memory, p: Place): (index: seq<uint8>)
    requires p.indexAddress + p.maxNumRecords <= |mem|
    ensures |index| == p.maxNumRecords
  {
    mem[p.indexAddress..p.indexAddress + p.maxNumRecords]
  }

  function SlotAddress(p: Place, slot: nat): nat {
    p.dataAddress + slot * p.recordSize
  }

  lemma SlotStep(i: nat, j: nat, size: nat)
    requires i < j
    ensures i * size + size <= j * size
  {
    var d := j - i - 1;
    assert j * size == i * size + size + d * size;
  }

  lemma SlotFits(p: Place, slot: nat)
    requires slot < p.maxNumRecords
    ensures p.dataAddress <= SlotAddress(p, slot)
    ensures SlotAddress(p, slot) + p.recordSize <= EndAddress(p)
  {
    SlotStep(slot, p.maxNumRecords, p.recordSize);
  }

  function SlotBytes(mem: Memory, p: Place, slot: nat): (r: seq<uint8>)
    requires slot < p.maxNumRecords && EndAddress(p) <= |mem|
    ensures |r| == p.recordSize
  {
    SlotFits(p, slot);
    mem[SlotAddress(p, slot)..SlotAddress(p, slot) + p.recordSize]
  }

  /** The records a list of slots denotes. */
  function RecordsAt(mem: Memory, p: Place, slots: seq<uint8>): (r: seq<seq<uint8>>)
    requires Below(slots, p.maxNumRecords) && EndAddress(p) <= |mem|
    ensures |r| == |slots|
  {
    seq(|slots|, i requires 0 <= i < |slots| => SlotBytes(mem, p, slots[i]))
  }

  // ---- the invariant of one table and of the whole store ----

  ghost predicate TableFitsMemory(mem: Memory, p: Place) {
    PlaceIsValid(p) && EndAddress(p) < |mem| <= 0x1_0000
  }

  /** The index is compact and numRecords counts it. */
  ghost predicate IndexAgrees(mem: Memory, row: Row) {
    TableFitsMemory(mem, row.place) && Compact(IndexOf(mem, row.place), row.numRecords)
  }

  function Slots(mem: Memory, row: Row): (s: seq<uint8>)
    requires IndexAgrees(mem, row)
    ensures Below(s, row.place.maxNumRecords) && |s| == row.numRecords
  {
    IndexOf(mem, row.place)[..row.numRecords]
  }

  /** The records of a table in logical order. */
  function Records(mem: Memory, row: Row): (r: seq<seq<uint8>>)
    requires IndexAgrees(mem, row)
    ensures |r| == row.numRecords
  {
    RecordsAt(mem, row.place, Slots(mem, row))
  }

  /** The bitmap marks exactly the slots in the index. */
  ghost predicate BitmapAgrees(mem: Memory, row: Row)
    requires IndexAgrees(mem, row)
  {
    && |row.inUse| == NumBytes(row.place.maxNumRecords)
    && MarkedSet(row.inUse, row.place.maxNumRecords) == SlotSet(Slots(mem, row))
  }

  ghost predicate RowIsValid(mem: Memory, row: Row) {
    IndexAgrees(mem, row) && BitmapAgrees(mem, row)
  }

  /** eeReadUint8; outside the device nothing is connected and the bus reads as clear. */
  function Read8(mem: Memory, a: int): uint8 {
    if 0 <= a < |mem| then mem[a] else 0xFF
  }

  /** eeReadUint16: low byte first. */
  function Read16(mem: Memory, a: int): uint16 {
    (Read8(mem, a + 1) as int) * 0x100 + Read8(mem, a)
  }

  function RowAddress(t: nat): nat {
    ADDR_TABLE_CATALOG + TABLE_CATALOG_ROW_SIZE * t
  }

  /** The catalog row stored for table t. */
  function StoredPlace(mem: Memory, t: nat): Place {
    Place(Read16(mem, RowAddress(t)), Read16(mem, RowAddress(t) + 2),
          Read8(mem, RowAddress(t) + 4), Read8(mem, RowAddress(t) + 5))
  }

  /** The separators before the index and before the data of a table. */
  predicate IsSeparated(mem: Memory, p: Place) {
    Read8(mem, p.indexAddress - 1) == 0 && Read8(mem, p.dataAddress - 1) == 0
  }

  /** The table count, all catalog rows and all separators are in place. */
  ghost predicate CatalogIsStored(mem: Memory, places: seq<Place>)
    requires places != []
  {
    && Read8(mem, 0) == |places|
    && (forall t :: 0 <= t < |places| ==> StoredPlace(mem, t) == places[t])
    && (forall t :: 0 <= t < |places| ==> IsSeparated(mem, places[t]))
    && Read8(mem, EndAddress(places[|places| - 1])) == 0
  }

  /** Everything but the allocation bitmaps. */
  ghost predicate StoreAgrees(mem: Memory, catalog: seq<Row>) {
    && Layout(Places(catalog), |mem|)
    && CatalogIsStored(mem, Places(catalog))
    && forall t :: 0 <= t < |catalog| ==> IndexAgrees(mem, catalog[t])
  }

  ghost predicate StoreIsValid(mem: Memory, catalog: seq<Row>) {
    StoreAgrees(mem, catalog) && forall t :: 0 <= t < |catalog| ==> BitmapAgrees(mem, catalog[t])
  }

  // ---- the documented layout, byte by byte ----

  /** Byte i of record r stands in the slot that entry r of the index names. */
  lemma RecordByteLaw(mem: Memory, row: Row, r: nat, i: nat)
    requires IndexAgrees(mem, row) && r < row.numRecords && i < row.place.recordSize
    ensures var p := row.place;
            && p.indexAddress + r < p.dataAddress
            && var a := p.dataAddress + mem[p.indexAddress + r] * p.recordSize + i;
               p.dataAddress <= a < |mem| && Records(mem, row)[r][i] == mem[a]
  {
    var p, slot := row.place, Slots(mem, row)[r];
    assert slot == mem[p.indexAddress + r];
    SlotFits(p, slot);
    hide Compact, AreaSize;
  }

  lemma RowOnDevice(mem: Memory, places: seq<Place>, t: nat)
    requires Layout(places, |mem|) && CatalogIsStored(mem, places) && t < |places|
    ensures 6 * t + 6 < |mem| && mem[0] == |places| && StoredPlace(mem, t) == places[t]
  {
    TableFits(places, |mem|, t);
    hide Layout, StoredPlace, AreaSize;
    assert |places| > t && FirstIndexAddress(|places|) == 6 * |places| + 2;
    assert Read8(mem, 0) == |places|;
  }

  lemma RowBytes(mem: Memory, t: nat)
    requires 6 * t + 6 < |mem|
    ensures var (p, a) := (StoredPlace(mem, t), 6 * t + 1);
            && p.indexAddress == mem[a] as int + 0x100 * mem[a + 1] as int
            && p.dataAddress == mem[a + 2] as int + 0x100 * mem[a + 3] as int
            && p.recordSize == mem[a + 4] && p.maxNumRecords == mem[a + 5]
  {
  }

  /** The row of table t: index address and data address, low byte first, record size and number of slots. */
  lemma CatalogByteLaw(mem: Memory, catalog: seq<Row>, t: nat)
    requires StoreAgrees(mem, catalog) && t < |catalog|
    ensures 6 * t + 6 < |mem| && mem[0] == |catalog|
    ensures var (p, a) := (catalog[t].place, 6 * t + 1);
            && p.indexAddress == mem[a] as int + 0x100 * mem[a + 1] as int
            && p.dataAddress == mem[a + 2] as int + 0x100 * mem[a + 3] as int
            && p.recordSize == mem[a + 4] && p.maxNumRecords == mem[a + 5]
  {
    hide IndexAgrees;
    RowOnDevice(mem, Places(catalog), t);
    hide *;
    RowBytes(mem, t);
  }
}
