# BitsOfData in Dafny

BitsOfData is a small database for embedded systems. This project models its four layers bottom up
and proves what each promises; the upper layers are proved with the contracts of the lower ones.

- **Bits, schema and codec** (`BitUtils`, `Schema`, `RecordCodec`, `CodecLaws`): records of columns
  of 0 to 16 bits are packed through a 32-bit shift buffer. The specification is the bit string of a
  record; the packing and unpacking loops are proved against it, and the two are inverse. `Schema`
  states what test/mocks/ValidateDbaseSchema.c demands of a schema, that column 0 is the same in
  all record definitions of a table (include/BitsOfDataTypes.h:311-312), and a zero range for
  TXT_LIST_CLONE.
- **Record store** (`Limits`, `Bitmap`, `SlotIndex`, `StoreLayout`, `StoreSteps`, `StoreOpening`,
  `StoreWrites`, `RecordStore`): class `Store` has the EEPROM as a byte array and the catalog rows
  in RAM, and writes one byte at a time. It refines a sequence of byte records per table; its
  regions are disjoint; closing and opening rebuilds it; opened after a power cut at any byte
  write of an insert or a delete it lists every surviving record.
- **Engine** (`LogicalDatabase`, `DatabaseRuns`, `RecordIdentity`, `IdentityRuns`, `ReferenceLoops`,
  `RecordBuffers`, `EngineState`, `ValueSteps`, `ReferenceSteps`, `RecordSteps`, `OpeningSteps`,
  `StaleBuffers`, `Reopening`, `TableImport`, `ParentRecords`, `Database`, `Durability`, `CallLaws`,
  `ApiLaws`): class `Database` has one write-back buffer per table over the store. `Logical()` is
  what buffers and bytes together represent; every method states it as a function of what it was.
  Referential integrity is proved over whole runs of calls, closing and opening included, and so is the identity
  of the records that references denote. `CallLaws` says what each call does in terms of the schema's
  own fields, and `ApiLaws` reads back with one call what another has written.
- **Template language** (`TemplateSyntax`, `TemplateParser`, `TemplateCompiler`,
  `TemplateCorrectness`, `TemplatePrograms`, `TemplateConditionals`, `TemplateEvaluation`,
  `FormatInterpreter`, `InterpreterCorrectness`, `InterpreterRuns`, `Simulation`, `FormatLaws`,
  `TokenLaws`): templates as trees, the parser to jump-indexed tokens, an evaluator for those
  tokens, the interpreter that scans the format string, and the proof that the two front ends write the same. `FormatLaws` and
  `TokenLaws` say the same of spelled tags and conditionals. `WriteColumns` has the digit writers and
  `FieldLaws` what stands at each place of their fields.

Methods have the loops and the mutable state of the C functions they model; a failed C assert is a
precondition or, where the source promises that syntax errors are detected, a result.

## Where the code departs from its documentation

The members named here state the exact condition under which the coded step is right, or show a run
where it is not (`Departures`, `StaleBuffers` and `LostReference` hold nothing else). The run-level
theorems use the documented step.

- rs_deleteRecord frees the bitmap bit of the record's number instead of its slot
  (`RecordStore.Store.DeleteRecord`, `Departures.CodedDeleteIsSoundIff`,
  `Departures.TwoRecordsShareASlot`). `Database.DeleteRecord` uses `DeleteRecordAndFreeSlot`.
- storeRecordBuffer leaves the buffer marked as modified, so an insert flushes it once more under
  its old number (`Database.InsertRecordAfterAsCoded`, `StaleBuffers.CodedInsertIffHarmless`,
  `StaleBuffers.RecordIsOverwritten`, `Departures.SecondRecordIsLost`).
  `Database.InsertRecordAfter` clears the flushed buffer before positions shift.
- BDB_deleteRecord keeps the buffer under its old number (`Database.DeleteRecordAsCoded`,
  `StaleBuffers.StaleBufferIffHarmless`, `Departures.DeletedRecordIsShown`). In tables that refer to
  themselves this never shows: the search that allows the deletion leaves the buffer clean, and the
  renumbering refills it. `Database.DeleteRecord` flushes and clears it first.
- BDB_closeDataBase stores no buffer, so closing forgets the last changes of up to one record per
  table (src/BitsOfData.c:392-397). A record that the logical database no longer refers to may be
  deleted while the bytes still refer to it (`Reopening.StoredIsConsistentIff`,
  `LostReference.ReferenceIsLostOnDevice`). The runs allow a reopening exactly when it leaves no
  such reference.
- BDB_insertRecordAfter renumbers references before the new record has its defaults, and so reads
  the stale bytes of the new slot in a table that refers to itself. `Database.InsertRecordAfter`
  writes the defaults first; what stale bytes do is left out.
- forEachReference excludes a self reference by its value alone, not when it comes from the record
  itself (`Departures.CodedSearchIsRightIff`, `Departures.CodedDeleteResolvesIff`,
  `Departures.StaleReferenceDenotesNext`). `Database.IsRecordReferenced` excludes the record
  itself, as include/BitsOfData.h promises; the renumbering loops keep the coded exclusion, which
  there changes nothing.
- The parser leaves the flags of right-hand sides as it finds them
  (`TemplateEvaluation.ParseDependsOnEarlier`, `TemplateEvaluation.OffsetIsLeftBehind`), and clears
  the flags of a token behind its array when a tag follows 20 tokens
  (`TemplateCorrectness.ParserIsCorrect`). The model has the missing guard and reports the write.
- The scanning interpreter skips beyond a failed conditional that has no else
  (`InterpreterRuns.InterpreterWritesMeaningIff`, `InterpreterRuns.LostText`).
- New parent records name the child with the number of their position
  (`ParentRecords.InsertKeepsChildrenDistinct`, `ParentRecords.MiddleInsertRepeatsChild`).
- rs_tryToOpenRecordStore checks the catalog but no index: a stored slot number behind the table's
  bitmap marks a bit outside it (`RecordStore.Store.TryToOpenRecordStore`,
  `Departures.SlotHasNoBit`). The model reports that.
- BDB_setRecord looks up the record definition before it validates, behind the end of the
  definitions when the record type is not defined (`Database.SetRecord`). The model rejects such
  data, as include/BitsOfData.h:138 says, and reports the lookup.
- wc_writeTxt and wc_writeChar write a character before they assert that there is room for it
  (`WriteColumns.Writer.WriteTxt`, `WriteColumns.Writer.WriteChar`). The model reports the write.
- Limits on both sides of 0x8000 make BDB_changeValue jump, because it computes in int16
  (`LogicalDatabase.ZeroChangeKeepsValue`).

## Model

| member | source | states |
|---|---|---|
| BitUtils.ShlIsMultiplication | src/RecordCodec.c:81 | shifting a word left by n is multiplying it by 2^n |
| BitUtils.ShiftAndMaskAreDivMod | utils/BitUtils.h:33-35 | shifting right and masking split a word into quotient and remainder: x == (x >> n) * 2^n + (x & mask) |
| BitUtils.NumBitsIsLeast | utils/BitUtils.h:39-46 | the number of bits of a value is the least that holds it |
| BitUtils.GetNumBits | utils/BitUtils.h:39-46 | the counting loop returns that number, at most 16 for a 16-bit value |
| BitUtils.NumBytes | utils/BitUtils.h:20-23 | the fewest bytes that hold a number of bits |
| BitUtils.BitsSplit | src/RecordCodec.c:80-88 | the upper bits of a word are the bits of the word shifted right, followed by its lower bits |
| Bitmap.MasksAreDistinctBits | utils/BitUtils.h:27-29 | single-bit masks of different positions touch different bits |
| Bitmap.MarkedAfter | src/RecordStore.c:112-133 | marking or freeing slot i changes the mark of slot i and of no other slot |
| RecordCodec.GetNumBitsOfColumn | src/RecordCodec.c:26-32 | the width of a column is that of its scaled range, between 0 and 16 bits |
| RecordCodec.GetRecordSize | src/RecordCodec.c:49-55 | the loop adds up the widths of all columns and rounds up to bytes |
| RecordCodec.GetMaxRecordSize | src/RecordCodec.c:35-46 | the largest size among the record definitions of a table |
| RecordCodec.AddColumn | src/RecordCodec.c:72-82 | adding a column leaves exactly the old bits followed by the scaled value in the 32-bit buffer; at most 23 bits are live, so none is lost |
| RecordCodec.EmitFullBytes | src/RecordCodec.c:84-88 | the inner loop moves whole bytes out, first in first out, and keeps fewer than 8 bits |
| RecordCodec.EmitRest | src/RecordCodec.c:90-93 | the rest is padded with zero bits to one byte; bytes behind it stay |
| RecordCodec.EncodeColumns | src/RecordCodec.c:68-93 | the bytes written are the big-endian concatenation of the scaled columns, padded with zero bits; the buffer behind them is unchanged |
| RecordCodec.EncodeRecord | src/RecordCodec.c:58-93 | the same for the record definition named by the first column |
| RecordCodec.EncodedBits | src/RecordCodec.c:58-93 | read as a bit string, the output starts with the record's own bits whatever bytes follow |
| RecordCodec.FieldOfRecord | src/RecordCodec.c:68-89 | every column occupies its own range of that bit string, at the sum of the widths before it |
| RecordCodec.Refill | src/RecordCodec.c:118-121 | fetching bytes extends the bits in the buffer by the next bits of the input until the column is complete |
| RecordCodec.TakeColumn | src/RecordCodec.c:122-134 | a column is taken from the front of the buffer; virtual columns give 0xFFFF |
| RecordCodec.DecodeColumns | src/RecordCodec.c:110-135 | the values delivered are those at the columns' ranges of the input bits |
| RecordCodec.DecodeRecord | src/RecordCodec.c:96-136 | the same for the record definition whose number is in the first bits of the first byte |
| RecordCodec.ColumnRoundTrip | src/RecordCodec.c:75-131 | a value in range and on a step survives scaling, cutting to width and unscaling |
| RecordCodec.LeadingField | src/RecordCodec.c:101-107 | the first column can be read from the first byte alone |
| RecordCodec.TagRoundTrip | src/RecordCodec.c:96-107 | the record type read when decoding is the one that was encoded |
| RecordCodec.BytesOfBits | src/RecordCodec.c:84-93 | bytes and bit strings of whole bytes are in bijection, one way |
| RecordCodec.BitsOfBytes | src/RecordCodec.c:84-93 | and the other way |
| RecordCodec.RoundTrip | src/RecordCodec.c:58-136 | decoding an encoded record returns every real column unchanged and 0xFFFF for virtual ones, for fixed and variable records, whatever bytes follow |
| Schema.ColumnBitsBound | src/RecordCodec.c:26-32 | no column needs more than 16 bits |
| SlotIndex.LiveOfCompact | src/RecordStore.c:102-109 | the entries before the first 0xFF of a compact index are its records |
| SlotIndex.FreeSlotExists | src/RecordStore.c:482-499 | pigeonhole: fewer records than slots leave a slot free |
| SlotIndex.MakeRoomCutIsSafe | src/RecordStore.c:472-479 | after any number of the byte writes that make room, the index lists every record in order with at most one adjacent copy |
| SlotIndex.CloseGapCutIsSafe | src/RecordStore.c:434-444 | after any number of the byte writes that close a gap, the index lists every surviving record in order with at most one adjacent copy |
| SlotIndex.InsertedIsCompact | src/RecordStore.c:492-506 | a finished insert leaves a compact index with one more slot at the right place |
| SlotIndex.RemovedIsCompact | src/RecordStore.c:434-444 | a finished delete leaves a compact index without that slot and with all others in order |
| StoreLayout.LayoutFormula | src/RecordStore.c:243-254 | index and data addresses follow the prefix-sum formula of the documented layout |
| StoreLayout.RegionsAreDisjoint | src/RecordStore.c:333-355 | catalog, separators and all index and data areas are pairwise disjoint and lie on the device |
| StoreLayout.SlotFits | src/RecordStore.c:406-410 | every slot lies inside the data area of its table |
| StoreSteps.CatalogUnaffected | src/RecordStore.c:263-286 | a step on one table changes no byte that opening the store checks |
| StoreSteps.OtherTableUnaffected | src/RecordStore.c:406-521 | a step on one table changes no index, record or bitmap of another table |
| StoreSteps.TableStep | src/RecordStore.c:406-521 | the store stays consistent when one table changes, and its record lists change in that table only |
| StoreSteps.InsertRefines | src/RecordStore.c:492-506 | inserting an index entry inserts a record into the list seen through the index |
| StoreSteps.DeleteRefines | src/RecordStore.c:447-455 | deleting an index entry removes the record from the list; the bitmap stays right exactly when the bit that is freed is that of the record's slot |
| StoreSteps.DeleteAllRefines | src/RecordStore.c:457-469 | a freed index and bitmap make a valid empty table |
| StoreSteps.SetRefines | src/RecordStore.c:406-421 | a written record reads back as written and every other record of the table is unchanged |
| StoreSteps.SlotsAreDisjoint | src/RecordStore.c:406-410 | different slots do not overlap |
| StoreSteps.MakeRoomSurvivesCut | src/RecordStore.c:472-479 | reopened after a cut while room is made, the table shows all its records in order |
| StoreSteps.CloseGapSurvivesCut | src/RecordStore.c:434-444 | reopened after a cut while a gap is closed, the table shows all other records in order |
| StoreWrites.AllocatorNeverFails | src/RecordStore.c:482-499 | in a valid table that is not full an unmarked slot exists, so the assert behind the allocator never fails |
| StoreWrites.CutReopens | src/RecordStore.c:182-286 | a store cut off inside an insert or a delete passes the check on opening; its other tables list exactly their records, and the table itself its surviving records with at most one adjacent copy |
| StoreOpening.CheckAcceptsLayouts | src/RecordStore.c:236-286 | the check on opening accepts exactly the stored catalogs of the documented layout |
| StoreOpening.ConsistentStorePasses | src/RecordStore.c:236-286 | every consistent store passes the check, with the catalog it was created with |
| StoreOpening.RebuiltStoreIsValid | src/RecordStore.c:182-232 | rebuilding the RAM state from the bytes gives a valid store with the same records, even after the bitmaps had gone wrong |
| StoreOpening.StoreOneRow | src/RecordStore.c:374-396 | storing one catalog row makes that row readable and leaves the earlier rows and all tables alone |
| StoreOpening.CommittedStoreIsValid | src/RecordStore.c:374-403 | committing on an erased device gives a valid store of empty tables |
| RecordStore.Store.ShiftRecordIndexUp | src/RecordStore.c:472-479 | the loop moves the last entries up one by one, one byte write each: after write i + 1 the last i + 1 entries have moved, and each of these memories keeps all records |
| RecordStore.Store.ShiftRecordIndexDown | src/RecordStore.c:434-444 | the loop moves the entries behind the gap down one by one, one byte write each: after write i + 1 the first i + 1 of them have moved, and each of these memories keeps all other records |
| RecordStore.Store.DeleteRecord | src/RecordStore.c:447-455 | as coded: the record list loses the record and the bit of its number is freed; the store is valid afterwards exactly when the record lay in the slot of its own number; the memory after every byte write is given, and is safe |
| RecordStore.Store.DeleteRecordAndFreeSlot | src/RecordStore.c:447-455 | as documented, freeing the slot: the store stays valid, the list loses exactly that record; the memory after every byte write is given, and is safe |
| RecordStore.Store.GetNextFreeRecord | src/RecordStore.c:482-489 | the lowest unmarked slot, or none when all are marked |
| RecordStore.Store.InsertRecordAt | src/RecordStore.c:492-506 | a full table is left alone; otherwise the list gains one record at the given position, in the lowest free slot, and the store stays valid; the memory after every byte write is given, and is safe |
| RecordStore.Store.AppendRecord | src/RecordStore.c:509-513 | insertion behind the last record, with the memory after every byte write |
| RecordStore.Store.InsertRecordAfter | src/RecordStore.c:516-521 | insertion behind a given record, with the memory after every byte write |
| RecordStore.Store.DeleteAllRecords | src/RecordStore.c:457-469 | the table becomes empty, the number of deleted records is returned, other tables are unchanged |
| RecordStore.Store.SetRawRecord | src/RecordStore.c:413-421 | the addressed record is replaced, every other record of every table is unchanged, the store stays valid |
| RecordStore.Store.GetRawRecord | src/RecordStore.c:423-431 | the bytes of the addressed record |
| RecordStore.Store.GetNumRecordsFromIndex | src/RecordStore.c:102-109 | the number of entries before the first 0xFF |
| RecordStore.Store.LoadTableCatalog | src/RecordStore.c:182-197 | the RAM catalog is the stored one, when the stored table count matches |
| RecordStore.Store.GenerateBitmap | src/RecordStore.c:221-232 | the bitmap marks exactly the slots in the index, unless one of them has no bit in it, which is told |
| RecordStore.Store.IsTableCatalogValid | src/RecordStore.c:263-286 | the check accepts exactly the stored catalogs that pass it |
| RecordStore.Store.TryToOpenRecordStore | src/RecordStore.c:289-305 | a store is found exactly when its catalog passes; then the bytes are unchanged and the RAM state of every table is rebuilt whose stored slots are in range; it is told whether one lies behind the bitmap; without a store the device is erased |
| RecordStore.Store.Reopen | src/RecordStore.c:289-325 | closing and opening a consistent store finds the same catalog and the same records and makes it valid |
| RecordStore.Store.OpenAfterCut | src/RecordStore.c:289-305 | opening the device after such a cut finds the store, with these lists |
| RecordStore.Store.CreateTable | src/RecordStore.c:333-371 | the next table is laid out behind the previous one; earlier rows are unchanged |
| RecordStore.Store.CommitTables | src/RecordStore.c:374-403 | after committing the store is valid and all tables are empty |
| RecordStore.Store.DeleteTableCatalog | src/RecordStore.c:328-330 | afterwards no store is found |
| LogicalDatabase.ShiftedRecord | src/BitsOfData.c:477-510 | renumbered references stay legal values below the new record count; references to other tables are unchanged |
| LogicalDatabase.DefaultIsRecord | src/BitsOfData.c:261-317 | default values form a complete record of the first type whose references exist in every non-empty table |
| LogicalDatabase.InsertKeepsIntegrity | src/BitsOfData.c:540-550 | after an insert all records are complete and every reference denotes an existing record |
| LogicalDatabase.DeleteKeepsIntegrity | src/BitsOfData.c:520-531 | after deleting a record that no other record refers to, every reference denotes an existing record |
| LogicalDatabase.ChangedValueFits | src/BitsOfData.c:722-747 | without int16 overflow, and in steps of one whatever the sum wraps around to, a changed value is in range and on a step again, and not above the current maximum |
| LogicalDatabase.ChangeIsClampedAddition | src/BitsOfData.c:722-747 | with limits on one side of the int16 range a change is addition clamped to minimum and current maximum |
| LogicalDatabase.ZeroChangeKeepsValue | src/BitsOfData.c:722-747 | a change by zero keeps all values exactly when the limits lie on one side of the int16 range |
| DatabaseRuns.SetValueMayStand | src/BitsOfData.c:689-719 | a value that is accepted, also a new record type, leaves a complete record whose references exist |
| DatabaseRuns.SetRecordMayStand | src/BitsOfData.c:574-625 | a record that is accepted is complete and its references exist |
| DatabaseRuns.CallKeepsConsistency | src/BitsOfData.c:513-747 | every call, accepted or rejected, keeps all records complete and all references resolvable; closing and opening does when the stored contents under each change that is lost resolve |
| DatabaseRuns.RunsKeepIntegrity | src/BitsOfData.c:513-747 | the same over every run of calls, reopenings included |
| DatabaseRuns.ReopenKeepsIntegrityIff | src/BitsOfData.c:337-397 | closing without syncing, which loses at most one record's changes per table, keeps every reference exactly when the stored contents of each of those records resolve |
| Reopening.StoredMayBe | src/BitsOfData.c:392-397 | what the bytes hold is complete and differs from the logical database in the modified buffered records at most |
| Reopening.StoredIsConsistentIff | src/BitsOfData.c:392-397 | the database that the bytes alone hold is consistent exactly when the stored record under every modified buffer resolves |
| RecordIdentity.NamesMove | src/BitsOfData.c:520-550 | an insert or delete moves every surviving record to its documented new position |
| RecordIdentity.MoveKeepsRecord | src/BitsOfData.c:477-550 | a surviving record keeps its values, and its references denote the same records as before |
| RecordIdentity.ReferencesFollowRecords | src/BitsOfData.c:477-550 | over every run of inserts and deletes each surviving record keeps its values and every reference denotes the record it denoted |
| RecordIdentity.RemovedNameIsGone | src/BitsOfData.c:520-531 | a deleted record does not come back |
| IdentityRuns.CallKeepsColumn | src/BitsOfData.c:477-747 | every call, a reopening included, keeps each value that it does not write: the same value, or a reference to the same record, at the record's position after the call |
| IdentityRuns.ValuesFollowRecords | src/BitsOfData.c:477-747 | over every legal run of all calls: each value of a surviving record that no call wrote is the one it had, and each such reference denotes the record it denoted |
| ReferenceLoops.AllDefsVisited | src/BitsOfData.c:414-460 | the loops over record types, columns and records renumber every reference to the target once and nothing else |
| ReferenceLoops.ChangeOfReference | src/BitsOfData.c:477-509 | changing a reference by one through BDB_changeValue is the renumbering, without clamping |
| ReferenceLoops.NoHitMeansUnreferenced | src/BitsOfData.c:414-473 | when no loop finds a match no other record refers to the record |
| ReferenceLoops.HitMeansReferenced | src/BitsOfData.c:414-473 | a match is a reference from another record |
| RecordBuffers.EncodedIsStored | src/BitsOfData.c:61-67 | the bytes of a stored record decode to the real columns that were buffered |
| RecordBuffers.StoreStep | src/BitsOfData.c:61-67 | storing the buffer changes nothing that readers see |
| RecordBuffers.FillStep | src/BitsOfData.c:91-102 | a synced buffer may be filled with another record without any visible change |
| RecordBuffers.ClearStep | src/BitsOfData.c:609-612 | clearing a synced buffer forgets nothing |
| RecordBuffers.WriteStep | src/BitsOfData.c:593-606 | writing a record into the buffer replaces exactly that record |
| Database.GetMaxRawRecordSize | src/BitsOfData.c:150-161 | the shared raw buffer is as large as the largest record of any table |
| Database.CopyData | src/BitsOfData.c:593-606 | real columns are copied, virtual ones keep what the buffer held |
| Database.Database.constructor | src/BitsOfData.c:164-179 | buffers start empty and unmodified |
| Database.Database.StoreRecordBuffer | src/BitsOfData.c:61-67 | storage catches up with the buffer; the logical database and other tables are unchanged |
| Database.Database.SyncTable | src/BitsOfData.c:70-72 | afterwards the stored bytes of the table represent the logical table |
| Database.Database.WriteRecordBufferIfDirty | src/BitsOfData.c:83-88 | after a flush buffer and storage agree; nothing visible changes |
| Database.Database.FillRecordBuffer | src/BitsOfData.c:91-102 | the buffer holds the requested record as last written; nothing visible changes |
| Database.Database.GetRecord | src/BitsOfData.c:628-632 | the real columns of the record as last accepted |
| Database.Database.GetMaxValue | src/BitsOfData.c:238-258 | references are bounded by the live record count of their target, other columns by the schema |
| Database.Database.ValidateRecord | src/BitsOfData.c:574-590 | of data whose record type is defined, accepts exactly the records whose real columns are in range and on a step |
| Database.Database.PutRecord | src/BitsOfData.c:615-625 | flushes the old buffer, takes the new record, and drops it when it is rejected, whatever the rest of the table holds |
| Database.Database.SetRecord | src/BitsOfData.c:615-625 | an accepted record replaces the addressed one; a rejected one leaves the logical database unchanged; data of an undefined record type is rejected as documented, and it is told that the code reads behind the record definitions then |
| Database.Database.GetValue | src/BitsOfData.c:657-686 | the value of a real column as last accepted, for a virtual column what the record its reference denotes shows, and 0xFFFF for a string column |
| Database.Database.SetColumnsToDefaultValue | src/BitsOfData.c:286-309 | a modified buffer is flushed, whatever record it holds; the columns from the given one on hold their defaults, and the record is stored |
| Database.Database.ChangeRecordType | src/BitsOfData.c:320-324 | a new record type resets all other columns to that type's defaults |
| Database.Database.SetValue | src/BitsOfData.c:703-719 | accepted exactly when in range, on a step, real and no child column; then exactly that value changes, or the record type with its defaults |
| Database.Database.ChangeValue | src/BitsOfData.c:722-747 | adds the scaled delta in int16, limited to minimum and current maximum; reports whether the value changed |
| Database.Database.ShiftReferences | src/BitsOfData.c:414-510 | all references to the target behind the given position, and nothing else, move by one |
| Database.Database.IsRecordReferenced | src/BitsOfData.c:414-474 | found exactly when another record refers to the record; only tables that refer to the target are read, and a search without a match leaves a target that refers to itself read to its last record, with a clean buffer |
| Database.Database.SetRecordToDefaultValues | src/BitsOfData.c:312-317 | a record just put into the index becomes the default record |
| Database.Database.InsertRecordAfter | src/BitsOfData.c:540-550 | inserted exactly when the table is not full; the logical database is then the specified insert with renumbered references |
| Database.Database.InsertRecordAfterAsCoded | src/BitsOfData.c:540-550 | with the buffer left marked as modified: where it holds a record more than one behind the insertion point, the logical database is the insert into a table in which the record before the buffered one has given way to it, and otherwise the documented insert; also in tables that refer to themselves |
| StaleBuffers.CodedInsertView | src/BitsOfData.c:286-309 | the same on the stored bytes and the buffer: index entry, second flush under the old number, defaults |
| Database.Database.CanRecordBeDeleted | src/BitsOfData.c:513-517 | true exactly when another record remains and none refers to this one |
| Database.Database.DeleteRecord | src/BitsOfData.c:520-531 | deleted exactly when allowed; the logical database is then the specified delete with renumbered references |
| Database.Database.DeleteRecordAsCoded | src/BitsOfData.c:414-531 | with the buffer left under its old number: deleted exactly when allowed, and then the database is the documented one exactly when the table refers to itself or the buffer was empty, held an earlier record, or the records that come to lie under its number are equal |
| StaleBuffers.StaleBufferIffHarmless | src/BitsOfData.c:520-531 | after rs_deleteRecord bytes and buffer of the table show what is documented exactly when the buffer is empty, holds an earlier record, or the records that come to lie under its number are equal; a clean buffer on the last record is harm, because its number is then served from the buffer instead of failing the promised assert |
| StaleBuffers.AsideIsShiftSafe | src/BitsOfData.c:520-531 | with the record gone every reference behind it may move down, also over stored records that differ from the buffered one |
| StaleBuffers.PutBackIffHarmless | src/BitsOfData.c:446-531 | in a table that does not refer to itself the renumbering does not look at that buffer, so the same condition decides after it |
| Database.Database.GetNumRealColumns | src/BitsOfData.c:637-648 | the number of columns before the first virtual one |
| Database.Database.ImportTable | src/BitsOfData.c:750-769 | returns the number of records up to the first invalid one; if all are valid the table holds exactly the records cut out of the data, otherwise those before the invalid one are stored and one more slot has been appended |
| Database.Database.BuildParentRecordList | src/BitsOfData.c:269-283 | the list gives for every child the last parent record that names it, or none |
| Database.Database.SyncDbase | src/BitsOfData.c:75-80 | afterwards the bytes alone represent the logical database |
| Database.Database.CloseAndOpen | src/BitsOfData.c:337-400 | reopening finds the store; the logical database is what was stored, with complete records; it is consistent exactly when the stored record under every modified buffer resolves |
| Database.Database.CreateTables | src/BitsOfData.c:217-222 | all tables are laid out one behind the other with their record sizes |
| Database.Database.CreateFirstRecords | src/BitsOfData.c:327-334 | every table holds exactly its first default record |
| Database.Database.CreateDataBase | src/BitsOfData.c:337-361 | a new database holds one default record per table and is consistent |
| TableImport.CutOfData | src/BitsOfData.c:757-764 | imported record k is the stretch of data that starts where the records before it end |
| TableImport.StartsFollow | src/BitsOfData.c:757-764 | each record starts as far behind the previous one as that one has real columns |
| ParentRecords.ParentListIsInverse | src/BitsOfData.c:269-283 | parent of child of record r is r for all records exactly when no two records name the same child |
| ParentRecords.NewChildIsDistinct | src/BitsOfData.c:295-299 | a new parent record keeps children distinct exactly when its child number was not in use |
| ParentRecords.InsertNamesChild | src/BitsOfData.c:286-317 | inserting behind record r of a parent table puts the child number minValue + r + 1 at position r + 1 of the child column and leaves the others |
| ParentRecords.InsertKeepsChildrenDistinct | src/BitsOfData.c:540-550 | an insert keeps the children of a parent table distinct exactly when that number was not in use |
| ParentRecords.MiddleInsertRepeatsChild | src/BitsOfData.c:295-299 | in a new database, inserting twice after the first record of a parent table names one child twice: minValue, minValue + 1, minValue + 1 |
| Durability.SetSyncReopenGet | src/BitsOfData.c:337-632 | an accepted record that was synced is returned unchanged after closing and reopening, and the rest of its table is unchanged |
| Durability.SyncAndReopen | src/BitsOfData.c:75-80 | a database that was synced as a whole is the same after closing and reopening |
| Departures.CodedDeleteIsSoundIff | src/RecordStore.c:447-455 | the coded delete keeps bitmap and index in agreement exactly when the record lies in the slot of its own number |
| Departures.TwoRecordsShareASlot | src/RecordStore.c:447-506 | on a store: append, append, insert after 0, delete 1; the slot that the next append takes is that of record 1 |
| StaleBuffers.CodedInsertIffHarmless | src/BitsOfData.c:286-309 | the coded insert is the documented one exactly when the buffer is clean, or holds a record at most one behind the insertion point, or one that equals the record before it |
| StaleBuffers.RecordIsOverwritten | src/BitsOfData.c:540-550 | otherwise the record before the buffered one is lost: a copy of the buffered one stands in its place, and nothing else differs |
| Departures.SecondRecordIsLost | src/BitsOfData.c:540-550 | on the engine: setting a value in the last of three records and inserting after the first loses the second |
| Departures.DeletedRecordIsShown | src/BitsOfData.c:520-531 | on the engine: reading the second of three records and deleting it leaves it in the buffer under the number of the third |
| Departures.OneSlotHasBit | src/RecordStore.c:112-133 | on a device with one table of one record the stored slot has a bit exactly when it is below 8 or none |
| Departures.SlotHasNoBit | src/RecordStore.c:221-305 | such a device is opened whatever the slot is, and from slot 8 on a bit behind the bitmap is marked |
| Departures.CodedSearchIsRightIff | src/BitsOfData.c:445-449 | the coded search for references answers as documented exactly when another record refers through a column that is no self reference, or a self reference from another record exists just in case the record refers to itself through another column |
| Departures.DeleteResolvesIff | src/BitsOfData.c:520-531 | after deleting a record all references resolve exactly when it was not the last of its table or no other record referred to it |
| Departures.CodedDeleteResolvesIff | src/BitsOfData.c:445-531 | after a delete that the coded search allows, all references resolve exactly when the record was not the last of its table or no other record referred to it through a self reference |
| Departures.StaleReferenceDenotesNext | src/BitsOfData.c:445-531 | a reference to a deleted record that still resolves denotes the record that stood behind it |
| Departures.ReferencedRecordIsFree | src/BitsOfData.c:445-449 | a record that another one refers to and that the code allows to delete |
| LostReference.ReferenceIsLost | src/BitsOfData.c:392-531 | a run of two tables whose calls are all legal and whose reopening leaves a reference without its record |
| LostReference.ReferenceIsLostOnDevice | src/BitsOfData.c:392-531 | the same on the engine: insert, set and sync a reference, set it back unsynced, delete its former target, close and open |
| TemplateParser.Parser.StoreText | src/TemplateLanguage.c:52-60 | completes the current token as text and marks the next as invalid; fails when no token is left |
| TemplateParser.Parser.StoreOperand | src/TemplateLanguage.c:63-80 | stores operator and value of a tag or right-hand side |
| TemplateParser.Parser.InStartTag | src/TemplateLanguage.c:132-175 | one round in a tag's first characters is one step of the machine |
| TemplateParser.Parser.InLeftHandSide | src/TemplateLanguage.c:215-234 | one round in the left-hand side of a test, operators of one and two characters included, is one step of the machine |
| TemplateParser.Parser.ParseFormat | src/TemplateLanguage.c:96-283 | accepts and produces the tokens exactly as the machine over the rest of the string specifies, and tells whether the code wrote past its array |
| TemplateCorrectness.ParserIsCorrect | src/TemplateLanguage.c:96-283 | a template is accepted exactly when it is not empty and within 20 tokens and 255 characters; then the tokens are those it compiles to; the code writes past the array exactly when it uses all tokens and ends with a conditional |
| TemplateCorrectness.RunIfItem | src/TemplateLanguage.c:148-268 | a conditional yields its test, branches and jump indices as compiled |
| TemplatePrograms.AcceptedIsProgram | src/TemplateLanguage.c:112-281 | for every accepted string: jumps are forward and inside the program, conditionals neither nest nor overlap, right-hand sides follow left-hand sides, and the first invalid token ends the tokens |
| TemplatePrograms.AcceptedTexts | src/TemplateLanguage.c:112-281 | for every accepted string: text tokens are exactly the maximal runs outside tags, in order |
| TemplateConditionals.AcceptedConditionals | src/TemplateLanguage.c:112-281 | for every accepted string, conditional by conditional: the else index is 0 exactly when it has no else, and else and end index are the numbers of tokens before its else tag and its end tag, as counted in the string |
| TemplateEvaluation.ParsedFormatMeans | src/TemplateLanguage.h:19-34 | whatever earlier parses left: running the parsed tokens through their jump indices writes what the template with the offsets left behind means, and that is the template itself exactly when no offset lies under a comparison with the own record |
| TemplateEvaluation.ExecIfItem | src/TemplateLanguage.h:28-34 | a conditional runs the branch its test selects and goes on behind its end |
| TemplateEvaluation.ParseDependsOnEarlier | src/TemplateLanguage.c:83-87 | the parse of a template is independent of earlier parses exactly when it compares nothing |
| TemplateEvaluation.OffsetIsLeftBehind | src/TemplateLanguage.c:112-123 | an offset left by an earlier parse turns a comparison with the own record into one with the next |
| FormatInterpreter.WriteRecordWithFormat | src/BitsOfData.c:1015-1212 | the scanning loop writes what its machine specifies, padded with spaces to the buffer size; it fails where the machine does and where the text is longer than the buffer |
| FormatInterpreter.InRightHandSide | src/BitsOfData.c:1143-1177 | one round in the right-hand side of a test is one step of the machine |
| InterpreterRuns.SkipEnds | src/BitsOfData.c:1006-1191 | a skip ends exactly at its own tag; an end tag does not end a skip to else |
| InterpreterRuns.RunIf | src/BitsOfData.c:1119-1201 | a conditional with an else, or whose test holds, writes exactly its selected branch: the raw scans land behind the else and end tags |
| InterpreterRuns.InterpreterWritesPieces | src/BitsOfData.c:1015-1212 | what the interpreter writes for every template: a failed test without else skips to the next else of whatever conditional |
| InterpreterRuns.InterpreterWritesMeaning | src/BitsOfData.c:1015-1212 | an orderly template is written as it means |
| InterpreterRuns.InterpreterWritesMeaningIff | src/BitsOfData.c:1015-1212 | for every template and record: the text is what the template means exactly when, behind the first failing conditional without else, the text from the next else branch on is what all items there mean |
| InterpreterRuns.LostUnlessEmpty | src/BitsOfData.c:1179-1201 | where no else follows there, exactly when these items mean the empty text |
| InterpreterCorrectness.ScannedIffOrderly | src/BitsOfData.c:1179-1201 | item by item the output is what the template means exactly when each failing conditional without else is last or followed by one whose else branch is what it means |
| InterpreterRuns.LostText | src/BitsOfData.c:1179-1184 | {?&0==$1}a{;}b writes nothing where the test fails |
| Simulation.ScanningIsParsing | src/BitsOfData.c:1015-1212 | scanning a format writes what running the tokens of its parse writes, both spellings being at most 255 characters long |
| Simulation.CompleteTemplatesAgree | src/BitsOfData.c:1015-1212 | for templates whose conditionals all compare and have an else the two agree on every record |
| Simulation.ParseAndWrite | src/BitsOfData.c:1015-1212 | the two loops on the two spellings of one template: the scanning one writes, padded, the text of the parsed tokens |
| WriteColumns.Writer.WriteInteger | src/WriteColumns.c:56-72 | the field is the decimal numeral aligned right, cut on the left or filled; the rest of the buffer is unchanged; a failed assert changes nothing |
| WriteColumns.Writer.WriteHex | src/WriteColumns.c:75-92 | the field is the hexadecimal numeral in the width of the maximum, with leading zeros; the rest of the buffer is unchanged |
| WriteColumns.Writer.WriteDecimal | src/WriteColumns.c:96-119 | the field shows the digits before and behind the point; the rest of the buffer is unchanged |
| WriteColumns.Writer.WriteTxt | src/WriteColumns.c:122-130 | the text aligned left and padded; where the buffer ends the assert fails, after one byte has been written behind it |
| WriteColumns.Writer.WriteChar | src/WriteColumns.c:133-137 | one character of the set at the cursor; with a full buffer it is written behind it before the assert fails |
| WriteColumns.Writer.SetCursorPosition | src/WriteColumns.c:44-47 | the cursor moves exactly when the position lies in the buffer |
| WriteColumns.ReadField | src/WriteColumns.c:56-92 | reading a field back, blanks ignored, gives the value modulo base^width |
| WriteColumns.DecimalReadsBack | src/WriteColumns.c:96-119 | reading a decimal field back, point and blanks ignored, gives the value modulo 10^(width - 1) |
| WriteColumns.IntegerReadsBack | utils/MathUtils.h:32-38 | in the width of the maximum no digit of an integer is cut off |
| WriteColumns.HexReadsBack | src/WriteColumns.c:77-81 | in the width of the maximum no hexadecimal digit is cut off |
| WriteColumns.DecimalColumnReadsBack | src/BitsOfData.c:881-889 | in the width that a decimal column gets no digit is cut off |
| CallLaws.SetValueLaw | src/BitsOfData.c:689-719 | BDB_setValue accepts exactly the values between minimum and current maximum on a declared step, in columns with data that name no child; then the value stands in its cell and every other cell is as before, except that a new record type brings its declared defaults; otherwise nothing changes |
| CallLaws.ChangeValueLaw | src/BitsOfData.c:722-747 | for every change: the cell becomes the old value plus delta declared steps, as a signed 16-bit number, limited to minimum and current maximum; every other cell is as before; true is returned exactly when that differs from the old value |
| CallLaws.ChangeIsClamped | src/BitsOfData.c:722-747 | without overflow and with limits on one side of 0x8000 this is addition, clamped to minimum and current maximum |
| CallLaws.AcceptedMayStandIff | src/BitsOfData.c:574-590 | data is accepted exactly when its real columns are a complete record whose references all exist |
| CallLaws.SetRecordLaw | src/BitsOfData.c:574-625 | BDB_setRecord accepts exactly data of a defined type whose real columns are legal values; then these are the record and every other record is as before |
| CallLaws.InsertLaw | src/BitsOfData.c:540-550 | BDB_insertRecordAfter inserts exactly while the table is not full; the record behind the given one then has the declared defaults of the first type, and its number above the minimum in child columns |
| CallLaws.InsertMoves | src/BitsOfData.c:495-510 | every other cell after an insert: records behind move up by one, references to them are raised by one, nothing else changes |
| CallLaws.DeleteLaw | src/BitsOfData.c:463-531 | BDB_deleteRecord deletes exactly when another record remains and no reference of another record to this table holds its number |
| CallLaws.DeleteMoves | src/BitsOfData.c:477-492 | every other cell after a deletion: records behind move down by one, references to them are lowered by one, nothing else changes |
| CallLaws.InitialLaw | src/BitsOfData.c:327-333 | every table of a new database has one record, with the declared defaults of its first type |
| CallLaws.ImportCountLaw | src/BitsOfData.c:750-769 | BDB_importTable counts the records up to the first that is not complete or has a reference that does not resolve at that point |
| CallLaws.ImportedCompletelyIff | src/BitsOfData.c:750-769 | data is imported completely exactly when each record is complete, its references to other tables resolve, and those to its own table lie below k + 1 in record k |
| CallLaws.VirtualShowsReferenced | src/BitsOfData.c:657-686 | a virtual column shows what the column it names shows of the record that the reference denotes |
| ApiLaws.SetThenGet | src/BitsOfData.c:672-719 | BDB_setValue then BDB_getValue: every legal value is accepted and comes back |
| ApiLaws.ChangeThenGet | src/BitsOfData.c:672-747 | BDB_changeValue then BDB_getValue: the clamped sum is shown, and true is returned exactly when it differs from the old value |
| ApiLaws.InsertThenGet | src/BitsOfData.c:540-550 | BDB_insertRecordAfter then BDB_getValue: the new record shows the declared default of every column, and its number above the minimum in a child column |
| ApiLaws.SetTypeThenGet | src/BitsOfData.c:689-719 | BDB_setValue of a record type then BDB_getValue of another column: its declared default in that type |
| ApiLaws.SetRecordThenGet | src/BitsOfData.c:615-635 | BDB_setRecord then BDB_getRecord: every legal record is accepted and its real columns come back |
| ApiLaws.CreateThenGet | src/BitsOfData.c:327-361 | BDB_openDataBase on a device without a store, then BDB_getValue: the declared default of every column |
| ApiLaws.ImportThenGet | src/BitsOfData.c:750-769 | BDB_importTable then BDB_getValue: data whose records may all be imported arrives completely and unchanged |
| ApiLaws.GetThroughReference | src/BitsOfData.c:657-686 | BDB_getValue of a virtual column equals BDB_getValue of the column and record that its reference leads to |
| CallLaws.TypeIsColumn0 | src/BitsOfData.c:105-125 | where a table has several record definitions, a record is of the one in its column 0 |
| ParentRecords.ParentListLaw | src/BitsOfData.c:269-283 | entry k of the list is the last record whose child is minValue + k, or 0xFF when there is none |
| StoreLayout.RecordByteLaw | src/RecordStore.c:406-410 | byte i of record r stands at data address + (entry r of the index) * record size + i |
| StoreLayout.CatalogByteLaw | src/RecordStore.c:374-396 | byte 0 counts the tables; byte 6t + 1 and on are index address and data address of table t, low byte first, its record size and its number of slots |
| CodecLaws.EncodedBitLaw | src/RecordCodec.c:58-93 | bit i of column c is bit (sum of the widths before c) + i of the bytes, most significant first, of the number of steps above the minimum |
| CodecLaws.PaddingLaw | src/RecordCodec.c:90-93 | the bits behind the last column are zero |
| CodecLaws.ColumnBitsIsLeast | src/RecordCodec.c:26-32 | a column gets the least number of bits that hold the number of steps between its limits |
| FormatLaws.ComparisonLaws | utils/MathUtils.h:42-62 | the six comparisons: exactly one of less, equal and greater holds, greater is less with sides exchanged, the other three are their negations, and less means that a positive number is missing |
| FormatLaws.NumberLaw | src/BitsOfData.c:999-1003 | a further digit makes the number ten times as large and adds its value |
| FormatLaws.NumeralIsNumber | src/BitsOfData.c:999-1003 | every number is read from its decimal numeral |
| FormatLaws.PlainText | src/BitsOfData.c:1029-1040 | a format without braces is written as it is |
| FormatLaws.TagLaws | src/BitsOfData.c:1042-1117 | the spelled tags for column, record number, number of records and parent, with o, x and +, are replaced by the rendering of that value with those flags, text around them stays |
| FormatLaws.LiteralChoice | src/BitsOfData.c:1119-1150 | for each of the six spelled operators: the first branch of a conditional is written exactly when column and literal are so related, else the second |
| FormatLaws.ColumnChoice | src/BitsOfData.c:1167-1177 | the same with another column |
| FormatLaws.RecordChoice | src/BitsOfData.c:1152-1165 | the same with the record's own number, and with the next in 8 bits |
| FormatLaws.PaddedLaw | src/BitsOfData.c:1209-1212 | the text is followed by spaces up to the size of the buffer |
| TokenLaws.TextTokenLaw | src/TemplateLanguage.c:112-135 | a format without braces is one text token |
| TokenLaws.TagTokenLaw | src/TemplateLanguage.c:136-215 | each spelled tag is one value token with its kind, number and flags |
| TokenLaws.ChoiceTokenLaw | src/TemplateLanguage.c:136-283 | a spelled conditional with each operator and each kind of right-hand side: the test with column and jump indices, the right-hand side, and the two branches where they stand in the format |
| FieldLaws.DigitIsPrinted | src/WriteColumns.c:86-88 | the sixteen digits |
| FieldLaws.NumberFieldLaw | src/WriteColumns.c:56-92 | the character j places from the right is the digit for base^j where the number reaches that far or j is 0, else the fill |
| FieldLaws.DecimalFieldLaw | src/WriteColumns.c:96-119 | the same with the point: digits without fill behind it, the number without its last digits before it |
| FieldLaws.TextFieldLaw | src/WriteColumns.c:122-130 | the characters of the text, then spaces |
| FieldLaws.WidthsAreLeast | utils/MathUtils.h:33-39 | decimal and hexadecimal widths are the least that hold the maximum |

## Left out

- Database.Database.ChangeValue: requires, for columns in steps of more than one, that the scaled delta and the sum stay within int16, because beyond that the code wraps around to values off the step.
- Database.Database.ImportTable: requires that every record of the data has a defined type; calls on the table that an import leaves behind after an invalid record are not modelled, because nobody has written its last slot.
- Database.Database.SyncTable: requires a record in the buffer, because the code passes the number of no record to the store, where an assert fails.
- Database.Database.CreateDataBase: requires a stored table count that differs from the schema's, because rows of an invalid catalog with the same count are not cleared before tables are created.
- Database.Database.GetValue: does not resolve a virtual column through a reference declared as a self reference, because the code then looks up table 255.
- Database.Database.ValidateRecord: requires a defined record type; Database.SetRecord rejects other data before.
- Database.Database.PutRecord: as ValidateRecord.
- Database.Database.GetMaxValue: takes the schema's maximum for TXT_LIST_COPY columns, because text lists are not modelled.
- Database.Database.InsertRecordAfterAsCoded: writes the defaults before it renumbers references, as the documented insert does.
- Database.Database.InsertRecordAfter: requires that all references resolve, likewise changing values; after a reopening that has lost a reference only reading and setting are modelled.
- Database.Database.DeleteRecord: as InsertRecordAfter.
- Database.Database.DeleteRecordAsCoded: as InsertRecordAfter; it searches as documented, and what the coded search lets through is stated by Departures.CodedSearchIsRightIff.
- ApiLaws.ChangeThenGet: as Database.Database.ChangeValue; CallLaws.ChangeValueLaw states every change.
- ApiLaws.InsertThenGet: as InsertRecordAfter.
- ApiLaws.CreateThenGet: as CreateDataBase.
- FormatLaws.LiteralChoice: the branches are plain text; InterpreterRuns.InterpreterWritesPieces states all branches.
- TokenLaws.ChoiceTokenLaw: the branches are plain text and not empty; TemplateCorrectness.ParserIsCorrect states all branches.
- StoreOpening.CheckAcceptsLayouts: requires that the stored sizes fit the device, because the running address of the check wraps around at 16 bits beyond it.
- WriteColumns.Writer.WriteInteger: requires that the cursor stays below 256, because the code's position wraps around there.
- WriteColumns.Writer.WriteHex: as WriteInteger.
- WriteColumns.Writer.WriteDecimal: as WriteInteger.
- FormatInterpreter.WriteRecordWithFormat: formats of at most 255 characters; the text of values is a parameter, so a number that ends exactly at the end of the write buffer is accepted, where the assert of SetCursorPosition fails.
- Format strings of more than 255 characters are rejected by the parser model; the code's 8-bit index wraps around when a two-character tag ends at character 256.
- Column type TXT_LIST_COPY: its maximum comes from another table's text list (with a fixed 4 on import); the model takes the schema's maximum. Text lists and their rendering are uninterpreted.
- IntStep is taken below 128 and all reads to lie on the device; the EEPROM drivers, page reads and dump functions are not part of this model.
- The addresses of shared buffers that BDB_getRecord and rs_getRawRecord return: the methods return values, so a caller that keeps such an address across calls is not modelled.
- BDB_importTable empties a table without looking at references from other tables; referential integrity is stated for the other calls.
- BDB_openDataBase builds the parent list of an existing database even when there is no parent table; opening is modelled without it, and the list has its own method. In the code the list is also rebuilt after inserts, deletes and imports.
- The buffer that a rejected BDB_setRecord leaves empty, and reading virtual columns of the array that BDB_getRecord returns.
- Recursive rendering of references (writeValue) over schemas whose display columns form a cycle.
- The C operators << >> & | on the 32-bit buffer are functions on natural numbers that are cut to 32 bits where the code stores them.
- Memory allocation, RecordWriter.c, BDB_getNumColumnsInFormat, BDB_writeHeader, BDB_writeRecord and plain getters.
