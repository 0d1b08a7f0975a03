# Verified models of the sync engine's state-changing cores

Stripe data flows from a source, which lists objects and receives webhooks, through newline-delimited JSON
messages to a destination, a Google Sheets tab or a Postgres schema. This project models the parts of that
system that keep state across messages, pages, crashes or batches, and proves what they promise.

- **Google Sheets** (`Sheet*.dfy`). A tab is a list of rows; pasting overwrites exactly the listed cells. One
  `write()` buffers rows with in-batch deduplication, reads the tab (whole, or a prefix of columns), turns
  appends of known keys into updates, drops stale ones, cancels deletes against appends, donates appends into
  deleted rows, fills the other deleted rows from the tail, blanks the tail, groups the updates into pastes and
  plans the growth of the grid. `SheetLayout` is the index arithmetic of compaction, `SheetTable` the flushed
  tab and the keyed table it should refine, `SheetStages` the tab after each single update, `SheetFlush` and
  `SheetWriter` the loops and the classes, `SheetUnread` the tab after a flush whose read failed, `SheetFailures`
  concrete tabs on which the code loses data.
- **Postgres** (`PostgresUpsert`, `PostgresRun`, `PostgresCuts`, `PostgresTables`, `PostgresResume`,
  `PostgresWriter`). The upsert statement and its newer-than check, the batch write, the buffering state machine
  over whole runs, where an oracle decides which flushes fail and where, the batches it sends, the tables these
  runs leave, and what a second run from a checkpoint makes of them.
- **Rate limiters** (`RateLimiter`, `PgRateLimiter`). The token bucket that may go into debt, over reals.
- **Backfill** (`TimeRanges`, `Backfill`, `SequentialRuns`). Reconciling the remaining ranges with a new time
  window, resumable cursor pagination with prefetching, and when the state such a run saves is honest.
- **Migrations** (`Migrations`, `MigrationStarts`). The runner as a sequence of atomic statements, any of which
  may be the last one before a crash, and what it makes of any schema it finds.
- **OpenAPI parser** (`SpecGraph`, `SpecColumns`, `SpecTables`, `SpecValues`). The depth-first traversal of a
  cyclic schema graph with shared seen-sets, column types as least upper bounds, and the JSON values they hold.
- **Streams and queues** (`Text`, `Ndjson`, `Queues`, `WebhookQueue`). The whole-text and the streaming NDJSON
  parser, the async queue and the webhook input queue.

Code that updates its state is a class or a method with its loops, proved against a function; the functions
carry the theorems.

## What the proofs turned up

These hold of the code as it is. Each has a lemma with a concrete input or an exact condition.

- A tail row that fills a deleted slot loses a newer row buffered for it in the same batch: its values come
  from the read before the flush (`SheetFailures.UpdateOfDonorIsLost`).
- A tail row that was read shorter than the row it replaces leaves that row's last cells in place, because
  donor values are not padded (`SheetFailures.ShortDonorKeepsOldCells`).
- A key that holds a newline, a carriage return or the paste delimiter is changed by the paste, so it is never
  found again and every write appends its record anew (`SheetRows.StoredKeyIff`,
  `SheetTable.UncleanKeyIsAppendedAgain`, `SheetMessages.UncleanKeyNeverShows`).
- These three are all that can go wrong in a flush whose read succeeds. The exact condition, for any tab and any
  keys, is `SheetTable.RefinesIffCleanSwaps`; when the tail rows that move carry their stamps it can be told
  before the flush (`SheetTable.RefinesIffSafe`, `SheetMessages.WriteRefinesIffSafe`). One row per key remains if
  and only if the new rows are shown under keys of their own (`SheetTable.KeyedIffShownApart`).
- Rows of donated appends are reported even when the flush then fails, and all these reports are false
  (`SheetWriter.DonatedReportsFalseAfterFailure`); there is one exactly when the batch deletes a key of the tab
  and appends a new one (`SheetWriter.DonatedIff`).
- When the read before a flush fails, nothing is looked up or deleted, and every buffered row is pasted below the
  rows that a probe of the first column counts; rows that it misses are overwritten
  (`SheetUnread.UnreadAppendsIff`), and known keys appear a second time (`SheetUnread.KeyedIffAllNew`).
- Stamps that mix numbers and other text can beat each other in a circle (`SheetRows.MixedStampsCycle`). A set of
  stamps is in one order if and only if no three of them are tangled like that (`SheetRows.OrderedIffOrderly`).
- An existing row without a stamp always gives way. An incoming record whose stamp is the empty text is stale
  against every stamp if and only if no stamp reads as a smaller number than the empty text does
  (`SheetRows.BlankIsLeastIff`).
- A comment says that the pastes of one batch target distinct rows (`writer.ts:1878-1880`). They do not when a
  row is updated twice; the order of execution is what keeps the result right, and
  `SheetPaste.SortedPastesPreserveMeaning` needs no distinctness.
- In Postgres, records of equal stamp can make the result depend on their order
  (`PostgresUpsert.EqualStampsKeepFirst`); order never matters if and only if each written key has one greatest
  record (`PostgresUpsert.OrderIrrelevantIff`). A live record after a delete of its key is lost if both are in
  one batch (`PostgresUpsert.LiveAfterTombstoneIsLost`), and only then, batch after batch
  (`PostgresUpsert.TombstoneBatches`, `PostgresTables.BatchesOneByOne`). The final table does not depend on the
  batches if and only if the keys that the stream deletes end deleted (`PostgresTables.BatchingNeverMattersIff`).
- A fault between upsert and delete leaves keys that should be gone, and a failed stream some records written
  and others not; sending everything since the last yielded state again makes up for both
  (`PostgresResume.ResumeFromCheckpoint`).
- The limiter keeps its rate exactly when no single call costs more than a second's worth
  (`RateLimiter.RateKeptIff`).
- Reconciled ranges are exact if and only if the old and the new window overlap or touch
  (`TimeRanges.ExactIffTouching`).
- A sequential backfill declares its range done when a limit stops it early (`Backfill.CoversRestIff`); what it
  then saves is honest if and only if it got to the last page (`SequentialRuns.FinishedHonestIff`).
- It also reads and saves only the first of the remaining ranges. A run that is cut off before its first
  checkpoint saves nothing and forgets nothing; later it is honest if and only if it had no instant outside that
  range to read (`SequentialRuns.SequentialHonestIff`). After a window grew and moved on, the second range is
  forgotten (`SequentialRuns.SecondRangeIsForgotten`); chains of runs that keep the guard forget nothing
  (`SequentialRuns.GuardedChainForgetsNothing`).
- The recorded name of a migration leaves out its number and must be unique, so two files that differ in their
  number alone never both apply and no run completes (`Migrations.CompletesIff`). A migration with a low id
  that is added to the list late runs last (`Migrations.LateMigrationRunsLast`); a completed run leaves its list in
  id order if and only if the list starts with the one recorded before (`Migrations.LaterListIff`).
- A first run, over a schema that holds other things, that is cut off after it created its table, but before its first migration, makes the next run drop
  the whole schema with whatever else it held, because the table is empty
  (`MigrationStarts.CutOffRunDropsContent`, `CrashKeepsBaseIff`).
- A property whose schema names no type becomes a text column. That holds all that the schema describes if and
  only if it lists scalars and null only (`SpecValues.IrregularLeafHoldsIff`).
- A second call of the input queue's `wait` takes the place of a first one that still waits, which then never
  gets an input (`NoInputFor`, established by `WebhookQueue.InputQueue.Wait` and kept by every method).

## Model

| member | source | states |
|---|---|---|
| SheetWriter.Write | packages/destination-google-sheets/src/index.ts:802-960 | one whole `write()`, for any keys: on success the tab is the flushed tab, or, after a failed read, the old tab with every buffered row pasted below the counted rows, and every held-back state is emitted; on a refused record or a failed flush the tab is untouched and no state is emitted. After a read the header row stays, and the tab stays keyed if and only if the write shows its new rows under keys of their own; a key is reported exactly if it was appended, its row holds its values, and shows the key if and only if a paste keeps it; the tab refines the keyed table if and only if the pastes keep the keys and every tail swap is clean. After a failed flush every reported row is false, and some row is reported if and only if an append was donated |
| SheetMessages.WriteRefinesTable | packages/destination-google-sheets/src/index.ts:574-760 | after a write, for any keys, every key holds its committed row (existing row and all incoming rows, minus deleted keys) if and only if the pastes keep every key that the write does not delete and every tail swap is clean |
| SheetMessages.WriteKeepsNewest | packages/destination-google-sheets/src/index.ts:129-136 | what a clean write leaves under a key of its undeleted records, by the stamps alone: the row with the greatest number among the existing row, a blank below all, and the incoming ones, or the last text, ties going to the existing row and then to the first to arrive; without a newer field the last record |
| SheetMessages.WriteReplacesBlank | packages/destination-google-sheets/src/index.ts:129-136 | after a clean write a row without a stamp never survives a live, undeleted record of its key, and the row left has a stamp if a record has one |
| SheetMessages.KeysKeptIff | packages/destination-google-sheets/src/index.ts:873-908 | what the buffer holds has kept keys if and only if the records have |
| SheetMessages.WriteRefinesIffSafe | packages/destination-google-sheets/src/index.ts:690-716 | when its donors carry their stamps, that holds if and only if the pastes keep the keys and no tail donor has an update in the buffer or a row in its slot that is longer than itself |
| SheetMessages.StampedTabStampedDonors | packages/destination-google-sheets/src/index.ts:690-716 | in a tab whose rows all carry their stamps, so do the donors of any write |
| SheetMessages.WriteKeepsStamped | packages/destination-google-sheets/src/index.ts:574-760 | a tab whose rows all carry their stamps is still one after any write of records that do |
| SheetMessages.UncleanKeyNeverShows | packages/destination-google-sheets/src/writer.ts:1770-1782 | a record whose key holds a newline, a carriage return or the paste delimiter is committed under that key and never shown there |
| SheetMessages.RunRefinesTable | packages/destination-google-sheets/src/index.ts:802-960 | over any number of writes, with any keys, the tab shows the committed table after every one if and only if every write is clean |
| SheetMessages.WriteKeepsKeyed | packages/destination-google-sheets/src/index.ts:574-760 | a write keeps the header row, and one row per key if and only if it shows its new rows under keys of their own, which it does when its pastes keep the keys |
| SheetMessages.NewestStays | packages/destination-google-sheets/src/index.ts:129-136 | with a newer field whose stamps are in one order, the row kept for a key is not beaten by its existing row nor by any incoming one, and it wins ties against whatever came after it; a record without a stamp is older than all with one |
| SheetMessages.NewestByStamps | packages/destination-google-sheets/src/index.ts:129-136 | so it is the greatest number, or the last text, among the stamps |
| SheetMessages.BlankGivesWay | packages/destination-google-sheets/src/index.ts:131-131 | a row without a stamp gives way to the first record of its key |
| SheetMessages.PendingThenStored | packages/destination-google-sheets/src/index.ts:873-908 | deduplicating in the buffer and comparing with the sheet once is the same as storing the rows one by one |
| SheetMessages.BufferedHoldsPending | packages/destination-google-sheets/src/index.ts:873-908 | the buffer holds, for each key, exactly the survivor of that key's rows |
| SheetMessages.BufferedInOrder | packages/destination-google-sheets/src/index.ts:873-908 | and keeps its keys in the order in which they first came, whichever row replaces which |
| SheetMessages.UpsertsAppend | packages/destination-google-sheets/src/index.ts:873-908 | the rows of a key are taken in the order of the messages |
| SheetMessages.StatesAppend | packages/destination-google-sheets/src/index.ts:914-916 | and states are released in that order |
| SheetMessages.DeletedIff | packages/destination-google-sheets/src/index.ts:868-869 | the deleted keys are exactly those of delete records |
| SheetRows.NewerTransitive | packages/destination-google-sheets/src/index.ts:129-136 | on stamps without a tangled triple, blanks included if no number is below what a blank reads as, "strictly newer" is transitive |
| SheetRows.NotNewerTransitive | packages/destination-google-sheets/src/index.ts:129-136 | and so is its negation, so such stamps are totally preordered |
| SheetRows.OrderedIffOrderly | packages/destination-google-sheets/src/index.ts:129-136 | "newer" and its negation are transitive on a set of stamps if and only if no other text stands, as text, strictly between two numbers of which the textually greater is not the numerically greater |
| SheetRows.MixedStampsCycle | packages/destination-google-sheets/src/index.ts:129-136 | three stamps that mix numbers and other text, are tangled, and beat each other in a circle |
| SheetRows.NewerMeans | packages/destination-google-sheets/src/index.ts:129-136 | any stamp replaces a blank; two numbers go by value; everything else goes by text |
| SheetRows.LexLessIff | packages/destination-google-sheets/src/index.ts:135-135 | by text means: a proper beginning, or smaller at the first character that differs |
| SheetRows.BlankIsLeastIff | packages/destination-google-sheets/src/index.ts:129-136 | a blank beats no stamp if and only if, when it reads as a number, no stamp reads as a smaller one |
| SheetRows.StoredIsDataRow | packages/destination-google-sheets/src/index.ts:850-857 | what a paste leaves of a record with a clean stamp is a data row with that stamp, and with the key of the record if and only if no key cell holds a delimiter |
| SheetRows.StoredCellIff | packages/destination-google-sheets/src/writer.ts:1765-1769 | a pasted cell, a stamp for instance, reads as it was if and only if it holds no delimiter |
| SheetRows.StoredKeyIff | packages/destination-google-sheets/src/writer.ts:1770-1782 | a pasted row still has the key of its record if and only if no key cell holds a newline, a carriage return or the paste delimiter |
| SheetRows.DataRowPastesAsItself | packages/destination-google-sheets/src/writer.ts:1767-1782 | a stored row survives being read and pasted again |
| SheetTable.RefinesIffCleanSwaps | packages/destination-google-sheets/src/index.ts:669-720 | the flushed tab shows the expected row for every key if and only if a paste keeps the key of every append that is not deleted in the batch, and the slot of each tail donor ends with the intended row |
| SheetTable.FlushedKeys | packages/destination-google-sheets/src/index.ts:574-760 | the keys of the flushed tab, for any appends, are exactly the old ones that were not deleted and those that the new appends show |
| SheetTable.KeptKeys | packages/destination-google-sheets/src/index.ts:574-760 | with keys that a paste keeps, they are exactly the old and appended keys that were not deleted |
| SheetTable.KeyedIffShownApart | packages/destination-google-sheets/src/index.ts:574-760 | the flushed tab still has one row per key if and only if the new appends are shown under keys that no surviving row and no other new append has |
| SheetTable.FlushKeepsRows | packages/destination-google-sheets/src/index.ts:574-760 | it always has the same header row, and data rows without a gap below it |
| SheetTable.KeptIsApart | packages/destination-google-sheets/src/index.ts:597-621 | keys that a paste keeps are shown apart |
| SheetTable.CleanUnlessDonorUpdated | packages/destination-google-sheets/src/index.ts:706-716 | a swap into a slot no longer than the donor is clean if and only if the donor has no buffered update |
| SheetTable.CleanIfDonorLongEnough | packages/destination-google-sheets/src/index.ts:706-716 | a swap of a donor without update is clean if and only if the row in the slot is no longer than the donor |
| SheetTable.LongDonorsRefine | packages/destination-google-sheets/src/index.ts:669-720 | when no slot is longer than its donor the flush refines the keyed table if and only if the keys are kept and no donor has a buffered update |
| SheetTable.StampedSwapIff | packages/destination-google-sheets/src/index.ts:706-716 | the swap of a donor that carries a stamp is clean if and only if the donor has no buffered update and the row in the slot is no longer than the donor |
| SheetTable.RefinesIffSafe | packages/destination-google-sheets/src/index.ts:669-720 | a flush whose donors carry their stamps refines the keyed table if and only if the keys are kept, no donor has a buffered update and no slot is longer than its donor |
| SheetTable.FlushKeepsStamped | packages/destination-google-sheets/src/index.ts:574-760 | a flush of stamped rows into a tab whose rows all carry their stamps leaves such a tab |
| SheetTable.PendingUpdateChanges | packages/destination-google-sheets/src/index.ts:602-619 | a buffered update changes its row exactly when the incoming row is newer |
| SheetTable.AppendAtHome | packages/destination-google-sheets/src/index.ts:675-688 | in a tab that stays keyed every append is looked up under the key that it shows, which is its own if and only if a paste keeps it |
| SheetTable.AppendStands | packages/destination-google-sheets/src/index.ts:675-688 | every append stands where the layout puts it, whatever its key |
| SheetTable.NewsAppend | packages/destination-google-sheets/src/index.ts:597-621 | the new appends keep the order of the buffer |
| SheetTable.UncleanKeyIsAppendedAgain | packages/destination-google-sheets/src/index.ts:597-621 | a record whose key holds a delimiter is not found in any tab that pastes made, so it is appended again |
| SheetTable.UncleanKeyBreaksTable | packages/destination-google-sheets/src/index.ts:597-621 | and a batch that appends it, and does not delete it, never leaves the expected table |
| SheetFailures.UpdateOfDonorIsLost | packages/destination-google-sheets/src/index.ts:706-716 | three rows on which a delete of the first loses a newer row for the last: the flushed tab shows the old one, where the new one is expected |
| SheetFailures.ShortDonorKeepsOldCells | packages/destination-google-sheets/src/index.ts:710-713 | a donor shorter than the deleted row shows the last cell of that row, where its own blank is expected |
| SheetLayout.SlotsMatchDonors | packages/destination-google-sheets/src/index.ts:696-705 | deleted slots outside the last K rows number exactly the donated appends plus the tail survivors |
| SheetLayout.BlankedFits | packages/destination-google-sheets/src/index.ts:691-696 | the last K rows never include the header row |
| SheetLayout.SurvivorPlaced | packages/destination-google-sheets/src/index.ts:696-716 | every surviving row ends above the blanked rows: in place, or moved into a slot |
| SheetLayout.FreshPlaced | packages/destination-google-sheets/src/index.ts:678-688 | every pending append ends in a donated slot or right below the old rows |
| SheetLayout.PlacedOnce | packages/destination-google-sheets/src/index.ts:669-720 | every final position holds one survivor or append, and is its home |
| SheetLayout.PlacedAll | packages/destination-google-sheets/src/index.ts:669-720 | as a multiset the final positions hold exactly the survivors and the appends |
| SheetLayout.DonationTarget | packages/destination-google-sheets/src/index.ts:678-688 | donated slots are the lowest deleted rows, below the header and never in the last K rows |
| SheetLayout.SwapTarget | packages/destination-google-sheets/src/index.ts:706-716 | the i-th surplus slot takes the i-th tail survivor; neither overlaps the other's region |
| SheetLayout.BottomPlaced | packages/destination-google-sheets/src/index.ts:781-790 | appends that are not donated go below the last row, and only when nothing is blanked |
| SheetStages.LastStageIsCompacted | packages/destination-google-sheets/src/index.ts:669-720 | after the last buffered update the rows above the blanked region are the final rows and nothing remains below |
| SheetStages.AppendCompletes | packages/destination-google-sheets/src/writer.ts:1981-2003 | pasting the remaining appends right below the old last row completes the flushed tab |
| SheetFlush.ConvertAppends | packages/destination-google-sheets/src/index.ts:597-621 | appends of keys in the sheet become updates if newer and are dropped if not; the others remain |
| SheetFlush.CancelPending | packages/destination-google-sheets/src/index.ts:643-656 | a delete and a pending append of its key cancel out |
| SheetFlush.DeleteRowNumbers | packages/destination-google-sheets/src/index.ts:658-667 | the marked rows are exactly the data rows whose key is deleted |
| SheetFlush.DonateAppends | packages/destination-google-sheets/src/index.ts:669-688 | pending appends fill the lowest deleted rows in order and their new rows are recorded |
| SheetFlush.SurvivorDonors | packages/destination-google-sheets/src/index.ts:696-700 | the donors are the unmarked rows of the tail, ascending |
| SheetFlush.SwapTail | packages/destination-google-sheets/src/index.ts:690-721 | tail survivors fill the other slots and every tail row is blanked |
| SheetFlush.HandleDeletes | packages/destination-google-sheets/src/index.ts:643-747 | the updates leave exactly the compacted rows; the appends left over are those not donated |
| SheetFlush.PrepareFlush | packages/destination-google-sheets/src/index.ts:574-756 | from read to buffered updates and appends for one stream |
| SheetFlush.BatchUpdateFlushes | packages/destination-google-sheets/src/writer.ts:1933-2003 | updates followed by the append block give the flushed tab |
| SheetFlush.SurplusSplits | packages/destination-google-sheets/src/index.ts:691-705 | the surplus deletes split into body slots, matching the donors, and tail rows |
| SheetWriter.SheetTab.BatchUpdate | packages/destination-google-sheets/src/writer.ts:2045-2048 | all requests of a batch are executed in order, or none |
| SheetWriter.ApplyBatch | packages/destination-google-sheets/src/writer.ts:1933-2003 | one batch update: all pastes in order, or nothing if it fails |
| SheetWriter.AssignBottom | packages/destination-google-sheets/src/index.ts:781-790 | the appends at the bottom are reported at consecutive rows, and earlier reports stay |
| SheetWriter.BottomAssigned | packages/destination-google-sheets/src/index.ts:781-790 | after the donated appends these complete the report of all new rows |
| SheetWriter.UnreadReports | packages/destination-google-sheets/src/index.ts:781-790 | after a failed read every buffered key is reported, with its values if the header was counted, and under its key if and only if a paste keeps it |
| SheetWriter.AssignmentsTrue | packages/destination-google-sheets/src/index.ts:781-790 | a key is reported if and only if it was appended; the reported row of the flushed tab holds its values, and is the row of that key if and only if a paste keeps the key |
| SheetWriter.DonatedReportsFalseAfterFailure | packages/destination-google-sheets/src/index.ts:953-960 | after a failed flush every row reported for a donated append is false, and one is reported if and only if an append was donated |
| SheetWriter.DonatedIff | packages/destination-google-sheets/src/index.ts:669-688 | an append is donated if and only if the batch deletes a key of the tab and appends one that is new |
| SheetWriter.WriteBuffers.AcceptUpsert | packages/destination-google-sheets/src/index.ts:873-908 | a record replaces the pending one of its key if newer, through an index that stays exact |
| SheetWriter.IndexFits | packages/destination-google-sheets/src/index.ts:873-908 | buffering through the index is buffering by search |
| SheetWriter.WriteBuffers.AcceptDelete | packages/destination-google-sheets/src/index.ts:868-869 | a delete is buffered with its key |
| SheetWriter.WriteBuffers.AcceptState | packages/destination-google-sheets/src/index.ts:914-916 | states are held back in order |
| SheetReads.BuildRowMapFromRows | packages/destination-google-sheets/src/writer.ts:1620-1642 | each key maps to the last row that holds it |
| SheetReads.BuildRowMapFromPkColumns | packages/destination-google-sheets/src/writer.ts:1648-1665 | the same from a header-less prefix of columns |
| SheetReads.LastRowsOfKeyedTab | packages/destination-google-sheets/src/writer.ts:1620-1642 | on a keyed tab the map is exactly the row of each key |
| SheetReads.NarrowReadShowsAllRows | packages/destination-google-sheets/src/index.ts:533-545 | a prefix read that includes the key shows every data row |
| SheetReads.NarrowReadAgrees | packages/destination-google-sheets/src/index.ts:588-616 | narrow and full read give the same keys, row count and staleness decision for every row |
| SheetReads.ReadForFlush | packages/destination-google-sheets/src/index.ts:526-545 | whichever read is chosen, the row map and row count are those of the tab; with deletes it is the full one |
| SheetUnread.ProbeSeesAllRows | packages/destination-google-sheets/src/writer.ts:1836-1869 | after a failed read the first column is probed, and when it belongs to the key the probe counts every row |
| SheetUnread.UnreadRow | packages/destination-google-sheets/src/writer.ts:1981-2003 | each row after the flush that follows a failed read: rows that were not counted are overwritten, all others stay |
| SheetUnread.UnreadAppendsIff | packages/destination-google-sheets/src/index.ts:564-569 | the buffered rows stand below the old ones if and only if there is none or all old rows were counted |
| SheetUnread.KeyedIffAllNew | packages/destination-google-sheets/src/index.ts:564-569 | if they do, the tab stays keyed if and only if they show keys that are new and distinct |
| SheetUnread.AllNewIff | packages/destination-google-sheets/src/index.ts:564-569 | with keys that a paste keeps, if and only if no buffered key was in the tab |
| SheetUnread.DeletedKeysStay | packages/destination-google-sheets/src/index.ts:564-569 | and whatever was to be deleted is still there |
| SheetGrid.OverlayCell | packages/destination-google-sheets/__tests__/memory-sheets.ts:286-290 | the cells of a paste overwrite exactly their columns, and what stands to their right stays |
| SheetGrid.OverlayIsPasteIff | packages/destination-google-sheets/__tests__/memory-sheets.ts:286-290 | a pasted row replaces the old one if and only if the old one is no longer |
| SheetGrid.RowAfterPasteAll | packages/destination-google-sheets/src/writer.ts:1939-1968 | a row's final content is the overlay of the updates addressed to it, in their order |
| SheetGrid.SameForEveryRow | packages/destination-google-sheets/src/writer.ts:1939-1968 | update lists that agree row by row leave the same tab |
| SheetPaste.TsvRoundTrip | packages/destination-google-sheets/src/writer.ts:1771-1782 | parsing the pasted text gives back the rows, sanitized and trimmed |
| SheetPaste.RowsToTsv | packages/destination-google-sheets/src/writer.ts:1771-1782 | the two loops produce exactly that text |
| SheetPaste.SortKeepsRowOrder | packages/destination-google-sheets/src/writer.ts:1941-1941 | the sort keeps the order of updates to one row |
| SheetPaste.SortedPastesPreserveMeaning | packages/destination-google-sheets/src/writer.ts:1939-1968 | applying the sorted updates leaves the tab of applying them in buffer order, duplicates included |
| SheetPaste.FindGroupEnd | packages/destination-google-sheets/src/writer.ts:1943-1950 | a group is a longest run of consecutive rows |
| SheetPaste.PasteRun | packages/destination-google-sheets/src/writer.ts:1951-1964 | one paste has the effect of the updates of its group |
| SheetPaste.GroupUpdates | packages/destination-google-sheets/src/writer.ts:1939-1968 | the paste requests, executed in order, have the effect of the buffered updates, with no two groups that could be one |
| SheetGridPlan.FitHolds | packages/destination-google-sheets/src/writer.ts:1889-1896 | the projected grid holds every paste |
| SheetGridPlan.FitIsExact | packages/destination-google-sheets/src/writer.ts:1889-1926 | and asks for no more: columns grow just to the widest payload row, and rows only when a touched one is missing, to the last touched row and the buffer of 1,000 |
| SheetGridPlan.PayloadIsCounted | packages/destination-google-sheets/src/writer.ts:1986-1989 | the payload of appends is counted cell by cell |
| SheetGridPlan.UpdatesAreCounted | packages/destination-google-sheets/src/writer.ts:1952-1957 | and so is that of updates |
| SheetGridPlan.ExactStep | packages/destination-google-sheets/src/writer.ts:1898-1926 | one stream's expansion requests take its grid exactly to the projected size and leave the others alone |
| SheetGridPlan.PlanExpansions | packages/destination-google-sheets/src/writer.ts:1886-1926 | all requests together take each grid exactly to its projected size |
| SheetGridPlan.PlannedFits | packages/destination-google-sheets/src/writer.ts:1886-1926 | after the expansions every update and append lies inside its grid |
| SheetGridPlan.TotalAfter | packages/destination-google-sheets/src/writer.ts:2029-2035 | the projected total is the total after the expansions |
| SheetGridPlan.CountCells | packages/destination-google-sheets/src/writer.ts:1952-1992 | the counted payload cells |
| SheetGridPlan.GridCells | packages/destination-google-sheets/src/writer.ts:2029-2035 | current and projected totals |
| SheetGridPlan.PlanGrid | packages/destination-google-sheets/src/writer.ts:1886-2048 | the batch is refused exactly when it breaks a cap; otherwise every paste fits and, with grid metadata, the total stays within 10,000,000 cells |
| PostgresUpsert.UpsertFailsIff | packages/util-postgres/src/upsert.ts:179-222 | the statement fails if and only if some row is inserted or updated twice |
| PostgresUpsert.WriteFailsIff | packages/destination-postgres/src/index.ts:82-98 | a batch fails, without a fault, exactly when a live record lacks its stamp or a written row is hit again, and then the table is as before |
| PostgresUpsert.LivesAre | packages/destination-postgres/src/index.ts:93-94 | the batch splits into its live records and the keys of its tombstones |
| PostgresUpsert.DistinctKeysSucceed | packages/util-postgres/src/upsert.ts:179-222 | a batch without a repeated key never fails that way |
| PostgresUpsert.UpsertStats | packages/util-postgres/src/upsert.ts:303-316 | created rows are the growth of the table, and created and updated rows are the affected ones, no more than the batch has |
| PostgresUpsert.NoopCheckIsImplied | packages/util-postgres/src/upsert.ts:189-210 | the no-op check never decides when there is a newer-than check |
| PostgresUpsert.UpsertIsApplyAll | packages/util-postgres/src/upsert.ts:179-222 | a successful statement has the effect of storing its records one by one |
| PostgresUpsert.BatchingIrrelevant | packages/destination-postgres/src/index.ts:104-136 | the table does not depend on how records are split into successful batches |
| PostgresUpsert.NewestStays | packages/util-postgres/src/upsert.ts:206-210 | each key ends with a row of the greatest stamp among its existing and incoming rows |
| PostgresUpsert.OrderIrrelevant | packages/util-postgres/src/upsert.ts:206-210 | when each key that is written has one greatest record, the order and repetition of the records do not matter |
| PostgresUpsert.OrderIrrelevantIff | packages/util-postgres/src/upsert.ts:206-210 | every list of the same records gives the same table if and only if each written key has one greatest record among those newer than its row |
| PostgresUpsert.ReplayChangesNothing | packages/util-postgres/src/upsert.ts:206-210 | writing records again that were written changes nothing |
| PostgresUpsert.EqualStampsKeepFirst | packages/util-postgres/src/upsert.ts:206-210 | with equal stamps the first record stays, so order matters |
| PostgresUpsert.TombstoneBatches | packages/destination-postgres/src/index.ts:82-98 | a batch with deletes equals record-by-record processing if and only if no live record follows a delete of its key |
| PostgresUpsert.LiveAfterTombstoneIsLost | packages/destination-postgres/src/index.ts:82-98 | a live record after a delete of its key is lost in one batch and kept in two |
| PostgresTables.BatchesOneByOne | packages/destination-postgres/src/index.ts:82-98 | a sequence of batches equals record-by-record processing after each of them if and only if deletes are final in each |
| PostgresTables.BatchesAgree | packages/destination-postgres/src/index.ts:82-98 | a key that ends deleted if it is ever deleted comes out as record by record, however the records are batched |
| PostgresTables.BatchingNeverMattersIff | packages/destination-postgres/src/index.ts:82-98 | records that also pass as one batch leave the table of record-by-record processing under every batching if and only if their deletes are final |
| PostgresTables.StreamIsOneByOne | packages/destination-postgres/src/index.ts:476-539 | a stream without a failed flush ends with the table of its records one by one if deletes are final in each written batch, and it is that table after every batch only then |
| PostgresTables.BatchSizeIrrelevant | packages/destination-postgres/src/index.ts:476-539 | when the deletes of the stream are final, that is its deleted keys end deleted, its final table is that of its records one by one, whatever the batch size |
| PostgresTables.NoRevivalBatchSizeIrrelevant | packages/destination-postgres/src/index.ts:476-539 | in particular when no record of the stream revives a deleted key |
| PostgresResume.BrokenOffLeaves | packages/destination-postgres/src/index.ts:82-98 | wherever a fault strikes a batch, the table is what some first part of the records sent leaves, but for keys that this part deletes |
| PostgresResume.ReplayReaches | packages/destination-postgres/src/index.ts:82-98 | sending that part again, and whatever follows, makes up for the difference |
| PostgresResume.ResumeFromCheckpoint | packages/destination-postgres/src/index.ts:506-523 | at any point after a stream state was yielded, failed or not, the table with all records since that state sent again is the table at that state with those records |
| PostgresResume.ResumedRunCompletes | packages/destination-postgres/src/index.ts:476-539 | a run that failed or was interrupted, and a second one with everything since a yielded state, leave the table that the second one leaves of the table at that state, whatever the batch sizes |
| PostgresRun.StepKeepsInv | packages/destination-postgres/src/index.ts:478-527 | one message keeps the run invariant: written batches and buffer together are the accepted records, the buffer is below the batch size, a failed stream has no buffer |
| PostgresRun.RunKeepsInv | packages/destination-postgres/src/index.ts:478-527 | so does every run, whichever flushes fail |
| PostgresRun.RecordsAppend | packages/destination-postgres/src/index.ts:478-505 | the records of a stream are taken in the order of the messages |
| PostgresRun.StatePassesAfterItsRecords | packages/destination-postgres/src/index.ts:506-523 | when a stream state is yielded, the records of that stream before it were all written, in order and once |
| PostgresRun.FailureEndsStream | packages/destination-postgres/src/index.ts:461-463 | a failed flush is followed by exactly one error status, and by no write, record or state of that stream |
| PostgresRun.PassedInOrder | packages/destination-postgres/src/index.ts:505-525 | messages pass in order, none twice |
| PostgresRun.WholeRunAllowed | packages/destination-postgres/src/index.ts:476-539 | the whole run with its final flush obeys these rules |
| PostgresRun.RunningStreamComplete | packages/destination-postgres/src/index.ts:529-539 | a stream that never failed has every record written and every message passed, each of its batches succeeded, and its table is that of its batches |
| PostgresRun.FailedMatchesLog | packages/destination-postgres/src/index.ts:406-467 | a stream is marked failed if and only if one of its flushes failed |
| PostgresRun.FlushNamesFinishes | packages/destination-postgres/src/index.ts:529-539 | the final flush empties the named buffers and keeps the rules |
| PostgresCuts.BatchesAreCuts | packages/destination-postgres/src/index.ts:478-539 | the batches sent for a stream are its records cut after every batch-size of them, at its states and at the end: all of these cuts if the stream never fails, and else those up to the one that failed |
| PostgresCuts.BatchEnds | packages/destination-postgres/src/index.ts:494-523 | each such batch is not empty, and has the batch size or ends at a state of its stream or at the end of the input |
| PostgresCuts.ShortBatchAtState | packages/destination-postgres/src/index.ts:494-539 | so a batch below the batch size is sent only at a stream state of its stream or in the final flush, and none is larger |
| PostgresCuts.CutKeepsRecords | packages/destination-postgres/src/index.ts:494-505 | less than a batch is ever held back |
| PostgresWriter.Writer.FlushStream | packages/destination-postgres/src/index.ts:409-467 | `flushStream`: the new state, and an error exactly when the stream fails now |
| PostgresWriter.Writer.OnRecord | packages/destination-postgres/src/index.ts:479-505 | a record message |
| PostgresWriter.Writer.OnStreamState | packages/destination-postgres/src/index.ts:506-523 | a stream state message |
| PostgresWriter.Writer.FlushRemaining | packages/destination-postgres/src/index.ts:529-539 | the final flush over the stream names in order of first record |
| PostgresWriter.Write | packages/destination-postgres/src/index.ts:476-539 | the loop over all messages is the specified run; streams that did not fail have every record written, and each stream is sent the batches that the batch size and its states cut |
| RateLimiter.InMemoryRateLimiter.Acquire | packages/source-stripe/src/rate-limiter.ts:25-39 | one call: refill from the first clock reading, deduct, and the wait, with a second clock reading stored; the bucket is always that of the calls so far; the call waits exactly when it and some calls before it cost more than a full bucket and its refill between them, and as long as the greatest such excess takes |
| RateLimiter.WaitIsLeast | packages/source-stripe/src/rate-limiter.ts:25-39 | the same of any call of a limiter that starts full |
| RateLimiter.StartsAscend | packages/source-stripe/src/rate-limiter.ts:25-39 | with a clock that does not go back, start times (call plus wait) do not go back |
| RateLimiter.CostBetween | packages/source-stripe/src/rate-limiter.ts:25-39 | the cost from one call to a later one is at most the refill between their starts plus one burst or the first cost |
| RateLimiter.WindowBound | packages/source-stripe/src/rate-limiter.ts:25-39 | in any window the starting cost is at most the refill of its length plus one burst, or the largest cost if greater |
| RateLimiter.RateKeptIff | packages/source-stripe/src/rate-limiter.ts:25-39 | every window of w seconds starts at most max_rps * (w + 1) if and only if no call costs more than max_rps |
| RateLimiter.LimiterKeepsRate | packages/source-stripe/src/rate-limiter.ts:19-39 | the same of any limiter object and the calls it has served |
| RateLimiter.BoundReached | packages/source-stripe/src/rate-limiter.ts:25-39 | the bound cannot be lowered |
| PgRateLimiter.Limiter.Acquire | packages/util-postgres/src/rateLimiter.ts:97-126 | the atomic statement and the wait computed from its result, which is the wait of an in-memory limiter for that key after the same requests, and so as long as the greatest excess of the key takes to refill |
| PgRateLimiter.RowsSimulate | packages/util-postgres/src/rateLimiter.ts:99-112 | after any interleaving of keys, each row is the bucket of an in-memory limiter that was called for that key alone |
| PgRateLimiter.SameWait | packages/util-postgres/src/rateLimiter.ts:116-126 | the two ways to compute the wait agree |
| PgRateLimiter.WaitsRefine | packages/util-postgres/src/rateLimiter.ts:97-126 | every call returns the wait of the in-memory limiter fed the same readings and costs, the inserting first call included |
| PgRateLimiter.LastWaitRefines | packages/util-postgres/src/rateLimiter.ts:97-126 | the same of the latest request after any others |
| PgRateLimiter.LastWaitIsLeast | packages/util-postgres/src/rateLimiter.ts:97-126 | the wait told is the least one that the calls of the key require |
| TimeRanges.ReconcileRanges | packages/source-stripe/src/src-list-api.ts:204-234 | the loop computes the reconciled ranges |
| TimeRanges.ReconciledCovers | packages/source-stripe/src/src-list-api.ts:204-234 | exactly which instants the result covers, for any windows |
| TimeRanges.NothingLost | packages/source-stripe/src/src-list-api.ts:204-234 | it covers at least what remained inside the new window and what is new in it |
| TimeRanges.ExactIffTouching | packages/source-stripe/src/src-list-api.ts:224-231 | it covers exactly that, for every remaining list, if and only if the windows overlap or touch |
| TimeRanges.ReconciledShape | packages/source-stripe/src/src-list-api.ts:204-234 | ranges stay disjoint and inside the new window |
| TimeRanges.CursorKeepsItsRange | packages/source-stripe/src/src-list-api.ts:216-221 | a kept cursor still belongs to a range that starts where its old range started |
| TimeRanges.RangeIsKept | packages/source-stripe/src/src-list-api.ts:209-222 | every remaining range that meets the new window is in the result, cut to it, with its cursor if its start is not cut off, and without it otherwise |
| TimeRanges.ResultComesFrom | packages/source-stripe/src/src-list-api.ts:209-231 | and every range of the result is one of those, or new territory without a cursor |
| TimeRanges.SelectsExactly | packages/source-stripe/src/src-list-api.ts:496-528 | a fresh start, or an older format of state, asks for the whole window, and an unchanged window for just what remains |
| TimeRanges.RunKeepsAccounted | packages/source-stripe/src/src-list-api.ts:496-528 | one run that saves an honest state, or none, keeps every instant of the accounted window read or remaining |
| TimeRanges.NoInstantForgotten | packages/source-stripe/src/src-list-api.ts:496-528 | after any chain of such runs and window changes, cut off anywhere, the next run asks for every instant of its window, whatever window, that has not been read |
| Backfill.PaginateSequential | packages/source-stripe/src/src-list-api.ts:345-455 | with prefetching, the loop sends the requests and emits the output of the plain form |
| Backfill.CheckpointIsPrefix | packages/source-stripe/src/src-list-api.ts:420-447 | in every mode, at each checkpoint the items emitted are a part of the listing from the start, which goes exactly to the saved cursor if one is saved; where nothing is said to remain it goes to the end if and only if the run got to the last page |
| Backfill.RemainsIff | packages/source-stripe/src/src-list-api.ts:393-438 | a checkpoint says that something remains exactly when cursors are honoured, the listing goes on and the items so far are fewer than the limit, so the run stops at the first page that reaches it |
| Backfill.SavedCursorIs | packages/source-stripe/src/src-list-api.ts:393-417 | the saved cursor is the page cursor if there is one, else the id of the last item emitted |
| Backfill.RequestsFollowCursors | packages/source-stripe/src/src-list-api.ts:374-392 | one request from the start and one from every cursor saved, for 100 items where the endpoint takes a limit |
| Backfill.PlainRequest | packages/source-stripe/src/src-list-api.ts:374-376 | without forward pagination there is one request, without a cursor or a limit |
| Backfill.DoneIsLast | packages/source-stripe/src/src-list-api.ts:448-454 | after the checkpoint that nothing remains only the completion status follows |
| Backfill.SavedPrefix | packages/source-stripe/src/src-list-api.ts:434-447 | the same for a run cut off anywhere |
| Backfill.RunIsGood | packages/source-stripe/src/src-list-api.ts:374-454 | a resumed run confirms a part of the listing from its start, exactly up to its last saved cursor if and only if it stops well: it saves a cursor, or it got to the last page |
| Backfill.ResumesCoverListing | packages/source-stripe/src/src-list-api.ts:374-454 | under any limit, a chain of interrupted runs confirms a part of the listing without gap or repetition, exactly up to what remains if and only if every run stops well |
| Backfill.ChainStopsWell | packages/source-stripe/src/src-list-api.ts:374-454 | they do without a limit, and as long as something remains |
| Backfill.EndsDone | packages/source-stripe/src/src-list-api.ts:448-454 | a run that is not interrupted ends with an empty remainder and a completion status |
| Backfill.CompletedChain | packages/source-stripe/src/src-list-api.ts:374-454 | a chain whose last run is not interrupted leaves nothing, and confirms the whole rest of the listing if and only if every run stops well |
| Backfill.CoversRestIff | packages/source-stripe/src/src-list-api.ts:393-438 | under a limit, or without cursors, an uninterrupted run covers the rest if and only if it gets to the last page |
| SequentialRuns.AlwaysHonestIff | packages/source-stripe/src/src-list-api.ts:434-447 | whatever the times of the items, what a run leaves is honest if and only if the whole listing was read or it drops no instant that remained |
| SequentialRuns.SequentialHonestIff | packages/source-stripe/src/src-list-api.ts:345-455 | a sequential run in any mode, cut off anywhere, is honest if and only if it saves nothing, or everything was read before, or it saves a cursor and all there was to read is in the first remaining range, or it saves that nothing remains and got to the last page |
| SequentialRuns.FinishedHonestIff | packages/source-stripe/src/src-list-api.ts:393-447 | a run that is not cut off saves that nothing remains, honestly if and only if it got to the last page |
| SequentialRuns.GuardedChainForgetsNothing | packages/source-stripe/src/src-list-api.ts:496-528 | if that guard holds of every run, then after any chain of sequential runs with changing windows and limits, cut off anywhere, the next one asks for every instant of its window that has not been read |
| SequentialRuns.SecondRangeIsForgotten | packages/source-stripe/src/src-list-api.ts:607-623 | a grown window leaves two ranges, of which the sequential path reads and saves only the first; when the window then moves on, nothing is left to read |
| Migrations.SortOrders | packages/state-postgres/src/migrate.ts:103-113 | any list is sorted by id with equal ids in their order: same migrations, ids not descending, and the migrations of each id as listed |
| Migrations.SortAscends | packages/state-postgres/src/migrate.ts:103-113 | distinct ids come out strictly ascending |
| Migrations.PendingIsRest | packages/state-postgres/src/migrate.ts:259-260 | after a recorded prefix exactly the rest of the list is pending, in order |
| Migrations.CrashIsRecoverable | packages/state-postgres/src/migrate.ts:208-269 | at every step, and so wherever a run crashes, a prefix of the list was run and recorded in id order |
| Migrations.CompletedRunFinishes | packages/state-postgres/src/migrate.ts:208-269 | a completed run leaves the schema of running the whole list once in id order |
| Migrations.CrashRecovery | packages/state-postgres/src/migrate.ts:180-279 | from an absent schema, any crashed runs of append-only lists and one completed run do |
| Migrations.DoneIsStable | packages/state-postgres/src/migrate.ts:259-262 | a further run changes nothing and completes |
| Migrations.NothingUndone | packages/state-postgres/src/migrate.ts:221-229 | once a migration is recorded no step undoes or repeats one |
| Migrations.CompletesIff | packages/state-postgres/src/migrate.ts:157-178 | a run completes if and only if it is not cut short and no pending migration repeats a recorded or earlier name |
| Migrations.ModifiedIsRefused | packages/state-postgres/src/migrate.ts:247-256 | a run is refused exactly when a recorded file migration other than the initial one has another hash than the listed one, and then changes nothing |
| Migrations.ResetStartsOver | packages/state-postgres/src/migrate.ts:237-245 | when the first migration changed, a completed run leaves just the new list, whatever was there |
| Migrations.CompletedCoversList | packages/state-postgres/src/migrate.ts:234-269 | from any schema a completed run has every listed id recorded |
| Migrations.OnlyPendingRun | packages/state-postgres/src/migrate.ts:259-267 | a completed run adds exactly the unrecorded migrations, after everything run before |
| MigrationStarts.AnySchemaCompletes | packages/state-postgres/src/migrate.ts:208-269 | from any schema, with the table of an old release, an empty one, markers or no table, a completed run leaves what it builds on followed by exactly the migrations that are not applied, or, when migration 0 differs, the new list alone |
| MigrationStarts.LegacyIsTakenOver | packages/state-postgres/src/migrate.ts:52-65 | the table of an old release is taken over with all that it records, and only the rest is run |
| MigrationStarts.ContentIsKept | packages/state-postgres/src/migrate.ts:208-269 | while rows are recorded in either table and migration 0 is unchanged, what was run stays at every crash point |
| MigrationStarts.PreparedIsBase | packages/state-postgres/src/migrate.ts:208-231 | the state in which the applied migrations are read, for every schema |
| MigrationStarts.CrashKeepsBaseIff | packages/state-postgres/src/migrate.ts:208-231 | a crash during the preparation changes nothing that the next run builds on, unless it comes right after the table was created in a schema that holds something |
| MigrationStarts.CutOffRunDropsContent | packages/state-postgres/src/migrate.ts:216-231 | a first run that is cut off there makes the next one drop the schema with all that it held, which an uninterrupted run keeps |
| MigrationStarts.OutcomeIs | packages/state-postgres/src/migrate.ts:234-269 | how a run over any schema ends: by the hashes, ids and names in the table and in the list |
| MigrationStarts.RefusedRunKeepsBase | packages/state-postgres/src/migrate.ts:247-256 | a refused run has changed nothing that a run builds on |
| MigrationStarts.PendingAre | packages/state-postgres/src/migrate.ts:259-260 | the pending migrations are exactly the listed ones whose id is not recorded, in ascending order |
| MigrationStarts.PendingIffNotApplied | packages/state-postgres/src/migrate.ts:234-260 | a listed migration is run exactly if no row but a marker has its id |
| MigrationStarts.FilesAre | packages/state-postgres/src/migrate.ts:234-236 | rows whose name starts with the marker prefix do not count |
| MigrationStarts.InitialChangedIff | packages/state-postgres/src/migrate.ts:237-240 | migration 0 counts as changed exactly if its applied row has another hash |
| MigrationStarts.AcceptedIffNoRepeats | packages/state-postgres/src/migrate.ts:157-178 | a list is run to its end exactly if it repeats no id or name of the table and no name of its own |
| Migrations.LaterListIff | packages/state-postgres/src/migrate.ts:259-267 | a completed run over what an earlier list left gives the schema of its own list in id order if and only if that list starts with the earlier one |
| Migrations.LateMigrationRunsLast | packages/state-postgres/src/migrate.ts:259-267 | with migrations 0 and 2 recorded, migration 1 of a later list runs after 2 |
| Migrations.RunRecovers | packages/state-postgres/src/migrate.ts:180-279 | a run over the list as given, in any order, keeps the schema recoverable for the sorted list, and leaves that list run once in id order if it completes |
| Migrations.Database.Execute | packages/state-postgres/src/migrate.ts:52-72 | one atomic statement, which may be the one the run does not reach |
| Migrations.Database.CleanupSchema | packages/state-postgres/src/migrate.ts:67-72 | drop and create, with the state between them |
| Migrations.Database.Prepare | packages/state-postgres/src/migrate.ts:214-231 | create, rename a legacy table, reset an empty one, ensure the table |
| Migrations.Database.RunPending | packages/state-postgres/src/migrate.ts:264-267 | pending migrations one transaction at a time, up to one that is rejected |
| Migrations.Database.CheckHashes | packages/state-postgres/src/migrate.ts:247-256 | the loop over the recorded hashes |
| Migrations.Database.Continue | packages/state-postgres/src/migrate.ts:233-269 | reset, hash check or pending migrations |
| Migrations.Database.RunMigrations | packages/state-postgres/src/migrate.ts:180-279 | one run with its crash point: the state and outcome of the specified steps, from a recoverable schema a recoverable one, and the full schema if it completes |
| SpecGraph.Collector.Collect | packages/openapi/specParser.ts:629-672 | with the shared seen-sets, a visit adds each reachable unseen schema once and gathers its properties in order; it ends on any cyclic graph |
| SpecGraph.CollectPropertyCandidates | packages/openapi/specParser.ts:629-672 | it fails exactly when something reachable does not resolve; otherwise it visits exactly the reachable schemas, each once |
| SpecGraph.ResolvesIff | packages/openapi/specParser.ts:674-694 | a reference resolves to an object exactly when following components from it gets there; a chain that comes back never does |
| SpecGraph.VisitIsExact | packages/openapi/specParser.ts:642-646 | visited and reachable coincide |
| SpecGraph.CandidatesAreExact | packages/openapi/specParser.ts:648-671 | the candidates of a name are exactly its values in the reachable schemas |
| SpecGraph.GatheredAre | packages/openapi/specParser.ts:648-671 | the same for the schemas of any visit |
| SpecGraph.FailureIsUnresolved | packages/openapi/specParser.ts:674-694 | a failed visit names a reachable member that does not resolve |
| SpecGraph.ClosedHoldsReachable | packages/openapi/specParser.ts:659-669 | a set closed under composition holds all that is reachable |
| SpecGraph.PushProperties | packages/openapi/specParser.ts:655-657 | a schema's own properties, per name in order |
| SpecGraph.PushAll | packages/openapi/specParser.ts:663-667 | candidates found below go after those found so far |
| SpecColumns.MergeIsJoin | packages/openapi/specParser.ts:561-570 | the type merge is idempotent, commutative and associative |
| SpecColumns.MergeWidens | packages/openapi/specParser.ts:561-570 | the merge is the least type above both in the order json above text above the others, numeric above bigint |
| SpecValues.BelowIffHolds | packages/openapi/specParser.ts:561-570 | a type is below another exactly when the other holds every value that it holds |
| SpecColumns.JoinIsLeast | packages/openapi/specParser.ts:150-154 | merging two columns gives their least upper bound |
| SpecColumns.InferAllIsLeast | packages/openapi/specParser.ts:539-559 | a list of candidates merges to the least upper bound of their types, and fails only if one has no type |
| SpecColumns.OrderIrrelevant | packages/openapi/specParser.ts:539-559 | neither the order nor the repetition of candidates matters |
| SpecColumns.InferColumn | packages/openapi/specParser.ts:539-559 | the loop with its three accumulators, the empty list included |
| SpecTables.ParseColumns | packages/openapi/specParser.ts:517-537 | the columns are the unreserved names with their merged types |
| SpecTables.SchemaColumns | packages/openapi/specParser.ts:126-130 | the columns of one schema are the least upper bounds over all it reaches, or an error exactly when something does not resolve or has no type |
| SpecTables.MergeColumns | packages/openapi/specParser.ts:140-155 | merging one more schema into a table |
| SpecTables.MergedIs | packages/openapi/specParser.ts:140-155 | keeps every column the least upper bound of what all schemas offer |
| SpecTables.ParseTables | packages/openapi/specParser.ts:114-158 | the tables are exactly those fed by a schema, with exactly the columns their schemas offer; it fails exactly when a schema does not parse |
| SpecValues.ParsedColumnFits | packages/openapi/specParser.ts:539-609 | for candidates that name a type, have properties or list booleans or numbers: the types that hold every value the candidates describe are exactly the type of the column and those above it, and the column is nullable if and only if null is described |
| SpecValues.ParsedColumnHolds | packages/openapi/specParser.ts:539-613 | whatever the candidates, the column holds every scalar and null that they describe, and so everything, if and only if it is JSON or no array or object is described |
| SpecValues.ExpandableIff | packages/openapi/specParser.ts:539-559 | a column is expandable if and only if one of its candidates is |
| SpecValues.AllowedIsDescribed | packages/openapi/specParser.ts:572-587 | what a schema allows when all its keywords count, with exactly one of `oneOf`, some of `anyOf` and all of `allOf`, is among what the parser takes it to describe |
| SpecValues.TypeFits | packages/openapi/specParser.ts:572-613 | the same for the type inferred from one candidate, through any alternatives |
| SpecValues.TypeHoldsScalars | packages/openapi/specParser.ts:572-613 | an inferred type holds every scalar described |
| SpecValues.LeafFits | packages/openapi/specParser.ts:591-612 | the type of a schema without alternatives |
| SpecValues.IrregularLeafHoldsIff | packages/openapi/specParser.ts:602-613 | a schema that names no type, has no properties and lists no booleans or numbers only becomes nullable text, which holds what it describes if and only if it lists scalars and null only |
| SpecValues.AlternativesAre | packages/openapi/specParser.ts:575-587 | the alternatives of `oneOf` count, else those of `anyOf`, else those of `allOf` |
| SpecValues.CandidatesAreTyped | packages/openapi/specParser.ts:114-158 | when the parse succeeds every candidate of a column has a type |
| SpecTables.SchemaOrderIrrelevant | packages/openapi/specParser.ts:114-158 | two results for the same schemas in different orders are equal |
| Ndjson.ParseNdjson | apps/engine/src/lib/ndjson.ts:2-9 | the whole-text parser: values in order, up to the first line that is not JSON |
| Ndjson.ParseNdjsonChunks | apps/engine/src/lib/ndjson.ts:29-51 | the streaming parser gives the values and the failure of the whole text, however it is cut |
| Ndjson.ChunkArrives | packages/protocol/src/ndjson.ts:7-18 | the buffer and a new chunk give the complete lines and the rest of the text so far |
| Ndjson.FailsIff | apps/engine/src/lib/ndjson.ts:3-8 | parsing fails exactly on a line that is neither blank nor JSON, and keeps the values before the first such line |
| Ndjson.FailsEarly | packages/protocol/src/ndjson.ts:12-17 | a line that is not JSON ends the stream with what came before it |
| Ndjson.YieldedIsPrefix | packages/protocol/src/ndjson.ts:7-18 | what is yielded at any point is a prefix of what the whole text yields |
| Ndjson.WriteThenParse | packages/protocol/src/ndjson.ts:26-29 | values written as lines come back as they were, however the text is cut |
| Ndjson.PaddingIgnored | apps/engine/src/lib/ndjson.ts:4-7 | white space around a line makes no difference |
| Text.SplitAppend | packages/protocol/src/ndjson.ts:8-11 | only the last, unfinished line can change when more text arrives |
| Text.SplitJoin | packages/destination-google-sheets/src/writer.ts:1771-1782 | splitting undoes joining when no piece holds the separator |
| Queues.AsyncQueue.Push | packages/logger/src/index.ts:98-103 | an item goes to the first waiter, or is queued, or is dropped after closing |
| Queues.AsyncQueue.Close | packages/logger/src/index.ts:105-111 | every waiter is told the end, first come first |
| Queues.AsyncQueue.Next | packages/logger/src/index.ts:118-128 | a call takes an item, or learns of the end, or waits |
| Queues.AsyncQueue.Return | packages/logger/src/index.ts:129-132 | closes the queue |
| Queues.QueueAnswers | packages/logger/src/index.ts:94-96 | items and waiters never coexist, and call n has the answer of its number |
| Queues.AnswersAreFinal | packages/logger/src/index.ts:98-128 | an answer never changes, and a closed queue has answered every call |
| Queues.EveryItemOnce | packages/logger/src/index.ts:98-128 | accepted items go to calls in push order, none twice, none skipped |
| WebhookQueue.InputQueue.Push | packages/source-stripe/src/src-webhook.ts:48-56 | an input goes to the waiting call or to the queue; a call that was displaced or aborted gets none |
| WebhookQueue.InputQueue.Wait | packages/source-stripe/src/src-webhook.ts:58-83 | a queued input is taken even on an aborted signal; a second waiting call takes the place of the first, which from then on gets no input, and only that breaks the one-consumer rule |
| WebhookQueue.InputQueue.Abort | packages/source-stripe/src/src-webhook.ts:73-78 | an aborted call holds no input back and from then on gets none |
| WebhookQueue.InputQueue.DrainOne | packages/source-stripe/src/src-webhook.ts:92-102 | a drain takes the oldest queued input |
| WebhookQueue.NothingLost | packages/source-stripe/src/src-webhook.ts:44-83 | with one consumer, a pending call means that every input was taken |
| WebhookQueue.ReceivedWasPushed | packages/source-stripe/src/src-webhook.ts:44-83 | a call receives the input pushed at its place in the order of taking |

## Left out

Google Sheets

- Several streams in one write: the model has one stream and one tab; streams share only the batch request and the grid cap, and `SheetGridPlan` has them all.
- Several reads of one batch fail together; which streams are read and the `A:A` probe's own retries are given by `readFails` and `probeFails` of `SheetWriter.Write`.
- An explicit `_row_number` in a record, which bypasses the key, and records without any key.
- Discovering and extending headers (`ensureHeadersForRecord`, 398-447): headers are fixed, and rows have their width.
- Enum validation and missing stamps: a record that is refused for whatever reason is the message `Refused`; one whose stamp is the empty text is not refused.
- Keys are lists of the key cells' text, so key values that are not strings but print alike are one key; a blank key is not a key.
- `Number(...)` on stamps is the parameter `num`, and the stream says which stamps occur (`isStamp`). Facts about newer rows are for stamps in one order (`Orderly`), none of which reads as a smaller number than the empty text (`BlankIsLeast`); both are the exact conditions. Stamps hold no newline, carriage return or U+001F.
- SheetWriter.Write: starts from a tab with one row per key. A tab that lost this, after a failed read or through keys that a paste changes, is written to but nothing is stated about it.
- SheetRows.StoredIsDataRow: for stamps that hold no delimiter; `SheetRows.StoredCellIff` says when a cell is kept.
- A paste overwrites with empty cells too, as padded rows rely on; the in-memory fake of the repository's tests drops the last empty cell of a pasted row.
- SheetPaste.GroupUpdates: distinguishes requests by row only, because the column index is always 0.
- A batch that the grid plan refuses (`SheetGridPlan.PlanGrid`) is, for `SheetWriter.Write`, one of the flushes that fail.
- The probe of row counts for streams that need no read, retries and formatting.
- Sheets values are text: number and date recognition by the sheet itself is not modelled.

Postgres

- The global source state, which is passed on without a flush and is no part of the checkpoint claim.
- Shallow merges, guard, volatile and insert-only columns of the upsert builder, which this destination does not use.
- SQL null stamps in the stored column; record stamps that are not numbers make the batch fail.
- PostgresUpsert.UpsertFailsIff: rows are taken in the order given, as the statement does; other SQL errors are the oracle's.
- Retries after a failed connection and the early end of the input.

Limiters and backfill

- Floating-point rounding: balances and clocks are reals.
- Concurrency of the Postgres limiter: the advisory lock makes each call one atomic step, which is what the model has.
- `streamingSubdivide` and everything above the sequential path; `drainQueue` and record stamping between pages.
- Backfill.ResumesCoverListing: for a fixed listing and one mode throughout, with cursors honoured.
- TimeRanges.NoInstantForgotten: for runs that report honestly what they read and what remains. `SequentialRuns` says exactly when sequential runs do; subdividing runs are assumed to.
- Items that are created or change their time while a listing is paged.

Migrations

- A migration's SQL acts on the schema alone and all or nothing; SQL that fails is a run that stops at that step.
- Migrations.CrashRecovery: for lists to which later releases only append; `Migrations.LaterListIff` and `Migrations.OnlyPendingRun` cover other lists.
- File-name parsing, hashing and template rendering: ids, names and hashes are given. The refusal of a split schema configuration.

OpenAPI

- Aliases, allowed tables and resource ids are the parameter `tableOf`; compatibility columns, endpoints and everything else the parser reports.
- Recursion without end, on a chain of references or on a type composed of itself, is the error `Endless`, where the source runs out of stack.
- A bigint column is taken to hold every integer, and which texts are points in time is a parameter; lengths, ranges and patterns of values do not count.
- SpecValues.ParsedColumnFits: for regular candidates; of others the column holds what `SpecValues.ParsedColumnHolds` says, and it need not be the least type, as for a list of numbers and null, which becomes text.
- SpecTables.ParseTables: says whether a parse fails, not which of several errors it reports.

Streams and queues

- JSON itself is a parameter, and so is printing. UTF-8 decoding: chunks are text; bytes left in the decoder at the end are not modelled.
- WebhookQueue.InputQueue.DrainOne: one step of a drain; the processing of the event is left out, other calls may come between steps.
- HTTP, WebSocket, logging, redaction and signature checks.
