# SQLite components: model and proofs

Seven pieces of SQLite are modelled here, each together with the properties it exists for. Code that changes
objects step by step is written as classes and methods with loops, and every such method is proved against a
specification function; what the code promises is then proved about that function.

- **Online backup** (`BackupPages.dfy`, `BackupDest.dfy`, `Backup.dfy`). Files are byte maps, so page sizes of source
  and destination may differ. A `Source` keeps the pager's list of attached backups; `Valid()` says that, after any
  interleaving of steps, source page writes, cuts and changes by other processes, every running backup agrees with the
  source below `iNext` and can still be undone, and every finished one is a copy of the source as it was then. A page, file or
  commit operation succeeds or fails with a code that ends the backup; only taking a lock may report BUSY or LOCKED. For
  page updates the assertion at `src/backup.c:633` demands this; a commit cannot find the destination busy, since that
  was opened with an exclusive transaction (`src/backup.c:356`). An `Os` object may let any such operation fail and
  counts the failures, so that success is promised, and refused, exactly.
- **Bitvec** (`Bits.dfy`, `FanOut.dfy`, `ProbeTable.dfy`, `Bitvec.dfy`, `HashOverflow.dfy`, with arithmetic in
  `Division.dfy`). One node is a bitmap, an open-addressing hash or a fan-out into sub-vectors; the ghost field
  `Contents` is the set it stands for.
- **B-tree mutexes** (`BtMutex.dfy`). A state machine whose steps are the single statements of Enter and Leave, run by
  any number of threads in any order.
- **ANALYZE** (`Stat3.dfy`, `IndexScan.dfy`, `StatText.dfy`). The sampler, the scan loop as an ordinary loop, and the
  text of the statistics with its loader.
- **Complete statements** (`Statements.dfy`, `Complete.dfy`, `Lexemes.dfy`). The scanner against the shapes of
  lexemes, and its eight-state machine against a grammar.
- **CSV** (`CsvFormat.dfy`, `CsvReader.dfy`, `CsvShell.dfy`). The printer, the line reader and the in-place splitter and
  unquoter, on printed and on any other text.
- **Function registry** (`FuncRegistry.dfy`). The linked two-level table and the choice of an overload.
- `CBasics.dfy` holds what they share: 32-bit arithmetic, C strings, letter case, result codes, a counting allocator.

Where code and documentation disagree, the model follows the code:

- A Btree's `locked` flag is documented as "BtShared mutex held"; `unlockBtreeMutex` clears it only after it has left
  the mutex, so two Btrees of one shared B-tree can be flagged at once, and a flagged one can be unwanted while the db
  field is the other connection's. `BtMutex.BothLockedExactly` and `BtMutex.LockedIsWanted` say exactly when,
  `BtMutex.BothLockedReachable` that it can happen whenever two connections share a B-tree. Only the db field has no
  such condition on the thread itself: who owns it after the mutex was left depends on what the others have done since.
- A separator of several characters is compared with the start of the field, not with the position reached
  (`Sqlite3.07.14-run/shell.c:634`). `CsvSeparators.RoundTripsExactly` gives the separators for which printing and
  importing still undo each other.
- On the 61 largest vector sizes the divisor of a Bitvec wraps around to 0 (`FanOut.DivisorUsable`). Such a vector works
  until its hash has to be split; then setting a bit recurses without end. `HashOverflow.ReturnsExactly` says exactly
  when, `HashOverflow.Overflow` gives the bits.
- `sqlite3BtreeCopyFile` is said to roll back whenever anything goes wrong; when the file control fails it leaves the
  transaction open, and only then (`Backup.Source.CopyFile`, with the failing case in
  `Backup.Source.CopyFileLeavesOpen`).
- A lookup of a function finds nothing when the best match is a definition that was deleted, that is left without an
  implementation, even if others would do. `FuncRegistry.LookupFails` says exactly when a lookup finds nothing,
  `FuncRegistry.DeletedHides` gives the input.

## Model

The main results come first; the rows from `Backup.Backup.BackupOnePage` on are the steps they rest on.

| member | source | states |
|---|---|---|
| Backup.Backup.Step | src/backup.c:325-538 | A fatal or DONE result is final and then bytes and size of the destination are kept. Otherwise the step succeeds, with OK or DONE, exactly if no operation failed, the source is not being written, a destination in WAL mode has the same page size, and so has an in-memory one to which a page other than the pending page is to be copied; without a failure it is else BUSY while the source is written, READONLY if not. After OK exactly nPage pages more are copied (counted from 1 after a restart) and the backup is locked and attached; after DONE the destination is a complete copy of the source's size with nothing of the old destination left, the source image is recorded, and the schema version is the old one plus 1; after both nPagecount is the source's size and nRemaining+iNext is nPagecount+1. BUSY and LOCKED change neither the position nor the destination. Every live backup stays in order. |
| Backup.Source.Drive | src/backup.c:49-77 | Any run in which backups are made, stepped and finished between page writes, cuts, transactions and outside changes keeps every live backup in order and leaves failed and finished backups and their destinations, sizes included, alone; in the end every finished one still is the complete copy of the source as it was at the step that finished it. |
| Backup.Source.BackupUpdate | src/backup.c:619-639 | After a page write every live backup, attached or not, agrees with the new source or has failed; unless an operation failed, exactly the running ones end that have copied the page into an in-memory destination of another page size. |
| Backup.Backup.Finish | src/backup.c:543-589 | Before DONE the destination gets back the bytes and the size it had before the backup; after DONE it keeps the copy of the source recorded at the last step. The backup leaves the list and the count. |
| Backup.Source.StepToEnd | src/backup.c:397-405 | Without changes from outside, and with any number of BUSY and LOCKED results in between, DONE comes, with everything that DONE means, after exactly max(1, ceil(n/k)) successful steps of k pages; until then each of them has copied k pages. It does come, in as many calls, if nothing fails, the source is not being written and the destination can take its pages. |
| Backup.Source.CopyFile | src/backup.c:669-717 | It succeeds exactly if nothing fails, the file control included, and the destination can take all pages. The transaction stays open exactly if the file control fails, and then the destination is as before; otherwise success is a complete copy and failure the rolled-back image. |
| Backup.Source.CopyFileLeavesOpen | src/backup.c:678-683 | The failing case: a file control that answers with an I/O error leaves the transaction open. |
| Bitvec.Bitvec.Set | src/bitvec.c:227-298 | OK adds exactly i; out of memory leaves a subset of the old set plus i, and happens only if an allocation failed. It is required only that no hash has to be split whose divisor wraps around. |
| Bitvec.Bitvec.Clear | src/bitvec.c:308-340 | Removes exactly i. |
| Bitvec.Test | src/bitvec.c:186-208 | True exactly for the members; false for a null vector and out of range; at most four descents. |
| Bitvec.BuiltinTest | src/bitvec.c:425-505 | -1 exactly when an allocation failed, otherwise the first bit on which the operations that the program executes leave vector and array different, or 0; so 0 for every terminated program without opcode 5. |
| Bitvec.PlantedFaultFound | src/bitvec.c:448-496 | The fault that the program 5 1 s x 0 plants is reported as s. |
| HashOverflow.ReturnsExactly | src/bitvec.c:246-298 | Where the divisor wraps around to 0, a call returns exactly if it need not rehash; a call that does calls itself without end, however deep. |
| HashOverflow.Overflow | src/bitvec.c:275-292 | The failing case: in a vector of such a size that holds the bits 1 to 62, setting bit 125 never returns while memory lasts. |
| Bitvec.FillToOverflow | src/bitvec.c:227-298 | The failing case is reached: a new vector of the largest size into which the bits 1 to 62 are set cannot take bit 125. |
| Bitvec.AtMostFourDeep | src/bitvec.c:233-241 | No vector that can be built is more than four sub-vectors deep. |
| BtMutex.RunInv | src/btmutex.c:78-156 | In every state of every run, flags, mutexes and db fields match the program points of all threads. |
| BtMutex.NoWaitCycle | src/btmutex.c:122-143 | No reachable state has a cycle of waiting threads. |
| BtMutex.SomeHolderRuns | src/btmutex.c:122-143 | Following the holders from any waiting thread ends at one that holds a mutex and does not wait. |
| BtMutex.OnReturn | src/btmutex.c:107-156 | Between calls every Btree is locked, its mutex held and its db field its own exactly if it is wanted. |
| BtMutex.BothLockedExactly | src/btmutex.c:45-54 | Two Btrees of one shared B-tree are flagged at once exactly if one has left the mutex and not yet cleared its flag while the other has entered, or has also just left. |
| BtMutex.BothLockedReachable | src/btmutex.c:52-53 | Whenever two connections share a B-tree, some run flags both of their Btrees at once; one of them is then unwanted and the db field is the other connection's. |
| BtMutex.CountsBalance | src/btmutex.c:108-155 | Over any run wantToLock is the number of Enters minus the number of Leaves. |
| BtMutex.AllLoopCounts | src/btmutex.c:214-231 | Over any run EnterAll adds one to the count of every sharable Btree of the connection and changes no other, LeaveAll takes one away, whatever other threads do meanwhile. |
| BtMutex.LeaveAllReleases | src/btmutex.c:223-231 | After LeaveAll a Btree that was wanted once is no longer locked, and its mutex not held by the thread. |
| BtMutex.LeaveAllUndoesEnterAll | src/btmutex.c:214-231 | EnterAll followed by LeaveAll restores every count. |
| BtMutex.CallsEnd | src/btmutex.c:78-156 | No livelock: with n Btrees, whatever the others do, a call takes fewer than 5n+5 steps of its thread, and an All loop over m databases fewer than (m+2)(5n+5). |
| BtMutex.NeverStuck | src/btmutex.c:78-156 | A thread inside a call or an All loop that need not wait for a mutex has a next step. |
| BtMutex.EnterAllHoldsAll | src/btmutex.c:214-222 | EnterAll ends with every needed mutex held. |
| Stat3.Stat3Accum.Push | src/analyze.c:351-421 | Records the run with its periodic flag and, at the n-th push, the n-th value of the generator as its hash; the kept samples stay in order, min(mxSample, pushes) many, none of the discarded better than a kept non-periodic one, no periodic one discarded; an empty run changes nothing. |
| IndexScan.ScanIndex | src/analyze.c:601-710 | The scan ends with the row count, the exact number of distinct prefixes of every length, and the maximal runs of equal keys pushed once each in order. |
| IndexScan.SampleAndAverage | src/analyze.c:601-735 | Whatever the rows, the samples kept by a scan are not empty and give a defined average of at least 1. |
| StatText.AnalyzeThenLoad | src/analyze.c:768-780 | What a scan writes is what a load reads: row count first, then non-increasing estimates of at least 1. |
| StatText.LoadsExactly | src/analyze.c:1007-1048 | What a load takes from any text: the longest digit string, as a number on 32 bits, and one space, again and again, until the entries or the text are used up or the rest is the word unordered. |
| Complete.SqlComplete | src/complete.c:104-254 | True exactly if the text is a sequence of lexemes, nothing left open, whose tokens form one or more complete statements; lexemes are given by their shapes, without the scanner. |
| SqlLexemes.TokensExactly | src/complete.c:137-249 | The scanner reads the tokens ts exactly if the text is a sequence of lexemes, each known by its shape alone, whose tokens other than white space are ts. |
| SqlLexemes.BrokenExactly | src/complete.c:153-186 | It gives up exactly if lexemes are followed by a block comment, quote or bracket that is never closed. |
| CompleteMachine.AcceptsExactlyScripts | src/complete.c:112-123 | The table accepts exactly the sequences of statements of the grammar. |
| Complete.TrailingWhiteSpaceIgnored | src/complete.c:143-149 | Appending white space never changes the answer. |
| CsvSeparators.RoundTripsExactly | Sqlite3.07.14-run/shell.c:1855-1902 | Every table comes back from its printed text exactly for the good separators. |
| CsvSeparators.OneCharacterSeparators | Sqlite3.07.14-run/shell.c:624-653 | Of the one-character separators only the quote and the newline fail. |
| CsvShell.PrintThenImport | Sqlite3.07.14-run/shell.c:801-814 | What the writer prints the reader imports again, field by field, for every table and every good separator. |
| CsvReader.AnyLineEndsImport | Sqlite3.07.14-run/shell.c:369-375 | With a good separator every table comes back whether its lines end in newlines, in carriage returns and newlines, or now in this and now in that. |
| CsvReader.LineExactly | Sqlite3.07.14-run/shell.c:358-375 | From any text: the line ends at the first newline outside quotes, a carriage return before it belongs to the line end, and without such a newline the line is all there is. |
| CsvReader.SplitExactly | Sqlite3.07.14-run/shell.c:1859-1881 | Any line is split into exactly the pieces between its separators outside quotes. |
| CsvReader.RunsAreHalved | Sqlite3.07.14-run/shell.c:1883-1889 | In any quoted field every run of quotes is halved, an odd one rounded down, and nothing else changes. |
| FuncRegistry.FuncDefHash.FuncDefInsert | src/callback.c:303-321 | The links stay those of the table of all definitions inserted so far. |
| FuncRegistry.Connection.FindFunction | src/callback.c:344-418 | A lookup changes nothing and returns the best own or built-in definition; a creating lookup ends with an exact match, added only if it was missing, and fails exactly if memory runs out. |
| FuncRegistry.LookupFails | src/callback.c:364-418 | When a lookup finds nothing: the chain asked first has a deleted definition on top, or has none that fits and the same holds of the other chain or none fits there either. |
| FuncRegistry.DeletedHides | src/callback.c:414-417 | The failing case: a deleted own definition that fits, in whatever encoding, hides a usable built-in one, even an exact match. |
| FuncRegistry.AnyArityFinds | src/callback.c:335-338 | With nArg -2 something is found exactly if some definition of the name has an implementation. |
| FuncRegistry.Connection.CreateTwice | src/callback.c:404-413 | Repeating a creating lookup returns the same definition, adds nothing and needs no memory. |
| Backup.Backup.BackupOnePage | src/backup.c:215-290 | For any two page sizes the destination gets the page's bytes at the same offsets, except in its own pending page, and nothing else changes; an error changes nothing outside the page. |
| Backup.Backup.CopyPages | src/backup.c:385-396 | The loop keeps all pages below iNext equal to the source and stops after exactly nPage pages or behind the last page; it fails exactly if an operation failed or a page went to an in-memory destination of another page size. |
| Backup.Backup.CommitCopy | src/backup.c:412-513 | DONE means that the file is a complete copy of the right size with the new schema version and that the transaction is closed; any other result leaves the transaction open for the rollback. |
| Backup.Backup.CompleteFile | src/backup.c:422-505 | The truncated and completed file is the source at every offset outside the pending page and the rewritten header, reads as zero behind it, and has the source's size (shorter only if the source ends with its pending page); the assertion on nDestTruncate holds. |
| Backup.Backup.WriteExtra | src/backup.c:479-493 | The extra-page loop writes exactly the source bytes between the two ends of the pending pages and the end of the source, and grows the file to that end. |
| Backup.Backup.WriteHeader | src/backup.c:412-421 | Only the schema version and the format version bytes change, to the old version plus 1 and to 2. |
| Backup.Backup.Open | src/backup.c:345-378 | Locks the destination and the source; a change by another process restarts the copy at page 1, and the pages below iNext then agree. It succeeds exactly if nothing failed, the source is not being written and a destination in WAL mode has the same page size. |
| Backup.Backup.PageWritten | src/backup.c:619-639 | A page write passed to a running backup keeps it up to date, or ends it, which takes a failure or an in-memory destination of another page size; a finished one and bytes and size of its destination do not change. |
| Backup.Source.BackupInit | src/backup.c:138-199 | A new backup starts at page 1 unlocked and is counted; it is refused exactly for the same database or after a failure, and then nothing changes. |
| Backup.Source.Restart | src/backup.c:652-658 | Exactly the attached backups start again at page 1. |
| Backup.Source.BeginRead | src/backup.c:362-369 | Opening a read transaction after a change from outside leaves no running backup with a copied page. |
| Backup.Source.WritePage | src/backup.c:607-639 | A source page write with its update keeps all backups in order. |
| BackupPages.SyncedUpdate | src/backup.c:623-636 | A write to a copied page, passed on, keeps the agreement, also when the file grows. |
| BackupPages.DestPagesEnough | src/backup.c:438-468 | nDestTruncate pages hold the source, or are exactly those before the pending page while the source ends inside it. |
| BackupPages.FinishedLarger | src/backup.c:444-447 | Source pages at least as large: truncating to whole destination pages completes the copy. |
| BackupPages.FinishedSmaller | src/backup.c:449-496 | Smaller source pages: truncating, writing the extra pages and cutting the file completes the copy. |
| Bitvec.Bitvec.Rehash | src/bitvec.c:275-293 | Turning a full hash into sub-vectors keeps every value and adds i. |
| Bitvec.Bitvec.RebuildHashWithout | src/bitvec.c:322-338 | The rebuilt hash holds every value but i and is well formed. |
| Bitvec.Compare | src/bitvec.c:481-496 | 0 exactly if vector and array agree, otherwise the first bit on which they differ. |
| ProbeTable.Store | src/bitvec.c:294-297 | Storing an absent value in the first free slot of its walk keeps values distinct and reachable and counts it. |
| ProbeTable.Find | src/bitvec.c:201-206 | The read loop finds exactly the stored values. |
| ProbeTable.FindOrFree | src/bitvec.c:261-268 | The write loop finds the value or the free slot where it belongs. |
| FanOut.DivisorUsable | src/bitvec.c:285 | The divisor is ceil(iSize/NPTR) and keeps every bin below NPTR exactly if the sum does not wrap; if it wraps, the divisor is 0. |
| FanOut.GatherUpdate | src/bitvec.c:234-240 | Adding or removing a bit in the sub-vector changes the whole by exactly that bit. |
| BtMutex.StepKeepsInv | src/btmutex.c:30-143 | Whatever statement any thread executes next, flags, mutexes and db fields match the program points of all threads. |
| BtMutex.WaitsUpwards | src/btmutex.c:122-143 | A waiting thread holds only mutexes at smaller addresses. |
| BtMutex.LockedIsWanted | src/btmutex.c:45-105 | A flagged Btree is unwanted exactly inside the last Leave, and its mutex is not held exactly after it was left, by that Leave or by the back-off loop of Enter, until the flag is cleared; only then may the db field be another connection's. |
| BtMutex.AssertsNeverFail | src/btmutex.c:31-50 | The assertions on flags, mutexes and db fields hold whenever they are reached. |
| Stat3.Stat3Accum.constructor | src/analyze.c:294-320 | A new sampler is in order and empty, and its period is the least one with which at most mxSample/3 samples are due within nRow rows. |
| Stat3.Stat3Accum.FindMin | src/analyze.c:396-420 | The index of a least non-periodic sample; the search never leaves the array. |
| Stat3.Stat3Accum.Insert | src/analyze.c:382-394 | The sample at iMin is removed and the new one appended, or it is appended. |
| Stat3.AtMostAThird | src/analyze.c:317 | Disjoint runs within nRow rows give at most mxSample/3 periodic samples. |
| Stat3.PeriodIsLeast | src/analyze.c:317 | A period keeps the periodic samples to mxSample/3 exactly if it is at least the computed one, so that they are taken as often as they can be. |
| Stat3.PeriodicMeansMultiple | src/analyze.c:372-373 | A run is periodic exactly if it reaches a multiple of the period. |
| Stat3.EarlierRunsFit | src/analyze.c:1162-1165 | The kept runs before a sample fit into its nLt, so that the difference never underflows. |
| Stat3.AverageEq | src/analyze.c:1162-1168 | On samples the sampler keeps, the subtraction does not wrap, avgEq is the average of the rows not accounted for, and at least 1. |
| IndexKeys.NewPrefix | src/analyze.c:658-671 | In sorted rows a prefix differs from its predecessor exactly if it was never seen. |
| IndexKeys.CountStep | src/analyze.c:681-697 | A row adds a distinct prefix exactly if it differs from its predecessor there. |
| IndexKeys.CountsMonotone | src/analyze.c:611-619 | Longer prefixes are at least as many and at most the rows. |
| IndexScan.ScanRow | src/analyze.c:655-705 | One pass of the loop keeps counts, previous values, the open run and the pushed runs exact. |
| StatText.StatColumn | src/analyze.c:768-780 | The text is the row count and the rounded-up quotients, separated by spaces. |
| StatText.DecimalExactly | src/analyze.c:768-780 | The decimal text of n is the one digit string without leading zeros that denotes n. |
| StatText.EstimateBounds | src/analyze.c:755-780 | The estimate is the least number that times the distinct prefixes reaches the rows. |
| StatText.AnalysisLoader | src/analyze.c:1007-1048 | The loader stores exactly the numbers the text specifies, keeps the other entries, and notices the unordered suffix. |
| StatText.TextLoads | src/analyze.c:1032-1046 | A printed list of 32-bit numbers, with or without the suffix, loads as itself. |
| Complete.ReadToken | src/complete.c:137-249 | One pass through the switch reads exactly the first token. |
| Complete.Classify | src/complete.c:194-246 | A word is a keyword exactly if it equals it up to case. |
| CompleteMachine.StatementReturns | src/complete.c:112-123 | Every statement of the grammar takes the machine back to START. |
| CompleteMachine.FirstReturnIsStatement | src/complete.c:112-123 | Tokens that lead back to START for the first time at their end are a statement. |
| CsvSeparators.PlainLongSeparatorFails | Sqlite3.07.14-run/shell.c:633-634 | A longer separator without a character that forces quoting loses a field boundary. |
| CsvSeparators.DisturbingSeparatorFails | Sqlite3.07.14-run/shell.c:365-375 | A separator that disturbs the quotes or the lines loses a table. |
| CsvRoundTrip.TableRoundTrip | Sqlite3.07.14-run/shell.c:1855-1902 | With a good separator every table comes back, embedded newlines, separators and quotes included. |
| CsvRoundTrip.RowRoundTrip | Sqlite3.07.14-run/shell.c:1858-1890 | A printed row is assembled, split and unquoted into its fields, whatever follows it. |
| CsvRoundTrip.UnquotePrinted | Sqlite3.07.14-run/shell.c:1883-1889 | Unquoting undoes the doubling of quotes. |
| CsvShell.Shell.OutputCsv | Sqlite3.07.14-run/shell.c:624-653 | Writes the field, quoted exactly if it must be, or the null value, and the separator. |
| CsvShell.Shell.PrintRow | Sqlite3.07.14-run/shell.c:801-814 | Writes the printed fields and a newline. |
| CsvShell.LocalGetline | Sqlite3.07.14-run/shell.c:337-378 | Returns one line up to the first newline outside quotes, whatever the buffer sizes were. |
| CsvShell.SplitInPlace | Sqlite3.07.14-run/shell.c:1857-1881 | The buffer is cut into exactly the fields of the line, or their number is wrong. |
| CsvShell.UnquoteInPlace | Sqlite3.07.14-run/shell.c:1883-1890 | The field in the buffer is unquoted and nothing else is touched. |
| CsvShell.ImportLine | Sqlite3.07.14-run/shell.c:1855-1892 | One line becomes the row of its unquoted fields, or the column count is wrong. |
| CsvShell.ImportFile | Sqlite3.07.14-run/shell.c:1855-1902 | The whole file becomes its rows, or nothing. |
| FuncRegistry.FuncDefHash.FunctionSearch | src/callback.c:285-298 | Finds the head of the chain of the name, up to case. |
| CBasics.LowerExactly | src/global.c:35-52 | Names and keywords are the same exactly if they differ in nothing but the case of the 26 letters. |
| FuncRegistry.ChainHolds | src/callback.c:311-316 | A chain holds exactly the definitions inserted under its name, each once. |
| FuncRegistry.ChainOrder | src/callback.c:311-316 | In a chain the first definition inserted comes first, then the others, latest first; so among equal scores the first wins, or else the latest. |
| FuncRegistry.HeadsHold | src/callback.c:316-320 | The heads in a slot are the first definitions of the names that hash there. |
| FuncRegistry.FuncDefHash.BestMatch | src/callback.c:364-372 | The loop returns the first definition with the highest positive score. |
| FuncRegistry.ChosenFitsBest | src/callback.c:260-280 | If a definition fits, one is chosen: an exact argument count is never passed over for a variadic definition, and among equal counts neither the encoding asked for nor, asked for UTF-16, the other byte order for UTF-8. |

## Left out

- The pager, journal, WAL, file system and B-tree internals behind the backup: a destination is one byte image with the image to go back to; partial effects of a failed commit on the disk are not modelled.
- An in-memory source: its commit restarts the backups (`src/pager.c:1795-1800`).
- Changing the destination's page size while a backup is made: page sizes are fixed. The codec branches, the opening of the temporary database, error messages and the pager's change counter are left out.
- Two backups into one destination, and other use of a destination connection during a backup, which the interface forbids.
- `sqlite3_backup_finish` after BUSY or LOCKED: the code returns the stored result, the interface description says such a result does not affect it; nothing is claimed beyond the code.
- `nRemaining` when the source shrank below iNext-1: the unsigned value wraps, as the model does, and no meaning is claimed.
- The Bitvec union is modelled as three arrays of which one is in use, so that reinterpreting its memory is not captured; the descent loops of Set and Clear are written as recursion over sub-vectors; freeing memory is left out.
- Bitvec.Bitvec.Set: where the divisor wraps around and a hash has to be split it does not return in the code, so that case is excluded by its requires and described by HashOverflow.ReturnsExactly instead.
- Starvation, and locks on Btrees of several connections by one thread, as a backup takes them: the address order covers one connection only.
- The emission of virtual machine code by ANALYZE, authorisation, schema lookup, the statistics tables and their sample column; arithmetic of the row counter beyond 32 bits is excluded by the size of the table.
- The comparison with the unordered suffix reads past the end of a short string in the code; the model stops at the end.
- EBCDIC, the UTF-16 entry point and the variant without triggers of `sqlite3_complete`.
- The rest of the shell: headers, other output modes, prompts, SQL errors during an import, line numbers in messages, and line reading without CSV quoting.
- The user data, destructor and flag fields of function definitions, collations, and the schema object of `src/callback.c`; names hold no NUL, and argument counts fit the 16-bit field, which the caller of a creating lookup checks.
