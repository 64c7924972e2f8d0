# Catalog Authority operations: a verified model

This project models the operational core of a self-hosted media catalog: the command that removes old backup sets
and can be killed anywhere, the commands that take and verify a backup, the scanner that reads a schema version out
of a database dump, the producer that publishes a snapshot file, the planner and queue behind managed collections,
and the import. Each module follows one part of the system:

| module | what it models |
|---|---|
| `RetentionModel`, `RetentionJournal` | which backup sets a policy removes, and when a journal is believed |
| `RetentionProtocol`, `RetentionEngine` | the journalled two-phase delete: every effect on disk, and the run, resume and abandon that issue them |
| `RemovalBound` | how large a published set is against the bound on removing it |
| `BackupWindow`, `BackupTree`, `BackupInspector`, `BackupSet` | stop/take/start, tree copy and digest, the offline inspector, manifest and verification |
| `Text`, `DumpScanner`, `DumpPrinter` | the chunked dump scan, and a printer it inverts |
| `SnapshotPublication` | any number of producers publishing one file name, interleaved per system call |
| `CanonicalJson`, `JsonReader`, `CollectionPlan`, `CollectionQueue`, `CollectionBasis`, `CollectionDrift` | the canonical serialiser and a reader of JSON, membership decisions, the durable queue, what a plan was decided from, the drift audit |
| `Base64Url`, `Confirmations`, `ConfirmationTokens` | single-use confirmations, once for both classes that implement them, and how long their tokens are |
| `CatalogImport` | a resumable import against a failing catalog |

Two kinds of statement carry the weight. Protocols are transition systems whose runs are sequences of single effects
or system calls by any number of processes; every theorem about them is about every instant of every run. The code
that changes state step by step (the retention engine, the dump scanner, the backup window, confirmations, the
queue, the import) is imperative here too, and each method is proved against a function or a transition system about
which the theorems are then proved. What such a function decides is stated again without it: in instants and names, in
rows of the catalog, in the services of a plan, in the answers of a run. Whatever the world answers (a failing call, a killed process, a short read, a
media server that throws) is an argument that ranges over every possibility.

## How the retention proof hangs together

`RetentionProtocol.Effect` lists every atomic effect on the destination, the quarantine directory and the journal
(a journal write is one effect: it is staged and renamed). `Permitted` is the guard of each effect, read off the
disk alone. `RetentionEngine.Engine` is the program: it asks, renames, unlinks, and rewrites the journal, and every
one of its methods keeps `Valid()`, which says that the log of effects so far is a legal run of the protocol. A
process killed in the middle is a method that returns early, and the next process starts from what is on disk. So
`WholeOrNothing`, `PartialOnlyWhileDeleting`, `DeletingIsForever` and the rest hold at every instant of every
history of runs, resumes and abandons. Nothing makes a set larger (`PlannedFitLasts`) and without an abandon an
operation only goes forward (`ForwardOnly`), so `Engine.Lifetime` says of the plan itself when the last resume ends
the operation.

## What turned out not to hold

Each of these is stated as a theorem: a concrete input where the promise fails, and the exact condition under which
it holds. (Of names with newlines, the failing names and a condition that leaves few others out.)

* A crash between unlinking the quarantine marker and removing the directory (src/ops/backup-retention.ts:1699-1700)
  leaves a directory that no resume accepts as its own, although every set is already gone and recorded gone
  (`MarkerUnlinkedAloneStrands`). The removal bound is taken from a count of files while the removal walk counts the
  manifest and the directories too, so a published set can be removed if and only if it holds at most 63 directories
  more than files (`RemovableExactlyWhen`). A set that is taken and verifies, with seven files and more than 65 empty
  directories in its promotion records, can never be removed (`EmptyDirectoriesStrand`). These are the only two
  obstacles: with neither, one failure-free resume always finishes (`Engine.Resume`, `Engine.Lifetime`).
* A journal whose inventory has one row a reader refuses is written without complaint and can never be read back.
  One foreign entry with a name longer than 128 characters is enough (`ALongForeignNameLocksOut`,
  `ARunCanLockItselfOut`).
* A window that ends at a line feed hands the scanner its last line with a carriage return still on it, while the
  whole-text parser drops it. There is a dump whose version the chunked scan calls ambiguous when it is read in two
  windows and whose whole text has one (`ReadSizesCanDecide`). The carriage return matters exactly in an open COPY
  block, on its terminator and on a row whose last cell is the version and a number (`CrMattersExactly`). A text in
  which no such line ends in the two characters is one on which no cut matters, and the only kind
  (`SafeExactlyWhenEveryCutAgrees`); on it windows of any sizes give one answer (`ChunkedIsWhole`). Looking at the
  lines alone is enough when none of them is a terminator or ends in a number (`HarmlessIsSafe`).
* A confirmation is single-use strictly before its deadline. At the one instant its lifetime ends its spent nonce is
  already forgotten and it is not yet refused as old (`SecondUseExactlyAtTheDeadline`, `TwiceAtTheDeadline`).
* The tree listing behind a backup digest is injective for names in which no newline is followed by `d ` or `f `
  (`TreeDigestIsExact`). Any directory name with a newline, `d ` and text on both sides reads like two directories
  (`NewlineInANameIsNotSeen`), any file name with a digest, a newline and `f ` like two files
  (`DigestInANameIsNotSeen`). A component's digest does not record whether it was a file or a directory. The inspector notices that for the dump, the keystore and the secrets. The promotion
  records are not required, so a file holding their listing is accepted in their place, unless its first 512 bytes say
  it is a dump (`AFileCanStandForADirectory`); nothing else escapes (`VerifiesExactlyWhenUnchanged`).
* A sync plan that takes over a collection queued for deletion leaves it queued for deletion, whatever it put in; the
  sweep that precedes queuing can be what queued it (`QueueCollectionPlan`, `ReplacingAForgottenRecordIsRevoked`).
* The drift audit takes a recovery proof it could not read for a trusted one, so a recreate can be proposed while the
  recorded proof is broken (`AnUnreadableProofIsTrusted`). The counts of an applied repair exceed the plan by one
  for every commit that fails, and a connection that is refused loses them all, with the repairs already made
  (`ApplyRepair`).
* A catalog row that is forgotten, absent and without a key lineage is planned as `create`, not `blocked`; the
  catalog refuses the write (`BlockedExactlyWhenErased`).

Where a comment or document says otherwise, the model follows the code.

## Model

| member | source | states |
|---|---|---|
| RetentionProtocol.TableAllowsEight | src/ops/backup-retention.ts:1041-1093 | exactly eight of the twenty triples are allowed, and which |
| RetentionProtocol.EachRefusalHasItsCause | src/ops/backup-retention.ts:1041-1093 | each refusal of the table answers exactly the combinations it describes |
| RetentionProtocol.EveryAllowedTripleIsReached | src/ops/backup-retention.ts:1416-1424 | none of the eight is superfluous: a legal run passes through each |
| RetentionProtocol.SweepAcceptsOwnStates | src/ops/backup-retention.ts:1416-1424 | in phase `removing`, at every instant of every history, the sweep refuses no state the program made |
| RetentionProtocol.BackInDestinationMeansAbandoning | src/ops/backup-retention.ts:1251-1255 | a set recorded `quarantined` that is back in the destination exists only in phase `abandoning` |
| RetentionProtocol.AbandoningNeverReverts | src/ops/backup-retention.ts:1799-1926 | once the decision to abandon is on disk, nothing is set aside or destroyed until the journal is cleared |
| RetentionProtocol.EffectKeepsInv | src/ops/backup-retention.ts:1322-1619 | every effect the program may issue, from any state satisfying the invariant, leaves one that does |
| RetentionProtocol.InvAfter | src/ops/backup-retention.ts:1219-1320 | so every instant of every history of processes satisfies it |
| RetentionProtocol.WholeOrNothing | src/ops/backup-retention.ts:1541-1578 | a set name in the destination always holds its original whole tree or nothing, and unplanned sets are never touched |
| RetentionProtocol.PartialOnlyWhileDeleting | src/ops/backup-retention.ts:1541-1578 | a tree missing anything exists only in the quarantine directory, under a durable `deleting` |
| RetentionProtocol.CommittedIsForever | src/ops/backup-retention.ts:1349-1379 | what is committed to destruction stays so over the rest of every history |
| RetentionProtocol.DeletingIsForever | src/ops/backup-retention.ts:1353-1379 | no failure, resume or abandon moves an entry out of `deleting` except to `removed`, nor out of `removed` |
| RetentionProtocol.NothingDestroyedWhileAnythingPlannedRemains | src/ops/backup-retention.ts:1447-1579 | when anything is unlinked every planned set has left the destination, earlier ones are gone, later ones are whole |
| RetentionProtocol.DestroyedIsAPrefix | src/ops/backup-retention.ts:1517-1579 | what has been destroyed is always a prefix of the oldest-first removal list |
| RetentionEngine.Engine.Perform | src/ops/backup-retention.ts:1219-1320 | one atomic effect, refused, killed before or done whole, extends the legal run by itself |
| RetentionEngine.Engine.WriteMark | src/ops/backup-retention.ts:1349-1355 | one entry rewritten in memory and, when the write succeeds, on disk |
| RetentionEngine.Engine.Stop | src/ops/backup-retention.ts:1375-1379 | a failure is recorded without leaving `deleting`, and the run is marked stopped; that nothing moves afterwards is Execute's promise |
| RetentionEngine.Engine.RequireQuarantine | src/ops/backup-retention.ts:933-1000 | the owned quarantine directory is there, published whole by a rename, or the call throws |
| RetentionEngine.Engine.TryRemoveOwnedQuarantine | src/ops/backup-retention.ts:1687-1705 | the directory is removed only when its marker is all it holds |
| RetentionEngine.Engine.SweepPreconditions | src/ops/backup-retention.ts:1416-1424 | names the first refused entry; on states of this program, none |
| RetentionEngine.SweepFindsNothing | src/ops/backup-retention.ts:1416-1424 | the invariant alone makes every entry acceptable to the sweep |
| RetentionEngine.Engine.BringAside | src/ops/backup-retention.ts:1447-1505 | an interrupted rename is adopted, a set in place is proved and renamed, anything else stops the run |
| RetentionEngine.Engine.SetAllAside | src/ops/backup-retention.ts:1444-1505 | phase one: afterwards every planned set has left the destination, or the run stopped |
| RetentionEngine.Engine.RemoveTree | src/ops/backup-retention.ts:1562-1573 | unlinks entry by entry and then the root, or throws before the first when the tree is over its bound |
| RetentionEngine.Engine.Destroy | src/ops/backup-retention.ts:1536-1573 | a set is proved whole and recorded `deleting` before its first unlink |
| RetentionEngine.Engine.ConsumeAll | src/ops/backup-retention.ts:1517-1579 | phase two in order; after a stop nothing further moves, and the report lists what is recorded removed |
| RetentionEngine.RemovedNamesAreThose | src/ops/backup-retention.ts:1513-1519 | the names reported removed are exactly the planned names on record as removed |
| RetentionEngine.BytesAddUp | src/ops/backup-retention.ts:1513-1516 | the bytes reported are what the rows of the reported names declare, added up |
| RetentionEngine.KeptIsUntouched | src/ops/backup-retention.ts:1580-1592 | at every instant the set the run promised to keep is in the destination, whole |
| RetentionEngine.Engine.Conclude | src/ops/backup-retention.ts:1580-1604 | the kept set is verified again after every removal, and counts as verified exactly when there is one and that verification says so; the journal is cleared only when all is gone |
| RetentionEngine.Engine.Report | src/ops/backup-retention.ts:1610-1618 | incomplete exactly when not complete; removed, and a success, exactly when complete and the kept set verified; removed but unproven otherwise |
| RetentionEngine.Engine.Execute | src/ops/backup-retention.ts:1322-1619 | complete exactly when the journal is cleared, every planned set is gone and every kept set is in place; the report says the kept set verified exactly when its own proof did, and takes its state from the two; refused before an effect only if no process had begun, failed after one only if one had or this one had set about a set |
| RetentionEngine.Engine.Run | src/ops/backup-retention.ts:1219-1320 | refused while a journal is there; a failure-free run completes exactly when the disk is recoverable, and reports the kept set verified exactly when its proof says so |
| RetentionEngine.Engine.Resume | src/ops/backup-retention.ts:1241-1263 | from every crash point one failure-free resume reaches the disk, report and byte count of the uninterrupted run, exactly when the disk is recoverable; its answer about the kept set is that of its own proof |
| RetentionProtocol.AllRemovedLeavesTheKept | src/ops/backup-retention.ts:1580-1619 | with every entry removed the destination is exactly what the plan kept |
| RetentionEngine.MarkerUnlinkedAloneStrands | src/ops/backup-retention.ts:1687-1705 | a crash between unlink and rmdir leaves a finished operation no resume can finish |
| RetentionEngine.PlannedFitLasts | src/ops/retention-model.ts:332-350 | a set within its removal bound when it is planned is within it at every instant after |
| RetentionEngine.RecoverableWhenReady | src/ops/retention-model.ts:332-350 | before anything has begun, recoverable means exactly that every planned set is within its bound |
| RetentionProtocol.ForwardOnly | src/ops/backup-retention.ts:1219-1320 | in every history without an abandon, whenever there is no journal either nothing was set aside or everything planned is gone and nothing else |
| RemovalBound.PathsAreCounted | src/ops/maintenance-safety.ts:472-509 | the entries a walk meets are the files and the directories, each once |
| RemovalBound.DeclaredAre | src/ops/maintenance-identity.ts:61-73 | the entries a set declares are its files, of all components, and neither its manifest nor a directory |
| RemovalBound.RemovableExactlyWhen | src/ops/retention-model.ts:332-350 | the removal of a published set can complete if and only if it holds at most 63 directories more than files |
| RemovalBound.EmptyDirectoriesStrand | src/ops/retention-model.ts:332-350 | a set with its manifest that is taken and verifies, and is removable if and only if its promotion records hold at most 65 empty directories |
| RetentionEngine.Engine.AbandonOne | src/ops/backup-retention.ts:1855-1926 | one entry is settled as its record and the disk imply; what is recorded as being removed is never put back |
| RetentionEngine.Engine.Abandon | src/ops/backup-retention.ts:1779-1966 | failure-free, it restores every set that never reached `deleting`, gives every name one true fate, and is clean exactly when nothing had begun and the marker is there; with loss exactly when something is gone and nothing else is left to settle |
| RetentionEngine.SettledAsExpectedRestores | src/ops/backup-retention.ts:1855-1926 | when every entry has the fate its record implies, the destination is the planned one less what had begun |
| RetentionEngine.FatesTellWhetherAnythingBegan | src/ops/backup-retention.ts:1826-1845 | nothing gone and nothing unresolved if and only if no removal had begun |
| RetentionEngine.Engine.Lifetime | src/ops/backup-retention.ts:1219-1263 | after a run and any number of killed or failed recoveries, a resume that meets no failure has nothing to resume or completes, when every planned set fits and the marker was not lost; without an abandon the operation then never began or left exactly the kept sets |
| RetentionModel.DecidesTheRule | src/ops/retention-model.ts:240-256 | the branches of the decision remove a row if and only if one sentence without sorts, ranks or branch order says so |
| RetentionModel.RankIsCount | src/ops/retention-model.ts:224-231 | a set's rank is how many verified dated sets are newer; unverified and undated sets have none |
| RetentionModel.NewestOfIsNewest | src/ops/retention-model.ts:303-309 | the protected set of each kind is the newest dated one, or the first by name when none is dated |
| RetentionModel.RemovalsAreTheRule | src/ops/retention-model.ts:258-265 | the removal list is exactly the rows the rule removes, each once, oldest first |
| RetentionModel.RemovedExactlyWhen | src/ops/retention-model.ts:205-281 | in instants and names alone: a set is removed if and only if it is dated, old enough by its days and by one millisecond, and is either verified with a later one of its own kind and `keepLast` later ones, or unverified and asked for |
| RetentionModel.ProtectedIsTakenLast | src/ops/retention-model.ts:303-309 | the protected set is the restorable one taken last, ties by the greater name, or the first by name when none is dated |
| RetentionModel.RemovalsRunForward | src/ops/retention-model.ts:258-265 | each name on the removal list was taken no later than the next, ties by name |
| RetentionModel.RefusedExactlyWhen | src/ops/retention-model.ts:95-111 | a policy is refused exactly outside its bounds; a plan exactly when nothing is restorable or fewer restorable sets than the floor are left off the removal list |
| RetentionModel.EachReasonHolds | src/ops/retention-model.ts:240-256 | every decision gives the one reason that holds of the row, and removes for exactly two of them |
| CanonicalJson.LessIsByFirstDifference | src/ops/retention-model.ts:287-301 | names and keys are ordered by their first difference, a text before every longer one it begins |
| RetentionModel.WindowIsKept | src/ops/retention-model.ts:253-255 | of the verified dated sets at least `keepLast` are kept, or all of them if there are fewer; which ones, RemovedExactlyWhen says |
| RetentionModel.FloorIsKept | src/ops/retention-model.ts:267-272 | an unrefused evaluation leaves at least the floor, counts it exactly and keeps the newest restorable set |
| RetentionModel.UnverifiedTakesNoSlot | src/ops/retention-model.ts:201-203 | adding a set that does not verify changes no decision about any other |
| RetentionModel.LaterRemovesMore | src/ops/retention-model.ts:247-252 | a later instant removes everything an earlier one does |
| RetentionModel.RunAgainRemovesNothing | src/ops/retention-model.ts:205-281 | evaluating what a finished run left, with the same policy and instant, removes nothing |
| RetentionJournal.ClassifiedIsProduced | src/ops/backup-retention.ts:216-271 | every class of entry, for every name: only usable names are ever removable, and nothing else carries a digest |
| RetentionJournal.ClassifiedExactlyWhen | src/ops/backup-retention.ts:216-271 | the class of every entry if and only if: a leading dot, an unusable name, no plain directory, no manifest, one that cannot be read, and only then what the examination says |
| RetentionJournal.RowReadsBack | src/ops/backup-retention.ts:734-791 | a written inventory row is read back if and only if it is within the reader's bounds |
| RetentionJournal.AcceptedIsWhatTheRuleOrders | src/ops/backup-retention.ts:639-693 | whatever its text, an accepted journal's entries are exactly the rule's removals, in order; the protected set is never one |
| RetentionJournal.AcceptedIsWellFormed | src/ops/backup-retention.ts:856-863 | and, with the set it protects as the one kept, it is an operation the crash-safe protocol above is proved for |
| RetentionJournal.BeginIsWritten | src/ops/backup-retention.ts:1285-1309 | the journal a confirmed plan starts is one the evaluator ordered, with every entry pending |
| RetentionJournal.StepsKeepWritten | src/ops/backup-retention.ts:1349-1355 | rewriting any entry and deciding to abandon keep it so |
| RetentionJournal.ReadsBackExactlyWhenRowsAreAccepted | src/ops/backup-retention.ts:518-693 | a journal written at any step reads back as written if and only if every row of its inventory is accepted |
| RetentionJournal.ALongForeignNameLocksOut | src/ops/backup-retention.ts:734-738 | one name over 128 characters, necessarily of an entry that is not ours, and the run's own journal is refused |
| RetentionJournal.ARunCanLockItselfOut | src/ops/backup-retention.ts:1285-1310 | and such a run does begin, in every destination with a restorable set and a floor of one |
| BackupWindow.PlanCompleteBackup | src/ops/complete-backup.ts:317-344 | the printed plan, built step by step, command by command for either custodian |
| BackupWindow.ThePlanIs | src/ops/complete-backup.ts:107-111 | stop the app, dump, copy the keystore out, start the app; or stop app and sidecar, dump, start sidecar and app |
| BackupWindow.TakeInWindow | src/ops/complete-backup.ts:555-617 | the window up to its first failing step, and the services whose stop succeeded |
| BackupWindow.StartAgain | src/ops/complete-backup.ts:618-645 | one start for each, newest first, whatever the earlier ones answer; the failures are what is still stopped |
| BackupWindow.PerformBackup | src/ops/complete-backup.ts:526-706 | the trace of a run; the first failure keeps its reason and an outage is added to it exactly when there is one |
| BackupWindow.NothingFailsIsThePlan | src/ops/complete-backup.ts:317-344 | a run in which nothing fails issues exactly the commands the plan prints |
| BackupWindow.EveryTraceIsAPrefixThenStarts | src/ops/complete-backup.ts:555-645 | every run's commands are a prefix of the window followed by one start per stopped service in reverse |
| BackupWindow.TakenFromOneMoment | src/ops/complete-backup.ts:570-617 | whenever anything is dumped or copied, every service of the window is down |
| BackupWindow.WritersAreDown | src/ops/complete-backup.ts:107-111 | whenever anything is dumped or copied the app is down, and where there is a sidecar so is the sidecar |
| BackupWindow.TheReasonIsTheFirst | src/ops/complete-backup.ts:526-706 | the reason of a failed run is the first answer that was not good, in the order of the command, and there is none exactly when all were |
| BackupWindow.WindowFaultIs | src/ops/complete-backup.ts:555-617 | and inside the window: the stops by service, the dump, its bytes, the keystore by custodian, the secrets, the records |
| BackupWindow.OutageIsWhatIsDown | src/ops/complete-backup.ts:359-388 | what a report or failure says is still stopped is exactly what replaying the trace leaves down |
| BackupWindow.PublishedOnlyWhenComplete | src/ops/complete-backup.ts:646-670 | nothing is published before the required components are staged and every start was tried |
| BackupWindow.PublishedExactlyWhen | src/ops/complete-backup.ts:526-706 | a set is published if and only if every answer before that was the good one and a keystore copied out did arrive |
| BackupWindow.RunVerified | src/ops/complete-backup.ts:755-803 | `ok` if and only if the set was published, nothing is left down and the set verifies |
| BackupTree.AssertPlainTree | src/ops/maintenance-safety.ts:472-509 | counts every entry, and refuses a link, a special file or one entry more than the bound |
| BackupTree.CopyTree | src/ops/complete-backup.ts:878-903 | the copy is the source, or nothing when a link or special file is anywhere in it or it holds more than 5000 entries |
| BackupTree.Walk | src/ops/complete-backup.ts:939-967 | the running hash is fed the listing, files and bytes are counted, and links and special files refuse |
| BackupSet.SizesAdd | src/ops/complete-backup.ts:906-967 | the sizes of a component are the bytes and the number of the files in it, at any depth |
| BackupTree.RecordsAreExact | src/ops/complete-backup.ts:945-963 | the records of a directory determine its whole tree, wherever among other records they stand |
| BackupTree.ListingIsExact | src/ops/complete-backup.ts:954-962 | equal listings are listings of equal records when in no name a line opens, blanks and other newlines in names included |
| BackupTree.TreeDigestIsExact | src/ops/complete-backup.ts:939-967 | for names in which no line of a listing opens, equal digests mean the same names, shape and bytes |
| BackupTree.NewlineInANameIsNotSeen | src/ops/complete-backup.ts:954-962 | every directory whose name holds a newline, `d ` and text around them has the digest of two directories |
| BackupTree.DigestInANameIsNotSeen | src/ops/complete-backup.ts:954-962 | every file whose name holds a digest, a newline and `f ` has the digest of two files |
| BackupInspector.InspectBackupDirectory | src/ops/backup-inspect.ts:164-224 | the missing components and the verdict, whatever order the entries are listed in: a version only when all is there and every dump agrees on it |
| BackupInspector.EachVerdictHolds | src/ops/backup-inspect.ts:214-224 | each verdict exactly when it is so: ahead of this build, at it, behind it, without one agreed version, or incomplete |
| BackupInspector.DirectoryIsTakenFor | src/ops/backup-inspect.ts:273-370 | a directory is a keystore, secrets or records exactly by the names it holds, in that order; secrets only with every required one filled |
| BackupInspector.JsonNames | src/ops/backup-inspect.ts:361-362 | a name of a record ends in .json, in letters of either case |
| BackupInspector.FileIsTakenFor | src/ops/backup-inspect.ts:372-402 | a file is a dump exactly by its first bytes or by the words of a plain dump in its first 512 |
| BackupInspector.ListingIsNoDump | src/ops/backup-inspect.ts:372-402 | a file holding the listing of a directory is not recognised, or is a dump without a version, in windows of any sizes |
| BackupSet.VerifyComponents | src/ops/backup-set-verification.ts:113-165 | the findings about components and names, in order, and exactly the components that verified |
| BackupSet.Verify | src/ops/backup-set-verification.ts:113-250 | every finding in order: components, names, recorded version, what the inspector misses, its verdict; and what is restorable |
| BackupSet.VerifiesExactlyWhenItReadsTheSame | src/ops/backup-set-verification.ts:113-250 | a taken set verifies if and only if it has the names it was published with, each plain and with its fingerprint, and the inspection accepts it |
| BackupSet.VerifiesExactlyWhenUnchanged | src/ops/backup-set-verification.ts:113-250 | for clean names, a verified ordinary set still verifies if and only if it is byte for byte the published one, or only its promotion records became a file of their listing that does not pass for a dump |
| BackupSet.AFileCanStandForADirectory | src/ops/complete-backup.ts:906-926 | so a file holding the listing of the promotion records is accepted in their place |
| DumpScanner.SchemaVersionScanner.Push | src/ops/backup-inspect.ts:529-568 | one line takes the scanner from one state to the next, in and out of an open COPY block |
| DumpScanner.FeedCut | src/ops/backup-inspect.ts:613-666 | cutting a safe text at a line feed loses nothing |
| DumpScanner.CrMattersExactly | src/ops/backup-inspect.ts:535-568 | a carriage return at the end of a line changes the scan if and only if a COPY block is open and the line is its terminator, or its last cell is the version column and a number; no pattern outside a block sees it |
| DumpScanner.SafeExactlyWhenEveryCutAgrees | src/ops/backup-inspect.ts:613-666 | no cut at a line feed changes the scan if and only if no line ended by the two characters is one of those where it is reached |
| DumpScanner.HarmlessIsSafe | src/ops/backup-inspect.ts:535-542 | a text is safe from every state when no line so ended is a terminator or ends in a number |
| DumpScanner.TextWithoutCrLfIsSafe | src/ops/backup-inspect.ts:586-590 | a text with no carriage return before a line feed is safe |
| DumpScanner.ScanForSchemaVersion | src/ops/backup-inspect.ts:613-666 | for every sequence of reads, bounds and errors the loop answers what the scan as a function does; the carry never exceeds the line bound |
| DumpScanner.ChunkedIsWhole | src/ops/backup-inspect.ts:613-666 | on a safe text within the bounds, windows of any sizes give the answer of the whole-text parser |
| DumpScanner.EachAnswerHolds | src/ops/backup-inspect.ts:613-666 | one version, several, none in a dump read whole, or a dump cut off: each answer exactly when it is so |
| DumpScanner.BytesAre | src/ops/backup-inspect.ts:613-666 | the bound on a line counts the bytes of its characters in UTF-8 |
| DumpPrinter.ReadSizesCanDecide | src/ops/backup-inspect.ts:613-666 | a dump, read from its start in two windows, on which they do not: its block ends in a carriage return and a line feed |
| DumpPrinter.CopyBlockIsInverted | src/ops/backup-inspect.ts:535-568 | a printed COPY block yields exactly its versions in order, wherever the version column is |
| DumpPrinter.ColumnInsertIsInverted | src/ops/backup-inspect.ts:535-584 | a printed INSERT with columns yields its version |
| DumpPrinter.PositionalInsertIsInverted | src/ops/backup-inspect.ts:535-568 | a printed INSERT without columns yields its second value |
| DumpPrinter.PrintedDumpReadsBack | src/ops/backup-inspect.ts:586-590 | a dump with one printed block reads back as the printed versions, and is safe to scan in windows |
| SnapshotPublication.CallKeepsInv | src/ops/catalog-snapshot-produce.ts:457-635 | one system call of any producer, whatever it is answered, keeps the invariant of all of them |
| SnapshotPublication.InvAfter | src/ops/catalog-snapshot-produce.ts:537-635 | so every interleaving does, with crashes anywhere |
| SnapshotPublication.OutputIsNeverPartial | src/ops/catalog-snapshot-produce.ts:537-635 | the output is absent as at first, its first file unchanged, or one producer's complete text |
| SnapshotPublication.NoOverwriteNoChange | src/ops/catalog-snapshot-produce.ts:495-516 | a producer not asked to replace never changes what an existing name refers to |
| SnapshotPublication.AtMostOneNonOverwritingWinner | src/ops/catalog-snapshot-produce.ts:495-516 | of non-replacing producers at most one succeeds, and only on a free name |
| SnapshotPublication.PublishingInstallsOwnText | src/ops/catalog-snapshot-produce.ts:474-516 | the publishing call puts the whole of the caller's own text at the name |
| SnapshotPublication.PublishesExactlyWhenItCan | src/ops/catalog-snapshot-produce.ts:540-635 | when no call fails a producer ends with its whole text at the name, and nothing else changed, if and only if the name was free or a regular file it was asked to replace; otherwise it refuses and changes nothing |
| SnapshotPublication.SomeRunEnds | src/ops/catalog-snapshot-produce.ts:537-635 | and some run in which no call fails ends, whatever the folder holds |
| SnapshotPublication.RefusedHasACause | src/ops/catalog-snapshot-produce.ts:540-635 | over every interleaving a producer that refuses was failed by a call, met a taken name, was beaten to it by another, or was never allowed to replace what was there |
| SnapshotPublication.AnyCallMayFail | src/ops/catalog-snapshot-produce.ts:537-635 | every call of the model may fail and may be a crash instead |
| SnapshotPublication.WriteAll | src/ops/catalog-snapshot-produce.ts:586-589 | the write loop writes the whole buffer however little each call takes |
| SnapshotPublication.ReplaceWithRetry | src/ops/catalog-snapshot-produce.ts:457-472 | tried once off Windows; there, again after each transient code, ending at the first answer that is not repeated |
| SnapshotPublication.RetriesAsTheLoopDoes | src/ops/catalog-snapshot-produce.ts:457-472 | one rename of a producer in the interleavings is one turn of that loop |
| CanonicalJson.SameValueSameText | src/ops/collection-plan.ts:696-719 | insertion order and undefined fields leave no trace in canonical text |
| CanonicalJson.SelfDelimiting | src/ops/collection-plan.ts:696-719 | no canonical text is a proper beginning of another |
| CanonicalJson.CanonicalIsExact | src/ops/collection-plan.ts:696-719 | canonical texts are equal if and only if the values are |
| JsonReader.CanonicalIsJson | src/ops/collection-plan.ts:696-719 | every canonical text is a JSON text by RFC 8259, and reading it as one gives back the value, whole |
| CanonicalJson.PreimageIsExact | src/ops/collection-plan.ts:721-723 | for NUL-free domains a hashed preimage determines domain and value |
| CollectionPlan.ParseItemIds | src/ops/collection-plan.ts:677-686 | one malformed identifier refuses the whole selection; otherwise the ascending list without duplicates |
| CollectionPlan.SelectionHasNoOrder | src/ops/collection-plan.ts:677-686 | two orderings of a selection, with any duplicates, parse to the same list |
| CollectionPlan.ReadIdentities | src/ops/collection-plan.ts:649-669 | eight workers sharing one counter, in any interleaving, read every readable record once and end |
| CollectionPlan.BuildMembers | src/ops/collection-plan.ts:294-440 | one decision for every record selected or recorded, in identifier order |
| CollectionPlan.PlanIsUnique | src/ops/collection-plan.ts:294-440 | the plan is determined by the selection as a set |
| CollectionPlan.PlanPutsInWhatBelongs | src/ops/collection-plan.ts:474-503 | a sync plan puts in exactly the selected, readable, reference-bearing records |
| CollectionPlan.EachRecordIsDecided | src/ops/collection-plan.ts:474-503 | each record is added, kept, taken out or blocked exactly by whether it belongs, is held and is recorded; a revocation puts nothing in |
| CollectionPlan.EachMemberReasonHolds | src/ops/collection-plan.ts:474-503 | and for the one reason that holds of it |
| CollectionPlan.SetMembersHoldsExactly | src/db/migrations.sql:574-600 | the membership call leaves exactly the named records intended |
| CollectionPlan.SetMembersKeepsWhatWasSynced | src/db/migrations.sql:574-600 | no row is lost, and an observation counts on only while its record stays on the side it was on |
| CollectionPlan.QueueIsAFixedPoint | src/ops/collection-execution.ts:196-271 | replanning after queuing adds nothing and queuing again changes no row |
| CollectionPlan.NoHistoryPutsInTheUnreadable | src/ops/collection-plan.ts:474-503 | over every history of re-selections, what is held is what the last plan could read |
| CollectionPlan.UnchangedExactlyWhenSettled | src/ops/collection-plan.ts:514-541 | `unchanged` if and only if the settled, synced collection holds what belongs and only that |
| CollectionPlan.CollectionDecidedExactlyWhen | src/ops/collection-plan.ts:514-541 | the action and the reason for the collection as a whole, by what belongs, what is held and its state |
| CollectionQueue.ManagedStore.SweepForgotten | src/db/migrations.sql:741-767 | the sweep takes out exactly the erased records, queues an emptied collection for deletion, and asks for a sync exactly when a record is leaving or none is left |
| CollectionQueue.SweepTakesOutTheForgotten | src/db/migrations.sql:741-767 | a sweep changes exactly the forgotten rows, and queues the collection for deletion exactly when nothing else was held |
| CollectionQueue.ManagedStore.QueueCollectionPlan | src/ops/collection-execution.ts:196-271 | all or nothing; a sync plan leaves exactly its records held and a revocation none; when a sync plan ends queued for deletion |
| CollectionQueue.QueuedAsPlanned | src/ops/collection-execution.ts:196-271 | what queuing a sync plan reports, by what the plan said |
| CollectionQueue.ReplacingAForgottenRecordIsRevoked | src/db/migrations.sql:741-767 | an input on which a plan that puts a record in leaves the collection queued for deletion |
| CollectionQueue.MemberTextIsExact | src/ops/collection-plan.ts:400-417 | a member's canonical line determines identifier, action and reason |
| CollectionQueue.PlanPreimageIsExact | src/ops/collection-plan.ts:392-417 | equal plan preimages mean equal name, mode, key, collection action and member actions |
| CollectionBasis.IdentityTextIsExact | src/ops/collection-plan.ts:592-604 | unless reference values collide, two readings of a record have one text if and only if title, year and references agree, the references in any order |
| CollectionBasis.LineIsExact | src/ops/collection-plan.ts:592-604 | among texts that do not collide, a line of the basis determines the record, its reading and its membership row |
| CollectionBasis.BasisIsExact | src/ops/collection-plan.ts:401-417 | the considered records, the reading and row of each, the key and the state of the collection give one basis digest; and one digest means the same of all of these, or two texts hashed for the two collide |
| CollectionBasis.BuildBasis | src/ops/collection-plan.ts:350-417 | the lines collected record by record and sorted make that digest |
| CollectionBasis.SameDigestSamePlan | src/ops/collection-plan.ts:344-417 | with the same mode and selection, equal basis digests mean the same decision about every record and about the collection, or such a collision |
| CollectionDrift.ResolveIntended | src/ops/collection-drift.ts:293-313 | the union of the resolved members, and whether any could not be told |
| CollectionDrift.IntendedIdsAre | src/ops/collection-drift.ts:293-313 | an item is intended exactly when some intended member was resolved to it, whole |
| CollectionDrift.AuditOne | src/ops/collection-drift.ts:205-284 | asks only what each step needs and answers the specified finding |
| CollectionDrift.EachFindingHolds | src/ops/collection-drift.ts:205-284 | every finding is about its own row, with the verdict, the reason and the counts that hold of what was seen |
| CollectionDrift.EachDifferenceIsNamed | src/ops/collection-drift.ts:266-284 | missing, extra, both or neither, as the two sides differ |
| CollectionDrift.RecreateExactlyWhen | src/ops/collection-drift.ts:247-252 | recreating is proposed if and only if the server answered that nothing carries the token and recovery is trusted |
| CollectionDrift.SyncExactlyWhen | src/ops/collection-drift.ts:254-284 | a sync is proposed if and only if everything was read whole and the sides differ, with the exact differences |
| CollectionDrift.UnreadIsUnknown | src/ops/collection-drift.ts:227-264 | unknown if and only if something needed was not read whole, and the unknown is never repaired |
| CollectionDrift.AnUnreadableProofIsTrusted | src/ops/collection-drift.ts:172-173 | a broken recorded proof still allows a recreate if and only if reading it failed |
| CollectionDrift.BuildRepairPlan | src/ops/collection-drift.ts:350-378 | one action for each repairable finding and no other, in key order |
| CollectionDrift.RepairPlanHasNoOrder | src/ops/collection-drift.ts:350-378 | listing the collections in another order gives the same plan |
| CollectionDrift.ApplyRepair | src/ops/collection-drift.ts:426-457 | the counts add up to the plan plus one for every failed commit after a guard answered; a refused connection ends the loop without counts, after exactly the repairs before it |
| Base64Url.DecodeInvertsEncode | src/ops/collection-confirmation.ts:211-222 | decoding what was encoded gives back exactly the bytes (section 5 of RFC 4648) |
| Base64Url.EncodedLength | src/ops/collection-confirmation.ts:211-213 | the encoding of n bytes has (4n + 2) / 3 characters, rounded down |
| Base64Url.TheAlphabetIs | src/ops/collection-confirmation.ts:211-213 | the alphabet is that of table 2 of RFC 4648 |
| Base64Url.TheVectorsAre | src/ops/collection-confirmation.ts:211-213 | test vectors of section 10 of RFC 4648, less the padding |
| Base64Url.CanonicalExactlyWhen | src/ops/collection-confirmation.ts:215-222 | a text comes back when its bytes are spelled again if and only if no single character and no bits are left over |
| Base64Url.SpellsExactlyWhen | src/ops/collection-confirmation.ts:215-222 | a text decodes to given bytes if and only if it is their spelling but for what the decoder does not look at |
| Base64Url.FourSpellings | src/ops/collection-confirmation.ts:215-222 | exactly four texts decode to the bytes of a 32-byte signature, or of any two over a multiple of three |
| Confirmations.Issuer.Prune | src/ops/collection-confirmation.ts:187-191 | exactly the nonces whose deadline is not past remain |
| Confirmations.Issuer.Verify | src/ops/collection-confirmation.ts:121-177 | verdict and spent nonces are those of the specification, in the order signature, shape, clock, nonce, room, comparison |
| Confirmations.SingleUse | src/ops/catalog-import-confirmation.ts:107-153 | over every history with a clock that never runs back, no nonce gets past the spent check twice before its deadline |
| Confirmations.SpentIsBounded | src/ops/collection-confirmation.ts:155-158 | the spent nonces never outgrow their maximum |
| Confirmations.SecondUseExactlyAtTheDeadline | src/ops/collection-confirmation.ts:149-158 | a used token passes again if and only if it is the instant its lifetime ends and there is room |
| Confirmations.TwiceAtTheDeadline | src/ops/collection-confirmation.ts:149-191 | the same token accepted at issue and at its deadline |
| Confirmations.IssuedOpensExactlyWhenShort | src/ops/collection-confirmation.ts:106-147 | an issued token opens to its claims if and only if it is within the length read |
| Confirmations.FourTextsOpenAlike | src/ops/collection-confirmation.ts:121-147 | of all the texts with the body of a token that opens, exactly the four spellings of its signature open, to the same claims |
| ConfirmationTokens.ImportTokensPass | src/ops/catalog-import-confirmation.ts:103-153 | an issued import confirmation passes if and only if it is within its fifteen minutes, its nonce unspent, fewer than 4096 outstanding, and the file has the digest and the size that were confirmed |
| ConfirmationTokens.CollectionTokensPass | src/ops/collection-confirmation.ts:121-177 | an issued collection confirmation passes if and only if it is within its ten minutes, its nonce unspent, fewer than 4096 outstanding, and what is typed back is the confirmed plan's digest |
| ConfirmationTokens.ImportTokensOpen | src/ops/catalog-import-confirmation.ts:84-93 | a token for any import this program can confirm has at most 707 characters and opens to its claims |
| ConfirmationTokens.CollectionTokensOpen | src/ops/collection-confirmation.ts:106-111 | a token for any collection plan has at most 518 characters and opens to its claims |
| CatalogImport.LookUp | src/ops/catalog-import.ts:173-196 | batching asks for every identity and finds exactly the rows there are, in as few queries as the batch allows |
| CatalogImport.PlanImport | src/ops/catalog-import.ts:208-245 | the plan of every record from the looked-up rows, and whether it would write anything |
| CatalogImport.BlockedExactlyWhenErased | src/ops/catalog-import.ts:217-234 | what is planned as blocked, exactly, and what becomes of the erased row that is not |
| CatalogImport.PlannedExactlyWhen | src/ops/catalog-import.ts:217-234 | created, blocked, updated or left alone, exactly by the row and by whether updates were asked for |
| CatalogImport.Authority.AddItem | src/db/migrations.sql:982-1016 | a new lineage, nothing for an active one, a refusal for an erased or present row; or a failure before or after |
| CatalogImport.Authority.UpdateIdentity | src/db/migrations.sql:1020-1048 | a new identity for a present, active, unforgotten row, or a refusal or failure |
| CatalogImport.Authority.Apply | src/ops/catalog-import.ts:324-396 | the catalog of the specified run; every record reported as what happened to it and counted once; nothing left unattempted unless a failure stopped it |
| CatalogImport.NoRunReversesAnErasure | src/ops/catalog-import.ts:324-396 | no apply of any plan, however old and however its calls fail, changes an erased row |
| CatalogImport.WithoutUpdatesNothingPresentChanges | src/ops/catalog-import.ts:197-200 | an import not asked to update changes no row that is present, whatever fails |
| CatalogImport.OnlyUpdatesChangeAKnownRow | src/ops/catalog-import.ts:324-396 | of a row that is present or has a lineage, however old the plan, only an update changes anything |
| CatalogImport.AddingAgainIsDone | src/db/migrations.sql:982-1016 | adding to a lineage that is active changes nothing and succeeds |
| CatalogImport.CleanRunLands | src/ops/catalog-import.ts:354-373 | a run without failures lands every record it reaches and stops only at one the catalog refuses |
| CatalogImport.CleanRunImports | src/ops/catalog-import.ts:354-373 | every row a clean run reaches: an absent one without lineage is there with its identity, a present active one has it if updates were asked for, any other is as it was |
| CatalogImport.AnyRunImportsOrNot | src/ops/catalog-import.ts:324-396 | after any run, whatever failed, each row is as it was or so |
| CatalogImport.RefusesExactlyWhen | src/db/migrations.sql:982-1048 | which rows the catalog refuses to write |
| CatalogImport.ResumesToTheSameCatalog | src/ops/catalog-import.ts:316-323 | after any number of failed runs, one without failures ends in the catalog a single one would have ended in |

## Left out

- Writers outside this program on set names, temporary names and quarantine directories: assumed absent, as the
  commands hold their locks. The refusals that exist for them are in the table but no report is claimed exact under
  them. Locks, nested authority and the confirmation digest of a run are not modelled.
- Power loss: a killed process is modelled at every effect, lost durability is not.
- RetentionEngine.Engine.Run: the plan is taken as read under the lock, so its sets are in the destination and the
  fresh quarantine name is free.
- RetentionEngine.Engine.Resume: the lists of a run that ends in an exception are not claimed complete; a report
  raised from the middle of the last phase lists nothing removed in the code as well.
- RetentionEngine.Engine.Conclude: verifying the kept set is one call whose answer is an argument of the run; what it
  checks is in `BackupSet`. Of the report, the count of kept sets and the description of a retained directory are not
  in it.
- RetentionEngine.Engine.Prove: identity of a set is a call that throws on a different tree and may throw on the
  right one; its digest comparison is in `BackupSet`.
- RetentionJournal.ReadsBackExactlyWhenRowsAreAccepted: works on parsed members. JSON text, the 4 MB bound (the same
  for writing and reading) and fractional numbers, which no integer here can be, are not in it.
- Parsing and printing of instants, and the operation digest, are function arguments.
- BackupWindow.PerformBackup: a stop that fails after the service went down is not started again, in the code as
  here; the owner of the locks, the ledger and the re-resolution of paths are not in it.
- BackupTree.CopyTree: a tree does not change while it is walked; permissions and links that appear in between are
  not in it, nor is the size bound of a single file. A directory is its entries in name order, which is how both walks list it.
- BackupTree.TreeDigestIsExact: the hash is taken to be injective, with output that holds no blank and no newline
  (`DigestsExist`); for the real hash, read it as: no two of the files and listings at hand collide.
- BackupSet.Verify: reading and parsing the manifest is not in it, and the manifest file is not among the contents:
  neither check looks at it again. A link that points at nothing is reported as missing by the code, as a link here;
  a ring reached through a link inside the keystore counts for the code and not here. Neither can be in a set that
  verifies. Files and directories that cannot be read are not in it.
- BackupInspector.InspectBackupDirectory: the bytes of a file are its characters; the head of a file is its first 512.
- RemovalBound.RemovableExactlyWhen: of one set taken by this program; a set whose manifest declares other counts is
  covered by `Engine.Resume`, whose bound is of the recorded count.
- DumpScanner.ScanForSchemaVersion: bytes per character are modelled, decoding of broken UTF-8 is not; the regular
  expressions are functions written from their patterns, on ASCII letters. Versions are unbounded numbers; the
  program's are floating-point, so two digit strings above 2^53 can be one version there.
- SnapshotPublication.OutputIsNeverPartial: file modes, flushing to disk and a rename that succeeds while reporting
  failure are not in it.
- CanonicalJson.CanonicalIsExact: numbers are integers; lone surrogates and keys equal only to a locale are not in it.
- CollectionPlan.BuildMembers: ordering is by code unit, which is the locale order on the identifiers and keys used;
  selection by search, notes and the ledger of the earlier per-item design are not in it.
- CollectionBasis.BasisIsExact: of the hash it is assumed only that it answers 64 hexadecimal digits
  (`HexDigestsExist`); years are integers. The comparison of the stored digest with the current one, before a plan is queued, is not in it.
- CollectionQueue.ManagedStore.QueueCollectionPlan: one collection key; the sweep of other collections and of the
  per-item ledger is not in it.
- CollectionDrift.AuditOne: a database read that rejects (the managed record, the member list) escapes the whole audit
  in the code and is not in it; a record that is not there is.
- CollectionDrift.BuildRepairPlan: the bound of 200 collections per audit and the digests of a repair are not in it.
- Confirmations.Issuer.Verify: the keyed digest is an argument and nothing is assumed of it, so single use does not
  rest on signatures; instants are whole milliseconds; JSON of the claims is an argument.
- ConfirmationTokens.ImportTokensOpen: that parsing undoes printing of the claims is assumed of the parser.
- Base64Url.Decode: a single left-over character is dropped, as the platform's tolerant decoder does.
- CatalogImport.Authority.Apply: key custody, events and provider references are folded into one write per record.
- Command lines, renderers, guidance texts, database pools, the media server client, bootstrap and packaging: output
  and plumbing.
