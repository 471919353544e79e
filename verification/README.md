# Verified model of the transaction engine

A Dafny 4.11 model of the hard parts of the transaction engine, with proofs about all inputs and all
runs. `dafny verify dfyconfig.toml` checks the whole project.

## What is modelled

**B+ tree index** (`KeyOrder`, `BTreeShape`, `BTreeStore`, `BTreeInsert`, `BTreeCodec`, `BTreeFits`,
`BTree`). `BTree.Index` keeps pages in a map behind read, write and allocate, and inserts, deletes, searches and
scans as the code does: leaf and internal splits, the re-read of the parent, root growth, lazy deletes,
right-sibling links. A ghost tree describes what the pages hold; the index is proved to be a finite map,
its leaves one chain, and every page to survive encoding and decoding when keys have at most 26 bytes.
Every page write carries the size test, so inserts can fail half way; what that leaves is stated too.

**Two-phase locking, undo, the write-ahead log and recovery** (`WalRecord`, `Recovery`, `UndoLog`,
`TwoPhase`, `TwoPhaseRuns`, `AriesWalk`, `TxnManager`, `ManagerRuns`). Record format and log scan at byte level;
analysis and redo; and a state machine in which any number of transactions begin, lock, write, commit,
roll back to savepoints, abort entry by entry and release locks, interleaved in any order. Each log
append is a step of its own. The main result joins all of it: cut the log file of any run at any byte,
recover, and the result is the table of some step of the run with its in-flight transactions rolled back,
no commit that was wholly on disk lost; or damage any record, and the result is that of the step before
it. Sequences of calls to the manager have laws of their own: who has to wait for a row, and what a
rollback to a savepoint gives back.

**Raft elections** (`RaftNode`, `RaftElection`, `RaftWinner`). The handlers of one node, and a cluster
whose messages may be lost, delayed, duplicated and reordered and whose nodes crash and restart: one
leader per term, what its voters' logs were, and when an election is won.

**Multi-version reads and writes** (`Visibility`, `Mvcc`, `MvccReads`, `MvccWrites`, `VersionChain`). The
visibility test against its time-independent meaning, the conflict test against who ran at the same
time, version chains as linked lists edited in place, and runs of begin, insert, update, delete, commit,
abort and undo.

**Lock queues and deadlocks** (`LockMode`, `LockQueue`, `LockRuns`, `LockManager`, `WaitForGraph`). One
queue with request, wake-up, cancel and release steps; the depth-first search for a cycle, for every map
iteration order, and the detector's loop.

**Slotted page, gap locks, SSI** (`PageImage`, `Page`, `GapLock`, `Ssi`, `SsiRuns`).

Where the source changes state the model is a class whose methods are proved equal to functions on a
state value; runs are sequences of those same functions.

## Where the code does not keep a property

Each has a condition that is exact, so the inputs that fail are those it excludes; where that needs a run
or a state that can be reached, a lemma builds one.

* A commit after a rollback to a savepoint brings the rolled-back writes back at the next restart
  (`RolledBackWriteReturns`). Recovery and the live table stay in step exactly when every row the
  transaction wrote still holds what it last logged for it (`CommitExactly`).
* Undoing a write restores the table exactly when an insert hit an absent row and an update a present one
  (`UndoneExactly`).
* Repeatable reads fail with deletes (`UnrepeatableRead`): another transaction's update or delete changes
  what is read exactly when it hits a newer version whose creator counts for the reader
  (`OverwriteMovesRead`). Without deletes that never happens.
* On queues with intention modes a wake-up can be lost (`WakeupLost`): exactly when an upgrade takes away
  the only holder the first in line waits for and does not come back in a mode that stops it
  (`AcquireBlocksExactly`).
* A write is refused exactly when the chain has another transaction's version that is uncommitted, or was
  committed by one that ran when the writer began (`MayWriteExactly`). So a transaction can overwrite a
  committed version it does not see, exactly one whose creator began after it (`UnseenCommitted`);
  `UpdateLost` is a run in which an update is lost that way.
* The serializable check stops every cycle of reads overtaken by writes that is complete while all its
  transactions are active (`CycleOfReadsDoesNotCommit`), since a commit is refused exactly when the
  transaction has such a conflict on each side on record (`CommitRefusedExactly`). A write that comes
  after the reader has committed is not recorded (`EdgesExactly`): in `LateWriteSlips` both commit.
* A lock counts as enough for a request by strength. It then excludes all that the mode asked for would,
  except exactly S or U for IX and U for SIX (`AcquireCoversExactly`). `IntentionMissed`: two transactions
  hold S on a table, as after a scan, and one of them has been told it may write.
* `Snapshot.IsCommitted` is documented as "was committed at snapshot time"; it says so of aborted
  transactions too, and only of those wrongly (`CountsAborted`).
* Upgrades are meant to wait at the front of the line. The held mode is dropped before the test that
  would send them there, so that branch is dead: an upgrade that has to wait is last, and first exactly
  if nobody was waiting (`UpgradeWaitsLast`). `UpgradeComesSecond` reaches a state where it is not first.
* Keys of 27 bytes overflow a full leaf page (`LongerKeysDoNotFit`); 26 is the limit (`ShortKeysFit`). An
  insert succeeds exactly when every node it writes fits (`Index.Insert`, with `InsertFits`), as it always
  does with short keys (`ShortKeysInsert`). If the leaf fits and a node above it does not, the upper half
  of what was split is out of reach of searches: `Index.Insert` states what is left, and
  `OverflowLosesRows` gives a sound index and a key that lose half a leaf.
* The compensation records are laid out for a backward undo. From the last record of a transaction it
  meets exactly the writes still to be undone if and only if nothing is left, or the last record does not
  end a compensation chain and no write older than the newest one left was rolled back to a savepoint
  (`WalkFindsPending`). `SavepointBreaksWalk` shows both ways to fail; every savepoint rollback that undoes
  something and keeps something is the first (`PartialRollBackHides`).
* Updating a row to a longer one deletes it first. The row is lost exactly when the new one does not fit
  the page then (`UpdateLosesExactly`); `FullPage` is such a page.
* A scan's gap locks stop an insert into its range exactly while the key's gap still has the name it had,
  or the key was there (`LaterInsertMeetsScan`). Deleting the row above the range renames the gap and lets
  a phantom in (`PhantomSlipsIn`).

## Model

| member | source | states |
|---|---|---|
| `KeyOrder.StrictTotalOrder` | internal/storage/btree.go:333-347 | byte-string comparison is a strict total order on keys |
| `KeyOrder.FirstDifference` | internal/storage/btree.go:333-347 | one key is below another exactly if, where they first differ, it has the smaller byte or ends |
| `BTreeShape.LeavesAscending` | internal/storage/btree.go:392-521 | in a well-formed tree (separators bound every subtree, one depth, node sizes in bounds) the leaves' entries are strictly ascending and inside the bounds |
| `BTreeShape.MapOfHas` | internal/storage/btree.go:309-331 | an ascending entry list binds a key exactly when it contains it |
| `BTreeStore.ChainAfter` | internal/storage/btree.go:427-454 | replacing one leaf by one or two relinked leaves keeps the sibling chain the in-order list of leaves |
| `BTreeInsert.LeafUpdated` | internal/storage/btree.go:398-408 | overwriting a present key in a leaf is a map update and keeps the shape |
| `BTreeInsert.LeafGrown` | internal/storage/btree.go:410-425 | inserting an absent key at the search position is a map update and keeps the order |
| `BTreeInsert.LeafSplit` | internal/storage/btree.go:427-454 | a leaf split: both halves in bounds around the split key, entries kept, chain relinked through the new right page |
| `BTreeInsert.InnerUnchanged` | internal/storage/btree.go:457-470 | a child insert without a split leaves the parent well-formed |
| `BTreeInsert.InnerGrown` | internal/storage/btree.go:472-492 | a child split recorded in the re-read parent keeps separators, depth, pages and chain |
| `BTreeInsert.InnerSplit` | internal/storage/btree.go:494-519 | splitting an over-full internal node keeps all of it, and each half has at least 51 children |
| `BTreeCodec.ParseImage` | internal/storage/btree.go:65-180 | parsing the image of any node within the field widths gives the node back |
| `BTreeCodec.HeaderLayout` | internal/storage/btree.go:68-122 | type, key count and right sibling stand in the first 11 bytes |
| `BTreeCodec.EncodeNode` | internal/storage/btree.go:68-122 | the encoder's loops build exactly the node's image, and fail exactly when it exceeds the page |
| `BTreeCodec.DecodeNode` | internal/storage/btree.go:125-180 | the decoder's loops parse exactly as the format says, truncated input included |
| `BTreeCodec.ShortKeysFit` | internal/storage/btree.go:12-65 | with keys of at most 26 bytes every node within the order fits the 4064-byte payload |
| `BTreeCodec.LongerKeysDoNotFit` | internal/storage/btree.go:12-65 | a full leaf of 27-byte keys does not fit |
| `BTreeCodec.FaithfulNode` | internal/storage/btree.go:68-180 | a node with short keys and in-range numbers is written and read back unchanged |
| `BTreeFits.ImageBytes` | internal/storage/btree.go:68-122 | a node's size depends on its keys' lengths and the number of its values or children alone |
| `BTreeFits.ShortKeysInsert` | internal/storage/btree.go:244-251 | in a tree with short keys every node that inserting a short key writes fits its page |
| `BTreeFits.SplitLost` | internal/storage/btree.go:457-484 | when a node has split and its parent cannot be written, what is left is the lower half, well-formed, and the upper half's entries are out of reach |
| `BTreeFits.KidLost` | internal/storage/btree.go:457-470 | a loss in a child subtree is a loss of the same leaves in its parent, whose other children are as before |
| `BTreeFits.LossEntries` | internal/storage/btree.go:457-519 | the entries left are those after the update less one consecutive stretch |
| `BTree.OverflowLosesRows` | internal/storage/btree.go:472-492 | a sound index and a key whose leaf halves fit while their parent does not |
| `BTree.LeafSearch` | internal/storage/btree.go:333-347 | binary search: the index of the key, or where it belongs, and whether it is there |
| `BTree.ChildIndex` | internal/storage/btree.go:523-530 | the child whose separators bound the key |
| `BTree.InnerShrunk` | internal/storage/btree.go:543-570 | a delete in a child subtree keeps the whole tree's shape and removes exactly that key |
| `BTree.Index.constructor` | internal/storage/btree.go:222-242 | a new index is sound and holds the empty map |
| `BTree.Index.FlushNode` | internal/storage/btree.go:244-300 | the page is written exactly when the encoded node has at most 4064 bytes, else nothing changes |
| `BTree.Index.InsertIntoLeaf` | internal/storage/btree.go:398-455 | update, insert or split of a leaf succeeds exactly when the leaf or both halves fit, and then meets the insert contract on pages; else no page of the index changed |
| `BTree.Index.AddSplit` | internal/storage/btree.go:472-519 | recording a child's split in its parent, splitting it if over-full, succeeds exactly when the parent or both its halves fit, and then meets the same contract |
| `BTree.Index.AbsorbSplit` | internal/storage/btree.go:472-519 | if it fails, the subtree has lost the upper half of its split child and nothing else |
| `BTree.Index.InsertRec` | internal/storage/btree.go:392-520 | the recursive insert succeeds exactly when all nodes it writes fit; then it changes exactly one key of the subtree, touches only its own and new pages, and reports a split exactly when there is one; else nothing changed, or one stretch of leaves is lost |
| `BTree.Index.GrowRoot` | internal/storage/btree.go:374-386 | if it fits its page, a new root over the two halves is sound and holds the updated map; else the old root stays |
| `BTree.Index.Insert` | internal/storage/btree.go:360-387 | succeeds exactly when every node written fits, always with short keys; then the index's map becomes the old one with the key bound to the location and the index stays sound; a failure at the leaf changes nothing; a failure above it leaves a well-formed tree holding the new entries less one stretch, half a leaf if the root is the leaf's parent |
| `BTree.Index.DeleteRec` | internal/storage/btree.go:543-570 | the key is removed from the subtree's entries, found exactly if present, chain and shape kept |
| `BTree.Index.Delete` | internal/storage/btree.go:536-541 | the index's map loses exactly the key, and the answer says whether it was there |
| `BTree.Index.Search` | internal/storage/btree.go:303-331 | finds a key exactly when the map has it, with the map's location |
| `BTree.Index.FindLeafPage` | internal/storage/btree.go:607-627 | every leaf left of the one found holds only keys below the start |
| `BTree.Index.ScanPage` | internal/storage/btree.go:581-603 | one leaf of the chain adds exactly its entries in range, and the next page is the next leaf |
| `BTree.Index.RangeAsc` | internal/storage/btree.go:574-605 | the scan ends and returns exactly the map's entries with from <= key <= to (an empty bound is open), once each, strictly ascending, through leaves emptied by deletes too |
| `BTree.Index.AllKeys` | internal/storage/btree.go:630-638 | exactly the map's keys, ascending |
| `BTree.Replay` | internal/storage/btree.go:309-570 | after any sequence of inserts and deletes without a failing page write the index is sound and agrees with a plain map given the same operations; with short keys no write fails and every page survives its encoding |
| `BTree.PagesFaithful` | internal/storage/btree.go:244-278 | every page of a sound tree with short keys survives being encoded and decoded |
| `BTree.EveryPageFaithful` | internal/storage/btree.go:68-180 | the same for the whole index, sibling links included |
| `BTree.LeafPagesLowerBound` | internal/storage/btree.go:427-519 | a tree with h >= 1 internal levels has at least 2 * 51^(h-1) leaf pages, deletes or not |
| `WalRecord.DecodeEncode` | internal/wal/record.go:72-237 | decoding an encoded record of any modelled type gives it back, the length field is the image's length |
| `WalRecord.EncodeLayout` | internal/wal/record.go:72-140 | the place of every field of a record, type codes 1 to 5 |
| `WalRecord.DamagedIsRejected` | internal/wal/record.go:142-160 | nothing is decoded from a buffer whose stored and computed checksums differ |
| `WalRecord.OverwrittenIsDamaged` | internal/wal/record.go:142-160 | a payload replaced by one with another checksum is such a buffer |
| `WalRecord.DamageStops` | internal/wal/recovery.go:184-224 | the scan returns exactly the records before the first damaged one, whatever follows |
| `WalRecord.ReadAllRecordsFrom` | internal/wal/recovery.go:184-224 | the file scan returns exactly the records with at least the start LSN, in order, up to the first damaged one |
| `WalRecord.WholeMeans` | internal/wal/recovery.go:184-224 | the count of whole records in a byte prefix is exact |
| `WalRecord.TornTail` | internal/wal/recovery.go:184-224 | cut the log at any byte: the scan returns exactly the records wholly before the cut |
| `Recovery.ApplyRedoOps` | internal/wal/recovery.go:234-245 | the loop applies the redo list in log order |
| `Recovery.Analysis` | internal/wal/recovery.go:88-124 | the loop builds the analysis table |
| `Recovery.RedoStart` | internal/wal/recovery.go:128-134 | in any map order, a lower bound of all first LSNs, 0 only for an empty table |
| `Recovery.RedoPass` | internal/wal/recovery.go:136-159 | if no write lies before the start, the redo list is all winners' writes in log order |
| `Recovery.RunRecovery` | internal/wal/recovery.go:53-182 | committed, aborted and undo sets by status; on logs ordered per transaction the redo list misses nothing |
| `Recovery.ReplayLast` | internal/wal/recovery.go:136-159 | if a row's last writer won, redo ends with what it wrote |
| `Recovery.ReplayOther` | internal/wal/recovery.go:136-159 | a new winner changes only the rows it wrote |
| `UndoLog.UndoneExactly` | internal/txn/manager.go:425-432 | undoing a write restores the table if and only if it was an insert of an absent row, an update of a present one, or a delete |
| `UndoLog.UndoAppend` | internal/txn/manager.go:383-435 | undoing a log is undoing its end and then its beginning |
| `UndoLog.UndoLocal` | internal/txn/manager.go:383-435 | what undo makes of a row depends on that row alone |
| `TwoPhase.SettledStep` | internal/txn/manager.go:1194-1236 | whatever any transaction does, undoing the holder's entries from a position on gives a held row the same value |
| `TwoPhase.CommitExactly` | internal/txn/manager.go:271-296 | a commit keeps the invariant if and only if the rows written hold what was last logged |
| `TwoPhase.InvKept` | internal/txn/manager.go:142-497 | every step keeps the invariant: locks cover pending undo, statuses match the log, and undoing the holder of a row gives the recovered row |
| `TwoPhaseRuns.RunInv` | internal/txn/manager.go:142-497 | the invariant holds at every step of every run |
| `TwoPhaseRuns.RolledBackIsRecovered` | internal/txn/manager.go:309-435 | rolling back the in-flight transactions in any order gives the table redo gives |
| `TwoPhaseRuns.WinnersAreCommitted` | internal/wal/recovery.go:88-124 | analysis of a reachable log finds exactly the committed, the in-flight and the aborted transactions |
| `TwoPhaseRuns.Restart` | internal/wal/recovery.go:53-245 | reading, analysing and redoing a log file rebuilds the winners' table |
| `TwoPhaseRuns.LiveAgreesWithRecovery` | internal/txn/manager.go:1194-1236 | at every step of every run, recovery's table is the live catalog with every in-flight transaction undone |
| `TwoPhaseRuns.CrashAnywhere` | internal/wal/recovery.go:184-224 | cut the log file at any byte: recovery gives some step's table with its in-flight transactions undone, and every commit wholly on disk is kept |
| `TwoPhaseRuns.DamageAnywhere` | internal/wal/recovery.go:184-224 | damage record n of the log file of any run: recovery gives the table of the step that had logged n records, in-flight transactions undone |
| `TwoPhaseRuns.UndoToPosition` | internal/txn/manager.go:383-441 | over any stretch of a run, undoing to a position would give a held row the same value |
| `TwoPhaseRuns.UndoRestores` | internal/txn/manager.go:444-497 | rolling back to a position, or aborting, gives each row held since then the value it had when the log had that length |
| `TwoPhaseRuns.UndoRestoresLocked` | internal/txn/manager.go:383-441 | a row locked later gets the value it had when it was locked |
| `TwoPhaseRuns.CommitSound` | internal/txn/manager.go:271-296 | without a savepoint rollback every commit keeps recovery in step |
| `TwoPhaseRuns.RolledBackWriteReturns` | internal/txn/manager.go:465-497 | insert, roll back to before it, commit: the row is gone, and recovery brings it back |
| `AriesWalk.WalkWrites` | internal/wal/manager.go:246-258 | following previous-LSN from a write meets all writes of its transaction up to it, newest first, compensated or not |
| `AriesWalk.EntriesAreWrites` | internal/txn/undo_log.go:56-88 | the undo log's positions are a transaction's writes up to a record if and only if every such write has an entry |
| `AriesWalk.WalkKept` | internal/txn/manager.go:142-497 | every step keeps, for every in-flight transaction: writes chained to the previous write or the begin record, undo entries in log order, and the last record naming the newest entry left or ending the chain |
| `AriesWalk.WalkFindsPending` | internal/txn/manager.go:385-419 | at every step of every run, for every in-flight transaction, the walk from the last record the analysis notes meets exactly the writes not yet undone, newest first, if and only if the chain is unbroken |
| `AriesWalk.AbortKeepsChain` | internal/txn/manager.go:385-419 | without a savepoint rollback it does so after any number of compensations |
| `AriesWalk.PartialRollBackHides` | internal/txn/manager.go:465-497 | after every savepoint rollback that undoes something and keeps something the walk finds nothing |
| `AriesWalk.SavepointBreaksWalk` | internal/txn/manager.go:404-417 | a run in which the walk first misses a kept insert and, one insert later, meets a rolled-back one |
| `AriesWalk.LogHoldsBeforeImages` | internal/txn/manager.go:1209-1226 | in every run the log record of every write that may have to be undone holds its operation, row and before-image |
| `AriesWalk.PrevLeadsToBegin` | internal/wal/manager.go:230-300 | in every run the previous-LSN chain of every record, compensations included, leads to the begin record of its transaction |
| `TxnManager.AbortIs` | internal/txn/manager.go:309-369 | marking, undoing entry by entry, releasing and logging the abort is: all before-images restored, one compensation each, locks freed |
| `TxnManager.AbortLeads` | internal/txn/manager.go:309-369 | an abort is a sequence of steps of the runs above |
| `TxnManager.RollBackIs` | internal/txn/manager.go:465-497 | a savepoint rollback undoes exactly the entries from its position on and keeps the rest |
| `TxnManager.RollBackThenAbort` | internal/txn/manager.go:465-497 | an abort after a rollback ends where an abort without it would have |
| `TxnManager.UndoCallsKeepInv` | internal/txn/manager.go:309-497 | aborts and rollbacks keep recovery and the live table in step |
| `TxnManager.CommitKeepsInv` | internal/txn/manager.go:215-302 | a commit with its lock release does so if and only if the rows written hold what was last logged |
| `TxnManager.Manager.BeginTxn` | internal/txn/manager.go:142-172 | refused, unchanged, exactly when the limit on active transactions is reached; else next id, begin record, active transaction |
| `TxnManager.Manager.TwoPLWrite` | internal/txn/manager.go:1194-1236 | gives up, unchanged, exactly when another active transaction wrote the row; else locks it, logs operation, before- and after-image chained to the last record, remembers the undo entry, changes the row |
| `TxnManager.Manager.WriteLocked` | internal/txn/undo_log.go:56-60 | the undo entry goes to the end of the log with the before-image and the LSN of its record |
| `TxnManager.Manager.TruncateUndo` | internal/txn/undo_log.go:82-88 | the undo log is cut at the position, unchanged beyond its end |
| `TxnManager.Manager.CommitTxn` | internal/txn/manager.go:215-302 | commits; afterwards it holds no row and everybody else's locks are as they were; answers finished and unknown ids from the status maps, unchanged |
| `TxnManager.Manager.ReleaseAllLocks` | internal/lock/grant.go:213-236 | in any order: a row is locked afterwards exactly if somebody else held it, and by the same holder |
| `TxnManager.Manager.UndoNewest` | internal/txn/manager.go:385-432 | one compensation with its chain and undo-next, then one before-image |
| `TxnManager.Manager.ApplyUndoEntries` | internal/txn/manager.go:383-435 | the reverse loop is the whole undo |
| `TxnManager.Manager.Abort` | internal/txn/manager.go:309-369 | the whole new state of an abort; it holds no row and everybody else's locks are as they were; an error for a committed id, nothing for an unknown one |
| `TxnManager.Manager.CreateSavepoint` | internal/txn/manager.go:444-462 | records the undo log's length under the name |
| `TxnManager.Manager.FindSavepoint` | internal/txn/manager.go:477-486 | the position of the last savepoint of that name; none exactly when no savepoint has it |
| `TxnManager.Manager.RollbackToSavepoint` | internal/txn/manager.go:465-497 | undoes back to the newest savepoint of that name; the two error cases change nothing |
| `TxnManager.UnheldFrees` | internal/lock/grant.go:213-236 | freeing a transaction's locks leaves exactly those of the others |
| `TxnManager.NamedMeans` | internal/txn/manager.go:477-486 | the savepoint found is the last of its name |
| `ManagerRuns.Perform` | internal/txn/manager.go:142-497 | every call of the manager does what the call sequences below say |
| `ManagerRuns.TidyKept` | internal/txn/manager.go:142-497 | every call keeps: locks belong to active transactions that wrote the row, and active transactions hold every row they wrote |
| `ManagerRuns.OnlyWritersBlock` | internal/lock/grant.go:213-236 | in every sequence of calls a write is refused exactly when another active transaction wrote the row; finished ones never stand in the way |
| `ManagerRuns.RestoredOn` | internal/txn/manager.go:383-435 | no call changes what undoing to a standing savepoint makes of a row held |
| `ManagerRuns.SavepointRestores` | internal/txn/manager.go:444-497 | in every sequence of calls a rollback to a savepoint gives back the undo log as it was when the savepoint was made, every row held then with its value, and every row taken since with the value it had when taken (for rows whose writes by the transaction undo can reverse, see `UndoneExactly`) |
| `RaftNode.Node.PersistState` | internal/raft/node.go:763-789 | term and vote are on disk |
| `RaftNode.Node.LoadState` | internal/raft/node.go:791-809 | a restarted node resumes with the persisted term and vote as a follower |
| `RaftNode.Node.BecomeCandidate` | internal/raft/node.go:282-338 | new term, own vote persisted, leader at once in a cluster of one |
| `RaftNode.Node.HandleVoteReply` | internal/raft/node.go:307-331 | counts a vote only for the same candidacy, leads exactly when that completes a majority; steps down on a higher term |
| `RaftNode.Node.BecomeFollower` | internal/raft/node.go:371-377 | adopts the term, forgets the vote, persists |
| `RaftNode.Node.BecomeLeader` | internal/raft/node.go:342-367 | leader in the same term |
| `RaftNode.Node.HandleRequestVote` | internal/raft/node.go:649-679 | grants exactly if the request's term is not below its own, it has no other vote in that term, and the candidate's last log term and index are not below its own; the vote is persisted |
| `RaftNode.Node.HandleAppendEntries` | internal/raft/node.go:682-702 | ignored from an older term; else the term is adopted and a candidate steps down |
| `RaftElection.Majorities` | internal/raft/node.go:304-305 | two majorities of the members share one |
| `RaftElection.StepKeeps` | internal/raft/node.go:282-338 | every step keeps: one vote per node and term, each counted vote cast, leaders backed by a majority |
| `RaftElection.OneWinner` | internal/raft/node.go:649-679 | two nodes backed by majorities in a term are the same |
| `RaftElection.ElectionSafety` | internal/raft/node.go:282-338 | in every run with loss, delay, reordering, crash and restart, at most one node is ever leader in a term, at whatever times |
| `RaftWinner.StandsOnce` | internal/raft/node.go:282-288 | in every run a node stands for election at most once in a term |
| `RaftWinner.VoteWasCast` | internal/raft/node.go:649-679 | every vote on record was cast for oneself on standing, or on a request whose log pair was not below the voter's |
| `RaftWinner.WinnerUpToDate` | internal/raft/node.go:664-677 | in every run, whoever leads in a term stood in it and was voted for by a majority whose other members had, when they voted, log pairs not above the leader's when it stood |
| `RaftWinner.ElectionIsWon` | internal/raft/node.go:304-331 | from any reachable state, a node that is no leader can win the next term with any majority of nodes that are not ahead of it in term or log |
| `Visibility.EventKeeps` | internal/txn/manager.go:142-302 | every id handed out is in exactly one status map, and finished ids stay as they are |
| `Visibility.VisibleIsSeen` | internal/mvcc/visibility.go:26-81 | at any later time the test over the current status maps equals: creator is me or had committed then, deleter is absent or neither me nor committed by then |
| `Visibility.VisibleOverTime` | internal/mvcc/visibility.go:26-81 | the same over every course of begins, commits and aborts |
| `Visibility.TakeSnapshot` | internal/txn/manager.go:185-208 | in any map order, the active ids, their minimum, and the next id |
| `Visibility.Contains` | internal/txn/snapshot.go:15-22 | membership in the active list |
| `Visibility.CountsAborted` | internal/txn/snapshot.go:25-36 | says "committed" of exactly the finished transactions, so wrongly exactly of the aborted ones |
| `Mvcc.ReadsNewestCreated` | internal/mvcc/chain.go:117-126 | without deletes the version read is the newest whose creator is the reader or had committed at its snapshot |
| `Mvcc.WriterAlone` | internal/mvcc/write_conflict.go:27-48 | a write let through meets no other transaction's uncommitted version |
| `Mvcc.InvKept` | internal/txn/manager.go:836-1109 | every step keeps: snapshots match their begin, one writer of uncommitted versions per row, chains ordered by age |
| `Mvcc.NoGapsKept` | internal/txn/manager.go:1021-1085 | every step but a delete keeps: whoever superseded a version and did not abort has a newer one in the chain |
| `MvccReads.OthersKeepRead` | internal/txn/manager.go:836-870 | begins, commits, aborts, undo of aborts and others' inserts never change the version read, deletes or not |
| `MvccReads.OverwriteMovesRead` | internal/txn/manager.go:1044-1108 | another's update or delete changes it if and only if it hits a newer version whose creator counts |
| `MvccReads.ReadsOwnWrite` | internal/txn/manager.go:1021-1085 | a transaction reads its own latest insert or update |
| `MvccReads.RepeatableRead` | internal/txn/manager.go:906-958 | in every run of inserts and updates a transaction reads the same version of a row it does not write, however others begin, write, commit, abort and undo in between |
| `MvccReads.UnrepeatableRead` | internal/txn/manager.go:1087-1108 | a run with two deletes of one row in which a third transaction first reads nothing and then the row |
| `MvccWrites.MayWriteExactly` | internal/mvcc/write_conflict.go:27-48 | in every reachable state a write passes the conflict test exactly if every version's creator is the writer, aborted, or committed and did not run when the writer began |
| `MvccWrites.CommittedIsSeen` | internal/mvcc/visibility.go:26-81 | in every run, a row whose newest version was committed before a transaction began is read by it in that version |
| `MvccWrites.FirstCommitterWins` | internal/mvcc/write_conflict.go:38-45 | in every run, a transaction can write no row with a version of one that ran when it began and that is active or has committed |
| `MvccWrites.UnseenCommitted` | internal/mvcc/write_conflict.go:38-45 | committed versions a writer overwrites without seeing them are exactly those of transactions that began after it |
| `MvccWrites.UpdateLost` | internal/txn/manager.go:1044-1085 | a run in which a transaction overwrites an update it has not seen |
| `VersionChain.WriteIsStep` | internal/txn/manager.go:1021-1108 | a write without a conflict edits the chain as the steps of the runs do, and finds nothing exactly when the step cannot be taken |
| `VersionChain.RowChain.PrependUnsafe` | internal/mvcc/chain.go:140-143 | the new node is the head, the rest follows |
| `VersionChain.RowChain.FindVisible` | internal/mvcc/chain.go:117-126 | the first node, newest first, that passes the test |
| `VersionChain.RowChain.CheckWriteConflict` | internal/mvcc/write_conflict.go:27-48 | reports a conflicting version exactly when another transaction's version is uncommitted, or was committed by one in the snapshot's active list; with its creator |
| `VersionChain.RowChain.ClearXMax` | internal/mvcc/chain.go:72-80 | exactly the transaction's deletion marks are cleared |
| `VersionChain.RowChain.RemoveByXMin` | internal/mvcc/chain.go:83-97 | the relinked list holds exactly the others' versions, in order |
| `VersionChain.RowChain.Write` | internal/txn/manager.go:1006-1109 | conflict, unchanged, exactly by that test; row not found exactly when none is visible; else the newest visible version is marked by an update or delete and the new one is put in front by an insert or update |
| `LockMode.StrongerExcludesMore` | internal/lock/mode.go:47-67 | of two compatible modes the stronger lets in no more than the weaker |
| `LockMode.MatrixMeansRights` | internal/lock/mode.go:47-58 | two modes are compatible exactly if what they let their holders read and write does not clash, and they are not both U |
| `LockQueue.DominantSuffices` | internal/lock/queue.go:87-119 | against compatible holders, testing the dominant mode is testing every holder |
| `LockQueue.GrantsKeepOk` | internal/lock/queue.go:87-119 | granting waiters keeps holders compatible, lists apart and channels closed in order |
| `LockQueue.GrantsStopBlocked` | internal/lock/queue.go:87-119 | after granting, the first in line conflicts with a holder |
| `LockQueue.InvKept` | internal/lock/grant.go:78-207 | acquire, upgrade, wake-up, cancel and release keep the queue's invariant |
| `LockRuns.LockSafety` | internal/lock/grant.go:78-207 | in every reachable state holders are different and pairwise compatible, channels closed in arrival order and at most once |
| `LockRuns.NoLostWakeup` | internal/lock/queue.go:60-119 | where only S and X are asked for, whenever somebody waits the first in line conflicts with a holder |
| `LockRuns.AcquireBlocksExactly` | internal/lock/grant.go:91-142 | with all modes an acquire loses a wake-up if and only if its upgrade removes the head's only obstacle and does not replace it |
| `LockRuns.WakeupLost` | internal/lock/grant.go:116-142 | a run with IX, IS, a waiting S and an upgrade to X that loses one |
| `LockRuns.UpgradeWaitsLast` | internal/lock/grant.go:116-142 | an upgrade waits exactly when another holder conflicts, is then last in line, and first if and only if nobody was waiting |
| `LockRuns.UpgradeComesSecond` | internal/lock/grant.go:131-142 | a reachable state in which an upgrade queues behind a waiting reader |
| `LockRuns.AcquireCoversExactly` | internal/lock/grant.go:90-95 | an acquire answered at once leaves a lock that excludes all the mode asked for does, except exactly S or U for IX and U for SIX |
| `LockRuns.IntentionMissed` | internal/lock/grant.go:90-95 | a run in which one transaction counts as holding IX beside another's S |
| `LockManager.Queue.Grantable` | internal/lock/queue.go:28-38 | no holder but the excepted one conflicts |
| `LockManager.Queue.RemoveGranted` | internal/lock/queue.go:60-72 | all grants of the transaction gone, others in order |
| `LockManager.Queue.RemoveWaiting` | internal/lock/queue.go:75-83 | its first waiting request gone |
| `LockManager.Queue.GrantWaiters` | internal/lock/queue.go:87-119 | the loop with its running dominant mode is the granting function |
| `LockManager.Queue.ConflictingTxns` | internal/lock/queue.go:122-135 | exactly the other conflicting holders, each once; none exactly when the request can be granted |
| `LockManager.Queue.AcquireLock` | internal/lock/grant.go:87-146 | answered at once, or queued at the end with exactly the other holders in its way; the branch to the front is there and never taken |
| `LockManager.Queue.WakeUp` | internal/lock/grant.go:162-167 | the grant becomes the held mode |
| `LockManager.Queue.GiveUp` | internal/lock/grant.go:168-191 | the request is gone wherever it was, and others are granted |
| `LockManager.Queue.ReleaseLock` | internal/lock/grant.go:198-208 | the grant is gone and others are granted |
| `WaitForGraph.SettledAvoids` | internal/deadlock/graph.go:80-108 | no cycle goes through a node whose waits were all finished before it |
| `WaitForGraph.LoopIsCycle` | internal/deadlock/graph.go:110-117 | the tail of the search's trail from the repeated node on is a simple cycle |
| `WaitForGraph.Search.Dfs` | internal/deadlock/graph.go:88-107 | from a white node: a trail that bites itself, or the node and all it reaches settled |
| `WaitForGraph.Search.Rebuild` | internal/deadlock/graph.go:112-117 | following the parents gives the cycle |
| `WaitForGraph.SelectVictim` | internal/deadlock/graph.go:124-132 | the largest id of the list |
| `WaitForGraph.FindCycle` | internal/deadlock/graph.go:80-122 | for every iteration order: found if and only if there is a cycle; the list without its last entry is a simple cycle; the victim is its largest id |
| `WaitForGraph.RemovedCycles` | internal/deadlock/graph.go:37-44 | removing a node removes exactly the cycles through it |
| `WaitForGraph.WaitForGraph.AddEdge` | internal/deadlock/graph.go:23-34 | exactly one wait is added, both nodes are present |
| `WaitForGraph.WaitForGraph.RemoveNode` | internal/deadlock/graph.go:37-44 | the node and the edges to and from it are gone |
| `WaitForGraph.WaitForGraph.RemoveEdges` | internal/deadlock/graph.go:48-52 | only the node's own waits are gone |
| `WaitForGraph.WaitForGraph.Resolve` | internal/deadlock/detector.go:61-79 | find and remove until acyclic: at most one round per node removed; every victim is the largest id of a cycle no earlier victim was on; the cycles left are exactly those without a victim, so none |
| `PageImage.ParseBack` | internal/storage/page.go:90-98 | a record reads back as its key and value |
| `PageImage.RecordLayout` | internal/storage/page.go:90-98 | the place of the lengths and contents of a record |
| `Page.InsertOk` | internal/storage/page.go:116-133 | a record written in the free space and its slot keep all records disjoint, above the directory and unchanged |
| `Page.UpdateOk` | internal/storage/page.go:154-161 | so does a shorter record written over its predecessor |
| `Page.DeleteOk` | internal/storage/page.go:171-177 | so does a tombstone |
| `Page.OtherRowsStay` | internal/storage/page.go:90-134 | an insert, successful or not, changes no live row |
| `Page.LiveRowsRoom` | internal/storage/page.go:219-254 | the live rows of a sound page always fit an empty page |
| `Page.SlottedPage.GetRow` | internal/storage/page.go:181-204 | the slot's row, nothing for deleted or missing slots |
| `Page.SlottedPage.InsertRow` | internal/storage/page.go:90-134 | full exactly when the free bytes do not hold the record and, if no slot is deleted, a new slot, then unchanged; else the row is in a deleted or a new slot and all others are as they were |
| `Page.SlottedPage.UpdateRow` | internal/storage/page.go:138-168 | in place when no longer; else moved to the first deleted slot, its own or an earlier one; when it does not fit, the slot is left deleted |
| `Page.UpdateLosesExactly` | internal/storage/page.go:138-168 | an update keeps the number of live rows unless the new row is longer and does not fit the page without the old one; then exactly that row is lost |
| `Page.FullPage` | internal/storage/page.go:163-167 | a sound page with one row whose update to a row one byte longer loses it |
| `Page.SlottedPage.DeleteRow` | internal/storage/page.go:171-177 | exactly that slot is deleted |
| `Page.SlottedPage.Reinsert` | internal/storage/page.go:243-252 | the next row always fits: the panic is unreachable |
| `Page.SlottedPage.Compact` | internal/storage/page.go:219-254 | the same live rows in the same order, no deleted slots, and an index of exactly the keys there are, each with its last slot |
| `GapLock.LockForRangeScan` | internal/txn/gap_lock.go:36-110 | locks the table, then exactly the rows in range, the gap below each and the trailing gap |
| `GapLock.ScannedMeans` | internal/txn/gap_lock.go:53-110 | only rows in range, only gaps with no key inside, and besides the trailing one only gaps below a row in range are locked |
| `GapLock.LockForInsert` | internal/txn/gap_lock.go:118-165 | locks the gap between the neighbouring keys and the row; refuses unsafe keys after the table lock |
| `GapLock.InsertMeetsScan` | internal/txn/gap_lock.go:53-163 | for every scan range over the same keys and every key in it, a lock the insert takes X is one the scan took S |
| `GapLock.LaterInsertMeetsScan` | internal/txn/gap_lock.go:53-163 | if the keys changed between scan and insert, they conflict if and only if the key was there or falls into a gap with the same name |
| `GapLock.PhantomSlipsIn` | internal/txn/gap_lock.go:96-163 | a scan, a delete above its range and an insert into the range that meets no lock of the scan |
| `Ssi.MembersArePivots` | internal/isolation/ssi.go:99-109 | every member of a recorded cycle has an edge each way |
| `Ssi.CycleStep` | internal/isolation/ssi.go:81-122 | no step commits a member of an intact cycle |
| `Ssi.CycleDoesNotCommit` | internal/txn/manager.go:250-291 | once a cycle of recorded conflicts exists among active transactions they never all commit, and none commits before one has aborted |
| `SsiRuns.ReadersExactly` | internal/isolation/ssi.go:38-45 | in every run the readers on record are those that read the key and were not cleaned up |
| `SsiRuns.EdgesExactly` | internal/isolation/ssi.go:48-66 | in every run there is an edge exactly if the one read a key that the other wrote later, while the reader was active, and neither was cleaned up |
| `SsiRuns.CommitRefusedExactly` | internal/txn/manager.go:250-291 | a commit is refused exactly if the transaction has such a conflict on each side: it read what another wrote, and wrote what another read |
| `SsiRuns.CycleOfReadsDoesNotCommit` | internal/txn/manager.go:250-291 | in every run: transactions that are all active when each has read a key the next one wrote later never all commit, and none before one has aborted |
| `SsiRuns.LateWriteSlips` | internal/isolation/ssi.go:53-57 | a run in which two transactions each read what the other wrote, the second write after the first commit, and both commit |
| `Ssi.SsiTracker.RecordRead` | internal/isolation/ssi.go:38-45 | the reader is noted under the key |
| `Ssi.SsiTracker.RecordWrite` | internal/isolation/ssi.go:48-66 | exactly the edges from the other active readers of the key are added, in any order |
| `Ssi.SsiTracker.CheckCommit` | internal/isolation/ssi.go:81-109 | refuses exactly pivots |
| `Ssi.SsiTracker.CleanUp` | internal/isolation/ssi.go:112-122 | the transaction is gone from all reads and edges |

## Scope and assumptions

* B+ tree: the buffer pool never fails; the only failing page write is one that does not fit. Keys are
  compared as byte strings.
* Two-phase locking: one process lifetime, no checkpoints, no failing log append; a write (log, undo
  entry, row) is one step, and a transaction makes one call at a time. Waiting for a row lock is either
  granted or given up. Tables always exist, so a row is named by table and key; a delete carries no value.
  Values are their encodings. In runs every write is well-formed: inserts hit absent rows and updates
  present ones, which is exactly when undo can reverse them (`UndoneExactly`).
* Recovery reads one log file of whole records; CRC is an arbitrary function.
* Raft: persisting succeeds, a reply pairs with its call, members are fixed and have non-empty ids, terms
  do not overflow.
* Multi-version reads: ids come from `Begin`; no vacuum, history pruning, reset or savepoints; chain locks
  make a write one step; the two halves of an abort's undo may come at any time and in any order.
* Lock queue: one queue object, one outstanding request per transaction. Request status is membership in
  the granted or waiting list.
* Page: the header image and its checksum are not modelled.
* Gap locks: each call sees a sorted list of keys and gets its locks.

## Left out

- Raft log replication, commit index and snapshots: the code's log repair does not support log matching.
- Vacuum and history pruning: the code does not promise what their names suggest.
- MVCC scans, read-committed statements and savepoints: they would add easy members.
- Lock-table reaping and the races between held sets and wake-ups: lock properties are stated per queue.
- Completeness of the wait-for graph with respect to waiting: the immediate grant path adds no edges.
- WAL buffering, group commit, fsync and checkpoints; reopening a B+ tree from disk; buffer pool and heap file.
- Timeouts, callbacks, metrics, the HTTP API, transport and the web interface.
- DecodeEncode: checkpoint records are not among the modelled types.
- RunRecovery: starts from the whole log; the analysis table is not seeded from a checkpoint.
- TwoPLWrite: takes no intention lock on the table and has no missing-table error, since rows are named by table and key.
- CommitTxn: the log flush does not fail, so no commit record stays behind for a transaction left active.
- ReleaseAllLocks: waking the waiters is part of the queue model (`ReleaseLock`), not of this loop.
- LiveAgreesWithRecovery: commits after a savepoint rollback only under the exact condition of `CommitExactly`.
- RepeatableRead: runs without deletes, since with them it is false; `OverwriteMovesRead` gives the exact condition per step.
- NoLostWakeup: queues with S and X requests, since with intention modes it is false; `AcquireBlocksExactly` gives the exact condition.
- ApplyUndoOps: recovery's separate undo applier is not called by the server and is not modelled.
