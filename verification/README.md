# basuyudb: verified models

Dafny models of the parts of basuyudb whose behaviour is hardest to get right, and proofs of what those
parts promise: the multi-version transaction engine and its iterators, the replicated state machine,
secondary indexes and the plans that use them, foreign keys with recursive and deferred checks,
copy-on-write branches, recursive queries, set operations, window functions, and the codecs.

`dafny verify dfyconfig.toml` checks the whole project.

| file | models |
|---|---|
| Bytes, Decimal, RowCodec, Keys, OrderEncoding | byte strings, stored rows, key layout, memcomparable encodings |
| Versions, SnapshotIsolation, PartialFlush, Engine | the version store, the engine as a step system over all interleavings, failed flushes, the engine object |
| MergeIterator | a transaction's merged scan |
| Replication | the log-driven state machine and its proposal codec |
| Sequences, SequenceFaults | `nextSequenceVal` under concurrency and failed flushes |
| IndexMaintenance, IndexRuns, IndexFaults | index upkeep in every run, and when flushes fail |
| QueryPlan, IndexScan, IndexSelect, EarlyStop, Rekey | planning, what a planned SELECT returns, and in which runs; LIMIT under an index scan; UPDATE of a primary key |
| ForeignKeys, FkSession | what a delete may do; the session object that enforces keys over a transaction |
| Branches, MergeIndex | branch scans and MERGE; what a merge does to main's indexes |
| RecursiveCte, BlockKeys, SetOps, Windows | query evaluation loops |
| Numeric, CopyBinary, RecordText, CopyText | codecs |

The transaction engine is a function `Step` from states and events to states; a run is any sequence of
events, so a theorem about runs covers every interleaving, with commits cut into single key checks and
single key writes. Sequences and indexes are proved over runs of the same step system. Objects the source
updates in place (engine, transaction, iterators, state machine, foreign-key session) are classes whose
methods are proved against specification functions.

## Where the code falls short of its documentation

The members named after each point state it: a concrete input, the exact condition, or both.

- `LatestVersion` is documented to count a delete as a version (engine/internal/storage/store.go:73-76); the
  shipped one does not find deleted keys (194-205). First committer wins then fails exactly for commits over
  a newer delete (`NoLostUpdateInAnyRun`, `ShippedCheckLosesADelete`), and log replay is idempotent exactly
  when no aborted entry revives (`ReplayUnchangedIff`, `ShippedReplayRevivesAbortedEntry`).
- A flush that fails part-way leaves versions that the next commit, reusing the timestamp, makes visible
  (`PartialFlushShowsHalfACommit`). Readers see whole commits only exactly when every commit goes over leftovers
  that it overwrites or that say what was there (`WholeCommitsIff`); the same leftovers make a sequence skip
  (`GapFreeIff`) and decide whether indexes stay exact (`IndexExactDespiteFailures`). The other theorems about
  runs take failed flushes to leave nothing behind.
- A seek below the iterator's prefix can miss entries (`SeekBelowPrefixMisses`, condition in `SeekScanIsView`).
- Keys are stored as written, so a point get can miss a row its predicate keeps
  (`PointGetMissesUncanonicalKey`); every point get finds its rows exactly when every stored key is in canonical
  spelling (`PointGetsFindIff`, `PointGetsFindInEveryRun`).
- WHERE is applied again after an index scan, so the scan is meant to be a mere accelerator
  (engine/internal/executor/join.go:713). A
  composite index used by its leading column is not: rows with NULL in a later column have no entry, and rows
  at the upper bound whose next column starts with 0xFF lie past the last key (`LeadingPlanLosesNullRow`,
  `LeadingPlanLosesHighRow`, condition in `PlanReturnsSameRows`).
- An index chosen for ORDER BY alone drops rows with NULL in the column (`OrderByLosesNullRow`,
  `OrderOnlyPlanIff`, `OrderedPlanIff`).
- The comment on the early stop says that without WHERE every scanned row is in the result
  (engine/internal/executor/index_scan.go:251-254). Row-level security, grouping and window functions run between
  the scan and the LIMIT and notice it (`GroupByLimitMiscounts`, `HiddenRowTakesThePlace`, exactly when in
  `EarlyStopIff`).
- An UPDATE that changes a primary key writes the new version and leaves the old row, without its index entries
  (`TwoRowsAfterRekey`, `OldRowStays`, `RekeySyncedIff`); if the key was taken it overwrites the other row and can
  orphan its children (`RekeyOverwritesParent`, `RekeyCoverage`).
- An UPDATE of a self-referencing row can leave an orphan (`SelfUpdateLeavesOrphan`, condition in
  `Session.Update`, `KeptColumns`). A failing SET CONSTRAINTS forgets the checks after the failing one, although
  the comment says they are kept (`SecondCheckForgotten`, `LeftIff`). A child check is run again at COMMIT even
  when its row is gone (`DeletedRowBlocksCommit`, `CommitIff`).
- ON DELETE SET NULL of a column that is itself referenced orphans the rows that reference it
  (`SetNullOrphansLine`, `SetNullCoverage`).
- A CASCADE cycle is not followed to its end but always refused (`SelfReferenceUndeletable`,
  `CyclicDeleteRefused`).
- The comment on MERGE says spans are branch-local and not merged; they lie under the data root and are
  (`SpanIsMerged`, `MergeKeepsMainIff`). A branch statement on a table without a primary key writes main's keys
  (`KeylessDeleteReachesMain`, `WriteIsLocalIff`). A merge leaves main's indexes as they were
  (`MergedRowNotIndexed`, `MergeSyncedIff`).
- Row signatures collide when texts hold their separator bytes (`SignaturesCollide`, `MarkersCollide`; exactly
  which rows in the two lemmas `TwinIff`), and ordering numbers among other texts is not transitive
  (`MixedKindsCycle`, `OrdersColumnIff`).
- UNION in a recursive query removes duplicates among new rows only; duplicates of the base rows stay
  (`UnionKeepsBaseDuplicates`, `UnionDistinctIff`).
- The comment on the numeric encoder says that values it cannot parse round trip as text; none does
  (`NumericUnchangedIff`, `NoFallbackRoundTrip`, `InfinityIsUnreadable`).
- COPY text escapes the tab but no other delimiter (`CommaSplitsText`, `CopyTextRoundTrip`).
- `decodeRecordText` is documented as the inverse of `encodeRowText`; it is, except for the lone NULL
  (`RecordRoundTrip`).

## Model

| member | source | states |
|---|---|---|
| `Versions.NewestTs` | engine/internal/storage/store.go:73-76 | the timestamp found is at or below the read timestamp and has a version of the key |
| `Versions.NewestTsBound` | engine/internal/storage/store.go:73-76 | no version of the key at or below the read timestamp is newer than the one found, and none is missed |
| `Versions.WriteAllContents` | engine/internal/transactions/engine.go:260-276 | a flushed batch leaves exactly one version per written key at the commit timestamp, holding the key's last mutation, and changes nothing else |
| `Versions.ReadAfterCommit` | engine/internal/transactions/engine.go:216-282 | right after a commit every key reads as the batch laid over what was there before |
| `Versions.ReadBelowWriteAll` | engine/internal/transactions/engine.go:216-282 | a commit is invisible to every read timestamp below it |
| `Versions.ContractConflict` | engine/internal/storage/store.go:73-76 | with the documented LatestVersion, no conflict means no version of the key is newer than the snapshot, and conversely |
| `Versions.ShippedConflict` | engine/internal/storage/store.go:194-205 | the shipped LatestVersion reports exactly the contract's conflicts except on keys whose newest version is a delete |
| `SnapshotIsolation.StartInv` | engine/internal/transactions/engine.go:117-135 | an engine opened on any well-formed store starts in the invariant |
| `SnapshotIsolation.StepInv` | engine/internal/transactions/engine.go:139-291 | every step of every interleaving (begin, buffer, lock, check one key, flush one key, publish, abort, rollback, reopen) keeps the store equal to the serial execution of the published commits plus the flushed part of at most one commit in flight |
| `SnapshotIsolation.StepHistory` | engine/internal/transactions/engine.go:216-282 | only Publish extends the history, by exactly the commit in flight; in the invariant that commit is newer than everything published |
| `SnapshotIsolation.StepBuffers` | engine/internal/transactions/engine.go:207-209 | a step touches the buffer of one transaction only, by appending or by ending it |
| `SnapshotIsolation.RunInv` | engine/internal/transactions/engine.go:97-291 | the invariant over whole runs: the opening store never changes, the history only grows, snapshots stay where they are |
| `SnapshotIsolation.ReplayIsSerial` | engine/internal/transactions/engine.go:216-282 | the version store after replaying the commits reads, at the end, as plain serial execution without timestamps |
| `SnapshotIsolation.ReplayReads` | engine/internal/transactions/engine.go:155-172 | reading the replayed store at a past timestamp gives the serial state after the commits up to it |
| `SnapshotIsolation.SnapshotIsPrefix` | engine/internal/transactions/engine.go:155-172 | in every reachable state, mid-flush included, a snapshot is exactly a prefix of the commit history |
| `SnapshotIsolation.AtomicVisibility` | engine/internal/transactions/engine.go:216-282 | in every state of every run a transaction sees each commit in full or not at all |
| `SnapshotIsolation.SnapshotStable` | engine/internal/transactions/engine.go:139-172 | whatever other transactions do, a transaction's reads do not change while it lives |
| `SnapshotIsolation.PublishLosesNothing` | engine/internal/transactions/engine.go:241-255 | the commit being published loses an earlier update exactly when the shipped check lets it overwrite a newer delete |
| `SnapshotIsolation.NoLostUpdateInAnyRun` | engine/internal/transactions/engine.go:241-282 | commit timestamps increase; first committer wins in every run under the contract, and with the shipped LatestVersion if and only if the run never publishes over a delete newer than the publisher's snapshot |
| `SnapshotIsolation.WrittenKeyUnchanged` | engine/internal/transactions/engine.go:241-255 | what an accepted writer overwrites is what its snapshot showed it, or a delete under the shipped check |
| `Engine.Engine.constructor` | engine/internal/transactions/engine.go:117-135 | the clock resumes at the highest persisted version, at least 1 |
| `Engine.Engine.Begin` | engine/internal/transactions/engine.go:139-151 | a new transaction reads at the clock with an empty buffer |
| `Engine.Engine.Get` | engine/internal/transactions/engine.go:155-172 | the backward buffer scan returns the overlay of the buffer on the snapshot, for every key and error case |
| `Engine.Engine.Buffer` | engine/internal/transactions/engine.go:207-209 | appends one mutation and changes nothing else |
| `Engine.Engine.Commit` | engine/internal/transactions/engine.go:216-282 | refuses exactly on a conflict of a key it got to look up, otherwise writes the whole batch at clock + 1; a failed version lookup changes nothing and leaves the transaction open, a failed flush leaves the clock and exactly the writes made so far; when it succeeds is stated both ways |
| `Engine.Engine.CommitReplicated` | engine/internal/transactions/engine.go:225-239 | the clustered path: the state machine fed the proposal decides and applies at the log index exactly what the local commit would at that timestamp; when the proposal errs, the entry has been applied in full or not at all, as the log had it |
| `Engine.Engine.Rollback` | engine/internal/transactions/engine.go:284-291 | ends the transaction and drops its buffer |
| `Engine.CommitRefinesSteps` | engine/internal/transactions/engine.go:216-282 | the uninterrupted steps of the step system have exactly the effect of the Commit method |
| `Engine.AbortRefinesSteps` | engine/internal/transactions/engine.go:241-255 | the steps of a refused commit leave store, clock and history alone |
| `Engine.ShippedCheckLosesADelete` | engine/internal/storage/store.go:194-205 | a concrete run in which the shipped LatestVersion loses a concurrent delete that the contract would have caught |
| `Engine.PartialFlushShowsHalfACommit` | engine/internal/transactions/engine.go:256-282 | a concrete run in which a failed flush is half visible after the next commit reuses its timestamp |
| `PartialFlush.RunAnyInv` | engine/internal/transactions/engine.go:216-291 | in every run, with any flush failing at any key, the store is the serial execution of the clock's advances, each with the leftovers of the failed flushes before it, plus the leftovers not yet passed over |
| `PartialFlush.SnapshotInAnyRun` | engine/internal/transactions/engine.go:155-172 | in every such run a snapshot is a prefix of those advances |
| `PartialFlush.AdvanceFaithfulIff` | engine/internal/transactions/engine.go:256-282 | one advance of the clock keeps the store what the published commits make it exactly when the leftovers it passes over are overwritten by it or say what was there |
| `PartialFlush.WholeCommitsIff` | engine/internal/transactions/engine.go:216-291 | in every run, however flushes fail, readers at every timestamp see whole published commits only, if and only if that holds of every advance |
| `PartialFlush.CleanLeavesNothing` | engine/internal/transactions/engine.go:256-282 | runs whose failed flushes wrote nothing have no leftovers, so the condition holds |
| `PartialFlush.NoLostUpdateDespiteFailures` | engine/internal/transactions/engine.go:241-282 | however flushes fail: under the LatestVersion contract no published update is lost in any run, and with the shipped one none is exactly in the runs in which no publish goes over a delete, published or left over, that hides a newer commit of a key it writes |
| `PartialFlush.ReadsPublishedIff` | engine/internal/transactions/engine.go:216-291 | one key at a time: readers at every timestamp see what was published of it if and only if the leftovers under every advance are harmless to it |
| `PartialFlush.AcceptedKeyUnchanged` | engine/internal/transactions/engine.go:241-255 | in runs with failed flushes, what an accepted writer overwrites is what its snapshot showed it, or a delete under the shipped check, unless a leftover delete hides the key |
| `MergeIterator.LatestByKey` | engine/internal/transactions/merge_iter.go:14-22 | the map holds the last mutation of each buffered key under the prefix |
| `MergeIterator.BufferedForPrefix` | engine/internal/transactions/merge_iter.go:14-33 | exactly the last mutation of every buffered key under the prefix, in strictly ascending key order |
| `MergeIterator.SortByKeyCorrect` | engine/internal/transactions/merge_iter.go:28-31 | the sort keeps every mutation and orders them strictly |
| `MergeIterator.MergeLookup` | engine/internal/transactions/merge_iter.go:72-107 | the merge holds for each key the buffered write, nothing for a buffered delete, else the snapshot's value |
| `MergeIterator.MergeAscends` | engine/internal/transactions/merge_iter.go:72-107 | the merge is strictly ascending, so each key appears once |
| `MergeIterator.MergedIterator.Produce` | engine/internal/transactions/merge_iter.go:72-107 | consumes exactly the first remaining merged entry, skipping deletes and shadowed snapshot entries |
| `MergeIterator.MergedIterator.Rewind` | engine/internal/transactions/merge_iter.go:47-51 | stands on the first merged entry of the prefix |
| `MergeIterator.MergedIterator.Seek` | engine/internal/transactions/merge_iter.go:53-60 | stands on the first merged entry at or above the key |
| `MergeIterator.Walk` | engine/internal/transactions/merge_iter.go:38-107 | draining the iterator yields the specified scan result |
| `MergeIterator.SeekScanIsView` | engine/internal/transactions/merge_iter.go:53-107 | a walk from Seek is ascending and equals what Get returns for every key of the prefix from the bound on, if and only if the seek lands on the prefix, past the last key, or has nothing left to find |
| `MergeIterator.SeekUnderPrefixReaches` | engine/internal/transactions/merge_iter.go:53-60 | that condition holds for every bound under the prefix, which is what callers pass |
| `MergeIterator.RewindScanIsView` | engine/internal/transactions/merge_iter.go:47-107 | a walk from Rewind is exactly the transaction's view of the prefix: each key once, ascending, values as Get returns them |
| `MergeIterator.SeekBelowPrefixMisses` | engine/internal/transactions/merge_iter.go:53-60 | a concrete bound below the prefix from which the walk loses entries |
| `Replication.EntryVersions` | engine/internal/consensus/statemachine.go:48-87 | the versions at a log index are that entry's own writes, and present exactly if it was accepted |
| `Replication.ReapplyEntry` | engine/internal/consensus/statemachine.go:48-87 | re-applying one entry of an applied log is a no-op exactly when it does not revive |
| `Replication.ReplayUnchangedIff` | engine/internal/consensus/statemachine.go:48-100 | re-applying a prefix of an applied log leaves the version store unchanged if and only if none of its entries revives |
| `Replication.ReplayIsIdempotent` | engine/internal/consensus/statemachine.go:48-100 | under the LatestVersion contract replay never changes the store |
| `Replication.ReplicasAgreeOnSnapshots` | engine/internal/consensus/statemachine.go:48-87 | replicas that have applied different amounts of the log agree on every snapshot both can serve |
| `Replication.LogLosesUpdateIff` | engine/internal/consensus/statemachine.go:48-87 | an accepted entry loses an earlier accepted write of a key it writes if and only if, under the shipped check, it goes over a delete newer than its snapshot |
| `Replication.StateMachine.Update` | engine/internal/consensus/statemachine.go:48-87 | decodes, checks every key, applies the batch at the log index or reports an abort; a decode error changes nothing |
| `Replication.ApplyEntries` | engine/internal/consensus/statemachine.go:48-87 | a replica fed the marshalled log ends in the store, and reports the results, that the log determines |
| `Replication.MarshalProposal` | engine/internal/consensus/codec.go:34-58 | the byte-appending loop writes the specified encoding |
| `Replication.UnmarshalProposal` | engine/internal/consensus/codec.go:71-102 | the position-tracking decoder, with all its bounds checks, computes the specified decoding |
| `Replication.MutationReadIff` | engine/internal/consensus/codec.go:75-100 | of any bytes: the decoder yields a mutation exactly when they are a flag byte, the key behind its length and the value behind its length; only flag 1 is a delete, and what follows is left over |
| `Replication.ProposalRoundTrip` | engine/internal/consensus/codec.go:34-102 | what a proposer sends is what every replica decodes |
| `Replication.ProposalBytes` | engine/internal/consensus/codec.go:34-58 | a concrete proposal with a write and a delete, byte by byte |
| `Replication.ShippedReplayRevivesAbortedEntry` | engine/internal/consensus/statemachine.go:48-87 | a concrete log whose replay, with the shipped LatestVersion, applies an entry that had been aborted |
| `Sequences.CurrentIsCount` | engine/internal/executor/defaults.go:125-140 | the value a transaction is handed is one more than the values its snapshot saw plus its own |
| `Sequences.PublisherSawAll` | engine/internal/executor/defaults.go:125-140 | a transaction that commits an allocation had seen every committed value |
| `Sequences.CommittedValuesAreGapFree` | engine/internal/executor/defaults.go:125-140 | in every interleaved run the values of the committed transactions are exactly 1..n in commit order, several per transaction included |
| `SequenceFaults.GapFreeIff` | engine/internal/executor/defaults.go:125-140 | in every run, however flushes fail: the stored counter is the number of values committed at every point if and only if the leftovers under every advance of the clock are harmless to the counter, and the committed values are then exactly 1..n |
| `Decimal.FormatRoundTrip` | engine/internal/executor/defaults.go:125-140 | the counter's decimal text reads back as the number |
| `Decimal.SignedRoundTrip` | engine/internal/executor/orderenc.go:25-40 | every int64 is read back from its own decimal text |
| `Decimal.TrueAndFalse` | engine/internal/executor/orderenc.go:76-82 | which texts are true, on the spellings the source lists and on some it does not |
| `OrderEncoding.EncodeOrderedText` | engine/internal/executor/orderenc.go:64-74 | the escaping loop writes the specified encoding |
| `OrderEncoding.EncodingDecides` | engine/internal/executor/orderenc.go:20-74 | whatever bytes follow, encodings of two different values compare as the values do: order-preserving and prefix-free at once |
| `OrderEncoding.TupleDecides` | engine/internal/executor/index.go:58-71 | concatenated tuples compare bytewise exactly as the value tuples do, whatever follows |
| `OrderEncoding.TuplePrefixFree` | engine/internal/executor/index.go:58-71 | equal concatenations mean equal tuples and equal remainders |
| `OrderEncoding.LessTotal` | engine/internal/executor/orderenc.go:20-59 | values of one type are ordered one way or the other |
| `OrderEncoding.TupleLessTotal` | engine/internal/executor/index.go:58-71 | so are tuples of one shape |
| `OrderEncoding.FirstByte` | engine/internal/executor/orderenc.go:20-74 | an encoding starts with 0xFF exactly for integers from 0x7F00000000000000 up and texts whose first byte is 0xFF |
| `Keys.RowKeyInjective` | engine/internal/storage/keys.go:110-135 | two primary keys of a table have the same row key only if they are equal, whatever their bytes and lengths |
| `Keys.RowKeyOrder` | engine/internal/storage/keys.go:110-135 | rows are ordered by their length-prefixed keys |
| `Keys.TablesDisjoint` | engine/internal/storage/keys.go:118-135 | no key belongs to two tables of a branch |
| `Keys.MainAndBranchDisjoint` | engine/internal/storage/keys.go:87-135 | main and a feature branch share no data key |
| `Keys.DataAndIndexDisjoint` | engine/internal/storage/keys.go:118-160 | rows and index entries share no key |
| `Keys.IndexesDisjoint` | engine/internal/storage/keys.go:142-160 | no key belongs to two indexes of a table |
| `Keys.IndexKeyOrder` | engine/internal/storage/keys.go:142-160 | entries are ordered by value tuple, then by row order |
| `Keys.IndexKeyInjective` | engine/internal/storage/keys.go:142-160 | an entry key determines its value tuple and primary key |
| `Keys.KeyBytes` | engine/internal/storage/keys.go:87-162 | a row key on main, one on a branch and an index key, byte by byte |
| `Keys.ValuePrefixExact` | engine/internal/storage/keys.go:166-170 | the equality prefix matches precisely the entries with that value tuple |
| `RowCodec.RowRoundTrip` | engine/internal/executor/encode.go:20-76 | a stored row decodes to the cells written and is not a tombstone |
| `RowCodec.AddedColumnsAreNull` | engine/internal/executor/encode.go:42-76 | columns added after the row was written read as NULL |
| `RowCodec.CutCellIsError` | engine/internal/executor/encode.go:42-76 | a cell cut short at any byte is an error |
| `RowCodec.StoredBytes` | engine/internal/executor/encode.go:20-41 | a concrete row, byte by byte; a tombstone and an empty value do not decode |
| `IndexMaintenance.EncodeIndexTuple` | engine/internal/executor/index.go:58-71 | the loop reports NULL, a bad value or the encoded tuple, first offender first |
| `IndexMaintenance.IndexEntries` | engine/internal/executor/index.go:291-320 | buffers exactly one write or delete per index whose columns are all non-NULL; fails exactly when an indexed value is not of its type, with only entries of earlier indexes buffered |
| `IndexMaintenance.EntryMutsLast` | engine/internal/executor/index.go:291-320 | among one row's index writes an entry key is written exactly if it is that row's entry |
| `IndexRuns.PutReplaces` | engine/internal/executor/dml.go:394-401 | INSERT, UPDATE and upsert replace one row and its entries and touch nothing else of the table |
| `IndexRuns.DeleteReplaces` | engine/internal/executor/dml.go:479-487 | DELETE removes one row and its entries and touches nothing else of the table |
| `IndexRuns.StatementReplaces` | engine/internal/executor/upsert.go:70-80 | the statement's mutations replace the row the transaction sees, or are empty |
| `IndexRuns.StatementShows` | engine/internal/executor/upsert.go:17-96 | INSERT is refused if and only if the transaction sees a row at the key; after the statement it sees there the new row, the DO UPDATE row, the old one under DO NOTHING, or none, and every other row as before |
| `IndexRuns.CommitSyncs` | engine/internal/executor/dml.go:193-220 | committing a buffer that was exact over an older snapshot leaves the committed indexes exact, given that no written key changed in between |
| `IndexRuns.IndexExactInEveryRun` | engine/internal/executor/index.go:291-320 | in every interleaved run, after every commit, each index holds exactly one entry per live row with non-NULL indexed columns, and the same holds of every row in every transaction's own view |
| `IndexFaults.IndexExactDespiteFailures` | engine/internal/executor/index.go:291-320 | in every run, however flushes fail: while the leftovers are harmless to the rows of the table and no commit writes a row whose newer version a leftover delete hides, the published commits keep every index exact at every timestamp, and readers see that of exactly the keys the leftovers are harmless to |
| `IndexFaults.WrittenRow` | engine/internal/transactions/engine.go:241-255 | under those conditions a row that a commit writes is as its snapshot showed it, or gone |
| `IndexRuns.FreshTableSynced` | engine/internal/executor/index.go:291-320 | a table nobody has written satisfies the starting condition |
| `QueryPlan.BoundsSound` | engine/internal/executor/index_scan.go:576-668 | every row the predicate keeps has a value within the extracted bounds |
| `QueryPlan.KeepsOr` | engine/internal/executor/eval.go:173-182 | WHERE with OR keeps a row if and only if it keeps it for one of the arguments |
| `QueryPlan.KeepsAnd` | engine/internal/executor/eval.go:162-172 | WHERE with AND keeps a row if and only if it keeps it for every argument |
| `QueryPlan.KeepsNot` | engine/internal/executor/eval.go:156-161 | WHERE with NOT keeps exactly the rows its argument does not keep, unknown ones included |
| `QueryPlan.NotKeepsUnknown` | engine/internal/executor/eval.go:58-61 | a NULL in the column makes the equality unknown, and its negation keeps the row |
| `QueryPlan.KeepsComparison` | engine/internal/executor/eval.go:1849-1892 | each of the six operators by the order of values, both ways; none keeps a row with NULL on a side |
| `QueryPlan.IntegerComparison` | engine/internal/executor/eval.go:1849-1892 | on an integer column the six operators are those of the numbers |
| `QueryPlan.UnreadableIsZero` | engine/internal/executor/eval.go:1859-1868 | a cell of an integer column that is no integer compares as 0 |
| `QueryPlan.TextComparison` | engine/internal/executor/eval.go:1869-1871 | on a text column the six operators are bytewise |
| `QueryPlan.BooleanComparison` | engine/internal/executor/eval.go:1869-1871 | on a boolean column f comes before t |
| `QueryPlan.EqualitiesSound` | engine/internal/executor/index_scan.go:468-488 | every row the predicate keeps has each collected equality's value |
| `QueryPlan.FindIndex` | engine/internal/executor/index.go:102-125 | the single pass finds the first single-column index, else the first index with the column in front, and none only if there is none |
| `QueryPlan.FindIndexForEquality` | engine/internal/executor/index.go:130-155 | the nested loops find the widest index whose columns all have equalities, the first of equals |
| `QueryPlan.PlanBoundsSound` | engine/internal/executor/index_scan.go:114-316 | every row the predicate keeps lies, by the leading columns of its index tuple, within the range of whatever plan WHERE drives, composite equalities included |
| `QueryPlan.EqualityCollected` | engine/internal/executor/index_scan.go:468-488 | an equality with a constant, either way round, is found at any place of a conjunction |
| `QueryPlan.CompositeIndexUsed` | engine/internal/executor/index_scan.go:274-312 | with an equality on every column of a composite index the plan reads one tuple, of an index at least as wide |
| `QueryPlan.FullScanOnlyIf` | engine/internal/executor/index_scan.go:114-270 | the table is scanned in full only when no index starts with the bounded or sorted column and none has an equality on each of its columns |
| `QueryPlan.FlippedKeeps` | engine/internal/executor/index_scan.go:670-683 | a comparison with the constant on the left and its turned-round form keep the same rows |
| `QueryPlan.MergedBounds` | engine/internal/executor/index_scan.go:613-668 | a range written as two comparisons bounds both ends, whichever end comes first and on whichever side the constant stands; of two bounds on one end the later wins |
| `QueryPlan.MergedBoundsMayBeLoose` | engine/internal/executor/index_scan.go:653-668 | merged bounds are not the intersection: a later bound replaces an earlier one |
| `IndexScan.ScanIndexRange` | engine/internal/executor/index_scan.go:493-554 | the loop over the merged iterator fetches the specified rows, cut at the early-stop LIMIT; a LIMIT applied to these rows themselves gives the same |
| `EarlyStop.PartitionRows` | engine/internal/executor/agg.go:445-480 | the buckets of GROUP BY: the keys in first-seen order, each with exactly its rows in order |
| `EarlyStop.EarlyStopIff` | engine/internal/executor/index_scan.go:251-262 | for every LIMIT, row-level security policy and list of rows: a plain select list, count(*), count(*) with GROUP BY and count(*) OVER (PARTITION BY) answer the same from the shortened scan if and only if LIMIT is 0, nothing visible was cut off, or LIMIT visible rows were delivered and, for GROUP BY, each is alone in its group, for a partition, none has a partner beyond the cut |
| `EarlyStop.PlainSelectUnchanged` | engine/internal/executor/join.go:759-773 | without row-level security a plain select list is never changed by the early stop |
| `EarlyStop.ShortenedPlanIff` | engine/internal/executor/join.go:683-791 | where the index order is the sort, a statement served by the shortened index scan answers as the full scan and sort would exactly when the early stop is harmless on the sorted rows |
| `EarlyStop.GroupsInOrder` | engine/internal/executor/agg.go:552-567 | groups come out in the order of their first rows, so the sort over the groups moves none |
| `EarlyStop.OutputsMean` | engine/internal/executor/agg.go:445-550 | what each select list gives, said of the rows: the rows, their number, one line for each key that occurs with the number of its rows, each row with that number |
| `EarlyStop.GroupByLimitMiscounts` | engine/internal/executor/index_scan.go:251-262 | two concrete rows with b = 1: GROUP BY b ORDER BY b LIMIT 1 counts one |
| `EarlyStop.HiddenRowTakesThePlace` | engine/internal/executor/join.go:704-711 | two concrete rows of which a policy hides the first: ORDER BY b LIMIT 1 answers nothing |
| `IndexScan.RangeKeysExact` | engine/internal/executor/index_scan.go:228-249 | the byte bounds select exactly the tuples between the ends by their leading values, but for those that equal the upper end and go on with 0xFF |
| `IndexScan.RangeScanRows` | engine/internal/executor/index_scan.go:493-554 | a range scan returns a row if and only if it is live, has no NULL in the index, lies within the ends and is not cut off at the upper one |
| `IndexScan.RangeScanOrder` | engine/internal/executor/index_scan.go:493-554 | the rows come in index order, each with its entry |
| `IndexScan.FullScanRows` | engine/internal/executor/scan.go:76-145 | a full scan returns exactly the live rows, in key order |
| `IndexScan.StableSortAscends` | engine/internal/executor/index_scan.go:22-68 | stably sorting rows in scan order puts them in value order, ties in scan order |
| `IndexScan.PlanMembers` | engine/internal/executor/index_scan.go:114-316 | for every plan: a row is in the filtered result if and only if it is live, kept by the predicate and found by the plan |
| `IndexScan.PlanReturnsSameRows` | engine/internal/executor/index_scan.go:114-316 | for every predicate, ORDER BY and plan, filtering the plan's rows gives the multiset a full scan gives if and only if the plan finds every kept row: no NULL in a column of its index, not cut off, or stored under the constant's canonical text |
| `IndexScan.WholeTuplePlanFindsAll` | engine/internal/executor/index_scan.go:274-316 | a plan WHERE drives finds every kept row when its index has one column or every column an equality |
| `IndexScan.OrderOnlyPlanIff` | engine/internal/executor/index_scan.go:174-268 | a single-column index chosen for ORDER BY alone finds every kept row if and only if none is NULL in the column |
| `IndexScan.OrderedPlanIff` | engine/internal/executor/index_scan.go:174-268 | when the sort is skipped the rows are the very sequence of the stable sort if and only if the plan finds every kept row and index order is scan order among kept rows that tie |
| `IndexScan.OrderedPlanIsTheSort` | engine/internal/executor/index_scan.go:174-268 | so always with a single-column index and a WHERE on the ordered column |
| `IndexSelect.PointGetsFindIff` | engine/internal/executor/index_scan.go:206-213 | every query served by a point get finds its rows if and only if every stored key is the canonical spelling of its value |
| `IndexSelect.TextKeysCanonical` | engine/internal/executor/index_scan.go:557-568 | text keys always are |
| `IndexScan.CanonicalReadsBack` | engine/internal/executor/eval.go:58-110 | every integer, boolean and text is read back from its canonical text |
| `IndexSelect.PointGetMissesUncanonicalKey` | engine/internal/executor/index_scan.go:557-568 | a concrete row, key written '07', that id = 7 keeps and the point get misses |
| `IndexSelect.LeadingPlanLosesNullRow` | engine/internal/executor/index.go:119-124 | a table with an index on (b, c) holding only the row (1, 1, NULL), its index exact: WHERE b = 1 keeps the row, is planned on the index, and does not find it |
| `IndexSelect.LeadingPlanLosesHighRow` | engine/internal/executor/index_scan.go:242-249 | the same of the row (1, 1, 9223372036854775807), which the 0xFF sentinel cuts off |
| `IndexSelect.OrderByLosesNullRow` | engine/internal/executor/index_scan.go:174-268 | ORDER BY b over an index on b does not return a row with NULL in b |
| `IndexSelect.TxnViewInSync` | engine/internal/executor/index.go:291-320 | every transaction of every run sees a synchronised index |
| `IndexSelect.TxnScan` | engine/internal/transactions/merge_iter.go:38-107 | a transaction's merged iterator is a scan of its own view |
| `IndexSelect.IndexedSelectInEveryRun` | engine/internal/executor/index_scan.go:114-316 | end to end: in every state of every interleaved run a SELECT through any plan returns the rows of the transaction's full scan if and only if the plan finds every kept row |
| `IndexSelect.OrderedSelectInEveryRun` | engine/internal/executor/index_scan.go:174-268 | and an ordered plan its stable sort if and only if, besides, ties agree |
| `IndexSelect.KeysComeFromInserts` | engine/internal/executor/dml.go:193-220 | in every run a transaction sees rows only under keys that were there at the start or that an INSERT or upsert of the run named |
| `IndexSelect.PointGetsFindInEveryRun` | engine/internal/executor/index_scan.go:557-568 | so in runs whose INSERTs write canonical keys every point get of every transaction finds its rows |
| `IndexSelect.SelectExactInEveryRun` | engine/internal/executor/index_scan.go:114-316 | in such runs every SELECT by full scan, point get, single-column index or whole-tuple equality returns the rows of the full scan |
| `Rekey.OldRowStays` | engine/internal/executor/dml.go:394-398 | after an UPDATE that changes a row's primary key both the old and the new version are live |
| `Rekey.TwoRowsAfterRekey` | engine/internal/executor/dml.go:394-398 | a concrete table of one row that then has two |
| `Rekey.RekeySyncedIff` | engine/internal/executor/dml.go:394-401 | such an UPDATE keeps every index exact if and only if the old version had no entry in any of them and a row that had the new key had none but the new version's |
| `Rekey.IndexedRekeyLosesRow` | engine/internal/executor/dml.go:394-401 | otherwise the old version is still live and its index does not find it |
| `Rekey.SameKeyIsPut` | engine/internal/executor/dml.go:394-401 | with the same key the statement is the UPDATE of the run theorems |
| `ForeignKeys.Project` | engine/internal/executor/constraints.go:503-519 | the tuple of some columns, and no tuple exactly when one of them is NULL |
| `ForeignKeys.RefTupleStable` | engine/internal/executor/constraints.go:546-629 | nulling child columns never changes the tuple a row offers to its own children |
| `ForeignKeys.DeleteKeepsCoverage` | engine/internal/executor/constraints.go:546-629 | rows removed with their references dealt with leave no orphan off the pending list |
| `ForeignKeys.EffectCascade` | engine/internal/executor/constraints.go:578-592 | running a child's own actions and then removing it keeps the whole effect relation: only reachable rows removed, only justified NULLs, no cycle |
| `ForeignKeys.EffectSetNull` | engine/internal/executor/constraints.go:593-605 | nulling one child keeps the effect relation and ends its reference |
| `ForeignKeys.CascadeComplete` | engine/internal/executor/constraints.go:546-629 | after a handled delete no row reachable through CASCADE keys is left |
| `ForeignKeys.RefusedThrough` | engine/internal/executor/constraints.go:578-583 | what is refused for a CASCADE child one level deeper is refused for its parent, seen from the tables before the delete |
| `ForeignKeys.DeletedOneMore` | engine/internal/executor/dml.go:475-487 | one more row of a DELETE statement extends the statement's effect by that row and its cascade |
| `ForeignKeys.DeletedExactly` | engine/internal/executor/constraints.go:546-629 | a DELETE that succeeds removes a row if and only if it is a target or reachable from one through CASCADE keys |
| `ForeignKeys.DeletedExactlyIff` | engine/internal/executor/constraints.go:546-629 | in any schema it removes exactly its targets and their cascade if and only if SET NULL touched no row of the cascade |
| `ForeignKeys.DeletedExactlyUnless` | engine/internal/executor/constraints.go:546-629 | in any schema it does so whenever no row of the cascade references another row of it through a SET NULL key, whatever the order of the actions |
| `ForeignKeys.CyclicDeleteRefused` | engine/internal/executor/constraints.go:538-549 | no DELETE whose cascade runs into a cycle of rows ever succeeds |
| `ForeignKeys.SelfReferenceUndeletable` | engine/internal/executor/constraints.go:538-549 | a concrete row that references itself by CASCADE: no DELETE of it succeeds |
| `FkSession.ScanTable` | engine/internal/executor/scan.go:76-145 | lists exactly the rows of one table, each once |
| `FkSession.ParentTupleExists` | engine/internal/executor/constraints.go:413-482 | true exactly when some parent row has the tuple, by key probe or by scan |
| `FkSession.Session.constructor` | engine/internal/executor/txnctx.go:56-60 | a transaction starts with nothing pending and INITIALLY DEFERRED modes |
| `FkSession.Session.ApplyDelete` | engine/internal/executor/constraints.go:546-629 | on success: rows only removed or nulled, only reachable rows removed, every NULL justified by something gone, every reference to a removed row dealt with or pending, no cycle; on failure a chain of CASCADE references leads too deep or to a row an immediate key blocks; the recursion ends by the depth bound |
| `FkSession.Session.ApplyKey` | engine/internal/executor/constraints.go:556-626 | the same for one foreign key, and afterwards no child references the tuple except under a pending deferred check |
| `FkSession.Session.Delete` | engine/internal/executor/dml.go:426-508 | a DELETE statement, as scanned: exactly the targets and their cascade go, no orphan is off the pending list, and the checks added are of deferred keys that would have blocked, on tuples of removed rows that some row referenced; it fails only for a target whose cascade is too deep or blocked |
| `FkSession.Session.EnforceChild` | engine/internal/executor/constraints.go:362-408 | succeeds exactly when every immediate key of the row finds its parent; the checks added are exactly those of its deferred keys |
| `FkSession.Session.Insert` | engine/internal/executor/dml.go:130-220 | succeeds exactly when every immediate key finds its parent, the key is not NULL and not taken; then adds exactly that row and leaves no orphan off the list |
| `FkSession.Session.EnforceParentUpdate` | engine/internal/executor/constraints.go:634-701 | succeeds exactly when only deferred keys reference the old tuple, and then all of those are pending |
| `FkSession.Session.BlockChildren` | engine/internal/executor/constraints.go:657-697 | the same for one foreign key |
| `FkSession.Session.Update` | engine/internal/executor/dml.go:340-401 | succeeds exactly when the key is not NULL and the child check and, for a changed row, the parent check pass; then writes the new version under its own key, the old one staying when that is another; with the same key no orphan is off the list afterwards if and only if the row does not reference a tuple that only its own old version offered, with a new key if and only if it is free or everything only the overwritten row offered is pending |
| `FkSession.UpdateCoverage` | engine/internal/executor/constraints.go:362-408 | the same equivalence on the database before and after |
| `FkSession.SelfUpdateLeavesOrphan` | engine/internal/executor/dml.go:355-373 | a concrete self-referencing row whose update passes both checks and leaves an orphan |
| `FkSession.KeptColumns` | engine/internal/executor/dml.go:355-373 | an update opens a hole only by overwriting a row or changing a column that a key of its table to itself refers to |
| `FkSession.RekeyCoverage` | engine/internal/executor/dml.go:394-398 | the equivalence for a new key on the database before and after |
| `FkSession.LostMeans` | engine/internal/executor/dml.go:394-398 | the rows that lose their parent when a row is overwritten, said of the tables before, are exactly the orphans made |
| `FkSession.RekeyOverwritesParent` | engine/internal/executor/dml.go:394-398 | concrete orders: giving order 1 the key of order 2 passes both checks, overwrites order 2, keeps order 1 and orphans an item |
| `FkSession.RunOnePending` | engine/internal/executor/deferred.go:184-259 | passes exactly when the parent exists (child check) or no orphan of that key and tuple exists (parent check) |
| `FkSession.Session.RunPending` | engine/internal/executor/deferred.go:158-180 | succeeds exactly when every pending check that is meant, by ALL or by the name of its constraint, passes; then exactly the others remain, as often and in the order they were; else the others before the first meant check that fails, that check, and nothing behind it |
| `FkSession.KeptMeans` | engine/internal/executor/deferred.go:164-170 | what a run leaves when it succeeds, by constraint names alone: each other check as often and in the order it was |
| `FkSession.LeftMeans` | engine/internal/executor/deferred.go:158-180 | what a run leaves when it fails, by constraint names and the outcome of each check |
| `FkSession.LeftIff` | engine/internal/executor/deferred.go:168-172 | every check that is unselected or fails is still on the list if and only if none stands behind a failing one |
| `FkSession.SecondCheckForgotten` | engine/internal/executor/deferred.go:168-172 | two rows whose deferred references find no parent, with both checks pending: after SET CONSTRAINTS ALL IMMEDIATE the second check is on no list although its row is still an orphan |
| `FkSession.SettledCoverage` | engine/internal/executor/deferred.go:158-180 | dropping checks that passed leaves every orphan on the list |
| `FkSession.Session.SetMode` | engine/internal/executor/deferred.go:106-131 | named keys, or all, get the mode; every other deferrable key keeps its own |
| `FkSession.Session.SetConstraints` | engine/internal/executor/deferred.go:262-284 | the modes change as above; IMMEDIATE in a block succeeds if and only if every pending check of a named constraint, or every one for ALL, passes, and then leaves exactly the others, as often and in the order they were; no orphan leaves the list |
| `FkSession.Session.Commit` | engine/internal/executor/txnctx.go:68-87 | commits exactly when every pending check passes and then leaves no orphan; otherwise the tables are as at BEGIN |
| `FkSession.Session.Execute` | engine/internal/executor/txnctx.go:56-94 | one statement either does what its kind specifies, tables, deferred keys and pending checks included, or fails for a stated reason; without a hole every orphan stays on the list |
| `FkSession.Session.RunTransaction` | engine/internal/executor/txnctx.go:56-94 | a whole transaction of inserts, updates, deletes and SET CONSTRAINTS, with the states it goes through: it commits if and only if every statement succeeds and every check still pending passes, otherwise the tables are as at BEGIN and the statement that failed had cause; without holes it commits if and only if it leaves no orphan and no stale check, and no transaction whose updates overwrite no row and keep the referred columns ever leaves an orphan |
| `FkSession.DeleteOutcome` | engine/internal/executor/constraints.go:607-623 | after a DELETE all pending checks pass if and only if those pending before pass and no row references a removed row through a deferred blocking key |
| `FkSession.CommitIff` | engine/internal/executor/deferred.go:184-208 | with every orphan on the list, all checks pass if and only if there is no orphan and no child check whose tuple nobody offers and nobody references any more |
| `FkSession.DeletedRowBlocksCommit` | engine/internal/executor/deferred.go:184-195 | a row inserted with a deferred reference and deleted again: no orphan, and the stale check fails the COMMIT |
| `FkSession.SetNullCoverage` | engine/internal/executor/constraints.go:593-605 | in any schema, referenced columns included: a SET NULL action leaves every orphan on the list if and only if no row references a tuple that only the nulled row offered, or its check is pending |
| `FkSession.UnreferencedNullsLoseNothing` | engine/internal/executor/constraints.go:593-605 | nulling columns that no key references loses nothing |
| `FkSession.SetNullOrphansLine` | engine/internal/executor/constraints.go:593-605 | three concrete rows in a chain: deleting the first nulls a referenced column of the second and orphans the third |
| `Branches.ScanTable` | engine/internal/executor/scan.go:76-145 | returns exactly the rows the branch shows, each once, and fails exactly when one does not decode |
| `Branches.ShownMeans` | engine/internal/executor/scan.go:76-145 | a live entry of the branch is shown, a tombstone hides, and without an entry the branch shows what main shows, except of spans |
| `Branches.DataRootOf` | engine/internal/branch/merge.go:154-160 | cutting the row prefix at its last "/data/" gives the branch's data root, whatever the names contain |
| `Branches.Merge` | engine/internal/branch/merge.go:43-132 | the collected mutations, laid over the store, give main the branch's entry wherever the branch has one and nothing else; the counters count the deletes and the writes among them |
| `Branches.MergePushesDown` | engine/internal/branch/merge.go:43-132 | after the merge main shows, at every key, what the branch showed before |
| `MergeIndex.MergeSyncedIff` | engine/internal/branch/merge.go:70-112 | main's indexes are exact after a merge if and only if no row the branch wrote or deleted changes the tuple an index holds of it |
| `MergeIndex.MergedRowNotIndexed` | engine/internal/branch/merge.go:87-112 | a row inserted on the branch with a value in every indexed column is on main after the merge without an index entry |
| `Branches.MergedScanIsBranchScan` | engine/internal/branch/merge.go:43-132 | so a scan of main returns the branch's rows, as a multiset |
| `Branches.BranchLocalMergeIff` | engine/internal/branch/merge.go:43-132 | for otel_spans this holds if and only if the branch covers every row main shows |
| `Branches.MergeKeepsMainIff` | engine/internal/branch/merge.go:43-132 | a merge leaves a table of main, spans for one, as it was if and only if wherever the branch has an entry it shows what main shows |
| `Branches.SpanIsMerged` | engine/internal/branch/merge.go:43-132 | a span recorded on the branch alone is on main after the merge |
| `Branches.MergeKeepsBranch` | engine/internal/branch/merge.go:43-132 | the branch itself shows the same rows after the merge |
| `Branches.MergeIsIdempotent` | engine/internal/branch/merge.go:43-132 | a second merge changes no key at all |
| `Branches.BranchWritesKeepMain` | engine/internal/storage/keys.go:87-135 | writes under a branch's data root never change what main shows |
| `Branches.WriteIsLocalIff` | engine/internal/executor/dml.go:272-277 | a branch write lands under the branch's data root if and only if the row has a primary key or was read from the branch |
| `Branches.BranchWriteShows` | engine/internal/executor/dml.go:479-484 | a branch write or tombstone changes what the branch shows at that key and nowhere else |
| `Branches.KeylessDeleteReachesMain` | engine/internal/executor/dml.go:272-277 | without a primary key, deleting a fallen-through row on a branch removes it from main |
| `RecursiveCte.WriteRowKey` | engine/internal/executor/cte.go:92-103 | the loop writes the specified signature |
| `RecursiveCte.RowKeyInjective` | engine/internal/executor/cte.go:92-103 | rows without 0x00 and 0x1F bytes have the same signature only if they are equal, arity included |
| `RecursiveCte.TwinIff` | engine/internal/executor/cte.go:92-103 | another row of the same width has a row's signature if and only if the row holds a NULL, or the text 00 4E 00, or with two or more columns a 0x1F in a text |
| `RecursiveCte.SignaturesCollide` | engine/internal/executor/cte.go:92-103 | concrete different rows with one signature, and a text that looks like NULL |
| `RecursiveCte.Fresh` | engine/internal/executor/cte_recursive.go:122-131 | the rows whose signature is new, once each, in order |
| `RecursiveCte.UnionAllMeans` | engine/internal/executor/cte_recursive.go:64-140 | with rounds w0, w1, ... each made from the one before by the member, UNION ALL is their concatenation up to the first empty one or the cap, and an error exactly where the member fails |
| `RecursiveCte.EvalRecursive` | engine/internal/executor/cte_recursive.go:64-140 | UNION ALL concatenates the rounds; UNION returns the base and then distinct rows of every closed set, the least fixpoint when the loop stops by itself, within one more round than any finite closed set has rows; below the cap it always stops |
| `RecursiveCte.UnionDistinctIff` | engine/internal/executor/cte_recursive.go:64-140 | UNION's result is free of duplicates if and only if the base is |
| `RecursiveCte.UnionKeepsBaseDuplicates` | engine/internal/executor/cte_recursive.go:90-100 | a concrete base with the same row twice, both kept |
| `BlockKeys.WriteBlockKey` | engine/internal/executor/setop.go:58-70 | the loop writes the specified key |
| `BlockKeys.BlockKeyInjective` | engine/internal/executor/setop.go:58-70 | rows without 0x00 and 0x01 bytes have the same key only if they are equal, the bar character in texts included |
| `BlockKeys.TwinIff` | engine/internal/executor/setop.go:58-70 | another row of the same width has a row's key if and only if one of its texts can be read as two cells (it holds a bar and 0x01, or ends in a bar and a NULL block) and a text that is not the last, or the second of those cells, can take in the cell after it |
| `BlockKeys.MarkersCollide` | engine/internal/executor/setop.go:58-70 | two concrete rows of one arity with the same key |
| `SetOps.IntersectRows` | engine/internal/executor/setop.go:74-95 | keeps row by row what the specification keeps |
| `SetOps.ExceptRows` | engine/internal/executor/setop.go:99-123 | keeps row by row what the specification keeps |
| `SetOps.DedupRows` | engine/internal/executor/join.go:835-858 | keeps the first row of each key, in order |
| `SetOps.IntersectMultiplicity` | engine/internal/executor/setop.go:74-95 | INTERSECT ALL gives the smaller multiplicity, INTERSECT each common row once |
| `SetOps.ExceptMultiplicity` | engine/internal/executor/setop.go:99-123 | EXCEPT ALL gives the truncated difference, EXCEPT each row absent on the right once |
| `SetOps.DedupMultiplicity` | engine/internal/executor/join.go:835-858 | DISTINCT and UNION keep each row exactly once |
| `SetOps.AllFormsPartition` | engine/internal/executor/setop.go:74-123 | INTERSECT ALL and EXCEPT ALL split the left input row for row, whatever bytes the texts hold |
| `SetOps.Combine` | engine/internal/executor/setop.go:16-54 | different widths are refused; otherwise the rows of the operation, each as often as its name says of the two inputs, in the order ORDER BY says, tied rows as they came, then cut by OFFSET and LIMIT |
| `SetOps.SortResult` | engine/internal/executor/setop.go:129-153 | the same rows, rearranged; where no three cross in an ORDER BY column no row stands before one that the first differing item puts before it, ascending or descending, and tied rows stay in input order |
| `SetOps.NumbersInOrder` | engine/internal/executor/setop.go:129-153 | on one column of numbers an earlier row never has the larger one, descending never the smaller |
| `SetOps.CombinedMultiplicities` | engine/internal/executor/setop.go:29-42 | UNION ALL adds the multiplicities, UNION gives one, INTERSECT ALL the minimum, INTERSECT one if both have it, EXCEPT ALL the truncated difference, EXCEPT one if only the left has it; for every row, on clean rows |
| `SetOps.CombinedInOrder` | engine/internal/executor/setop.go:29-123 | without ORDER BY the rows stand as in the left input, for UNION in the left and then the right; without ALL each is the first of its key there |
| `SetOps.Window` | engine/internal/executor/setop.go:205-221 | the rows from the offset on, at most the limit, and all of them if fewer |
| `OrderCompare.IntransitiveIff` | engine/internal/executor/setop.go:179-203 | three values are out of order exactly when two are numbers that lie around the third, which is none, bytewise one way and numerically the other |
| `OrderCompare.OrdersColumnIff` | engine/internal/executor/setop.go:179-203 | the comparison orders a column if and only if no two of its numbers cross another text of it in that way |
| `OrderCompare.CompareDatumOrder` | engine/internal/executor/setop.go:179-203 | on values that do not cross the comparison is antisymmetric and transitive, NULLs included |
| `OrderCompare.CompareFromOrder` | engine/internal/executor/window.go:243-258 | so is the comparison of ORDER BY lists, descending items included |
| `OrderCompare.CompareDatumMeans` | engine/internal/executor/setop.go:178-203 | NULL after every value, two numbers by value, any other two texts bytewise |
| `OrderCompare.CompareFromMeans` | engine/internal/executor/window.go:243-258 | the first ORDER BY item that finds a difference decides, ascending by the smaller value, descending by the larger; without one the rows are equal |
| `OrderCompare.MixedKindsCycle` | engine/internal/executor/setop.go:179-203 | mixing numbers and other texts makes a cycle |
| `Windows.StableSort` | engine/internal/executor/window.go:97-103 | a rearrangement of the partition, and where the comparison orders it the rows in key order, ties by position |
| `Windows.NumberRows` | engine/internal/executor/window.go:119-123 | row_number is one more than the rows before it in the stable order |
| `Windows.RankRows` | engine/internal/executor/window.go:124-139 | rank is one more than the strictly smaller rows, dense_rank one more than the distinct smaller keys |
| `Windows.CountFrames` | engine/internal/executor/window.go:145-181 | a count is the counted rows whose key is at most the row's own, the whole partition without ORDER BY |
| `Windows.CountOver` | engine/internal/executor/window.go:184-196 | counts the rows, or the non-NULL arguments, of the frame |
| `Windows.Partition` | engine/internal/executor/window.go:70-95 | each row is listed under its partition key, ascending |
| `Windows.ComputeOneWindow` | engine/internal/executor/window.go:65-110 | every row gets the value its function means within its partition; over one column of numbers, ascending or descending, said of the rows themselves: row_number, rank and dense_rank count what comes before, the running counts that and the peers |
| `Windows.WindowMeaning` | engine/internal/executor/window.go:115-180 | the five functions over one column of numbers, by the numbers of the rows with the same PARTITION BY values |
| `Windows.PartitionIsEquality` | engine/internal/executor/window.go:70-90 | with clean partition values the partition of a row is the rows with equal PARTITION BY values |
| `Numeric.ShortFits` | engine/internal/executor/copy_binary.go:336-430 | every decimal text of under 32768 bytes fits the 16-bit header fields |
| `Numeric.PackShape` | engine/internal/executor/copy_binary.go:408-419 | no zero group at either end, every digit below the base, weight 0 for zero |
| `Numeric.PackedValue` | engine/internal/executor/copy_binary.go:389-419 | the packed digits stand for exactly the decimal value, after padding and trimming |
| `Numeric.NumericRoundTrip` | engine/internal/executor/copy_binary.go:355-473 | decoding the encoding gives the canonical text, for every decimal text within the header limits |
| `Numeric.NaNRoundTrip` | engine/internal/executor/copy_binary.go:355-445 | NaN in any case reads back as NaN |
| `Numeric.CanonicalKeepsValue` | engine/internal/executor/copy_binary.go:433-482 | the canonical text has the same exact value and the same fraction digits; the sign survives exactly on non-zero values |
| `Numeric.NoFallbackRoundTrip` | engine/internal/executor/copy_binary.go:214-220 | a text that is no number, written as it is, never reads back as itself, whatever its length |
| `Numeric.CanonicalIsFixed` | engine/internal/executor/copy_binary.go:433-482 | making a text canonical twice is making it canonical once |
| `Numeric.EncodeNumeric` | engine/internal/executor/copy_binary.go:355-430 | the grouping, trimming and appending loops compute the specified encoding |
| `Numeric.TrimGroups` | engine/internal/executor/copy_binary.go:408-415 | the two trimming loops drop exactly the zero groups at the ends and adjust the weight |
| `Numeric.DecodeNumeric` | engine/internal/executor/copy_binary.go:433-473 | the summing loop computes the specified decoding, errors included |
| `CopyBinary.FormatCopyBinary` | engine/internal/executor/copy_binary.go:49-76 | the nested loops write the specified stream |
| `CopyBinary.ParseCopyBinary` | engine/internal/executor/copy_binary.go:81-144 | the position-tracking parser computes the specified reading, every truncation error included |
| `CopyBinary.StreamRoundTrip` | engine/internal/executor/copy_binary.go:49-309 | a stream of text, numeric, integer, bool, char and jsonb columns reads back as its rows, each cell in the canonical form of its type |
| `CopyBinary.PlainRowOk` | engine/internal/executor/copy_binary.go:49-76 | rows of under 32768 fields, texts under 2 GiB and numeric texts that are NaN or decimal numbers under 32 KiB meet the bounds of the round trip |
| `CopyBinary.RangeIsWidth` | engine/internal/executor/copy_binary.go:151-170 | the 2, 4 and 8 bytes written for int2, int4 and int8 hold exactly the range of the type |
| `CopyBinary.StreamUnchangedIff` | engine/internal/executor/copy_binary.go:49-309 | a stream reads back as exactly the rows written if and only if every cell is in its canonical text: integers of the column's range in plain decimal, negative ones included, t or f, one byte, NaN or a canonical decimal |
| `CopyBinary.ParsedFormatted` | engine/internal/executor/copy_binary.go:149-171 | every int64 is parsed from its own text |
| `CopyBinary.StreamBytes` | engine/internal/executor/copy_binary.go:49-76 | the stream of the int4 cell -7, byte by byte |
| `CopyBinary.NumericUnchangedIff` | engine/internal/executor/copy_binary.go:214-220 | a numeric cell survives the stream unchanged if and only if it is NaN or a canonical decimal |
| `CopyBinary.InfinityIsUnreadable` | engine/internal/executor/copy_binary.go:214-220 | the concrete text 'infinity' is written as it is and cannot be read back |
| `RecordText.EncodeRowText` | engine/internal/executor/eval_ext.go:254-275 | the loop writes the specified literal |
| `RecordText.DecodeRecordText` | engine/internal/executor/composite.go:103-159 | the quote-tracking scanner computes the specified reading |
| `RecordText.RecordRoundTrip` | engine/internal/executor/composite.go:103-159 | reading back a written record gives the same list if and only if the list is not the lone NULL |
| `RecordText.RecordBytes` | engine/internal/executor/eval_ext.go:254-275 | a concrete record with NULL, an empty text, a comma and a quote, byte by byte |
| `CopyText.FormatCopyText` | engine/internal/executor/copy.go:116-141 | the loops write the specified lines |
| `CopyText.ParseCopyText` | engine/internal/executor/copy.go:204-234 | the loops compute the specified reading |
| `CopyText.UnescapeEscape` | engine/internal/executor/copy.go:138-141 | unescaping undoes escaping on every text |
| `CopyText.CopyTextRoundTrip` | engine/internal/executor/copy.go:116-234 | with any one-byte delimiter but the newline, written rows read back unchanged if and only if none is written as an empty line or as the end mark and no written field holds the delimiter |
| `CopyText.TabRoundTrip` | engine/internal/executor/copy.go:116-234 | with the tab, if and only if none has no column or one empty text; NULL, '' and \\N stay apart |
| `CopyText.CommaSplitsText` | engine/internal/executor/copy.go:116-141 | with a comma the concrete text a,b comes back as the two columns a and b |
| `CopyText.UnknownPairs` | engine/internal/executor/copy.go:231-234 | a backslash pair without meaning and a backslash at the end are copied |
| `CopyText.LineBytes` | engine/internal/executor/copy.go:116-141 | a concrete line with NULL, tab, backslash, newline and return, byte by byte |
| `CopyText.WideRowsRoundTrip` | engine/internal/executor/copy.go:116-234 | rows of two or more columns always round trip |

## Left out

- Badger, Raft, gRPC, JSON, full-text and vector indexes: only the contracts of the store, iterator and log are used.
- The SQL parser, wire protocol, authentication, OTLP ingestion, metrics and cluster start-up.
- Scalar functions, floats, dates, intervals and regular expressions; order encodings of float8, date and timestamp columns.
- Store errors in reads; errors of version lookups, flushes and proposals are modelled in Engine only.
- Real time and the hybrid logical clock: timestamps come from the engine's counter.
- Sequences.CommittedValuesAreGapFree: for runs whose failed flushes leave nothing behind, otherwise SequenceFaults.GapFreeIff; does not model the wrap-around past 2^63 - 1, nor CREATE or DROP SEQUENCE.
- QueryPlan.BoundsSound: comparisons are exact and between values of one type; the evaluator's float64 comparison of integers beyond 2^53, of floats and of unlike types is not modelled.
- QueryPlan.PlanBoundsSound: full indexes on plain columns; partial and expression indexes are not modelled.
- IndexScan.PlanReturnsSameRows: planner constants are taken in canonical text, and a comparison of a column with a constant of another type is taken as unknown; descending scans, partial and expression indexes and row-level security are not modelled.
- IndexScan.ScanIndexRange: forward scans only.
- EarlyStop.EarlyStopIff: HAVING, aggregates and window functions other than count(*) are not modelled; GroupedIf shows that where the early stop is harmless the groups themselves are the same. LIMIT with a negative value is not modelled.
- IndexSelect.SelectExactInEveryRun: for keys that INSERTs write in canonical spelling; without that, exactly PointGetsFindIff.
- IndexFaults.IndexExactDespiteFailures: one way only; leftovers that hold a whole statement are harmful to its rows and yet leave the index exact.
- IndexRuns.IndexExactInEveryRun: for runs whose failed flushes leave nothing behind, otherwise IndexFaults; for UPDATEs that keep the primary key, since others break it (Rekey.RekeySyncedIff); CREATE INDEX during the run, UNIQUE checks and branches are not modelled; statements touch one row at a time.
- ForeignKeys: ON UPDATE CASCADE and SET NULL, upserts, UNIQUE indexes, concurrent transactions (write skew) and schema changes during a transaction; keys of one child table have distinct names, and the session takes no SET NULL column to be itself referenced, for which see SetNullCoverage. Index entries written by the actions are covered by IndexRuns only.
- Session.ApplyDelete: says nothing about the tables when it fails; the statement's failure ends the transaction.
- ForeignKeys.DeletedExactly: for schemas in which no SET NULL key shares a column with a CASCADE key, since nulling a shared column ends the cascade there; DeletedExactlyIff and DeletedExactlyUnless are for any schema, the first with a condition on the tables afterwards, since which action comes first decides.
- ForeignKeys.CyclicDeleteRefused: for the same schemas.
- Session.Delete: which of the references to rows that are themselves removed later get a check depends on the scan order; DeleteOutcome says that this decides nothing.
- Branches: a branch of a branch (scans fall through one level only) and conflict detection, which the code leaves empty.
- RecursiveCte.EvalRecursive: the recursive member is any function from working tables to rows; the fixpoint is claimed for members that distribute over union and rows without 0x00 and 0x1F bytes.
- SetOps.Combine: ORDER BY items are taken as output columns already resolved.
- Windows: sum, avg, min and max; NaN in ORDER BY columns. Partition equality is claimed for values without 0x00 and 0x01 bytes.
- Windows.ComputeOneWindow: for partitions whose ORDER BY values do not cross (OrdersColumnIff); otherwise the order of the sort is not determined.
- Numeric.NumericRoundTrip: digit count, weight and scale within 16 bits; beyond that the header fields wrap.
- CopyBinary.StreamRoundTrip: float, date, timestamp, interval, uuid and bytea columns are not modelled; rows under 32768 fields, fields under 2 GiB.
- CopyText.CopyTextRoundTrip: one-byte delimiters other than the newline; CSV is not modelled.
- Decimal: white space is ASCII white space.
