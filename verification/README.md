# d-lmdb in Dafny

d-lmdb is the storage side of a Raft key-value store: a replicated state machine, a write-ahead
log and a read layer with expiring values, all over LMDB's ordered byte-key tables. This project
models those parts and proves what they keep over every run, and exactly when they fail to.

Run `dafny verify dfyconfig.toml` to verify everything.

## What is modelled

| file | module | what it is |
|---|---|---|
| `Bytes.dfy`, `NextPrefix.dfy`, `Words.dfy` | `ByteStrings`, `NextPrefixes`, `Words` | memcmp order, prefixes and the prefix successor, eight-byte integers in base 256 |
| `Tables.dfy` | `Tables` | an LMDB table: rows in strictly ascending key order, and the map it stands for |
| `Values.dfy` | `Values` | the stored-value envelope and its reading against a clock |
| `Commands.dfy`, `Replicas.dfy` | `Commands`, `Replicas` | replicated commands, on whole stores and key by key; one node as a value |
| `StateMachine.dfy` | `StateMachine` | class `LmdbStateMachine`: apply, persist, snapshot, restore, reset, scans |
| `Db.dfy` | `Db` | class `DLmdb`: reads that delete |
| `Api.dfy`, `Catalog.dfy` | `Api`, `Catalogs` | the client calls as operations on a catalog; what a list of calls leaves in it |
| `Clusters.dfy`, `Reaping.dfy` | same names | the cluster as a state machine; local deletion |
| `LogTest.dfy`, `CrashSchedules.dfy` | `LogTests`, `CrashSchedules` | replaying with CAS: the exact tests, for a whole log and for a stretch of it |
| `Convergence.dfy`, `Divergence.dfy` | same names | what safe runs keep; the runs that go wrong where a test fails |
| `Scans.dfy`, `Pagination.dfy` | same names | what scans return, stated over all rows at once; paging |
| `Wal.dfy`, `WalSpec.dfy`, `WalHistory.dfy` | `Wal`, `WalSpec`, `WalHistory` | class `LmdbWal`; the log as an integer-indexed map over whole runs; what a list of operations leaves in it |

The classes keep the program's fields, and their methods are proved against functions on values
(`Applied`, `Persisted`, `Reopened`, `Restored`, `Reaped`, `Cleared`, `WalNext`, `Collect`, ...).
The theorems about runs are stated with those same functions. A write transaction is a working copy
of a table that a method stores back or forgets. The parameter `calls` is the number of store calls
that succeed before one fails, so a method's contract covers failure at every point.

## Main results

- **Convergence** (`Divergence.LogSafeExactly`, `Convergence.Converges`). Nodes apply one committed
  log in chunks, persist their index, crash and reopen any number of times (in the middle of a
  replay too), take and install snapshots whose contents are ahead of the index they claim, reset,
  and delete expired rows on their own. A node has caught up when its applied index has reached the
  highest index its store has seen. For every log: all runs of all clusters keep every caught-up
  node on the ideal fold of the log, if and only if the log passes a test (`LogSafe`) that computes
  the finitely many values a store can hold at each index. With deletions, on every safe run, such
  a node answers every point read and every live scan like the fold. Logs without CAS pass, as do
  those in which no CAS expects what a later one writes (`VersionedLogSafe`): version counters,
  keys swapped once, locks taken by put_if_absent and released by a delete.
- **Replay and CAS.** Some logs fail the test: `SwapChainDiverges` is a run over three entries that
  ends with the wrong store. On any log a run is safe as long as each step back to an earlier index
  is: one that replays nothing always, any other if the stretch to be replayed passes a test of its
  own. That test is exact too: the stretch replays rightly from every store if and only if it passes
  (`StableExactly`), and survives every schedule of crashes if and only if it passes at every place
  (`SurvivesExactly`). For a node that is already replaying and falls back further still, a sharper
  test is exact over all stores that would have settled (`BeyondExactly`). A stretch that fails
  makes a log with a run that diverges (`UnstableDiverges`).
- **Deleting expired rows** is invisible to point reads, to live scans and to CAS answers on safe
  runs. What can tell, exactly when: `len`, as soon as a row is gone (`CountExact`, `LenSeesReap`), and
  so `is_empty`, once the last one is; the unfiltered `scan_prefix` of the state machine, as soon as
  a row in its range is gone (`UnfilteredExact`); a CAS that expects absence (`CasOutcomeExact`); an
  apply between read and deletion (`SplitReapExact`); a clock behind the deleter's (`SkewExact`), or
  set back between the keys of one `get_multi` (`ReadInTurnExact`).
- **Clients** (`Db.FetchServesCatalog`, `Api.ScanServesCatalog`, `Api.AnswersServeCatalog`): `get`
  and live scans of a caught-up node, and the answers to calls that a node applies for the first
  time, are those of a plain catalog from key to payload and expiry, and a `get` fails only when the
  store does. What that catalog holds follows from the list of the calls alone (`CatalogHistory`).
- **Scans and paging**: forward scans are the first rows of the full filtered listing, the reverse
  scan is the end of it backwards, `next_prefix` is exact. Pages read while the store changes are
  strictly ascending, miss no key that stays live throughout, and never show a deletion.
- **Write-ahead log**: a refinement of an integer-indexed map. On every run an index is stored if and
  only if some persist named it and no truncate, purge or reset has dropped it since, with the entry
  of the last such persist; hard state and boundary are those of the last save and purge
  (`WalHistory`). While the log is not empty, the cached last index is right throughout a run exactly
  when every persist into an emptied log reaches it.

## Where the code and its comments differ

The model follows the code.

- `next_prefix` is documented as giving nothing for a prefix that ends with 0xFF. It gives nothing
  only when all bytes are 0xFF (`NextPrefixNone`).
- `delete_local` is documented as changing nothing any node reports. `len` and the unfiltered scan
  report it, and the rest needs the limits above.
- `put_if_absent` is documented as inserting a key that does not exist. A key that has expired and
  that no read has deleted yet does not exist for `get`, but is refused (`AbsentAnswerExact`). The
  counterpart for `compare_and_swap` is `CasAnswerExact`: a payload held live under a TTL is read
  but never matched.
- `apply_snapshot_from_file` says it always resumes serving. The early return on a failed join of
  the blocking task leaves `running` off and, if the task died after its commit, the memory behind
  the disk (`ApplySnapshotFromFile`, parameter `joined`).
- `put_with_ttl` says an expired key is removed by the next read or scan. Scans never delete.
- The reverse scan with limit 0 returns one row if there is one (`WindowExact`).

## Model

| member | source | states |
|---|---|---|
| Convergence.Converges | d-lmdb/src/state_machine.rs:382-514 | At every moment of every safe run: durable ≤ applied ≤ highest index seen; a caught-up node answers every point read and live scan like the ideal fold from its clock on, and without local deletion its store is the fold |
| Convergence.RunsAreSafe | d-lmdb/src/state_machine.rs:382-467 | Safe are all runs of a log that passes the test as a whole or at every stretch, and all runs that never replay, provided every CAS expects a raw value when nodes delete on their own |
| Divergence.LogSafeExactly | d-lmdb/src/state_machine.rs:382-514 | For every log: at every moment of every run of every cluster each caught-up node holds the fold, if and only if the log passes the test |
| LogTests.ReachableLeast | d-lmdb/src/state_machine.rs:77-104 | The places the test computes are in every set that holds the top and is closed under going back and applying one entry |
| LogTests.ReachableCloses | d-lmdb/src/state_machine.rs:77-104 | And form such a set |
| Divergence.ReachableRealized | d-lmdb/src/state_machine.rs:492-514 | Every place the test computes is one that some run brings a node to |
| Convergence.ReachSettles | d-lmdb/src/state_machine.rs:382-467 | In a log that passes, every store that can be reached settles by the highest index it has seen |
| LogTests.VersionedLogSafe | d-lmdb/src/state_machine.rs:408-427 | A log passes if no CAS expects a value that a later CAS on the key writes |
| LogTests.EveryKeySafe | d-lmdb/src/state_machine.rs:408-427 | The test need only look at the keys some CAS names |
| Divergence.ReplaySafeLogSafe | d-lmdb/src/state_machine.rs:408-427 | A log whose every stretch passes its own test passes as a whole |
| Divergence.LogSafeIsWider | d-lmdb/src/state_machine.rs:408-427 | Put y, put q, swap y to p, swap y to q: passes as a whole, though a stretch fails |
| Clusters.RunInBounds | d-lmdb/src/state_machine.rs:477-514 | On every run, safe or not, durable, applied and highest index keep their order, stay within the log and carry its terms; so do the indices of snapshots |
| Clusters.RunCarriesTerms | d-lmdb/src/state_machine.rs:454-463 | On every run the applied and durable index of every node and the index of every snapshot come with the term of that log entry, zero at index zero |
| Clusters.StepIsOperation | d-lmdb/src/state_machine.rs:382-628 | The steps of a run do to store and indices what the operations do that the methods are proved against |
| Clusters.StepFrame | d-lmdb/src/state_machine.rs:382-628 | A step changes one node only and its clock only by a tick; a copy is appended with the whole store, the index the caller names and the highest index seen |
| Convergence.CatchUp | d-lmdb/src/state_machine.rs:382-467 | From any state a safe run reaches, applying the log as far as the store had seen gives the fold of the log, the durable index staying where it is |
| Convergence.FallBackWithin | d-lmdb/src/state_machine.rs:77-104 | Reopened at an earlier index, not before the one last fallen back to since it was caught up, a store still settles by the highest index seen if the stretch passes the test where the node left it |
| Convergence.FallBackBeyond | d-lmdb/src/state_machine.rs:492-514 | Going further back than that, it does if the longer stretch passes the sharper test, which is exact by BeyondExactly |
| Convergence.OneSwapReplaySafe | d-lmdb/src/state_machine.rs:408-427 | A log in which no two CAS entries share a key passes the test at every stretch, however a node came to it and left it; a log without CAS is one |
| Convergence.ShadowReplay | d-lmdb/src/state_machine.rs:171-188 | A store with expired rows deleted stays equivalent to the one without deletions through any entries, and reports the same results, unless a CAS can tell |
| Convergence.NoFallIsSafe | d-lmdb/src/state_machine.rs:161-168 | Persisting, copying or reopening at the applied index itself is always safe, whatever the log |
| Convergence.SnapshotPlusTail | d-lmdb/src/state_machine.rs:110-158 | A copy that is ahead of its `last_included`, restored over any prior node, plus the log from there on, is the fold of the whole log if the log or the copied stretch passes its test; with no condition on CAS when the copy is exactly at its index |
| Convergence.NodesAgree | d-lmdb/src/state_machine.rs:171-179 | Any two caught-up nodes at one index answer every point read and every live scan alike, whichever of them has deleted expired rows |
| Convergence.FirstResultsIdeal | d-lmdb/src/state_machine.rs:382-467 | The results of entries applied for the first time equal the ideal run's, also in a chunk that begins with replayed entries |
| CrashSchedules.StableExactly | d-lmdb/src/state_machine.rs:408-427 | Applying a prefix of a stretch and then the whole of it gives what the whole alone gives, on every store, if and only if the finite test passes |
| CrashSchedules.BeyondExactly | d-lmdb/src/state_machine.rs:408-427 | Falling back further than last time: over all stores that would have settled, the longer stretch makes up for the shorter one if and only if the sharper test passes |
| CrashSchedules.BeyondNothing | d-lmdb/src/state_machine.rs:408-427 | No further than last time, the sharper test is the plain one |
| CrashSchedules.SurvivesExactly | d-lmdb/src/state_machine.rs:77-104 | A stretch ends in the right store after every crash schedule from every node if and only if the test passes at every place |
| CrashSchedules.OneSwapPerKeyStable | d-lmdb/src/state_machine.rs:408-427 | Enough for that: each swapped key is overwritten in the stretch or swapped by one entry only |
| CrashSchedules.OneSwapPerKeyBeyond | d-lmdb/src/state_machine.rs:408-427 | And enough for the sharper test |
| Divergence.CrashRun | d-lmdb/src/state_machine.rs:382-514 | A run for every log and crash place: apply, persist, apply on, crash, apply again; and the store it ends with |
| Divergence.UnstableDiverges | d-lmdb/src/state_machine.rs:408-427 | Every stretch that fails the test is the tail of a log with a run whose caught-up node does not hold the fold |
| Divergence.SwapChainDiverges | d-lmdb/src/state_machine.rs:382-514 | Put c, swap a to b, swap c to a, with the durable index at 1: the fold has a, the replaying node ends with b |
| Commands.ReplayConcat | d-lmdb/src/state_machine.rs:382-467 | Store and results do not depend on where a log is cut into chunks |
| Commands.ResultExact | d-lmdb/src/state_machine.rs:408-444 | Result i carries entry i's index, and is a failure if and only if it is a CAS whose expectation differs from the state before it |
| Commands.BatchAsEntries | d-lmdb/src/state_machine.rs:428-442 | A batch writes what its operations write as separate entries |
| Commands.ExecuteAt | d-lmdb/src/state_machine.rs:391-444 | Every command acts on each key separately, batches by their operations in order |
| Commands.EffectCases | d-lmdb/src/state_machine.rs:391-444 | A command overwrites a key whatever it held, swaps it, or leaves it alone, and never two of these |
| Replicas.ChunkingIrrelevant | d-lmdb/src/state_machine.rs:382-467 | One chunk or two: same store, applied index and term, term cache and results |
| Replicas.AddTermsExact | d-lmdb/src/state_machine.rs:448-452 | The term cache has the term of every index applied, the last if repeated, and is as before at others |
| StateMachine.LmdbStateMachine.ApplyChunk | d-lmdb/src/state_machine.rs:382-467 | Succeeds exactly when all store calls do; then store, terms and results are the ideal ones and the applied index and term are the last entry's; otherwise store and both indices are unchanged and only a prefix of the terms was cached |
| StateMachine.RunCommand | d-lmdb/src/state_machine.rs:391-444 | One command in a transaction: new contents, CAS outcome, and the exact number of store calls |
| StateMachine.LmdbStateMachine.PersistLastApplied | d-lmdb/src/state_machine.rs:492-514 | Index and term move on disk and in memory together, or not at all |
| StateMachine.LmdbStateMachine.Close | d-lmdb/src/state_machine.rs:161-168 | After an orderly end the reopened node resumes at the applied index |
| StateMachine.LmdbStateMachine.CrashAndReopen | d-lmdb/src/state_machine.rs:77-104 | What a restart brings back: the store and the durable index, not the term cache |
| StateMachine.DurableRoundTrip | d-lmdb/src/state_machine.rs:645-648 | The index survives eight little-endian bytes |
| StateMachine.LmdbStateMachine.RestoreBlocking | d-lmdb/src/state_machine.rs:110-158 | On success the store is the snapshot's and the durable index changes in the same commit if one is included; on any failure nothing changes; a snapshot without a store fails |
| StateMachine.LmdbStateMachine.ApplySnapshotFromFile | d-lmdb/src/state_machine.rs:536-567 | On success the snapshot's store, its id on disk and in memory, an empty term cache and the metadata; without an id both indices stay; otherwise nothing changes, but a dead task leaves `running` off and may have restored the disk |
| StateMachine.RestoreSurvives | d-lmdb/src/state_machine.rs:536-567 | Restarted after the task died past its commit, a node resumes as after the whole restore |
| StateMachine.LmdbStateMachine.GenerateSnapshotData | d-lmdb/src/state_machine.rs:569-597 | The copy is the current store, whatever index the caller names; the metadata names that index |
| StateMachine.LmdbStateMachine.Reset | d-lmdb/src/state_machine.rs:615-628 | All tables and indices cleared, or no change |
| StateMachine.LmdbStateMachine.DeleteLocal | d-lmdb/src/state_machine.rs:180-188 | The key is gone and nothing else, or no change |
| StateMachine.LmdbStateMachine.Get | d-lmdb/src/state_machine.rs:371-380 | The stored bytes under the key, or an error when a store call fails |
| StateMachine.LmdbStateMachine.Len | d-lmdb/src/state_machine.rs:469-475 | The number of stored keys, zero when a store call fails |
| StateMachine.LmdbStateMachine.ScanRangeCore | d-lmdb/src/state_machine.rs:214-255 | Row i is row i of the filtered listing, as many as the limit allows; or an error, which needs a failed call or an empty bound |
| StateMachine.LmdbStateMachine.ScanRange | d-lmdb/src/state_machine.rs:258-273 | The same between two keys; nothing for an empty start |
| StateMachine.LmdbStateMachine.ScanAll | d-lmdb/src/state_machine.rs:276-285 | The same over all keys |
| StateMachine.LmdbStateMachine.ScanPrefixBounded | d-lmdb/src/state_machine.rs:288-308 | The same from prefix or page marker to the prefix successor; nothing for an empty prefix; an empty marker is an error unless the limit is zero |
| StateMachine.LmdbStateMachine.ScanRangeRev | d-lmdb/src/state_machine.rs:314-352 | Row i is row i from the end of the forward listing, as many as the limit allows (one for limit zero), keys strictly descending; nothing for an empty start, an error when a call fails |
| NextPrefixes.ComputeNextPrefix | d-lmdb/src/state_machine.rs:652-666 | The pop-and-bump loop ends, with the prefix successor |
| NextPrefixes.SuccessorExact | d-lmdb/src/state_machine.rs:650-666 | With a successor, `[p, next)` holds exactly the strings with prefix p |
| NextPrefixes.SuccessorLeast | d-lmdb/src/state_machine.rs:650-651 | No smaller bound is above all strings with prefix p |
| NextPrefixes.NextPrefixNone | d-lmdb/src/state_machine.rs:655-663 | There is no successor if and only if every byte is 0xFF |
| NextPrefixes.NoSuccessorExact | d-lmdb/src/state_machine.rs:302-307 | Without a successor, being at or above p is having prefix p |
| Scans.CollectExact | d-lmdb/src/state_machine.rs:203-255 | The listing holds a row if and only if its key is stored, in range, and its value kept by the filter |
| Scans.CollectAscends | d-lmdb/src/state_machine.rs:229-252 | The listing is strictly ascending by key |
| Scans.ListingExact | d-lmdb/src/state_machine.rs:203-255 | A scan lists (k, v) if and only if its start is not an empty key, k is stored at or above it (above it for a marker) and below the end, and v is the stored bytes or what the filter makes of them |
| Scans.FirstExact | d-lmdb/src/state_machine.rs:226-235 | A limit keeps that many rows, in place, from the front |
| Scans.ShadowScansAlike | d-lmdb/src/db.rs:187-216 | A live scan of any range lists the same rows with expired rows deleted or kept, with a clock that moves from row to row |
| Scans.UnfilteredExact | d-lmdb/src/state_machine.rs:630-637 | An unfiltered scan returns the same rows if and only if it starts from an empty key, which returns nothing, or no key in its range was deleted |
| Scans.PrefixScanExact | d-lmdb/src/state_machine.rs:302-307 | From a marker at or above the prefix, the bounds hold exactly the keys with the prefix after the marker |
| Scans.AfterBoundExact | d-lmdb/src/state_machine.rs:303-306 | A marker keeps the scan within the prefix, in every store, if and only if it is empty and so refused, or at or above the prefix, or nothing fits in between |
| Scans.WindowExact | d-lmdb/src/state_machine.rs:335-351 | The window holds the last `limit` rows if and only if the limit is not zero or there are none; at zero it holds the last one |
| Scans.BackwardsExact | d-lmdb/src/state_machine.rs:335-351 | The reverse listing in terms of the forward one: how many rows, which, and in strictly descending order of key |
| Scans.ScanAgreesWithGet | d-lmdb/src/db.rs:150-196 | (k, p) is in the unlimited scan if and only if a point read of k returns p |
| Scans.LenCoversScan | d-lmdb/src/db.rs:177-197 | `len` is at least the scan's size, with equality if and only if nothing stored is expired or corrupt |
| Pagination.PageAdvances | d-lmdb/src/db.rs:199-216 | Each full page leaves fewer rows to look at |
| Pagination.PagesSound | d-lmdb/src/db.rs:199-216 | Whatever is applied between the pages, they are strictly ascending together and hold only rows with the prefix that the store of some page held, live when the paging began |
| Pagination.PagesComplete | d-lmdb/src/db.rs:199-216 | Every key with a nonempty prefix that is stored and live at every page is on some page, with a value it had; an empty prefix has empty pages |
| Pagination.PagesEqualOneScan | d-lmdb/src/state_machine.rs:288-308 | On a fixed store with a fixed clock the pages together are one unlimited scan; both are empty for an empty prefix |
| Pagination.DeletionsDoNotShow | d-lmdb/src/db.rs:158-175 | Expired rows deleted between the pages change no page |
| Pagination.PagingEnds | d-lmdb/src/db.rs:199-216 | On a fixed store, with a limit of at least one, paging from anywhere ends, whatever the clock does |
| Values.DecodeEncode | d-lmdb/src/wire/values.rs:42-81 | Decoding inverts both encoders, for every payload and timestamp |
| Values.EncodeDecode | d-lmdb/src/wire/values.rs:66-81 | A byte string decodes to a value if and only if it is that value's encoding |
| Values.DecodeFails | d-lmdb/src/wire/values.rs:66-81 | Exactly the strings that encode nothing fail: empty, unknown tag, short TTL header |
| Values.BuildTtl | d-lmdb/src/wire/values.rs:50-62 | The filled buffer is the encoding, raw without an expiry |
| Values.WireFormat | d-lmdb/src/wire/values.rs:22-62 | The bytes on disk: tag 0 and payload, or tag 1, the expiry's eight base-256 digits, most significant first, and payload |
| Values.ScanMatchesRead | d-lmdb/src/db.rs:415-451 | The scan filter keeps exactly what a point read returns, and drops exactly the expired and the corrupt |
| Reaping.ReadExact | d-lmdb/src/db.rs:415-433 | A point read fails if and only if the value does not decode, finds nothing if and only if there is none or its expiry has come, and else the payload |
| Reaping.CasOutcomeExact | d-lmdb/src/state_machine.rs:408-427 | A CAS answers alike on the row and on its deleted copy if and only if it neither expects absence nor the expired bytes of an expired row |
| Reaping.EffectKeepsFaded | d-lmdb/src/db.rs:158-175 | Applying any other command keeps a copy with deletions equivalent to the original |
| Reaping.RawNeverVisible | d-lmdb/src/db.rs:355-368 | A CAS with a raw expected value is never one of those |
| Reaping.FadedReadsAlike | d-lmdb/src/state_machine.rs:171-179 | No point read tells a deleted expired row from a kept one, now or later |
| Reaping.CountExact | d-lmdb/src/db.rs:177-185 | A store with deletions has as many keys as the one without if and only if nothing was deleted, and never more |
| Reaping.LenSeesReap | d-lmdb/src/db.rs:177-185 | One expired key: `len` is 1 before the deletion and 0 after |
| Reaping.SplitReapExact | d-lmdb/src/db.rs:150-175 | With entries applied between read and deletion, the deletion goes unnoticed at every key and later time if and only if they left the key absent or expired |
| Reaping.SkewExact | d-lmdb/src/db.rs:415-433 | A deletion by one node's clock goes unnoticed by another's if and only if the other is not behind |
| Reaping.PutIfAbsentSeesReap | d-lmdb/src/db.rs:341-352 | put_if_absent answers and writes differently on a node that has deleted the expired key |
| Reaping.ApplyBetweenReadAndReap | d-lmdb/src/db.rs:154-171 | A value applied between read and deletion is lost |
| Db.DLmdb.DecodeAndReap | d-lmdb/src/db.rs:160-175 | The read's result, and the deletion exactly when what was read has expired; a failed deletion is the read's error |
| Db.DLmdb.FetchLocal | d-lmdb/src/db.rs:150-156 | The read of the stored value, an error when the read or a deletion due fails, at each number of store calls; the deletion changes no point read and no live scan from then on |
| Db.DLmdb.GetMulti | d-lmdb/src/db.rs:142-147 | The keys are read in turn, whatever the clock does in between, each from what the reads before it have deleted; an error needs a corrupt key or a failed store call and keeps the deletions made by then |
| Db.AfterReadsExact | d-lmdb/src/db.rs:142-175 | The reads of one call delete exactly the keys that one of them finds expired |
| Db.ReadInTurnExact | d-lmdb/src/db.rs:142-175 | A read in turn returns what it would have before the call if and only if no earlier read found the key expired by a clock that has been set back since to before its expiry |
| Db.ReadsAsBefore | d-lmdb/src/db.rs:142-147 | So every key reads as before the call when keys are distinct or the clock never goes back |
| Db.AfterReadsAlike | d-lmdb/src/db.rs:158-175 | From the latest of the clocks on, no point read and no live scan can tell what the call has deleted |
| Db.DLmdb.ScanPrefix | d-lmdb/src/db.rs:204-216 | A prefix scan with the live filter against a clock that moves from row to row: one page, or all rows without a limit; none for an empty prefix, an error for an empty marker unless prefix or limit is nothing |
| Api.CallRefines | d-lmdb/src/db.rs:282-368 | Each call does to the stored catalog what it says on the catalog, and its CAS answers are the catalog's |
| Api.ReadIsLookup | d-lmdb/src/db.rs:415-433 | A point read of a stored catalog is a lookup and never the corrupt-value error |
| Api.GetServesCatalog | d-lmdb/src/db.rs:125-175 | On a safe run what a caught-up node's point read finds is a lookup in the catalog of the calls applied so far, never the corrupt-value error |
| Db.FetchServesCatalog | d-lmdb/src/db.rs:125-175 | A whole `get` on a caught-up node of a safe run is that lookup, or an error exactly when the read or a deletion that is due fails |
| Api.ScanServesCatalog | d-lmdb/src/db.rs:187-216 | A live scan of such a node returns a row if and only if it does not start from an empty key, the key is in range and the lookup finds its payload when the scan comes to it |
| Api.AnswersServeCatalog | d-lmdb/src/db.rs:342-368 | On a safe run a node answers the calls it applies for the first time as the catalog does, also after replaying others in the same chunk; CAS succeeds only on exactly the expected payload that never expires |
| Api.CallsExpectRaw | d-lmdb/src/db.rs:342-368 | Only put_if_absent and CAS with no expected value propose a CAS without a raw expected value |
| Api.AbsentAnswerExact | d-lmdb/src/db.rs:341-352 | put_if_absent agrees with a read that finds nothing if and only if the key holds no expired entry |
| Api.CasAnswerExact | d-lmdb/src/db.rs:354-368 | A CAS agrees with a read that finds the expected payload if and only if that is not held live under an expiry |
| Api.TtlVisibleExact | d-lmdb/src/db.rs:296-311 | A value put with a TTL is visible at once if and only if the TTL is not zero and the sum fits in 64 bits; then it stays until the sum |
| Catalogs.CatalogHistory | d-lmdb/src/db.rs:282-368 | After any calls a key holds h if and only if some call set it to h and none has changed it since: puts, batches by their last operation on the key, and CAS calls that met their expectation |
| Catalogs.CallCases | d-lmdb/src/db.rs:282-368 | A call sets a key, clears it, or leaves it alone |
| Catalogs.AnswerChanges | d-lmdb/src/db.rs:342-368 | A CAS or put_if_absent answers true if and only if it changes its key |
| Words.BeIsomorphism | d-lmdb/src/storage_engine.rs:113-116 | Eight-byte big-endian keys are inverse to the integers and sort as they do |
| Words.BeOnto | d-lmdb/src/storage_engine.rs:155-158 | Every eight-byte key is the key of its integer |
| Words.LeRoundTrip | d-lmdb/src/state_machine.rs:645-648 | Little-endian integers read back |
| Words.ByteOrders | d-lmdb/src/state_machine.rs:645-648 | The two eight-byte forms are the integer's base-256 digits in the two orders |
| Words.StoredInteger | d-lmdb/src/state_machine.rs:645-648 | Eight stored bytes are those of the integer read from them; any other number of bytes reads as zero |
| Wal.LmdbWal.Reopen | d-lmdb/src/storage_engine.rs:44-84 | Reopening keeps log, hard state and boundary, and recovers the greatest stored index or zero into the cache |
| Wal.LmdbWal.PersistEntries | d-lmdb/src/storage_engine.rs:102-123 | All entries and the running maximum into the cache, or no change; nothing at all for an empty list |
| Wal.LmdbWal.Entry | d-lmdb/src/storage_engine.rs:125-137 | The stored entry with the index, or an error exactly when the read, or the decoding of what is found, fails |
| Wal.LmdbWal.GetEntries | d-lmdb/src/storage_engine.rs:139-167 | Exactly the listing of the inclusive range over a map whose entries sit under their own index, or an error, which needs a failed call; the key-length error does not occur |
| Wal.LmdbWal.Purge | d-lmdb/src/storage_engine.rs:169-191 | Entries and boundary change in one transaction or not at all; hard state and cache stay |
| Wal.LmdbWal.Truncate | d-lmdb/src/storage_engine.rs:193-221 | Exactly the entries below the index stay and the cache becomes the greatest index left |
| Wal.LmdbWal.LoadPurgeBoundary | d-lmdb/src/storage_engine.rs:232-240 | The boundary last recorded, not disturbed by hard-state saves, or an error exactly when a call fails |
| Wal.LmdbWal.Reset | d-lmdb/src/storage_engine.rs:242-249 | The log is emptied; hard state and boundary stay |
| Wal.LmdbWal.SaveHardState | d-lmdb/src/storage_engine.rs:252-261 | The hard state becomes the argument and nothing else changes, or nothing does |
| Wal.LmdbWal.LoadHardState | d-lmdb/src/storage_engine.rs:263-272 | The hard state last saved, or an error exactly when a call fails |
| Wal.TailIsGreatest | d-lmdb/src/storage_engine.rs:62-70 | The index read from the last key is the greatest stored index, zero for none |
| Wal.DeleteEntries | d-lmdb/src/storage_engine.rs:173-183 | Deleting a range of keys deletes exactly the range of indices |
| WalSpec.ListedExact | d-lmdb/src/storage_engine.rs:139-167 | A listing holds exactly the stored entries in range, in strictly ascending order of index |
| WalSpec.ListedOne | d-lmdb/src/storage_engine.rs:125-167 | The listing of a single index is the stored entry, as a point read returns it |
| WalSpec.LastRightExactly | d-lmdb/src/storage_engine.rs:117-121 | Whenever the log is not empty the cache equals the greatest stored index, at every point of a run, if and only if every persist into an empty log reaches the cached index |
| WalSpec.AppendingKeepsLast | d-lmdb/src/storage_engine.rs:169-221 | Appending only past all purge cutoffs keeps the cache right, and on an empty log not above the highest cutoff |
| WalSpec.CacheNeverLow | d-lmdb/src/storage_engine.rs:62-81 | On every run the cache is at least every stored index, and reopening never raises it |
| WalSpec.StalePersistMisleads | d-lmdb/src/storage_engine.rs:117-121 | A persist below the remembered index of a purged log leaves the cache above the log |
| WalSpec.PurgeExact | d-lmdb/src/storage_engine.rs:169-191 | A purge keeps everything above the cutoff, and drops everything up to it if and only if the cutoff is not the greatest u64 or that index is not stored |
| WalSpec.PurgesCollapse | d-lmdb/src/storage_engine.rs:169-191 | Two purges with rising cutoffs equal the later one |
| WalSpec.ConflictRepair | d-lmdb/src/storage_engine.rs:193-221 | Truncate then persist leaves the old entries below the point followed by exactly the new ones, with the cache on the last; hard state and boundary stay |
| WalHistory.EntryHistory | d-lmdb/src/storage_engine.rs:102-249 | On every run an index is stored if and only if a persist named it and no truncate at or below it, purge reaching it, or reset came later; a purge spares the greatest u64 |
| WalHistory.ValueHistory | d-lmdb/src/storage_engine.rs:102-123 | A stored entry is the last one with its index in the last persist that named the index |
| WalHistory.HardHistory | d-lmdb/src/storage_engine.rs:252-272 | The hard state is that of the last save, whatever else came after, and none without one |
| WalHistory.BoundaryHistory | d-lmdb/src/storage_engine.rs:185-240 | The boundary is the cutoff of the last purge, whatever else came after, and none without one |
| WalHistory.CacheHistory | d-lmdb/src/storage_engine.rs:62-81 | The cache is the greatest of what the log held when it was last read anew, by truncate, reset or reopening, and of every index persisted since |

## Left out

- Raft itself (elections, quorums, ReadIndex, leases) is not part of this model: the committed log is given.
- LMDB's own workings: file copying, fsync, map growth, and its refusal of empty or over-long keys in put, get and delete, which appears only as a store call that fails.
- Prost and bincode encodings: log entries, log ids and hard states are stored as values; encoding and decoding appear only as calls that may fail.
- Scans with an absent limit: it stands for `usize::MAX`, which no listing reaches.
- An empty marker or bound is refused with the iterator's first item, after the test of the limit, as heed positions its cursor there; a version that refuses it when the range is made would also fail at limit zero.
- The revision of a scan is read together with its rows; the source loads it after the read transaction has opened.
- A failed apply is no step of a run: it leaves store and indices as they were (`ApplyChunk`). Nor is a restore whose blocking task died after its commit, which leaves the node not serving.
- Which indices a host persists or names in a copy: any up to the applied one, as the signatures allow. That every log failing `LogSafe` goes wrong may take a host that names an older one.
- Several clocks in one run: each node has its own, never going back; a snapshot is installed only on a node whose clock is not behind its maker's (`SkewExact` shows why).
- Aliasing: tables are values held by fields, so a transaction's working copy is a copy and not LMDB's copy-on-write pages.
- `validate_key`, `validate_value`, `start`, `stop`, configuration, locking, the HTTP server, metrics and deployment: plumbing, or settled by reading one branch.
- `get_linearizable` and `get_lease`: the Raft round trip; what follows it is DecodeAndReap.
