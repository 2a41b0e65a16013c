/**
 * The state machine over LMDB (state_machine.rs). A write transaction is a working copy of the
 * tables; `calls` is how many store calls succeed before one fails, so that a method is proved for
 * every point at which LMDB may let it down.
 */
module StateMachine {
  import opened ByteStrings
  import opened Words
  import opened Tables
  import opened NextPrefixes
  import opened Commands
  import opened Replicas
  import opened Scans

  const LAST_APPLIED_INDEX := "last_applied_index"
  const LAST_APPLIED_TERM := "last_applied_term"

  type MetaDb = map<string, Bytes>

  datatype SnapshotMetadata = SnapshotMetadata(lastIncluded: Option<LogId>, checksum: Bytes)

  datatype ScanResult = ScanResult(entries: seq<Row<Bytes>>, revision: U64)

  function ReadU64(meta: MetaDb, key: string): U64 {
    if key in meta then U64FromBytes(meta[key]) else 0
  }

  function DurableId(meta: MetaDb): LogId {
    LogId(ReadU64(meta, LAST_APPLIED_INDEX), ReadU64(meta, LAST_APPLIED_TERM))
  }

  function WithId(meta: MetaDb, id: LogId): MetaDb {
    meta[LAST_APPLIED_INDEX := ToLe(id.index)][LAST_APPLIED_TERM := ToLe(id.term)]
  }

  /** The durable index survives its trip through eight little-endian bytes. */
  lemma DurableRoundTrip(meta: MetaDb, id: LogId)
    ensures DurableId(WithId(meta, id)) == id
  {
    LeRoundTrip(id.index);
    LeRoundTrip(id.term);
    assert LAST_APPLIED_INDEX[13] != LAST_APPLIED_TERM[13];
  }

  // How many store calls a command makes.
  function CallsFor(kv: Kv, c: Command): nat {
    match c
    case Insert(_, _, _) => 1
    case Remove(_) => 1
    case CompareAndSwap(_, _, _) => if Succeeds(kv, c) then 2 else 1
    case Batch(ops) => |ops|
    case Noop => 0
  }

  function CallsForAll(kv: Kv, chunk: seq<Entry>): nat {
    if chunk == [] then 0
    else
      var before := chunk[..|chunk| - 1];
      CallsForAll(kv, before) + CallsFor(Replay(kv, before), chunk[|chunk| - 1].command)
  }

  lemma CallsForStep(kv: Kv, chunk: seq<Entry>, i: nat)
    requires i < |chunk|
    ensures CallsForAll(kv, chunk[..i + 1]) ==
            CallsForAll(kv, chunk[..i]) + CallsFor(Replay(kv, chunk[..i]), chunk[i].command)
  {
    assert chunk[..i + 1][..i] == chunk[..i];
  }

  lemma {:induction false} CallsForPrefix(kv: Kv, chunk: seq<Entry>, i: nat)
    requires i <= |chunk|
    ensures CallsForAll(kv, chunk[..i]) <= CallsForAll(kv, chunk)
    decreases |chunk| - i
  {
    if i == |chunk| {
      assert chunk[..i] == chunk;
    } else {
      CallsForStep(kv, chunk, i);
      CallsForPrefix(kv, chunk, i + 1);
    }
  }

  // A batch inside a transaction: its operations in order, until one fails.
  method RunBatch(txn: Table<Bytes>, ops: seq<BatchOp>, calls: nat) returns (ok: bool, after: Table<Bytes>)
    ensures ok <==> calls >= |ops|
    ensures ok ==> View(after) == WriteAll(View(txn), ops)
  {
    after := txn;
    for i := 0 to |ops|
      invariant i <= calls
      invariant View(after) == WriteAll(View(txn), ops[..i])
    {
      if i == calls {
        return false, after;
      }
      assert ops[..i + 1][..i] == ops[..i];
      match ops[i]
      case InsertOp(k, v) =>
        PutView(after, k, v);
        after := Put(after, k, v);
      case DeleteOp(k) =>
        DeleteView(after, k);
        after := Delete(after, k);
    }
    assert ops[..|ops|] == ops;
    ok := true;
  }

  // One command inside a transaction.
  method RunCommand(txn: Table<Bytes>, c: Command, calls: nat)
    returns (ok: bool, after: Table<Bytes>, success: bool, left: nat)
    ensures ok <==> calls >= CallsFor(View(txn), c)
    ensures ok ==> left == calls - CallsFor(View(txn), c)
    ensures ok ==> View(after) == Execute(View(txn), c)
    ensures ok ==> success == Succeeds(View(txn), c)
  {
    ok, after, success, left := true, txn, true, calls;
    match c
    case Insert(k, v, _) =>
      if calls == 0 {
        return false, txn, false, 0;
      }
      left := calls - 1;
      PutView(txn, k, v);
      after := Put(txn, k, v);
    case Remove(k) =>
      if calls == 0 {
        return false, txn, false, 0;
      }
      left := calls - 1;
      DeleteView(txn, k);
      after := Delete(txn, k);
    case CompareAndSwap(k, expected, v) =>
      if calls == 0 {
        return false, txn, false, 0;
      }
      left := calls - 1;
      GetView(txn, k);
      var current := Get(txn, k);
      success := match (current, expected)
        case (None, None) => true
        case (Some(c), Some(e)) => c == e
        case _ => false;
      if success {
        if left == 0 {
          return false, txn, false, 0;
        }
        left := left - 1;
        PutView(txn, k, v);
        after := Put(txn, k, v);
      }
    case Batch(ops) =>
      ok, after := RunBatch(txn, ops, calls);
      left := if ok then calls - |ops| else 0;
    case Noop =>
  }

  // Store calls of a restore that goes through.
  function RestoreCalls(snapshot: Table<Bytes>, last: Option<LogId>): nat {
    7 + 2 * |snapshot| + (if last.Some? then 2 else 0)
  }

  // A restore gets through when there is a snapshot and no call fails.
  predicate Restores(snapshot: Option<Table<Bytes>>, last: Option<LogId>, calls: nat) {
    snapshot.Some? && calls >= RestoreCalls(snapshot.value, last)
  }

  // What it leaves: all of it, nothing, or only what is on disk when the task died after its commit.
  ghost function RestoreLeaves(r: Replica, snapshot: Option<Table<Bytes>>, last: Option<LogId>,
                               joined: bool, calls: nat): Replica
  {
    if !Restores(snapshot, last, calls) then r
    else
      var restored := Restored(r, View(snapshot.value), last);
      if joined then restored else restored.(applied := r.applied, terms := r.terms)
  }

  // Only what is on disk counts for the next start: it resumes as after the whole restore.
  lemma RestoreSurvives(r: Replica, snapshot: Option<Table<Bytes>>, last: Option<LogId>, joined: bool, calls: nat)
    requires Restores(snapshot, last, calls)
    ensures Reopened(RestoreLeaves(r, snapshot, last, joined, calls)) ==
            Reopened(Restored(r, View(snapshot.value), last))
  {
  }

  function MetaAfter(meta: MetaDb, last: Option<LogId>): MetaDb {
    if last.Some? then WithId(meta, last.value) else meta
  }

  lemma DurableAfter(meta: MetaDb, last: Option<LogId>)
    ensures DurableId(MetaAfter(meta, last)) == if last.Some? then last.value else DurableId(meta)
  {
    if last.Some? {
      DurableRoundTrip(meta, last.value);
    }
  }

  // The loop of `scan_range_core` over the rows its transaction sees, with `calls` left for the iterator.
  method IterateForward(rows: Table<Bytes>, start: Bound, end: Option<Bytes>, limit: Option<nat>, filter: Filter,
                        calls: nat)
    returns (r: Option<seq<Row<Bytes>>>)
    ensures r.Some? ==> r.value == First(Collect(rows, filter, start, end), limit)
    ensures EmptyBound(start) && limit != Some(0) ==> r.None?
    ensures calls > |rows| && (EmptyBound(start) ==> limit == Some(0)) ==> r.Some?
  {
    var left := calls;
    var entries: seq<Row<Bytes>> := [];
    var i: nat := StartRow(rows, start);
    ScanStarts(rows, filter, start, end, limit);
    while true
      invariant Scanning(rows, filter, start, end, limit, i, entries)
      invariant calls > |rows| ==> left > |rows| - i
      invariant EmptyBound(start) ==> entries == []
      decreases |rows| - i
    {
      var failed := left == 0 || EmptyBound(start);
      if (!failed && i == |rows|) || (limit.Some? && |entries| >= limit.value) {
        ScanStops(rows, filter, start, end, limit, i, entries);
        return Some(entries);
      }
      if failed {
        return None;
      }
      left := left - 1;
      var row := rows[i];
      if end.Some? && !Less(row.key, end.value) {
        ScanStops(rows, filter, start, end, limit, i, entries);
        return Some(entries);
      }
      ScanGoesOn(rows, filter, start, end, limit, i, entries);
      var payload := Keep(filter, row);
      entries := if payload.Some? then entries + [Row(row.key, payload.value)] else entries;
      i := i + 1;
    }
  }

  // The loop of `scan_range_rev`.
  method IterateWindow(rows: Table<Bytes>, start: Bytes, end: Bytes, limit: Option<nat>, filter: Filter, calls: nat)
    returns (r: Option<seq<Row<Bytes>>>)
    requires start != []
    ensures r.Some? ==> Reversed(r.value) == Backwards(rows, filter, start, end, limit)
    ensures calls > |rows| ==> r.Some?
  {
    var left: nat := calls;
    var window: seq<Row<Bytes>> := [];
    var i: nat := StartRow(rows, Included(start));
    WindowStart(rows, filter, start, end, limit);
    while left > 0 && i < |rows| && Less(rows[i].key, end)
      invariant Windowing(rows, filter, start, end, limit, i, window)
      invariant calls > |rows| ==> left > |rows| - i
    {
      left := left - 1;
      WindowGoesOn(rows, filter, start, end, limit, i, window);
      var candidate := Keep(filter, rows[i]);
      if candidate.Some? {
        window := Push(window, Row(rows[i].key, candidate.value), limit);
      }
      i := i + 1;
    }
    if left == 0 {
      return None;
    }
    WindowDone(rows, filter, start, end, limit, i, window);
    r := Some(window);
  }

  // The fields of a node after a whole restore.
  lemma RestoredFields(r: Replica, meta: MetaDb, kv: Kv, last: Option<LogId>)
    requires r.durable == DurableId(meta)
    ensures Restored(r, kv, last) ==
            Replica(kv, DurableId(MetaAfter(meta, last)), if last.Some? then last.value else r.applied, map[])
  {
    DurableAfter(meta, last);
  }

  class LmdbStateMachine {
    // on disk
    var kv: Table<Bytes>
    var meta: MetaDb
    var internal: map<Bytes, Bytes>

    // in memory
    var running: bool
    var lastAppliedIndex: U64
    var lastAppliedTerm: U64
    var entryTerms: map<U64, U64>
    var snapshotMeta: Option<SnapshotMetadata>

    ghost function State(): Replica
      reads this
    {
      Replica(View(kv), DurableId(meta), LogId(lastAppliedIndex, lastAppliedTerm), entryTerms)
    }

    /** `new`: whatever is on disk, and the index recorded there. */
    constructor (kv: Table<Bytes>, meta: MetaDb, internal: map<Bytes, Bytes>)
      ensures this.kv == kv && this.meta == meta && this.internal == internal
      ensures State() == Replica(View(kv), DurableId(meta), DurableId(meta), map[])
      ensures running && snapshotMeta == None
    {
      this.kv, this.meta, this.internal := kv, meta, internal;
      running := true;
      lastAppliedIndex := ReadU64(meta, LAST_APPLIED_INDEX);
      lastAppliedTerm := ReadU64(meta, LAST_APPLIED_TERM);
      entryTerms := map[];
      snapshotMeta := None;
    }

    /** What a crash and a restart leave of this machine. */
    method CrashAndReopen() returns (next: LmdbStateMachine)
      ensures fresh(next) && next.State() == Reopened(State())
      ensures LogId(next.lastAppliedIndex, next.lastAppliedTerm) == DurableId(meta) && next.entryTerms == map[]
      ensures next.kv == kv && next.meta == meta && next.internal == internal
    {
      next := new LmdbStateMachine(kv, meta, internal);
    }

    // The loop of `apply_chunk`: every entry into the transaction, every term into the cache.
    method FillTransaction(chunk: seq<Entry>, calls: nat)
      returns (txn: Option<Table<Bytes>>, results: seq<ApplyResult>, highest: Option<LogId>, left: nat)
      modifies this`entryTerms
      ensures txn.Some? <==> calls >= CallsForAll(View(kv), chunk)
      ensures txn.Some? ==>
                View(txn.value) == Replay(View(kv), chunk) && results == Results(View(kv), chunk) &&
                left == calls - CallsForAll(View(kv), chunk) &&
                entryTerms == AddTerms(old(entryTerms), chunk) &&
                highest == if chunk == [] then None else Some(IdOf(chunk[|chunk| - 1]))
      ensures txn.None? ==> exists j :: 0 <= j <= |chunk| && entryTerms == AddTerms(old(entryTerms), chunk[..j])
    {
      ghost var before := View(kv);
      var working := kv;
      results, highest, left := [], None, calls;
      for i := 0 to |chunk|
        invariant left == calls - CallsForAll(before, chunk[..i])
        invariant View(working) == Replay(before, chunk[..i])
        invariant results == Results(before, chunk[..i])
        invariant entryTerms == AddTerms(old(entryTerms), chunk[..i])
        invariant highest == if i == 0 then None else Some(IdOf(chunk[i - 1]))
      {
        CallsForStep(before, chunk, i);
        ReplayStep(before, chunk, i);
        AddTermsSnoc(old(entryTerms), chunk, i);
        var ok, after, success, rest := RunCommand(working, chunk[i].command, left);
        if !ok {
          CallsForPrefix(before, chunk, i + 1);
          return None, results, highest, left;
        }
        working, left := after, rest;
        results := results + [ApplyResult(success, chunk[i].index)];
        entryTerms := entryTerms[chunk[i].index := chunk[i].term];
        highest := Some(IdOf(chunk[i]));
      }
      assert chunk[..|chunk|] == chunk;
      txn := Some(working);
    }

    method ApplyChunk(chunk: seq<Entry>, calls: nat) returns (r: Option<seq<ApplyResult>>)
      modifies this
      ensures meta == old(meta) && internal == old(internal)
      ensures running == old(running) && snapshotMeta == old(snapshotMeta)
      ensures r.Some? <==> calls >= CallsForAll(old(View(kv)), chunk) + 2
      ensures r.Some? ==> r.value == Results(old(View(kv)), chunk)
      ensures r.Some? ==> State() == Applied(old(State()), chunk)
      ensures r.Some? && chunk != [] ==>
                lastAppliedIndex == chunk[|chunk| - 1].index && lastAppliedTerm == chunk[|chunk| - 1].term
      ensures r.Some? && chunk == [] ==>
                lastAppliedIndex == old(lastAppliedIndex) && lastAppliedTerm == old(lastAppliedTerm)
      ensures r.None? ==> kv == old(kv) && State().applied == old(State()).applied
      // The term cache is not part of the transaction.
      ensures r.None? ==> exists j :: 0 <= j <= |chunk| && entryTerms == AddTerms(old(entryTerms), chunk[..j])
    {
      assert chunk[..0] == [] && chunk[..|chunk|] == chunk;
      if calls == 0 {
        return None;
      }
      var txn, results, highest, left := FillTransaction(chunk, calls - 1);
      if txn.None? || left == 0 {
        return None;
      }
      kv := txn.value;
      if highest.Some? {
        UpdateLastApplied(highest.value);
      }
      return Some(results);
    }

    method UpdateLastApplied(id: LogId)
      modifies this`lastAppliedIndex, this`lastAppliedTerm
      ensures LogId(lastAppliedIndex, lastAppliedTerm) == id
    {
      lastAppliedIndex := id.index;
      lastAppliedTerm := id.term;
    }

    /** Both halves of the index, on disk and in memory, or neither. */
    method PersistLastApplied(id: LogId, calls: nat) returns (ok: bool)
      modifies this`meta, this`lastAppliedIndex, this`lastAppliedTerm
      ensures ok <==> calls >= 4
      ensures State() == if ok then Persisted(old(State()), id) else old(State())
      ensures ok ==> meta == old(meta)[LAST_APPLIED_INDEX := ToLe(id.index)][LAST_APPLIED_TERM := ToLe(id.term)]
      ensures ok ==> DurableId(meta) == id && lastAppliedIndex == id.index && lastAppliedTerm == id.term
    {
      var txn := meta;
      DurableRoundTrip(meta, id);
      if calls <= 1 {
        return false;
      }
      txn := txn[LAST_APPLIED_INDEX := ToLe(id.index)];
      if calls == 2 {
        return false;
      }
      txn := txn[LAST_APPLIED_TERM := ToLe(id.term)];
      if calls == 3 {
        return false;
      }
      meta := txn;
      UpdateLastApplied(id);
      return true;
    }

    /** `Drop`: an orderly end persists the in-memory index, so that nothing will be replayed. */
    method Close(calls: nat)
      modifies this`meta, this`lastAppliedIndex, this`lastAppliedTerm
      ensures calls >= 4 ==> State() == Persisted(old(State()), old(State()).applied)
      ensures calls >= 4 ==> Reopened(State()) == old(State()).(durable := old(State()).applied, terms := map[])
      ensures calls < 4 ==> State() == old(State())
    {
      var ok := PersistLastApplied(LogId(lastAppliedIndex, lastAppliedTerm), calls);
    }

    method DeleteLocal(key: Bytes, calls: nat) returns (ok: bool, left: nat)
      modifies this`kv
      ensures ok <==> calls >= 3
      ensures left == if ok then calls - 3 else 0
      ensures State() == if ok then Reaped(old(State()), key) else old(State())
      ensures View(kv) == if ok then old(View(kv)) - {key} else old(View(kv))
    {
      DeleteView(kv, key);
      if calls < 3 {
        return false, 0;
      }
      kv := Delete(kv, key);
      return true, calls - 3;
    }

    /** Store and durable index change together or not at all. */
    method RestoreBlocking(last: Option<LogId>, snapshot: Option<Table<Bytes>>, calls: nat) returns (ok: bool)
      modifies this`kv, this`meta
      ensures ok <==> Restores(snapshot, last, calls)
      ensures snapshot.None? ==> !ok
      ensures ok && last.Some? ==> DurableId(meta) == last.value
      ensures ok ==> kv == snapshot.value && meta == MetaAfter(old(meta), last)
      ensures !ok ==> kv == old(kv) && meta == old(meta)
    {
      // Open the snapshot, its transaction and its "kv" database; open the write transaction, clear, iterate.
      if calls < 3 || snapshot.None? || calls < 6 {
        return false;
      }
      var rows := snapshot.value;
      var left := calls - 6;
      var txn: Table<Bytes> := [];
      for i := 0 to |rows|
        invariant kv == old(kv) && meta == old(meta)
        invariant left == calls - 6 - 2 * i >= 0
        invariant txn == rows[..i]
      {
        if left < 2 {
          return false;
        }
        left := left - 2;
        PutAtEnd(rows, i);
        txn := Put(txn, rows[i].key, rows[i].value);
      }
      var metaTxn := meta;
      if last.Some? {
        if left < 2 {
          return false;
        }
        left := left - 2;
        metaTxn := metaTxn[LAST_APPLIED_INDEX := ToLe(last.value.index)];
        metaTxn := metaTxn[LAST_APPLIED_TERM := ToLe(last.value.term)];
      }
      if left == 0 {
        return false;
      }
      DurableAfter(old(meta), last);
      assert rows[..|rows|] == rows;
      kv, meta := txn, metaTxn;
      return true;
    }

    /**
     * `joined` is false when the blocking task dies, which it may do at any point: `calls` says how
     * far it got, before or after its commit. The early return then leaves the memory as it was and
     * `running` off.
     */
    method ApplySnapshotFromFile(metadata: SnapshotMetadata, snapshot: Option<Table<Bytes>>, joined: bool, calls: nat)
      returns (ok: bool)
      modifies this
      ensures ok <==> joined && Restores(snapshot, metadata.lastIncluded, calls)
      ensures State() == RestoreLeaves(old(State()), snapshot, metadata.lastIncluded, joined, calls)
      // Whole: the store, both indices and the term cache.
      ensures ok ==> kv == snapshot.value && entryTerms == map[]
      ensures ok && metadata.lastIncluded.Some? ==>
                var id := metadata.lastIncluded.value;
                DurableId(meta) == id && lastAppliedIndex == id.index && lastAppliedTerm == id.term
      ensures ok && metadata.lastIncluded.None? ==>
                meta == old(meta) &&
                lastAppliedIndex == old(lastAppliedIndex) && lastAppliedTerm == old(lastAppliedTerm)
      ensures ok ==> State() == Restored(old(State()), View(snapshot.value), metadata.lastIncluded)
      // Otherwise the memory stays, and so does the disk unless the task died after its commit.
      ensures !ok ==>
                entryTerms == old(entryTerms) && lastAppliedIndex == old(lastAppliedIndex) &&
                lastAppliedTerm == old(lastAppliedTerm)
      ensures !ok && !Restores(snapshot, metadata.lastIncluded, calls) ==> kv == old(kv) && meta == old(meta)
      ensures !ok && Restores(snapshot, metadata.lastIncluded, calls) ==>
                kv == snapshot.value && meta == MetaAfter(old(meta), metadata.lastIncluded)
      ensures snapshotMeta == if ok then Some(metadata) else old(snapshotMeta)
      ensures running == joined
      ensures internal == old(internal)
    {
      running := false;
      ok := RestoreBlocking(metadata.lastIncluded, snapshot, calls);
      RestoredFields(old(State()), old(meta), View(kv), metadata.lastIncluded);
      if !joined {
        return false;
      }
      if ok {
        AdoptSnapshot(metadata);
      }
      running := true;
    }

    // What is in memory after a restore that got through.
    method AdoptSnapshot(metadata: SnapshotMetadata)
      modifies this`lastAppliedIndex, this`lastAppliedTerm, this`snapshotMeta, this`entryTerms
      ensures LogId(lastAppliedIndex, lastAppliedTerm) ==
              if metadata.lastIncluded.Some? then metadata.lastIncluded.value
              else old(LogId(lastAppliedIndex, lastAppliedTerm))
      ensures snapshotMeta == Some(metadata) && entryTerms == map[]
    {
      if metadata.lastIncluded.Some? {
        UpdateLastApplied(metadata.lastIncluded.value);
      }
      snapshotMeta := Some(metadata);
      entryTerms := map[];
    }

    /** The copy is of the store as it is, whatever index the caller says it includes. */
    method GenerateSnapshotData(lastIncluded: LogId, calls: nat) returns (copy: Option<Table<Bytes>>)
      modifies this`snapshotMeta
      ensures copy == if calls >= 2 then Some(kv) else None
      ensures snapshotMeta == if copy.Some? then Some(SnapshotMetadata(Some(lastIncluded), seq(32, _ => 0)))
                              else old(snapshotMeta)
    {
      if calls < 2 {
        return None;
      }
      snapshotMeta := Some(SnapshotMetadata(Some(lastIncluded), seq(32, _ => 0)));
      return Some(kv);
    }

    method Reset(calls: nat) returns (ok: bool)
      modifies this
      ensures ok <==> calls >= 5
      ensures ok ==> State() == Cleared(old(State())) && internal == map[] && snapshotMeta == None
      ensures ok ==> kv == [] && meta == map[] && entryTerms == map[]
      ensures ok ==> DurableId(meta) == LogId(0, 0) && lastAppliedIndex == 0 && lastAppliedTerm == 0
      ensures !ok ==> State() == old(State()) && internal == old(internal) && snapshotMeta == old(snapshotMeta)
      ensures running == old(running)
    {
      if calls < 5 {
        return false;
      }
      kv, meta, internal := [], map[], map[];
      UpdateLastApplied(ORIGIN);
      snapshotMeta := None;
      entryTerms := map[];
      return true;
    }

    // None is a failed read.
    method Get(key: Bytes, calls: nat) returns (r: Option<Option<Bytes>>, left: nat)
      ensures r == if calls >= 2 then Some(At(View(kv), key)) else None
      ensures left == if calls >= 2 then calls - 2 else 0
    {
      if calls < 2 {
        return None, 0;
      }
      GetView(kv, key);
      return Some(Tables.Get(kv, key)), calls - 2;
    }

    /** A failed read counts as an empty store. */
    method Len(calls: nat) returns (n: nat)
      ensures n == if calls >= 2 then |View(kv)| else 0
    {
      TableSize(kv);
      n := if calls >= 2 then |kv| else 0;
    }

    // ---- scans ----

    /**
     * The first `limit` kept rows in range, all of them if there are fewer. None is an error: a
     * call that fails, or the iterator's first item when the bound is an empty key. With the limit
     * reached, the loop stops before it looks whether the next item is one.
     */
    method ScanRangeCore(start: Bound, end: Option<Bytes>, limit: Option<nat>, filter: Filter, calls: nat)
      returns (r: Option<ScanResult>)
      ensures r.Some? ==> r.value == ScanResult(First(Collect(kv, filter, start, end), limit), lastAppliedIndex)
      ensures r.Some? ==>
                var entries, listing := r.value.entries, Collect(kv, filter, start, end);
                |entries| == (if limit.Some? && limit.value < |listing| then limit.value else |listing|) &&
                forall i :: 0 <= i < |entries| ==> entries[i] == listing[i]
      ensures EmptyBound(start) && limit != Some(0) ==> r.None?
      ensures calls >= |kv| + 3 && (EmptyBound(start) ==> limit == Some(0)) ==> r.Some?
      ensures calls < 2 ==> r.None?
    {
      if calls < 2 {
        return None;
      }
      var revision := lastAppliedIndex;
      FirstExact(Collect(kv, filter, start, end), limit);
      var entries := IterateForward(kv, start, end, limit, filter, calls - 2);
      r := if entries.Some? then Some(ScanResult(entries.value, revision)) else None;
    }

    method ScanRange(start: Bytes, end: Option<Bytes>, limit: Option<nat>, filter: Filter, calls: nat)
      returns (r: Option<ScanResult>)
      ensures r.Some? ==>
                r.value == ScanResult(First(Listing(kv, filter, Included(start), end), limit), lastAppliedIndex)
      ensures start == [] || calls >= |kv| + 3 ==> r.Some?
    {
      if start == [] {
        return Some(ScanResult([], lastAppliedIndex));
      }
      r := ScanRangeCore(Included(start), end, limit, filter, calls);
    }

    method ScanAll(limit: Option<nat>, filter: Filter, calls: nat) returns (r: Option<ScanResult>)
      ensures r.Some? ==> r.value == ScanResult(First(Collect(kv, filter, Unbounded, None), limit), lastAppliedIndex)
      ensures calls >= |kv| + 3 ==> r.Some?
    {
      r := ScanRangeCore(Unbounded, None, limit, filter, calls);
    }

    method ScanPrefixBounded(prefix: Bytes, after: Option<Bytes>, limit: Option<nat>, filter: Filter, calls: nat)
      returns (r: Option<ScanResult>)
      ensures prefix == [] ==> r == Some(ScanResult([], lastAppliedIndex))
      ensures prefix != [] && r.Some? ==>
                r.value == ScanResult(First(Collect(kv, filter, StartOf(prefix, after), NextPrefix(prefix)), limit),
                                      lastAppliedIndex)
      ensures prefix != [] && after == Some([]) && limit != Some(0) ==> r.None?
      ensures calls >= |kv| + 3 && (after == Some([]) ==> limit == Some(0)) ==> r.Some?
    {
      if prefix == [] {
        return Some(ScanResult([], lastAppliedIndex));
      }
      var end := ComputeNextPrefix(prefix);
      var start := match after
        case Some(a) => Excluded(a)
        case None => Included(prefix);
      r := ScanRangeCore(start, end, limit, filter, calls);
    }

    /** Forward through the range with a window of the latest `limit` rows, then backwards through the window. */
    method ScanRangeRev(start: Bytes, end: Bytes, limit: Option<nat>, filter: Filter, calls: nat)
      returns (r: Option<ScanResult>)
      ensures r.Some? ==> r.value == ScanResult(Backwards(kv, filter, start, end, limit), lastAppliedIndex)
      ensures r.Some? ==>
                var entries, listing := r.value.entries, Listing(kv, filter, Included(start), Some(end));
                (limit == None ==> |entries| == |listing|) &&
                (limit.Some? && limit.value >= 1 ==>
                   |entries| == if limit.value < |listing| then limit.value else |listing|) &&
                (limit == Some(0) ==> |entries| == if listing == [] then 0 else 1) &&
                (forall i :: 0 <= i < |entries| ==> entries[i] == listing[|listing| - 1 - i])
      ensures r.Some? ==>
                forall i, j :: 0 <= i < j < |r.value.entries| ==> Less(r.value.entries[j].key, r.value.entries[i].key)
      ensures start == [] || calls >= |kv| + 3 ==> r.Some?
    {
      BackwardsExact(kv, filter, start, end, limit);
      var revision := lastAppliedIndex;
      if start == [] {
        NothingBackwards(kv, filter, end, limit);
        return Some(ScanResult([], revision));
      }
      if calls < 2 {
        return None;
      }
      var window := IterateWindow(kv, start, end, limit, filter, calls - 2);
      r := if window.Some? then Some(ScanResult(Reversed(window.value), revision)) else None;
    }
  }

  lemma PutAtEnd(rows: Table<Bytes>, i: nat)
    requires i < |rows|
    ensures Put(rows[..i], rows[i].key, rows[i].value) == rows[..i + 1]
  {
    var front: Table<Bytes> := rows[..i];
    forall j | 0 <= j < i ensures Less(front[j].key, rows[i].key) {
    }
    assert Seek(front, rows[i].key) == i;
    assert rows[i] == Row(rows[i].key, rows[i].value);
  }

  lemma {:induction false} TableSize(t: Table<Bytes>)
    ensures |View(t)| == |t|
  {
    if t != [] {
      var init: Table<Bytes> := t[..|t| - 1];
      var last := t[|t| - 1];
      TableSize(init);
      PutAtEnd(t, |t| - 1);
      PutView(init, last.key, last.value);
      assert t[..|t| - 1 + 1] == t;
      if last.key in View(init) {
        HasRow(init, last.key);
        DistinctKeys(t);
        assert false;
      }
    }
  }
}
