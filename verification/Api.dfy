/** The client calls of db.rs as operations on a catalog: key to payload and optional expiry. */
module Api {
  import opened ByteStrings
  import opened Words
  import opened Tables
  import opened Values
  import opened Commands
  import opened Reaping
  import opened Clusters
  import opened Convergence
  import opened Scans

  datatype Call =
    | PutCall(key: Bytes, value: Bytes)
    | PutWithTtlCall(key: Bytes, value: Bytes, now: U64, ttlSecs: U64)
    | BatchCall(ops: seq<BatchOp>)
    | DeleteCall(key: Bytes)
    | PutIfAbsentCall(key: Bytes, value: Bytes)
    | CasCall(key: Bytes, expected: Option<Bytes>, value: Bytes)
    | NoCall // an entry Raft adds on its own

  // The unchecked `unix_now_secs() + ttl_secs`, as a release build wraps it.
  function ExpiresAt(now: U64, ttlSecs: U64): U64 {
    (now + ttlSecs) % U64_LIMIT
  }

  function EncodeOp(op: BatchOp): BatchOp {
    match op
    case InsertOp(k, v) => InsertOp(k, EncodeRaw(v))
    case DeleteOp(k) => op
  }

  function EncodeOps(ops: seq<BatchOp>): seq<BatchOp> {
    if ops == [] then [] else EncodeOps(ops[..|ops| - 1]) + [EncodeOp(ops[|ops| - 1])]
  }

  // The command each call proposes to Raft.
  function CommandFor(call: Call): Command {
    match call
    case PutCall(k, v) => Insert(k, EncodeRaw(v), None)
    case PutWithTtlCall(k, v, now, ttl) => Insert(k, EncodeTtl(v, Some(ExpiresAt(now, ttl))), None)
    case BatchCall(ops) => Batch(EncodeOps(ops))
    case DeleteCall(k) => Remove(k)
    case PutIfAbsentCall(k, v) => CompareAndSwap(k, None, EncodeRaw(v))
    case CasCall(k, expected, v) =>
      CompareAndSwap(k, if expected.Some? then Some(EncodeRaw(expected.value)) else None, EncodeRaw(v))
    case NoCall => Noop
  }

  // ---- the catalog ----

  datatype Held = Held(payload: Bytes, expiry: Option<U64>)

  type Catalog = map<Bytes, Held>

  function Lookup(m: Catalog, k: Bytes, now: nat): Option<Bytes> {
    if k in m && (m[k].expiry.Some? ==> m[k].expiry.value > now) then Some(m[k].payload) else None
  }

  // A call's answer: CAS wants exactly the expected payload, never to expire, or nothing at all.
  predicate Answer(m: Catalog, call: Call) {
    match call
    case PutIfAbsentCall(k, _) => k !in m
    case CasCall(k, None, _) => k !in m
    case CasCall(k, Some(e), _) => k in m && m[k] == Held(e, None)
    case _ => true
  }

  function Recorded(m: Catalog, op: BatchOp): Catalog {
    match op
    case InsertOp(k, v) => m[k := Held(v, None)]
    case DeleteOp(k) => m - {k}
  }

  function AllRecorded(m: Catalog, ops: seq<BatchOp>): Catalog {
    if ops == [] then m else Recorded(AllRecorded(m, ops[..|ops| - 1]), ops[|ops| - 1])
  }

  function After(m: Catalog, call: Call): Catalog {
    match call
    case PutCall(k, v) => m[k := Held(v, None)]
    case PutWithTtlCall(k, v, now, ttl) => m[k := Held(v, Some(ExpiresAt(now, ttl)))]
    case BatchCall(ops) => AllRecorded(m, ops)
    case DeleteCall(k) => m - {k}
    case PutIfAbsentCall(k, v) => if Answer(m, call) then m[k := Held(v, None)] else m
    case CasCall(k, _, v) => if Answer(m, call) then m[k := Held(v, None)] else m
    case NoCall => m
  }

  function AfterAll(m: Catalog, calls: seq<Call>): Catalog {
    if calls == [] then m else After(AfterAll(m, calls[..|calls| - 1]), calls[|calls| - 1])
  }

  // ---- the catalog as stored ----

  function Stored(m: Catalog): Kv {
    map k | k in m :: EncodeTtl(m[k].payload, m[k].expiry)
  }

  lemma StoredInjective(h: Held, e: Bytes)
    ensures EncodeTtl(h.payload, h.expiry) == EncodeRaw(e) <==> h == Held(e, None)
  {
    DecodeEncode(Raw(e));
    match h.expiry
    case None => DecodeEncode(Raw(h.payload));
    case Some(ts) => DecodeEncode(Ttl(ts, h.payload));
  }

  /** A point read of a stored catalog is a lookup, and never an error. */
  lemma ReadIsLookup(m: Catalog, k: Bytes, now: nat)
    ensures ReadOf(At(Stored(m), k), now) == Some(Lookup(m, k, now))
  {
    if k in m {
      match m[k].expiry
      case None => DecodeEncode(Raw(m[k].payload));
      case Some(ts) => DecodeEncode(Ttl(ts, m[k].payload));
    }
  }

  lemma StoredPut(m: Catalog, k: Bytes, h: Held)
    ensures Stored(m[k := h]) == Stored(m)[k := EncodeTtl(h.payload, h.expiry)]
  {
  }

  lemma StoredDelete(m: Catalog, k: Bytes)
    ensures Stored(m - {k}) == Stored(m) - {k}
  {
  }

  lemma OpRefines(m: Catalog, op: BatchOp)
    ensures Write(Stored(m), EncodeOp(op)) == Stored(Recorded(m, op))
  {
    match op
    case InsertOp(k, v) => StoredPut(m, k, Held(v, None));
    case DeleteOp(k) => StoredDelete(m, k);
  }

  lemma {:induction false} BatchRefines(m: Catalog, ops: seq<BatchOp>)
    ensures WriteAll(Stored(m), EncodeOps(ops)) == Stored(AllRecorded(m, ops))
  {
    if ops != [] {
      var init, op := ops[..|ops| - 1], ops[|ops| - 1];
      BatchRefines(m, init);
      OpRefines(AllRecorded(m, init), op);
      var all := EncodeOps(ops);
      assert all[..|all| - 1] == EncodeOps(init);
    }
  }

  lemma CasRefines(m: Catalog, k: Bytes, expected: Option<Bytes>, v: Bytes)
    ensures var c := CommandFor(CasCall(k, expected, v));
            Succeeds(Stored(m), c) <==> Answer(m, CasCall(k, expected, v))
  {
    if k in m && expected.Some? {
      StoredInjective(m[k], expected.value);
    }
  }

  /** Each call does to the stored catalog what it says on the catalog, and answers the same. */
  lemma CallRefines(m: Catalog, call: Call)
    ensures Execute(Stored(m), CommandFor(call)) == Stored(After(m, call))
    ensures Succeeds(Stored(m), CommandFor(call)) <==> Answer(m, call)
  {
    match call
    case PutCall(k, v) => StoredPut(m, k, Held(v, None));
    case PutWithTtlCall(k, v, now, ttl) => StoredPut(m, k, Held(v, Some(ExpiresAt(now, ttl))));
    case BatchCall(ops) => BatchRefines(m, ops);
    case DeleteCall(k) => StoredDelete(m, k);
    case PutIfAbsentCall(k, v) => StoredPut(m, k, Held(v, None));
    case CasCall(k, expected, v) =>
      CasRefines(m, k, expected, v);
      StoredPut(m, k, Held(v, None));
    case NoCall =>
  }

  // `log` is what the calls propose, in commit order.
  predicate Proposes(log: seq<Entry>, calls: seq<Call>) {
    |log| == |calls| && forall i :: 0 <= i < |log| ==> ProposesAt(log, calls, i)
  }

  predicate ProposesAt(log: seq<Entry>, calls: seq<Call>, i: nat)
    requires i < |log| == |calls|
  {
    log[i].command == CommandFor(calls[i])
  }

  /** The ideal store is the stored catalog, at every index. */
  lemma {:induction false} IdealIsCatalog(log: seq<Entry>, calls: seq<Call>, n: nat)
    requires Proposes(log, calls) && n <= |log|
    ensures Ideal(log, n) == Stored(AfterAll(map[], calls[..n]))
  {
    if n > 0 {
      IdealIsCatalog(log, calls, n - 1);
      ReplayStep(map[], log, n - 1);
      assert calls[..n][..n - 1] == calls[..n - 1];
      assert ProposesAt(log, calls, n - 1);
      CallRefines(AfterAll(map[], calls[..n - 1]), calls[n - 1]);
    }
  }

  /** Only calls that expect absence can notice a local deletion. */
  lemma CallsExpectRaw(call: Call)
    ensures RawExpected(CommandFor(call)) <==>
            !call.PutIfAbsentCall? && !(call.CasCall? && call.expected.None?)
  {
  }

  /**
   * What clients see. On a safe run over the log of a sequence of calls, a caught-up node's point
   * read at any time from its clock on is a lookup in the catalog of the calls it has applied.
   */
  lemma GetServesCatalog(log: seq<Entry>, calls: seq<Call>, reaps: bool, states: seq<Cluster>, steps: seq<Step>,
                         t: nat, i: nat, k: Bytes, now: nat)
    requires Indexed(log) && Proposes(log, calls)
    requires Run(log, reaps, states, steps) && SafeRun(log, reaps, states, steps)
    requires t < |states| && i < |states[t].nodes|
    requires states[t].nodes[i].r.applied.index == states[t].nodes[i].high && states[t].nodes[i].clock <= now
    ensures var n := states[t].nodes[i];
            n.high <= |calls| &&
            ReadOf(At(n.r.kv, k), now) == Some(Lookup(AfterAll(map[], calls[..n.high]), k, now))
  {
    Converges(log, reaps, states, steps, t, i);
    var n := states[t].nodes[i];
    IdealIsCatalog(log, calls, n.high);
    ReadIsLookup(AfterAll(map[], calls[..n.high]), k, now);
  }

  // A live scan of a table whose key reads as a lookup.
  lemma ListedByLookup(t: Table<Bytes>, m: Catalog, readings: Readings, start: Bound, end: Option<Bytes>, r: Row<Bytes>)
    requires ReadOf(At(View(t), r.key), readings(r.key)) == Some(Lookup(m, r.key, readings(r.key)))
    ensures r in Listing(t, Live(readings), start, end) <==>
            !EmptyBound(start) && InScan(r.key, start, end) && Lookup(m, r.key, readings(r.key)) == Some(r.value)
  {
    CollectExact(t, Live(readings), start, end, r);
  }

  /** And its live scans list exactly the entries in range that a lookup finds when the scan comes to them. */
  lemma ScanServesCatalog(log: seq<Entry>, calls: seq<Call>, reaps: bool, states: seq<Cluster>, steps: seq<Step>,
                          t: nat, i: nat, table: Table<Bytes>, readings: Readings, start: Bound, end: Option<Bytes>,
                          r: Row<Bytes>)
    requires Indexed(log) && Proposes(log, calls)
    requires Run(log, reaps, states, steps) && SafeRun(log, reaps, states, steps)
    requires t < |states| && i < |states[t].nodes|
    requires states[t].nodes[i].r.applied.index == states[t].nodes[i].high && View(table) == states[t].nodes[i].r.kv
    requires states[t].nodes[i].clock <= readings(r.key)
    ensures var n := states[t].nodes[i];
            n.high <= |calls| &&
            (r in Listing(table, Live(readings), start, end) <==>
             !EmptyBound(start) && InScan(r.key, start, end) &&
             Lookup(AfterAll(map[], calls[..n.high]), r.key, readings(r.key)) == Some(r.value))
  {
    GetServesCatalog(log, calls, reaps, states, steps, t, i, r.key, readings(r.key));
    ListedByLookup(table, AfterAll(map[], calls[..states[t].nodes[i].high]), readings, start, end, r);
  }

  lemma IdealSucceeds(log: seq<Entry>, calls: seq<Call>, n: nat)
    requires Proposes(log, calls) && n < |log|
    ensures Succeeds(Ideal(log, n), log[n].command) <==> Answer(AfterAll(map[], calls[..n]), calls[n])
  {
    IdealIsCatalog(log, calls, n);
    assert ProposesAt(log, calls, n);
    CallRefines(AfterAll(map[], calls[..n]), calls[n]);
  }

  // The result of entry `i` among those of the entries from `high` on.
  lemma IdealResult(log: seq<Entry>, calls: seq<Call>, high: nat, to: nat, i: nat)
    requires Proposes(log, calls) && high <= i < to <= |log|
    ensures |Results(Ideal(log, high), log[high..to])| == to - high
    ensures Results(Ideal(log, high), log[high..to])[i - high] ==
            ApplyResult(Answer(AfterAll(map[], calls[..i]), calls[i]), log[i].index)
  {
    var chunk := log[high..to];
    ResultExact(Ideal(log, high), chunk, i - high);
    assert chunk[..i - high] == log[high..i];
    IdealFrom(log, high, i);
    IdealSucceeds(log, calls, i);
  }

  // The same among those of a chunk that begins with replayed entries.
  lemma AnswerPast(log: seq<Entry>, calls: seq<Call>, kv: Kv, at: nat, high: nat, to: nat, i: nat)
    requires Proposes(log, calls) && at <= high <= i < to <= |log| && |Results(kv, log[at..to])| == to - at
    requires Results(kv, log[at..to])[high - at..] == Results(Ideal(log, high), log[high..to])
    ensures Results(kv, log[at..to])[i - at] ==
            ApplyResult(Answer(AfterAll(map[], calls[..i]), calls[i]), log[i].index)
  {
    IdealResult(log, calls, high, to, i);
    assert Results(kv, log[at..to])[i - at] == Results(kv, log[at..to])[high - at..][i - high];
  }

  /**
   * And what a node answers a call that it applies for the first time is the catalog's answer, also
   * when the chunk begins with calls it replays.
   */
  lemma AnswersServeCatalog(log: seq<Entry>, calls: seq<Call>, reaps: bool, states: seq<Cluster>, steps: seq<Step>,
                            t: nat, n: Node, to: nat, i: nat)
    requires Indexed(log) && Proposes(log, calls)
    requires Run(log, reaps, states, steps) && SafeRun(log, reaps, states, steps)
    requires FirstApply(states, steps, t, n, to) && n.high <= i < to
    ensures var at := n.r.applied.index;
            at <= n.high && to <= |log| && |Results(n.r.kv, log[at..to])| == to - at &&
            Results(n.r.kv, log[at..to])[i - at] ==
            ApplyResult(Answer(AfterAll(map[], calls[..i]), calls[i]), log[i].index)
  {
    FirstResultsIdeal(log, reaps, states, steps, t, n, to);
    AnswerPast(log, calls, n.r.kv, n.r.applied.index, n.high, to, i);
  }

  // Stored under an expiry that has passed: a lookup finds nothing, the entry is still there.
  predicate ExpiredEntry(m: Catalog, k: Bytes, now: nat) {
    k in m && m[k].expiry.Some? && m[k].expiry.value <= now
  }

  /** put_if_absent agrees with a read that finds nothing exactly when no expired entry is in the way. */
  lemma AbsentAnswerExact(m: Catalog, k: Bytes, v: Bytes, now: nat)
    ensures (Answer(m, PutIfAbsentCall(k, v)) <==> Lookup(m, k, now) == None) <==> !ExpiredEntry(m, k, now)
  {
  }

  /** A CAS agrees with a read that finds the expected payload exactly when that is not held under an expiry. */
  lemma CasAnswerExact(m: Catalog, k: Bytes, e: Bytes, v: Bytes, now: nat)
    ensures (Answer(m, CasCall(k, Some(e), v)) <==> Lookup(m, k, now) == Some(e)) <==>
            !(k in m && m[k].payload == e && m[k].expiry.Some? && m[k].expiry.value > now)
  {
  }

  /** A value put with a TTL is visible at the time of the put exactly when the sum fits in 64 bits. */
  lemma TtlVisibleExact(m: Catalog, k: Bytes, v: Bytes, now: U64, ttlSecs: U64)
    ensures Lookup(After(m, PutWithTtlCall(k, v, now, ttlSecs)), k, now) == Some(v)
            <==> ttlSecs > 0 && now + ttlSecs < U64_LIMIT
    ensures now + ttlSecs < U64_LIMIT ==>
              forall later :: now <= later ==>
                (Lookup(After(m, PutWithTtlCall(k, v, now, ttlSecs)), k, later) == Some(v) <==> later < now + ttlSecs)
  {
    if now + ttlSecs >= U64_LIMIT {
      assert ExpiresAt(now, ttlSecs) == now + ttlSecs - U64_LIMIT;
    } else {
      assert ExpiresAt(now, ttlSecs) == now + ttlSecs;
    }
  }
}
