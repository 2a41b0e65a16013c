/** Replicated commands and what applying them means, on whole stores and key by key. */
module Commands {
  import opened ByteStrings
  import opened Words
  import opened Tables

  datatype BatchOp = InsertOp(key: Bytes, value: Bytes) | DeleteOp(key: Bytes)

  datatype Command =
    | Insert(key: Bytes, value: Bytes, ttlSecs: Option<U64>)
    | Remove(key: Bytes)
    | CompareAndSwap(key: Bytes, expected: Option<Bytes>, value: Bytes)
    | Batch(ops: seq<BatchOp>)
    | Noop

  datatype Entry = Entry(index: U64, term: U64, command: Command)

  datatype ApplyResult = ApplyResult(success: bool, index: U64)

  type Kv = map<Bytes, Bytes>

  function Write(kv: Kv, op: BatchOp): Kv {
    match op
    case InsertOp(k, v) => kv[k := v]
    case DeleteOp(k) => kv - {k}
  }

  function WriteAll(kv: Kv, ops: seq<BatchOp>): Kv {
    if ops == [] then kv else Write(WriteAll(kv, ops[..|ops| - 1]), ops[|ops| - 1])
  }

  predicate Succeeds(kv: Kv, c: Command) {
    c.CompareAndSwap? ==> At(kv, c.key) == c.expected
  }

  function Execute(kv: Kv, c: Command): Kv {
    match c
    case Insert(k, v, _) => kv[k := v]
    case Remove(k) => kv - {k}
    case CompareAndSwap(k, _, v) => if Succeeds(kv, c) then kv[k := v] else kv
    case Batch(ops) => WriteAll(kv, ops)
    case Noop => kv
  }

  // The ideal state machine: entries one after the other.
  function Replay(kv: Kv, log: seq<Entry>): Kv {
    if log == [] then kv else Execute(Replay(kv, log[..|log| - 1]), log[|log| - 1].command)
  }

  function Results(kv: Kv, log: seq<Entry>): seq<ApplyResult> {
    if log == [] then []
    else
      var before := log[..|log| - 1];
      var e := log[|log| - 1];
      Results(kv, before) + [ApplyResult(Succeeds(Replay(kv, before), e.command), e.index)]
  }

  // ---- one entry at a time ----

  lemma ReplaySnoc(kv: Kv, log: seq<Entry>, e: Entry)
    ensures Replay(kv, log + [e]) == Execute(Replay(kv, log), e.command)
    ensures Results(kv, log + [e]) ==
            Results(kv, log) + [ApplyResult(Succeeds(Replay(kv, log), e.command), e.index)]
  {
    assert (log + [e])[..|log + [e]| - 1] == log;
  }

  lemma ReplayStep(kv: Kv, log: seq<Entry>, i: nat)
    requires i < |log|
    ensures Replay(kv, log[..i + 1]) == Execute(Replay(kv, log[..i]), log[i].command)
    ensures Results(kv, log[..i + 1]) ==
            Results(kv, log[..i]) + [ApplyResult(Succeeds(Replay(kv, log[..i]), log[i].command), log[i].index)]
  {
    assert log[..i + 1] == log[..i] + [log[i]];
    ReplaySnoc(kv, log[..i], log[i]);
  }

  /** Chunk boundaries do not matter, to the store or to the results. */
  lemma {:induction false} ReplayConcat(kv: Kv, a: seq<Entry>, b: seq<Entry>)
    ensures Replay(kv, a + b) == Replay(Replay(kv, a), b)
    ensures Results(kv, a + b) == Results(kv, a) + Results(Replay(kv, a), b)
  {
    if b == [] {
      assert a + b == a;
    } else {
      var init, e := b[..|b| - 1], b[|b| - 1];
      ReplayConcat(kv, a, init);
      assert (a + b)[..|a + b| - 1] == a + init;
      var result := [ApplyResult(Succeeds(Replay(kv, a + init), e.command), e.index)];
      assert Results(kv, a + b) == Results(kv, a + init) + result;
      assert Results(Replay(kv, a), b) == Results(Replay(kv, a), init) + result;
    }
  }

  /** Result `i` reports entry `i`, and fails exactly when a CAS met another value than it expected. */
  lemma {:induction false} ResultExact(kv: Kv, log: seq<Entry>, i: nat)
    requires i < |log|
    ensures |Results(kv, log)| == |log|
    ensures Results(kv, log)[i].index == log[i].index
    ensures !Results(kv, log)[i].success <==>
            log[i].command.CompareAndSwap? &&
            At(Replay(kv, log[..i]), log[i].command.key) != log[i].command.expected
  {
    var init := log[..|log| - 1];
    if i < |init| {
      ResultExact(kv, init, i);
      assert init[..i] == log[..i];
    } else if init != [] {
      ResultExact(kv, init, 0);
    }
  }

  // A batch operation as an entry of its own.
  function AsCommand(op: BatchOp): Command {
    match op
    case InsertOp(k, v) => Insert(k, v, None)
    case DeleteOp(k) => Remove(k)
  }

  /** A batch writes what its operations would write as separate entries. */
  lemma {:induction false} BatchAsEntries(kv: Kv, ops: seq<BatchOp>, log: seq<Entry>)
    requires |log| == |ops|
    requires forall i :: 0 <= i < |ops| ==> log[i].command == AsCommand(ops[i])
    ensures Execute(kv, Batch(ops)) == Replay(kv, log)
  {
    if ops != [] {
      var last := |ops| - 1;
      BatchAsEntries(kv, ops[..last], log[..last]);
    }
  }

  // ---- one key at a time ----

  function OpEffect(op: BatchOp, k: Bytes, x: Option<Bytes>): Option<Bytes> {
    if op.key != k then x
    else match op
      case InsertOp(_, v) => Some(v)
      case DeleteOp(_) => None
  }

  function OpsEffect(ops: seq<BatchOp>, k: Bytes, x: Option<Bytes>): Option<Bytes> {
    if ops == [] then x else OpEffect(ops[|ops| - 1], k, OpsEffect(ops[..|ops| - 1], k, x))
  }

  // What a command does to the value under `k`.
  function Effect(c: Command, k: Bytes, x: Option<Bytes>): Option<Bytes> {
    match c
    case Insert(key, v, _) => if key == k then Some(v) else x
    case Remove(key) => if key == k then None else x
    case CompareAndSwap(key, expected, v) => if key == k && x == expected then Some(v) else x
    case Batch(ops) => OpsEffect(ops, k, x)
    case Noop => x
  }

  function Track(log: seq<Entry>, k: Bytes, x: Option<Bytes>): Option<Bytes> {
    if log == [] then x else Effect(log[|log| - 1].command, k, Track(log[..|log| - 1], k, x))
  }

  // The command overwrites `k` whatever was there.
  predicate Overwrites(c: Command, k: Bytes) {
    match c
    case Insert(key, _, _) => key == k
    case Remove(key) => key == k
    case CompareAndSwap(_, _, _) => false
    case Batch(ops) => exists i :: 0 <= i < |ops| && ops[i].key == k
    case Noop => false
  }

  predicate Swaps(c: Command, k: Bytes) {
    c.CompareAndSwap? && c.key == k
  }

  lemma {:induction false} WriteAllAt(kv: Kv, ops: seq<BatchOp>, k: Bytes)
    ensures At(WriteAll(kv, ops), k) == OpsEffect(ops, k, At(kv, k))
  {
    if ops != [] {
      WriteAllAt(kv, ops[..|ops| - 1], k);
    }
  }

  /** Commands act on each key separately. */
  lemma ExecuteAt(kv: Kv, c: Command, k: Bytes)
    ensures At(Execute(kv, c), k) == Effect(c, k, At(kv, k))
  {
    if c.Batch? {
      WriteAllAt(kv, c.ops, k);
    }
  }

  /** So does a whole log. */
  lemma {:induction false} ReplayAt(kv: Kv, log: seq<Entry>, k: Bytes)
    ensures At(Replay(kv, log), k) == Track(log, k, At(kv, k))
  {
    if log != [] {
      ReplayAt(kv, log[..|log| - 1], k);
      ExecuteAt(Replay(kv, log[..|log| - 1]), log[|log| - 1].command, k);
    }
  }

  lemma {:induction false} TrackConcat(a: seq<Entry>, b: seq<Entry>, k: Bytes, x: Option<Bytes>)
    ensures Track(a + b, k, x) == Track(b, k, Track(a, k, x))
  {
    if b == [] {
      assert a + b == a;
    } else {
      var init := b[..|b| - 1];
      TrackConcat(a, init, k, x);
      assert (a + b)[..|a + b| - 1] == a + init;
    }
  }

  lemma {:induction false} OpsEffectCases(ops: seq<BatchOp>, k: Bytes, x: Option<Bytes>, y: Option<Bytes>)
    ensures Overwrites(Batch(ops), k) ==> OpsEffect(ops, k, x) == OpsEffect(ops, k, y)
    ensures !Overwrites(Batch(ops), k) ==> OpsEffect(ops, k, x) == x
  {
    if ops != [] {
      var init, last := ops[..|ops| - 1], |ops| - 1;
      OpsEffectCases(init, k, x, y);
      if ops[last].key != k {
        forall i | 0 <= i < |ops| && ops[i].key == k ensures Overwrites(Batch(init), k) {
          assert init[i].key == k;
        }
        forall i | 0 <= i < |init| && init[i].key == k ensures Overwrites(Batch(ops), k) {
          assert ops[i].key == k;
        }
      }
    }
  }

  /** The three ways a command can treat a key. */
  lemma EffectCases(c: Command, k: Bytes, x: Option<Bytes>, y: Option<Bytes>)
    ensures Overwrites(c, k) ==> Effect(c, k, x) == Effect(c, k, y)
    ensures !Overwrites(c, k) && !Swaps(c, k) ==> Effect(c, k, x) == x
    ensures !(Overwrites(c, k) && Swaps(c, k))
  {
    if c.Batch? {
      OpsEffectCases(c.ops, k, x, y);
    }
  }

  // Some entry of `log[from..to]` overwrites `k`.
  predicate Covers(log: seq<Entry>, from: nat, to: nat, k: Bytes)
    requires to <= |log|
  {
    exists i :: from <= i < to && Overwrites(log[i].command, k)
  }

  /** After an overwrite, what the key held before no longer matters. */
  lemma {:induction false} TrackCovered(log: seq<Entry>, k: Bytes, x: Option<Bytes>, y: Option<Bytes>)
    requires Covers(log, 0, |log|, k)
    ensures Track(log, k, x) == Track(log, k, y)
  {
    var init, last := log[..|log| - 1], |log| - 1;
    EffectCases(log[last].command, k, Track(init, k, x), Track(init, k, y));
    if !Overwrites(log[last].command, k) {
      var i :| 0 <= i < |log| && Overwrites(log[i].command, k);
      assert Overwrites(init[i].command, k);
      TrackCovered(init, k, x, y);
    }
  }

  /** A key the log neither overwrites nor swaps keeps its value. */
  lemma {:induction false} TrackUntouched(log: seq<Entry>, k: Bytes, x: Option<Bytes>)
    requires forall i :: 0 <= i < |log| ==> !Overwrites(log[i].command, k) && !Swaps(log[i].command, k)
    ensures Track(log, k, x) == x
  {
    if log != [] {
      TrackUntouched(log[..|log| - 1], k, x);
      EffectCases(log[|log| - 1].command, k, x, x);
    }
  }

  /** No CAS in `w` expects `x`, nothing overwrites the key: `x` stays. */
  lemma {:induction false} TrackIdle(w: seq<Entry>, k: Bytes, x: Option<Bytes>)
    requires forall i :: 0 <= i < |w| ==> !Overwrites(w[i].command, k)
    requires forall i :: 0 <= i < |w| && Swaps(w[i].command, k) ==> w[i].command.expected != x
    ensures Track(w, k, x) == x
  {
    if w != [] {
      TrackIdle(w[..|w| - 1], k, x);
      EffectCases(w[|w| - 1].command, k, x, x);
    }
  }
}
