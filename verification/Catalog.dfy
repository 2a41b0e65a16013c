/** What a run of client calls leaves in the catalog, told from the list of the calls. */
module Catalogs {
  import opened ByteStrings
  import opened Words
  import opened Tables
  import opened Commands
  import opened Api

  // The last operation of a batch on `k`.
  predicate LastOn(ops: seq<BatchOp>, k: Bytes, j: nat) {
    j < |ops| && ops[j].key == k && forall l :: j < l < |ops| ==> ops[l].key != k
  }

  // A call leaves `h` under `k`, given what the catalog held before.
  predicate Sets(before: Catalog, call: Call, k: Bytes, h: Held) {
    match call
    case PutCall(key, v) => key == k && h == Held(v, None)
    case PutWithTtlCall(key, v, now, ttl) => key == k && h == Held(v, Some((now + ttl) % U64_LIMIT))
    case BatchCall(ops) =>
      exists j :: 0 <= j < |ops| && LastOn(ops, k, j) && ops[j].InsertOp? && h == Held(ops[j].value, None)
    case PutIfAbsentCall(key, v) => key == k && k !in before && h == Held(v, None)
    case CasCall(key, None, v) => key == k && k !in before && h == Held(v, None)
    case CasCall(key, Some(e), v) => key == k && k in before && before[k] == Held(e, None) && h == Held(v, None)
    case _ => false
  }

  predicate Clears(call: Call, k: Bytes) {
    match call
    case DeleteCall(key) => key == k
    case BatchCall(ops) => exists j :: 0 <= j < |ops| && LastOn(ops, k, j) && ops[j].DeleteOp?
    case _ => false
  }

  ghost predicate Changes(before: Catalog, call: Call, k: Bytes) {
    Clears(call, k) || exists h :: Sets(before, call, k, h)
  }

  lemma RecordedStep(m: Catalog, ops: seq<BatchOp>, k: Bytes)
    requires ops != []
    ensures var init, op := ops[..|ops| - 1], ops[|ops| - 1];
            At(AllRecorded(m, ops), k) ==
            if op.key != k then At(AllRecorded(m, init), k)
            else if op.InsertOp? then Some(Held(op.value, None)) else None
  {
  }

  // What a batch does to one key.
  lemma {:induction false} RecordedAt(m: Catalog, ops: seq<BatchOp>, k: Bytes, j: nat)
    requires LastOn(ops, k, j)
    ensures At(AllRecorded(m, ops), k) == if ops[j].InsertOp? then Some(Held(ops[j].value, None)) else None
  {
    RecordedStep(m, ops, k);
    if j < |ops| - 1 {
      RecordedAt(m, ops[..|ops| - 1], k, j);
    }
  }

  lemma {:induction false} RecordedElsewhere(m: Catalog, ops: seq<BatchOp>, k: Bytes)
    requires forall j :: 0 <= j < |ops| ==> ops[j].key != k
    ensures At(AllRecorded(m, ops), k) == At(m, k)
  {
    if ops != [] {
      RecordedStep(m, ops, k);
      RecordedElsewhere(m, ops[..|ops| - 1], k);
    }
  }

  lemma {:induction false} FindLastOn(ops: seq<BatchOp>, k: Bytes) returns (j: nat)
    requires exists l :: 0 <= l < |ops| && ops[l].key == k
    ensures LastOn(ops, k, j)
  {
    var last := |ops| - 1;
    if ops[last].key == k {
      j := last;
    } else {
      var l :| 0 <= l < |ops| && ops[l].key == k;
      assert ops[..last][l].key == k;
      j := FindLastOn(ops[..last], k);
      assert forall i :: j < i < last ==> ops[..last][i] == ops[i];
    }
  }

  lemma BatchCases(m: Catalog, ops: seq<BatchOp>, k: Bytes)
    ensures var call, next := BatchCall(ops), At(AllRecorded(m, ops), k);
            (forall h :: Sets(m, call, k, h) ==> next == Some(h)) && (Clears(call, k) ==> next == None) &&
            (Changes(m, call, k) || next == At(m, k))
  {
    var call := BatchCall(ops);
    if exists l :: 0 <= l < |ops| && ops[l].key == k {
      var j := FindLastOn(ops, k);
      RecordedAt(m, ops, k, j);
      assert if ops[j].InsertOp? then Sets(m, call, k, Held(ops[j].value, None)) else Clears(call, k);
    } else {
      RecordedElsewhere(m, ops, k);
    }
  }

  /** A call sets a key, clears it, or leaves it alone. */
  lemma CallCases(m: Catalog, call: Call, k: Bytes)
    ensures forall h :: Sets(m, call, k, h) ==> At(After(m, call), k) == Some(h)
    ensures Clears(call, k) ==> At(After(m, call), k) == None
    ensures Changes(m, call, k) || At(After(m, call), k) == At(m, k)
  {
    match call
    case PutCall(key, v) => assert key == k ==> Sets(m, call, k, Held(v, None));
    case PutWithTtlCall(key, v, now, ttl) =>
      assert key == k ==> Sets(m, call, k, Held(v, Some((now + ttl) % U64_LIMIT)));
    case BatchCall(ops) => BatchCases(m, ops, k);
    case DeleteCall(_) =>
    case PutIfAbsentCall(key, v) => assert key == k && k !in m ==> Sets(m, call, k, Held(v, None));
    case CasCall(key, expected, v) => assert key == k && Answer(m, call) ==> Sets(m, call, k, Held(v, None));
    case NoCall =>
  }

  /** A compare-and-swap or put_if_absent answers true exactly when it changes its key. */
  lemma AnswerChanges(m: Catalog, call: Call)
    requires call.CasCall? || call.PutIfAbsentCall?
    ensures Answer(m, call) <==> Changes(m, call, call.key)
  {
    CallCases(m, call, call.key);
    if Answer(m, call) {
      assert Sets(m, call, call.key, Held(call.value, None));
    }
  }

  // What the calls before call `t` left.
  function Before(calls: seq<Call>, t: nat): Catalog
    requires t <= |calls|
  {
    AfterAll(map[], calls[..t])
  }

  // Call `t` of the first `n` set `k` to `h`, and none after it changes the key.
  ghost predicate HeldSince(calls: seq<Call>, n: nat, k: Bytes, h: Held, t: nat) {
    t < n <= |calls| && Sets(Before(calls, t), calls[t], k, h) &&
    forall u :: t < u < n ==> !Changes(Before(calls, u), calls[u], k)
  }

  lemma BeforeNext(calls: seq<Call>, n: nat)
    requires n < |calls|
    ensures Before(calls, n + 1) == After(Before(calls, n), calls[n])
  {
    assert calls[..n + 1][..n] == calls[..n];
  }

  lemma HeldLonger(calls: seq<Call>, n: nat, k: Bytes, h: Held, t: nat)
    requires n < |calls| && HeldSince(calls, n, k, h, t) && !Changes(Before(calls, n), calls[n], k)
    ensures HeldSince(calls, n + 1, k, h, t)
  {
  }

  lemma HeldStep(calls: seq<Call>, n: nat, k: Bytes, h: Held)
    requires n < |calls|
    ensures var m, call := Before(calls, n), calls[n];
            At(Before(calls, n + 1), k) == Some(h) <==>
            Sets(m, call, k, h) || (At(m, k) == Some(h) && !Changes(m, call, k))
  {
    var m, call := Before(calls, n), calls[n];
    BeforeNext(calls, n);
    CallCases(m, call, k);
    if Changes(m, call, k) && !Clears(call, k) {
      var h' :| Sets(m, call, k, h');
    }
  }

  lemma HeldSinceStep(calls: seq<Call>, n: nat, k: Bytes, h: Held)
    requires 0 < n <= |calls|
    ensures var before := n - 1;
            (exists t: nat :: HeldSince(calls, n, k, h, t)) <==>
            Sets(Before(calls, before), calls[before], k, h) ||
            ((exists t: nat :: HeldSince(calls, before, k, h, t)) && !Changes(Before(calls, before), calls[before], k))
  {
    var before := n - 1;
    if t: nat :| HeldSince(calls, n, k, h, t) {
      assert t == before || HeldSince(calls, before, k, h, t);
    }
    if Sets(Before(calls, before), calls[before], k, h) {
      assert HeldSince(calls, n, k, h, before);
    } else if t: nat :| HeldSince(calls, before, k, h, t) {
      if !Changes(Before(calls, before), calls[before], k) {
        HeldLonger(calls, before, k, h, t);
      }
    }
  }

  /** A key holds what the last call that changed it has set. */
  lemma {:induction false} CatalogHistory(calls: seq<Call>, n: nat, k: Bytes, h: Held)
    requires n <= |calls|
    ensures At(Before(calls, n), k) == Some(h) <==> exists t: nat :: HeldSince(calls, n, k, h, t)
  {
    if n > 0 {
      CatalogHistory(calls, n - 1, k, h);
      HeldStep(calls, n - 1, k, h);
      HeldSinceStep(calls, n, k, h);
    }
  }
}
