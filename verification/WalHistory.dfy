/** What a run of the write-ahead log leaves, told from the list of its operations alone. */
module WalHistory {
  import opened ByteStrings
  import opened Words
  import opened WalSpec

  predicate Names(op: WalOp, i: U64) {
    op.PersistOp? && Mentions(op.es, i)
  }

  // A purge does not reach the greatest u64 itself: its exclusive end saturates.
  predicate Drops(op: WalOp, i: U64) {
    match op
    case TruncateOp(from) => from <= i
    case PurgeOp(cutoff) => i <= cutoff.index && i < U64_MAX
    case ResetOp => true
    case _ => false
  }

  // Operation `t` of the first `n` persists index `i`, and none after it drops the index.
  predicate Keeps(ops: seq<WalOp>, n: nat, i: U64, t: nat) {
    t < n <= |ops| && Names(ops[t], i) && forall u :: t < u < n ==> !Drops(ops[u], i)
  }

  lemma MentionsPut(m: Entries, es: seq<WalEntry>, i: U64)
    ensures i in PutAll(m, es) <==> i in m || Mentions(es, i)
  {
    PutAllKeys(m, es);
  }

  lemma StepKeeps(s: WalState, op: WalOp, i: U64)
    ensures i in WalNext(s, op).entries <==> Names(op, i) || (i in s.entries && !Drops(op, i))
  {
    if op.PersistOp? {
      MentionsPut(s.entries, op.es, i);
    }
  }

  lemma KeepsLonger(ops: seq<WalOp>, n: nat, i: U64)
    requires 0 < n <= |ops|
    ensures var before := n - 1;
            (exists t: nat :: Keeps(ops, n, i, t)) <==>
            Names(ops[before], i) || ((exists t: nat :: Keeps(ops, before, i, t)) && !Drops(ops[before], i))
  {
    var before := n - 1;
    if t: nat :| Keeps(ops, n, i, t) {
      assert t == before || Keeps(ops, before, i, t);
    }
    if Names(ops[before], i) {
      assert Keeps(ops, n, i, before);
    } else if t: nat :| Keeps(ops, before, i, t) {
      assert !Drops(ops[before], i) ==> Keeps(ops, n, i, t);
    }
  }

  /** An index is stored exactly when some persist named it and no truncate, purge or reset has dropped it since. */
  lemma {:induction false} EntryHistory(states: seq<WalState>, ops: seq<WalOp>, n: nat, i: U64)
    requires WalRun(states, ops) && n <= |ops|
    ensures i in states[n].entries <==> exists t: nat :: Keeps(ops, n, i, t)
  {
    if n > 0 {
      EntryHistory(states, ops, n - 1, i);
      assert states[n] == WalNext(states[n - 1], ops[n - 1]);
      StepKeeps(states[n - 1], ops[n - 1], i);
      KeepsLonger(ops, n, i);
    }
  }

  // The last entry of `es` with index `i`.
  predicate LastOf(es: seq<WalEntry>, i: U64, j: nat) {
    j < |es| && es[j].index == i && forall l :: j < l < |es| ==> es[l].index != i
  }

  lemma {:induction false} PutAllValue(m: Entries, es: seq<WalEntry>, i: U64, j: nat)
    requires LastOf(es, i, j)
    ensures i in PutAll(m, es) && PutAll(m, es)[i] == es[j]
  {
    var init := es[..|es| - 1];
    if j < |init| {
      assert es[|es| - 1].index != i;
      PutAllValue(m, init, i, j);
    }
  }

  lemma {:induction false} PutAllOthers(m: Entries, es: seq<WalEntry>, i: U64)
    requires !Mentions(es, i) && i in m
    ensures i in PutAll(m, es) && PutAll(m, es)[i] == m[i]
  {
    if es != [] {
      MentionsLast(es, i);
      PutAllOthers(m, es[..|es| - 1], i);
    }
  }

  lemma {:induction false} FindLast(es: seq<WalEntry>, i: U64) returns (j: nat)
    requires Mentions(es, i)
    ensures LastOf(es, i, j)
  {
    var last := |es| - 1;
    if es[last].index == i {
      j := last;
    } else {
      MentionsLast(es, i);
      j := FindLast(es[..last], i);
      assert forall l :: j < l < last ==> es[..last][l] == es[l];
    }
  }

  /** A stored entry is the last one with its index in the last persist that named the index. */
  lemma {:induction false} ValueHistory(states: seq<WalState>, ops: seq<WalOp>, n: nat, i: U64)
    returns (t: nat, j: nat)
    requires WalRun(states, ops) && n <= |ops| && i in states[n].entries
    ensures Keeps(ops, n, i, t) && (forall u :: t < u < n ==> !Names(ops[u], i))
    ensures LastOf(ops[t].es, i, j) && states[n].entries[i] == ops[t].es[j]
  {
    var s, op := states[n - 1], ops[n - 1];
    assert states[n] == WalNext(s, op);
    if Names(op, i) {
      t := n - 1;
      j := FindLast(op.es, i);
      PutAllValue(s.entries, op.es, i, j);
    } else {
      StepKeeps(s, op, i);
      t, j := ValueHistory(states, ops, n - 1, i);
      if op.PersistOp? {
        PutAllOthers(s.entries, op.es, i);
      }
    }
  }

  // ---- hard state and boundary ----

  lemma StepMeta(s: WalState, op: WalOp)
    ensures WalNext(s, op).hard == if op.SaveOp? then Some(op.hard) else s.hard
    ensures WalNext(s, op).boundary == if op.PurgeOp? then Some(op.cutoff) else s.boundary
  {
  }

  predicate LastSave(ops: seq<WalOp>, n: nat, t: nat) {
    t < n <= |ops| && ops[t].SaveOp? && forall u :: t < u < n ==> !ops[u].SaveOp?
  }

  lemma {:induction false} SavedLast(states: seq<WalState>, ops: seq<WalOp>, n: nat, t: nat)
    requires WalRun(states, ops) && LastSave(ops, n, t)
    ensures states[n].hard == Some(ops[t].hard)
  {
    assert states[n] == WalNext(states[n - 1], ops[n - 1]);
    StepMeta(states[n - 1], ops[n - 1]);
    if t < n - 1 {
      SavedLast(states, ops, n - 1, t);
    }
  }

  lemma {:induction false} NeverSaved(states: seq<WalState>, ops: seq<WalOp>, n: nat)
    requires WalRun(states, ops) && n <= |ops|
    ensures states[n].hard == None <==> forall t :: 0 <= t < n ==> !ops[t].SaveOp?
  {
    if n > 0 {
      NeverSaved(states, ops, n - 1);
      assert states[n] == WalNext(states[n - 1], ops[n - 1]);
      StepMeta(states[n - 1], ops[n - 1]);
    }
  }

  /** The hard state is that of the last save, through everything else, and there is none before the first. */
  lemma HardHistory(states: seq<WalState>, ops: seq<WalOp>, n: nat)
    requires WalRun(states, ops) && n <= |ops|
    ensures forall t: nat :: LastSave(ops, n, t) ==> states[n].hard == Some(ops[t].hard)
    ensures states[n].hard == None <==> forall t :: 0 <= t < n ==> !ops[t].SaveOp?
  {
    forall t: nat | LastSave(ops, n, t) ensures states[n].hard == Some(ops[t].hard) {
      SavedLast(states, ops, n, t);
    }
    NeverSaved(states, ops, n);
  }

  predicate LastPurge(ops: seq<WalOp>, n: nat, t: nat) {
    t < n <= |ops| && ops[t].PurgeOp? && forall u :: t < u < n ==> !ops[u].PurgeOp?
  }

  lemma {:induction false} PurgedLast(states: seq<WalState>, ops: seq<WalOp>, n: nat, t: nat)
    requires WalRun(states, ops) && LastPurge(ops, n, t)
    ensures states[n].boundary == Some(ops[t].cutoff)
  {
    assert states[n] == WalNext(states[n - 1], ops[n - 1]);
    StepMeta(states[n - 1], ops[n - 1]);
    if t < n - 1 {
      PurgedLast(states, ops, n - 1, t);
    }
  }

  lemma {:induction false} NeverPurged(states: seq<WalState>, ops: seq<WalOp>, n: nat)
    requires WalRun(states, ops) && n <= |ops|
    ensures states[n].boundary == None <==> forall t :: 0 <= t < n ==> !ops[t].PurgeOp?
  {
    if n > 0 {
      NeverPurged(states, ops, n - 1);
      assert states[n] == WalNext(states[n - 1], ops[n - 1]);
      StepMeta(states[n - 1], ops[n - 1]);
    }
  }

  /** The boundary is the cutoff of the last purge, through everything else, and there is none before the first. */
  lemma BoundaryHistory(states: seq<WalState>, ops: seq<WalOp>, n: nat)
    requires WalRun(states, ops) && n <= |ops|
    ensures forall t: nat :: LastPurge(ops, n, t) ==> states[n].boundary == Some(ops[t].cutoff)
    ensures states[n].boundary == None <==> forall t :: 0 <= t < n ==> !ops[t].PurgeOp?
  {
    forall t: nat | LastPurge(ops, n, t) ensures states[n].boundary == Some(ops[t].cutoff) {
      PurgedLast(states, ops, n, t);
    }
    NeverPurged(states, ops, n);
  }

  // ---- the cache ----

  // The cache is read anew from the log.
  predicate Refreshes(op: WalOp) {
    op.TruncateOp? || op.ResetOp? || op.ReopenOp?
  }

  // Operation `r - 1` was the last of the first `n` to do that; without one, `r` is zero.
  predicate LastRefresh(ops: seq<WalOp>, n: nat, r: nat) {
    r <= n <= |ops| && (r > 0 ==> Refreshes(ops[r - 1])) && forall u :: r <= u < n ==> !Refreshes(ops[u])
  }

  lemma StepCache(s: WalState, op: WalOp)
    ensures Refreshes(op) ==> IsGreatest(WalNext(s, op).entries.Keys, WalNext(s, op).last)
    ensures !Refreshes(op) ==> s.last <= WalNext(s, op).last
    ensures !Refreshes(op) ==> forall i: U64 :: Names(op, i) ==> i <= WalNext(s, op).last
    ensures !Refreshes(op) ==> WalNext(s, op).last == s.last || Names(op, WalNext(s, op).last)
  {
    if op.PersistOp? {
      PutAllKeys(s.entries, op.es);
    } else if op.ResetOp? {
      var none: set<U64> := {};
      assert IsGreatest(none, 0);
    }
  }

  /**
   * The cache is the greatest of what the log held when the cache was last read anew and of every
   * index persisted since, whatever purges have removed meanwhile.
   */
  lemma {:induction false} CacheHistory(states: seq<WalState>, ops: seq<WalOp>, n: nat, r: nat)
    requires WalRun(states, ops) && LastRefresh(ops, n, r)
    ensures IsGreatest(states[r].entries.Keys, states[r].last) && states[r].last <= states[n].last
    ensures forall u, i: U64 :: r <= u < n && Names(ops[u], i) ==> i <= states[n].last
    ensures states[n].last == states[r].last || exists u :: r <= u < n && Names(ops[u], states[n].last)
  {
    if n > r {
      CacheHistory(states, ops, n - 1, r);
      assert states[n] == WalNext(states[n - 1], ops[n - 1]);
      StepCache(states[n - 1], ops[n - 1]);
    } else if r > 0 {
      assert states[r] == WalNext(states[r - 1], ops[r - 1]);
      StepCache(states[r - 1], ops[r - 1]);
    }
  }
}
