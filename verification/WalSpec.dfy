/** The write-ahead log as an integer-indexed map with a cached last index, over whole runs. */
module WalSpec {
  import opened ByteStrings
  import opened Words
  import opened Replicas

  // An entry's encoding is Raft's own; only its index matters here.
  datatype WalEntry = WalEntry(index: U64, term: U64, payload: Bytes)

  datatype HardState = HardState(term: U64, votedFor: Option<U64>)

  type Entries = map<U64, WalEntry>

  datatype WalState = WalState(entries: Entries, boundary: Option<LogId>, hard: Option<HardState>, last: U64)

  const EMPTY_WAL := WalState(map[], None, None, 0)

  // ---- the greatest stored index ----

  // `g` is the greatest index in `s`, zero for none.
  ghost predicate IsGreatest(s: set<U64>, g: U64) {
    (if s == {} then g == 0 else g in s) && forall i :: i in s ==> i <= g
  }

  ghost function Greatest(s: set<U64>): (g: U64)
    ensures IsGreatest(s, g)
  {
    if s == {} then 0
    else
      var x :| x in s;
      assert s == (s - {x}) + {x};
      var g := Greatest(s - {x});
      if g < x then x else g
  }

  function MaxIndex(es: seq<WalEntry>): U64 {
    if es == [] then 0
    else
      var m := MaxIndex(es[..|es| - 1]);
      if m < es[|es| - 1].index then es[|es| - 1].index else m
  }

  function PutAll(m: Entries, es: seq<WalEntry>): Entries {
    if es == [] then m else PutAll(m, es[..|es| - 1])[es[|es| - 1].index := es[|es| - 1]]
  }

  function SaturatingSucc(n: U64): U64 {
    if n == U64_MAX then U64_MAX else n + 1
  }

  // ---- operations ----

  datatype WalOp =
    | PersistOp(es: seq<WalEntry>)
    | TruncateOp(from: U64)
    | PurgeOp(cutoff: LogId)
    | ResetOp
    | ReopenOp
    | SaveOp(hard: HardState)

  function Below(m: Entries, from: U64): Entries {
    map i | i in m && i < from :: m[i]
  }

  function FromOn(m: Entries, from: U64): Entries {
    map i | i in m && from <= i :: m[i]
  }

  ghost function WalNext(s: WalState, op: WalOp): WalState {
    match op
    case PersistOp(es) =>
      var top := MaxIndex(es);
      s.(entries := PutAll(s.entries, es), last := if s.last < top then top else s.last)
    case TruncateOp(from) =>
      var kept := Below(s.entries, from);
      s.(entries := kept, last := Greatest(kept.Keys))
    case PurgeOp(cutoff) =>
      s.(entries := FromOn(s.entries, SaturatingSucc(cutoff.index)), boundary := Some(cutoff))
    case ResetOp => s.(entries := map[], last := 0)
    case ReopenOp => s.(last := Greatest(s.entries.Keys))
    case SaveOp(hard) => s.(hard := Some(hard))
  }

  predicate Mentions(es: seq<WalEntry>, i: U64) {
    exists j :: 0 <= j < |es| && es[j].index == i
  }

  lemma MentionsLast(es: seq<WalEntry>, i: U64)
    requires es != []
    ensures Mentions(es, i) <==> Mentions(es[..|es| - 1], i) || es[|es| - 1].index == i
  {
    var init := es[..|es| - 1];
    if j :| 0 <= j < |es| && es[j].index == i {
      if j < |init| {
        assert init[j].index == i;
      }
    }
    if j :| 0 <= j < |init| && init[j].index == i {
      assert es[j].index == i;
    }
  }

  lemma {:induction false} PutAllKeys(m: Entries, es: seq<WalEntry>)
    ensures forall i: U64 :: i in PutAll(m, es) <==> i in m || Mentions(es, i)
    ensures forall i: U64 :: Mentions(es, i) ==> i <= MaxIndex(es)
    ensures es != [] ==> Mentions(es, MaxIndex(es))
  {
    if es != [] {
      var init := es[..|es| - 1];
      PutAllKeys(m, init);
      forall i: U64 ensures Mentions(es, i) <==> Mentions(init, i) || es[|es| - 1].index == i {
        MentionsLast(es, i);
      }
    }
  }

  // ---- the cached last index ----

  ghost predicate RightLast(s: WalState) {
    s.entries.Keys != {} ==> s.last == Greatest(s.entries.Keys)
  }

  // A persist into an emptied log must reach the index the cache still remembers.
  predicate PersistFits(s: WalState, es: seq<WalEntry>) {
    es == [] || s.entries.Keys != {} || s.last <= MaxIndex(es)
  }

  predicate Fits(s: WalState, op: WalOp) {
    op.PersistOp? ==> PersistFits(s, op.es)
  }

  /** One step keeps the cache right exactly when it is no persist that falls short. */
  lemma LastStep(s: WalState, op: WalOp)
    requires RightLast(s)
    ensures RightLast(WalNext(s, op)) <==> Fits(s, op)
  {
    var s' := WalNext(s, op);
    match op
    case PersistOp(es) =>
      PutAllKeys(s.entries, es);
    case PurgeOp(_) =>
      if s'.entries.Keys != {} {
        var i :| i in s'.entries.Keys;
        assert i in s.entries.Keys && i <= s.last;
        assert s.last in s'.entries.Keys;
      }
    case _ =>
  }

  ghost predicate WalRun(states: seq<WalState>, ops: seq<WalOp>) {
    |states| == |ops| + 1 && states[0] == EMPTY_WAL &&
    forall t :: 0 <= t < |ops| ==> states[t + 1] == WalNext(states[t], ops[t])
  }

  /** The cache is right throughout a run exactly when every persist in it fits. */
  lemma LastRightExactly(states: seq<WalState>, ops: seq<WalOp>)
    requires WalRun(states, ops)
    ensures (forall t :: 0 <= t < |states| ==> RightLast(states[t])) <==>
            (forall t :: 0 <= t < |ops| ==> Fits(states[t], ops[t]))
  {
    if forall t :: 0 <= t < |ops| ==> Fits(states[t], ops[t]) {
      FitsGiveRight(states, ops, |ops|);
    }
    if forall t :: 0 <= t < |states| ==> RightLast(states[t]) {
      forall t | 0 <= t < |ops| ensures Fits(states[t], ops[t]) {
        LastStep(states[t], ops[t]);
        assert RightLast(states[t + 1]);
      }
    }
  }

  lemma {:induction false} FitsGiveRight(states: seq<WalState>, ops: seq<WalOp>, n: nat)
    requires WalRun(states, ops) && n <= |ops|
    requires forall t :: 0 <= t < n ==> Fits(states[t], ops[t])
    ensures forall t :: 0 <= t <= n ==> RightLast(states[t])
  {
    if n > 0 {
      FitsGiveRight(states, ops, n - 1);
      LastStep(states[n - 1], ops[n - 1]);
    }
  }

  // The highest cutoff purged so far.
  function MaxCutoff(ops: seq<WalOp>): U64 {
    if ops == [] then 0
    else
      var before, op := MaxCutoff(ops[..|ops| - 1]), ops[|ops| - 1];
      if op.PurgeOp? && before < op.cutoff.index then op.cutoff.index else before
  }

  // Raft only appends past what it has purged.
  predicate AppendsPastPurges(ops: seq<WalOp>) {
    forall t, j :: 0 <= t < |ops| && ops[t].PersistOp? && 0 <= j < |ops[t].es| ==>
      MaxCutoff(ops[..t]) < ops[t].es[j].index
  }

  /** Appending past every purge is enough; an empty log's cache then never exceeds the highest cutoff. */
  lemma {:induction false} AppendingKeepsLast(states: seq<WalState>, ops: seq<WalOp>, n: nat)
    requires WalRun(states, ops) && AppendsPastPurges(ops) && n <= |ops|
    ensures RightLast(states[n])
    ensures states[n].entries.Keys == {} ==> states[n].last <= MaxCutoff(ops[..n])
  {
    if n > 0 {
      AppendingKeepsLast(states, ops, n - 1);
      var s, op := states[n - 1], ops[n - 1];
      assert states[n] == WalNext(s, op);
      assert ops[..n][..n - 1] == ops[..n - 1];
      if op.PersistOp? {
        PutAllKeys(s.entries, op.es);
      }
      LastStep(s, op);
      if op.PurgeOp? && states[n].entries.Keys == {} && s.entries.Keys != {} {
        assert s.last in s.entries.Keys && s.last !in states[n].entries.Keys;
      }
    }
  }

  /** On any run at all no stored index is above the cache, so reopening never raises it. */
  lemma {:induction false} CacheNeverLow(states: seq<WalState>, ops: seq<WalOp>, n: nat)
    requires WalRun(states, ops) && n <= |ops|
    ensures forall i :: i in states[n].entries ==> i <= states[n].last
    ensures WalNext(states[n], ReopenOp).last <= states[n].last
    ensures states[n].entries.Keys == {} ==> WalNext(states[n], ReopenOp).last == 0
    ensures RightLast(WalNext(states[n], ReopenOp))
  {
    if n > 0 {
      CacheNeverLow(states, ops, n - 1);
      var op := ops[n - 1];
      assert states[n] == WalNext(states[n - 1], op);
      if op.PersistOp? {
        PutAllKeys(states[n - 1].entries, op.es);
      }
    }
  }

  lemma PersistOne(s: WalState, e: WalEntry)
    ensures WalNext(s, PersistOp([e])) ==
            s.(entries := s.entries[e.index := e], last := if s.last < e.index then e.index else s.last)
  {
    var es := [e];
    assert es[..|es| - 1] == [];
    assert MaxIndex(es) == e.index;
    assert PutAll(s.entries, es) == s.entries[e.index := e];
  }

  /** The persist that does not fit: after a purge, an old index leaves the cache above the log. */
  lemma StalePersistMisleads(e5: WalEntry, e3: WalEntry)
    requires e5.index == 5 && e3.index == 3
    ensures var s1 := WalNext(EMPTY_WAL, PersistOp([e5]));
            var s2 := WalNext(s1, PurgeOp(LogId(10, 1)));
            var s3 := WalNext(s2, PersistOp([e3]));
            RightLast(s2) && s3.entries == map[3 := e3] && s3.last == 5 && !RightLast(s3)
  {
    PersistOne(EMPTY_WAL, e5);
    var s1 := WalNext(EMPTY_WAL, PersistOp([e5]));
    var s2 := WalNext(s1, PurgeOp(LogId(10, 1)));
    assert s2.entries == map[];
    PersistOne(s2, e3);
    assert WalNext(s2, PersistOp([e3])).entries == map[3 := e3];
    assert map[3 := e3].Keys == {3};
    assert IsGreatest({3}, Greatest({3}));
  }

  // ---- purging ----

  /** A purge drops everything up to the cutoff, and nothing else, exactly when the successor does not saturate. */
  lemma PurgeExact(s: WalState, cutoff: LogId)
    ensures var s' := WalNext(s, PurgeOp(cutoff));
            s'.boundary == Some(cutoff) && s'.last == s.last && s'.hard == s.hard &&
            (forall i :: i in s.entries && i > cutoff.index ==> i in s'.entries && s'.entries[i] == s.entries[i]) &&
            ((forall i :: i in s'.entries ==> i > cutoff.index) <==>
             cutoff.index < U64_MAX || U64_MAX !in s.entries)
  {
    var s' := WalNext(s, PurgeOp(cutoff));
    if cutoff.index == U64_MAX && U64_MAX in s.entries {
      assert U64_MAX in s'.entries;
    }
  }

  /** Of two purges with rising cutoffs only the later one shows. */
  lemma PurgesCollapse(s: WalState, first: LogId, second: LogId)
    requires first.index <= second.index
    ensures WalNext(WalNext(s, PurgeOp(first)), PurgeOp(second)) == WalNext(s, PurgeOp(second))
  {
    var a := FromOn(FromOn(s.entries, SaturatingSucc(first.index)), SaturatingSucc(second.index));
    assert a == FromOn(s.entries, SaturatingSucc(second.index));
  }

  // ---- listing a range ----

  // The stored entries with index `a` to `b`, in order.
  ghost function Listed(m: Entries, a: int, b: int): seq<WalEntry>
    decreases b - a
  {
    if a > b then [] else (if 0 <= a < U64_LIMIT && a in m then [m[a]] else []) + Listed(m, a + 1, b)
  }

  ghost predicate Numbered(m: Entries) {
    forall i :: i in m ==> m[i].index == i
  }

  /** A listing holds exactly the stored entries of its range, in strictly ascending order of index. */
  lemma {:induction false} ListedExact(m: Entries, a: int, b: int)
    requires Numbered(m)
    ensures forall e :: e in Listed(m, a, b) <==> e.index in m && m[e.index] == e && a <= e.index <= b
    ensures forall i, j :: 0 <= i < j < |Listed(m, a, b)| ==> Listed(m, a, b)[i].index < Listed(m, a, b)[j].index
    decreases b - a
  {
    if a <= b {
      ListedExact(m, a + 1, b);
      var rest := Listed(m, a + 1, b);
      var head := if 0 <= a < U64_LIMIT && a in m then [m[a]] else [];
      assert Listed(m, a, b) == head + rest;
      forall j | 0 <= j < |rest| ensures a < rest[j].index {
        assert rest[j] in rest;
      }
    }
  }

  /** A single entry's listing is that entry, as `entry` returns it. */
  lemma ListedOne(m: Entries, i: U64)
    ensures Listed(m, i, i) == if i in m then [m[i]] else []
  {
    assert Listed(m, i + 1, i) == [];
  }

  lemma {:induction false} ListedGap(m: Entries, a: int, c: int, b: int)
    requires a <= c
    requires forall i :: i in m ==> !(a <= i < c)
    ensures Listed(m, a, b) == Listed(m, c, b)
    decreases c - a
  {
    if a < c {
      ListedGap(m, a + 1, c, b);
    }
  }

  lemma {:induction false} ListedSplit(m: Entries, a: int, c: int, b: int)
    requires a <= c <= b + 1
    ensures Listed(m, a, b) == Listed(m, a, c - 1) + Listed(m, c, b)
    decreases c - a
  {
    if a < c {
      ListedSplit(m, a + 1, c, b);
    }
  }

  lemma {:induction false} ListedSame(m: Entries, n: Entries, a: int, b: int)
    requires forall i: U64 :: a <= i <= b ==> (i in m <==> i in n) && (i in m ==> m[i] == n[i])
    ensures Listed(m, a, b) == Listed(n, a, b)
    decreases b - a
  {
    if a <= b {
      ListedSame(m, n, a + 1, b);
    }
  }

  // ---- conflict repair ----

  predicate ContiguousFrom(es: seq<WalEntry>, from: nat) {
    forall j :: 0 <= j < |es| ==> es[j].index == from + j
  }

  lemma {:induction false} PutAllContiguous(m: Entries, es: seq<WalEntry>, from: nat)
    requires ContiguousFrom(es, from)
    ensures forall j :: 0 <= j < |es| ==> es[j].index in PutAll(m, es) && PutAll(m, es)[es[j].index] == es[j]
    ensures forall i :: i in m && !(from <= i < from + |es|) ==> i in PutAll(m, es) && PutAll(m, es)[i] == m[i]
    ensures forall i :: i in PutAll(m, es) ==> i in m || from <= i < from + |es|
    ensures es != [] ==> MaxIndex(es) == from + |es| - 1
  {
    if es != [] {
      PutAllContiguous(m, es[..|es| - 1], from);
    }
  }

  lemma {:induction false} ListedContiguous(m: Entries, es: seq<WalEntry>, from: nat)
    requires ContiguousFrom(es, from)
    requires forall j :: 0 <= j < |es| ==> es[j].index in m && m[es[j].index] == es[j]
    ensures Listed(m, from, from + |es| - 1) == es
  {
    if es != [] {
      assert es[0].index == from;
      assert ContiguousFrom(es[1..], from + 1);
      ListedContiguous(m, es[1..], from + 1);
      assert es == [es[0]] + es[1..];
    }
  }

  // The entries below `from`, then `es` on top.
  lemma RepairListing(m: Entries, from: U64, es: seq<WalEntry>, a: nat)
    requires ContiguousFrom(es, from) && es != [] && a <= from
    ensures Listed(PutAll(Below(m, from), es), a, from + |es| - 1) == Listed(m, a, from - 1) + es
  {
    var all := PutAll(Below(m, from), es);
    PutAllContiguous(Below(m, from), es, from);
    ListedContiguous(all, es, from);
    ListedSplit(all, a, from, from + |es| - 1);
    ListedSame(all, m, a, from - 1);
  }

  /**
   * Raft's conflict repair. Truncating at `from` and persisting entries numbered from there on
   * leaves the old log below `from` followed by exactly the new entries, with the cache on the
   * last of them; hard state and purge boundary stay.
   */
  lemma ConflictRepair(s: WalState, from: U64, es: seq<WalEntry>, a: nat)
    requires ContiguousFrom(es, from) && es != [] && a <= from
    ensures var s' := WalNext(WalNext(s, TruncateOp(from)), PersistOp(es));
            s'.last == from + |es| - 1 && s'.hard == s.hard && s'.boundary == s.boundary &&
            (forall i :: i in s'.entries ==> i <= s'.last) &&
            Listed(s'.entries, a, s'.last) == Listed(s.entries, a, from - 1) + es
  {
    PutAllContiguous(Below(s.entries, from), es, from);
    RepairListing(s.entries, from, es, a);
  }
}
