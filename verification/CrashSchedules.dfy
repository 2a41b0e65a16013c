/**
 * Replaying with CAS. The durable index stays behind a stretch `w` of the log while the store
 * moves through it; every crash sends the node back to the start of `w`. Which stretches still
 * end in the right store, whatever the crashes?
 */
module CrashSchedules {
  import opened ByteStrings
  import opened Tables
  import opened Commands
  import opened Replicas

  // Each cut is how far into `w` the node got before it crashed.
  predicate Cuts(w: seq<Entry>, cuts: seq<nat>) {
    forall i :: 0 <= i < |cuts| ==> cuts[i] <= |w|
  }

  // Apply as far as the cut, crash, reopen; then the next cut.
  function Crashed(r: Replica, w: seq<Entry>, cuts: seq<nat>): Replica
    requires Cuts(w, cuts)
    decreases cuts
  {
    if cuts == [] then r else Crashed(Reopened(Applied(r, w[..cuts[0]])), w, cuts[1..])
  }

  function TrackPasses(w: seq<Entry>, k: Bytes, x: Option<Bytes>, cuts: seq<nat>): Option<Bytes>
    requires Cuts(w, cuts)
    decreases cuts
  {
    if cuts == [] then x else TrackPasses(w, k, Track(w[..cuts[0]], k, x), cuts[1..])
  }

  // From every node and under every crash schedule, one undisturbed pass ends as if none had crashed.
  ghost predicate SurvivesCrashes(w: seq<Entry>) {
    forall r, cuts :: Cuts(w, cuts) ==> Applied(Crashed(r, w, cuts), w).kv == Applied(r, w).kv
  }

  /**
   * A finite test, of the stretch alone, for a node that falls back from `w[..c]` to the start of
   * `w`: for each CAS on a key nothing overwrites, start from the value it expects, run the first
   * `c` entries and then the whole stretch; the end must be that of the stretch alone.
   */
  predicate Stable(w: seq<Entry>, c: nat)
    requires c <= |w|
  {
    forall j :: 0 <= j < |w| ==> StableAt(w, c, j)
  }

  // Entry `j` is a CAS on a key nothing overwrites.
  predicate BareSwap(w: seq<Entry>, j: nat)
    requires j < |w|
  {
    w[j].command.CompareAndSwap? && !Covers(w, 0, |w|, w[j].command.key)
  }

  predicate StableAt(w: seq<Entry>, c: nat, j: nat)
    requires c <= |w| && j < |w|
  {
    BareSwap(w, j) ==>
      var k, e := w[j].command.key, w[j].command.expected;
      Track(w, k, Track(w[..c], k, e)) == Track(w, k, e)
  }

  // The same for falling back from anywhere in the stretch.
  predicate ReplayStable(w: seq<Entry>) {
    forall c :: 0 <= c <= |w| ==> Stable(w, c)
  }

  lemma StableAtOnce(w: seq<Entry>)
    ensures Stable(w, 0)
  {
    forall j | 0 <= j < |w| ensures StableAt(w, 0, j) {
      assert w[..0] == [];
    }
  }

  lemma {:induction false} CrashedAt(r: Replica, w: seq<Entry>, cuts: seq<nat>, k: Bytes)
    requires Cuts(w, cuts)
    ensures At(Crashed(r, w, cuts).kv, k) == TrackPasses(w, k, At(r.kv, k), cuts)
    decreases cuts
  {
    if cuts != [] {
      ReplayAt(r.kv, w[..cuts[0]], k);
      AppliedKv(r, w[..cuts[0]]);
      CrashedAt(Reopened(Applied(r, w[..cuts[0]])), w, cuts[1..], k);
    }
  }

  // One undisturbed pass over `w` after the crashes, at one key.
  lemma FinalPassAt(r: Replica, w: seq<Entry>, cuts: seq<nat>, k: Bytes)
    requires Cuts(w, cuts)
    ensures At(Applied(Crashed(r, w, cuts), w).kv, k) == Track(w, k, TrackPasses(w, k, At(r.kv, k), cuts))
    ensures At(Applied(r, w).kv, k) == Track(w, k, At(r.kv, k))
  {
    AppliedKv(r, w);
    AppliedKv(Crashed(r, w, cuts), w);
    CrashedAt(r, w, cuts, k);
    ReplayAt(Crashed(r, w, cuts).kv, w, k);
    ReplayAt(r.kv, w, k);
  }

  /** The test covers every value, not only the expected ones. */
  lemma OneCrash(w: seq<Entry>, k: Bytes, x: Option<Bytes>, c: nat)
    requires c <= |w| && Stable(w, c)
    ensures Track(w, k, Track(w[..c], k, x)) == Track(w, k, x)
  {
    if Covers(w, 0, |w|, k) {
      TrackCovered(w, k, Track(w[..c], k, x), x);
    } else if j :| 0 <= j < |w| && Swaps(w[j].command, k) && w[j].command.expected == x {
      assert StableAt(w, c, j);
    } else {
      TrackIdle(w[..c], k, x);
    }
  }

  lemma {:induction false} ManyCrashes(w: seq<Entry>, k: Bytes, x: Option<Bytes>, cuts: seq<nat>)
    requires ReplayStable(w) && Cuts(w, cuts)
    ensures Track(w, k, TrackPasses(w, k, x, cuts)) == Track(w, k, x)
    decreases cuts
  {
    if cuts != [] {
      ManyCrashes(w, k, Track(w[..cuts[0]], k, x), cuts[1..]);
      OneCrash(w, k, x, cuts[0]);
    }
  }

  lemma StableReplay(kv: Kv, w: seq<Entry>, c: nat)
    requires c <= |w| && Stable(w, c)
    ensures Replay(Replay(kv, w[..c]), w) == Replay(kv, w)
  {
    var m, n := Replay(Replay(kv, w[..c]), w), Replay(kv, w);
    forall k ensures At(m, k) == At(n, k) {
      ReplayAt(kv, w[..c], k);
      ReplayAt(Replay(kv, w[..c]), w, k);
      ReplayAt(kv, w, k);
      OneCrash(w, k, At(kv, k), c);
    }
    SameMap(m, n);
  }

  // A failed test is a store, of at most one key, that goes wrong.
  lemma UnstableStore(w: seq<Entry>, c: nat) returns (kv: Kv, k: Bytes)
    requires c <= |w| && !Stable(w, c)
    ensures Replay(Replay(kv, w[..c]), w) != Replay(kv, w)
    ensures kv == if k in kv then map[k := kv[k]] else map[]
  {
    var j :| 0 <= j < |w| && !StableAt(w, c, j);
    var e := w[j].command.expected;
    k := w[j].command.key;
    kv := if e.Some? then map[k := e.value] else map[];
    assert At(kv, k) == e;
    ReplayAt(kv, w[..c], k);
    ReplayAt(Replay(kv, w[..c]), w, k);
    ReplayAt(kv, w, k);
  }

  ghost predicate ReplaysAlike(w: seq<Entry>, c: nat, kv: Kv)
    requires c <= |w|
  {
    Replay(Replay(kv, w[..c]), w) == Replay(kv, w)
  }

  /** Falling back once, from a given place: right on every store if and only if the test passes. */
  lemma StableExactly(w: seq<Entry>, c: nat)
    requires c <= |w|
    ensures (forall kv :: ReplaysAlike(w, c, kv)) <==> Stable(w, c)
  {
    if Stable(w, c) {
      forall kv ensures ReplaysAlike(w, c, kv) {
        StableReplay(kv, w, c);
      }
    } else {
      var kv, _ := UnstableStore(w, c);
      assert !ReplaysAlike(w, c, kv);
    }
  }

  /** Any number of crashes: right on every node if and only if the test passes for every place. */
  lemma SurvivesExactly(w: seq<Entry>)
    ensures SurvivesCrashes(w) <==> ReplayStable(w)
  {
    if ReplayStable(w) {
      forall r, cuts | Cuts(w, cuts)
        ensures Applied(Crashed(r, w, cuts), w).kv == Applied(r, w).kv
      {
        StableSurvives(r, w, cuts);
      }
    } else {
      var c :| 0 <= c <= |w| && !Stable(w, c);
      var kv, _ := UnstableStore(w, c);
      var r, cuts := Replica(kv, ORIGIN, ORIGIN, map[]), [c];
      AppliedKv(r, w[..c]);
      AppliedKv(Reopened(Applied(r, w[..c])), w);
      AppliedKv(r, w);
      assert cuts[1..] == [];
      assert Crashed(r, w, cuts) == Reopened(Applied(r, w[..c]));
      assert Applied(Crashed(r, w, cuts), w).kv != Applied(r, w).kv;
    }
  }

  lemma StableSurvives(r: Replica, w: seq<Entry>, cuts: seq<nat>)
    requires ReplayStable(w) && Cuts(w, cuts)
    ensures Applied(Crashed(r, w, cuts), w).kv == Applied(r, w).kv
  {
    var m, n := Applied(Crashed(r, w, cuts), w).kv, Applied(r, w).kv;
    forall k ensures At(m, k) == At(n, k) {
      FinalPassAt(r, w, cuts, k);
      ManyCrashes(w, k, At(r.kv, k), cuts);
    }
    SameMap(m, n);
  }

  // Every key is overwritten in the stretch or swapped by at most one entry of it.
  predicate OneSwapPerKey(w: seq<Entry>) {
    forall i, j :: 0 <= i < j < |w| && w[i].command.CompareAndSwap? && w[j].command.CompareAndSwap? &&
                   w[i].command.key == w[j].command.key ==>
                   Covers(w, 0, |w|, w[i].command.key)
  }

  lemma OtherEntriesIdle(w: seq<Entry>, j: nat)
    requires OneSwapPerKey(w) && j < |w| && BareSwap(w, j)
    ensures forall i :: 0 <= i < |w| && i != j ==>
              !Overwrites(w[i].command, w[j].command.key) && !Swaps(w[i].command, w[j].command.key)
  {
  }

  /** Enough in practice. */
  lemma OneSwapPerKeyStable(w: seq<Entry>, c: nat)
    requires c <= |w| && OneSwapPerKey(w)
    ensures Stable(w, c)
  {
    forall j | 0 <= j < |w| && BareSwap(w, j) ensures StableAt(w, c, j) {
      var k, e := w[j].command.key, w[j].command.expected;
      OtherEntriesIdle(w, j);
      if c <= j {
        TrackUntouched(w[..c], k, e);
      } else {
        OnlySwap(w[..c], j, k, e);
        OnlySwap(w, j, k, e);
        OnlySwap(w, j, k, Track(w[..c], k, e));
      }
    }
  }

  lemma OnlySwap(w: seq<Entry>, j: nat, k: Bytes, x: Option<Bytes>)
    requires j < |w|
    requires forall i :: 0 <= i < |w| && i != j ==> !Overwrites(w[i].command, k) && !Swaps(w[i].command, k)
    ensures Track(w, k, x) == Effect(w[j].command, k, x)
  {
    assert w == w[..j + 1] + w[j + 1..];
    TrackConcat(w[..j + 1], w[j + 1..], k, x);
    TrackUntouched(w[..j], k, x);
    assert w[..j + 1][..j] == w[..j];
    TrackUntouched(w[j + 1..], k, Effect(w[j].command, k, x));
  }

  // ---- falling back further than last time ----

  /**
   * A node fell back to entry `a` of `v`, went on for `c` entries, and now falls back to the start
   * of `v`. Its store is some `b` with the first `c` entries of `v[a..]` applied, and all that is
   * known of `b` is that the rest of `v` settles it: it ends like the ideal, some store `s` at the
   * start of `v`, does.
   */
  ghost predicate ReplaysAlikeBeyond(v: seq<Entry>, a: nat, c: nat, s: Kv, b: Kv)
    requires a + c <= |v|
  {
    Replay(b, v[a..]) == Replay(s, v) ==> Replay(Replay(b, v[a..a + c]), v) == Replay(s, v)
  }

  // Some value ends as `t` when `v` is applied to it.
  predicate Reached(v: seq<Entry>, k: Bytes, t: Option<Bytes>) {
    (forall i :: 0 <= i < |v| && Swaps(v[i].command, k) ==> v[i].command.expected != t) ||
    (exists i :: 0 <= i < |v| && Swaps(v[i].command, k) && Track(v, k, v[i].command.expected) == t)
  }

  /** The finite test for that: again only the values some CAS expects matter. */
  predicate StableBeyond(v: seq<Entry>, a: nat, c: nat)
    requires a + c <= |v|
  {
    forall j :: 0 <= j < |v| ==> StableFrom(v, a, c, j)
  }

  predicate StableFrom(v: seq<Entry>, a: nat, c: nat, j: nat)
    requires a + c <= |v| && j < |v|
  {
    BareSwap(v, j) ==>
      var k, y := v[j].command.key, v[j].command.expected;
      Reached(v, k, Track(v[a..], k, y)) ==> Track(v, k, Track(v[a..a + c], k, y)) == Track(v[a..], k, y)
  }

  predicate EndsAs(v: seq<Entry>, k: Bytes, x: Option<Bytes>, t: Option<Bytes>) {
    Track(v, k, x) == t
  }

  /** Falling back as far as last time is the plain test. */
  lemma BeyondNothing(v: seq<Entry>, c: nat)
    requires c <= |v|
    ensures StableBeyond(v, 0, c) <==> Stable(v, c)
  {
    assert v[0..] == v && v[0..c] == v[..c];
    forall j | 0 <= j < |v| ensures StableFrom(v, 0, c, j) <==> StableAt(v, c, j) {
      assert v[j].command.CompareAndSwap? ==> Swaps(v[j].command, v[j].command.key);
    }
  }

  // Without overwrites: what `x` ends as is reached, and every reached value is what some value ends as.
  lemma ReachedExactly(v: seq<Entry>, k: Bytes, t: Option<Bytes>)
    requires !Covers(v, 0, |v|, k)
    ensures Reached(v, k, t) <==> exists x :: EndsAs(v, k, x, t)
  {
    if x :| EndsAs(v, k, x, t) {
      if i :| 0 <= i < |v| && Swaps(v[i].command, k) && v[i].command.expected == x {
        assert Reached(v, k, t);
      } else {
        TrackIdle(v, k, x);
      }
    }
    if Reached(v, k, t) {
      if i :| 0 <= i < |v| && Swaps(v[i].command, k) && Track(v, k, v[i].command.expected) == t {
        assert EndsAs(v, k, v[i].command.expected, t);
      } else {
        TrackIdle(v, k, t);
        assert EndsAs(v, k, t, t);
      }
    }
  }

  lemma TrackIdleWithin(v: seq<Entry>, from: nat, to: nat, k: Bytes, x: Option<Bytes>)
    requires from <= to <= |v| && !Covers(v, 0, |v|, k)
    requires forall i :: 0 <= i < |v| && Swaps(v[i].command, k) ==> v[i].command.expected != x
    ensures Track(v[from..to], k, x) == x
  {
    var w := v[from..to];
    forall i | 0 <= i < |w| ensures w[i] == v[from + i] {
    }
    TrackIdle(w, k, x);
  }

  lemma BeyondAt(v: seq<Entry>, a: nat, c: nat, k: Bytes, x: Option<Bytes>, y: Option<Bytes>)
    requires a + c <= |v| && StableBeyond(v, a, c)
    requires Track(v[a..], k, y) == Track(v, k, x)
    ensures Track(v, k, Track(v[a..a + c], k, y)) == Track(v, k, x)
  {
    if Covers(v, 0, |v|, k) {
      TrackCovered(v, k, Track(v[a..a + c], k, y), x);
    } else if j :| 0 <= j < |v| && Swaps(v[j].command, k) && v[j].command.expected == y {
      assert EndsAs(v, k, x, Track(v[a..], k, y));
      ReachedExactly(v, k, Track(v[a..], k, y));
      assert StableFrom(v, a, c, j);
    } else {
      TrackIdleWithin(v, a, a + c, k, y);
      TrackIdleWithin(v, a, |v|, k, y);
      assert v[a..|v|] == v[a..];
      TrackIdle(v, k, y);
    }
  }

  lemma BeyondReplay(v: seq<Entry>, a: nat, c: nat, s: Kv, b: Kv)
    requires a + c <= |v| && StableBeyond(v, a, c)
    ensures ReplaysAlikeBeyond(v, a, c, s, b)
  {
    if Replay(b, v[a..]) == Replay(s, v) {
      var m, n := Replay(Replay(b, v[a..a + c]), v), Replay(s, v);
      forall k ensures At(m, k) == At(n, k) {
        ReplayAt(b, v[a..], k);
        ReplayAt(s, v, k);
        ReplayAt(b, v[a..a + c], k);
        ReplayAt(Replay(b, v[a..a + c]), v, k);
        BeyondAt(v, a, c, k, At(s, k), At(b, k));
      }
      SameMap(m, n);
    }
  }

  function Holding(kv: Kv, k: Bytes, x: Option<Bytes>): Kv {
    if x.Some? then kv[k := x.value] else kv - {k}
  }

  // A failed test is a pair of stores that goes wrong.
  lemma UnstableBeyond(v: seq<Entry>, a: nat, c: nat) returns (s: Kv, b: Kv)
    requires a + c <= |v| && !StableBeyond(v, a, c)
    ensures !ReplaysAlikeBeyond(v, a, c, s, b)
  {
    var j :| 0 <= j < |v| && !StableFrom(v, a, c, j);
    var k, y := v[j].command.key, v[j].command.expected;
    ReachedExactly(v, k, Track(v[a..], k, y));
    var x :| EndsAs(v, k, x, Track(v[a..], k, y));
    s := Holding(map[], k, x);
    b := Holding(Replay(s, v[..a]), k, y);
    EndsLike(v, a, k, s, b);
    ReplayAt(b, v[a..a + c], k);
    ReplayAt(Replay(b, v[a..a + c]), v, k);
    ReplayAt(s, v, k);
  }

  lemma EndsLike(v: seq<Entry>, a: nat, k: Bytes, s: Kv, b: Kv)
    requires a <= |v| && Track(v[a..], k, At(b, k)) == Track(v, k, At(s, k))
    requires forall k' :: k' != k ==> At(b, k') == At(Replay(s, v[..a]), k')
    ensures Replay(b, v[a..]) == Replay(s, v)
  {
    var m, n := Replay(b, v[a..]), Replay(s, v);
    assert v == v[..a] + v[a..];
    forall k' ensures At(m, k') == At(n, k') {
      ReplayAt(b, v[a..], k');
      ReplayAt(s, v, k');
      ReplayAt(s, v[..a], k');
      TrackConcat(v[..a], v[a..], k', At(s, k'));
    }
    SameMap(m, n);
  }

  /** Right for every store that settles, and every ideal it settles to, if and only if the test passes. */
  lemma BeyondExactly(v: seq<Entry>, a: nat, c: nat)
    requires a + c <= |v|
    ensures (forall s, b :: ReplaysAlikeBeyond(v, a, c, s, b)) <==> StableBeyond(v, a, c)
  {
    if StableBeyond(v, a, c) {
      forall s, b ensures ReplaysAlikeBeyond(v, a, c, s, b) {
        BeyondReplay(v, a, c, s, b);
      }
    } else {
      var s, b := UnstableBeyond(v, a, c);
      assert !ReplaysAlikeBeyond(v, a, c, s, b);
    }
  }

  /** One swap per key is enough here too. */
  lemma OneSwapPerKeyBeyond(v: seq<Entry>, a: nat, c: nat)
    requires a + c <= |v| && OneSwapPerKey(v)
    ensures StableBeyond(v, a, c)
  {
    forall j | 0 <= j < |v| && BareSwap(v, j) ensures StableFrom(v, a, c, j) {
      OneSwapFrom(v, a, c, j);
    }
  }

  lemma OneSwapFrom(v: seq<Entry>, a: nat, c: nat, j: nat)
    requires a + c <= |v| && OneSwapPerKey(v)
    requires j < |v| && BareSwap(v, j)
    ensures StableFrom(v, a, c, j)
  {
    var k, e := v[j].command.key, v[j].command.expected;
    OtherEntriesIdle(v, j);
    OnlySwap(v, j, k, e);
    assert v[a..|v|] == v[a..];
    if j < a {
      UntouchedFrom(v, a, a + c, j, k, e);
      UntouchedFrom(v, a, |v|, j, k, e);
    } else {
      var w := v[a..];
      OnlySwap(w, j - a, k, e);
      if a + c <= j {
        UntouchedFrom(v, a, a + c, j, k, e);
      } else {
        OnlySwap(v[a..a + c], j - a, k, e);
        OnlySwap(v, j, k, Track(v[a..a + c], k, e));
      }
    }
  }

  lemma UntouchedFrom(v: seq<Entry>, from: nat, to: nat, j: nat, k: Bytes, x: Option<Bytes>)
    requires from <= to <= |v| && (j < from || to <= j)
    requires forall i :: 0 <= i < |v| && i != j ==> !Overwrites(v[i].command, k) && !Swaps(v[i].command, k)
    ensures Track(v[from..to], k, x) == x
  {
    var w := v[from..to];
    forall i | 0 <= i < |w| ensures w[i] == v[from + i] {
    }
    TrackUntouched(w, k, x);
  }
}
