/**
 * Convergence needs its hypothesis. Every stretch of log that fails the test of CrashSchedules is
 * the tail of a log with a run that goes wrong on it; the shortest such log has three entries.
 */
module Divergence {
  import opened ByteStrings
  import opened Tables
  import opened Commands
  import opened Replicas
  import opened CrashSchedules
  import opened LogTests
  import opened Clusters
  import opened Convergence

  function Alone(n: Node): Cluster {
    Cluster([n], [])
  }

  lemma AloneApplies(log: seq<Entry>, n: Node, count: nat)
    requires n.r.applied.index + count <= |log|
    ensures Enabled(log, false, Alone(n), Apply(0, count))
    ensures Next(log, false, Alone(n), Apply(0, count)) ==
            Alone(AppliedNode(n, log[n.r.applied.index..n.r.applied.index + count]))
  {
  }

  lemma AlonePersists(log: seq<Entry>, n: Node, index: nat)
    requires index <= n.r.applied.index && index <= |log|
    ensures Enabled(log, false, Alone(n), Persist(0, index))
    ensures Next(log, false, Alone(n), Persist(0, index)) == Alone(FellBack(n, index, Persisted(n.r, IdAt(log, index))))
  {
  }

  lemma AloneCrashes(log: seq<Entry>, n: Node)
    ensures Enabled(log, false, Alone(n), Crash(0))
    ensures Next(log, false, Alone(n), Crash(0)) == Alone(FellBack(n, n.r.durable.index, Reopened(n.r)))
  {
  }

  // A node that has persisted index 1, applies `c` entries of the rest, crashes, and applies them all.
  lemma CrashOnce(log: seq<Entry>, n: Node, c: nat) returns (ahead: Node, crashed: Node, end: Node)
    requires Indexed(log) && 1 + c <= |log|
    requires n.r.durable == n.r.applied == IdAt(log, 1) && n.high == 1
    ensures ahead == AppliedNode(n, log[1..1 + c]) && ahead.r.durable.index == 1
    ensures crashed == FellBack(ahead, 1, Reopened(ahead.r)) && crashed.r.applied.index == 1
    ensures end == AppliedNode(crashed, log[1..|log|])
    ensures end.r.applied.index == end.high == |log|
    ensures end.r.kv == Replay(Replay(n.r.kv, log[1..][..c]), log[1..])
  {
    ahead := AppliedNode(n, log[1..1 + c]);
    AppliedIds(log, n.r, 1 + c);
    crashed := FellBack(ahead, 1, Reopened(ahead.r));
    end := AppliedNode(crashed, log[1..|log|]);
    AppliedIds(log, crashed.r, |log|);
    assert log[1..1 + c] == log[1..][..c] && log[1..|log|] == log[1..];
  }

  // The log's first entry applied and persisted.
  lemma FirstPersisted(log: seq<Entry>) returns (first: Node, n: Node)
    requires Indexed(log) && log != []
    ensures first == AppliedNode(Fresh(0), log[0..1]) && first.r.applied.index == 1
    ensures n == FellBack(first, 1, Persisted(first.r, IdAt(log, 1)))
    ensures n.r.durable == n.r.applied == IdAt(log, 1) && n.high == 1 && n.r.kv == Ideal(log, 1)
  {
    first := AppliedNode(Fresh(0), log[0..1]);
    assert log[0..1] == log[..1];
    n := FellBack(first, 1, Persisted(first.r, IdAt(log, 1)));
  }

  // The run that does it.
  lemma PersistRun(log: seq<Entry>) returns (states: seq<Cluster>, steps: seq<Step>, n: Node)
    requires Indexed(log) && log != []
    ensures Run(log, false, states, steps) && states[|steps|] == Alone(n)
    ensures n.r.durable == n.r.applied == IdAt(log, 1) && n.high == 1 && n.r.kv == Ideal(log, 1)
  {
    var first;
    first, n := FirstPersisted(log);
    AloneApplies(log, Fresh(0), 1);
    states, steps := Onward(log, [Alone(Fresh(0))], [], Apply(0, 1), Alone(first));
    AlonePersists(log, first, 1);
    states, steps := Onward(log, states, steps, Persist(0, 1), Alone(n));
  }

  /** Apply one entry, persist, apply `c` more, crash, apply all of the rest: what the node ends with. */
  lemma CrashRun(log: seq<Entry>, c: nat) returns (states: seq<Cluster>, steps: seq<Step>)
    requires Indexed(log) && 1 + c <= |log|
    ensures Run(log, false, states, steps) && states != [] && |states[|states| - 1].nodes| == 1
    ensures var n := states[|states| - 1].nodes[0];
            n.r.applied.index == n.high == |log| && n.r.kv == Replay(Replay(Ideal(log, 1), log[1..][..c]), log[1..])
  {
    var n;
    states, steps, n := PersistRun(log);
    var ahead, crashed, end := CrashOnce(log, n, c);
    AloneApplies(log, n, c);
    states, steps := Onward(log, states, steps, Apply(0, c), Alone(ahead));
    AloneCrashes(log, ahead);
    states, steps := Onward(log, states, steps, Crash(0), Alone(crashed));
    AloneApplies(log, crashed, |log| - 1);
    assert 1 + (|log| - 1) == |log|;
    states, steps := Onward(log, states, steps, Apply(0, |log| - 1), Alone(end));
  }

  lemma Onward(log: seq<Entry>, states: seq<Cluster>, steps: seq<Step>, s: Step, next: Cluster)
    returns (states': seq<Cluster>, steps': seq<Step>)
    requires Run(log, false, states, steps) && Enabled(log, false, states[|steps|], s)
    requires Next(log, false, states[|steps|], s) == next
    ensures Run(log, false, states', steps') && |steps'| == |steps| + 1 && states'[|steps'|] == next
  {
    states', steps' := states + [next], steps + [s];
    forall i | 0 <= i < |steps'| ensures Stepped(log, false, states', steps', i) {
      if i < |steps| {
        assert Stepped(log, false, states, steps, i);
        assert states'[i] == states[i] && states'[i + 1] == states[i + 1] && steps'[i] == steps[i];
      }
    }
  }

  // Some run of `log` leaves a caught-up node with another store than the fold.
  ghost predicate Diverges(log: seq<Entry>) {
    exists states: seq<Cluster>, steps: seq<Step> ::
      Run(log, false, states, steps) && WrongAtEnd(log, states)
  }

  predicate WrongAtEnd(log: seq<Entry>, states: seq<Cluster>) {
    states != [] && |states[|states| - 1].nodes| == 1 &&
    var n := states[|states| - 1].nodes[0];
    n.r.applied.index == n.high == |log| && n.r.kv != Ideal(log, |log|)
  }

  /**
   * The test cannot be weakened: a stretch that fails it, put after a single write, makes a log
   * with a run that does not converge.
   */
  lemma UnstableDiverges(w: seq<Entry>, c: nat)
    requires forall i :: 0 <= i < |w| ==> w[i].index == i + 2
    requires c <= |w| && !Stable(w, c)
    ensures exists first: Entry :: Indexed([first] + w) && Diverges([first] + w)
  {
    var kv, k := UnstableStore(w, c);
    var first := Entry(1, 1, if k in kv then Insert(k, kv[k], None) else Remove(k));
    var log := [first] + w;
    assert log[1..] == w;
    var states, steps := CrashRun(log, c);
    assert log[..1] == [] + [first];
    ReplaySnoc(map[], [], first);
    assert Ideal(log, 1) == Execute(map[], first.command) == kv;
    IdealFrom(log, 1, |log|);
    assert log[1..|log|] == w;
    assert WrongAtEnd(log, states);
    assert Diverges(log);
  }

  // ---- the shortest log ----

  const KEY: Bytes := [107]

  function SwapChain(): seq<Entry> {
    [ Entry(1, 1, Insert(KEY, [99], None)),
      Entry(2, 1, CompareAndSwap(KEY, Some([97]), [98])),
      Entry(3, 1, CompareAndSwap(KEY, Some([99]), [97])) ]
  }

  lemma ChainValues(kv: Kv)
    ensures Replay(kv, SwapChain()[..1]) == kv[KEY := [99]]
    ensures At(kv, KEY) == Some([99]) ==> Replay(kv, SwapChain()[1..]) == kv[KEY := [97]]
    ensures At(kv, KEY) == Some([97]) ==> Replay(kv, SwapChain()[1..]) == kv[KEY := [98]]
  {
    var w := SwapChain();
    assert w[..1][..0] == [];
    assert w[1..][..1] == [w[1]];
    assert [w[1]][..0] == [];
  }

  /** Put c, swap a to b, swap c to a, with the durable index at 1: the fold has a, the replay ends with b. */
  lemma SwapChainDiverges()
    ensures Indexed(SwapChain()) && Ideal(SwapChain(), 3) == map[KEY := [97]]
    ensures exists states: seq<Cluster>, steps: seq<Step> ::
              Run(SwapChain(), false, states, steps) && WrongAtEnd(SwapChain(), states) &&
              states[|states| - 1].nodes[0].r.kv == map[KEY := [98]]
  {
    var log := SwapChain();
    var w := log[1..];
    ChainValues(map[]);
    ChainValues(map[KEY := [99]]);
    ChainValues(map[KEY := [97]]);
    IdealFrom(log, 1, 3);
    assert log[1..3] == w && w[..2] == w;
    var states, steps := CrashRun(log, 2);
    assert states[|states| - 1].nodes[0].r.kv == map[KEY := [98]];
    assert map[KEY := [98]][KEY] != map[KEY := [97]][KEY];
    assert WrongAtEnd(log, states);
  }

  // ---- whole logs ----

  ghost predicate Brings(log: seq<Entry>, states: seq<Cluster>, steps: seq<Step>, n: Node, k: Bytes, h: nat, p: Place) {
    Run(log, false, states, steps) && states[|steps|] == Alone(n) &&
    n.r.applied.index == p.index <= n.high == h <= |log| && At(n.r.kv, k) == p.value
  }

  // Some run brings a node to `p`, having seen the log up to `h`.
  ghost predicate Realized(log: seq<Entry>, k: Bytes, h: nat, p: Place) {
    exists states: seq<Cluster>, steps: seq<Step>, n :: Brings(log, states, steps, n, k, h, p)
  }

  lemma RealizeTop(log: seq<Entry>, k: Bytes, h: nat)
    requires Indexed(log) && h <= |log|
    ensures Realized(log, k, h, Top(log, k, h))
  {
    var n := AppliedNode(Fresh(0), log[0..h]);
    AppliedIds(log, Fresh(0).r, h);
    AloneApplies(log, Fresh(0), h);
    var states, steps := Onward(log, [Alone(Fresh(0))], [], Apply(0, h), Alone(n));
    assert log[0..h] == log[..h];
    ReplayAt(map[], log[..h], k);
    assert Brings(log, states, steps, n, k, h, Top(log, k, h));
  }

  lemma RealizeBack(log: seq<Entry>, k: Bytes, h: nat, p: Place, b: nat)
    requires Indexed(log) && h <= |log| && Realized(log, k, h, p) && b <= p.index
    ensures Realized(log, k, h, Place(b, p.value))
  {
    var states, steps, n :| Brings(log, states, steps, n, k, h, p);
    var n' := FellBack(n, b, Persisted(n.r, IdAt(log, b)));
    AlonePersists(log, n, b);
    var states', steps' := Onward(log, states, steps, Persist(0, b), Alone(n'));
    assert Brings(log, states', steps', n', k, h, Place(b, p.value));
  }

  lemma RealizeForward(log: seq<Entry>, k: Bytes, h: nat, p: Place)
    requires Indexed(log) && h <= |log| && Realized(log, k, h, p) && p.index < h
    ensures Realized(log, k, h, Forward(log, k, p))
  {
    var states, steps, n :| Brings(log, states, steps, n, k, h, p);
    var a := p.index;
    var chunk := log[a..a + 1];
    assert chunk == [] + [log[a]];
    ReplaySnoc(n.r.kv, [], log[a]);
    var n' := AppliedNode(n, chunk);
    AloneApplies(log, n, 1);
    var states', steps' := Onward(log, states, steps, Apply(0, 1), Alone(n'));
    ExecuteAt(n.r.kv, log[a].command, k);
    assert Brings(log, states', steps', n', k, h, Forward(log, k, p));
  }

  /** Every place the test computes is one some run comes to. */
  lemma ReachableRealized(log: seq<Entry>, k: Bytes, h: nat, p: Place)
    requires Indexed(log) && h <= |log| && p in Reachable(log, k, h)
    ensures Realized(log, k, h, p)
  {
    var t := iset q | Realized(log, k, h, q);
    forall q | q in t ensures MovesWithin(log, k, h, t, q) {
      forall b | 0 <= b <= q.index ensures Place(b, q.value) in t {
        RealizeBack(log, k, h, q, b);
      }
      if q.index < h {
        RealizeForward(log, k, h, q);
      }
    }
    RealizeTop(log, k, h);
    ReachableLeast(log, k, h, t, p);
  }

  predicate IdealOnceCaughtUp(log: seq<Entry>, n: Node) {
    n.r.applied.index == n.high ==> n.high <= |log| && n.r.kv == Ideal(log, n.high)
  }

  // At every moment, caught-up nodes hold the fold.
  predicate AlwaysIdeal(log: seq<Entry>, states: seq<Cluster>) {
    forall t, i :: 0 <= t < |states| && 0 <= i < |states[t].nodes| ==> IdealOnceCaughtUp(log, states[t].nodes[i])
  }

  lemma SafeRunIdeal(log: seq<Entry>, states: seq<Cluster>, steps: seq<Step>)
    requires Indexed(log) && Run(log, false, states, steps) && SafeRun(log, false, states, steps)
    ensures AlwaysIdeal(log, states)
  {
    forall t, i | 0 <= t < |states| && 0 <= i < |states[t].nodes|
      ensures IdealOnceCaughtUp(log, states[t].nodes[i])
    {
      Converges(log, false, states, steps, t, i);
    }
  }

  // A place at the top with another value than the ideal one is a run that goes wrong.
  lemma UnsafeRun(log: seq<Entry>, k: Bytes, h: nat) returns (states: seq<Cluster>, steps: seq<Step>)
    requires Indexed(log) && h <= |log| && !KeySafe(log, k, h)
    ensures Run(log, false, states, steps) && !AlwaysIdeal(log, states)
  {
    var p :| p in Reachable(log, k, h) && p.index == h && p != Top(log, k, h);
    ReachableRealized(log, k, h, p);
    var n;
    states, steps, n :| Brings(log, states, steps, n, k, h, p);
    ReplayAt(map[], log[..h], k);
    assert !IdealOnceCaughtUp(log, states[|steps|].nodes[0]);
  }

  /** For a whole log: every run of every cluster converges if and only if the log passes the test. */
  lemma LogSafeExactly(log: seq<Entry>)
    requires Indexed(log)
    ensures (forall states: seq<Cluster>, steps: seq<Step> ::
               Run(log, false, states, steps) ==> AlwaysIdeal(log, states))
            <==> LogSafe(log)
  {
    if LogSafe(log) {
      forall states: seq<Cluster>, steps: seq<Step> | Run(log, false, states, steps)
        ensures AlwaysIdeal(log, states)
      {
        RunsAreSafe(log, false, states, steps);
        SafeRunIdeal(log, states, steps);
      }
    } else {
      var j, h :| 0 <= j < |log| && 0 <= h <= |log| && !SafeAt(log, j, h);
      var states, steps := UnsafeRun(log, log[j].command.key, h);
    }
  }

  /** A log whose every stretch passes its own test passes as a whole. */
  lemma ReplaySafeLogSafe(log: seq<Entry>)
    requires Indexed(log) && ReplaySafe(log)
    ensures LogSafe(log)
  {
    forall states: seq<Cluster>, steps: seq<Step> | Run(log, false, states, steps)
      ensures AlwaysIdeal(log, states)
    {
      RunsAreSafe(log, false, states, steps);
      SafeRunIdeal(log, states, steps);
    }
    LogSafeExactly(log);
  }

  function SharedOrigin(): seq<Entry> {
    [ Entry(1, 1, Insert(KEY, [121], None)),
      Entry(2, 1, Insert(KEY, [113], None)),
      Entry(3, 1, CompareAndSwap(KEY, Some([121]), [112])),
      Entry(4, 1, CompareAndSwap(KEY, Some([121]), [113])) ]
  }

  /** Not the other way round: the stores on which a stretch goes wrong need not be reachable. */
  lemma LogSafeIsWider()
    ensures Indexed(SharedOrigin()) && LogSafe(SharedOrigin()) && !ReplaySafe(SharedOrigin())
  {
    var log := SharedOrigin();
    VersionedLogSafe(log);
    var v := log[2..4];
    assert v[1..][..0] == v[1..1] == [] && v[..1][..0] == [];
    assert v[1..] == [log[3]] && v[..1] == [log[2]];
    assert [log[3]][..0] == [];
    assert Track(v[1..], KEY, Some([121])) == Some([113]);
    assert [log[2]][..0] == [];
    assert Track(v[..1], KEY, Some([121])) == Some([112]);
    var p: Bytes, y: Bytes := [112], [121];
    assert p[0] != y[0];
    assert Track(v, KEY, Some([121])) == Some([112]);
    assert !StableFrom(v, 1, 0, 1);
    assert !StretchSafe(log, 2, 3, 3, 4);
  }
}
