/**
 * Convergence: when every run of a cluster ends up with the ideal fold of its log, whatever is
 * replayed, copied or deleted on the way.
 */
module Convergence {
  import opened ByteStrings
  import opened Tables
  import opened Commands
  import opened Replicas
  import opened Reaping
  import opened Scans
  import opened Clusters
  import opened CrashSchedules
  import opened LogTests

  // ---- when a step may disturb convergence ----

  /**
   * Falling back to `to` replays `log[to..high]`. That stretch must pass the test for a node that
   * leaves it where this one does, having come to it where this one last fell back to.
   */
  predicate FallBackSafe(log: seq<Entry>, n: Node, to: nat)
    requires InBounds(log, n) && to <= n.r.applied.index
  {
    if n.anchor <= to then Stable(log[to..n.high], n.r.applied.index - to)
    else StableBeyond(log[to..n.high], n.anchor - to, n.r.applied.index - n.anchor)
  }

  // Entry `j` is no CAS whose outcome depends on whether an expired row is still there.
  predicate HidesAt(clock: nat, shadow: Kv, w: seq<Entry>, j: nat)
    requires j < |w|
  {
    w[j].command.CompareAndSwap? ==>
      !ReapVisible(w[j].command, At(Replay(shadow, w[..j]), w[j].command.key), clock)
  }

  predicate HidesDeletions(clock: nat, shadow: Kv, w: seq<Entry>) {
    forall j :: 0 <= j < |w| ==> HidesAt(clock, shadow, w, j)
  }

  predicate ApplySafe(log: seq<Entry>, n: Node, count: nat)
    requires n.r.applied.index + count <= |log|
  {
    HidesDeletions(n.clock, n.shadow, log[n.r.applied.index..n.r.applied.index + count])
  }

  // A step back replays nothing that goes wrong.
  predicate FallSafe(log: seq<Entry>, reaps: bool, states: seq<Cluster>, steps: seq<Step>, t: nat)
    requires t < |steps| < |states| && Stepped(log, reaps, states, steps, t)
  {
    var n := states[t].nodes[steps[t].node];
    InBounds(log, n) &&
    match steps[t]
    case Persist(_, index) => FallBackSafe(log, n, index)
    case Crash(_) => FallBackSafe(log, n, n.r.durable.index)
    case Take(_, index) => FallBackSafe(log, n, index)
    case _ => true
  }

  // What a step applies hides the deletions of its node.
  predicate Hides(log: seq<Entry>, reaps: bool, states: seq<Cluster>, steps: seq<Step>, t: nat)
    requires t < |steps| < |states| && Stepped(log, reaps, states, steps, t)
  {
    reaps && steps[t].Apply? ==> ApplySafe(log, states[t].nodes[steps[t].node], steps[t].count)
  }

  predicate FallsSafe(log: seq<Entry>, reaps: bool, states: seq<Cluster>, steps: seq<Step>)
    requires Run(log, reaps, states, steps)
  {
    forall t :: 0 <= t < |steps| ==> FallSafe(log, reaps, states, steps, t)
  }

  predicate HidesAll(log: seq<Entry>, reaps: bool, states: seq<Cluster>, steps: seq<Step>)
    requires Run(log, reaps, states, steps)
  {
    forall t :: 0 <= t < |steps| ==> Hides(log, reaps, states, steps, t)
  }

  /** Deletions stay hidden, and the log passes the test as a whole or each step back passes its own. */
  predicate SafeRun(log: seq<Entry>, reaps: bool, states: seq<Cluster>, steps: seq<Step>)
    requires Run(log, reaps, states, steps)
  {
    HidesAll(log, reaps, states, steps) && (LogSafe(log) || FallsSafe(log, reaps, states, steps))
  }

  // ---- what runs keep ----

  // Replaying from `at` to the highest index seen makes up for everything.
  predicate Settles(log: seq<Entry>, kv: Kv, at: nat, high: nat)
    requires at <= high <= |log|
  {
    Replay(kv, log[at..high]) == Ideal(log, high)
  }

  // The node's store, but for its own deletions, settles from where the node is.
  predicate NodeSettles(log: seq<Entry>, n: Node) {
    n.r.applied.index <= n.high <= |log| && Settles(log, n.shadow, n.r.applied.index, n.high)
  }

  predicate CopySettles(log: seq<Entry>, p: Snapshot) {
    p.last.index <= p.high <= |log| && Settles(log, p.shadow, p.last.index, p.high)
  }

  ghost predicate NodeShadows(reaps: bool, n: Node) {
    Shadows(reaps, n.clock, n.r.kv, n.shadow)
  }

  ghost predicate CopyShadows(reaps: bool, p: Snapshot) {
    Shadows(reaps, p.clock, p.kv, p.shadow)
  }

  ghost predicate NodeOk(log: seq<Entry>, reaps: bool, n: Node) {
    IdsOk(log, n) && NodeSettles(log, n) && NodeShadows(reaps, n)
  }

  // ---- stretches of the log ----

  lemma ReplaySplit(kv: Kv, log: seq<Entry>, a: nat, b: nat, c: nat)
    requires a <= b <= c <= |log|
    ensures Replay(kv, log[a..c]) == Replay(Replay(kv, log[a..b]), log[b..c])
  {
    assert log[a..c] == log[a..b] + log[b..c];
    ReplayConcat(kv, log[a..b], log[b..c]);
  }

  lemma IdealFrom(log: seq<Entry>, at: nat, to: nat)
    requires at <= to <= |log|
    ensures Replay(Ideal(log, at), log[at..to]) == Ideal(log, to)
  {
    assert log[..at] == log[0..at] && log[..to] == log[0..to];
    ReplaySplit(map[], log, 0, at, to);
  }

  /** A store that settles by `high` still does when more of the log has been seen. */
  lemma SettlesFurther(log: seq<Entry>, kv: Kv, at: nat, high: nat, higher: nat)
    requires at <= high <= higher <= |log| && Settles(log, kv, at, high)
    ensures Settles(log, kv, at, higher)
  {
    ReplaySplit(kv, log, at, high, higher);
    IdealFrom(log, high, higher);
  }

  // ---- falling back ----

  /** Not past the last fall: the stretch undoes the part of it the node has applied already. */
  lemma FallBackWithin(log: seq<Entry>, base: Kv, anchor: nat, to: nat, at: nat, high: nat)
    requires anchor <= to <= at <= high <= |log|
    requires Settles(log, base, anchor, high) && Stable(log[to..high], at - to)
    ensures Settles(log, Replay(base, log[anchor..at]), to, high)
  {
    var start, w := Replay(base, log[anchor..to]), log[to..high];
    assert w[..at - to] == log[to..at];
    ReplaySplit(base, log, anchor, to, at);
    StableReplay(start, w, at - to);
    ReplaySplit(base, log, anchor, to, high);
  }

  lemma SliceOfSlice(log: seq<Entry>, a: nat, b: nat, c: nat, d: nat)
    requires a <= b <= |log| && c <= d <= b - a
    ensures log[a..b][c..d] == log[a + c..a + d]
  {
    var s, t := log[a..b][c..d], log[a + c..a + d];
    forall i | 0 <= i < |s| ensures s[i] == t[i] {
      assert s[i] == log[a..b][c + i] == log[a + c + i];
    }
  }

  /** Past it: the longer stretch makes up for whatever the shorter one would have. */
  lemma FallBackBeyond(log: seq<Entry>, base: Kv, anchor: nat, to: nat, at: nat, high: nat)
    requires to <= anchor <= at <= high <= |log|
    requires Settles(log, base, anchor, high) && StableBeyond(log[to..high], anchor - to, at - anchor)
    ensures Settles(log, Replay(base, log[anchor..at]), to, high)
  {
    var v, w, x := log[to..high], log[anchor..high], log[anchor..at];
    var a := anchor - to;
    assert v[a..] == w by {
      SliceOfSlice(log, to, high, a, high - to);
      assert v[a..high - to] == v[a..];
    }
    assert v[a..a + |x|] == x by {
      SliceOfSlice(log, to, high, a, a + |x|);
    }
    IdealFrom(log, to, high);
    BeyondWith(v, w, x, a, Ideal(log, to), base);
  }

  lemma BeyondWith(v: seq<Entry>, w: seq<Entry>, x: seq<Entry>, a: nat, start: Kv, base: Kv)
    requires a + |x| <= |v| && v[a..] == w && v[a..a + |x|] == x
    requires StableBeyond(v, a, |x|) && Replay(base, w) == Replay(start, v)
    ensures Replay(Replay(base, x), v) == Replay(start, v)
  {
    BeyondReplay(v, a, |x|, start, base);
    assert ReplaysAlikeBeyond(v, a, |x|, start, base);
  }

  /** Staying where one is needs no condition on the log. */
  lemma NoFallIsSafe(log: seq<Entry>, n: Node)
    requires InBounds(log, n)
    ensures FallBackSafe(log, n, n.r.applied.index)
  {
    StableAtOnce(log[n.r.applied.index..n.high]);
  }

  // ---- deleting on one's own ----

  lemma ShadowApplyOne(reaps: bool, clock: nat, kv: Kv, shadow: Kv, c: Command)
    requires Shadows(reaps, clock, kv, shadow)
    requires reaps && c.CompareAndSwap? ==> !ReapVisible(c, At(shadow, c.key), clock)
    ensures Shadows(reaps, clock, Execute(kv, c), Execute(shadow, c))
    ensures Succeeds(kv, c) <==> Succeeds(shadow, c)
  {
    forall k ensures Faded(reaps, clock, At(Execute(kv, c), k), At(Execute(shadow, c), k)) {
      ExecuteAt(kv, c, k);
      ExecuteAt(shadow, c, k);
      EffectKeepsFaded(reaps, c, k, At(kv, k), At(shadow, k), clock);
    }
    if c.CompareAndSwap? {
      assert Faded(reaps, clock, At(kv, c.key), At(shadow, c.key));
    }
  }

  /** Entries keep a store with deletions behind its shadow, and give both the same outcomes. */
  lemma {:induction false} ShadowReplay(reaps: bool, clock: nat, kv: Kv, shadow: Kv, w: seq<Entry>)
    requires Shadows(reaps, clock, kv, shadow)
    requires reaps ==> HidesDeletions(clock, shadow, w)
    ensures Shadows(reaps, clock, Replay(kv, w), Replay(shadow, w))
    ensures Results(kv, w) == Results(shadow, w)
  {
    if w != [] {
      var init := w[..|w| - 1];
      forall j | reaps && 0 <= j < |init| ensures HidesAt(clock, shadow, init, j) {
        assert init[..j] == w[..j] && HidesAt(clock, shadow, w, j);
      }
      assert reaps ==> HidesAt(clock, shadow, w, |w| - 1);
      ShadowReplay(reaps, clock, kv, shadow, init);
      ShadowApplyOne(reaps, clock, Replay(kv, init), Replay(shadow, init), w[|w| - 1].command);
    }
  }

  lemma ShadowReap(clock: nat, kv: Kv, shadow: Kv, key: Bytes)
    requires Shadows(true, clock, kv, shadow) && HasExpired(At(kv, key), clock)
    ensures Shadows(true, clock, kv - {key}, shadow)
  {
    forall k ensures Faded(true, clock, At(kv - {key}, k), At(shadow, k)) {
      assert Faded(true, clock, At(kv, k), At(shadow, k));
    }
  }

  ghost predicate AllShadows(reaps: bool, c: Cluster) {
    (forall i :: 0 <= i < |c.nodes| ==> NodeShadows(reaps, c.nodes[i])) &&
    (forall i :: 0 <= i < |c.snapshots| ==> CopyShadows(reaps, c.snapshots[i]))
  }

  lemma ApplyShadows(reaps: bool, n: Node, chunk: seq<Entry>)
    requires NodeShadows(reaps, n)
    requires reaps ==> HidesDeletions(n.clock, n.shadow, chunk)
    ensures NodeShadows(reaps, AppliedNode(n, chunk))
  {
    ShadowReplay(reaps, n.clock, n.r.kv, n.shadow, chunk);
    AppliedKv(n.r, chunk);
  }

  lemma InstallShadows(reaps: bool, n: Node, p: Snapshot)
    requires CopyShadows(reaps, p) && p.clock <= n.clock
    ensures NodeShadows(reaps, InstalledNode(n, p))
  {
    ShadowLater(reaps, p.clock, n.clock, p.kv, p.shadow);
  }

  lemma OtherStepShadows(log: seq<Entry>, reaps: bool, c: Cluster, s: Step)
    requires !s.Apply? && !s.Install? && Enabled(log, reaps, c, s) && NodeShadows(reaps, c.nodes[s.node])
    ensures NodeShadows(reaps, NextNode(log, reaps, c, s))
  {
    var n := c.nodes[s.node];
    match s
    case Reap(_, k) => ShadowReap(n.clock, n.r.kv, n.shadow, k);
    case Tick(_, t) => ShadowLater(reaps, n.clock, t, n.r.kv, n.shadow);
    case _ =>
  }

  lemma NodeStepShadows(log: seq<Entry>, reaps: bool, c: Cluster, s: Step)
    requires Enabled(log, reaps, c, s) && AllShadows(reaps, c)
    requires reaps && s.Apply? ==> ApplySafe(log, c.nodes[s.node], s.count)
    ensures NodeShadows(reaps, NextNode(log, reaps, c, s))
  {
    var n := c.nodes[s.node];
    assert NodeShadows(reaps, n);
    if s.Apply? {
      ApplyShadows(reaps, n, log[n.r.applied.index..n.r.applied.index + s.count]);
    } else if s.Install? {
      assert CopyShadows(reaps, c.snapshots[s.snapshot]);
      InstallShadows(reaps, n, c.snapshots[s.snapshot]);
    } else {
      OtherStepShadows(log, reaps, c, s);
    }
  }

  lemma NodesShadows(reaps: bool, nodes: seq<Node>, nodes': seq<Node>, i: nat)
    requires i < |nodes| == |nodes'| && NodeShadows(reaps, nodes'[i])
    requires forall j :: 0 <= j < |nodes| ==> NodeShadows(reaps, nodes[j]) && (j != i ==> nodes'[j] == nodes[j])
    ensures forall j :: 0 <= j < |nodes'| ==> NodeShadows(reaps, nodes'[j])
  {
  }

  lemma CopiesShadows(log: seq<Entry>, reaps: bool, c: Cluster, s: Step)
    requires Enabled(log, reaps, c, s) && AllShadows(reaps, c)
    ensures forall i :: 0 <= i < |Next(log, reaps, c, s).snapshots| ==>
              CopyShadows(reaps, Next(log, reaps, c, s).snapshots[i])
  {
    assert NodeShadows(reaps, c.nodes[s.node]);
  }

  lemma ShadowsStep(log: seq<Entry>, reaps: bool, c: Cluster, s: Step)
    requires Enabled(log, reaps, c, s) && AllShadows(reaps, c)
    requires reaps && s.Apply? ==> ApplySafe(log, c.nodes[s.node], s.count)
    ensures AllShadows(reaps, Next(log, reaps, c, s))
  {
    NodeStepShadows(log, reaps, c, s);
    NodesShadows(reaps, c.nodes, Next(log, reaps, c, s).nodes, s.node);
    CopiesShadows(log, reaps, c, s);
  }

  lemma StartShadows(reaps: bool, c: Cluster)
    requires Initial(c)
    ensures AllShadows(reaps, c)
  {
    forall i | 0 <= i < |c.nodes| ensures NodeShadows(reaps, c.nodes[i]) {
      assert c.nodes[i] == Fresh(c.nodes[i].clock);
    }
  }

  lemma {:induction false} RunShadows(log: seq<Entry>, reaps: bool, states: seq<Cluster>, steps: seq<Step>, t: nat)
    requires Run(log, reaps, states, steps) && HidesAll(log, reaps, states, steps) && t < |states|
    ensures AllShadows(reaps, states[t])
  {
    if t == 0 {
      StartShadows(reaps, states[0]);
    } else {
      RunShadows(log, reaps, states, steps, t - 1);
      assert Stepped(log, reaps, states, steps, t - 1) && Hides(log, reaps, states, steps, t - 1);
      ShadowsStep(log, reaps, states[t - 1], steps[t - 1]);
    }
  }

  // ---- settling, when each step back passes its test ----

  // While it is behind, a node's shadow goes on from its base, and the base settles.
  predicate HistoryOk(log: seq<Entry>, n: Node) {
    InBounds(log, n) &&
    n.shadow == Replay(n.base, log[n.anchor..n.r.applied.index]) &&
    Settles(log, n.base, n.anchor, n.high)
  }

  predicate AllHistoryOk(log: seq<Entry>, c: Cluster) {
    (forall i :: 0 <= i < |c.nodes| ==> HistoryOk(log, c.nodes[i])) &&
    (forall i :: 0 <= i < |c.snapshots| ==> CopySettles(log, c.snapshots[i]))
  }

  lemma HistorySettles(log: seq<Entry>, n: Node, to: nat)
    requires HistoryOk(log, n) && to <= n.r.applied.index && FallBackSafe(log, n, to)
    ensures Settles(log, n.shadow, to, n.high)
  {
    if n.anchor <= to {
      FallBackWithin(log, n.base, n.anchor, to, n.r.applied.index, n.high);
    } else {
      FallBackBeyond(log, n.base, n.anchor, to, n.r.applied.index, n.high);
    }
  }

  lemma RestedHistory(log: seq<Entry>, n: Node)
    requires HistoryOk(log, n)
    ensures HistoryOk(log, Rested(n))
  {
    if n.r.applied.index == n.high {
      assert log[0..n.high] == log[..n.high] && log[n.high..n.high] == [];
      ReplaySplit(n.base, log, n.anchor, n.high, n.high);
    }
  }

  lemma ApplyHistory(log: seq<Entry>, n: Node, to: nat)
    requires Indexed(log) && IdsOk(log, n) && HistoryOk(log, n) && n.r.applied.index <= to <= |log|
    ensures HistoryOk(log, AppliedNode(n, log[n.r.applied.index..to]))
  {
    var chunk := log[n.r.applied.index..to];
    AppliedIds(log, n.r, to);
    ReplaySplit(n.base, log, n.anchor, n.r.applied.index, to);
    SettlesFurther(log, n.base, n.anchor, n.high, Max(n.high, to));
    RestedHistory(log, n.(r := Applied(n.r, chunk), high := Max(n.high, to), shadow := Replay(n.shadow, chunk)));
  }

  lemma FallHistory(log: seq<Entry>, n: Node, to: nat, r: Replica)
    requires HistoryOk(log, n) && to <= n.r.applied.index && FallBackSafe(log, n, to)
    requires r.durable.index == r.applied.index == to
    ensures HistoryOk(log, FellBack(n, to, r))
  {
    HistorySettles(log, n, to);
    assert log[to..to] == [];
    RestedHistory(log, if to == n.r.applied.index then n.(r := r) else n.(r := r, anchor := to, base := n.shadow));
  }

  lemma InstallHistory(log: seq<Entry>, n: Node, p: Snapshot)
    requires CopySettles(log, p)
    ensures HistoryOk(log, InstalledNode(n, p))
  {
    assert log[p.last.index..p.last.index] == [];
    RestedHistory(log, Node(Restored(n.r, p.kv, Some(p.last)), n.clock, p.high, p.last.index, p.shadow, p.shadow));
  }

  lemma NewHistory(log: seq<Entry>, n: Node)
    requires n.high == n.anchor == n.r.durable.index == n.r.applied.index == 0 && n.base == n.shadow == map[]
    ensures HistoryOk(log, n)
  {
    assert log[0..0] == log[..0] == [];
  }

  lemma FallStepHistory(log: seq<Entry>, reaps: bool, states: seq<Cluster>, steps: seq<Step>, t: nat)
    requires Indexed(log) && t < |steps| < |states| && Stepped(log, reaps, states, steps, t)
    requires (steps[t].Persist? || steps[t].Crash?) && FallSafe(log, reaps, states, steps, t)
    requires HistoryOk(log, states[t].nodes[steps[t].node])
    ensures HistoryOk(log, NextNode(log, reaps, states[t], steps[t]))
  {
    var n, s := states[t].nodes[steps[t].node], steps[t];
    if s.Persist? {
      FallHistory(log, n, s.index, Persisted(n.r, IdAt(log, s.index)));
    } else {
      FallHistory(log, n, n.r.durable.index, Reopened(n.r));
    }
  }

  lemma OtherStepHistory(log: seq<Entry>, reaps: bool, c: Cluster, s: Step)
    requires (s.Reap? || s.Tick? || s.Take? || s.Reset?) && Enabled(log, reaps, c, s)
    requires HistoryOk(log, c.nodes[s.node])
    ensures HistoryOk(log, NextNode(log, reaps, c, s))
  {
    if s.Reset? {
      NewHistory(log, NextNode(log, reaps, c, s));
    }
  }

  lemma NextHistory(log: seq<Entry>, reaps: bool, c: Cluster, s: Step)
    requires s.Apply? && Enabled(log, reaps, c, s)
    requires var n := c.nodes[s.node];
             HistoryOk(log, AppliedNode(n, log[n.r.applied.index..n.r.applied.index + s.count]))
    ensures HistoryOk(log, NextNode(log, reaps, c, s))
  {
  }

  lemma ApplyStepHistory(log: seq<Entry>, reaps: bool, c: Cluster, s: Step)
    requires Indexed(log) && s.Apply? && Enabled(log, reaps, c, s)
    requires IdsOk(log, c.nodes[s.node]) && HistoryOk(log, c.nodes[s.node])
    ensures HistoryOk(log, NextNode(log, reaps, c, s))
  {
    ApplyHistory(log, c.nodes[s.node], c.nodes[s.node].r.applied.index + s.count);
    NextHistory(log, reaps, c, s);
  }

  lemma NodeStepHistory(log: seq<Entry>, reaps: bool, states: seq<Cluster>, steps: seq<Step>, t: nat)
    requires Indexed(log) && t < |steps| < |states| && Stepped(log, reaps, states, steps, t)
    requires FallSafe(log, reaps, states, steps, t) && AllIdsOk(log, states[t]) && AllHistoryOk(log, states[t])
    ensures HistoryOk(log, NextNode(log, reaps, states[t], steps[t]))
  {
    var n, s := states[t].nodes[steps[t].node], steps[t];
    assert HistoryOk(log, n);
    if s.Apply? {
      ApplyStepHistory(log, reaps, states[t], s);
    } else if s.Persist? || s.Crash? {
      FallStepHistory(log, reaps, states, steps, t);
    } else if s.Install? {
      assert CopySettles(log, states[t].snapshots[s.snapshot]);
      InstallHistory(log, n, states[t].snapshots[s.snapshot]);
    } else {
      OtherStepHistory(log, reaps, states[t], s);
    }
  }

  lemma NodesHistory(log: seq<Entry>, nodes: seq<Node>, nodes': seq<Node>, i: nat)
    requires i < |nodes| == |nodes'| && HistoryOk(log, nodes'[i])
    requires forall j :: 0 <= j < |nodes| ==> HistoryOk(log, nodes[j]) && (j != i ==> nodes'[j] == nodes[j])
    ensures forall j :: 0 <= j < |nodes'| ==> HistoryOk(log, nodes'[j])
  {
  }

  lemma CopyHistory(log: seq<Entry>, n: Node, index: nat)
    requires Indexed(log) && HistoryOk(log, n) && index <= n.r.applied.index && FallBackSafe(log, n, index)
    ensures CopySettles(log, CopyOf(log, n, index))
  {
    HistorySettles(log, n, index);
  }

  lemma CopiesHistory(log: seq<Entry>, reaps: bool, states: seq<Cluster>, steps: seq<Step>, t: nat)
    requires Indexed(log) && t < |steps| < |states| && Stepped(log, reaps, states, steps, t)
    requires FallSafe(log, reaps, states, steps, t) && AllHistoryOk(log, states[t])
    ensures var c := Next(log, reaps, states[t], steps[t]);
            forall i :: 0 <= i < |c.snapshots| ==> CopySettles(log, c.snapshots[i])
  {
    var n, s := states[t].nodes[steps[t].node], steps[t];
    assert HistoryOk(log, n);
    if s.Take? {
      CopyHistory(log, n, s.index);
    }
  }

  lemma HistoryStep(log: seq<Entry>, reaps: bool, states: seq<Cluster>, steps: seq<Step>, t: nat)
    requires Indexed(log) && t < |steps| < |states| && Stepped(log, reaps, states, steps, t)
    requires FallSafe(log, reaps, states, steps, t) && AllIdsOk(log, states[t]) && AllHistoryOk(log, states[t])
    ensures AllHistoryOk(log, states[t + 1])
  {
    NodeStepHistory(log, reaps, states, steps, t);
    NodesHistory(log, states[t].nodes, states[t + 1].nodes, steps[t].node);
    CopiesHistory(log, reaps, states, steps, t);
  }

  lemma StartHistory(log: seq<Entry>, c: Cluster)
    requires Initial(c)
    ensures AllHistoryOk(log, c)
  {
    forall i | 0 <= i < |c.nodes| ensures HistoryOk(log, c.nodes[i]) {
      assert c.nodes[i] == Fresh(c.nodes[i].clock);
      NewHistory(log, c.nodes[i]);
    }
  }

  lemma {:induction false} RunHistory(log: seq<Entry>, reaps: bool, states: seq<Cluster>, steps: seq<Step>, t: nat)
    requires Indexed(log) && Run(log, reaps, states, steps) && FallsSafe(log, reaps, states, steps) && t < |states|
    ensures AllHistoryOk(log, states[t])
  {
    if t == 0 {
      StartHistory(log, states[0]);
    } else {
      RunHistory(log, reaps, states, steps, t - 1);
      RunInBounds(log, reaps, states, steps, t - 1);
      assert Stepped(log, reaps, states, steps, t - 1) && FallSafe(log, reaps, states, steps, t - 1);
      HistoryStep(log, reaps, states, steps, t - 1);
    }
  }

  // ---- settling, when the log passes as a whole ----

  // At every key, `kv` holds what a store that has seen the log up to `high` can hold at `index`.
  ghost predicate Reaches(log: seq<Entry>, kv: Kv, index: nat, high: nat) {
    index <= high <= |log| && forall k :: ReachesAt(log, kv, index, high, k)
  }

  predicate ReachesAt(log: seq<Entry>, kv: Kv, index: nat, high: nat, k: Bytes)
    requires high <= |log|
  {
    Place(index, At(kv, k)) in Reachable(log, k, high)
  }

  ghost predicate NodeReaches(log: seq<Entry>, n: Node) {
    Reaches(log, n.shadow, n.r.applied.index, n.high)
  }

  ghost predicate CopyReaches(log: seq<Entry>, p: Snapshot) {
    Reaches(log, p.shadow, p.last.index, p.high)
  }

  ghost predicate AllReach(log: seq<Entry>, c: Cluster) {
    (forall i :: 0 <= i < |c.nodes| ==> NodeReaches(log, c.nodes[i])) &&
    (forall i :: 0 <= i < |c.snapshots| ==> CopyReaches(log, c.snapshots[i]))
  }

  lemma ReachBack(log: seq<Entry>, kv: Kv, index: nat, high: nat, to: nat)
    requires Reaches(log, kv, index, high) && to <= index
    ensures Reaches(log, kv, to, high)
  {
    forall k ensures ReachesAt(log, kv, to, high, k) {
      assert ReachesAt(log, kv, index, high, k);
      ReachableCloses(log, k, high);
    }
  }

  lemma ReachNext(log: seq<Entry>, kv: Kv, index: nat, high: nat, k: Bytes)
    requires LogSafe(log) && index <= high <= |log| && index < |log| && ReachesAt(log, kv, index, high, k)
    ensures ReachesAt(log, Execute(kv, log[index].command), index + 1, Max(high, index + 1), k)
  {
    ExecuteAt(kv, log[index].command, k);
    ReachableCloses(log, k, high);
    if index < high {
      assert Forward(log, k, Place(index, At(kv, k))) in Reachable(log, k, high);
    } else {
      EveryKeySafe(log, k, high);
      ReachableCloses(log, k, high + 1);
      assert log[..high + 1][..high] == log[..high];
    }
  }

  lemma ReachEntry(log: seq<Entry>, kv: Kv, index: nat, high: nat)
    requires LogSafe(log) && Reaches(log, kv, index, high) && index < |log|
    ensures Reaches(log, Execute(kv, log[index].command), index + 1, Max(high, index + 1))
  {
    var next, to, top := Execute(kv, log[index].command), index + 1, Max(high, index + 1);
    forall k ensures ReachesAt(log, next, to, top, k) {
      assert ReachesAt(log, kv, index, high, k);
      ReachNext(log, kv, index, high, k);
    }
  }

  lemma ReplayEntry(log: seq<Entry>, kv: Kv, from: nat, to: nat)
    requires from < to <= |log|
    ensures Replay(kv, log[from..to]) == Execute(Replay(kv, log[from..to - 1]), log[to - 1].command)
  {
    assert log[from..to] == log[from..to - 1] + [log[to - 1]];
    ReplaySnoc(kv, log[from..to - 1], log[to - 1]);
  }

  lemma ReachLonger(log: seq<Entry>, kv: Kv, from: nat, high: nat, to: nat)
    requires LogSafe(log) && from < to <= |log|
    requires Reaches(log, Replay(kv, log[from..to - 1]), to - 1, Max(high, to - 1))
    ensures Reaches(log, Replay(kv, log[from..to]), to, Max(high, to))
  {
    ReplayEntry(log, kv, from, to);
    ReachEntry(log, Replay(kv, log[from..to - 1]), to - 1, Max(high, to - 1));
  }

  lemma {:induction false} ReachForward(log: seq<Entry>, kv: Kv, index: nat, high: nat, to: nat)
    requires LogSafe(log) && Reaches(log, kv, index, high) && index <= to <= |log|
    ensures Reaches(log, Replay(kv, log[index..to]), to, Max(high, to))
  {
    if index == to {
      assert log[index..to] == [];
    } else {
      ReachForward(log, kv, index, high, to - 1);
      ReachLonger(log, kv, index, high, to);
    }
  }

  lemma ReachTop(log: seq<Entry>, kv: Kv, high: nat)
    requires LogSafe(log) && Reaches(log, kv, high, high)
    ensures kv == Ideal(log, high)
  {
    forall k ensures At(kv, k) == At(Ideal(log, high), k) {
      assert ReachesAt(log, kv, high, high, k);
      EveryKeySafe(log, k, high);
      ReplayAt(map[], log[..high], k);
    }
    SameMap(kv, Ideal(log, high));
  }

  /** In a log that passes, whatever can be reached settles. */
  lemma ReachSettles(log: seq<Entry>, kv: Kv, index: nat, high: nat)
    requires LogSafe(log) && Reaches(log, kv, index, high)
    ensures Settles(log, kv, index, high)
  {
    ReachForward(log, kv, index, high, high);
    ReachTop(log, Replay(kv, log[index..high]), high);
  }

  lemma NewReaches(log: seq<Entry>, n: Node)
    requires n.high == n.r.applied.index == 0 && n.shadow == map[]
    ensures NodeReaches(log, n)
  {
    forall k ensures ReachesAt(log, n.shadow, 0, 0, k) {
      ReachableCloses(log, k, 0);
    }
  }

  lemma ApplyReaches(log: seq<Entry>, n: Node, to: nat)
    requires Indexed(log) && LogSafe(log) && IdsOk(log, n) && NodeReaches(log, n) && n.r.applied.index <= to <= |log|
    ensures NodeReaches(log, AppliedNode(n, log[n.r.applied.index..to]))
  {
    AppliedIds(log, n.r, to);
    ReachForward(log, n.shadow, n.r.applied.index, n.high, to);
  }

  lemma FallReaches(log: seq<Entry>, n: Node, to: nat, r: Replica)
    requires NodeReaches(log, n) && to <= n.r.applied.index && r.applied.index == to
    ensures NodeReaches(log, FellBack(n, to, r))
  {
    ReachBack(log, n.shadow, n.r.applied.index, n.high, to);
  }

  lemma FallStepReaches(log: seq<Entry>, reaps: bool, c: Cluster, s: Step)
    requires Indexed(log) && (s.Persist? || s.Crash?) && Enabled(log, reaps, c, s)
    requires IdsOk(log, c.nodes[s.node]) && NodeReaches(log, c.nodes[s.node])
    ensures NodeReaches(log, NextNode(log, reaps, c, s))
  {
    var n := c.nodes[s.node];
    if s.Persist? {
      FallReaches(log, n, s.index, Persisted(n.r, IdAt(log, s.index)));
    } else {
      FallReaches(log, n, n.r.durable.index, Reopened(n.r));
    }
  }

  lemma OtherStepReaches(log: seq<Entry>, reaps: bool, c: Cluster, s: Step)
    requires !s.Apply? && !s.Persist? && !s.Crash? && Enabled(log, reaps, c, s) && NodeReaches(log, c.nodes[s.node])
    requires s.Install? ==> CopyReaches(log, c.snapshots[s.snapshot])
    ensures NodeReaches(log, NextNode(log, reaps, c, s))
  {
    if s.Reset? {
      NewReaches(log, NextNode(log, reaps, c, s));
    }
  }

  lemma NextReaches(log: seq<Entry>, reaps: bool, c: Cluster, s: Step)
    requires s.Apply? && Enabled(log, reaps, c, s)
    requires var n := c.nodes[s.node];
             NodeReaches(log, AppliedNode(n, log[n.r.applied.index..n.r.applied.index + s.count]))
    ensures NodeReaches(log, NextNode(log, reaps, c, s))
  {
  }

  lemma ApplyStepReaches(log: seq<Entry>, reaps: bool, c: Cluster, s: Step)
    requires Indexed(log) && LogSafe(log) && s.Apply? && Enabled(log, reaps, c, s)
    requires IdsOk(log, c.nodes[s.node]) && NodeReaches(log, c.nodes[s.node])
    ensures NodeReaches(log, NextNode(log, reaps, c, s))
  {
    ApplyReaches(log, c.nodes[s.node], c.nodes[s.node].r.applied.index + s.count);
    NextReaches(log, reaps, c, s);
  }

  lemma NodeStepReaches(log: seq<Entry>, reaps: bool, c: Cluster, s: Step)
    requires Indexed(log) && LogSafe(log) && Enabled(log, reaps, c, s) && AllIdsOk(log, c) && AllReach(log, c)
    ensures NodeReaches(log, NextNode(log, reaps, c, s))
  {
    var n := c.nodes[s.node];
    assert IdsOk(log, n) && NodeReaches(log, n);
    if s.Apply? {
      ApplyStepReaches(log, reaps, c, s);
    } else if s.Persist? || s.Crash? {
      FallStepReaches(log, reaps, c, s);
    } else {
      OtherStepReaches(log, reaps, c, s);
    }
  }

  lemma NodesReach(log: seq<Entry>, nodes: seq<Node>, nodes': seq<Node>, i: nat)
    requires i < |nodes| == |nodes'| && NodeReaches(log, nodes'[i])
    requires forall j :: 0 <= j < |nodes| ==> NodeReaches(log, nodes[j]) && (j != i ==> nodes'[j] == nodes[j])
    ensures forall j :: 0 <= j < |nodes'| ==> NodeReaches(log, nodes'[j])
  {
  }

  lemma CopyReached(log: seq<Entry>, n: Node, index: nat)
    requires Indexed(log) && NodeReaches(log, n) && index <= n.r.applied.index
    ensures CopyReaches(log, CopyOf(log, n, index))
  {
    ReachBack(log, n.shadow, n.r.applied.index, n.high, index);
  }

  lemma CopiesReach(log: seq<Entry>, reaps: bool, c: Cluster, s: Step)
    requires Indexed(log) && Enabled(log, reaps, c, s) && AllReach(log, c)
    ensures forall i :: 0 <= i < |Next(log, reaps, c, s).snapshots| ==>
              CopyReaches(log, Next(log, reaps, c, s).snapshots[i])
  {
    assert NodeReaches(log, c.nodes[s.node]);
    if s.Take? {
      CopyReached(log, c.nodes[s.node], s.index);
    }
  }

  lemma ReachStep(log: seq<Entry>, reaps: bool, c: Cluster, s: Step)
    requires Indexed(log) && LogSafe(log) && Enabled(log, reaps, c, s) && AllIdsOk(log, c) && AllReach(log, c)
    ensures AllReach(log, Next(log, reaps, c, s))
  {
    NodeStepReaches(log, reaps, c, s);
    NodesReach(log, c.nodes, Next(log, reaps, c, s).nodes, s.node);
    CopiesReach(log, reaps, c, s);
  }

  lemma StartReaches(log: seq<Entry>, c: Cluster)
    requires Initial(c)
    ensures AllReach(log, c)
  {
    forall i | 0 <= i < |c.nodes| ensures NodeReaches(log, c.nodes[i]) {
      assert c.nodes[i] == Fresh(c.nodes[i].clock);
      NewReaches(log, c.nodes[i]);
    }
  }

  lemma {:induction false} RunReaches(log: seq<Entry>, reaps: bool, states: seq<Cluster>, steps: seq<Step>, t: nat)
    requires Indexed(log) && LogSafe(log) && Run(log, reaps, states, steps) && t < |states|
    ensures AllReach(log, states[t])
  {
    if t == 0 {
      StartReaches(log, states[0]);
    } else {
      RunReaches(log, reaps, states, steps, t - 1);
      RunInBounds(log, reaps, states, steps, t - 1);
      assert Stepped(log, reaps, states, steps, t - 1);
      ReachStep(log, reaps, states[t - 1], steps[t - 1]);
    }
  }

  // ---- what holds on safe runs ----

  lemma RunSettles(log: seq<Entry>, reaps: bool, states: seq<Cluster>, steps: seq<Step>, t: nat, i: nat)
    requires Indexed(log) && Run(log, reaps, states, steps) && t < |states| && i < |states[t].nodes|
    requires LogSafe(log) || FallsSafe(log, reaps, states, steps)
    ensures NodeSettles(log, states[t].nodes[i])
  {
    var n := states[t].nodes[i];
    if LogSafe(log) {
      RunReaches(log, reaps, states, steps, t);
      assert NodeReaches(log, n);
      ReachSettles(log, n.shadow, n.r.applied.index, n.high);
    } else {
      RunHistory(log, reaps, states, steps, t);
      assert HistoryOk(log, n);
      ReplaySplit(n.base, log, n.anchor, n.r.applied.index, n.high);
    }
  }

  lemma RunOk(log: seq<Entry>, reaps: bool, states: seq<Cluster>, steps: seq<Step>, t: nat, i: nat)
    requires Indexed(log) && Run(log, reaps, states, steps) && SafeRun(log, reaps, states, steps)
    requires t < |states| && i < |states[t].nodes|
    ensures NodeOk(log, reaps, states[t].nodes[i])
  {
    RunInBounds(log, reaps, states, steps, t);
    RunShadows(log, reaps, states, steps, t);
    RunSettles(log, reaps, states, steps, t, i);
    assert IdsOk(log, states[t].nodes[i]) && NodeShadows(reaps, states[t].nodes[i]);
  }

  lemma NothingDeleted(clock: nat, kv: Kv, shadow: Kv)
    requires Shadows(false, clock, kv, shadow)
    ensures kv == shadow
  {
    forall k ensures At(kv, k) == At(shadow, k) {
      assert Faded(false, clock, At(kv, k), At(shadow, k));
    }
    SameMap(kv, shadow);
  }

  // Caught up, a node's shadow is the ideal state.
  lemma CaughtUp(log: seq<Entry>, reaps: bool, n: Node)
    requires NodeOk(log, reaps, n) && n.r.applied.index == n.high
    ensures n.shadow == Ideal(log, n.high)
    ensures !reaps ==> n.r.kv == n.shadow
  {
    assert log[n.high..n.high] == [];
    if !reaps {
      NothingDeleted(n.clock, n.r.kv, n.shadow);
    }
  }

  /**
   * Convergence. At every moment of every safe run, a node that has caught up with the highest
   * index its store has seen answers every point read and every live scan, from then on, like the
   * ideal fold of the log. Without local deletion its store is that fold.
   */
  lemma Converges(log: seq<Entry>, reaps: bool, states: seq<Cluster>, steps: seq<Step>, t: nat, i: nat)
    requires Indexed(log) && Run(log, reaps, states, steps) && SafeRun(log, reaps, states, steps)
    requires t < |states| && i < |states[t].nodes|
    ensures var n := states[t].nodes[i];
            n.r.durable.index <= n.r.applied.index <= n.high <= |log| &&
            n.r.applied == IdAt(log, n.r.applied.index) &&
            (n.r.applied.index == n.high ==>
               ReadsAlike(n.r.kv, Ideal(log, n.high), n.clock) && (!reaps ==> n.r.kv == Ideal(log, n.high)))
  {
    RunOk(log, reaps, states, steps, t, i);
    var n := states[t].nodes[i];
    if n.r.applied.index == n.high {
      CaughtUp(log, reaps, n);
      ShadowReadsAlike(reaps, n.clock, n.r.kv, n.shadow);
    }
  }

  /** Two caught-up nodes at one index have deleted from one shadow. */
  lemma CommonShadow(log: seq<Entry>, reaps: bool, states: seq<Cluster>, steps: seq<Step>, t: nat, i: nat, now: nat)
    requires Indexed(log) && Run(log, reaps, states, steps) && SafeRun(log, reaps, states, steps)
    requires t < |states| && i < |states[t].nodes|
    requires var n := states[t].nodes[i]; n.r.applied.index == n.high && n.clock <= now
    ensures var n := states[t].nodes[i];
            n.high <= |log| && n.r.applied == IdAt(log, n.high) && Shadows(reaps, now, n.r.kv, Ideal(log, n.high))
  {
    RunOk(log, reaps, states, steps, t, i);
    var n := states[t].nodes[i];
    assert NodeOk(log, reaps, n);
    CaughtUp(log, reaps, n);
    ShadowLater(reaps, n.clock, now, n.r.kv, n.shadow);
  }

  /**
   * Replicas agree: caught-up nodes at one index, at any moments of a safe run, answer every point
   * read and every live scan alike, whichever of them have deleted which expired rows.
   */
  lemma NodesAgree(log: seq<Entry>, reaps: bool, states: seq<Cluster>, steps: seq<Step>,
                   t: nat, i: nat, u: nat, j: nat, now: nat)
    requires Indexed(log) && Run(log, reaps, states, steps) && SafeRun(log, reaps, states, steps)
    requires t < |states| && i < |states[t].nodes| && u < |states| && j < |states[u].nodes|
    requires var m, n := states[t].nodes[i], states[u].nodes[j];
             m.r.applied.index == m.high == n.r.applied.index == n.high && m.clock <= now && n.clock <= now
    ensures var m, n := states[t].nodes[i], states[u].nodes[j];
            m.r.applied == n.r.applied && ReadsAlike(m.r.kv, n.r.kv, now)
  {
    CommonShadow(log, reaps, states, steps, t, i, now);
    CommonShadow(log, reaps, states, steps, u, j, now);
    var m, n := states[t].nodes[i], states[u].nodes[j];
    CommonShadowReadsAlike(reaps, now, m.r.kv, n.r.kv, Ideal(log, m.high));
  }

  /** From any state a safe run reaches: applied as far as the store had seen, the log gives its fold. */
  lemma CatchUp(log: seq<Entry>, reaps: bool, n: Node, to: nat)
    requires Indexed(log) && NodeOk(log, reaps, n) && n.high <= to <= |log|
    requires reaps ==> HidesDeletions(n.clock, n.shadow, log[n.r.applied.index..to])
    ensures var end := Applied(n.r, log[n.r.applied.index..to]);
            end.applied == IdAt(log, to) && end.durable == n.r.durable &&
            Shadows(reaps, n.clock, end.kv, Ideal(log, to)) &&
            (!reaps ==> end.kv == Ideal(log, to))
  {
    var chunk := log[n.r.applied.index..to];
    AppliedIds(log, n.r, to);
    ShadowReplay(reaps, n.clock, n.r.kv, n.shadow, chunk);
    ReplaySplit(n.shadow, log, n.r.applied.index, n.high, to);
    IdealFrom(log, n.high, to);
    if !reaps {
      NothingDeleted(n.clock, Replay(n.r.kv, chunk), Ideal(log, to));
    }
  }

  // The store of `n` can be replayed from `to`: what the steps of a safe run make sure of.
  ghost predicate Replayable(log: seq<Entry>, n: Node, to: nat) {
    to <= n.r.applied.index &&
    ((HistoryOk(log, n) && FallBackSafe(log, n, to)) || (LogSafe(log) && NodeReaches(log, n)))
  }

  lemma ReplayableSettles(log: seq<Entry>, n: Node, to: nat)
    requires Replayable(log, n, to)
    ensures to <= n.high <= |log| && Settles(log, n.shadow, to, n.high)
  {
    if HistoryOk(log, n) && FallBackSafe(log, n, to) {
      HistorySettles(log, n, to);
    } else {
      ReachBack(log, n.shadow, n.r.applied.index, n.high, to);
      ReachSettles(log, n.shadow, to, n.high);
    }
  }

  /**
   * Snapshot plus tail. The copy of a node's store, whose contents may be ahead of the index it
   * is said to include, restored over anything, with the log from that index on applied at least
   * as far as the copy had seen, is the fold of the whole log, up to deletions of expired rows.
   * With the copy exactly at its index, NoFallIsSafe discharges the condition on the log.
   */
  lemma SnapshotPlusTail(log: seq<Entry>, reaps: bool, source: Node, last: nat, n: Node, to: nat)
    requires Indexed(log) && NodeOk(log, reaps, source) && source.clock <= n.clock
    requires Replayable(log, source, last) && source.high <= to <= |log|
    requires reaps ==> HidesDeletions(n.clock, source.shadow, log[last..to])
    ensures var end := Applied(Restored(n.r, source.r.kv, Some(IdAt(log, last))), log[last..to]);
            end.applied == IdAt(log, to) && end.durable == IdAt(log, last) &&
            Shadows(reaps, n.clock, end.kv, Ideal(log, to)) &&
            (!reaps ==> end.kv == Ideal(log, to))
  {
    var p := CopyOf(log, source, last);
    ReplayableSettles(log, source, last);
    InstallIds(log, n, p);
    InstallShadows(reaps, n, p);
    CatchUp(log, reaps, InstalledNode(n, p), to);
  }

  // ---- which runs are safe ----

  // The test passes for every stretch of the log, however a node came to it and left it.
  predicate ReplaySafe(log: seq<Entry>) {
    forall to, anchor, at, high :: 0 <= to <= anchor <= at <= high <= |log| ==> StretchSafe(log, to, anchor, at, high)
  }

  predicate StretchSafe(log: seq<Entry>, to: nat, anchor: nat, at: nat, high: nat)
    requires to <= anchor <= at <= high <= |log|
  {
    StableBeyond(log[to..high], anchor - to, at - anchor)
  }

  // No key is swapped by two entries. A log without CAS is one.
  predicate OneSwapLog(log: seq<Entry>) {
    forall i, j :: 0 <= i < j < |log| && log[i].command.CompareAndSwap? && log[j].command.CompareAndSwap? ==>
      log[i].command.key != log[j].command.key
  }

  /** One swap per key makes a log whose runs may replay anything. */
  lemma OneSwapReplaySafe(log: seq<Entry>)
    requires OneSwapLog(log)
    ensures ReplaySafe(log)
  {
    forall to, anchor, at, high | 0 <= to <= anchor <= at <= high <= |log|
      ensures StretchSafe(log, to, anchor, at, high)
    {
      var v := log[to..high];
      forall i | 0 <= i < |v| ensures v[i] == log[to + i] {
      }
      assert OneSwapPerKey(v);
      OneSwapPerKeyBeyond(v, anchor - to, at - anchor);
    }
  }

  // Every persist, crash and copy is at the index the node has applied: nothing is ever replayed.
  predicate StaysAhead(log: seq<Entry>, reaps: bool, states: seq<Cluster>, steps: seq<Step>, t: nat)
    requires t < |steps| < |states| && Stepped(log, reaps, states, steps, t)
  {
    var n := states[t].nodes[steps[t].node];
    match steps[t]
    case Persist(_, index) => index == n.r.applied.index
    case Crash(_) => n.r.durable.index == n.r.applied.index
    case Take(_, index) => index == n.r.applied.index
    case _ => true
  }

  predicate NeverBehind(log: seq<Entry>, reaps: bool, states: seq<Cluster>, steps: seq<Step>)
    requires Run(log, reaps, states, steps)
  {
    forall t :: 0 <= t < |steps| ==> StaysAhead(log, reaps, states, steps, t)
  }

  lemma AnyStretch(log: seq<Entry>, to: nat, anchor: nat, at: nat, high: nat)
    requires ReplaySafe(log) && to <= anchor <= at <= high <= |log|
    ensures StableBeyond(log[to..high], anchor - to, at - anchor)
  {
    assert StretchSafe(log, to, anchor, at, high);
  }

  lemma AnyStable(log: seq<Entry>, to: nat, at: nat, high: nat)
    requires ReplaySafe(log) && to <= at <= high <= |log|
    ensures Stable(log[to..high], at - to)
  {
    AnyStretch(log, to, to, at, high);
    BeyondNothing(log[to..high], at - to);
  }

  lemma ReplaySafeFalls(log: seq<Entry>, n: Node, to: nat)
    requires ReplaySafe(log) && InBounds(log, n) && to <= n.r.applied.index
    ensures FallBackSafe(log, n, to)
  {
    if n.anchor <= to {
      AnyStable(log, to, n.r.applied.index, n.high);
    } else {
      AnyStretch(log, to, n.anchor, n.r.applied.index, n.high);
    }
  }

  lemma FallsAreSafe(log: seq<Entry>, reaps: bool, states: seq<Cluster>, steps: seq<Step>, t: nat)
    requires Indexed(log) && Run(log, reaps, states, steps) && t < |steps|
    requires ReplaySafe(log) || NeverBehind(log, reaps, states, steps)
    ensures Stepped(log, reaps, states, steps, t) && FallSafe(log, reaps, states, steps, t)
  {
    assert Stepped(log, reaps, states, steps, t);
    RunInBounds(log, reaps, states, steps, t);
    var n, s := states[t].nodes[steps[t].node], steps[t];
    assert IdsOk(log, n);
    var to := match s
      case Persist(_, index) => index
      case Crash(_) => n.r.durable.index
      case Take(_, index) => index
      case _ => n.r.applied.index;
    if ReplaySafe(log) {
      ReplaySafeFalls(log, n, to);
    } else {
      assert StaysAhead(log, reaps, states, steps, t);
      NoFallIsSafe(log, n);
    }
  }

  predicate AllRaw(log: seq<Entry>) {
    forall i :: 0 <= i < |log| ==> RawExpected(log[i].command)
  }

  lemma RawHides(log: seq<Entry>, reaps: bool, states: seq<Cluster>, steps: seq<Step>)
    requires Run(log, reaps, states, steps) && (reaps ==> AllRaw(log))
    ensures HidesAll(log, reaps, states, steps)
  {
    forall t | 0 <= t < |steps| ensures Hides(log, reaps, states, steps, t) {
      assert Stepped(log, reaps, states, steps, t);
      if reaps && steps[t].Apply? {
        RawSafe(log, states[t].nodes[steps[t].node], steps[t].count);
      }
    }
  }

  lemma RawSafe(log: seq<Entry>, n: Node, count: nat)
    requires AllRaw(log) && n.r.applied.index + count <= |log|
    ensures ApplySafe(log, n, count)
  {
    var w := log[n.r.applied.index..n.r.applied.index + count];
    forall j | 0 <= j < |w| ensures HidesAt(n.clock, n.shadow, w, j) {
      assert w[j] == log[n.r.applied.index + j];
    }
  }

  /**
   * Whole families of runs are safe, however they interleave crashes, snapshots and, provided
   * every CAS expects a raw value, deletions: all runs of a log that passes the test as a whole or
   * at every stretch, and on any log all runs that never replay.
   */
  lemma RunsAreSafe(log: seq<Entry>, reaps: bool, states: seq<Cluster>, steps: seq<Step>)
    requires Indexed(log) && Run(log, reaps, states, steps) && (reaps ==> AllRaw(log))
    requires LogSafe(log) || ReplaySafe(log) || NeverBehind(log, reaps, states, steps)
    ensures SafeRun(log, reaps, states, steps)
  {
    RawHides(log, reaps, states, steps);
    if !LogSafe(log) {
      forall t | 0 <= t < |steps| ensures FallSafe(log, reaps, states, steps, t) {
        FallsAreSafe(log, reaps, states, steps, t);
      }
    }
  }

  // ---- what clients are told ----

  // Step `t` has node `n` apply the log up to `to`, at least as far as it has ever been.
  predicate FirstApply(states: seq<Cluster>, steps: seq<Step>, t: nat, n: Node, to: nat) {
    t < |steps| && t < |states| && steps[t].Apply? && steps[t].node < |states[t].nodes| &&
    states[t].nodes[steps[t].node] == n && n.r.applied.index + steps[t].count == to && n.high <= to
  }

  // A chunk that begins at `at`, behind `high`: its results from there on are those of the ideal state.
  lemma ResultsPast(log: seq<Entry>, kv: Kv, at: nat, high: nat, to: nat)
    requires at <= high <= to <= |log| && Settles(log, kv, at, high)
    ensures |Results(kv, log[at..to])| == to - at
    ensures Results(kv, log[at..to])[high - at..] == Results(Ideal(log, high), log[high..to])
  {
    assert log[at..to] == log[at..high] + log[high..to];
    ReplayConcat(kv, log[at..high], log[high..to]);
    ResultCount(kv, log[at..high]);
    ResultCount(kv, log[at..to]);
  }

  lemma {:induction false} ResultCount(kv: Kv, w: seq<Entry>)
    ensures |Results(kv, w)| == |w|
  {
    if w != [] {
      ResultCount(kv, w[..|w| - 1]);
    }
  }

  // Also when rows that have expired are missing, and nothing in the chunk can tell.
  lemma ShadowResultsPast(log: seq<Entry>, reaps: bool, clock: nat, kv: Kv, shadow: Kv, at: nat, high: nat, to: nat)
    requires at <= high <= to <= |log| && Settles(log, shadow, at, high) && Shadows(reaps, clock, kv, shadow)
    requires reaps ==> HidesDeletions(clock, shadow, log[at..to])
    ensures |Results(kv, log[at..to])| == to - at
    ensures Results(kv, log[at..to])[high - at..] == Results(Ideal(log, high), log[high..to])
  {
    ShadowReplay(reaps, clock, kv, shadow, log[at..to]);
    ResultsPast(log, shadow, at, high, to);
  }

  lemma FirstApplyOk(log: seq<Entry>, reaps: bool, states: seq<Cluster>, steps: seq<Step>, t: nat, n: Node, to: nat)
    requires Indexed(log) && Run(log, reaps, states, steps) && SafeRun(log, reaps, states, steps)
    requires FirstApply(states, steps, t, n, to)
    ensures to <= |log| && NodeSettles(log, n) && Shadows(reaps, n.clock, n.r.kv, n.shadow)
    ensures reaps ==> HidesDeletions(n.clock, n.shadow, log[n.r.applied.index..to])
  {
    RunOk(log, reaps, states, steps, t, steps[t].node);
    assert Stepped(log, reaps, states, steps, t) && Hides(log, reaps, states, steps, t);
  }

  /** On a safe run, entries applied for the first time report their ideal outcomes, also at the end of a replay. */
  lemma FirstResultsIdeal(log: seq<Entry>, reaps: bool, states: seq<Cluster>, steps: seq<Step>,
                          t: nat, n: Node, to: nat)
    requires Indexed(log) && Run(log, reaps, states, steps) && SafeRun(log, reaps, states, steps)
    requires FirstApply(states, steps, t, n, to)
    ensures var at := n.r.applied.index;
            at <= n.high <= to <= |log| && |Results(n.r.kv, log[at..to])| == to - at &&
            Results(n.r.kv, log[at..to])[n.high - at..] == Results(Ideal(log, n.high), log[n.high..to])
  {
    FirstApplyOk(log, reaps, states, steps, t, n, to);
    ShadowResultsPast(log, reaps, n.clock, n.r.kv, n.shadow, n.r.applied.index, n.high, to);
  }
}
