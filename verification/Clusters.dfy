/**
 * A cluster as a state machine: nodes apply one committed log, persist their index now and then,
 * crash, reopen, take and install snapshots, reset, and delete expired rows on their own.
 */
module Clusters {
  import opened ByteStrings
  import opened Tables
  import opened Commands
  import opened Replicas
  import opened Reaping

  /**
   * A node and its history. `high` is the highest log index whose effects the store has seen,
   * `shadow` what the store would be had the node never deleted anything on its own. While the
   * node is behind `high`, `anchor` is the index it last fell back to and `base` its shadow then.
   */
  datatype Node = Node(r: Replica, clock: nat, high: nat, anchor: nat, base: Kv, shadow: Kv)

  datatype Snapshot = Snapshot(kv: Kv, last: LogId, clock: nat, high: nat, shadow: Kv)

  datatype Cluster = Cluster(nodes: seq<Node>, snapshots: seq<Snapshot>)

  datatype Step =
    | Apply(node: nat, count: nat)
    | Persist(node: nat, index: nat)
    | Crash(node: nat)
    | Reap(node: nat, key: Bytes)
    | Tick(node: nat, clock: nat)
    | Take(node: nat, index: nat)
    | Install(node: nat, snapshot: nat)
    | Reset(node: nat)

  // Raft's committed log: entry `i` carries index `i + 1`.
  predicate Indexed(log: seq<Entry>) {
    forall i :: 0 <= i < |log| ==> log[i].index == i + 1
  }

  // The ideal state after the first `n` entries.
  function Ideal(log: seq<Entry>, n: nat): Kv
    requires n <= |log|
  {
    Replay(map[], log[..n])
  }

  function IdAt(log: seq<Entry>, n: nat): LogId
    requires n <= |log|
  {
    if n == 0 then ORIGIN else IdOf(log[n - 1])
  }

  function Max(a: nat, b: nat): nat {
    if a < b then b else a
  }

  function Fresh(clock: nat): Node {
    Node(Replica(map[], ORIGIN, ORIGIN, map[]), clock, 0, 0, map[], map[])
  }

  predicate Initial(c: Cluster) {
    c.snapshots == [] && forall i :: 0 <= i < |c.nodes| ==> c.nodes[i] == Fresh(c.nodes[i].clock)
  }

  // What the program and its host ensure about each step.
  predicate Enabled(log: seq<Entry>, reaps: bool, c: Cluster, s: Step) {
    s.node < |c.nodes| &&
    var n := c.nodes[s.node];
    match s
    case Apply(_, count) => n.r.applied.index + count <= |log|
    case Persist(_, index) => index <= n.r.applied.index && index <= |log|
    case Crash(_) => true
    case Reap(_, k) => reaps && HasExpired(At(n.r.kv, k), n.clock)
    case Tick(_, t) => n.clock <= t
    case Take(_, index) => index <= n.r.applied.index && index <= |log|
    case Install(_, i) => i < |c.snapshots| && c.snapshots[i].clock <= n.clock
    case Reset(_) => true
  }

  // Caught up, a node's past no longer matters.
  function Rested(n: Node): Node {
    if n.r.applied.index == n.high then n.(anchor := 0, base := map[]) else n
  }

  // The node goes on from index `to`, behind or at the one it had applied.
  function FellBack(n: Node, to: nat, r: Replica): Node {
    Rested(if to == n.r.applied.index then n.(r := r) else n.(r := r, anchor := to, base := n.shadow))
  }

  function AppliedNode(n: Node, chunk: seq<Entry>): Node {
    Rested(n.(r := Applied(n.r, chunk),
              high := Max(n.high, n.r.applied.index + |chunk|),
              shadow := Replay(n.shadow, chunk)))
  }

  // `generate_snapshot_data`: the whole store, whatever index it is said to include.
  function CopyOf(log: seq<Entry>, n: Node, last: nat): Snapshot
    requires last <= |log|
  {
    Snapshot(n.r.kv, IdAt(log, last), n.clock, n.high, n.shadow)
  }

  function InstalledNode(n: Node, p: Snapshot): Node {
    Rested(Node(Restored(n.r, p.kv, Some(p.last)), n.clock, p.high, p.last.index, p.shadow, p.shadow))
  }

  function NextNode(log: seq<Entry>, reaps: bool, c: Cluster, s: Step): Node
    requires Enabled(log, reaps, c, s)
  {
    var n := c.nodes[s.node];
    var at := n.r.applied.index;
    match s
    case Apply(_, count) => AppliedNode(n, log[at..at + count])
    case Persist(_, index) => FellBack(n, index, Persisted(n.r, IdAt(log, index)))
    case Crash(_) => FellBack(n, n.r.durable.index, Reopened(n.r))
    case Reap(_, k) => n.(r := Reaped(n.r, k))
    case Tick(_, t) => n.(clock := t)
    case Take(_, _) => n
    case Install(_, i) => InstalledNode(n, c.snapshots[i])
    case Reset(_) => Node(Cleared(n.r), n.clock, 0, 0, map[], map[])
  }

  function Next(log: seq<Entry>, reaps: bool, c: Cluster, s: Step): Cluster
    requires Enabled(log, reaps, c, s)
  {
    var n := c.nodes[s.node];
    Cluster(c.nodes[s.node := NextNode(log, reaps, c, s)],
            if s.Take? then c.snapshots + [CopyOf(log, n, s.index)]
            else c.snapshots)
  }

  // ---- runs ----

  predicate Stepped(log: seq<Entry>, reaps: bool, states: seq<Cluster>, steps: seq<Step>, i: nat)
    requires i < |steps| < |states|
  {
    Enabled(log, reaps, states[i], steps[i]) && states[i + 1] == Next(log, reaps, states[i], steps[i])
  }

  // `states` is the run of `steps` from its first state, every step enabled.
  predicate Run(log: seq<Entry>, reaps: bool, states: seq<Cluster>, steps: seq<Step>) {
    |states| == |steps| + 1 && Initial(states[0]) &&
    forall i :: 0 <= i < |steps| ==> Stepped(log, reaps, states, steps, i)
  }

  /** What a step does to its node's store and indices is what the operation it stands for does. */
  lemma StepIsOperation(log: seq<Entry>, reaps: bool, c: Cluster, s: Step)
    requires Enabled(log, reaps, c, s)
    ensures var r, next := c.nodes[s.node].r, NextNode(log, reaps, c, s).r;
            next == match s
                    case Apply(_, count) => Applied(r, log[r.applied.index..r.applied.index + count])
                    case Persist(_, index) => Persisted(r, IdAt(log, index))
                    case Crash(_) => Reopened(r)
                    case Reap(_, k) => Reaped(r, k)
                    case Install(_, i) => Restored(r, c.snapshots[i].kv, Some(c.snapshots[i].last))
                    case Reset(_) => Cleared(r)
                    case _ => r
  {
  }

  /** Nothing else changes: other nodes, earlier copies, and the clock but for a tick; a copy has the whole store. */
  lemma StepFrame(log: seq<Entry>, reaps: bool, c: Cluster, s: Step)
    requires Enabled(log, reaps, c, s)
    ensures var next := Next(log, reaps, c, s);
            |next.nodes| == |c.nodes| &&
            (forall i :: 0 <= i < |c.nodes| && i != s.node ==> next.nodes[i] == c.nodes[i]) &&
            next.nodes[s.node] == NextNode(log, reaps, c, s) &&
            c.snapshots <= next.snapshots && |next.snapshots| == |c.snapshots| + (if s.Take? then 1 else 0) &&
            (s.Take? ==>
               var p, n := next.snapshots[|c.snapshots|], c.nodes[s.node];
               p.kv == n.r.kv && p.last == IdAt(log, s.index) && p.clock == n.clock && p.high == n.high)
    ensures var n, next := c.nodes[s.node], NextNode(log, reaps, c, s);
            next.clock == (if s.Tick? then s.clock else n.clock) &&
            next.high == match s
                         case Apply(_, count) => Max(n.high, n.r.applied.index + count)
                         case Install(_, i) => c.snapshots[i].high
                         case Reset(_) => 0
                         case _ => n.high
  {
  }

  // ---- indices ----

  // Indices never pass one another or the log.
  predicate InBounds(log: seq<Entry>, n: Node) {
    n.anchor <= n.r.durable.index <= n.r.applied.index <= n.high <= |log|
  }

  predicate IdsOk(log: seq<Entry>, n: Node) {
    InBounds(log, n) &&
    n.r.applied == IdAt(log, n.r.applied.index) &&
    n.r.durable == IdAt(log, n.r.durable.index)
  }

  predicate CopyIdsOk(log: seq<Entry>, p: Snapshot) {
    p.last.index <= p.high <= |log| && p.last == IdAt(log, p.last.index)
  }

  predicate AllIdsOk(log: seq<Entry>, c: Cluster) {
    (forall i :: 0 <= i < |c.nodes| ==> IdsOk(log, c.nodes[i])) &&
    (forall i :: 0 <= i < |c.snapshots| ==> CopyIdsOk(log, c.snapshots[i]))
  }

  lemma AppliedIds(log: seq<Entry>, r: Replica, to: nat)
    requires Indexed(log) && r.applied.index <= to <= |log| && r.applied == IdAt(log, r.applied.index)
    ensures var r' := Applied(r, log[r.applied.index..to]);
            r'.applied == IdAt(log, to) && r'.applied.index == to && r'.durable == r.durable &&
            r'.kv == Replay(r.kv, log[r.applied.index..to])
  {
    AppliedKv(r, log[r.applied.index..to]);
  }

  lemma ApplyIds(log: seq<Entry>, n: Node, to: nat)
    requires Indexed(log) && IdsOk(log, n) && n.r.applied.index <= to <= |log|
    ensures IdsOk(log, AppliedNode(n, log[n.r.applied.index..to]))
  {
    AppliedIds(log, n.r, to);
  }

  lemma FallIds(log: seq<Entry>, n: Node, to: nat, r: Replica)
    requires Indexed(log) && IdsOk(log, n) && to <= n.r.applied.index && r.durable == r.applied == IdAt(log, to)
    ensures IdsOk(log, FellBack(n, to, r))
  {
  }

  lemma InstallIds(log: seq<Entry>, n: Node, p: Snapshot)
    requires CopyIdsOk(log, p)
    ensures IdsOk(log, InstalledNode(n, p))
  {
  }

  lemma FallStepIds(log: seq<Entry>, reaps: bool, c: Cluster, s: Step)
    requires Indexed(log) && (s.Persist? || s.Crash?) && Enabled(log, reaps, c, s) && IdsOk(log, c.nodes[s.node])
    ensures IdsOk(log, NextNode(log, reaps, c, s))
  {
    var n := c.nodes[s.node];
    if s.Persist? {
      FallIds(log, n, s.index, Persisted(n.r, IdAt(log, s.index)));
    } else {
      FallIds(log, n, n.r.durable.index, Reopened(n.r));
    }
  }

  lemma OtherStepIds(log: seq<Entry>, reaps: bool, c: Cluster, s: Step)
    requires !s.Apply? && !s.Persist? && !s.Crash? && Enabled(log, reaps, c, s) && IdsOk(log, c.nodes[s.node])
    requires s.Install? ==> CopyIdsOk(log, c.snapshots[s.snapshot])
    ensures IdsOk(log, NextNode(log, reaps, c, s))
  {
  }

  lemma NodeIds(log: seq<Entry>, reaps: bool, c: Cluster, s: Step)
    requires Indexed(log) && Enabled(log, reaps, c, s) && IdsOk(log, c.nodes[s.node])
    requires s.Install? ==> CopyIdsOk(log, c.snapshots[s.snapshot])
    ensures IdsOk(log, NextNode(log, reaps, c, s))
  {
    if s.Apply? {
      ApplyIds(log, c.nodes[s.node], c.nodes[s.node].r.applied.index + s.count);
    } else if s.Persist? || s.Crash? {
      FallStepIds(log, reaps, c, s);
    } else {
      OtherStepIds(log, reaps, c, s);
    }
  }

  lemma NodesIds(log: seq<Entry>, nodes: seq<Node>, nodes': seq<Node>, i: nat)
    requires i < |nodes| == |nodes'| && IdsOk(log, nodes'[i])
    requires forall j :: 0 <= j < |nodes| ==> IdsOk(log, nodes[j]) && (j != i ==> nodes'[j] == nodes[j])
    ensures forall j :: 0 <= j < |nodes'| ==> IdsOk(log, nodes'[j])
  {
  }

  lemma IdsStep(log: seq<Entry>, reaps: bool, c: Cluster, s: Step)
    requires Indexed(log) && Enabled(log, reaps, c, s) && AllIdsOk(log, c)
    ensures AllIdsOk(log, Next(log, reaps, c, s))
  {
    NodeIds(log, reaps, c, s);
    NodesIds(log, c.nodes, Next(log, reaps, c, s).nodes, s.node);
  }

  lemma StartIds(log: seq<Entry>, c: Cluster)
    requires Initial(c)
    ensures AllIdsOk(log, c)
  {
    forall i | 0 <= i < |c.nodes| ensures IdsOk(log, c.nodes[i]) {
      assert c.nodes[i] == Fresh(c.nodes[i].clock);
    }
  }

  // An index past the first entry comes with the term the log has there.
  predicate CarriesTerm(log: seq<Entry>, id: LogId) {
    id.index <= |log| && id.term == if id.index == 0 then 0 else log[id.index - 1].term
  }

  /** On every run the applied and durable indices of nodes, and those of snapshots, carry their entries' terms. */
  lemma RunCarriesTerms(log: seq<Entry>, reaps: bool, states: seq<Cluster>, steps: seq<Step>, t: nat)
    requires Indexed(log) && Run(log, reaps, states, steps) && t < |states|
    ensures forall i :: 0 <= i < |states[t].nodes| ==>
              CarriesTerm(log, states[t].nodes[i].r.applied) && CarriesTerm(log, states[t].nodes[i].r.durable)
    ensures forall i :: 0 <= i < |states[t].snapshots| ==> CarriesTerm(log, states[t].snapshots[i].last)
  {
    RunInBounds(log, reaps, states, steps, t);
    forall i | 0 <= i < |states[t].nodes|
      ensures CarriesTerm(log, states[t].nodes[i].r.applied) && CarriesTerm(log, states[t].nodes[i].r.durable)
    {
      assert IdsOk(log, states[t].nodes[i]);
    }
    forall i | 0 <= i < |states[t].snapshots| ensures CarriesTerm(log, states[t].snapshots[i].last) {
      assert CopyIdsOk(log, states[t].snapshots[i]);
    }
  }

  /** Anchor, durable, applied and highest index stay in that order, and name entries of the log, on every run. */
  lemma {:induction false} RunInBounds(log: seq<Entry>, reaps: bool, states: seq<Cluster>, steps: seq<Step>, t: nat)
    requires Indexed(log) && Run(log, reaps, states, steps) && t < |states|
    ensures AllIdsOk(log, states[t])
  {
    if t == 0 {
      StartIds(log, states[0]);
    } else {
      RunInBounds(log, reaps, states, steps, t - 1);
      assert Stepped(log, reaps, states, steps, t - 1);
      IdsStep(log, reaps, states[t - 1], steps[t - 1]);
    }
  }
}
