/**
 * Replaying a whole log. A node may go back to any earlier index any number of times before it
 * catches up again, and starts each replay with what the last one left. Which logs always end in
 * the right store? Decided key by key, by computing what a store can hold on the way.
 */
module LogTests {
  import opened ByteStrings
  import opened Commands

  // A store that has applied the log up to `index` holds `value` under the key.
  datatype Place = Place(index: nat, value: Option<Bytes>)

  function IdealValue(log: seq<Entry>, k: Bytes, h: nat): Option<Bytes>
    requires h <= |log|
  {
    Track(log[..h], k, None)
  }

  // Where the first store to reach index `h` is.
  function Top(log: seq<Entry>, k: Bytes, h: nat): Place
    requires h <= |log|
  {
    Place(h, IdealValue(log, k, h))
  }

  function Forward(log: seq<Entry>, k: Bytes, p: Place): Place
    requires p.index < |log|
  {
    Place(p.index + 1, Effect(log[p.index].command, k, p.value))
  }

  // One move further: back to any earlier index, or one entry on.
  function Spread(log: seq<Entry>, k: Bytes, h: nat, s: set<Place>): set<Place>
    requires h <= |log|
  {
    s + (set p, b | p in s && 0 <= b <= p.index :: Place(b, p.value))
      + (set p | p in s && p.index < h :: Forward(log, k, p))
  }

  // The value a command can leave under `k`, other than the one it finds.
  function Produced(c: Command, k: Bytes): Option<Bytes> {
    if c.CompareAndSwap? then Some(c.value) else Effect(c, k, None)
  }

  // Every value that can turn up, at every index.
  function Everywhere(log: seq<Entry>, k: Bytes, h: nat): set<Place>
    requires h <= |log|
  {
    set i, v | 0 <= i <= h && v in Values(log, k, h) :: Place(i, v)
  }

  function Values(log: seq<Entry>, k: Bytes, h: nat): set<Option<Bytes>>
    requires h <= |log|
  {
    {IdealValue(log, k, h)} + set i | 0 <= i < h :: Produced(log[i].command, k)
  }

  lemma ForwardWithin(log: seq<Entry>, k: Bytes, h: nat, p: Place)
    requires h <= |log| && p in Everywhere(log, k, h) && p.index < h
    ensures Forward(log, k, p) in Everywhere(log, k, h)
  {
    var c := log[p.index].command;
    EffectCases(c, k, p.value, None);
    assert Effect(c, k, p.value) == p.value || Effect(c, k, p.value) == Produced(c, k);
  }

  lemma SpreadWithin(log: seq<Entry>, k: Bytes, h: nat, s: set<Place>)
    requires h <= |log| && s <= Everywhere(log, k, h)
    ensures Spread(log, k, h, s) <= Everywhere(log, k, h)
  {
    forall p | p in s && p.index < h ensures Forward(log, k, p) in Everywhere(log, k, h) {
      ForwardWithin(log, k, h, p);
    }
  }

  lemma FewerLeft(all: set<Place>, s: set<Place>, t: set<Place>)
    requires s < t <= all
    ensures |all - t| < |all - s|
  {
    var p :| p in t && p !in s;
    assert all - t <= (all - s) - {p};
    SubsetCount(all - t, (all - s) - {p});
  }

  lemma SubsetCount(a: set<Place>, b: set<Place>)
    requires a <= b
    ensures |a| <= |b|
  {
    assert b == a + (b - a);
  }

  // Spread out until nothing is new.
  function Saturate(log: seq<Entry>, k: Bytes, h: nat, s: set<Place>): set<Place>
    requires h <= |log| && s <= Everywhere(log, k, h)
    decreases |Everywhere(log, k, h) - s|
  {
    var t := Spread(log, k, h, s);
    SpreadWithin(log, k, h, s);
    if t == s then s
    else
      FewerLeft(Everywhere(log, k, h), s, t);
      Saturate(log, k, h, t)
  }

  // What a store can hold under `k`, and where, having seen the log up to `h` and no further.
  function Reachable(log: seq<Entry>, k: Bytes, h: nat): set<Place>
    requires h <= |log|
  {
    Saturate(log, k, h, {Top(log, k, h)})
  }

  predicate KeySafe(log: seq<Entry>, k: Bytes, h: nat)
    requires h <= |log|
  {
    forall p :: p in Reachable(log, k, h) && p.index == h ==> p == Top(log, k, h)
  }

  /** The test: whenever a key some CAS names is back at the top, it holds the ideal value. */
  predicate LogSafe(log: seq<Entry>) {
    forall j, h :: 0 <= j < |log| && 0 <= h <= |log| ==> SafeAt(log, j, h)
  }

  predicate SafeAt(log: seq<Entry>, j: nat, h: nat)
    requires j < |log| && h <= |log|
  {
    log[j].command.CompareAndSwap? ==> KeySafe(log, log[j].command.key, h)
  }

  // ---- what is reachable is the least closed set with the top in it ----

  ghost predicate Closed(log: seq<Entry>, k: Bytes, h: nat, s: iset<Place>)
    requires h <= |log|
  {
    forall p :: p in s ==> MovesWithin(log, k, h, s, p)
  }

  ghost predicate MovesWithin(log: seq<Entry>, k: Bytes, h: nat, s: iset<Place>, p: Place)
    requires h <= |log|
  {
    (forall b :: 0 <= b <= p.index ==> Place(b, p.value) in s) &&
    (p.index < h ==> Forward(log, k, p) in s)
  }

  lemma {:induction false} SaturateLeast(log: seq<Entry>, k: Bytes, h: nat, s: set<Place>, t: iset<Place>)
    requires h <= |log| && s <= Everywhere(log, k, h)
    requires Closed(log, k, h, t) && forall p :: p in s ==> p in t
    ensures forall p :: p in Saturate(log, k, h, s) ==> p in t
    decreases |Everywhere(log, k, h) - s|
  {
    var u := Spread(log, k, h, s);
    SpreadWithin(log, k, h, s);
    if u != s {
      forall p | p in s ensures MovesWithin(log, k, h, t, p) {
      }
      FewerLeft(Everywhere(log, k, h), s, u);
      SaturateLeast(log, k, h, u, t);
    }
  }

  lemma {:induction false} SaturateCloses(log: seq<Entry>, k: Bytes, h: nat, s: set<Place>)
    requires h <= |log| && s <= Everywhere(log, k, h)
    ensures s <= Saturate(log, k, h, s)
    ensures Spread(log, k, h, Saturate(log, k, h, s)) == Saturate(log, k, h, s)
    decreases |Everywhere(log, k, h) - s|
  {
    var u := Spread(log, k, h, s);
    SpreadWithin(log, k, h, s);
    if u != s {
      FewerLeft(Everywhere(log, k, h), s, u);
      SaturateCloses(log, k, h, u);
    }
  }

  /** The computed set is contained in every closed set with the top in it. */
  lemma ReachableLeast(log: seq<Entry>, k: Bytes, h: nat, t: iset<Place>, p: Place)
    requires h <= |log| && Closed(log, k, h, t) && Top(log, k, h) in t && p in Reachable(log, k, h)
    ensures p in t
  {
    SaturateLeast(log, k, h, {Top(log, k, h)}, t);
  }

  /** And is one itself. */
  lemma ReachableCloses(log: seq<Entry>, k: Bytes, h: nat)
    requires h <= |log|
    ensures Top(log, k, h) in Reachable(log, k, h)
    ensures forall p, b :: p in Reachable(log, k, h) && 0 <= b <= p.index ==> Place(b, p.value) in Reachable(log, k, h)
    ensures forall p :: p in Reachable(log, k, h) && p.index < h ==> Forward(log, k, p) in Reachable(log, k, h)
  {
    SaturateCloses(log, k, h, {Top(log, k, h)});
    var s := Reachable(log, k, h);
    forall p, b | p in s && 0 <= b <= p.index ensures Place(b, p.value) in s {
      assert Place(b, p.value) in Spread(log, k, h, s);
    }
    forall p | p in s && p.index < h ensures Forward(log, k, p) in s {
      assert Forward(log, k, p) in Spread(log, k, h, s);
    }
  }

  // ---- logs that pass ----

  // No CAS on the key expects what a later one writes, as when every value carries a new version.
  predicate Versioned(log: seq<Entry>, k: Bytes) {
    forall i, j :: 0 <= i < j < |log| && Swaps(log[i].command, k) && Swaps(log[j].command, k) ==>
      log[i].command.expected != Some(log[j].command.value)
  }

  // From here, and from anywhere further back, applying the log up to `h` gives the ideal value.
  ghost predicate Settling(log: seq<Entry>, k: Bytes, h: nat, p: Place)
    requires h <= |log|
  {
    p.index <= h && forall b :: 0 <= b <= p.index ==> SettlesFrom(log, k, h, b, p.value)
  }

  predicate SettlesFrom(log: seq<Entry>, k: Bytes, h: nat, b: nat, x: Option<Bytes>)
    requires b <= h <= |log|
  {
    Track(log[b..h], k, x) == IdealValue(log, k, h)
  }

  lemma TrackFrom(log: seq<Entry>, k: Bytes, a: nat, b: nat, c: nat, x: Option<Bytes>)
    requires a <= b <= c <= |log|
    ensures Track(log[a..c], k, x) == Track(log[b..c], k, Track(log[a..b], k, x))
  {
    assert log[a..c] == log[a..b] + log[b..c];
    TrackConcat(log[a..b], log[b..c], k, x);
  }

  lemma TrackOne(log: seq<Entry>, k: Bytes, a: nat, x: Option<Bytes>)
    requires a < |log|
    ensures Track(log[a..a + 1], k, x) == Effect(log[a].command, k, x)
  {
    assert log[a..a + 1] == [log[a]];
    assert [log[a]][..0] == [];
  }

  // A swap made by entry `a` is not undone or repeated by a replay from `b`, unless an overwrite makes up for it.
  lemma SwapStays(log: seq<Entry>, k: Bytes, b: nat, a: nat)
    requires Versioned(log, k) && b <= a < |log| && Swaps(log[a].command, k)
    requires forall i :: b <= i <= a ==> !Overwrites(log[i].command, k)
    ensures Track(log[b..a + 1], k, Some(log[a].command.value)) == Some(log[a].command.value)
  {
    var w, x := log[b..a], Some(log[a].command.value);
    forall i | 0 <= i < |w| ensures w[i] == log[b + i] {
    }
    TrackIdle(w, k, x);
    TrackFrom(log, k, b, a, a + 1, x);
    TrackOne(log, k, a, x);
  }

  lemma ForwardSettles(log: seq<Entry>, k: Bytes, h: nat, p: Place, b: nat)
    requires Versioned(log, k) && h <= |log| && Settling(log, k, h, p) && b <= p.index < h
    ensures SettlesFrom(log, k, h, b, Forward(log, k, p).value)
  {
    var a, x, y := p.index, p.value, Forward(log, k, p).value;
    var w := log[b..h];
    assert SettlesFrom(log, k, h, b, x) && SettlesFrom(log, k, h, a, x);
    EffectCases(log[a].command, k, x, x);
    if i :| b <= i < h && Overwrites(log[i].command, k) {
      assert w[i - b] == log[i];
      TrackCovered(w, k, x, y);
    } else if x != y {
      SwapStays(log, k, b, a);
      TrackFrom(log, k, b, a + 1, h, y);
      TrackFrom(log, k, a, a + 1, h, x);
      TrackOne(log, k, a, x);
    }
  }

  lemma SettlingClosed(log: seq<Entry>, k: Bytes, h: nat, p: Place)
    requires Versioned(log, k) && h <= |log| && Settling(log, k, h, p)
    ensures forall b :: 0 <= b <= p.index ==> Settling(log, k, h, Place(b, p.value))
    ensures p.index < h ==> Settling(log, k, h, Forward(log, k, p))
  {
    if p.index < h {
      var q := Forward(log, k, p);
      forall b | 0 <= b <= q.index ensures SettlesFrom(log, k, h, b, q.value) {
        if b <= p.index {
          ForwardSettles(log, k, h, p, b);
        } else {
          assert SettlesFrom(log, k, h, p.index, p.value);
          TrackFrom(log, k, p.index, b, h, p.value);
          TrackOne(log, k, p.index, p.value);
        }
      }
    }
  }

  lemma {:induction false} IdealSettles(log: seq<Entry>, k: Bytes, h: nat, a: nat)
    requires Versioned(log, k) && a <= h <= |log|
    ensures Settling(log, k, h, Top(log, k, a))
  {
    if a == 0 {
      assert log[0..h] == log[..h];
    } else {
      IdealSettles(log, k, h, a - 1);
      SettlingClosed(log, k, h, Top(log, k, a - 1));
      assert log[..a][..a - 1] == log[..a - 1];
      assert Forward(log, k, Top(log, k, a - 1)) == Top(log, k, a);
    }
  }

  /** Versioned keys always come right. */
  lemma VersionedKeySafe(log: seq<Entry>, k: Bytes, h: nat)
    requires Versioned(log, k) && h <= |log|
    ensures KeySafe(log, k, h)
  {
    var t := iset p | Settling(log, k, h, p);
    forall p | p in t ensures MovesWithin(log, k, h, t, p) {
      SettlingClosed(log, k, h, p);
    }
    IdealSettles(log, k, h, h);
    forall p | p in Reachable(log, k, h) && p.index == h ensures p == Top(log, k, h) {
      ReachableLeast(log, k, h, t, p);
      assert SettlesFrom(log, k, h, h, p.value);
      assert log[h..h] == [];
    }
  }

  /** So do keys that no CAS names; the test need not look at them. */
  lemma EveryKeySafe(log: seq<Entry>, k: Bytes, h: nat)
    requires LogSafe(log) && h <= |log|
    ensures KeySafe(log, k, h)
  {
    if j :| 0 <= j < |log| && Swaps(log[j].command, k) {
      assert SafeAt(log, j, h);
    } else {
      VersionedKeySafe(log, k, h);
    }
  }

  // Version counters, keys swapped once, locks taken on absence and released by a delete.
  predicate VersionedLog(log: seq<Entry>) {
    forall i, j :: 0 <= i < j < |log| && log[i].command.CompareAndSwap? && log[j].command.CompareAndSwap? &&
                   log[i].command.key == log[j].command.key ==>
                   log[i].command.expected != Some(log[j].command.value)
  }

  /** A log in which no CAS expects what a later one writes passes. */
  lemma VersionedLogSafe(log: seq<Entry>)
    requires VersionedLog(log)
    ensures LogSafe(log)
  {
    forall j, h | 0 <= j < |log| && 0 <= h <= |log| ensures SafeAt(log, j, h) {
      if log[j].command.CompareAndSwap? {
        VersionedKeySafe(log, log[j].command.key, h);
      }
    }
  }
}
