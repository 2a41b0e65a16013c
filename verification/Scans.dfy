/** What a scan is meant to return, stated over all rows at once. */
module Scans {
  import opened ByteStrings
  import opened Tables
  import opened Values
  import opened Commands
  import opened NextPrefixes
  import opened Reaping

  datatype Bound = Unbounded | Included(key: Bytes) | Excluded(key: Bytes)

  // None keeps every value as it is; a filter keeps those it answers for, as it answers. A filter
  // may answer differently from one row of a scan to the next, hence the key.
  type Filter = Option<(Bytes, Bytes) -> Option<Bytes>>

  function Keep(f: Filter, r: Row<Bytes>): Option<Bytes> {
    if f.None? then Some(r.value) else f.value(r.key, r.value)
  }

  // What the clock says when a scan comes to a key.
  type Readings = Bytes -> nat

  // `decode_for_scan`, which reads the clock at every row.
  function Live(readings: Readings): Filter {
    Some((k, raw) => DecodeForScan(raw, readings(k)))
  }

  // A clock that stands still during the scan.
  function Still(now: nat): Readings {
    k => now
  }

  predicate From(k: Bytes, start: Bound) {
    match start
    case Unbounded => true
    case Included(s) => AtMost(s, k)
    case Excluded(s) => Less(s, k)
  }

  // LMDB refuses a zero-length key as the place to start from.
  predicate EmptyBound(start: Bound) {
    start != Unbounded && start.key == []
  }

  predicate InScan(k: Bytes, start: Bound, end: Option<Bytes>) {
    From(k, start) && (end.Some? ==> Less(k, end.value))
  }

  // Every row in range that the filter keeps, in key order.
  function Collect(t: Table<Bytes>, f: Filter, start: Bound, end: Option<Bytes>): seq<Row<Bytes>> {
    if t == [] then []
    else
      var r := t[|t| - 1];
      var kept := Keep(f, r);
      Collect(t[..|t| - 1], f, start, end) +
      (if InScan(r.key, start, end) && kept.Some? then [Row(r.key, kept.value)] else [])
  }

  // What the scans return of it without a limit: nothing from an empty key on.
  function Listing(t: Table<Bytes>, f: Filter, start: Bound, end: Option<Bytes>): seq<Row<Bytes>> {
    if EmptyBound(start) then [] else Collect(t, f, start, end)
  }

  function First<T>(s: seq<T>, limit: Option<nat>): seq<T> {
    if limit.None? || limit.value >= |s| then s else s[..limit.value]
  }

  lemma FirstExact<T>(s: seq<T>, limit: Option<nat>)
    ensures |First(s, limit)| == if limit.Some? && limit.value < |s| then limit.value else |s|
    ensures forall i :: 0 <= i < |First(s, limit)| ==> First(s, limit)[i] == s[i]
  {
  }

  function Last<T>(s: seq<T>, limit: Option<nat>): seq<T> {
    if limit.None? || limit.value >= |s| then s else s[|s| - limit.value..]
  }

  function Reversed<T>(s: seq<T>): seq<T> {
    seq(|s|, i requires 0 <= i < |s| => s[|s| - 1 - i])
  }

  // Where LMDB's iterator starts.
  function StartRow(t: Table<Bytes>, start: Bound): (i: nat)
    ensures i <= |t|
    ensures forall j :: 0 <= j < |t| ==> (From(t[j].key, start) <==> i <= j)
  {
    match start
    case Unbounded => 0
    case Included(s) =>
      SeekSplits(t, s);
      SeekBefore(t, s);
      Seek(t, s)
    case Excluded(s) =>
      var i := Seek(t, s);
      SeekSplits(t, s);
      SeekBefore(t, s);
      Irreflexive(s);
      if i < |t| && t[i].key == s then i + 1 else i
  }

  lemma SeekBefore(t: Table<Bytes>, s: Bytes)
    ensures forall j :: 0 <= j < Seek(t, s) ==> !AtMost(s, t[j].key)
  {
    forall j | 0 <= j < Seek(t, s) ensures !AtMost(s, t[j].key) {
      NotLess(t[j].key, s);
    }
  }

  // ---- Collect holds the right rows, in order ----

  predicate Collected(t: Table<Bytes>, f: Filter, start: Bound, end: Option<Bytes>, j: nat, r: Row<Bytes>)
    requires j < |t|
  {
    t[j].key == r.key && InScan(r.key, start, end) && Keep(f, t[j]) == Some(r.value)
  }

  lemma CollectLast(t: Table<Bytes>, f: Filter, start: Bound, end: Option<Bytes>, r: Row<Bytes>)
    requires t != []
    ensures r in Collect(t, f, start, end) <==>
            r in Collect(t[..|t| - 1], f, start, end) || Collected(t, f, start, end, |t| - 1, r)
  {
    var last := t[|t| - 1];
    var added := if InScan(last.key, start, end) && Keep(f, last).Some?
                 then [Row(last.key, Keep(f, last).value)] else [];
    assert Collect(t, f, start, end) == Collect(t[..|t| - 1], f, start, end) + added;
    assert r in added <==> Collected(t, f, start, end, |t| - 1, r);
  }

  lemma {:induction false} CollectRows(t: Table<Bytes>, f: Filter, start: Bound, end: Option<Bytes>, r: Row<Bytes>)
    ensures r in Collect(t, f, start, end) <==> exists j :: 0 <= j < |t| && Collected(t, f, start, end, j, r)
  {
    if t != [] {
      var init: Table<Bytes> := t[..|t| - 1];
      CollectRows(init, f, start, end, r);
      CollectLast(t, f, start, end, r);
      if j :| 0 <= j < |init| && Collected(init, f, start, end, j, r) {
        assert Collected(t, f, start, end, j, r);
      }
      if j :| 0 <= j < |t| && Collected(t, f, start, end, j, r) {
        assert j < |init| ==> Collected(init, f, start, end, j, r);
      }
    }
  }

  /** A scan holds exactly the stored keys in range whose value the filter keeps. */
  lemma CollectExact(t: Table<Bytes>, f: Filter, start: Bound, end: Option<Bytes>, r: Row<Bytes>)
    ensures r in Collect(t, f, start, end) <==>
            r.key in View(t) && InScan(r.key, start, end) && Keep(f, Row(r.key, View(t)[r.key])) == Some(r.value)
  {
    CollectRows(t, f, start, end, r);
    if j :| 0 <= j < |t| && t[j].key == r.key {
      RowAt(t, j);
      if i :| 0 <= i < |t| && Collected(t, f, start, end, i, r) {
        RowAt(t, i);
      }
      assert Keep(f, Row(r.key, View(t)[r.key])) == Some(r.value) && InScan(r.key, start, end) ==>
             Collected(t, f, start, end, j, r);
    } else if r.key in View(t) {
      HasRow(t, r.key);
      assert false;
    }
  }

  lemma {:induction false} CollectAscends(t: Table<Bytes>, f: Filter, start: Bound, end: Option<Bytes>)
    ensures Ascending(Collect(t, f, start, end))
  {
    if t != [] {
      var init: Table<Bytes> := t[..|t| - 1];
      var c := Collect(init, f, start, end);
      CollectAscends(init, f, start, end);
      forall i | 0 <= i < |c| ensures Less(c[i].key, t[|t| - 1].key) {
        CollectRows(init, f, start, end, c[i]);
        var j :| 0 <= j < |init| && Collected(init, f, start, end, j, c[i]);
      }
    }
  }

  lemma {:induction false} CollectLength(t: Table<Bytes>, f: Filter, start: Bound, end: Option<Bytes>)
    ensures |Collect(t, f, start, end)| <= |t|
    ensures |Collect(t, f, start, end)| == |t| <==>
            forall j :: 0 <= j < |t| ==> InScan(t[j].key, start, end) && Keep(f, t[j]).Some?
  {
    if t != [] {
      CollectLength(t[..|t| - 1], f, start, end);
    }
  }

  // ---- prefixes of the table: what the scan loops rely on ----

  lemma CollectStep(t: Table<Bytes>, f: Filter, start: Bound, end: Option<Bytes>, i: nat)
    requires i < |t|
    ensures Collect(t[..i + 1], f, start, end) ==
            Collect(t[..i], f, start, end) +
            (if InScan(t[i].key, start, end) && Keep(f, t[i]).Some?
             then [Row(t[i].key, Keep(f, t[i]).value)] else [])
  {
    assert t[..i + 1][..i] == t[..i];
  }

  lemma {:induction false} CollectPrefix(t: Table<Bytes>, f: Filter, start: Bound, end: Option<Bytes>, i: nat)
    requires i <= |t|
    ensures Collect(t[..i], f, start, end) <= Collect(t, f, start, end)
    decreases |t| - i
  {
    if i == |t| {
      assert t[..i] == t;
    } else {
      CollectStep(t, f, start, end, i);
      CollectPrefix(t, f, start, end, i + 1);
    }
  }

  lemma {:induction false} CollectNothingBelow(t: Table<Bytes>, f: Filter, start: Bound, end: Option<Bytes>, i: nat)
    requires i <= StartRow(t, start)
    ensures Collect(t[..i], f, start, end) == []
  {
    if i > 0 {
      CollectNothingBelow(t, f, start, end, i - 1);
      CollectStep(t, f, start, end, i - 1);
    }
  }

  lemma {:induction false} CollectNothingAbove(t: Table<Bytes>, f: Filter, start: Bound, end: Bytes, i: nat)
    requires i <= |t|
    requires i < |t| ==> !Less(t[i].key, end)
    ensures Collect(t[..i], f, start, Some(end)) == Collect(t, f, start, Some(end))
    decreases |t| - i
  {
    if i == |t| {
      assert t[..i] == t;
    } else {
      CollectStep(t, f, start, Some(end), i);
      if i + 1 < |t| && Less(t[i + 1].key, end) {
        Transitive(t[i].key, t[i + 1].key, end);
      }
      CollectNothingAbove(t, f, start, end, i + 1);
    }
  }

  // ---- scans and point reads ----

  /** The unlimited scan lists (k, p) exactly when a point read of `k`, as the scan came to it, returns `p`. */
  lemma ScanAgreesWithGet(t: Table<Bytes>, readings: Readings, k: Bytes, p: Bytes)
    ensures Row(k, p) in Collect(t, Live(readings), Unbounded, None) <==>
            ReadOf(At(View(t), k), readings(k)) == Some(Some(p))
  {
    CollectExact(t, Live(readings), Unbounded, None, Row(k, p));
    LiveRead(At(View(t), k), readings(k), p);
  }

  lemma LiveRead(x: Option<Bytes>, now: nat, p: Bytes)
    ensures x.Some? && DecodeForScan(x.value, now) == Some(p) <==> ReadOf(x, now) == Some(Some(p))
  {
  }

  /** `len` counts every stored row: as many as the scan lists exactly when none is expired or corrupt. */
  lemma LenCoversScan(t: Table<Bytes>, now: nat)
    ensures |Collect(t, Live(Still(now)), Unbounded, None)| <= |t|
    ensures |Collect(t, Live(Still(now)), Unbounded, None)| == |t| <==>
            forall k :: k in View(t) ==> Shown(View(t)[k], now)
  {
    CollectLength(t, Live(Still(now)), Unbounded, None);
    RowsShown(t, now);
  }

  predicate Shown(raw: Bytes, now: nat) {
    !IsExpired(raw, now) && Decode(raw).Some?
  }

  // Row by row is key by key.
  lemma RowsShown(t: Table<Bytes>, now: nat)
    ensures (forall j :: 0 <= j < |t| ==> Shown(t[j].value, now)) <==>
            forall k :: k in View(t) ==> Shown(View(t)[k], now)
  {
    forall j | 0 <= j < |t| ensures t[j].key in View(t) && View(t)[t[j].key] == t[j].value {
      RowAt(t, j);
    }
    forall k | k in View(t) ensures exists j :: 0 <= j < |t| && t[j].key == k && t[j].value == View(t)[k] {
      HasRow(t, k);
    }
  }

  // ---- scans and local deletion ----

  /** The rows a scan lists, from the stored map, the two ends and the filter alone. */
  lemma ListingExact(t: Table<Bytes>, f: Filter, start: Bound, end: Option<Bytes>, k: Bytes, v: Bytes)
    ensures Row(k, v) in Listing(t, f, start, end) <==>
            k in View(t) &&
            (start.Included? ==> start.key != [] && AtMost(start.key, k)) &&
            (start.Excluded? ==> start.key != [] && Less(start.key, k)) &&
            (end.Some? ==> Less(k, end.value)) &&
            (if f.None? then v == View(t)[k] else f.value(k, View(t)[k]) == Some(v))
  {
    CollectExact(t, f, start, end, Row(k, v));
  }

  /** Two strictly ascending listings of the same rows are the same listing. */
  lemma {:induction false} AscendingUnique(a: seq<Row<Bytes>>, b: seq<Row<Bytes>>)
    requires Ascending(a) && Ascending(b)
    requires forall r :: r in a <==> r in b
    ensures a == b
  {
    if a != [] {
      assert a[0] in b;
      assert b[0] in b;
      HeadLeast(a, b);
      HeadLeast(b, a);
      NotLess(a[0].key, b[0].key);
      assert a[0] == b[0];
      forall r ensures r in a[1..] <==> r in b[1..] {
        TailRows(a, r);
        TailRows(b, r);
      }
      AscendingUnique(a[1..], b[1..]);
      assert a == [a[0]] + a[1..] && b == [b[0]] + b[1..];
    } else if b != [] {
      HeadIn(b);
      assert false;
    }
  }

  lemma HeadIn(s: seq<Row<Bytes>>)
    requires s != []
    ensures s[0] in s
  {
  }

  lemma HeadLeast(a: seq<Row<Bytes>>, b: seq<Row<Bytes>>)
    requires Ascending(a) && a != [] && b != [] && b[0] in a
    ensures a[0] == b[0] || Less(a[0].key, b[0].key)
  {
  }

  lemma TailRows(a: seq<Row<Bytes>>, r: Row<Bytes>)
    requires Ascending(a) && a != []
    ensures r in a[1..] <==> r in a && r != a[0]
  {
    Irreflexive(a[0].key);
    assert a == [a[0]] + a[1..];
  }

  lemma ShadowRowAlike(reaps: bool, clock: nat, t: Table<Bytes>, u: Table<Bytes>, readings: Readings,
                       start: Bound, end: Option<Bytes>, r: Row<Bytes>)
    requires Shadows(reaps, clock, View(t), View(u)) && clock <= readings(r.key)
    ensures r in Collect(t, Live(readings), start, end) <==> r in Collect(u, Live(readings), start, end)
  {
    CollectExact(t, Live(readings), start, end, r);
    CollectExact(u, Live(readings), start, end, r);
    FadedReadsAlike(reaps, clock, readings(r.key), At(View(t), r.key), At(View(u), r.key));
  }

  /** No live scan can tell a store with expired rows deleted from one without deletions, from then on. */
  lemma ShadowScansAlike(reaps: bool, clock: nat, t: Table<Bytes>, u: Table<Bytes>, readings: Readings,
                         start: Bound, end: Option<Bytes>)
    requires Shadows(reaps, clock, View(t), View(u)) && forall k :: clock <= readings(k)
    ensures Collect(t, Live(readings), start, end) == Collect(u, Live(readings), start, end)
  {
    var a, b := Collect(t, Live(readings), start, end), Collect(u, Live(readings), start, end);
    CollectAscends(t, Live(readings), start, end);
    CollectAscends(u, Live(readings), start, end);
    forall r ensures r in a <==> r in b {
      ShadowRowAlike(reaps, clock, t, u, readings, start, end, r);
    }
    AscendingUnique(a, b);
  }

  /** A scan without a filter can: it agrees exactly when it lists nothing or no key in its range was deleted. */
  lemma UnfilteredExact(reaps: bool, clock: nat, t: Table<Bytes>, u: Table<Bytes>, start: Bound, end: Option<Bytes>)
    requires Shadows(reaps, clock, View(t), View(u))
    ensures Listing(t, None, start, end) == Listing(u, None, start, end) <==>
            EmptyBound(start) || forall k :: InScan(k, start, end) ==> At(View(t), k) == At(View(u), k)
  {
    CollectsAlikeExact(t, u, start, end);
  }

  lemma CollectsAlikeExact(t: Table<Bytes>, u: Table<Bytes>, start: Bound, end: Option<Bytes>)
    ensures Collect(t, None, start, end) == Collect(u, None, start, end) <==>
            forall k :: InScan(k, start, end) ==> At(View(t), k) == At(View(u), k)
  {
    var a, b := Collect(t, None, start, end), Collect(u, None, start, end);
    if a == b {
      forall k | InScan(k, start, end) ensures At(View(t), k) == At(View(u), k) {
        SameRowSameValue(t, u, start, end, k);
      }
    }
    if forall k :: InScan(k, start, end) ==> At(View(t), k) == At(View(u), k) {
      CollectAscends(t, None, start, end);
      CollectAscends(u, None, start, end);
      forall r ensures r in a <==> r in b {
        CollectExact(t, None, start, end, r);
        CollectExact(u, None, start, end, r);
        assert InScan(r.key, start, end) ==> At(View(t), r.key) == At(View(u), r.key);
      }
      AscendingUnique(a, b);
    }
  }

  lemma SameRowSameValue(t: Table<Bytes>, u: Table<Bytes>, start: Bound, end: Option<Bytes>, k: Bytes)
    requires Collect(t, None, start, end) == Collect(u, None, start, end) && InScan(k, start, end)
    ensures At(View(t), k) == At(View(u), k)
  {
    if k in View(t) {
      CollectExact(t, None, start, end, Row(k, View(t)[k]));
      CollectExact(u, None, start, end, Row(k, View(t)[k]));
    } else if k in View(u) {
      CollectExact(t, None, start, end, Row(k, View(u)[k]));
      CollectExact(u, None, start, end, Row(k, View(u)[k]));
    }
  }

  ghost predicate ScanAlike(t: Table<Bytes>, u: Table<Bytes>, readings: Readings, start: Bound, end: Option<Bytes>) {
    Collect(t, Live(readings), start, end) == Collect(u, Live(readings), start, end)
  }

  // Point reads of every key and live scans of every range cannot tell the stores apart from `from` on.
  ghost predicate ReadsAlike(kv: Kv, kv': Kv, from: nat) {
    (forall k, now :: from <= now ==> ReadOf(At(kv, k), now) == ReadOf(At(kv', k), now)) &&
    (forall t: Table<Bytes>, u: Table<Bytes>, readings: Readings, start, end ::
       View(t) == kv && View(u) == kv' && (forall k :: from <= readings(k)) ==> ScanAlike(t, u, readings, start, end))
  }

  lemma ShadowReadsAlike(reaps: bool, clock: nat, kv: Kv, shadow: Kv)
    requires Shadows(reaps, clock, kv, shadow)
    ensures ReadsAlike(kv, shadow, clock)
  {
    forall k, now | clock <= now ensures ReadOf(At(kv, k), now) == ReadOf(At(shadow, k), now) {
      ShadowLater(reaps, clock, now, kv, shadow);
    }
    forall t: Table<Bytes>, u: Table<Bytes>, readings: Readings, start, end
      | View(t) == kv && View(u) == shadow && (forall k :: clock <= readings(k))
      ensures ScanAlike(t, u, readings, start, end)
    {
      ShadowScansAlike(reaps, clock, t, u, readings, start, end);
    }
  }

  /** Two stores with deletions from one shadow cannot be told apart either. */
  lemma CommonShadowReadsAlike(reaps: bool, clock: nat, kv: Kv, kv': Kv, shadow: Kv)
    requires Shadows(reaps, clock, kv, shadow) && Shadows(reaps, clock, kv', shadow)
    ensures ReadsAlike(kv, kv', clock)
  {
    forall k, now | clock <= now ensures ReadOf(At(kv, k), now) == ReadOf(At(kv', k), now) {
      ShadowLater(reaps, clock, now, kv, shadow);
      ShadowLater(reaps, clock, now, kv', shadow);
    }
    var w := TableOf(shadow);
    forall t: Table<Bytes>, u: Table<Bytes>, readings: Readings, start, end
      | View(t) == kv && View(u) == kv' && (forall k :: clock <= readings(k))
      ensures ScanAlike(t, u, readings, start, end)
    {
      ShadowScansAlike(reaps, clock, t, w, readings, start, end);
      ShadowScansAlike(reaps, clock, u, w, readings, start, end);
    }
  }

  // ---- prefix scans ----

  // Where a prefix scan starts: at the prefix, or after the page marker.
  function StartOf(prefix: Bytes, after: Option<Bytes>): Bound {
    if after.Some? then Excluded(after.value) else Included(prefix)
  }

  /** The bounds of a prefix scan hold exactly the keys with the prefix, after the page marker if any. */
  lemma PrefixScanExact(prefix: Bytes, after: Option<Bytes>, k: Bytes)
    requires after.Some? ==> AtMost(prefix, after.value)
    ensures InScan(k, StartOf(prefix, after), NextPrefix(prefix)) <==>
            prefix <= k && (after.Some? ==> Less(after.value, k))
  {
    if NextPrefix(prefix).Some? {
      SuccessorExact(prefix, k);
    } else {
      NoSuccessorExact(prefix, k);
    }
    if after.Some? && Less(after.value, k) {
      AtMostLess(prefix, after.value, k);
    }
  }

  lemma NextString(a: Bytes, k: Bytes)
    requires Less(a, k)
    ensures Less(a, a + [0]) && AtMost(a + [0], k)
  {
    assert a + [] == a;
    LessAfterFront(a, [], [0]);
    NotLess(k, a + [0]);
    if Less(k, a + [0]) {
      NothingBetween(a, k);
    }
  }

  lemma {:induction false} NothingBetween(a: Bytes, k: Bytes)
    requires Less(a, k)
    ensures !Less(k, a + [0])
  {
    if a != [] && a[0] == k[0] {
      assert (a + [0])[1..] == a[1..] + [0];
      NothingBetween(a[1..], k[1..]);
    }
  }

  // A scan from this page marker returns `k` only if `k` has the prefix. An empty marker is refused.
  predicate StaysInPrefix(prefix: Bytes, after: Bytes, k: Bytes) {
    after != [] && InScan(k, Excluded(after), NextPrefix(prefix)) ==> prefix <= k
  }

  /**
   * `after` replaces the prefix as the lower bound. The scan then keeps to the prefix, in every
   * store, exactly when the marker is refused, or at or above it, or nothing fits between the two.
   */
  lemma AfterBoundExact(prefix: Bytes, after: Bytes)
    ensures (forall k :: StaysInPrefix(prefix, after, k)) <==>
            after == [] || AtMost(prefix, after) || prefix == after + [0]
  {
    if after == [] {
    } else if AtMost(prefix, after) || prefix == after + [0] {
      forall k | InScan(k, Excluded(after), NextPrefix(prefix)) ensures prefix <= k {
        NextString(after, k);
        PrefixScanExact(prefix, if AtMost(prefix, after) then Some(after) else None, k);
      }
    } else {
      var k := StrayKey(prefix, after);
      assert !StaysInPrefix(prefix, after, k);
    }
  }

  // A key above the marker that the prefix scan lets in although it lies below the prefix.
  lemma StrayKey(prefix: Bytes, after: Bytes) returns (k: Bytes)
    requires !AtMost(prefix, after) && prefix != after + [0]
    ensures InScan(k, Excluded(after), NextPrefix(prefix)) && !(prefix <= k)
  {
    k := after + [0];
    Trichotomy(prefix, after);
    NextString(after, prefix);
    Asymmetric(k, prefix);
    if prefix <= k {
      PrefixAtMost(prefix, k);
      assert false;
    }
    if NextPrefix(prefix).Some? {
      SuccessorExact(prefix, prefix);
      Transitive(k, prefix, NextPrefix(prefix).value);
    }
  }

  // What a forward scan has kept once row `i - 1` has passed.
  function KeptAt(t: Table<Bytes>, f: Filter, start: Bound, end: Option<Bytes>, i: nat): seq<Row<Bytes>>
    requires i <= |t|
  {
    Collect(t[..i], f, start, end)
  }

  lemma KeptStart(t: Table<Bytes>, f: Filter, start: Bound, end: Option<Bytes>)
    ensures KeptAt(t, f, start, end, StartRow(t, start)) == []
  {
    CollectNothingBelow(t, f, start, end, StartRow(t, start));
  }

  lemma KeptStep(t: Table<Bytes>, f: Filter, start: Bound, end: Option<Bytes>, i: nat)
    requires StartRow(t, start) <= i < |t| && (end.Some? ==> Less(t[i].key, end.value))
    ensures var kept := Keep(f, t[i]);
            KeptAt(t, f, start, end, i + 1) ==
            KeptAt(t, f, start, end, i) + (if kept.Some? then [Row(t[i].key, kept.value)] else [])
  {
    CollectStep(t, f, start, end, i);
  }

  // A forward scan may stop at the limit, at the end bound, or at the last row.
  predicate MayStop(t: Table<Bytes>, end: Option<Bytes>, limit: Option<nat>, i: nat, kept: nat) {
    || i == |t|
    || (limit.Some? && kept >= limit.value)
    || (end.Some? && i < |t| && !Less(t[i].key, end.value))
  }

  /** And wherever it does, it has what it should. */
  lemma ScanComplete(t: Table<Bytes>, f: Filter, start: Bound, end: Option<Bytes>, limit: Option<nat>, i: nat)
    requires i <= |t|
    requires limit.Some? ==> |KeptAt(t, f, start, end, i)| <= limit.value
    requires MayStop(t, end, limit, i, |KeptAt(t, f, start, end, i)|)
    ensures First(Collect(t, f, start, end), limit) == KeptAt(t, f, start, end, i)
  {
    if i == |t| {
      assert t[..i] == t;
    } else if end.Some? && !Less(t[i].key, end.value) {
      CollectNothingAbove(t, f, start, end.value, i);
    } else {
      CollectPrefix(t, f, start, end, i);
    }
  }

  // A forward scan has come to row `i` with `entries`, and is still within the limit.
  predicate Scanning(t: Table<Bytes>, f: Filter, start: Bound, end: Option<Bytes>, limit: Option<nat>,
                     i: nat, entries: seq<Row<Bytes>>)
  {
    StartRow(t, start) <= i <= |t| && entries == KeptAt(t, f, start, end, i) &&
    (limit.Some? ==> |entries| <= limit.value)
  }

  lemma ScanStarts(t: Table<Bytes>, f: Filter, start: Bound, end: Option<Bytes>, limit: Option<nat>)
    ensures Scanning(t, f, start, end, limit, StartRow(t, start), [])
  {
    KeptStart(t, f, start, end);
  }

  lemma ScanGoesOn(t: Table<Bytes>, f: Filter, start: Bound, end: Option<Bytes>, limit: Option<nat>,
                   i: nat, entries: seq<Row<Bytes>>)
    requires Scanning(t, f, start, end, limit, i, entries) && !MayStop(t, end, limit, i, |entries|)
    ensures i < |t|
    ensures var kept := Keep(f, t[i]);
            Scanning(t, f, start, end, limit, i + 1,
                     if kept.Some? then entries + [Row(t[i].key, kept.value)] else entries)
  {
    KeptStep(t, f, start, end, i);
    assert entries + [] == entries;
  }

  lemma ScanStops(t: Table<Bytes>, f: Filter, start: Bound, end: Option<Bytes>, limit: Option<nat>,
                  i: nat, entries: seq<Row<Bytes>>)
    requires Scanning(t, f, start, end, limit, i, entries) && MayStop(t, end, limit, i, |entries|)
    ensures entries == First(Collect(t, f, start, end), limit)
  {
    ScanComplete(t, f, start, end, limit, i);
  }

  // ---- the reverse scan's window ----

  // What is left in the window once the candidates have passed through it.
  function Window<T>(s: seq<T>, limit: Option<nat>): seq<T> {
    Last(s, if limit == Some(0) then Some(1) else limit)
  }

  // One more candidate: `pop_front` if the window is full, if there is anything to pop, then `push_back`.
  function Push<T>(window: seq<T>, x: T, limit: Option<nat>): seq<T> {
    (if limit.Some? && |window| >= limit.value && window != [] then window[1..] else window) + [x]
  }

  lemma WindowPush<T>(s: seq<T>, x: T, limit: Option<nat>)
    ensures Window(s + [x], limit) == Push(Window(s, limit), x, limit)
    ensures limit.Some? ==> |Window(s, limit)| <= if limit.value == 0 then 1 else limit.value
  {
  }

  // The reverse scan's window once row `i - 1` has passed.
  function WindowAt(t: Table<Bytes>, f: Filter, start: Bytes, end: Bytes, limit: Option<nat>, i: nat): seq<Row<Bytes>>
    requires i <= |t|
  {
    Window(Collect(t[..i], f, Included(start), Some(end)), limit)
  }

  lemma WindowStep(t: Table<Bytes>, f: Filter, start: Bytes, end: Bytes, limit: Option<nat>, i: nat)
    requires StartRow(t, Included(start)) <= i < |t| && Less(t[i].key, end)
    ensures var window, kept := WindowAt(t, f, start, end, limit, i), Keep(f, t[i]);
            WindowAt(t, f, start, end, limit, i + 1) ==
            if kept.Some? then Push(window, Row(t[i].key, kept.value), limit) else window
  {
    CollectStep(t, f, Included(start), Some(end), i);
    var c, kept := Collect(t[..i], f, Included(start), Some(end)), Keep(f, t[i]);
    if kept.Some? {
      WindowPush(c, Row(t[i].key, kept.value), limit);
    } else {
      assert c + [] == c;
    }
  }

  // The reverse scan has come to row `i` with `window`.
  predicate Windowing(t: Table<Bytes>, f: Filter, start: Bytes, end: Bytes, limit: Option<nat>,
                      i: nat, window: seq<Row<Bytes>>)
  {
    StartRow(t, Included(start)) <= i <= |t| && window == WindowAt(t, f, start, end, limit, i)
  }

  lemma WindowGoesOn(t: Table<Bytes>, f: Filter, start: Bytes, end: Bytes, limit: Option<nat>,
                     i: nat, window: seq<Row<Bytes>>)
    requires Windowing(t, f, start, end, limit, i, window) && i < |t| && Less(t[i].key, end)
    ensures var kept := Keep(f, t[i]);
            Windowing(t, f, start, end, limit, i + 1,
                      if kept.Some? then Push(window, Row(t[i].key, kept.value), limit) else window)
  {
    WindowStep(t, f, start, end, limit, i);
  }

  lemma WindowStart(t: Table<Bytes>, f: Filter, start: Bytes, end: Bytes, limit: Option<nat>)
    ensures Windowing(t, f, start, end, limit, StartRow(t, Included(start)), [])
  {
    CollectNothingBelow(t, f, Included(start), Some(end), StartRow(t, Included(start)));
  }

  // What the reverse scan returns: the window over the whole listing, backwards.
  function Backwards(t: Table<Bytes>, f: Filter, start: Bytes, end: Bytes, limit: Option<nat>): seq<Row<Bytes>> {
    Reversed(Window(Listing(t, f, Included(start), Some(end)), limit))
  }

  lemma WindowDone(t: Table<Bytes>, f: Filter, start: Bytes, end: Bytes, limit: Option<nat>,
                   i: nat, window: seq<Row<Bytes>>)
    requires Windowing(t, f, start, end, limit, i, window)
    requires start != [] && (i < |t| ==> !Less(t[i].key, end))
    ensures Reversed(window) == Backwards(t, f, start, end, limit)
  {
    CollectNothingAbove(t, f, Included(start), end, i);
  }

  /** The rows come in strictly descending order of key, from the end of the forward listing. */
  lemma BackwardsExact(t: Table<Bytes>, f: Filter, start: Bytes, end: Bytes, limit: Option<nat>)
    ensures var rs, listing := Backwards(t, f, start, end, limit), Listing(t, f, Included(start), Some(end));
            (limit == None ==> |rs| == |listing|) &&
            (limit.Some? && limit.value >= 1 ==> |rs| == if limit.value < |listing| then limit.value else |listing|) &&
            (limit == Some(0) ==> |rs| == if listing == [] then 0 else 1) &&
            (forall i :: 0 <= i < |rs| ==> rs[i] == listing[|listing| - 1 - i]) &&
            (forall i, j :: 0 <= i < j < |rs| ==> Less(rs[j].key, rs[i].key))
  {
    var listing := Listing(t, f, Included(start), Some(end));
    CollectAscends(t, f, Included(start), Some(end));
    FromTheEnd(listing, limit);
    EndDescends(listing, Backwards(t, f, start, end, limit));
  }

  lemma FromTheEnd<T>(s: seq<T>, limit: Option<nat>)
    ensures var rs := Reversed(Window(s, limit));
            (limit == None ==> |rs| == |s|) &&
            (limit.Some? && limit.value >= 1 ==> |rs| == if limit.value < |s| then limit.value else |s|) &&
            (limit == Some(0) ==> |rs| == if s == [] then 0 else 1) &&
            (forall i :: 0 <= i < |rs| ==> rs[i] == s[|s| - 1 - i])
  {
  }

  lemma EndDescends(listing: seq<Row<Bytes>>, rs: seq<Row<Bytes>>)
    requires Ascending(listing) && |rs| <= |listing|
    requires forall i :: 0 <= i < |rs| ==> rs[i] == listing[|listing| - 1 - i]
    ensures forall i, j :: 0 <= i < j < |rs| ==> Less(rs[j].key, rs[i].key)
  {
    forall i, j | 0 <= i < j < |rs| ensures Less(rs[j].key, rs[i].key) {
      assert Less(listing[|listing| - 1 - j].key, listing[|listing| - 1 - i].key);
    }
  }

  lemma NothingBackwards(t: Table<Bytes>, f: Filter, end: Bytes, limit: Option<nat>)
    ensures Backwards(t, f, [], end, limit) == []
  {
    var none: seq<Row<Bytes>> := [];
    assert Window(none, limit) == [] && Reversed(none) == [];
  }

  /** The window holds the last `limit` candidates exactly when the limit is not zero or there are none. */
  lemma WindowExact<T>(s: seq<T>, limit: Option<nat>)
    ensures Reversed(Window(s, limit)) == Reversed(Last(s, limit)) <==> limit != Some(0) || s == []
    ensures s != [] ==> Reversed(Window(s, Some(0))) == [s[|s| - 1]]
  {
    assert |Reversed(Window(s, limit))| == |Window(s, limit)|;
    assert |Reversed(Last(s, limit))| == |Last(s, limit)|;
  }
}
