/**
 * The ordered byte-key table the program keeps in LMDB: rows in strictly ascending key order.
 * A table is a value, so a write transaction is a working copy of it that is either stored back
 * (commit) or forgotten (abort).
 */
module Tables {
  import opened ByteStrings

  datatype Row<+V> = Row(key: Bytes, value: V)

  ghost predicate Ascending<V>(rows: seq<Row<V>>) {
    forall i, j :: 0 <= i < j < |rows| ==> Less(rows[i].key, rows[j].key)
  }

  type Table<V(!new)> = rows: seq<Row<V>> | Ascending(rows) witness []

  // What the table means: a finite map.
  ghost function View<V(!new)>(t: Table<V>): (m: map<Bytes, V>)
    ensures forall r :: r in t <==> r.key in m && m[r.key] == r.value
  {
    DistinctKeys(t);
    map r | r in t :: r.key := r.value
  }

  lemma DistinctKeys<V(!new)>(t: Table<V>)
    ensures forall i, j :: 0 <= i < |t| && 0 <= j < |t| && t[i].key == t[j].key ==> i == j
  {
    forall i, j | 0 <= i < |t| && 0 <= j < |t| && t[i].key == t[j].key
      ensures i == j
    {
      Irreflexive(t[i].key);
    }
  }

  // The number of rows whose key is below `k`, by scanning from the front.
  function Seek<V(!new)>(t: Table<V>, k: Bytes): (i: nat)
    ensures i <= |t|
    ensures forall j :: 0 <= j < i ==> Less(t[j].key, k)
    ensures forall j :: i <= j < |t| ==> !Less(t[j].key, k)
  {
    if t == [] then 0
    else if Less(t[|t| - 1].key, k) then
      AllBelow(t, k);
      |t|
    else Seek(t[..|t| - 1], k)
  }

  lemma AllBelow<V(!new)>(t: Table<V>, k: Bytes)
    requires t != [] && Less(t[|t| - 1].key, k)
    ensures forall j :: 0 <= j < |t| ==> Less(t[j].key, k)
  {
    forall j | 0 <= j < |t| - 1 ensures Less(t[j].key, k) {
      Transitive(t[j].key, t[|t| - 1].key, k);
    }
  }

  // Everything from the seek position on is at `k` or above it.
  lemma SeekSplits<V(!new)>(t: Table<V>, k: Bytes)
    ensures forall j :: Seek(t, k) <= j < |t| ==> AtMost(k, t[j].key)
    ensures forall j :: Seek(t, k) < j < |t| ==> Less(k, t[j].key)
  {
    var i := Seek(t, k);
    forall j | i <= j < |t| ensures AtMost(k, t[j].key) {
      NotLess(t[j].key, k);
    }
    forall j | i < j < |t| ensures Less(k, t[j].key) {
      NotLess(t[i].key, k);
      AtMostLess(k, t[i].key, t[j].key);
    }
  }

  function Get<V(!new)>(t: Table<V>, k: Bytes): Option<V> {
    var i := Seek(t, k);
    if i < |t| && t[i].key == k then Some(t[i].value) else None
  }

  function Put<V(!new)>(t: Table<V>, k: Bytes, v: V): Table<V> {
    var i := Seek(t, k);
    var rest := if i < |t| && t[i].key == k then i + 1 else i;
    SeekSplits(t, k);
    var r := t[..i] + [Row(k, v)] + t[rest..];
    r
  }

  // The table without rows `i` to `j - 1`.
  function Cut<V(!new)>(t: Table<V>, i: nat, j: nat): Table<V>
    requires i <= j <= |t|
  {
    var r := t[..i] + t[j..];
    r
  }

  function Delete<V(!new)>(t: Table<V>, k: Bytes): Table<V> {
    var i := Seek(t, k);
    if i < |t| && t[i].key == k then Cut(t, i, i + 1) else t
  }

  // Deletes the keys in `[lo, hi)`; without `hi`, everything from `lo` on.
  function DeleteRange<V(!new)>(t: Table<V>, lo: Bytes, hi: Option<Bytes>): Table<V> {
    var i := Seek(t, lo);
    var j := if hi.None? then |t| else Seek(t, hi.value);
    if i <= j then Cut(t, i, j) else t
  }

  // ---- the operations on the map ----

  function At<V(!new)>(m: map<Bytes, V>, k: Bytes): Option<V> {
    if k in m then Some(m[k]) else None
  }

  lemma GetView<V(!new)>(t: Table<V>, k: Bytes)
    ensures Get(t, k) == At(View(t), k)
  {
    var i := Seek(t, k);
    SeekSplits(t, k);
    Irreflexive(k);
    if k in View(t) {
      assert Row(k, View(t)[k]) in t;
    }
  }

  lemma PutRows<V(!new)>(t: Table<V>, k: Bytes, v: V)
    ensures Row(k, v) in Put(t, k, v)
    ensures forall r: Row<V> :: r.key != k ==> (r in Put(t, k, v) <==> r in t)
  {
    var i := Seek(t, k);
    SeekSplits(t, k);
    var u := Put(t, k, v);
    assert u[i] == Row(k, v);
    forall r: Row<V> | r.key != k ensures r in u <==> r in t {
      assert t == t[..i] + t[i..];
      if i < |t| && t[i].key == k {
        assert t == t[..i] + [t[i]] + t[i + 1..];
      }
    }
  }

  lemma PutView<V(!new)>(t: Table<V>, k: Bytes, v: V)
    ensures View(Put(t, k, v)) == View(t)[k := v]
  {
    PutRows(t, k, v);
    var u := Put(t, k, v);
    var m, n := View(u), View(t)[k := v];
    forall k' ensures At(m, k') == At(n, k') {
      SameAt(t, u, k, k');
    }
    SameMap(m, n);
  }

  // If two tables hold the same rows away from `k`, their maps agree away from `k`.
  lemma SameAt<V(!new)>(t: Table<V>, u: Table<V>, k: Bytes, k': Bytes)
    requires forall r: Row<V> :: r.key != k ==> (r in u <==> r in t)
    ensures k' != k ==> At(View(u), k') == At(View(t), k')
  {
    if k' != k {
      if k' in View(t) {
        assert Row(k', View(t)[k']) in u;
      }
      if k' in View(u) {
        assert Row(k', View(u)[k']) in t;
      }
    }
  }

  lemma SameMap<V(!new)>(m: map<Bytes, V>, n: map<Bytes, V>)
    requires forall k :: At(m, k) == At(n, k)
    ensures m == n
  {
    forall k ensures k in m <==> k in n {
      assert At(m, k) == At(n, k);
    }
    forall k | k in m ensures m[k] == n[k] {
      assert At(m, k) == At(n, k);
    }
  }

  // A row's key leads to its value.
  lemma RowAt<V(!new)>(t: Table<V>, i: nat)
    requires i < |t|
    ensures At(View(t), t[i].key) == Some(t[i].value)
  {
    assert t[i] in t;
  }

  lemma NoRowAt<V(!new)>(t: Table<V>, k: Bytes)
    requires forall i :: 0 <= i < |t| ==> t[i].key != k
    ensures At(View(t), k) == None
  {
    if k in View(t) {
      HasRow(t, k);
      assert false;
    }
  }

  lemma HasRow<V(!new)>(t: Table<V>, k: Bytes)
    requires k in View(t)
    ensures exists i :: 0 <= i < |t| && t[i].key == k
  {
    assert Row(k, View(t)[k]) in t;
  }

  lemma CutRow<V(!new)>(t: Table<V>, i: nat, j: nat, x: nat)
    requires i <= j <= |t| && x < |t|
    ensures At(View(t), t[x].key) == Some(t[x].value)
    ensures At(View(Cut(t, i, j)), t[x].key) == if i <= x < j then None else Some(t[x].value)
  {
    var u := Cut(t, i, j);
    RowAt(t, x);
    if x < i {
      assert u[x] == t[x];
      RowAt(u, x);
    } else if j <= x {
      assert u[x - (j - i)] == t[x];
      RowAt(u, x - (j - i));
    } else {
      DistinctKeys(t);
      NoRowAt(u, t[x].key);
    }
  }

  lemma CutView<V(!new)>(t: Table<V>, i: nat, j: nat, k: Bytes)
    requires i <= j <= |t|
    ensures At(View(Cut(t, i, j)), k) ==
            if exists x :: i <= x < j && t[x].key == k then None else At(View(t), k)
  {
    var u := Cut(t, i, j);
    if x :| 0 <= x < |t| && t[x].key == k {
      CutRow(t, i, j, x);
      DistinctKeys(t);
    } else {
      NoRowAt(t, k);
      NoRowAt(u, k);
    }
  }

  lemma DeleteAt<V(!new)>(t: Table<V>, k: Bytes, k': Bytes)
    ensures At(View(Delete(t, k)), k') == if k' == k then None else At(View(t), k')
  {
    var i := Seek(t, k);
    GetView(t, k);
    if i < |t| && t[i].key == k {
      CutView(t, i, i + 1, k');
      assert (exists x :: i <= x < i + 1 && t[x].key == k') <==> t[i].key == k';
    }
  }

  lemma DeleteView<V(!new)>(t: Table<V>, k: Bytes)
    ensures View(Delete(t, k)) == View(t) - {k}
  {
    var m, n := View(Delete(t, k)), View(t) - {k};
    forall k' ensures At(m, k') == At(n, k') {
      DeleteAt(t, k, k');
    }
    SameMap(m, n);
  }

  predicate InDeleteRange(k: Bytes, lo: Bytes, hi: Option<Bytes>) {
    !Less(k, lo) && (hi.None? || Less(k, hi.value))
  }

  lemma DeleteRangeView<V(!new)>(t: Table<V>, lo: Bytes, hi: Option<Bytes>, k: Bytes)
    ensures At(View(DeleteRange(t, lo, hi)), k) == if InDeleteRange(k, lo, hi) then None else At(View(t), k)
  {
    var i := Seek(t, lo);
    var j := if hi.None? then |t| else Seek(t, hi.value);
    if i <= j {
      CutView(t, i, j, k);
    }
    if x :| 0 <= x < |t| && t[x].key == k {
      assert InDeleteRange(k, lo, hi) <==> i <= x < j;
    } else {
      NoRowAt(t, k);
    }
  }

  /** Every map is some table's. */
  ghost function TableOf<V(!new)>(m: map<Bytes, V>): (t: Table<V>)
    ensures View(t) == m
    decreases m.Keys
  {
    if m == map[] then
      assert View<V>([]) == m;
      []
    else
      var k :| k in m;
      var rest := TableOf(m - {k});
      PutView(rest, k, m[k]);
      assert (m - {k})[k := m[k]] == m;
      Put(rest, k, m[k])
  }
}
