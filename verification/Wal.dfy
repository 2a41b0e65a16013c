/** The write-ahead log over LMDB (storage_engine.rs): entries under eight-byte big-endian keys. */
module Wal {
  import opened ByteStrings
  import opened Words
  import opened Tables
  import opened Replicas
  import opened WalSpec

  const KEY_HARD_STATE := "hard_state"
  const KEY_PURGE_BOUNDARY := "purge_boundary"

  // Hard state and boundary share one table; each has its own encoding.
  datatype MetaValue = HardStateValue(hard: HardState) | BoundaryValue(boundary: LogId)

  type MetaTable = map<string, MetaValue>

  // Every entry sits under its own index.
  ghost predicate Keyed(t: Table<WalEntry>) {
    forall j :: 0 <= j < |t| ==> t[j].key == ToBe(t[j].value.index)
  }

  // The table as an integer-indexed map.
  ghost function EntriesOf(t: Table<WalEntry>): Entries
    requires Keyed(t)
  {
    DistinctKeys(t);
    map j | 0 <= j < |t| :: t[j].value.index := t[j].value
  }

  lemma RowEntry(t: Table<WalEntry>, j: nat)
    requires Keyed(t) && j < |t|
    ensures t[j].value.index in EntriesOf(t) && EntriesOf(t)[t[j].value.index] == t[j].value
  {
    DistinctKeys(t);
  }

  lemma KeyHoldsIndex(t: Table<WalEntry>, j: nat)
    requires Keyed(t) && j < |t|
    ensures |t[j].key| == 8 && FromBe(t[j].key) == t[j].value.index
  {
    BeIsomorphism(t[j].value.index, t[j].value.index);
  }

  lemma EntriesNumbered(t: Table<WalEntry>)
    requires Keyed(t)
    ensures Numbered(EntriesOf(t))
  {
  }

  lemma EntryRow(t: Table<WalEntry>, i: U64) returns (j: nat)
    requires Keyed(t) && i in EntriesOf(t)
    ensures j < |t| && t[j].value == EntriesOf(t)[i] && t[j].value.index == i
  {
    j :| 0 <= j < |t| && t[j].value.index == i;
    RowEntry(t, j);
  }

  lemma EntriesAt(t: Table<WalEntry>, i: U64)
    requires Keyed(t)
    ensures At(View(t), ToBe(i)) == if i in EntriesOf(t) then Some(EntriesOf(t)[i]) else None
  {
    if i in EntriesOf(t) {
      var j := EntryRow(t, i);
      RowAt(t, j);
    } else {
      forall j | 0 <= j < |t| ensures t[j].key != ToBe(i) {
        RowEntry(t, j);
        BeIsomorphism(t[j].value.index, i);
      }
      NoRowAt(t, ToBe(i));
    }
  }

  lemma SameEntries(t: Table<WalEntry>, m: Entries)
    requires Keyed(t)
    requires forall i: U64 :: At(View(t), ToBe(i)) == if i in m then Some(m[i]) else None
    ensures EntriesOf(t) == m
  {
    forall i: U64 ensures i in EntriesOf(t) <==> i in m {
      EntriesAt(t, i);
    }
    forall i | i in m ensures EntriesOf(t)[i] == m[i] {
      EntriesAt(t, i);
    }
  }

  lemma PutKeyed(t: Table<WalEntry>, e: WalEntry)
    requires Keyed(t)
    ensures Keyed(Put(t, ToBe(e.index), e))
  {
  }

  lemma PutAt(t: Table<WalEntry>, e: WalEntry, i: U64)
    requires Keyed(t)
    ensures var m := EntriesOf(t)[e.index := e];
            At(View(Put(t, ToBe(e.index), e)), ToBe(i)) == if i in m then Some(m[i]) else None
  {
    PutView(t, ToBe(e.index), e);
    EntriesAt(t, i);
    BeIsomorphism(i, e.index);
  }

  lemma PutEntry(t: Table<WalEntry>, e: WalEntry)
    requires Keyed(t)
    ensures Keyed(Put(t, ToBe(e.index), e))
    ensures EntriesOf(Put(t, ToBe(e.index), e)) == EntriesOf(t)[e.index := e]
  {
    PutKeyed(t, e);
    var u, m := Put(t, ToBe(e.index), e), EntriesOf(t)[e.index := e];
    forall i: U64 ensures At(View(u), ToBe(i)) == if i in m then Some(m[i]) else None {
      PutAt(t, e, i);
    }
    SameEntries(u, m);
  }

  lemma RowOrder(t: Table<WalEntry>, i: nat, j: nat)
    requires Keyed(t) && i < |t| && j < |t|
    ensures i < j <==> t[i].value.index < t[j].value.index
  {
    BeIsomorphism(t[i].value.index, t[j].value.index);
    BeIsomorphism(t[j].value.index, t[i].value.index);
    if i < j {
      assert Less(t[i].key, t[j].key);
    } else if j < i {
      assert Less(t[j].key, t[i].key);
    }
  }

  // The indices a range deletion leaves.
  predicate Kept(i: U64, lo: U64, hi: Option<U64>) {
    i < lo || (hi.Some? && hi.value <= i)
  }

  function KeptOf(m: Entries, lo: U64, hi: Option<U64>): Entries {
    map i | i in m && Kept(i, lo, hi) :: m[i]
  }

  function KeyOf(i: Option<U64>): Option<Bytes> {
    if i.Some? then Some(ToBe(i.value)) else None
  }

  lemma KeptByKey(i: U64, lo: U64, hi: Option<U64>)
    ensures Kept(i, lo, hi) <==> !InDeleteRange(ToBe(i), ToBe(lo), KeyOf(hi))
  {
    BeIsomorphism(i, lo);
    if hi.Some? {
      BeIsomorphism(i, hi.value);
    }
  }

  lemma DeleteKeyed(t: Table<WalEntry>, lo: Bytes, hi: Option<Bytes>)
    requires Keyed(t)
    ensures Keyed(DeleteRange(t, lo, hi))
  {
  }

  lemma DeletedAt(t: Table<WalEntry>, lo: U64, hi: Option<U64>, i: U64)
    requires Keyed(t)
    ensures var m := KeptOf(EntriesOf(t), lo, hi);
            At(View(DeleteRange(t, ToBe(lo), KeyOf(hi))), ToBe(i)) == if i in m then Some(m[i]) else None
  {
    EntriesAt(t, i);
    DeleteRangeView(t, ToBe(lo), KeyOf(hi), ToBe(i));
    KeptByKey(i, lo, hi);
  }

  /** Deleting a key range is deleting the index range. */
  lemma DeleteEntries(t: Table<WalEntry>, lo: U64, hi: Option<U64>)
    requires Keyed(t)
    ensures Keyed(DeleteRange(t, ToBe(lo), KeyOf(hi)))
    ensures EntriesOf(DeleteRange(t, ToBe(lo), KeyOf(hi))) == KeptOf(EntriesOf(t), lo, hi)
  {
    DeleteKeyed(t, ToBe(lo), KeyOf(hi));
    var u := DeleteRange(t, ToBe(lo), KeyOf(hi));
    var m := KeptOf(EntriesOf(t), lo, hi);
    forall i: U64 ensures At(View(u), ToBe(i)) == if i in m then Some(m[i]) else None {
      DeletedAt(t, lo, hi, i);
    }
    SameEntries(u, m);
  }

  // What `purge` deletes.
  lemma DeletePrefix(t: Table<WalEntry>, end: U64)
    requires Keyed(t)
    ensures var u := DeleteRange(t, ToBe(0), KeyOf(Some(end)));
            Keyed(u) && EntriesOf(u) == FromOn(EntriesOf(t), end)
  {
    DeleteEntries(t, 0, Some(end));
    assert KeptOf(EntriesOf(t), 0, Some(end)) == FromOn(EntriesOf(t), end);
  }

  // What `truncate` deletes.
  lemma DeleteSuffix(t: Table<WalEntry>, from: U64)
    requires Keyed(t)
    ensures var u := DeleteRange(t, ToBe(from), KeyOf(None));
            Keyed(u) && EntriesOf(u) == Below(EntriesOf(t), from)
  {
    DeleteEntries(t, from, None);
    assert KeptOf(EntriesOf(t), from, None) == Below(EntriesOf(t), from);
  }

  /** The last key holds the greatest index. */
  lemma LastIsGreatest(t: Table<WalEntry>)
    requires Keyed(t)
    ensures Greatest(EntriesOf(t).Keys) == if t == [] then 0 else t[|t| - 1].value.index
  {
    if t != [] {
      var n := |t| - 1;
      RowEntry(t, n);
      forall i | i in EntriesOf(t) ensures i <= t[n].value.index {
        var j := EntryRow(t, i);
        RowOrder(t, j, n);
      }
    }
  }

  // The index in the last key, zero without one: what `new` and `truncate` read back.
  function TailIndex(t: Table<WalEntry>): U64 {
    if t != [] && |t[|t| - 1].key| == 8 then FromBe(t[|t| - 1].key) else 0
  }

  lemma TailIsGreatest(t: Table<WalEntry>)
    requires Keyed(t)
    ensures TailIndex(t) == Greatest(EntriesOf(t).Keys)
  {
    LastIsGreatest(t);
    if t != [] {
      var last := t[|t| - 1].value.index;
      BeIsomorphism(last, last);
    }
  }

  class LmdbWal {
    // on disk
    var log: Table<WalEntry>
    var meta: MetaTable

    // in memory
    var lastIndex: U64

    ghost predicate Valid()
      reads this
    {
      Keyed(log) &&
      (KEY_HARD_STATE in meta ==> meta[KEY_HARD_STATE].HardStateValue?) &&
      (KEY_PURGE_BOUNDARY in meta ==> meta[KEY_PURGE_BOUNDARY].BoundaryValue?)
    }

    ghost function State(): WalState
      requires Valid()
      reads this
    {
      WalState(EntriesOf(log),
               if KEY_PURGE_BOUNDARY in meta then Some(meta[KEY_PURGE_BOUNDARY].boundary) else None,
               if KEY_HARD_STATE in meta then Some(meta[KEY_HARD_STATE].hard) else None,
               lastIndex)
    }

    /** A new environment. */
    constructor Empty()
      ensures Valid() && State() == EMPTY_WAL
    {
      log, meta, lastIndex := [], map[], 0;
    }

    /** `LmdbStorageEngine::new` over an existing one: the cache comes from the last key. */
    constructor Reopen(last: LmdbWal)
      requires last.Valid()
      ensures Valid() && State() == WalNext(last.State(), ReopenOp)
    {
      log, meta := last.log, last.meta;
      lastIndex := TailIndex(last.log);
      TailIsGreatest(last.log);
    }

    method PersistEntries(entries: seq<WalEntry>, calls: nat) returns (ok: bool)
      requires Valid()
      modifies this
      ensures Valid()
      ensures ok <==> entries == [] || calls >= |entries| + 2
      ensures State() == if ok then WalNext(old(State()), PersistOp(entries)) else old(State())
    {
      if entries == [] {
        return true;
      }
      var maxIndex: U64 := 0;
      var txn := log;
      if calls == 0 {
        return false;
      }
      for i := 0 to |entries|
        invariant i < calls
        invariant log == old(log) && meta == old(meta) && lastIndex == old(lastIndex)
        invariant Keyed(txn) && EntriesOf(txn) == PutAll(EntriesOf(log), entries[..i])
        invariant maxIndex == MaxIndex(entries[..i])
      {
        if i + 1 == calls {
          return false;
        }
        assert entries[..i + 1][..i] == entries[..i];
        PutEntry(txn, entries[i]);
        txn := Put(txn, ToBe(entries[i].index), entries[i]);
        maxIndex := if maxIndex < entries[i].index then entries[i].index else maxIndex;
      }
      assert entries[..|entries|] == entries;
      if calls == |entries| + 1 {
        return false;
      }
      log := txn;
      lastIndex := if lastIndex < maxIndex then maxIndex else lastIndex;
      return true;
    }

    /** Decoding what is found is one more call that may fail. */
    method Entry(index: U64, calls: nat) returns (r: Option<Option<WalEntry>>)
      requires Valid()
      ensures r == if calls < 2 || (index in State().entries && calls < 3) then None
                   else Some(if index in State().entries then Some(State().entries[index]) else None)
    {
      if calls < 2 {
        return None;
      }
      GetView(log, ToBe(index));
      EntriesAt(log, index);
      var stored := Get(log, ToBe(index));
      if stored.Some? && calls < 3 {
        return None;
      }
      return Some(stored);
    }

    /**
     * Two calls to open, one for each row and one to decode it. Under Valid the "invalid log key
     * length" error does not occur.
     */
    method GetEntries(start: U64, end: U64, calls: nat) returns (r: Option<seq<WalEntry>>)
      requires Valid()
      ensures var listed := Listed(State().entries, start, end);
              (r.Some? ==> r.value == listed && calls >= 2 + 2 * |listed|) &&
              (calls >= 3 + 2 * |listed| ==> r.Some?)
      ensures Numbered(State().entries)
    {
      if calls < 2 {
        return None;
      }
      var entries: seq<WalEntry> := [];
      var left: nat := calls - 2;
      var i := Seek(log, ToBe(start));
      ghost var m := EntriesOf(log);
      ghost var next: int := start;
      EntriesNumbered(log);
      SeekByIndex(log, start);
      while i < |log|
        invariant i <= |log| && Divides(log, i, next) && Listing(m, start, end, next, entries)
        invariant left + 2 + 2 * |entries| == calls
      {
        if left == 0 {
          return None;
        }
        ListingStep(log, m, i, start, end, next, entries);
        if |log[i].key| != 8 {
          return None;
        }
        var index := FromBe(log[i].key);
        if index > end {
          return Some(entries);
        }
        if left == 1 {
          return None;
        }
        left := left - 2;
        entries := entries + [log[i].value];
        next := index + 1;
        i := i + 1;
      }
      ListingDone(log, m, start, end, next, entries);
      return Some(entries);
    }

    method Purge(cutoff: LogId, calls: nat) returns (ok: bool)
      requires Valid()
      modifies this`log, this`meta
      ensures Valid()
      ensures ok <==> calls >= 4
      ensures State() == if ok then WalNext(old(State()), PurgeOp(cutoff)) else old(State())
      ensures ok ==> State().boundary == Some(cutoff)
    {
      var start: U64 := 0;
      var end := SaturatingSucc(cutoff.index);
      if calls < 2 {
        return false;
      }
      var txn := DeleteRange(log, ToBe(start), KeyOf(Some(end)));
      DeletePrefix(log, end);
      if calls < 3 {
        return false;
      }
      var metaTxn := meta[KEY_PURGE_BOUNDARY := BoundaryValue(cutoff)];
      if calls < 4 {
        return false;
      }
      log, meta := txn, metaTxn;
      DistinctNames();
      return true;
    }

    method Truncate(fromIndex: U64, calls: nat) returns (ok: bool)
      requires Valid()
      modifies this`log, this`lastIndex
      ensures Valid()
      ensures ok <==> calls >= 4
      ensures State() == if ok then WalNext(old(State()), TruncateOp(fromIndex)) else old(State())
      ensures ok ==> forall i :: i in State().entries <==> i in old(State()).entries && i < fromIndex
    {
      if calls < 2 {
        return false;
      }
      var txn := DeleteRange(log, ToBe(fromIndex), KeyOf(None));
      DeleteSuffix(log, fromIndex);
      if calls < 3 {
        return false;
      }
      var newLast := TailIndex(txn);
      TailIsGreatest(txn);
      if calls < 4 {
        return false;
      }
      log, lastIndex := txn, newLast;
      return true;
    }

    method LoadPurgeBoundary(calls: nat) returns (r: Option<Option<LogId>>)
      requires Valid()
      ensures r == if calls < 2 || (State().boundary.Some? && calls < 3) then None else Some(State().boundary)
    {
      if calls < 2 || (KEY_PURGE_BOUNDARY in meta && calls < 3) {
        return None;
      }
      r := Some(if KEY_PURGE_BOUNDARY in meta then Some(meta[KEY_PURGE_BOUNDARY].boundary) else None);
    }

    /** Only the log is cleared: hard state and purge boundary outlive a reset. */
    method Reset(calls: nat) returns (ok: bool)
      requires Valid()
      modifies this`log, this`lastIndex
      ensures Valid()
      ensures ok <==> calls >= 3
      ensures State() == if ok then WalNext(old(State()), ResetOp) else old(State())
      ensures ok ==> log == [] && lastIndex == 0
    {
      if calls < 3 {
        return false;
      }
      log, lastIndex := [], 0;
      return true;
    }

    /** Serialising is the first of the calls that may fail. */
    method SaveHardState(hard: HardState, calls: nat) returns (ok: bool)
      requires Valid()
      modifies this`meta
      ensures Valid()
      ensures ok <==> calls >= 4
      ensures State() == if ok then WalNext(old(State()), SaveOp(hard)) else old(State())
      ensures ok ==> State().hard == Some(hard)
    {
      if calls < 4 {
        return false;
      }
      DistinctNames();
      meta := meta[KEY_HARD_STATE := HardStateValue(hard)];
      return true;
    }

    method LoadHardState(calls: nat) returns (r: Option<Option<HardState>>)
      requires Valid()
      ensures r == if calls < 2 || (State().hard.Some? && calls < 3) then None else Some(State().hard)
    {
      if calls < 2 || (KEY_HARD_STATE in meta && calls < 3) {
        return None;
      }
      r := Some(if KEY_HARD_STATE in meta then Some(meta[KEY_HARD_STATE].hard) else None);
    }
  }

  lemma DistinctNames()
    ensures KEY_HARD_STATE != KEY_PURGE_BOUNDARY
  {
    assert KEY_HARD_STATE[0] != KEY_PURGE_BOUNDARY[0];
  }

  // ---- rows and indices, for the range scan ----

  // Rows before `i` have indices below `next`, the others do not.
  ghost predicate Divides(t: Table<WalEntry>, i: nat, next: int) {
    forall j :: 0 <= j < |t| ==> (i <= j <==> next <= t[j].value.index)
  }

  lemma SeekByIndex(t: Table<WalEntry>, n: U64)
    requires Keyed(t)
    ensures Divides(t, Seek(t, ToBe(n)), n)
  {
    forall j | 0 <= j < |t| ensures Seek(t, ToBe(n)) <= j <==> n <= t[j].value.index {
      BeIsomorphism(t[j].value.index, n);
    }
  }

  // The listing from `next` on starts with row `i`, unless that row is already past the end.
  lemma ListedRow(t: Table<WalEntry>, i: nat, next: int, end: U64)
    requires Keyed(t) && i < |t| && Divides(t, i, next)
    ensures var m, e := EntriesOf(t), t[i].value;
            Divides(t, i + 1, e.index + 1) &&
            Listed(m, next, end) == if e.index > end then [] else [e] + Listed(m, e.index + 1, end)
  {
    var m, e := EntriesOf(t), t[i].value;
    RowEntry(t, i);
    forall j | 0 <= j < |t| ensures i + 1 <= j <==> e.index + 1 <= t[j].value.index {
      RowOrder(t, i, j);
    }
    forall k | k in m ensures !(next <= k < e.index) {
      var j := EntryRow(t, k);
      RowOrder(t, j, i);
    }
    ListedGap(m, next, e.index, end);
  }

  lemma NothingFrom(t: Table<WalEntry>, next: int, end: U64)
    requires Keyed(t) && Divides(t, |t|, next)
    ensures Listed(EntriesOf(t), next, end) == []
  {
    forall k | k in EntriesOf(t) ensures k < next {
      var j := EntryRow(t, k);
    }
    if next <= end + 1 {
      ListedGap(EntriesOf(t), next, end + 1, end);
    }
  }

  // What has been collected, followed by what is listed from `next` on, is the listing.
  ghost predicate Listing(m: Entries, start: U64, end: U64, next: int, done: seq<WalEntry>) {
    Listed(m, start, end) == done + Listed(m, next, end)
  }

  lemma ListingStep(t: Table<WalEntry>, m: Entries, i: nat, start: U64, end: U64, next: int, done: seq<WalEntry>)
    requires Keyed(t) && m == EntriesOf(t) && i < |t|
    requires Divides(t, i, next) && Listing(m, start, end, next, done)
    ensures var e := t[i].value;
            |t[i].key| == 8 && FromBe(t[i].key) == e.index &&
            Divides(t, i + 1, e.index + 1) &&
            (e.index > end ==> Listed(m, start, end) == done) &&
            (e.index <= end ==> Listing(m, start, end, e.index + 1, done + [e]))
  {
    var e := t[i].value;
    KeyHoldsIndex(t, i);
    ListedRow(t, i, next, end);
    if e.index <= end {
      Regroup(done, e, Listed(m, e.index + 1, end));
    } else {
      assert Listed(m, next, end) == [];
    }
  }

  lemma Regroup(done: seq<WalEntry>, e: WalEntry, rest: seq<WalEntry>)
    ensures done + ([e] + rest) == done + [e] + rest
  {
  }

  lemma ListingDone(t: Table<WalEntry>, m: Entries, start: U64, end: U64, next: int, done: seq<WalEntry>)
    requires Keyed(t) && m == EntriesOf(t) && Divides(t, |t|, next) && Listing(m, start, end, next, done)
    ensures Listed(m, start, end) == done
  {
    NothingFrom(t, next, end);
    assert done + [] == done;
  }
}
