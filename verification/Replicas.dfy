/** One node's state machine as a value, and what each operation makes of it. */
module Replicas {
  import opened ByteStrings
  import opened Words
  import opened Commands

  datatype LogId = LogId(index: U64, term: U64)

  const ORIGIN := LogId(0, 0)

  // `kv` and `durable` are on disk; `applied` and `terms` are lost when the process ends.
  datatype Replica = Replica(kv: Kv, durable: LogId, applied: LogId, terms: map<U64, U64>)

  function AddTerms(terms: map<U64, U64>, chunk: seq<Entry>): map<U64, U64> {
    if chunk == [] then terms
    else
      var e := chunk[|chunk| - 1];
      AddTerms(terms, chunk[..|chunk| - 1])[e.index := e.term]
  }

  function IdOf(e: Entry): LogId {
    LogId(e.index, e.term)
  }

  // `apply_chunk`: the store moves, the durable index does not.
  function Applied(r: Replica, chunk: seq<Entry>): Replica {
    if chunk == [] then r
    else r.(kv := Replay(r.kv, chunk),
            applied := IdOf(chunk[|chunk| - 1]),
            terms := AddTerms(r.terms, chunk))
  }

  // `persist_last_applied` moves the in-memory index as well.
  function Persisted(r: Replica, id: LogId): Replica {
    r.(durable := id, applied := id)
  }

  // The process dies and `new` runs: only what is on disk comes back.
  function Reopened(r: Replica): Replica {
    Replica(r.kv, r.durable, r.durable, map[])
  }

  // `apply_snapshot_from_file`, with the metadata's `last_included`.
  function Restored(r: Replica, kv: Kv, last: Option<LogId>): Replica {
    match last
    case Some(id) => Replica(kv, id, id, map[])
    case None => r.(kv := kv, terms := map[])
  }

  // `delete_local`.
  function Reaped(r: Replica, k: Bytes): Replica {
    r.(kv := r.kv - {k})
  }

  // `reset`.
  function Cleared(r: Replica): Replica {
    Replica(map[], ORIGIN, ORIGIN, map[])
  }

  lemma AppliedKv(r: Replica, chunk: seq<Entry>)
    ensures Applied(r, chunk).kv == Replay(r.kv, chunk)
  {
  }

  lemma {:induction false} AddTermsConcat(terms: map<U64, U64>, a: seq<Entry>, b: seq<Entry>)
    ensures AddTerms(terms, a + b) == AddTerms(AddTerms(terms, a), b)
  {
    if b == [] {
      assert a + b == a;
    } else {
      AddTermsConcat(terms, a, b[..|b| - 1]);
      assert (a + b)[..|a + b| - 1] == a + b[..|b| - 1];
    }
  }

  // The last entry of `chunk` with index `i`.
  predicate LastWith(chunk: seq<Entry>, i: U64, j: nat) {
    j < |chunk| && chunk[j].index == i && forall l :: j < l < |chunk| ==> chunk[l].index != i
  }

  lemma {:induction false} AddTermsLast(terms: map<U64, U64>, chunk: seq<Entry>, i: U64, j: nat)
    requires LastWith(chunk, i, j)
    ensures i in AddTerms(terms, chunk) && AddTerms(terms, chunk)[i] == chunk[j].term
  {
    var last := |chunk| - 1;
    if j < last {
      assert chunk[last].index != i;
      AddTermsLast(terms, chunk[..last], i, j);
    }
  }

  lemma {:induction false} AddTermsElsewhere(terms: map<U64, U64>, chunk: seq<Entry>, i: U64)
    requires forall j :: 0 <= j < |chunk| ==> chunk[j].index != i
    ensures i in AddTerms(terms, chunk) <==> i in terms
    ensures i in terms ==> AddTerms(terms, chunk)[i] == terms[i]
  {
    if chunk != [] {
      AddTermsElsewhere(terms, chunk[..|chunk| - 1], i);
    }
  }

  /** The term cache has the term of every entry applied, and keeps what it had at other indices. */
  lemma AddTermsExact(terms: map<U64, U64>, chunk: seq<Entry>, i: U64)
    ensures forall j: nat :: LastWith(chunk, i, j) ==>
              i in AddTerms(terms, chunk) && AddTerms(terms, chunk)[i] == chunk[j].term
    ensures (forall j :: 0 <= j < |chunk| ==> chunk[j].index != i) ==>
              (i in AddTerms(terms, chunk) <==> i in terms) &&
              (i in terms ==> AddTerms(terms, chunk)[i] == terms[i])
  {
    forall j: nat | LastWith(chunk, i, j)
      ensures i in AddTerms(terms, chunk) && AddTerms(terms, chunk)[i] == chunk[j].term
    {
      AddTermsLast(terms, chunk, i, j);
    }
    if forall j :: 0 <= j < |chunk| ==> chunk[j].index != i {
      AddTermsElsewhere(terms, chunk, i);
    }
  }

  lemma AddTermsSnoc(terms: map<U64, U64>, chunk: seq<Entry>, i: nat)
    requires i < |chunk|
    ensures AddTerms(terms, chunk[..i + 1]) == AddTerms(terms, chunk[..i])[chunk[i].index := chunk[i].term]
  {
    assert chunk[..i + 1][..i] == chunk[..i];
  }

  /** One chunk or two: the same node, index, terms and results. */
  lemma ChunkingIrrelevant(r: Replica, a: seq<Entry>, b: seq<Entry>)
    ensures Applied(r, a + b) == Applied(Applied(r, a), b)
    ensures Results(r.kv, a + b) == Results(r.kv, a) + Results(Applied(r, a).kv, b)
  {
    ReplayConcat(r.kv, a, b);
    AddTermsConcat(r.terms, a, b);
    if b == [] {
      assert a + b == a;
    } else if a == [] {
      assert a + b == b;
    }
  }
}
