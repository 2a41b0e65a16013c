/** The read layer (db.rs): decode what the state machine holds, and delete what has expired. */
module Db {
  import opened ByteStrings
  import opened Tables
  import opened Values
  import opened Commands
  import opened Replicas
  import opened Reaping
  import opened Scans
  import opened Pagination
  import opened StateMachine
  import opened Clusters
  import opened Convergence
  import opened Api

  datatype ReadResult = Found(payload: Option<Bytes>) | Corrupt | StoreFailed

  // A read of `raw` when the deletion, should one be due, works or does not.
  function ReadResultOf(raw: Option<Bytes>, now: nat, deletes: bool): ReadResult {
    if ReadOf(raw, now).None? then Corrupt
    else if HasExpired(raw, now) && !deletes then StoreFailed
    else Found(ReadOf(raw, now).value)
  }

  // The deletion's share of the store calls.
  function ReapCalls(raw: Option<Bytes>, now: nat): nat {
    if HasExpired(raw, now) then 3 else 0
  }

  // A whole `get`: two calls to read, three more to delete.
  function FetchResult(raw: Option<Bytes>, now: nat, calls: nat): ReadResult {
    if calls < 2 then StoreFailed else ReadResultOf(raw, now, calls >= 5)
  }

  class DLmdb {
    const stateMachine: LmdbStateMachine

    constructor (stateMachine: LmdbStateMachine)
      ensures this.stateMachine == stateMachine
    {
      this.stateMachine := stateMachine;
    }

    /** `raw` is what the store held when it was read; the deletion is a transaction of its own. */
    method DecodeAndReap(key: Bytes, raw: Option<Bytes>, now: nat, calls: nat) returns (r: ReadResult, left: nat)
      modifies stateMachine`kv
      ensures r == ReadResultOf(raw, now, calls >= 3)
      ensures raw.Some? && DecodeLive(raw.value, now) == None ==> r == Corrupt
      ensures raw.Some? && DecodeLive(raw.value, now) == Some(Expired) ==>
                r == (if calls >= 3 then Found(None) else StoreFailed) &&
                left == (if calls >= 3 then calls - 3 else 0) &&
                stateMachine.State().kv ==
                if calls >= 3 then old(stateMachine.State()).kv - {key} else old(stateMachine.State()).kv
      ensures !(raw.Some? && DecodeLive(raw.value, now) == Some(Expired)) ==>
                (ReadOf(raw, now).Some? ==> r == Found(ReadOf(raw, now).value)) &&
                left == calls && stateMachine.State() == old(stateMachine.State())
      ensures left == if calls >= ReapCalls(raw, now) then calls - ReapCalls(raw, now) else 0
      ensures stateMachine.State() == if HasExpired(raw, now) && calls >= 3 then Reaped(old(stateMachine.State()), key)
                                      else old(stateMachine.State())
    {
      if raw.None? {
        return Found(None), calls;
      }
      var decoded := DecodeLive(raw.value, now);
      match decoded
      case None => r, left := Corrupt, calls;
      case Some(Present(payload)) => r, left := Found(Some(payload)), calls;
      case Some(Expired) =>
        var ok;
        ok, left := stateMachine.DeleteLocal(key, calls);
        r := if ok then Found(None) else StoreFailed;
    }

    /** With nothing applied in between, the deletion changes no read and no live scan from now on. */
    method FetchLocal(key: Bytes, now: nat, calls: nat) returns (r: ReadResult, left: nat)
      modifies stateMachine`kv
      ensures var raw := At(old(stateMachine.State()).kv, key);
              r == FetchResult(raw, now, calls) &&
              (calls >= 2 + ReapCalls(raw, now) ==> left == calls - 2 - ReapCalls(raw, now)) &&
              stateMachine.State() == if HasExpired(raw, now) && calls >= 5 then Reaped(old(stateMachine.State()), key)
                                      else old(stateMachine.State())
      ensures calls < 2 ==> r == StoreFailed && stateMachine.State() == old(stateMachine.State())
      ensures calls == 2 || calls == 3 || calls == 4 ==>
                var raw := At(old(stateMachine.State()).kv, key);
                stateMachine.State() == old(stateMachine.State()) &&
                r == if raw.None? then Found(None)
                     else match DecodeLive(raw.value, now)
                          case None => Corrupt
                          case Some(Present(payload)) => Found(Some(payload))
                          case Some(Expired) => StoreFailed
      ensures calls >= 5 ==>
                var found := ReadOf(At(old(stateMachine.State()).kv, key), now);
                r == if found.Some? then Found(found.value) else Corrupt
      ensures Shadows(true, now, stateMachine.State().kv, old(stateMachine.State()).kv)
      ensures ReadsAlike(stateMachine.State().kv, old(stateMachine.State()).kv, now)
    {
      ghost var before := stateMachine.State().kv;
      var raw;
      raw, left := stateMachine.Get(key, calls);
      if raw.None? {
        r := StoreFailed;
      } else {
        r, left := DecodeAndReap(key, raw.value, now, left);
      }
      forall k ensures Faded(true, now, At(stateMachine.State().kv, k), At(before, k)) {
      }
      ShadowReadsAlike(true, now, stateMachine.State().kv, before);
    }

    /**
     * Key `i` is read at `clock(i)`, from what the reads before it have left. The first error ends
     * the call, and what has been deleted by then stays deleted.
     */
    method GetMulti(keys: seq<Bytes>, clock: nat -> nat, calls: nat) returns (r: Option<seq<Option<Bytes>>>)
      modifies stateMachine`kv
      ensures var before := old(stateMachine.State());
              (r.Some? ==> |r.value| == |keys| && ReadInTurn(before.kv, keys, clock, r.value)) &&
              (r.Some? ==> stateMachine.State() == before.(kv := AfterReads(before.kv, keys, clock, |keys|))) &&
              (r.None? ==>
                 exists n :: 0 <= n <= |keys| &&
                             stateMachine.State() == before.(kv := AfterReads(before.kv, keys, clock, n)))
      ensures r.None? ==>
                calls < 5 * |keys| ||
                exists i :: 0 <= i < |keys| && ReadOf(At(old(stateMachine.State()).kv, keys[i]), clock(i)).None?
    {
      ghost var before := stateMachine.State();
      var payloads: seq<Option<Bytes>> := [];
      var left: nat := calls;
      for i := 0 to |keys|
        invariant |payloads| == i && ReadInTurn(before.kv, keys, clock, payloads)
        invariant stateMachine.State() == before.(kv := AfterReads(before.kv, keys, clock, i))
        invariant calls >= 5 * |keys| ==> left >= 5 * (|keys| - i)
      {
        ghost var held, budget := stateMachine.State().kv, left;
        var one;
        one, left := FetchLocal(keys[i], clock(i), left);
        FetchInTurn(before.kv, keys, clock, i, held, one, budget);
        if !one.Found? {
          return None;
        }
        ReadOneMore(before.kv, keys, clock, payloads, one.payload);
        payloads := payloads + [one.payload];
      }
      r := Some(payloads);
    }

    /** A prefix scan against the clock; with a limit, one page as the paging results state it. */
    method ScanPrefix(prefix: Bytes, after: Option<Bytes>, limit: Option<nat>, readings: Readings, calls: nat)
      returns (r: Option<ScanResult>)
      ensures r.Some? ==> r.value.revision == stateMachine.lastAppliedIndex
      ensures r.Some? ==>
                r.value.entries ==
                if limit.Some? then Page(stateMachine.kv, prefix, after, limit.value, readings)
                else PrefixRows(stateMachine.kv, prefix, after, readings)
      ensures prefix != [] && after == Some([]) && limit != Some(0) ==> r.None?
      ensures prefix == [] ==> r.Some?
      ensures calls >= |stateMachine.kv| + 3 && (after == Some([]) ==> limit == Some(0)) ==> r.Some?
    {
      r := stateMachine.ScanPrefixBounded(prefix, after, limit, Live(readings), calls);
    }
  }

  // ---- several reads in turn ----

  // The store once the first `n` reads have deleted what they found expired.
  function AfterReads(kv: Kv, keys: seq<Bytes>, clock: nat -> nat, n: nat): Kv
    requires n <= |keys|
  {
    if n == 0 then kv
    else
      var held := AfterReads(kv, keys, clock, n - 1);
      if HasExpired(At(held, keys[n - 1]), clock(n - 1)) then held - {keys[n - 1]} else held
  }

  // Read `i` returns `payload`.
  predicate Reads(kv: Kv, keys: seq<Bytes>, clock: nat -> nat, i: nat, payload: Option<Bytes>)
    requires i < |keys|
  {
    ReadOf(At(AfterReads(kv, keys, clock, i), keys[i]), clock(i)) == Some(payload)
  }

  predicate ReadInTurn(kv: Kv, keys: seq<Bytes>, clock: nat -> nat, payloads: seq<Option<Bytes>>) {
    |payloads| <= |keys| && forall i :: 0 <= i < |payloads| ==> Reads(kv, keys, clock, i, payloads[i])
  }

  lemma ReadOneMore(kv: Kv, keys: seq<Bytes>, clock: nat -> nat, payloads: seq<Option<Bytes>>, one: Option<Bytes>)
    requires ReadInTurn(kv, keys, clock, payloads) && |payloads| < |keys|
    requires Reads(kv, keys, clock, |payloads|, one)
    ensures ReadInTurn(kv, keys, clock, payloads + [one])
  {
    var more := payloads + [one];
    forall i | 0 <= i < |more| ensures Reads(kv, keys, clock, i, more[i]) {
      assert i < |payloads| ==> more[i] == payloads[i];
    }
  }

  // One of the first `n` reads found `k` expired.
  predicate FoundExpired(kv: Kv, keys: seq<Bytes>, clock: nat -> nat, n: nat, k: Bytes)
    requires n <= |keys|
  {
    exists j :: 0 <= j < n && keys[j] == k && HasExpired(At(kv, k), clock(j))
  }

  /** The reads in turn delete exactly the keys that one of them finds expired. */
  lemma {:induction false} AfterReadsExact(kv: Kv, keys: seq<Bytes>, clock: nat -> nat, n: nat, k: Bytes)
    requires n <= |keys|
    ensures At(AfterReads(kv, keys, clock, n), k) == if FoundExpired(kv, keys, clock, n, k) then None else At(kv, k)
  {
    if n > 0 {
      AfterReadsExact(kv, keys, clock, n - 1, k);
      AfterReadsExact(kv, keys, clock, n - 1, keys[n - 1]);
      assert FoundExpired(kv, keys, clock, n, k) <==>
             FoundExpired(kv, keys, clock, n - 1, k) || (keys[n - 1] == k && HasExpired(At(kv, k), clock(n - 1)));
    }
  }

  // What the read of key `i` adds to those before it.
  lemma FetchInTurn(kv: Kv, keys: seq<Bytes>, clock: nat -> nat, i: nat, held: Kv, r: ReadResult, calls: nat)
    requires i < |keys| && held == AfterReads(kv, keys, clock, i)
    requires r == FetchResult(At(held, keys[i]), clock(i), calls)
    ensures r.Found? ==> Reads(kv, keys, clock, i, r.payload)
    ensures r.Found? ==>
              AfterReads(kv, keys, clock, i + 1) ==
              if HasExpired(At(held, keys[i]), clock(i)) && calls >= 5 then held - {keys[i]} else held
    ensures !r.Found? ==> !(HasExpired(At(held, keys[i]), clock(i)) && calls >= 5)
    ensures !r.Found? ==> calls < 5 || ReadOf(At(kv, keys[i]), clock(i)).None?
  {
    CorruptStays(kv, keys, clock, i);
  }

  lemma CorruptStays(kv: Kv, keys: seq<Bytes>, clock: nat -> nat, i: nat)
    requires i < |keys|
    ensures ReadOf(At(AfterReads(kv, keys, clock, i), keys[i]), clock(i)).None? ==>
              ReadOf(At(kv, keys[i]), clock(i)).None?
  {
    AfterReadsExact(kv, keys, clock, i, keys[i]);
  }

  // An earlier read of the key found it expired, and by a clock set back since then it is live again.
  predicate Revived(kv: Kv, keys: seq<Bytes>, clock: nat -> nat, i: nat)
    requires i < |keys|
  {
    FoundExpired(kv, keys, clock, i, keys[i]) && !HasExpired(At(kv, keys[i]), clock(i))
  }

  /** A read in turn finds what it would have found before the call, exactly when no clock set back revives it. */
  lemma ReadInTurnExact(kv: Kv, keys: seq<Bytes>, clock: nat -> nat, i: nat)
    requires i < |keys|
    ensures ReadOf(At(AfterReads(kv, keys, clock, i), keys[i]), clock(i)) == ReadOf(At(kv, keys[i]), clock(i))
            <==> !Revived(kv, keys, clock, i)
  {
    AfterReadsExact(kv, keys, clock, i, keys[i]);
  }

  /** So each does with distinct keys, and with a clock that never goes back. */
  lemma ReadsAsBefore(kv: Kv, keys: seq<Bytes>, clock: nat -> nat, payloads: seq<Option<Bytes>>, i: nat)
    requires ReadInTurn(kv, keys, clock, payloads) && i < |payloads|
    requires forall j :: 0 <= j < i && keys[j] == keys[i] ==> clock(j) <= clock(i)
    ensures ReadOf(At(kv, keys[i]), clock(i)) == Some(payloads[i])
  {
    if j :| 0 <= j < i && keys[j] == keys[i] && HasExpired(At(kv, keys[i]), clock(j)) {
      ExpiryIsPermanent(At(kv, keys[i]).value, clock(j), clock(i));
    }
    assert Reads(kv, keys, clock, i, payloads[i]);
    ReadInTurnExact(kv, keys, clock, i);
  }

  /** From the latest of the clocks on, no point read and no live scan can tell what was deleted. */
  lemma AfterReadsAlike(kv: Kv, keys: seq<Bytes>, clock: nat -> nat, n: nat, latest: nat)
    requires n <= |keys| && forall j :: 0 <= j < n ==> clock(j) <= latest
    ensures Shadows(true, latest, AfterReads(kv, keys, clock, n), kv)
    ensures ReadsAlike(AfterReads(kv, keys, clock, n), kv, latest)
  {
    forall k ensures Faded(true, latest, At(AfterReads(kv, keys, clock, n), k), At(kv, k)) {
      AfterReadsExact(kv, keys, clock, n, k);
      if j :| 0 <= j < n && keys[j] == k && HasExpired(At(kv, k), clock(j)) {
        ExpiryIsPermanent(At(kv, k).value, clock(j), latest);
      }
    }
    ShadowReadsAlike(true, latest, AfterReads(kv, keys, clock, n), kv);
  }

  /**
   * A whole `get` on a caught-up node of a safe run: the catalog's answer, never the corrupt-value
   * error, and an error only when the read or a deletion that was due fails.
   */
  lemma FetchServesCatalog(log: seq<Entry>, calls: seq<Call>, reaps: bool, states: seq<Cluster>, steps: seq<Step>,
                           t: nat, i: nat, k: Bytes, now: nat, storeCalls: nat)
    requires Indexed(log) && Proposes(log, calls)
    requires Run(log, reaps, states, steps) && SafeRun(log, reaps, states, steps)
    requires t < |states| && i < |states[t].nodes|
    requires states[t].nodes[i].r.applied.index == states[t].nodes[i].high && states[t].nodes[i].clock <= now
    ensures var n := states[t].nodes[i];
            var raw := At(n.r.kv, k);
            n.high <= |calls| &&
            FetchResult(raw, now, storeCalls) ==
            if storeCalls < 2 + ReapCalls(raw, now) then StoreFailed
            else Found(Lookup(AfterAll(map[], calls[..n.high]), k, now))
  {
    GetServesCatalog(log, calls, reaps, states, steps, t, i, k, now);
  }
}
