/** Local deletion of expired rows: when the rest of the system can and cannot tell. */
module Reaping {
  import opened ByteStrings
  import opened Words
  import opened Tables
  import opened Values
  import opened Commands

  predicate HasExpired(x: Option<Bytes>, now: nat) {
    x.Some? && IsExpired(x.value, now)
  }

  // A point read of a stored value: a payload, nothing, or (outer None) the corrupt-value error.
  function ReadOf(x: Option<Bytes>, now: nat): Option<Option<Bytes>> {
    match x
    case None => Some(None)
    case Some(raw) =>
      match DecodeLive(raw, now)
      case None => None
      case Some(Expired) => Some(None)
      case Some(Present(payload)) => Some(Some(payload))
  }

  /** A point read fails exactly on what does not decode, and finds nothing without a value or past its expiry only. */
  lemma ReadExact(x: Option<Bytes>, now: nat)
    ensures ReadOf(x, now) == None <==> x.Some? && Decode(x.value) == None
    ensures ReadOf(x, now) == Some(None) <==>
            x == None || exists ts: U64, payload :: ts <= now && Decode(x.value) == Some(Ttl(ts, payload))
    ensures forall payload ::
              ReadOf(x, now) == Some(Some(payload)) <==>
              x.Some? && (Decode(x.value) == Some(Raw(payload)) ||
                          exists ts: U64 :: ts > now && Decode(x.value) == Some(Ttl(ts, payload)))
  {
    if x.Some? && Decode(x.value).Some? {
      match Decode(x.value).value
      case Raw(_) =>
      case Ttl(ts, payload) => assert Decode(x.value) == Some(Ttl(ts, payload));
    }
  }

  // `y` is `x`, or `x` has expired and a node that reaps has deleted it.
  predicate Faded(reaps: bool, now: nat, y: Option<Bytes>, x: Option<Bytes>) {
    y == x || (reaps && y == None && HasExpired(x, now))
  }

  /** No read can tell a faded value from the original, now or later. */
  lemma FadedReadsAlike(reaps: bool, now: nat, later: nat, y: Option<Bytes>, x: Option<Bytes>)
    requires Faded(reaps, now, y, x) && now <= later
    ensures Faded(reaps, later, y, x)
    ensures ReadOf(y, later) == ReadOf(x, later)
  {
    if HasExpired(x, now) {
      ExpiryIsPermanent(x.value, now, later);
    }
  }

  // `kv` is `shadow` with some expired rows deleted.
  ghost predicate Shadows(reaps: bool, clock: nat, kv: Kv, shadow: Kv) {
    forall k :: Faded(reaps, clock, At(kv, k), At(shadow, k))
  }

  lemma ShadowLater(reaps: bool, clock: nat, later: nat, kv: Kv, shadow: Kv)
    requires Shadows(reaps, clock, kv, shadow) && clock <= later
    ensures Shadows(reaps, later, kv, shadow)
    ensures forall k :: ReadOf(At(kv, k), later) == ReadOf(At(shadow, k), later)
  {
    forall k
      ensures Faded(reaps, later, At(kv, k), At(shadow, k))
      ensures ReadOf(At(kv, k), later) == ReadOf(At(shadow, k), later)
    {
      FadedReadsAlike(reaps, clock, later, At(kv, k), At(shadow, k));
    }
  }

  /** Counting tells: with deletions there are fewer keys, and as many exactly when nothing was deleted. */
  lemma CountExact(reaps: bool, clock: nat, kv: Kv, shadow: Kv)
    requires Shadows(reaps, clock, kv, shadow)
    ensures |kv| <= |shadow|
    ensures |kv| == |shadow| <==> kv == shadow
  {
    forall k | k in kv ensures k in shadow && kv[k] == shadow[k] {
      assert Faded(reaps, clock, At(kv, k), At(shadow, k));
    }
    SubsetSize(kv.Keys, shadow.Keys);
    if |kv| == |shadow| {
      assert kv.Keys == shadow.Keys;
    }
  }

  lemma SubsetSize(a: set<Bytes>, b: set<Bytes>)
    requires a <= b
    ensures |a| <= |b|
    ensures |a| == |b| ==> a == b
  {
    assert b == a + (b - a);
    assert |b| == |a| + |b - a|;
  }

  // A CAS whose outcome depends on whether an expired `x` has been deleted yet.
  predicate ReapVisible(c: Command, x: Option<Bytes>, now: nat) {
    c.CompareAndSwap? && HasExpired(x, now) && (c.expected == None || c.expected == x)
  }

  /** A CAS gets the same answer on every faded copy of `x` exactly when it is not one of those. */
  lemma CasOutcomeExact(c: Command, x: Option<Bytes>, now: nat)
    requires c.CompareAndSwap?
    ensures (forall y :: Faded(true, now, y, x) ==> ((y == c.expected) <==> (x == c.expected)))
            <==> !ReapVisible(c, x, now)
  {
    if ReapVisible(c, x, now) {
      var gone: Option<Bytes> := None;
      assert Faded(true, now, gone, x);
      assert (gone == c.expected) != (x == c.expected);
    }
  }

  // What `compare_and_swap` sends: an expected value under the raw tag.
  predicate RawExpected(c: Command) {
    c.CompareAndSwap? ==> c.expected.Some? && c.expected.value != [] && c.expected.value[0] == TAG_RAW
  }

  /** An expected value under the raw tag is never an expired one. */
  lemma RawNeverVisible(c: Command, x: Option<Bytes>, now: nat)
    requires RawExpected(c)
    ensures !ReapVisible(c, x, now)
  {
  }

  /** Commands keep faded copies faded, unless their outcome betrays the deletion. */
  lemma EffectKeepsFaded(reaps: bool, c: Command, k: Bytes, y: Option<Bytes>, x: Option<Bytes>, now: nat)
    requires Faded(reaps, now, y, x)
    requires reaps && Swaps(c, k) ==> !ReapVisible(c, x, now)
    ensures Faded(reaps, now, Effect(c, k, y), Effect(c, k, x))
  {
    EffectCases(c, k, x, y);
    EffectCases(c, k, y, x);
  }

  /**
   * The read and the deletion are two transactions, and entries `w` may be applied in between.
   * The deletion then goes unnoticed at every key and every later time exactly when `w` left
   * the key absent or expired; leaving it alone is one way to do so.
   */
  lemma SplitReapExact(kv: Kv, w: seq<Entry>, k: Bytes, now: nat)
    requires HasExpired(At(kv, k), now)
    ensures (forall j, later :: now <= later ==>
               ReadOf(At(Replay(kv, w) - {k}, j), later) == ReadOf(At(Replay(kv, w), j), later))
            <==> At(Replay(kv, w), k) == None || HasExpired(At(Replay(kv, w), k), now)
    ensures (forall i :: 0 <= i < |w| ==> !Overwrites(w[i].command, k) && !Swaps(w[i].command, k)) ==>
              HasExpired(At(Replay(kv, w), k), now)
  {
    var x := At(Replay(kv, w), k);
    if x == None || HasExpired(x, now) {
      forall j, later | now <= later
        ensures ReadOf(At(Replay(kv, w) - {k}, j), later) == ReadOf(At(Replay(kv, w), j), later)
      {
        if j == k {
          FadedReadsAlike(true, now, later, None, x);
        }
      }
    } else {
      assert ReadOf(At(Replay(kv, w) - {k}, k), now) != ReadOf(At(Replay(kv, w), k), now);
    }
    if forall i :: 0 <= i < |w| ==> !Overwrites(w[i].command, k) && !Swaps(w[i].command, k) {
      ReplayAt(kv, w, k);
      TrackUntouched(w, k, At(kv, k));
    }
  }

  /**
   * Clocks. A row deleted by a node whose clock says `taken` reads alike on a node whose clock
   * says `now`, whatever the row, exactly when the second clock is not behind the first.
   */
  lemma SkewExact(taken: U64, now: nat)
    ensures (forall x :: HasExpired(x, taken) ==> ReadOf(None, now) == ReadOf(x, now)) <==> taken <= now
  {
    if taken <= now {
      forall x | HasExpired(x, taken) ensures ReadOf(None, now) == ReadOf(x, now) {
        FadedReadsAlike(true, taken, now, None, x);
      }
    } else {
      DecodeEncode(Ttl(taken, []));
      var x := Some(EncodeTtl([], Some(taken)));
      assert HasExpired(x, taken) && ReadOf(x, now) != ReadOf(None, now);
    }
  }

  // ---- witnesses ----

  const KEY: Bytes := [107]

  function Stale(): Bytes {
    EncodeTtl([1], Some(5))
  }

  lemma StaleExpires()
    ensures IsExpired(Stale(), 5) && !IsExpired(Stale(), 4)
  {
    DecodeEncode(Ttl(5, [1]));
  }

  /** `put_if_absent` answers differently on a node that has read the expired key and one that has not. */
  lemma PutIfAbsentSeesReap()
    ensures var c := CompareAndSwap(KEY, None, EncodeRaw([2]));
            var kept: Kv := map[KEY := Stale()];
            Faded(true, 5, At(kept - {KEY}, KEY), At(kept, KEY)) &&
            !Succeeds(kept, c) && Succeeds(kept - {KEY}, c) &&
            ReadOf(At(Execute(kept, c), KEY), 5) == Some(None) &&
            ReadOf(At(Execute(kept - {KEY}, c), KEY), 5) == Some(Some([2]))
  {
    StaleExpires();
    DecodeEncode(Raw([2]));
  }

  /** One expired row, kept or deleted: `len` is one or none. */
  lemma LenSeesReap()
    ensures var kept: Kv := map[KEY := Stale()];
            Shadows(true, 5, kept - {KEY}, kept) && |kept| == 1 && |kept - {KEY}| == 0
  {
    StaleExpires();
    var kept: Kv := map[KEY := Stale()];
    assert kept - {KEY} == map[];
  }

  /** A fresh value applied between the read and the deletion is lost. */
  lemma ApplyBetweenReadAndReap()
    ensures var c := Insert(KEY, EncodeRaw([2]), None);
            var kept: Kv := map[KEY := Stale()];
            HasExpired(At(kept, KEY), 5) &&
            ReadOf(At(Execute(kept, c), KEY), 5) == Some(Some([2])) &&
            ReadOf(At(Execute(kept, c) - {KEY}, KEY), 5) == Some(None)
  {
    StaleExpires();
    DecodeEncode(Raw([2]));
  }
}
