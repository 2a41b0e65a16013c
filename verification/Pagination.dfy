/**
 * Paging through a prefix: each page starts after the last key of the one before. The store may
 * change from page to page, and the clock is read at every row.
 */
module Pagination {
  import opened ByteStrings
  import opened Tables
  import opened Values
  import opened Reaping
  import opened NextPrefixes
  import opened Scans

  // All the rows of a prefix scan: none for an empty prefix, none when it refuses an empty marker.
  function PrefixRows(t: Table<Bytes>, prefix: Bytes, after: Option<Bytes>, readings: Readings): seq<Row<Bytes>> {
    if prefix == [] then [] else Listing(t, Live(readings), StartOf(prefix, after), NextPrefix(prefix))
  }

  // One call of `scan_prefix`.
  function Page(t: Table<Bytes>, prefix: Bytes, after: Option<Bytes>, limit: nat, readings: Readings): seq<Row<Bytes>> {
    First(PrefixRows(t, prefix, after, readings), Some(limit))
  }

  // What each page of a paging finds: the store and the clock.
  datatype Visit = Visit(t: Table<Bytes>, readings: Readings)

  // The pages in a row, until one comes back short.
  predicate IsPaging(visits: seq<Visit>, prefix: Bytes, after: Option<Bytes>, limit: nat, pages: seq<seq<Row<Bytes>>>) {
    |visits| == |pages| && pages != [] &&
    pages[0] == Page(visits[0].t, prefix, after, limit, visits[0].readings) &&
    if |pages| == 1 then |pages[0]| < limit
    else 0 < |pages[0]| == limit && IsPaging(visits[1..], prefix, Some(pages[0][limit - 1].key), limit, pages[1..])
  }

  function Flat(pages: seq<seq<Row<Bytes>>>): seq<Row<Bytes>> {
    if pages == [] then [] else pages[0] + Flat(pages[1..])
  }

  ghost predicate Marked(prefix: Bytes, after: Option<Bytes>) {
    after.Some? ==> AtMost(prefix, after.value)
  }

  // A stored row with the prefix, after the marker, and live at `now`.
  predicate Listed(t: Table<Bytes>, prefix: Bytes, after: Option<Bytes>, now: nat, r: Row<Bytes>) {
    prefix != [] && prefix <= r.key && (after.Some? ==> Less(after.value, r.key)) &&
    Get(t, r.key).Some? && DecodeForScan(Get(t, r.key).value, now) == Some(r.value)
  }

  // ---- one page ----

  lemma PageAscends(t: Table<Bytes>, prefix: Bytes, after: Option<Bytes>, limit: nat, readings: Readings)
    ensures Ascending(Page(t, prefix, after, limit, readings)) && Ascending(PrefixRows(t, prefix, after, readings))
  {
    CollectAscends(t, Live(readings), StartOf(prefix, after), NextPrefix(prefix));
  }

  lemma PrefixRowsListed(t: Table<Bytes>, prefix: Bytes, after: Option<Bytes>, readings: Readings, r: Row<Bytes>)
    requires Marked(prefix, after)
    ensures r in PrefixRows(t, prefix, after, readings) <==> Listed(t, prefix, after, readings(r.key), r)
  {
    CollectExact(t, Live(readings), StartOf(prefix, after), NextPrefix(prefix), r);
    PrefixScanExact(prefix, after, r.key);
    GetView(t, r.key);
  }

  lemma PageListed(t: Table<Bytes>, prefix: Bytes, after: Option<Bytes>, limit: nat, readings: Readings,
                   r: Row<Bytes>)
    requires Marked(prefix, after) && r in Page(t, prefix, after, limit, readings)
    ensures Listed(t, prefix, after, readings(r.key), r)
  {
    PrefixRowsListed(t, prefix, after, readings, r);
  }

  // Of an ascending listing, the first rows are those with the lowest keys.
  lemma InFirst(all: seq<Row<Bytes>>, limit: nat, r: Row<Bytes>)
    requires Ascending(all) && r in all
    requires var page := First(all, Some(limit));
             |page| < limit || (page != [] && AtMost(r.key, page[|page| - 1].key))
    ensures r in First(all, Some(limit))
  {
    var page := First(all, Some(limit));
    var j :| 0 <= j < |all| && all[j] == r;
    if |page| <= j {
      assert Less(all[|page| - 1].key, all[j].key);
      NotLess(all[|page| - 1].key, r.key);
      assert false;
    }
    assert page[j] == r;
  }

  /** A page has every live row up to its last key; a short page has them all. */
  lemma PageComplete(t: Table<Bytes>, prefix: Bytes, after: Option<Bytes>, limit: nat, readings: Readings,
                     r: Row<Bytes>)
    requires Marked(prefix, after) && Listed(t, prefix, after, readings(r.key), r)
    requires var page := Page(t, prefix, after, limit, readings);
             |page| < limit || (page != [] && AtMost(r.key, page[|page| - 1].key))
    ensures r in Page(t, prefix, after, limit, readings)
  {
    PrefixRowsListed(t, prefix, after, readings, r);
    PageAscends(t, prefix, after, limit, readings);
    InFirst(PrefixRows(t, prefix, after, readings), limit, r);
  }

  // The last key of a page is a marker for the next.
  lemma NextMarker(t: Table<Bytes>, prefix: Bytes, after: Option<Bytes>, limit: nat, readings: Readings, last: Bytes)
    requires Marked(prefix, after) && Page(t, prefix, after, limit, readings) != []
    requires var page := Page(t, prefix, after, limit, readings);
             last == page[|page| - 1].key
    ensures Marked(prefix, Some(last)) && (after.Some? ==> Less(after.value, last))
  {
    var page := Page(t, prefix, after, limit, readings);
    PageListed(t, prefix, after, limit, readings, page[|page| - 1]);
    PrefixAtMost(prefix, last);
  }

  lemma ListedEarlier(t: Table<Bytes>, prefix: Bytes, after: Option<Bytes>, now: nat, later: nat, r: Row<Bytes>)
    requires Listed(t, prefix, after, later, r) && now <= later
    ensures Listed(t, prefix, after, now, r)
  {
    ExpiryIsPermanent(Get(t, r.key).value, now, later);
  }

  lemma ListedFrom(t: Table<Bytes>, prefix: Bytes, after: Option<Bytes>, last: Bytes, now: nat, r: Row<Bytes>)
    requires Listed(t, prefix, Some(last), now, r) && (after.Some? ==> Less(after.value, last))
    ensures Listed(t, prefix, after, now, r)
  {
    if after.Some? {
      Transitive(after.value, last, r.key);
    }
  }

  lemma JoinAscends(a: seq<Row<Bytes>>, b: seq<Row<Bytes>>)
    requires Ascending(a) && Ascending(b) && a != []
    requires forall r :: r in b ==> Less(a[|a| - 1].key, r.key)
    ensures Ascending(a + b)
  {
    var s := a + b;
    forall i, j | 0 <= i < j < |s| ensures Less(s[i].key, s[j].key) {
      if |a| <= j {
        assert b[j - |a|] in b;
        if i < |a| - 1 {
          Transitive(a[i].key, a[|a| - 1].key, b[j - |a|].key);
        }
      }
    }
  }

  // ---- all pages ----

  ghost predicate FoundBy(visits: seq<Visit>, prefix: Bytes, after: Option<Bytes>, begin: nat, r: Row<Bytes>) {
    exists i :: 0 <= i < |visits| && Listed(visits[i].t, prefix, after, begin, r)
  }

  ghost predicate ReadFrom(visits: seq<Visit>, begin: nat) {
    forall i, k :: 0 <= i < |visits| ==> begin <= visits[i].readings(k)
  }

  ghost predicate ReadUntil(visits: seq<Visit>, end: nat) {
    forall i, k :: 0 <= i < |visits| ==> visits[i].readings(k) <= end
  }

  lemma FoundLater(visits: seq<Visit>, prefix: Bytes, after: Option<Bytes>, last: Bytes, begin: nat, r: Row<Bytes>)
    requires visits != [] && FoundBy(visits[1..], prefix, Some(last), begin, r)
    requires after.Some? ==> Less(after.value, last)
    ensures FoundBy(visits, prefix, after, begin, r) && Less(last, r.key)
  {
    var i :| 0 <= i < |visits[1..]| && Listed(visits[1..][i].t, prefix, Some(last), begin, r);
    ListedFrom(visits[i + 1].t, prefix, after, last, begin, r);
  }

  lemma AllFoundLater(visits: seq<Visit>, prefix: Bytes, after: Option<Bytes>, last: Bytes, begin: nat,
                      rows: seq<Row<Bytes>>)
    requires visits != [] && (after.Some? ==> Less(after.value, last))
    requires forall r :: r in rows ==> FoundBy(visits[1..], prefix, Some(last), begin, r)
    ensures forall r :: r in rows ==> FoundBy(visits, prefix, after, begin, r) && Less(last, r.key)
  {
    forall r | r in rows ensures FoundBy(visits, prefix, after, begin, r) && Less(last, r.key) {
      FoundLater(visits, prefix, after, last, begin, r);
    }
  }

  lemma FirstPageSound(visits: seq<Visit>, prefix: Bytes, after: Option<Bytes>, limit: nat, begin: nat)
    requires visits != [] && Marked(prefix, after) && ReadFrom(visits, begin)
    ensures forall r :: r in Page(visits[0].t, prefix, after, limit, visits[0].readings) ==>
                          FoundBy(visits, prefix, after, begin, r)
  {
    var v := visits[0];
    forall r | r in Page(v.t, prefix, after, limit, v.readings) ensures FoundBy(visits, prefix, after, begin, r) {
      PageListed(v.t, prefix, after, limit, v.readings, r);
      ListedEarlier(v.t, prefix, after, begin, v.readings(r.key), r);
    }
  }

  /**
   * Whatever is applied in between, the pages together are strictly ascending, so nothing comes
   * twice, and every row has the prefix and was stored, and live when the paging began, in the
   * store of some page.
   */
  lemma {:induction false} PagesSound(visits: seq<Visit>, prefix: Bytes, after: Option<Bytes>, limit: nat,
                                      pages: seq<seq<Row<Bytes>>>, begin: nat)
    requires IsPaging(visits, prefix, after, limit, pages) && Marked(prefix, after) && ReadFrom(visits, begin)
    ensures Ascending(Flat(pages))
    ensures forall r :: r in Flat(pages) ==> FoundBy(visits, prefix, after, begin, r)
    decreases |pages|
  {
    var v, page := visits[0], pages[0];
    PageAscends(v.t, prefix, after, limit, v.readings);
    FirstPageSound(visits, prefix, after, limit, begin);
    if |pages| == 1 {
      assert Flat(pages) == page + Flat([]) == page;
    } else {
      var last := page[limit - 1].key;
      NextMarker(v.t, prefix, after, limit, v.readings, last);
      PagesSound(visits[1..], prefix, Some(last), limit, pages[1..], begin);
      AllFoundLater(visits, prefix, after, last, begin, Flat(pages[1..]));
      JoinAscends(page, Flat(pages[1..]));
    }
  }

  // The page's store holds a value under the key that is live until the end.
  predicate LiveIn(v: Visit, k: Bytes, end: nat) {
    Get(v.t, k).Some? && DecodeForScan(Get(v.t, k).value, end).Some?
  }

  function LiveRow(v: Visit, k: Bytes, end: nat): Row<Bytes>
    requires LiveIn(v, k, end)
  {
    Row(k, DecodeForScan(Get(v.t, k).value, end).value)
  }

  predicate AlwaysLive(visits: seq<Visit>, k: Bytes, end: nat) {
    forall i :: 0 <= i < |visits| ==> LiveIn(visits[i], k, end)
  }

  lemma OnFirstPage(v: Visit, prefix: Bytes, after: Option<Bytes>, limit: nat, end: nat, k: Bytes)
    requires Marked(prefix, after) && prefix != [] && prefix <= k && (after.Some? ==> Less(after.value, k))
    requires LiveIn(v, k, end) && v.readings(k) <= end
    requires var page := Page(v.t, prefix, after, limit, v.readings);
             |page| < limit || (page != [] && AtMost(k, page[|page| - 1].key))
    ensures LiveRow(v, k, end) in Page(v.t, prefix, after, limit, v.readings)
  {
    ListedEarlier(v.t, prefix, after, v.readings(k), end, LiveRow(v, k, end));
    PageComplete(v.t, prefix, after, limit, v.readings, LiveRow(v, k, end));
  }

  // A key that is not on a full page is on a later one: what the paging still goes through.
  lemma TurnPage(visits: seq<Visit>, prefix: Bytes, after: Option<Bytes>, limit: nat,
                 pages: seq<seq<Row<Bytes>>>, end: nat, k: Bytes)
    requires IsPaging(visits, prefix, after, limit, pages) && Marked(prefix, after)
    requires ReadUntil(visits, end) && AlwaysLive(visits, k, end)
    requires |pages[0]| == limit && (limit > 0 ==> !AtMost(k, pages[0][limit - 1].key))
    ensures |pages| > 1 && limit > 0
    ensures var last := pages[0][limit - 1].key;
            IsPaging(visits[1..], prefix, Some(last), limit, pages[1..]) && Marked(prefix, Some(last)) && Less(last, k)
    ensures ReadUntil(visits[1..], end) && AlwaysLive(visits[1..], k, end)
  {
    var v, last := visits[0], pages[0][limit - 1].key;
    NextMarker(v.t, prefix, after, limit, v.readings, last);
    NotLess(last, k);
    forall i | 0 <= i < |visits[1..]| ensures LiveIn(visits[1..][i], k, end) {
      assert LiveIn(visits[i + 1], k, end);
    }
  }

  /** And every key with the prefix that stays stored and live throughout is on some page, with a value it had. */
  lemma {:induction false} PagesComplete(visits: seq<Visit>, prefix: Bytes, after: Option<Bytes>, limit: nat,
                                         pages: seq<seq<Row<Bytes>>>, end: nat, k: Bytes)
    returns (i: nat)
    requires IsPaging(visits, prefix, after, limit, pages) && Marked(prefix, after) && ReadUntil(visits, end)
    requires prefix != [] && prefix <= k && (after.Some? ==> Less(after.value, k)) && AlwaysLive(visits, k, end)
    ensures OnPage(visits, pages, i, k, end)
    decreases |pages|
  {
    var v, page := visits[0], pages[0];
    assert LiveIn(v, k, end);
    if |page| < limit || AtMost(k, page[limit - 1].key) {
      OnFirstPage(v, prefix, after, limit, end, k);
      i := 0;
    } else {
      var last := page[limit - 1].key;
      TurnPage(visits, prefix, after, limit, pages, end, k);
      i := PagesComplete(visits[1..], prefix, Some(last), limit, pages[1..], end, k);
      OnLaterPage(visits, pages, i, k, end);
      i := i + 1;
    }
  }

  // The visit's live row for `k` is on the visit's page.
  predicate OnPage(visits: seq<Visit>, pages: seq<seq<Row<Bytes>>>, i: nat, k: Bytes, end: nat) {
    i < |visits| && i < |pages| && LiveIn(visits[i], k, end) &&
    LiveRow(visits[i], k, end) in pages[i] && LiveRow(visits[i], k, end) in Flat(pages)
  }

  lemma OnLaterPage(visits: seq<Visit>, pages: seq<seq<Row<Bytes>>>, i: nat, k: Bytes, end: nat)
    requires visits != [] && pages != [] && OnPage(visits[1..], pages[1..], i, k, end)
    ensures OnPage(visits, pages, i + 1, k, end)
  {
  }

  /** Expired rows deleted between the pages, on whichever of them, change no page. */
  lemma {:induction false} DeletionsDoNotShow(visits: seq<Visit>, visits': seq<Visit>, prefix: Bytes,
                                              after: Option<Bytes>, limit: nat, pages: seq<seq<Row<Bytes>>>,
                                              begin: nat)
    requires |visits| == |visits'| && ReadFrom(visits, begin)
    requires forall i :: 0 <= i < |visits| ==>
               visits'[i].readings == visits[i].readings && Shadows(true, begin, View(visits'[i].t), View(visits[i].t))
    ensures IsPaging(visits, prefix, after, limit, pages) <==> IsPaging(visits', prefix, after, limit, pages)
    decreases |pages|
  {
    if |visits| == |pages| && pages != [] {
      ShadowScansAlike(true, begin, visits'[0].t, visits[0].t, visits[0].readings,
                       StartOf(prefix, after), NextPrefix(prefix));
      if |pages| > 1 && 0 < |pages[0]| == limit {
        DeletionsDoNotShow(visits[1..], visits'[1..], prefix, Some(pages[0][limit - 1].key), limit, pages[1..], begin);
      }
    }
  }

  // ---- a store that does not change ----

  ghost predicate AllAt(visits: seq<Visit>, t: Table<Bytes>, now: nat) {
    forall i :: 0 <= i < |visits| ==> visits[i].t == t && forall k :: visits[i].readings(k) == now
  }

  /** On a fixed store, with a clock that stands still, the pages together are one unlimited scan. */
  lemma PagesEqualOneScan(visits: seq<Visit>, prefix: Bytes, limit: nat, pages: seq<seq<Row<Bytes>>>,
                          t: Table<Bytes>, now: nat)
    requires IsPaging(visits, prefix, None, limit, pages) && AllAt(visits, t, now)
    ensures Flat(pages) == PrefixRows(t, prefix, None, Still(now))
  {
    var paged := Flat(pages);
    var scan := PrefixRows(t, prefix, None, Still(now));
    PagesSound(visits, prefix, None, limit, pages, now);
    PageAscends(t, prefix, None, limit, Still(now));
    forall r ensures r in paged <==> r in scan {
      PrefixRowsListed(t, prefix, None, Still(now), r);
      if r in scan {
        var i := PagesComplete(visits, prefix, None, limit, pages, now, r.key);
      }
    }
    AscendingUnique(paged, scan);
  }

  // How many rows are left to look at.
  function Remaining(t: Table<Bytes>, prefix: Bytes, after: Option<Bytes>): nat {
    |t| - StartRow(t, StartOf(prefix, after))
  }

  /** Moving the marker to a returned key leaves fewer rows. */
  lemma PageAdvances(t: Table<Bytes>, prefix: Bytes, after: Option<Bytes>, limit: nat, readings: Readings)
    requires Page(t, prefix, after, limit, readings) != []
    ensures var page := Page(t, prefix, after, limit, readings);
            Remaining(t, prefix, Some(page[|page| - 1].key)) < Remaining(t, prefix, after)
  {
    var page := Page(t, prefix, after, limit, readings);
    var r := page[|page| - 1];
    var all := PrefixRows(t, prefix, after, readings);
    assert r in all by {
      assert all[|page| - 1] == r;
    }
    CollectRows(t, Live(readings), StartOf(prefix, after), NextPrefix(prefix), r);
    var j :| 0 <= j < |t| && Collected(t, Live(readings), StartOf(prefix, after), NextPrefix(prefix), j, r);
    Irreflexive(r.key);
    assert StartRow(t, StartOf(prefix, after)) <= j < StartRow(t, Excluded(r.key));
  }

  // Visits to a fixed store, from tick `i` on.
  ghost predicate VisitsFrom(visits: seq<Visit>, t: Table<Bytes>, clock: nat -> Readings, i: nat) {
    forall j :: 0 <= j < |visits| ==> visits[j] == Visit(t, clock(i + j))
  }

  lemma OneVisitMore(rest: seq<Visit>, t: Table<Bytes>, clock: nat -> Readings, i: nat)
    requires VisitsFrom(rest, t, clock, i + 1)
    ensures VisitsFrom([Visit(t, clock(i))] + rest, t, clock, i)
  {
    var visits := [Visit(t, clock(i))] + rest;
    forall j | 0 <= j < |visits| ensures visits[j] == Visit(t, clock(i + j)) {
      if j > 0 {
        assert visits[j] == rest[j - 1] == Visit(t, clock(i + 1 + (j - 1)));
      }
    }
  }

  // A full page in front of a paging that goes on from it.
  lemma PagingFrom(v: Visit, rest: seq<Visit>, prefix: Bytes, after: Option<Bytes>, limit: nat,
                   page: seq<Row<Bytes>>, more: seq<seq<Row<Bytes>>>)
    requires page == Page(v.t, prefix, after, limit, v.readings) && 0 < |page| == limit
    requires IsPaging(rest, prefix, Some(page[limit - 1].key), limit, more)
    ensures IsPaging([v] + rest, prefix, after, limit, [page] + more)
  {
    var visits, pages := [v] + rest, [page] + more;
    assert visits[1..] == rest && pages[1..] == more;
  }

  /** So on a fixed store paging ends, whatever the clock does. */
  lemma {:induction false} PagingEnds(t: Table<Bytes>, prefix: Bytes, after: Option<Bytes>, limit: nat,
                                      clock: nat -> Readings, i: nat)
    returns (visits: seq<Visit>, pages: seq<seq<Row<Bytes>>>)
    requires limit >= 1
    ensures IsPaging(visits, prefix, after, limit, pages)
    ensures VisitsFrom(visits, t, clock, i)
    decreases Remaining(t, prefix, after)
  {
    var page := Page(t, prefix, after, limit, clock(i));
    if |page| < limit {
      visits, pages := [Visit(t, clock(i))], [page];
    } else {
      PageAdvances(t, prefix, after, limit, clock(i));
      var rest, more := PagingEnds(t, prefix, Some(page[limit - 1].key), limit, clock, i + 1);
      OneVisitMore(rest, t, clock, i);
      PagingFrom(Visit(t, clock(i)), rest, prefix, after, limit, page, more);
      visits, pages := [Visit(t, clock(i))] + rest, [page] + more;
    }
  }
}
