/** The `url_database` collection: URL records in the store's natural
    order, and the two lookups the handlers make (`find_one` by
    `short_code` and by `original_url`). */
module Records {
  import opened Wrappers

  /** A point in time as the store keeps it; the clock is outside the model. */
  type Timestamp = int

  /** One document of the collection. A document need not carry
      `created_at`, `click_count` or `last_accessed` (the last is absent
      until the first redirect), so these are optional. */
  datatype UrlRecord = UrlRecord(
    shortCode: string,
    originalUrl: string,
    createdAt: Option<Timestamp>,
    clickCount: Option<nat>,
    lastAccessed: Option<Timestamp>)

  /** The collection, in natural order. A sequence rather than a map: the
      store does not enforce unique short codes. */
  type Store = seq<UrlRecord>

  /** The filter of a `find_one` or `update_one` call. */
  datatype Query = ByCode(code: string) | ByUrl(url: string)

  predicate Matches(r: UrlRecord, q: Query) {
    match q
    case ByCode(code) => r.shortCode == code
    case ByUrl(url) => r.originalUrl == url
  }

  /** `find_one(q)`: the position of the first record that matches, if any. */
  function Find(store: Store, q: Query): (r: Option<nat>)
    ensures r.Some? ==> r.value < |store| && Matches(store[r.value], q)
    ensures r.Some? ==> forall j :: 0 <= j < r.value ==> !Matches(store[j], q)
    ensures r.None? <==> forall j :: 0 <= j < |store| ==> !Matches(store[j], q)
  {
    if store == [] then None
    else if Matches(store[0], q) then Some(0)
    else match Find(store[1..], q)
      case None => None
      case Some(i) => Some(i + 1)
  }

  /** The document `shorten` inserts for a new URL. */
  function NewRecord(code: string, url: string, now: Timestamp): UrlRecord {
    UrlRecord(code, url, Some(now), Some(0), None)
  }

  /** The click count a document shows, 0 when it has none. */
  function ClickCount(r: UrlRecord): nat {
    r.clickCount.GetOr(0)
  }

  /** The update of a redirect: `$inc` of `click_count` by 1 (a missing
      count starts from 0) and `$set` of `last_accessed`. */
  function Click(r: UrlRecord, now: Timestamp): (r': UrlRecord)
    ensures r'.shortCode == r.shortCode && r'.originalUrl == r.originalUrl
    ensures r'.createdAt == r.createdAt
    ensures ClickCount(r') == ClickCount(r) + 1
    ensures r'.lastAccessed == Some(now)
  {
    r.(clickCount := Some(ClickCount(r) + 1), lastAccessed := Some(now))
  }

  /** At most one record per original URL: what the dedup in `shorten` keeps. */
  ghost predicate UniqueUrls(store: Store) {
    forall i, j :: 0 <= i < j < |store| ==> store[i].originalUrl != store[j].originalUrl
  }

  /** Two stores hold the same records except possibly at position `i`. */
  ghost predicate SameExcept(s: Store, t: Store, i: nat) {
    |s| == |t| && forall j :: 0 <= j < |s| && j != i ==> s[j] == t[j]
  }

  /** Appending a record that matches a query no earlier record matches
      makes it the one `find_one` returns. */
  lemma FindAppended(store: Store, r: UrlRecord, q: Query)
    requires Find(store, q).None? && Matches(r, q)
    ensures Find(store + [r], q) == Some(|store|)
  {
    var s := store + [r];
    assert Matches(s[|store|], q);
    match Find(s, q)
    case None => assert false;
    case Some(k) =>
      if k < |store| {
        assert false;
      }
  }

  /** Replacing a record by one that agrees on both keys changes no answer
      of `find_one`. */
  lemma FindAfterUpdate(store: Store, i: nat, r: UrlRecord, q: Query)
    requires i < |store|
    requires r.shortCode == store[i].shortCode && r.originalUrl == store[i].originalUrl
    ensures Find(store[i := r], q) == Find(store, q)
  {
    var s := store[i := r];
    assert forall j :: 0 <= j < |s| ==> (Matches(s[j], q) <==> Matches(store[j], q));
    match Find(store, q)
    case None =>
    case Some(k) =>
      match Find(s, q)
      case None => assert false;
      case Some(m) =>
        if m < k { assert false; }
        if m > k { assert false; }
  }
}
