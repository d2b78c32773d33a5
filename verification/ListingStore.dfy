/**
 * Listings, search histories and the snapshots between them
 * (crawler.service.ts, search.service.ts).
 *
 * A listing is stored once per URL; a snapshot row links one history to one listing and keeps
 * what the listing looked like then; the search index holds one document per listing.
 * Identifiers stand for generated UUIDs: a counter that never hands out a value twice.
 */
module ListingStore {
  import opened Common

  type HistoryId = nat
  type ListingId = nat
  type RowId = nat
  type CaseId = nat
  type JobId = nat

  datatype Listing = Listing(
    url: string, title: string, price: Option<int>, seller: Option<string>, region: Option<string>,
    imageUrl: Option<string>, lastSeen: HistoryId)

  datatype Snapshot = Snapshot(
    historyId: HistoryId, listingId: ListingId, title: string, price: Option<int>,
    seller: Option<string>, region: Option<string>, imageUrl: Option<string>)

  /** A listing as an adapter returns it. */
  datatype Incoming = Incoming(
    url: string, title: string, price: Option<int>, seller: Option<string>, region: Option<string>,
    imageUrl: Option<string>)

  datatype Doc = Doc(
    title: string, price: Option<int>, seller: Option<string>, region: Option<string>, image: Option<string>,
    historyId: HistoryId)

  /** `cases` and `jobs` keep only their reference to a history. */
  datatype Store = Store(
    histories: set<HistoryId>,
    listings: map<ListingId, Listing>,
    snapshots: map<RowId, Snapshot>,
    index: map<ListingId, Doc>,
    cases: map<CaseId, HistoryId>,
    jobs: map<JobId, Option<HistoryId>>,
    nextId: nat)

  function Truncate500(s: string): string {
    if |s| <= 500 then s else s[..500]
  }

  // ----- Lookups -----

  type Listings = map<ListingId, Listing>
  type Snapshots = map<RowId, Snapshot>

  ghost function FindByUrl(listings: Listings, url: string): (r: Option<ListingId>)
    ensures r.Some? ==> r.value in listings && listings[r.value].url == url
    ensures r.None? ==> forall id :: id in listings ==> listings[id].url != url
  {
    if exists id :: id in listings && listings[id].url == url then
      var id :| id in listings && listings[id].url == url;
      Some(id)
    else None
  }

  predicate Links(snap: Snapshot, h: HistoryId, id: ListingId) {
    snap.historyId == h && snap.listingId == id
  }

  ghost function FindSnapshot(snapshots: Snapshots, h: HistoryId, id: ListingId): (r: Option<RowId>)
    ensures r.Some? ==> r.value in snapshots && Links(snapshots[r.value], h, id)
    ensures r.None? ==> forall row :: row in snapshots ==> !Links(snapshots[row], h, id)
  {
    if exists row :: row in snapshots && Links(snapshots[row], h, id) then
      var row :| row in snapshots && Links(snapshots[row], h, id);
      Some(row)
    else None
  }

  // ----- Well-formed stores -----

  predicate SameUrl(x: Listing, y: Listing) {
    x.url == y.url
  }

  predicate UniqueUrls(listings: Listings) {
    forall a, b {:trigger SameUrl(listings[a], listings[b])} ::
      a in listings && b in listings && SameUrl(listings[a], listings[b]) ==> a == b
  }

  predicate SamePair(x: Snapshot, y: Snapshot) {
    x.historyId == y.historyId && x.listingId == y.listingId
  }

  predicate UniquePairs(snapshots: Snapshots) {
    forall a, b {:trigger SamePair(snapshots[a], snapshots[b])} ::
      a in snapshots && b in snapshots && SamePair(snapshots[a], snapshots[b]) ==> a == b
  }

  /** Foreign keys of the snapshot table. */
  predicate References(snapshots: Snapshots, histories: set<HistoryId>, ids: set<ListingId>) {
    forall row {:trigger snapshots[row]} ::
      row in snapshots ==> snapshots[row].historyId in histories && snapshots[row].listingId in ids
  }

  predicate Linked(snapshots: Snapshots, id: ListingId) {
    exists row :: row in snapshots && snapshots[row].listingId == id
  }

  predicate NoOrphans(snapshots: Snapshots, ids: set<ListingId>) {
    forall id {:trigger Linked(snapshots, id)} :: id in ids ==> Linked(snapshots, id)
  }

  predicate Below(ids: set<nat>, bound: nat) {
    forall id :: id in ids ==> id < bound
  }

  /** Everything but the orphan and index conditions, which hold only between operations. */
  predicate Consistent(s: Store) {
    && UniqueUrls(s.listings) && UniquePairs(s.snapshots)
    && References(s.snapshots, s.histories, s.listings.Keys)
    && Below(s.listings.Keys, s.nextId) && Below(s.snapshots.Keys, s.nextId) && Below(s.histories, s.nextId)
  }

  predicate WF(s: Store) {
    && Consistent(s)
    && NoOrphans(s.snapshots, s.listings.Keys)
    && s.index.Keys == s.listings.Keys
  }

  /** A history's results: its own snapshot rows. */
  function SnapshotsOf(snapshots: Snapshots, h: HistoryId): Snapshots {
    map row | row in snapshots && snapshots[row].historyId == h :: snapshots[row]
  }

  /** The snapshot rows of all other histories. */
  function OtherSnapshots(snapshots: Snapshots, h: HistoryId): Snapshots {
    map row | row in snapshots && snapshots[row].historyId != h :: snapshots[row]
  }

  // ----- Operations -----

  function OpenHistory(s: Store): Store {
    s.(histories := s.histories + {s.nextId}, nextId := s.nextId + 1)
  }

  function UpdatedListing(l: Listing, inc: Incoming, h: HistoryId): Listing {
    l.(lastSeen := h,
         title := Truncate500(inc.title),
         price := OrElse(inc.price, l.price),
         seller := OrElse(inc.seller, l.seller),
         region := OrElse(inc.region, l.region),
         imageUrl := if inc.imageUrl.Some? && inc.imageUrl.value != "" then inc.imageUrl else l.imageUrl)
  }

  function NewListing(inc: Incoming, h: HistoryId): Listing {
    Listing(inc.url, Truncate500(inc.title), inc.price, inc.seller, inc.region, inc.imageUrl, h)
  }

  function SnapshotFor(h: HistoryId, id: ListingId, inc: Incoming, saved: Listing): Snapshot {
    Snapshot(h, id, Truncate500(inc.title), OrElse(inc.price, saved.price), OrElse(inc.seller, saved.seller),
             OrElse(inc.region, saved.region), OrElse(inc.imageUrl, saved.imageUrl))
  }

  /** Inserts or overwrites the one snapshot of (history, listing). */
  ghost function PutSnapshot(s: Store, snap: Snapshot): Store {
    var found := FindSnapshot(s.snapshots, snap.historyId, snap.listingId);
    if found.Some? then s.(snapshots := s.snapshots[found.value := snap])
    else s.(snapshots := s.snapshots[s.nextId := snap], nextId := s.nextId + 1)
  }

  function DocFor(inc: Incoming, saved: Listing, h: HistoryId): Doc {
    Doc(saved.title, inc.price, saved.seller, saved.region, saved.imageUrl, h)
  }

  /** The identifier of the listing with this URL: the stored one, or the next new one. */
  ghost function ListingIdFor(s: Store, url: string): ListingId {
    var found := FindByUrl(s.listings, url);
    if found.Some? then found.value else s.nextId
  }

  /** Saves the master row, found by URL or newly inserted. */
  ghost function PutListing(s: Store, h: HistoryId, inc: Incoming): Store {
    var found := FindByUrl(s.listings, inc.url);
    if found.Some? then
      s.(listings := s.listings[found.value := UpdatedListing(s.listings[found.value], inc, h)])
    else
      s.(listings := s.listings[s.nextId := NewListing(inc, h)], nextId := s.nextId + 1)
  }

  /** Saves the snapshot and the document of a listing already saved under `id`. */
  ghost function RecordListing(s: Store, h: HistoryId, id: ListingId, inc: Incoming): Store
    requires id in s.listings
  {
    var saved := s.listings[id];
    var t := PutSnapshot(s, SnapshotFor(h, id, inc, saved));
    t.(index := t.index[id := DocFor(inc, saved, h)])
  }

  /**
   * One crawled listing. The history was loaded when the crawl began: if it has been deleted
   * since, the snapshot insert violates its foreign key and the steps after it do not happen.
   */
  ghost function Upsert(s: Store, h: HistoryId, inc: Incoming): Store {
    var t := PutListing(s, h, inc);
    if h !in s.histories then t else RecordListing(t, h, ListingIdFor(s, inc.url), inc)
  }

  function CachedSnapshot(h: HistoryId, id: ListingId, d: Doc, l: Listing): Snapshot {
    Snapshot(h, id, Truncate500(d.title), OrElse(d.price, l.price), OrElse(d.seller, l.seller),
             OrElse(d.region, l.region), OrElse(d.image, l.imageUrl))
  }

  /** One document of a cache hit; documents without a listing, and repeated ones, are skipped. */
  ghost function LinkOne(s: Store, h: HistoryId, id: ListingId, d: Doc): Store {
    if id !in s.listings || FindSnapshot(s.snapshots, h, id).Some? then s
    else PutSnapshot(s, CachedSnapshot(h, id, d, s.listings[id]))
  }

  ghost function LinkCached(s: Store, h: HistoryId, docs: seq<(ListingId, Doc)>): Store
    decreases |docs|
  {
    if docs == [] then s else LinkCached(LinkOne(s, h, docs[0].0, docs[0].1), h, docs[1..])
  }

  /** The listings `h` linked that nothing links once it is gone. */
  function Orphans(snapshots: Snapshots, h: HistoryId): set<ListingId> {
    set row | row in snapshots && snapshots[row].historyId == h && !Linked(OtherSnapshots(snapshots, h), snapshots[row].listingId)
      :: snapshots[row].listingId
  }

  /** The history gone, with its cases and snapshots; its jobs lose their link. */
  function Detached(s: Store, h: HistoryId): Store {
    s.(cases := map c | c in s.cases && s.cases[c] != h :: s.cases[c],
       jobs := map j | j in s.jobs :: if s.jobs[j] == Some(h) then None else s.jobs[j],
       histories := s.histories - {h},
       snapshots := OtherSnapshots(s.snapshots, h))
  }

  function DeleteHistory(s: Store, h: HistoryId): Store {
    var orphans := Orphans(s.snapshots, h);
    Detached(s, h).(listings := s.listings - orphans, index := s.index - orphans)
  }

  // ----- What each operation keeps and changes -----

  lemma UrlsStayUnique(listings: Listings, id: ListingId, l: Listing)
    requires UniqueUrls(listings)
    requires forall other :: other in listings && other != id ==> listings[other].url != l.url
    ensures UniqueUrls(listings[id := l])
  {
    var t := listings[id := l];
    forall a, b | a in t && b in t && SameUrl(t[a], t[b]) ensures a == b {
      assert a != id && b != id ==> SameUrl(listings[a], listings[b]);
    }
  }

  /** Saving a listing writes one master row, which carries the URL. */
  lemma PutListingShape(s: Store, h: HistoryId, inc: Incoming)
    ensures var t, id := PutListing(s, h, inc), ListingIdFor(s, inc.url);
      && id in t.listings && t.listings[id].url == inc.url && t.listings[id].lastSeen == h
      && t == s.(listings := s.listings[id := t.listings[id]], nextId := t.nextId)
      && t.nextId == if id in s.listings && FindByUrl(s.listings, inc.url).Some? then s.nextId else s.nextId + 1
  {
  }

  lemma NoOtherHasUrl(s: Store, url: string, other: ListingId)
    requires UniqueUrls(s.listings) && other in s.listings && other != ListingIdFor(s, url)
    ensures s.listings[other].url != url
  {
    var found := FindByUrl(s.listings, url);
    if found.Some? {
      assert !SameUrl(s.listings[other], s.listings[found.value]);
    }
  }

  lemma PutListingKeeps(s: Store, h: HistoryId, inc: Incoming)
    requires Consistent(s)
    ensures Consistent(PutListing(s, h, inc))
    ensures PutListing(s, h, inc).listings.Keys == s.listings.Keys + {ListingIdFor(s, inc.url)}
  {
    var t := PutListing(s, h, inc);
    var id := ListingIdFor(s, inc.url);
    PutListingShape(s, h, inc);
    forall other | other in s.listings && other != id ensures s.listings[other].url != inc.url {
      NoOtherHasUrl(s, inc.url, other);
    }
    UrlsStayUnique(s.listings, id, t.listings[id]);
    assert t.listings.Keys == s.listings.Keys + {id};
  }

  /** A saved snapshot is the only one of its pair, and the rest of the table is untouched. */
  lemma PutSnapshotKeeps(s: Store, snap: Snapshot)
    requires Consistent(s) && snap.historyId in s.histories && snap.listingId in s.listings
    ensures var t := PutSnapshot(s, snap);
      && Consistent(t)
      && t == s.(snapshots := t.snapshots, nextId := t.nextId)
      && (exists row :: row in t.snapshots && t.snapshots[row] == snap)
      && OtherSnapshots(t.snapshots, snap.historyId) == OtherSnapshots(s.snapshots, snap.historyId)
  {
    var t := PutSnapshot(s, snap);
    var found := FindSnapshot(s.snapshots, snap.historyId, snap.listingId);
    var at := if found.Some? then found.value else s.nextId;
    assert t.snapshots == s.snapshots[at := snap];
    assert t.snapshots[at] == snap;
    forall a, b | a in t.snapshots && b in t.snapshots && SamePair(t.snapshots[a], t.snapshots[b]) ensures a == b {
      assert a != at && b != at ==> SamePair(s.snapshots[a], s.snapshots[b]);
      assert found.Some? && a in s.snapshots ==> SamePair(s.snapshots[a], snap) ==> SamePair(s.snapshots[a], s.snapshots[at]);
      assert found.Some? && b in s.snapshots ==> SamePair(s.snapshots[b], snap) ==> SamePair(s.snapshots[b], s.snapshots[at]);
    }
    assert References(t.snapshots, t.histories, t.listings.Keys);
    assert Below(t.snapshots.Keys, t.nextId);
  }

  lemma PutSnapshotLinks(s: Store, snap: Snapshot, id: ListingId)
    requires Below(s.snapshots.Keys, s.nextId)
    ensures Linked(PutSnapshot(s, snap).snapshots, id) <==> Linked(s.snapshots, id) || id == snap.listingId
  {
    var t := PutSnapshot(s, snap);
    var found := FindSnapshot(s.snapshots, snap.historyId, snap.listingId);
    var at := if found.Some? then found.value else s.nextId;
    assert t.snapshots[at] == snap;
    assert at in s.snapshots ==> s.snapshots[at].listingId == snap.listingId;
    if row :| row in s.snapshots && s.snapshots[row].listingId == id {
      assert row in t.snapshots && t.snapshots[row].listingId == id;
    }
    if row :| row in t.snapshots && t.snapshots[row].listingId == id && row != at {
      assert row in s.snapshots && s.snapshots[row].listingId == id;
    }
  }

  /** Every history other than `h` has the same results in both tables. */
  predicate SameOthers(a: Snapshots, b: Snapshots, h: HistoryId) {
    OtherSnapshots(a, h) == OtherSnapshots(b, h)
  }

  lemma SameOthersPerHistory(a: Snapshots, b: Snapshots, h: HistoryId, other: HistoryId)
    requires SameOthers(a, b, h) && other != h
    ensures SnapshotsOf(a, other) == SnapshotsOf(b, other)
  {
    var x, y := SnapshotsOf(a, other), SnapshotsOf(b, other);
    forall row ensures row in x <==> row in y {
      assert row in x ==> row in OtherSnapshots(a, h);
      assert row in y ==> row in OtherSnapshots(b, h);
    }
    forall row | row in x ensures x[row] == y[row] {
      assert row in OtherSnapshots(a, h);
    }
  }

  /** Every crawled listing keeps the tables consistent, also one that comes too late for its history. */
  lemma UpsertKeepsConsistent(s: Store, h: HistoryId, inc: Incoming)
    requires Consistent(s)
    ensures Consistent(Upsert(s, h, inc)) && SameOthers(Upsert(s, h, inc).snapshots, s.snapshots, h)
    ensures Upsert(s, h, inc).histories == s.histories
  {
    var t, id := PutListing(s, h, inc), ListingIdFor(s, inc.url);
    PutListingShape(s, h, inc);
    PutListingKeeps(s, h, inc);
    if h in s.histories {
      PutSnapshotKeeps(t, SnapshotFor(h, id, inc, t.listings[id]));
    }
  }

  lemma UpsertPresentKeepsWF(s: Store, h: HistoryId, inc: Incoming)
    requires WF(s) && h in s.histories
    ensures WF(Upsert(s, h, inc)) && SameOthers(Upsert(s, h, inc).snapshots, s.snapshots, h)
  {
    var t, u := PutListing(s, h, inc), Upsert(s, h, inc);
    var id := ListingIdFor(s, inc.url);
    PutListingShape(s, h, inc);
    PutListingKeeps(s, h, inc);
    var snap := SnapshotFor(h, id, inc, t.listings[id]);
    PutSnapshotKeeps(t, snap);
    forall l | l in u.listings ensures Linked(u.snapshots, l) {
      PutSnapshotLinks(t, snap, l);
    }
  }

  lemma UpsertMissingKeepsWFIff(s: Store, h: HistoryId, inc: Incoming)
    requires WF(s) && h !in s.histories
    ensures WF(Upsert(s, h, inc)) <==> FindByUrl(s.listings, inc.url).Some?
    ensures Upsert(s, h, inc).snapshots == s.snapshots
  {
    var t, id := PutListing(s, h, inc), ListingIdFor(s, inc.url);
    PutListingShape(s, h, inc);
    PutListingKeeps(s, h, inc);
    if FindByUrl(s.listings, inc.url).None? {
      assert id in t.listings && !Linked(t.snapshots, id);
    }
  }

  /**
   * A crawled listing keeps the store well-formed exactly when its history still exists or the
   * URL was already stored: otherwise the new listing stays without snapshot and document.
   */
  lemma UpsertKeepsWFIff(s: Store, h: HistoryId, inc: Incoming)
    requires WF(s)
    ensures WF(Upsert(s, h, inc)) <==> h in s.histories || FindByUrl(s.listings, inc.url).Some?
    ensures SameOthers(Upsert(s, h, inc).snapshots, s.snapshots, h)
    ensures Upsert(s, h, inc).histories == s.histories
  {
    if h in s.histories {
      UpsertPresentKeepsWF(s, h, inc);
    } else {
      UpsertMissingKeepsWFIff(s, h, inc);
    }
  }

  // ----- What a crawled listing writes -----

  /** `t` is the first 500 characters of `s`. */
  predicate Beginning(t: string, s: string) {
    t <= s && |t| <= 500 && (|t| < 500 ==> t == s)
  }

  /** `v` is the new value when there is one and the old one otherwise. */
  predicate Takes<T(==)>(v: Option<T>, brought: Option<T>, kept: Option<T>) {
    (brought.Some? ==> v == brought) && (brought.None? ==> v == kept)
  }

  predicate TakesImage(v: Option<string>, brought: Option<string>, kept: Option<string>) {
    (brought.Some? && brought.value != "" ==> v == brought) && (brought.None? || brought.value == "" ==> v == kept)
  }

  /** A stored listing after a crawl of its URL. */
  predicate Refreshed(t: Listing, l: Listing, inc: Incoming, h: HistoryId) {
    && t.url == l.url && t.lastSeen == h && Beginning(t.title, inc.title)
    && Takes(t.price, inc.price, l.price) && Takes(t.seller, inc.seller, l.seller) && Takes(t.region, inc.region, l.region)
    && TakesImage(t.imageUrl, inc.imageUrl, l.imageUrl)
  }

  /** The listing of a URL that was not stored. */
  predicate Created(t: Listing, inc: Incoming, h: HistoryId) {
    && t.url == inc.url && t.lastSeen == h && Beginning(t.title, inc.title)
    && t.price == inc.price && t.seller == inc.seller && t.region == inc.region && t.imageUrl == inc.imageUrl
  }

  /** The snapshot shows what was crawled and, for what was not, what the listing holds. */
  predicate Shows(snap: Snapshot, inc: Incoming, saved: Listing) {
    && Beginning(snap.title, inc.title)
    && Takes(snap.price, inc.price, saved.price) && Takes(snap.seller, inc.seller, saved.seller)
    && Takes(snap.region, inc.region, saved.region) && Takes(snap.imageUrl, inc.imageUrl, saved.imageUrl)
  }

  /** The document carries the crawled price, also a missing one, and the listing's other fields. */
  predicate Indexes(d: Doc, inc: Incoming, saved: Listing, h: HistoryId) {
    && d.title == saved.title && d.price == inc.price && d.historyId == h
    && d.seller == saved.seller && d.region == saved.region && d.image == saved.imageUrl
  }

  lemma UpdateRefreshes(l: Listing, inc: Incoming, h: HistoryId)
    ensures Refreshed(UpdatedListing(l, inc, h), l, inc, h)
    ensures Created(NewListing(inc, h), inc, h)
  {
  }

  /** `id` has the URL: refreshed if it was stored, created otherwise. No other listing has it or changes. */
  predicate Wrote(before: Listings, after: Listings, id: ListingId, inc: Incoming, h: HistoryId) {
    && after.Keys == before.Keys + {id}
    && (id in before ==> before[id].url == inc.url && Refreshed(after[id], before[id], inc, h))
    && (id !in before ==> Created(after[id], inc, h))
    && (forall other :: other in before && other != id ==> before[other].url != inc.url && after[other] == before[other])
  }

  /** A crawl refreshes the listing of its URL or creates it, also when it comes too late for its history. */
  lemma UpsertWritesListing(s: Store, h: HistoryId, inc: Incoming)
    requires Consistent(s)
    ensures Wrote(s.listings, Upsert(s, h, inc).listings, ListingIdFor(s, inc.url), inc, h)
  {
    var id := ListingIdFor(s, inc.url);
    PutListingShape(s, h, inc);
    PutListingKeeps(s, h, inc);
    if id in s.listings {
      UpdateRefreshes(s.listings[id], inc, h);
    } else {
      UpdateRefreshes(NewListing(inc, h), inc, h);
    }
    forall other | other in s.listings && other != id ensures s.listings[other].url != inc.url {
      NoOtherHasUrl(s, inc.url, other);
    }
  }

  predicate OthersStay(before: Snapshots, after: Snapshots, row: RowId) {
    after.Keys == before.Keys + {row} && forall other :: other in before && other != row ==> after[other] == before[other]
  }

  /** `row` is the snapshot of (history, listing), and every other row is as before. */
  predicate Recorded(before: Snapshots, after: Snapshots, row: RowId, h: HistoryId, id: ListingId, inc: Incoming, saved: Listing) {
    && row in after && Links(after[row], h, id) && Shows(after[row], inc, saved)
    && OthersStay(before, after, row)
  }

  lemma UpsertRecordsSnapshot(s: Store, h: HistoryId, inc: Incoming) returns (row: RowId)
    requires Consistent(s) && h in s.histories
    ensures var t, id := Upsert(s, h, inc), ListingIdFor(s, inc.url);
      id in t.listings && Recorded(s.snapshots, t.snapshots, row, h, id, inc, t.listings[id])
  {
    var p, id := PutListing(s, h, inc), ListingIdFor(s, inc.url);
    PutListingShape(s, h, inc);
    var snap := SnapshotFor(h, id, inc, p.listings[id]);
    var found := FindSnapshot(p.snapshots, h, id);
    row := if found.Some? then found.value else p.nextId;
    assert Upsert(s, h, inc).snapshots == s.snapshots[row := snap];
  }

  lemma UpsertRecordsDoc(s: Store, h: HistoryId, inc: Incoming)
    requires Consistent(s) && h in s.histories
    ensures var t, id := Upsert(s, h, inc), ListingIdFor(s, inc.url);
      && id in t.listings && t.index.Keys == s.index.Keys + {id} && Indexes(t.index[id], inc, t.listings[id], h)
      && forall other :: other in s.index && other != id ==> t.index[other] == s.index[other]
  {
    PutListingShape(s, h, inc);
  }

  /**
   * A crawled listing is recorded three times, field by field: in the listing of its URL, in the
   * history's one snapshot of it, and in the search index. Every other row and document stays.
   */
  lemma UpsertRecords(s: Store, h: HistoryId, inc: Incoming)
    requires WF(s) && h in s.histories
    ensures var t, id := Upsert(s, h, inc), ListingIdFor(s, inc.url);
      && Wrote(s.listings, t.listings, id, inc, h)
      && (exists row :: Recorded(s.snapshots, t.snapshots, row, h, id, inc, t.listings[id]))
      && t.index.Keys == s.index.Keys + {id} && Indexes(t.index[id], inc, t.listings[id], h)
      && (forall other :: other in s.index && other != id ==> t.index[other] == s.index[other])
  {
    UpsertWritesListing(s, h, inc);
    var row := UpsertRecordsSnapshot(s, h, inc);
    UpsertRecordsDoc(s, h, inc);
  }

  predicate Listed(docs: seq<(ListingId, Doc)>, id: ListingId) {
    exists i :: 0 <= i < |docs| && docs[i].0 == id
  }

  predicate HasSnapshot(snapshots: Snapshots, h: HistoryId, id: ListingId) {
    exists row :: row in snapshots && Links(snapshots[row], h, id)
  }

  predicate Extends(big: Snapshots, small: Snapshots) {
    forall row :: row in small ==> row in big && big[row] == small[row]
  }

  lemma LinkOneKeeps(s: Store, h: HistoryId, id: ListingId, d: Doc)
    requires Consistent(s) && h in s.histories
    ensures var t := LinkOne(s, h, id, d);
      && Consistent(t) && (WF(s) ==> WF(t))
      && t == s.(snapshots := t.snapshots, nextId := t.nextId) && s.nextId <= t.nextId
      && SameOthers(t.snapshots, s.snapshots, h)
      && Extends(t.snapshots, s.snapshots)
  {
    if id in s.listings && FindSnapshot(s.snapshots, h, id).None? {
      var snap := CachedSnapshot(h, id, d, s.listings[id]);
      PutSnapshotKeeps(s, snap);
      var t := LinkOne(s, h, id, d);
      forall l | l in t.listings ensures Linked(s.snapshots, l) ==> Linked(t.snapshots, l) {
        PutSnapshotLinks(s, snap, l);
      }
    }
  }

  lemma LinkOneLinks(s: Store, h: HistoryId, id: ListingId, d: Doc, l: ListingId)
    requires Consistent(s) && h in s.histories
    ensures HasSnapshot(LinkOne(s, h, id, d).snapshots, h, l) <==>
      HasSnapshot(s.snapshots, h, l) || (l == id && id in s.listings)
  {
    var t := LinkOne(s, h, id, d);
    if id in s.listings && FindSnapshot(s.snapshots, h, id).None? {
      var snap := CachedSnapshot(h, id, d, s.listings[id]);
      assert t.snapshots == s.snapshots[s.nextId := snap];
      assert t.snapshots[s.nextId] == snap && Links(snap, h, id);
      if row :| row in s.snapshots && Links(s.snapshots[row], h, l) {
        assert row in t.snapshots && Links(t.snapshots[row], h, l);
      }
      if row :| row in t.snapshots && Links(t.snapshots[row], h, l) {
        assert row in s.snapshots ==> Links(s.snapshots[row], h, l);
      }
    }
  }

  /**
   * A cache hit adds links and nothing else: the listings stay, existing snapshots stay, other
   * histories keep theirs.
   */
  lemma {:induction false} LinkCachedKeeps(s: Store, h: HistoryId, docs: seq<(ListingId, Doc)>)
    requires Consistent(s) && h in s.histories
    ensures var t := LinkCached(s, h, docs);
      && Consistent(t) && (WF(s) ==> WF(t))
      && t == s.(snapshots := t.snapshots, nextId := t.nextId) && s.nextId <= t.nextId
      && SameOthers(t.snapshots, s.snapshots, h)
      && Extends(t.snapshots, s.snapshots)
    decreases |docs|
  {
    if docs == [] {
    } else {
      LinkOneKeeps(s, h, docs[0].0, docs[0].1);
      LinkCachedKeeps(LinkOne(s, h, docs[0].0, docs[0].1), h, docs[1..]);
    }
  }

  /** Afterwards the history links what it linked before and every cached document with a listing. */
  lemma {:induction false} LinkCachedLinks(s: Store, h: HistoryId, docs: seq<(ListingId, Doc)>, id: ListingId)
    requires Consistent(s) && h in s.histories
    ensures HasSnapshot(LinkCached(s, h, docs).snapshots, h, id) <==>
      HasSnapshot(s.snapshots, h, id) || (id in s.listings && Listed(docs, id))
    decreases |docs|
  {
    if docs == [] {
    } else {
      LinkOneKeeps(s, h, docs[0].0, docs[0].1);
      LinkOneLinks(s, h, docs[0].0, docs[0].1, id);
      LinkCachedLinks(LinkOne(s, h, docs[0].0, docs[0].1), h, docs[1..], id);
      assert docs == [docs[0]] + docs[1..];
      if i :| 0 <= i < |docs[1..]| && docs[1..][i].0 == id {
        assert docs[i + 1].0 == id;
      }
      if i :| 0 <= i < |docs| && docs[i].0 == id && i != 0 {
        assert docs[1..][i - 1].0 == id;
      }
    }
  }

  /** In a well-formed store the listings are exactly the ones some snapshot links. */
  lemma ListingsAreTheLinked(s: Store)
    requires WF(s)
    ensures forall id :: id in s.listings.Keys <==> Linked(s.snapshots, id)
  {
  }

  /** Some history other than `h` has this listing among its results. */
  predicate LinkedByOther(snapshots: Snapshots, h: HistoryId, id: ListingId) {
    exists row :: row in snapshots && snapshots[row].listingId == id && snapshots[row].historyId != h
  }

  lemma OthersLink(snapshots: Snapshots, h: HistoryId, id: ListingId)
    ensures Linked(OtherSnapshots(snapshots, h), id) <==> LinkedByOther(snapshots, h, id)
  {
    if row :| row in snapshots && snapshots[row].listingId == id && snapshots[row].historyId != h {
      assert row in OtherSnapshots(snapshots, h);
    }
  }

  lemma SubtablesStayUnique(s: Store, t: Store)
    requires UniqueUrls(s.listings) && UniquePairs(s.snapshots)
    requires forall id :: id in t.listings ==> id in s.listings && t.listings[id] == s.listings[id]
    requires Extends(s.snapshots, t.snapshots)
    ensures UniqueUrls(t.listings) && UniquePairs(t.snapshots)
  {
    forall a, b | a in t.listings && b in t.listings && SameUrl(t.listings[a], t.listings[b]) ensures a == b {
      assert SameUrl(s.listings[a], s.listings[b]);
    }
    forall a, b | a in t.snapshots && b in t.snapshots && SamePair(t.snapshots[a], t.snapshots[b]) ensures a == b {
      assert SamePair(s.snapshots[a], s.snapshots[b]);
    }
  }

  lemma SurvivesIff(s: Store, h: HistoryId, id: ListingId)
    requires NoOrphans(s.snapshots, s.listings.Keys) && id in s.listings
    ensures id in Orphans(s.snapshots, h) <==> !LinkedByOther(s.snapshots, h, id)
    ensures LinkedByOther(s.snapshots, h, id) <==> Linked(OtherSnapshots(s.snapshots, h), id)
  {
    OthersLink(s.snapshots, h, id);
    assert Linked(s.snapshots, id);
    var row :| row in s.snapshots && s.snapshots[row].listingId == id;
    assert s.snapshots[row].historyId != h ==> row in OtherSnapshots(s.snapshots, h);
  }

  lemma DeleteKeepsListings(s: Store, h: HistoryId, id: ListingId)
    requires WF(s)
    ensures var t := DeleteHistory(s, h);
      && (id in t.listings <==> id in s.listings && LinkedByOther(s.snapshots, h, id))
      && (id in t.index <==> id in t.listings)
      && (id in t.listings ==> t.listings[id] == s.listings[id] && t.index[id] == s.index[id] && Linked(t.snapshots, id))
  {
    if id in s.listings {
      SurvivesIff(s, h, id);
    }
  }

  /** Nothing that is still linked is an orphan, so no reference is left dangling. */
  lemma DeleteKeepsConsistent(s: Store, h: HistoryId)
    requires Consistent(s)
    ensures Consistent(DeleteHistory(s, h))
  {
    var t := DeleteHistory(s, h);
    SubtablesStayUnique(s, t);
    forall row | row in t.snapshots ensures t.snapshots[row].listingId in t.listings {
      assert Linked(OtherSnapshots(s.snapshots, h), t.snapshots[row].listingId);
    }
  }

  lemma DeleteKeepsWF(s: Store, h: HistoryId)
    requires WF(s)
    ensures WF(DeleteHistory(s, h))
  {
    var t := DeleteHistory(s, h);
    forall id {
      DeleteKeepsListings(s, h, id);
    }
    DeleteKeepsConsistent(s, h);
  }

  /**
   * Deleting a history keeps exactly the listings some other history links, unchanged and with
   * their documents.
   */
  lemma DeleteHistoryIsExact(s: Store, h: HistoryId)
    requires WF(s)
    ensures var t := DeleteHistory(s, h);
      forall id :: id in t.listings.Keys <==> id in s.listings.Keys && LinkedByOther(s.snapshots, h, id)
    ensures var t := DeleteHistory(s, h);
      forall id :: id in t.listings.Keys ==> t.listings[id] == s.listings[id] && id in t.index && t.index[id] == s.index[id]
  {
    var t := DeleteHistory(s, h);
    forall id
      ensures id in t.listings.Keys <==> id in s.listings.Keys && LinkedByOther(s.snapshots, h, id)
      ensures id in t.listings.Keys ==> t.listings[id] == s.listings[id] && id in t.index && t.index[id] == s.index[id]
    {
      DeleteKeepsListings(s, h, id);
    }
  }

  /** It drops that history's snapshots and leaves every other history's as they were. */
  lemma DeleteKeepsOtherSnapshots(s: Store, h: HistoryId)
    ensures var t := DeleteHistory(s, h);
      SnapshotsOf(t.snapshots, h) == map[] && SameOthers(t.snapshots, s.snapshots, h)
  {
    var t := DeleteHistory(s, h);
    assert OtherSnapshots(t.snapshots, h) == t.snapshots;
  }

  /** The other tables lose the history too: its cases go, and jobs only forget the reference. */
  lemma DeleteHistoryCascades(s: Store, h: HistoryId)
    ensures var t := DeleteHistory(s, h);
      && t.cases.Values == s.cases.Values - {h}
      && (forall c :: c in t.cases ==> c in s.cases && t.cases[c] == s.cases[c])
      && t.jobs.Keys == s.jobs.Keys
      && (forall j :: j in s.jobs ==> t.jobs[j] != Some(h) && (s.jobs[j] != Some(h) ==> t.jobs[j] == s.jobs[j]))
  {
    var t := DeleteHistory(s, h);
    forall v ensures v in t.cases.Values <==> v in s.cases.Values - {h} {
      if v in s.cases.Values - {h} {
        var c :| c in s.cases && s.cases[c] == v;
        assert c in t.cases && t.cases[c] == v;
      }
    }
  }

  // ----- Runs of operations -----

  /** `Finish` is the save that ends a crawl: the repository inserts a history that has gone meanwhile. */
  datatype Op =
    | Open
    | Crawl(h: HistoryId, inc: Incoming)
    | Finish(h: HistoryId)
    | Cache(h: HistoryId, docs: seq<(ListingId, Doc)>)
    | Delete(h: HistoryId)

  ghost function Apply(s: Store, op: Op): Store {
    match op
    case Open => OpenHistory(s)
    case Crawl(h, inc) => Upsert(s, h, inc)
    case Finish(h) => if h < s.nextId then s.(histories := s.histories + {h}) else s
    case Cache(h, docs) => if h in s.histories then LinkCached(s, h, docs) else s
    case Delete(h) => if h in s.histories then DeleteHistory(s, h) else s
  }

  ghost function ApplyAll(s: Store, ops: seq<Op>): Store
    decreases |ops|
  {
    if ops == [] then s else ApplyAll(Apply(s, ops[0]), ops[1..])
  }

  /** The operation is not the first crawl of a URL on behalf of a history that is gone. */
  ghost predicate InTime(s: Store, op: Op) {
    op.Crawl? ==> op.h in s.histories || FindByUrl(s.listings, op.inc.url).Some?
  }

  ghost predicate AllInTime(s: Store, ops: seq<Op>)
    decreases |ops|
  {
    ops == [] || (InTime(s, ops[0]) && AllInTime(Apply(s, ops[0]), ops[1..]))
  }

  predicate Touches(op: Op, h: HistoryId) {
    !op.Open? && op.h == h
  }

  lemma ApplyKeepsWFIff(s: Store, op: Op)
    requires WF(s)
    ensures WF(Apply(s, op)) <==> InTime(s, op)
  {
    match op
    case Open =>
    case Finish(_) =>
    case Crawl(h, inc) => UpsertKeepsWFIff(s, h, inc);
    case Cache(h, docs) => if h in s.histories { LinkCachedKeeps(s, h, docs); }
    case Delete(h) => if h in s.histories { DeleteKeepsWF(s, h); }
  }

  ghost predicate WFThroughout(s: Store, ops: seq<Op>)
    decreases |ops|
  {
    WF(s) && (ops == [] || WFThroughout(Apply(s, ops[0]), ops[1..]))
  }

  /**
   * Over any run the store is well-formed at every moment exactly when no crawl stores a new URL
   * for a deleted history, whatever else is crawled, cached or deleted.
   */
  lemma {:induction false} RunKeepsWFIff(s: Store, ops: seq<Op>)
    requires WF(s)
    ensures WFThroughout(s, ops) <==> AllInTime(s, ops)
    ensures AllInTime(s, ops) ==> WF(ApplyAll(s, ops))
    decreases |ops|
  {
    if ops == [] {
    } else {
      ApplyKeepsWFIff(s, ops[0]);
      if InTime(s, ops[0]) {
        RunKeepsWFIff(Apply(s, ops[0]), ops[1..]);
      }
    }
  }

  /** One operation keeps the tables consistent and the results of every history it does not touch. */
  lemma ApplyKeepsConsistent(s: Store, op: Op, h: HistoryId)
    requires Consistent(s)
    ensures Consistent(Apply(s, op))
    ensures !Touches(op, h) ==> SnapshotsOf(Apply(s, op).snapshots, h) == SnapshotsOf(s.snapshots, h)
  {
    match op
    case Open =>
    case Finish(_) =>
    case Crawl(g, inc) =>
      UpsertKeepsConsistent(s, g, inc);
      if g != h {
        SameOthersPerHistory(Apply(s, op).snapshots, s.snapshots, g, h);
      }
    case Cache(g, docs) =>
      if g in s.histories {
        LinkCachedKeeps(s, g, docs);
        if g != h {
          SameOthersPerHistory(Apply(s, op).snapshots, s.snapshots, g, h);
        }
      }
    case Delete(g) =>
      if g in s.histories {
        DeleteKeepsConsistent(s, g);
        DeleteKeepsOtherSnapshots(s, g);
        if g != h {
          SameOthersPerHistory(Apply(s, op).snapshots, s.snapshots, g, h);
        }
      }
  }

  /**
   * A history's results never change through what happens to other histories, crawls that come
   * too late for a deleted one included.
   */
  lemma {:induction false} SnapshotsAreStable(s: Store, ops: seq<Op>, h: HistoryId)
    requires Consistent(s)
    requires forall op :: op in ops ==> !Touches(op, h)
    ensures SnapshotsOf(ApplyAll(s, ops).snapshots, h) == SnapshotsOf(s.snapshots, h)
    ensures Consistent(ApplyAll(s, ops))
    decreases |ops|
  {
    if ops == [] {
    } else {
      assert ops[0] in ops;
      ApplyKeepsConsistent(s, ops[0], h);
      SnapshotsAreStable(Apply(s, ops[0]), ops[1..], h);
    }
  }

  /** A history is there at the end of a run iff it was at the start and no operation deleted it. */
  lemma {:induction false} HistoryStaysIff(s: Store, ops: seq<Op>, h: HistoryId)
    requires Consistent(s) && h < s.nextId
    requires Finish(h) !in ops
    ensures Consistent(ApplyAll(s, ops)) && s.nextId <= ApplyAll(s, ops).nextId
    ensures h in ApplyAll(s, ops).histories <==> h in s.histories && Delete(h) !in ops
    decreases |ops|
  {
    if ops == [] {
    } else {
      ApplyKeepsConsistent(s, ops[0], h);
      ApplyKeepsIds(s, ops[0]);
      HistoryStaysStep(s, ops[0], h);
      HistoryStaysIff(Apply(s, ops[0]), ops[1..], h);
      assert ops == [ops[0]] + ops[1..];
    }
  }

  lemma ApplyKeepsIds(s: Store, op: Op)
    requires Consistent(s)
    ensures s.nextId <= Apply(s, op).nextId
  {
    if op.Cache? && op.h in s.histories {
      LinkCachedKeeps(s, op.h, op.docs);
    }
  }

  lemma HistoryStaysStep(s: Store, op: Op, h: HistoryId)
    requires Consistent(s) && h < s.nextId && op != Finish(h)
    ensures h in Apply(s, op).histories <==> h in s.histories && op != Delete(h)
  {
    match op
    case Crawl(g, inc) => UpsertKeepsConsistent(s, g, inc);
    case Cache(g, docs) => if g in s.histories { LinkCachedKeeps(s, g, docs); }
    case _ =>
  }

  /** The operations of one search: crawled listings, their end, and cache links for its own history. */
  predicate OwnSearch(ops: seq<Op>, h: HistoryId) {
    forall op :: op in ops ==> (op.Crawl? || op.Cache? || op.Finish?) && op.h == h
  }

  lemma {:induction false} OwnSearchKeepsOthers(s: Store, ops: seq<Op>, h: HistoryId)
    requires WF(s) && h in s.histories && OwnSearch(ops, h)
    ensures var t := ApplyAll(s, ops);
      WF(t) && t.histories == s.histories && SameOthers(t.snapshots, s.snapshots, h)
    decreases |ops|
  {
    if ops == [] {
    } else {
      assert ops[0] in ops;
      match ops[0] {
        case Crawl(g, inc) => UpsertKeepsWFIff(s, g, inc);
        case Cache(g, docs) => LinkCachedKeeps(s, g, docs);
        case Finish(_) => assert s.histories + {h} == s.histories;
      }
      OwnSearchKeepsOthers(Apply(s, ops[0]), ops[1..], h);
    }
  }

  /** What the crawls of its URL among `ops` make of a stored listing. */
  function Rewritten(l: Listing, ops: seq<Op>, h: HistoryId): Listing
    decreases |ops|
  {
    if ops == [] then l
    else Rewritten(if ops[0].Crawl? && ops[0].inc.url == l.url then UpdatedListing(l, ops[0].inc, h) else l, ops[1..], h)
  }

  /** And of its document: the last such crawl wrote it. */
  function RewrittenDoc(l: Listing, d: Doc, ops: seq<Op>, h: HistoryId): Doc
    decreases |ops|
  {
    if ops == [] then d
    else if ops[0].Crawl? && ops[0].inc.url == l.url then
      var saved := UpdatedListing(l, ops[0].inc, h);
      RewrittenDoc(saved, DocFor(ops[0].inc, saved, h), ops[1..], h)
    else RewrittenDoc(l, d, ops[1..], h)
  }

  predicate Crawls(ops: seq<Op>, url: string) {
    exists op :: op in ops && op.Crawl? && op.inc.url == url
  }

  lemma {:induction false} RewrittenIff(l: Listing, d: Doc, ops: seq<Op>, h: HistoryId)
    ensures if Crawls(ops, l.url) then Rewritten(l, ops, h).lastSeen == h && RewrittenDoc(l, d, ops, h).historyId == h
            else Rewritten(l, ops, h) == l && RewrittenDoc(l, d, ops, h) == d
    ensures l.lastSeen == h ==> Rewritten(l, ops, h).lastSeen == h
    ensures d.historyId == h ==> RewrittenDoc(l, d, ops, h).historyId == h
    decreases |ops|
  {
    if ops == [] {
    } else {
      assert ops == [ops[0]] + ops[1..];
      if ops[0].Crawl? && ops[0].inc.url == l.url {
        var saved := UpdatedListing(l, ops[0].inc, h);
        RewrittenIff(saved, DocFor(ops[0].inc, saved, h), ops[1..], h);
      } else {
        RewrittenIff(l, d, ops[1..], h);
      }
    }
  }

  /** One crawl rewrites the listing with its URL and no other stored one. */
  lemma UpsertRewrites(s: Store, h: HistoryId, inc: Incoming, id: ListingId)
    requires WF(s) && h in s.histories && id in s.listings
    ensures var t, l := Upsert(s, h, inc), s.listings[id];
      && id in t.listings && id in t.index
      && t.listings[id] == (if inc.url == l.url then UpdatedListing(l, inc, h) else l)
      && t.index[id] == (if inc.url == l.url then DocFor(inc, UpdatedListing(l, inc, h), h) else s.index[id])
  {
    PutListingShape(s, h, inc);
    if inc.url == s.listings[id].url {
      assert id == ListingIdFor(s, inc.url) by {
        assert SameUrl(s.listings[id], s.listings[FindByUrl(s.listings, inc.url).value]);
      }
    }
  }

  lemma {:induction false} OwnSearchRewrites(s: Store, ops: seq<Op>, h: HistoryId, id: ListingId)
    requires WF(s) && h in s.histories && OwnSearch(ops, h) && id in s.listings
    ensures var t := ApplyAll(s, ops);
      && id in t.listings && id in t.index
      && t.listings[id] == Rewritten(s.listings[id], ops, h)
      && t.index[id] == RewrittenDoc(s.listings[id], s.index[id], ops, h)
    decreases |ops|
  {
    if ops == [] {
    } else {
      assert ops[0] in ops;
      match ops[0] {
        case Crawl(g, inc) =>
          UpsertRewrites(s, h, inc, id);
          UpsertKeepsWFIff(s, h, inc);
        case Cache(g, docs) => LinkCachedKeeps(s, h, docs);
        case Finish(_) => assert s.histories + {h} == s.histories;
      }
      OwnSearchRewrites(Apply(s, ops[0]), ops[1..], h, id);
    }
  }

  /**
   * Deleting a search undoes what it added: whatever a new history crawled or took from the
   * cache, removing it gives back the identifiers of the listings and documents and all the
   * snapshots that were there before it was opened.
   */
  lemma DeleteUndoesSearch(s: Store, ops: seq<Op>)
    requires WF(s) && OwnSearch(ops, s.nextId)
    ensures var t := DeleteHistory(ApplyAll(OpenHistory(s), ops), s.nextId);
      && t.listings.Keys == s.listings.Keys
      && t.index.Keys == s.index.Keys
      && t.snapshots == s.snapshots
      && t.histories == s.histories
  {
    var h := s.nextId;
    var u := OpenHistory(s);
    ApplyKeepsWFIff(s, Open);
    OwnSearchKeepsOthers(u, ops, h);
    var v := ApplyAll(u, ops);
    var t := DeleteHistory(v, h);
    DeleteKeepsWF(v, h);
    DeleteKeepsOtherSnapshots(v, h);
    assert OtherSnapshots(s.snapshots, h) == s.snapshots;
    ListingsAreTheLinked(s);
    ListingsAreTheLinked(t);
  }

  /**
   * It does not undo what the search overwrote: a listing and its document come back as they were
   * if the search crawled no such URL, and otherwise keep what its crawls wrote, still naming the
   * deleted history.
   */
  lemma DeleteKeepsWhatSearchWrote(s: Store, ops: seq<Op>, id: ListingId)
    requires WF(s) && OwnSearch(ops, s.nextId) && id in s.listings
    ensures var t, h, l := DeleteHistory(ApplyAll(OpenHistory(s), ops), s.nextId), s.nextId, s.listings[id];
      && id in t.listings && id in t.index
      && t.listings[id] == Rewritten(l, ops, h) && t.index[id] == RewrittenDoc(l, s.index[id], ops, h)
      && (!Crawls(ops, l.url) ==> t.listings[id] == l && t.index[id] == s.index[id])
      && (Crawls(ops, l.url) ==> t.listings[id].lastSeen == h && t.index[id].historyId == h && h !in t.histories)
  {
    var h := s.nextId;
    DeleteUndoesSearch(s, ops);
    ApplyKeepsWFIff(s, Open);
    OwnSearchKeepsOthers(OpenHistory(s), ops, h);
    OwnSearchRewrites(OpenHistory(s), ops, h, id);
    DeleteKeepsListings(ApplyAll(OpenHistory(s), ops), h, id);
    RewrittenIff(s.listings[id], s.index[id], ops, h);
  }
}
