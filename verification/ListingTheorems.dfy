/** What a stored listing holds after any run of crawls, cache hits and deletions (crawler.service.ts). */
module ListingTheorems {
  import opened Common
  import opened ListingStore

  // ----- The last value brought -----

  /** What a crawl brings for one field of a listing; nothing leaves the field as it is. */
  type Brought<!T> = (HistoryId, Incoming) -> Option<T>

  function TitleBrought(): Brought<string> {
    (_, inc: Incoming) => Some(Truncate500(inc.title))
  }

  function PriceBrought(): Brought<int> {
    (_, inc: Incoming) => inc.price
  }

  function SellerBrought(): Brought<string> {
    (_, inc: Incoming) => inc.seller
  }

  function RegionBrought(): Brought<string> {
    (_, inc: Incoming) => inc.region
  }

  function ImageBrought(): Brought<string> {
    (_, inc: Incoming) => if inc.imageUrl == Some("") then None else inc.imageUrl
  }

  predicate Brings<T>(op: Op, url: string, brought: Brought<T>) {
    op.Crawl? && op.inc.url == url && brought(op.h, op.inc).Some?
  }

  /** The field after the crawls of `url` among `ops`. */
  function LastBrought<T>(ops: seq<Op>, url: string, brought: Brought<T>, kept: Option<T>): Option<T> {
    if ops == [] then kept
    else LastBrought(ops[1..], url, brought, if Brings(ops[0], url, brought) then brought(ops[0].h, ops[0].inc) else kept)
  }

  /** It is what the last crawl that brings anything brings, and the field as it was if there is none. */
  lemma {:induction false} LastBroughtIsLast<T>(ops: seq<Op>, url: string, brought: Brought<T>, kept: Option<T>, k: nat)
    ensures k < |ops| && Brings(ops[k], url, brought) && (forall j :: k < j < |ops| ==> !Brings(ops[j], url, brought)) ==>
      LastBrought(ops, url, brought, kept) == brought(ops[k].h, ops[k].inc)
    ensures (forall op :: op in ops ==> !Brings(op, url, brought)) ==> LastBrought(ops, url, brought, kept) == kept
    decreases |ops|
  {
    if ops == [] {
    } else {
      assert ops == [ops[0]] + ops[1..];
      var now := if Brings(ops[0], url, brought) then brought(ops[0].h, ops[0].inc) else kept;
      if k == 0 {
        LastBroughtIsLast(ops[1..], url, brought, now, 0);
        if forall j :: 0 < j < |ops| ==> !Brings(ops[j], url, brought) {
          forall op | op in ops[1..] ensures !Brings(op, url, brought) {
            var j :| 0 <= j < |ops[1..]| && ops[1..][j] == op;
            assert ops[j + 1] == op;
          }
        }
      } else {
        LastBroughtIsLast(ops[1..], url, brought, now, k - 1);
        assert k < |ops| ==> ops[1..][k - 1] == ops[k];
      }
    }
  }

  // ----- Listings over runs -----

  /** A listing whose fields are the last ones the crawls among `ops` brought for its URL. */
  predicate Follows(t: Listing, l: Listing, ops: seq<Op>) {
    && t.url == l.url
    && Some(t.title) == LastBrought(ops, l.url, TitleBrought(), Some(l.title))
    && t.price == LastBrought(ops, l.url, PriceBrought(), l.price)
    && t.seller == LastBrought(ops, l.url, SellerBrought(), l.seller)
    && t.region == LastBrought(ops, l.url, RegionBrought(), l.region)
    && t.imageUrl == LastBrought(ops, l.url, ImageBrought(), l.imageUrl)
  }

  lemma BeginningIs(t: string, s: string)
    requires Beginning(t, s)
    ensures t == Truncate500(s)
  {
  }

  lemma RefreshedFollows(t: Listing, l: Listing, h: HistoryId, inc: Incoming)
    requires inc.url == l.url && Refreshed(t, l, inc, h)
    ensures Follows(t, l, [Crawl(h, inc)])
  {
    BeginningIs(t.title, inc.title);
    var ops := [Crawl(h, inc)];
    OneBrought(ops, l.url, TitleBrought(), Some(l.title));
    OneBrought(ops, l.url, PriceBrought(), l.price);
    OneBrought(ops, l.url, SellerBrought(), l.seller);
    OneBrought(ops, l.url, RegionBrought(), l.region);
    OneBrought(ops, l.url, ImageBrought(), l.imageUrl);
  }

  lemma OneBrought<T>(ops: seq<Op>, url: string, brought: Brought<T>, kept: Option<T>)
    requires |ops| == 1
    ensures LastBrought(ops, url, brought, kept)
      == if Brings(ops[0], url, brought) then brought(ops[0].h, ops[0].inc) else kept
  {
    assert ops[1..] == [];
  }

  lemma OtherFollows(l: Listing, op: Op)
    requires !(op.Crawl? && op.inc.url == l.url)
    ensures Follows(l, l, [op])
  {
    var ops := [op];
    OneBrought(ops, l.url, TitleBrought(), Some(l.title));
    OneBrought(ops, l.url, PriceBrought(), l.price);
    OneBrought(ops, l.url, SellerBrought(), l.seller);
    OneBrought(ops, l.url, RegionBrought(), l.region);
    OneBrought(ops, l.url, ImageBrought(), l.imageUrl);
  }

  /** A listing that survives an operation follows it. */
  lemma ApplyFollows(s: Store, op: Op, id: ListingId)
    requires Consistent(s) && id in s.listings && id in Apply(s, op).listings
    ensures Follows(Apply(s, op).listings[id], s.listings[id], [op])
  {
    var l := s.listings[id];
    if op.Crawl? {
      UpsertWritesListing(s, op.h, op.inc);
    }
    if op.Crawl? && op.inc.url == l.url {
      RefreshedFollows(Apply(s, op).listings[id], l, op.h, op.inc);
    } else {
      if op.Cache? && op.h in s.histories {
        LinkCachedKeeps(s, op.h, op.docs);
      }
      OtherFollows(l, op);
    }
  }

  lemma FollowsCons(a: Listing, b: Listing, c: Listing, ops: seq<Op>)
    requires ops != [] && Follows(b, a, [ops[0]]) && Follows(c, b, ops[1..])
    ensures Follows(c, a, ops)
  {
    OneBrought([ops[0]], a.url, TitleBrought(), Some(a.title));
    OneBrought([ops[0]], a.url, PriceBrought(), a.price);
    OneBrought([ops[0]], a.url, SellerBrought(), a.seller);
    OneBrought([ops[0]], a.url, RegionBrought(), a.region);
    OneBrought([ops[0]], a.url, ImageBrought(), a.imageUrl);
  }

  lemma NewIdsAreLater(s: Store, op: Op, id: ListingId)
    requires Consistent(s) && id !in s.listings && id < s.nextId
    ensures id !in Apply(s, op).listings && id < Apply(s, op).nextId
  {
    match op
    case Crawl(h, inc) => UpsertWritesListing(s, h, inc); ApplyKeepsIds(s, op);
    case Cache(h, docs) => if h in s.histories { LinkCachedKeeps(s, h, docs); }
    case _ =>
  }

  lemma {:induction false} GoneStaysGone(s: Store, ops: seq<Op>, id: ListingId)
    requires Consistent(s) && id !in s.listings && id < s.nextId
    ensures id !in ApplyAll(s, ops).listings
    decreases |ops|
  {
    if ops == [] {
    } else {
      NewIdsAreLater(s, ops[0], id);
      ApplyKeepsConsistent(s, ops[0], 0);
      GoneStaysGone(Apply(s, ops[0]), ops[1..], id);
    }
  }

  /**
   * A listing that is stored before and after a run holds, in each field, the last value that
   * any crawl of its URL brought, and what it held before if none did: whoever crawled it, and
   * whatever was cached or deleted in between.
   */
  lemma {:induction false} ListingHoldsLastBrought(s: Store, ops: seq<Op>, id: ListingId)
    requires Consistent(s) && id in s.listings && id in ApplyAll(s, ops).listings
    ensures Follows(ApplyAll(s, ops).listings[id], s.listings[id], ops)
    decreases |ops|
  {
    if ops == [] {
    } else {
      var t := Apply(s, ops[0]);
      ApplyKeepsConsistent(s, ops[0], 0);
      if id !in t.listings {
        ApplyKeepsIds(s, ops[0]);
        assert id < s.nextId;
        GoneStaysGone(t, ops[1..], id);
      } else {
        ApplyFollows(s, ops[0], id);
        ListingHoldsLastBrought(t, ops[1..], id);
        FollowsCons(s.listings[id], t.listings[id], ApplyAll(s, ops).listings[id], ops);
      }
    }
  }

  lemma CreatedByCrawl(s: Store, op: Op, id: ListingId)
    requires Consistent(s) && id !in s.listings && id in Apply(s, op).listings
    ensures op.Crawl? && Created(Apply(s, op).listings[id], op.inc, op.h)
  {
    match op
    case Crawl(h, inc) => UpsertWritesListing(s, h, inc);
    case Cache(h, docs) => if h in s.histories { LinkCachedKeeps(s, h, docs); }
    case _ =>
  }

  /** A listing that is new after a run was created by a crawl in it, and follows the rest of the run. */
  lemma {:induction false} NewListingWasCrawled(s: Store, ops: seq<Op>, id: ListingId) returns (k: nat, l: Listing)
    requires Consistent(s) && id !in s.listings && id in ApplyAll(s, ops).listings
    ensures k < |ops| && ops[k].Crawl? && Created(l, ops[k].inc, ops[k].h)
    ensures Follows(ApplyAll(s, ops).listings[id], l, ops[k + 1..])
    decreases |ops|
  {
    var t := Apply(s, ops[0]);
    ApplyKeepsConsistent(s, ops[0], 0);
    if id in t.listings {
      CreatedByCrawl(s, ops[0], id);
      ListingHoldsLastBrought(t, ops[1..], id);
      k, l := 0, t.listings[id];
    } else {
      k, l := NewListingWasCrawled(t, ops[1..], id);
      assert ops[1..][k + 1..] == ops[k + 2..];
      k := k + 1;
    }
  }

  /** So its price is the one the last crawl with a price found, at whatever position that was. */
  lemma PriceIsLastCrawled(s: Store, ops: seq<Op>, id: ListingId, k: nat)
    requires Consistent(s) && id in s.listings && id in ApplyAll(s, ops).listings
    requires k < |ops| && ops[k].Crawl? && ops[k].inc.url == s.listings[id].url && ops[k].inc.price.Some?
    requires forall j :: k < j < |ops| && ops[j].Crawl? && ops[j].inc.url == s.listings[id].url ==> ops[j].inc.price.None?
    ensures ApplyAll(s, ops).listings[id].price == ops[k].inc.price
  {
    ListingHoldsLastBrought(s, ops, id);
    LastBroughtIsLast(ops, s.listings[id].url, PriceBrought(), s.listings[id].price, k);
  }

  // ----- Snapshots of a cache hit -----

  /** The snapshot shows the cached document and, for what it lacks, the listing. */
  predicate ShowsDoc(snap: Snapshot, d: Doc, l: Listing) {
    && Beginning(snap.title, d.title)
    && Takes(snap.price, d.price, l.price) && Takes(snap.seller, d.seller, l.seller)
    && Takes(snap.region, d.region, l.region) && Takes(snap.imageUrl, d.image, l.imageUrl)
  }

  /** The history has a snapshot of the listing, and it shows the document. */
  predicate ShowsCached(snapshots: Snapshots, h: HistoryId, id: ListingId, d: Doc, l: Listing) {
    exists row :: row in snapshots && Links(snapshots[row], h, id) && ShowsDoc(snapshots[row], d, l)
  }

  lemma ShowingStays(before: Snapshots, after: Snapshots, h: HistoryId, id: ListingId, d: Doc, l: Listing)
    requires Extends(after, before) && ShowsCached(before, h, id, d, l)
    ensures ShowsCached(after, h, id, d, l)
  {
    var row :| row in before && Links(before[row], h, id) && ShowsDoc(before[row], d, l);
    assert row in after && after[row] == before[row];
  }

  lemma LinkOneShows(s: Store, h: HistoryId, id: ListingId, d: Doc)
    requires Consistent(s) && h in s.histories && id in s.listings && !HasSnapshot(s.snapshots, h, id)
    ensures ShowsCached(LinkOne(s, h, id, d).snapshots, h, id, d, s.listings[id])
  {
    var t := LinkOne(s, h, id, d);
    var snap := CachedSnapshot(h, id, d, s.listings[id]);
    assert t.snapshots[s.nextId] == snap;
    assert Links(snap, h, id) && ShowsDoc(snap, d, s.listings[id]);
  }

  /** The history's snapshot of a cached listing shows the first document that names it. */
  lemma {:induction false} LinkCachedShows(s: Store, h: HistoryId, docs: seq<(ListingId, Doc)>, i: nat)
    requires Consistent(s) && h in s.histories && i < |docs|
    requires docs[i].0 in s.listings && !HasSnapshot(s.snapshots, h, docs[i].0)
    requires forall j :: 0 <= j < i ==> docs[j].0 != docs[i].0
    ensures ShowsCached(LinkCached(s, h, docs).snapshots, h, docs[i].0, docs[i].1, s.listings[docs[i].0])
    decreases |docs|
  {
    var u := LinkOne(s, h, docs[0].0, docs[0].1);
    LinkOneKeeps(s, h, docs[0].0, docs[0].1);
    if i == 0 {
      LinkOneShows(s, h, docs[0].0, docs[0].1);
      LinkCachedKeeps(u, h, docs[1..]);
      ShowingStays(u.snapshots, LinkCached(u, h, docs[1..]).snapshots, h, docs[0].0, docs[0].1, s.listings[docs[0].0]);
    } else {
      LinkOneLinks(s, h, docs[0].0, docs[0].1, docs[i].0);
      assert docs[1..][i - 1] == docs[i];
      forall j | 0 <= j < i - 1 ensures docs[1..][j].0 != docs[i].0 {
        assert docs[1..][j] == docs[j + 1];
      }
      LinkCachedShows(u, h, docs[1..], i - 1);
    }
  }
}
