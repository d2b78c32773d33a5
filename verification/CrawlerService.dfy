/**
 * The crawl, cache-link and delete handlers over the listing tables
 * (crawler.service.ts, search.service.ts), each proved to be the store operation it stands for.
 */
module CrawlerService {
  import opened Common
  import opened ListingStore
  import opened CrawlTrace

  /** What one site contributes: the listings saved before it ended, and the error that ended it. */
  datatype SiteRun = SiteRun(kept: seq<Incoming>, error: Option<string>)

  /** What a finished history stores: how its crawl ended or that it came from the cache, and a count. */
  datatype HistoryOutcome = Crawled(status: CrawlStatus, resultCount: int) | Cached(resultCount: int)

  /** Everything the sites kept, in order. */
  function AllKept(runs: seq<SiteRun>): seq<Incoming> {
    if runs == [] then [] else runs[0].kept + AllKept(runs[1..])
  }

  lemma {:induction false} AllKeptSnoc(runs: seq<SiteRun>, run: SiteRun)
    ensures AllKept(runs + [run]) == AllKept(runs) + run.kept
  {
    if runs == [] {
      assert [run][1..] == [];
    } else {
      assert (runs + [run])[1..] == runs[1..] + [run];
      AllKeptSnoc(runs[1..], run);
    }
  }

  // ----- The operations of a crawl among those of others -----

  lemma {:induction false} ApplyAllSplits(s: Store, a: seq<Op>, b: seq<Op>)
    ensures ApplyAll(s, a + b) == ApplyAll(ApplyAll(s, a), b)
    decreases |a|
  {
    if a == [] {
      assert a + b == b;
    } else {
      assert (a + b)[0] == a[0] && (a + b)[1..] == a[1..] + b;
      ApplyAllSplits(Apply(s, a[0]), a[1..], b);
    }
  }

  lemma ApplySnoc(s: Store, ops: seq<Op>, op: Op)
    ensures ApplyAll(s, ops + [op]) == Apply(ApplyAll(s, ops), op)
  {
    ApplyAllSplits(s, ops, [op]);
    assert [op][1..] == [];
    assert ApplyAll(ApplyAll(s, ops), [op]) == ApplyAll(Apply(ApplyAll(s, ops), op), []);
  }

  /** The listings that `ops` crawl for history `h`, in order. */
  function Own(ops: seq<Op>, h: HistoryId): seq<Incoming> {
    if ops == [] then [] else (if ops[0].Crawl? && ops[0].h == h then [ops[0].inc] else []) + Own(ops[1..], h)
  }

  lemma {:induction false} OwnConcat(a: seq<Op>, b: seq<Op>, h: HistoryId)
    ensures Own(a + b, h) == Own(a, h) + Own(b, h)
  {
    if a == [] {
      assert a + b == b;
    } else {
      assert (a + b)[0] == a[0] && (a + b)[1..] == a[1..] + b;
      OwnConcat(a[1..], b, h);
    }
  }

  /** Whatever others do: they may even delete the history, but only its own worker crawls for it. */
  predicate FromOthers(ops: seq<Op>, h: HistoryId) {
    forall op :: op in ops ==> !((op.Crawl? || op.Finish?) && op.h == h)
  }

  lemma {:induction false} OthersOwnNothing(ops: seq<Op>, h: HistoryId)
    requires FromOthers(ops, h)
    ensures Own(ops, h) == []
  {
    if ops == [] {
    } else {
      assert ops[0] in ops;
      OthersOwnNothing(ops[1..], h);
    }
  }

  /** The operations `ops` led from `start` to `now`, and crawled the first `i` listings for `h`. */
  ghost predicate SiteStored(start: Store, now: Store, ops: seq<Op>, h: HistoryId, kept: seq<Incoming>, i: nat)
    requires i <= |kept|
  {
    now == ApplyAll(start, ops) && Finish(h) !in ops && Own(ops, h) == kept[..i]
  }

  /** One more listing of `h`, after what others did before it. */
  lemma {:induction false} CrawlRound(start: Store, now: Store, ops: seq<Op>, before: seq<Op>, h: HistoryId, kept: seq<Incoming>, i: nat)
    requires i < |kept| && SiteStored(start, now, ops, h, kept, i) && FromOthers(before, h)
    ensures SiteStored(start, Upsert(ApplyAll(now, before), h, kept[i]), ops + before + [Crawl(h, kept[i])], h, kept, i + 1)
  {
    var op := Crawl(h, kept[i]);
    ApplySnoc(start, ops + before, op);
    ApplyAllSplits(start, ops, before);
    OwnConcat(ops + before, [op], h);
    OwnConcat(ops, before, h);
    OthersOwnNothing(before, h);
    assert Own([op], h) == [kept[i]] + Own([op][1..], h);
    assert kept[..i + 1] == kept[..i] + [kept[i]];
  }

  /** What others do after the last listing. */
  lemma {:induction false} OthersRound(start: Store, now: Store, ops: seq<Op>, after: seq<Op>, h: HistoryId, kept: seq<Incoming>)
    requires SiteStored(start, now, ops, h, kept, |kept|) && FromOthers(after, h)
    ensures SiteStored(start, ApplyAll(now, after), ops + after, h, kept, |kept|)
  {
    ApplyAllSplits(start, ops, after);
    OwnConcat(ops, after, h);
    OthersOwnNothing(after, h);
  }

  /** One more saved listing extends the messages of its site by one. */
  lemma SavedMessagesGrow(
      sites: seq<string>, k: nat, saved: int, i: nat, now: int, start: seq<Progress>, before: seq<Progress>, after: seq<Progress>)
    requires k < |sites| && now == saved + i + 1
    requires before == start + SavedMessages(sites, k, saved, i) && after == before + [AtSite(sites, k, k, now)]
    ensures after == start + SavedMessages(sites, k, saved, i + 1)
  {
    var more := [AtSite(sites, k, k, now)];
    assert SavedMessages(sites, k, saved, i + 1) == SavedMessages(sites, k, saved, i) + more;
    ConcatAssoc(start, SavedMessages(sites, k, saved, i), more);
  }

  /** The message before a site, one per listing, the message after it. */
  lemma SiteMessagesJoin(
      sites: seq<string>, k: nat, saved: int, n: nat, e0: seq<Progress>, e1: seq<Progress>, e2: seq<Progress>, e3: seq<Progress>)
    requires k < |sites|
    requires e1 == e0 + [AtSite(sites, k, k, saved)]
    requires e2 == e1 + SavedMessages(sites, k, saved, n)
    requires e3 == e2 + [AtSite(sites, k, k + 1, saved + n)]
    ensures e3 == e0 + SiteMessages(sites, k, saved, n)
  {
    var a, b, c := [AtSite(sites, k, k, saved)], SavedMessages(sites, k, saved, n), [AtSite(sites, k, k + 1, saved + n)];
    ConcatAssoc(e0, a, b);
    ConcatAssoc(e0, a + b, c);
  }

  /** The message that opens a crawl, those of its sites, the one that closes it. */
  lemma TraceJoin(
      sites: seq<string>, tallies: seq<SiteTally>, stored: int, e0: seq<Progress>, e1: seq<Progress>, e2: seq<Progress>, e3: seq<Progress>)
    requires |sites| == |tallies| && e1 == e0 + [Emit(CrawlRunning, None, [], sites, 0, |sites|)]
    requires e2 == e1 + SiteTrace(sites, tallies, 0, 0)
    requires e3 == e2 + [Emit(FinalStatus(tallies), None, sites, [], stored, |sites|)]
    ensures e3 == e0 + Trace(sites, tallies, stored)
  {
    var a, b, c := [Emit(CrawlRunning, None, [], sites, 0, |sites|)], SiteTrace(sites, tallies, 0, 0),
      [Emit(FinalStatus(tallies), None, sites, [], stored, |sites|)];
    ConcatAssoc(e0, a, b);
    ConcatAssoc(e0, a + b, c);
  }

  predicate AnyFailed(tallies: seq<SiteTally>) {
    exists t :: t in tallies && t.error.Some?
  }

  /**
   * What a site left behind: everything it kept and its own error, or, once the history is
   * deleted, fewer listings and an error.
   */
  predicate TallyFits(t: SiteTally, run: SiteRun, deleted: bool) {
    t == SiteTally(|run.kept|, run.error) || (deleted && t.saved < |run.kept| && t.error.Some?)
  }

  predicate TalliesFit(tallies: seq<SiteTally>, runs: seq<SiteRun>, deleted: bool) {
    |tallies| <= |runs| && forall k :: 0 <= k < |tallies| ==> TallyFits(tallies[k], runs[k], deleted)
  }

  /** What the sites crawled so far did to the store. */
  ghost predicate SitesStored(start: Store, now: Store, ops: seq<Op>, h: HistoryId, runs: seq<SiteRun>, tallies: seq<SiteTally>) {
    && now == ApplyAll(start, ops) && Finish(h) !in ops
    && (h in now.histories <==> Delete(h) !in ops)
    && TalliesFit(tallies, runs, Delete(h) in ops)
    && (h in now.histories ==> Own(ops, h) == AllKept(runs[..|tallies|]))
  }

  lemma {:induction false} SiteStoredNext(start: Store, mid: Store, now: Store, ops: seq<Op>, siteOps: seq<Op>, h: HistoryId,
                       runs: seq<SiteRun>, tallies: seq<SiteTally>, t: SiteTally)
    requires Consistent(start) && h in start.histories && |tallies| < |runs|
    requires SitesStored(start, mid, ops, h, runs, tallies)
    requires now == ApplyAll(mid, siteOps) && Finish(h) !in siteOps
    requires TallyFits(t, runs[|tallies|], h !in now.histories)
    requires h in now.histories ==> Own(siteOps, h) == runs[|tallies|].kept
    ensures SitesStored(start, now, ops + siteOps, h, runs, tallies + [t])
  {
    var k := |tallies|;
    ApplyAllSplits(start, ops, siteOps);
    HistoryStaysIff(start, ops + siteOps, h);
    OwnConcat(ops, siteOps, h);
    AllKeptSnoc(runs[..k], runs[k]);
    assert runs[..k + 1] == runs[..k] + [runs[k]];
  }

  /** The messages of the sites crawled so far, and what the loop has counted. */
  predicate SitesSent(before: seq<Progress>, after: seq<Progress>, parts: seq<seq<Progress>>, starts: seq<int>,
                      sites: seq<string>, tallies: seq<SiteTally>, saved: int, failed: bool) {
    && PartsOf(parts, starts, sites, tallies) && after == before + Flatten(parts)
    && saved == starts[|tallies|] && saved == TotalSaved(tallies) && (failed <==> AnyFailed(tallies))
  }

  lemma {:induction false} SitesSentNext(before: seq<Progress>, mid: seq<Progress>, after: seq<Progress>, parts: seq<seq<Progress>>, starts: seq<int>,
                      sites: seq<string>, tallies: seq<SiteTally>, saved: int, failed: bool, t: SiteTally,
                      part: seq<Progress>, savedNow: int, failedNow: bool)
    requires |tallies| < |sites| && SitesSent(before, mid, parts, starts, sites, tallies, saved, failed)
    requires part == SiteMessages(sites, |tallies|, saved, t.saved) && after == mid + part
    requires savedNow == saved + t.saved && (failedNow <==> failed || t.error.Some?)
    ensures SitesSent(before, after, parts + [part], starts + [savedNow], sites, tallies + [t], savedNow, failedNow)
  {
    TotalSavedSnoc(tallies, t);
    PartsGrow(parts, starts, sites, tallies, t);
    FlattenSnoc(parts, part);
    ConcatAssoc(before, Flatten(parts), part);
    assert (tallies + [t])[|tallies|] == t;
    if failed {
      var x :| x in tallies && x.error.Some?;
      assert x in tallies + [t];
    }
  }

  lemma {:induction false} SitesSentAll(before: seq<Progress>, after: seq<Progress>, parts: seq<seq<Progress>>, starts: seq<int>,
                     sites: seq<string>, tallies: seq<SiteTally>, saved: int, failed: bool)
    requires |tallies| == |sites| && SitesSent(before, after, parts, starts, sites, tallies, saved, failed)
    ensures after == before + SiteTrace(sites, tallies, 0, 0)
  {
    PartsMakeTrace(parts, starts, sites, tallies, 0);
    assert parts[0..] == parts;
  }

  class Tables {
    var histories: set<HistoryId>
    var listings: map<ListingId, Listing>
    var snapshots: map<RowId, Snapshot>
    var index: map<ListingId, Doc>
    var cases: map<CaseId, HistoryId>
    var jobs: map<JobId, Option<HistoryId>>
    var nextId: nat
    var outcomes: map<HistoryId, HistoryOutcome>
    /** Every progress message published. */
    var events: seq<Progress>

    ghost function Model(): Store
      reads this
    {
      Store(histories, listings, snapshots, index, cases, jobs, nextId)
    }

    constructor ()
      ensures WF(Model()) && events == []
    {
      histories, listings, snapshots, index := {}, map[], map[], map[];
      cases, jobs, nextId, outcomes, events := map[], map[], 0, map[], [];
    }

    method FindListing(url: string) returns (r: Option<ListingId>)
      requires UniqueUrls(listings)
      ensures r == FindByUrl(listings, url)
    {
      if exists id :: id in listings && listings[id].url == url {
        var id :| id in listings && listings[id].url == url;
        assert SameUrl(listings[id], listings[FindByUrl(listings, url).value]);
        r := Some(id);
      } else {
        r := None;
      }
    }

    method FindSnapshotRow(h: HistoryId, id: ListingId) returns (r: Option<RowId>)
      requires UniquePairs(snapshots)
      ensures r == FindSnapshot(snapshots, h, id)
    {
      if exists row :: row in snapshots && Links(snapshots[row], h, id) {
        var row :| row in snapshots && Links(snapshots[row], h, id);
        assert SamePair(snapshots[row], snapshots[FindSnapshot(snapshots, h, id).value]);
        r := Some(row);
      } else {
        r := None;
      }
    }

    method UpsertHistorySnapshot(snap: Snapshot)
      requires UniquePairs(snapshots)
      modifies this`snapshots, this`nextId
      ensures Model() == PutSnapshot(old(Model()), snap)
    {
      var existing := FindSnapshotRow(snap.historyId, snap.listingId);
      if existing.Some? {
        snapshots := snapshots[existing.value := snap];
      } else {
        snapshots := snapshots[nextId := snap];
        nextId := nextId + 1;
      }
    }

    method SaveListing(h: HistoryId, inc: Incoming) returns (id: ListingId)
      requires Consistent(Model())
      modifies this`listings, this`nextId
      ensures Model() == PutListing(old(Model()), h, inc) && id == ListingIdFor(old(Model()), inc.url)
      ensures id in listings
    {
      var existing := FindListing(inc.url);
      if existing.Some? {
        id := existing.value;
        var l := listings[id];
        l := l.(lastSeen := h, title := Truncate500(inc.title));
        if inc.price.Some? { l := l.(price := inc.price); }
        if inc.seller.Some? { l := l.(seller := inc.seller); }
        if inc.region.Some? { l := l.(region := inc.region); }
        if inc.imageUrl.Some? && inc.imageUrl.value != "" { l := l.(imageUrl := inc.imageUrl); }
        listings := listings[id := l];
      } else {
        id := nextId;
        listings := listings[id := Listing(inc.url, Truncate500(inc.title), inc.price, inc.seller, inc.region, inc.imageUrl, h)];
        nextId := nextId + 1;
      }
    }

    /** `ok` is false when the snapshot insert fails because the history is gone. */
    method UpsertResult(h: HistoryId, inc: Incoming) returns (ok: bool)
      requires Consistent(Model())
      modifies this`listings, this`snapshots, this`index, this`nextId
      ensures Model() == Upsert(old(Model()), h, inc) && Consistent(Model())
      ensures ok <==> h in histories
    {
      UpsertKeepsConsistent(Model(), h, inc);
      PutListingKeeps(Model(), h, inc);
      var id := SaveListing(h, inc);
      if h !in histories {
        return false;
      }
      var saved := listings[id];
      UpsertHistorySnapshot(SnapshotFor(h, id, inc, saved));
      index := index[id := DocFor(inc, saved, h)];
      ok := true;
    }

    method LinkCachedResults(h: HistoryId, docs: seq<(ListingId, Doc)>)
      requires Consistent(Model()) && h in histories
      modifies this`snapshots, this`nextId
      ensures Model() == LinkCached(old(Model()), h, docs) && Consistent(Model())
    {
      var i := 0;
      while i < |docs|
        invariant i <= |docs| && Consistent(Model()) && h in histories
        invariant LinkCached(Model(), h, docs[i..]) == LinkCached(old(Model()), h, docs)
      {
        var (id, doc) := docs[i];
        LinkOneKeeps(Model(), h, id, doc);
        assert docs[i..][0] == docs[i] && docs[i..][1..] == docs[i + 1..];
        if id in listings {
          var existing := FindSnapshotRow(h, id);
          if existing.None? {
            UpsertHistorySnapshot(CachedSnapshot(h, id, doc, listings[id]));
          }
        }
        i := i + 1;
      }
    }

    /** A cache hit: a new, already finished history linked to the cached documents. */
    method SearchFromCache(docs: seq<(ListingId, Doc)>) returns (h: HistoryId)
      requires Consistent(Model())
      modifies this`histories, this`snapshots, this`nextId, this`outcomes
      ensures h == old(nextId) && Model() == LinkCached(OpenHistory(old(Model())), h, docs) && Consistent(Model())
      ensures WF(old(Model())) ==> WF(Model())
      ensures outcomes == old(outcomes)[h := Cached(|docs|)]
    {
      LinkCachedKeeps(OpenHistory(Model()), nextId, docs);
      h := nextId;
      histories := histories + {h};
      nextId := nextId + 1;
      outcomes := outcomes[h := Cached(|docs|)];
      LinkCachedResults(h, docs);
    }

    /** Answers whether the history existed; without it nothing changes. */
    method DeleteSearch(h: HistoryId) returns (found: bool)
      requires Consistent(Model())
      modifies this`histories, this`listings, this`snapshots, this`index, this`cases, this`jobs
      ensures found <==> h in old(histories)
      ensures Model() == if found then DeleteHistory(old(Model()), h) else old(Model())
      ensures Consistent(Model()) && (WF(old(Model())) ==> WF(Model()))
    {
      if h !in histories {
        return false;
      }
      DeleteKeepsConsistent(Model(), h);
      if WF(Model()) {
        DeleteKeepsWF(Model(), h);
      }
      var linkedIds := set row | row in snapshots && snapshots[row].historyId == h :: snapshots[row].listingId;
      DetachHistory(h);
      var orphanIds := CollectOrphans(linkedIds);
      assert orphanIds == Orphans(old(snapshots), h);
      listings := listings - orphanIds;
      index := index - orphanIds;
      found := true;
    }

    /** Cases and snapshots go with the history; jobs only lose their link to it. */
    method DetachHistory(h: HistoryId)
      modifies this`histories, this`snapshots, this`cases, this`jobs
      ensures Model() == Detached(old(Model()), h)
    {
      cases := map c | c in cases && cases[c] != h :: cases[c];
      jobs := map j | j in jobs :: if jobs[j] == Some(h) then None else jobs[j];
      histories := histories - {h};
      snapshots := map row | row in snapshots && snapshots[row].historyId != h :: snapshots[row];
      assert snapshots == OtherSnapshots(old(snapshots), h);
    }

    /** The candidates that no remaining snapshot links. */
    method CollectOrphans(candidates: set<ListingId>) returns (orphanIds: set<ListingId>)
      ensures orphanIds == set id | id in candidates && !Linked(snapshots, id)
    {
      orphanIds := {};
      var rest := candidates;
      while rest != {}
        invariant rest <= candidates
        invariant orphanIds == set id | id in candidates && id !in rest && !Linked(snapshots, id)
        decreases rest
      {
        var id :| id in rest;
        var stillLinked := exists row :: row in snapshots && snapshots[row].listingId == id;
        if !stillLinked {
          orphanIds := orphanIds + {id};
        }
        rest := rest - {id};
      }
    }

    method EmitProgress(
        status: CrawlStatus, currentSite: Option<string>, completed: seq<string>, sites: seq<string>, pending: seq<string>,
        resultCount: int)
      modifies this`events
      ensures events == old(events) + [Emit(status, currentSite, completed, pending, resultCount, |sites|)]
    {
      var total := Max(|sites|, 1) as real;
      var siteShare := |completed| as real / total;
      var boost := if status.CrawlRunning? && currentSite.Some? then 0.5 / total else 0.0;
      var percent := Round((siteShare + boost) * 100.0);
      if status.CrawlCompleted? || status.CrawlPartial? {
        percent := 100;
      } else if status.CrawlFailed? {
        percent := Max(percent, 100);
      }
      percent := Max(0, Min(100, percent));
      events := events + [Progress(status, percent, currentSite, completed, pending, resultCount)];
    }

    /** What the other actors do while a crawl waits. */
    method RunOthers(ops: seq<Op>)
      requires Consistent(Model())
      modifies this`histories, this`listings, this`snapshots, this`index, this`cases, this`jobs, this`nextId
      ensures Consistent(Model()) && Model() == ApplyAll(old(Model()), ops)
    {
      var i := 0;
      while i < |ops|
        invariant i <= |ops| && Consistent(Model())
        invariant Model() == ApplyAll(old(Model()), ops[..i])
      {
        ApplySnoc(old(Model()), ops[..i], ops[i]);
        assert ops[..i + 1] == ops[..i] + [ops[i]];
        RunOther(ops[i]);
        i := i + 1;
      }
      assert ops[..i] == ops;
    }

    method RunOther(op: Op)
      requires Consistent(Model())
      modifies this`histories, this`listings, this`snapshots, this`index, this`cases, this`jobs, this`nextId
      ensures Consistent(Model()) && Model() == Apply(old(Model()), op)
    {
      match op {
        case Open =>
          histories := histories + {nextId};
          nextId := nextId + 1;
        case Crawl(h, inc) =>
          var _ := UpsertResult(h, inc);
        case Finish(h) =>
          SaveHistory(h);
        case Cache(h, docs) =>
          if h in histories {
            LinkCachedResults(h, docs);
          }
        case Delete(h) =>
          var _ := DeleteSearch(h);
      }
    }

    /** The repository's save: it inserts the row if it is missing. */
    method SaveHistory(h: HistoryId)
      requires Consistent(Model())
      modifies this`histories
      ensures Consistent(Model()) && Model() == Apply(old(Model()), Finish(h))
    {
      if h < nextId {
        histories := histories + {h};
      }
    }

    /** Saves one listing and publishes the message for it; `ok` is false when the history is gone. */
    method SaveAndReport(h: HistoryId, sites: seq<string>, k: nat, inc: Incoming, before: seq<Op>, alreadySaved: int)
      returns (saved: int, ok: bool)
      requires Consistent(Model()) && k < |sites|
      modifies this`histories, this`listings, this`snapshots, this`index, this`cases, this`jobs, this`nextId, this`events
      ensures Consistent(Model()) && Model() == Upsert(ApplyAll(old(Model()), before), h, inc)
      ensures ok <==> h in histories
      ensures if ok then saved == alreadySaved + 1 && events == old(events) + [AtSite(sites, k, k, saved)]
              else saved == alreadySaved && events == old(events)
    {
      RunOthers(before);
      ok := UpsertResult(h, inc);
      saved := alreadySaved;
      if ok {
        saved := saved + 1;
        EmitProgress(CrawlRunning, Some(sites[k]), sites[..k], sites, PendingOf(sites, sites[..k]), saved);
      }
    }

    /**
     * Saves one site's listings in order, with a message after each. The first listing that finds
     * the history deleted ends the site.
     */
    method SaveSiteListings(h: HistoryId, sites: seq<string>, k: nat, kept: seq<Incoming>, noise: nat -> seq<Op>, alreadySaved: int)
      returns (saved: int, ok: bool, ghost ops: seq<Op>)
      requires Consistent(Model()) && k < |sites| && forall i: nat :: FromOthers(noise(i), h)
      modifies this`histories, this`listings, this`snapshots, this`index, this`cases, this`jobs, this`nextId, this`events
      ensures Consistent(Model()) && Model() == ApplyAll(old(Model()), ops) && Finish(h) !in ops
      ensures alreadySaved <= saved <= alreadySaved + |kept|
      ensures events == old(events) + SavedMessages(sites, k, alreadySaved, saved - alreadySaved)
      ensures ok ==> saved == alreadySaved + |kept| && Own(ops, h) == kept
      ensures !ok ==> saved < alreadySaved + |kept| && h !in histories && Own(ops, h) == kept[..saved - alreadySaved + 1]
    {
      saved, ok, ops := alreadySaved, true, [];
      ghost var start, sent := Model(), events;
      var i := 0;
      while i < |kept|
        invariant i <= |kept| && saved == alreadySaved + i && Consistent(Model())
        invariant SiteStored(start, Model(), ops, h, kept, i)
        invariant events == sent + SavedMessages(sites, k, alreadySaved, i)
      {
        ghost var before := events;
        CrawlRound(start, Model(), ops, noise(i), h, kept, i);
        saved, ok := SaveAndReport(h, sites, k, kept[i], noise(i), saved);
        ops := ops + noise(i) + [Crawl(h, kept[i])];
        if !ok {
          return;
        }
        SavedMessagesGrow(sites, k, alreadySaved, i, saved, sent, before, events);
        i := i + 1;
      }
      OthersRound(start, Model(), ops, noise(i), h, kept);
      RunOthers(noise(i));
      ops, ok := ops + noise(i), true;
    }

    /** One site of the crawl: the message before it, its listings, the message after it. */
    method CrawlSite(h: HistoryId, sites: seq<string>, run: SiteRun, k: nat, noise: nat -> seq<Op>, alreadySaved: int)
      returns (saved: int, error: Option<string>, ghost ops: seq<Op>)
      requires Consistent(Model()) && k < |sites| && forall i: nat :: FromOthers(noise(i), h)
      modifies this`histories, this`listings, this`snapshots, this`index, this`cases, this`jobs, this`nextId, this`events
      ensures Consistent(Model()) && Model() == ApplyAll(old(Model()), ops) && Finish(h) !in ops
      ensures saved >= alreadySaved && TallyFits(SiteTally(saved - alreadySaved, error), run, h !in histories)
      ensures events == old(events) + SiteMessages(sites, k, alreadySaved, saved - alreadySaved)
      ensures h in histories ==> Own(ops, h) == run.kept
    {
      EmitProgress(CrawlRunning, Some(sites[k]), sites[..k], sites, PendingOf(sites, sites[..k]), alreadySaved);
      ghost var e1 := events;
      var ok: bool;
      saved, ok, ops := SaveSiteListings(h, sites, k, run.kept, noise, alreadySaved);
      error := if ok then run.error else Some("insert of the snapshot failed");
      ghost var e2 := events;
      EmitProgress(CrawlRunning, Some(sites[k]), sites[..k + 1], sites, PendingOf(sites, sites[..k + 1]), saved);
      SiteMessagesJoin(sites, k, alreadySaved, saved - alreadySaved, old(events), e1, e2, events);
    }

    /** All sites in turn; a failing site does not stop the others. */
    method CrawlSites(h: HistoryId, sites: seq<string>, runs: seq<SiteRun>, noise: nat -> nat -> seq<Op>)
      returns (saved: int, failed: bool, ghost ops: seq<Op>, ghost tallies: seq<SiteTally>)
      requires Consistent(Model()) && h in histories && |sites| == |runs|
      requires forall k: nat, i: nat :: FromOthers(noise(k)(i), h)
      modifies this`histories, this`listings, this`snapshots, this`index, this`cases, this`jobs, this`nextId, this`events
      ensures Consistent(Model()) && Model() == ApplyAll(old(Model()), ops) && Finish(h) !in ops
      ensures h in histories <==> Delete(h) !in ops
      ensures |tallies| == |sites| && TalliesFit(tallies, runs, Delete(h) in ops)
      ensures h in histories ==> Own(ops, h) == AllKept(runs)
      ensures events == old(events) + SiteTrace(sites, tallies, 0, 0)
      ensures saved == TotalSaved(tallies) && (failed <==> AnyFailed(tallies))
    {
      saved, failed, ops, tallies := 0, false, [], [];
      ghost var start, sent := Model(), events;
      ghost var parts: seq<seq<Progress>>, starts := [], [0];
      var k := 0;
      while k < |sites|
        invariant k <= |sites| && |tallies| == k && Consistent(Model())
        invariant SitesStored(start, Model(), ops, h, runs, tallies)
        invariant SitesSent(sent, events, parts, starts, sites, tallies, saved, failed)
      {
        ghost var mid, e0, saved0, failed0 := Model(), events, saved, failed;
        ghost var siteOps: seq<Op>;
        var error: Option<string>;
        saved, error, siteOps := CrawlSite(h, sites, runs[k], k, noise(k), saved);
        if error.Some? {
          failed := true;
        }
        ghost var t := SiteTally(saved - saved0, error);
        SiteStoredNext(start, mid, Model(), ops, siteOps, h, runs, tallies, t);
        ghost var part := SiteMessages(sites, k, saved0, t.saved);
        SitesSentNext(sent, e0, events, parts, starts, sites, tallies, saved0, failed0, t, part, saved, failed);
        parts, starts := parts + [part], starts + [saved];
        ops, tallies := ops + siteOps, tallies + [t];
        k := k + 1;
      }
      assert runs[..k] == runs;
      SitesSentAll(sent, events, parts, starts, sites, tallies, saved, failed);
    }

    /**
     * A whole crawl among whatever others do while it waits, the deletion of its own search
     * included. The messages are the trace of what the sites left behind, and the stored count is
     * the number of this history's snapshots. Undisturbed, every kept listing is upserted in
     * order; a search deleted on the way comes back with the final save, empty.
     */
    method ExecuteCrawl(h: HistoryId, sites: seq<string>, runs: seq<SiteRun>, noise: nat -> nat -> seq<Op>)
      returns (found: bool, ghost ops: seq<Op>, ghost tallies: seq<SiteTally>)
      requires Consistent(Model()) && |sites| == |runs|
      requires forall k: nat, i: nat :: FromOthers(noise(k)(i), h)
      modifies this
      ensures Consistent(Model()) && (found <==> h in old(histories))
      ensures !found ==> Model() == old(Model()) && events == old(events) && outcomes == old(outcomes)
      ensures found ==> Model() == ApplyAll(old(Model()), ops) && h in histories
      ensures found ==> |tallies| == |sites| && TalliesFit(tallies, runs, Delete(h) in ops)
      ensures found ==> events == old(events) + Trace(sites, tallies, |SnapshotsOf(snapshots, h)|)
      ensures found ==> outcomes == old(outcomes)[h := Crawled(FinalStatus(tallies), |SnapshotsOf(snapshots, h)|)]
      ensures found && Delete(h) in ops ==> SnapshotsOf(snapshots, h) == map[]
      ensures found && Delete(h) !in ops ==> Own(ops, h) == AllKept(runs)
      ensures found && WF(old(Model())) && AllInTime(old(Model()), ops) ==> WF(Model())
    {
      ops, tallies := [], [];
      found := h in histories;
      if found {
        ops, tallies := CrawlHistory(h, sites, runs, noise);
      }
    }

    method CrawlHistory(h: HistoryId, sites: seq<string>, runs: seq<SiteRun>, noise: nat -> nat -> seq<Op>)
      returns (ghost ops: seq<Op>, ghost tallies: seq<SiteTally>)
      requires Consistent(Model()) && h in histories && |sites| == |runs|
      requires forall k: nat, i: nat :: FromOthers(noise(k)(i), h)
      modifies this
      ensures Consistent(Model()) && Model() == ApplyAll(old(Model()), ops) && h in histories
      ensures |tallies| == |sites| && TalliesFit(tallies, runs, Delete(h) in ops)
      ensures events == old(events) + Trace(sites, tallies, |SnapshotsOf(snapshots, h)|)
      ensures outcomes == old(outcomes)[h := Crawled(FinalStatus(tallies), |SnapshotsOf(snapshots, h)|)]
      ensures Delete(h) in ops ==> SnapshotsOf(snapshots, h) == map[]
      ensures Delete(h) !in ops ==> Own(ops, h) == AllKept(runs)
      ensures WF(old(Model())) && AllInTime(old(Model()), ops) ==> WF(Model())
    {
      EmitProgress(CrawlRunning, None, [], sites, sites, 0);
      ghost var e1 := events;
      var saved, failed;
      saved, failed, ops, tallies := CrawlSites(h, sites, runs, noise);
      ghost var e2, crawled := events, ops;
      EndOfCrawl(old(Model()), crawled, h);
      var stored := FinishCrawl(h, sites, saved, failed, tallies);
      ops := crawled + [Finish(h)];
      TraceJoin(sites, tallies, stored, old(events), e1, e2, events);
    }

    /** Counts the snapshots, saves the history and sends the last message. */
    method FinishCrawl(h: HistoryId, sites: seq<string>, saved: int, failed: bool, ghost tallies: seq<SiteTally>) returns (stored: int)
      requires Consistent(Model()) && saved == TotalSaved(tallies) && (failed <==> AnyFailed(tallies))
      modifies this`histories, this`outcomes, this`events
      ensures Consistent(Model()) && Model() == Apply(old(Model()), Finish(h))
      ensures stored == |SnapshotsOf(snapshots, h)|
      ensures outcomes == old(outcomes)[h := Crawled(FinalStatus(tallies), stored)]
      ensures events == old(events) + [Emit(FinalStatus(tallies), None, sites, [], stored, |sites|)]
    {
      stored := |SnapshotsOf(snapshots, h)|;
      var status := if !failed then CrawlCompleted else if saved > 0 then CrawlPartial else CrawlFailed;
      outcomes := outcomes[h := Crawled(status, stored)];
      SaveHistory(h);
      EmitProgress(status, None, sites, sites, [], stored);
    }
  }

  /** The last save of a crawl, after the operations `ops`. */
  lemma {:induction false} EndOfCrawl(s: Store, ops: seq<Op>, h: HistoryId)
    requires Consistent(s) && h in s.histories && Finish(h) !in ops
    ensures var t := ApplyAll(s, ops + [Finish(h)]);
      && t == Apply(ApplyAll(s, ops), Finish(h)) && h in t.histories
      && (Delete(h) in ops ==> SnapshotsOf(t.snapshots, h) == map[])
      && Own(ops + [Finish(h)], h) == Own(ops, h)
      && (WF(s) && AllInTime(s, ops + [Finish(h)]) ==> WF(t))
  {
    ApplySnoc(s, ops, Finish(h));
    HistoryStaysIff(s, ops, h);
    OwnConcat(ops, [Finish(h)], h);
    assert Own([Finish(h)], h) == [] + Own([Finish(h)][1..], h);
    if WF(s) {
      RunKeepsWFIff(s, ops + [Finish(h)]);
    }
  }

  // ----- What the stored result count counts -----

  /** The history has a result with this URL. */
  predicate HasUrl(s: Store, h: HistoryId, url: string) {
    exists row :: row in s.snapshots && s.snapshots[row].historyId == h
      && s.snapshots[row].listingId in s.listings && s.listings[s.snapshots[row].listingId].url == url
  }

  /** The URLs a history has results for. */
  function UrlsOf(s: Store, h: HistoryId): set<string> {
    set row | row in s.snapshots && s.snapshots[row].historyId == h && s.snapshots[row].listingId in s.listings
      :: s.listings[s.snapshots[row].listingId].url
  }

  /** A history's snapshots and its URLs correspond one to one. */
  lemma SnapshotsCountUrls(s: Store, h: HistoryId)
    requires Consistent(s)
    ensures |SnapshotsOf(s.snapshots, h)| == |UrlsOf(s, h)|
  {
    var own := SnapshotsOf(s.snapshots, h);
    var url := (row: RowId) => if row in own && own[row].listingId in s.listings then s.listings[own[row].listingId].url else "";
    forall a, b | a in own.Keys && b in own.Keys && url(a) == url(b) ensures a == b {
      assert SameUrl(s.listings[own[a].listingId], s.listings[own[b].listingId]);
      assert SamePair(s.snapshots[a], s.snapshots[b]);
    }
    InjectionSize(own.Keys, url);
    assert UrlsOf(s, h) == set row | row in own.Keys :: url(row);
  }

  lemma {:induction false} InjectionSize<T>(rows: set<RowId>, f: RowId -> T)
    requires forall a, b :: a in rows && b in rows && f(a) == f(b) ==> a == b
    ensures |set row | row in rows :: f(row)| == |rows|
    decreases rows
  {
    var image := set row | row in rows :: f(row);
    if rows != {} {
      var x :| x in rows;
      var rest := rows - {x};
      InjectionSize(rest, f);
      var smaller := set row | row in rest :: f(row);
      assert f(x) !in smaller;
      assert image == smaller + {f(x)};
    }
  }

  /** Saving the master row changes no URL of a result. */
  lemma PutListingKeepsUrls(s: Store, h: HistoryId, inc: Incoming, g: HistoryId, url: string)
    requires Consistent(s)
    ensures HasUrl(PutListing(s, h, inc), g, url) <==> HasUrl(s, g, url)
  {
    var t := PutListing(s, h, inc);
    forall row | row in s.snapshots
      ensures s.snapshots[row].listingId in t.listings
        && t.listings[s.snapshots[row].listingId].url == s.listings[s.snapshots[row].listingId].url
    {}
  }

  /** Saving a snapshot adds its listing's URL to its history's results. */
  lemma PutSnapshotAddsUrl(s: Store, snap: Snapshot, url: string)
    requires Consistent(s) && snap.listingId in s.listings
    ensures HasUrl(PutSnapshot(s, snap), snap.historyId, url) <==>
      HasUrl(s, snap.historyId, url) || s.listings[snap.listingId].url == url
  {
    var t := PutSnapshot(s, snap);
    var found := FindSnapshot(s.snapshots, snap.historyId, snap.listingId);
    var at := if found.Some? then found.value else s.nextId;
    assert t.snapshots == s.snapshots[at := snap];
    assert t.snapshots[at] == snap;
    if HasUrl(s, snap.historyId, url) {
      var row :| row in s.snapshots && s.snapshots[row].historyId == snap.historyId
        && s.snapshots[row].listingId in s.listings && s.listings[s.snapshots[row].listingId].url == url;
      assert row in t.snapshots && t.snapshots[row].listingId == s.snapshots[row].listingId;
    }
  }

  lemma SameTablesSameUrls(s: Store, t: Store, h: HistoryId, url: string)
    requires s.snapshots == t.snapshots && s.listings == t.listings
    ensures HasUrl(s, h, url) <==> HasUrl(t, h, url)
  {
  }

  lemma {:induction false} UpsertAddsUrl(s: Store, h: HistoryId, inc: Incoming, url: string)
    requires Consistent(s) && h in s.histories
    ensures HasUrl(Upsert(s, h, inc), h, url) <==> HasUrl(s, h, url) || url == inc.url
  {
    var p := PutListing(s, h, inc);
    var id := ListingIdFor(s, inc.url);
    PutListingShape(s, h, inc);
    PutListingKeeps(s, h, inc);
    var snap := SnapshotFor(h, id, inc, p.listings[id]);
    PutListingKeepsUrls(s, h, inc, h, url);
    PutSnapshotAddsUrl(p, snap, url);
    PutSnapshotKeeps(p, snap);
    SameTablesSameUrls(Upsert(s, h, inc), PutSnapshot(p, snap), h, url);
  }

  /** The URLs among the kept listings. */
  function KeptUrls(kept: seq<Incoming>): set<string> {
    set inc | inc in kept :: inc.url
  }

  /** What others do leaves the URLs of this history's results alone. */
  lemma OthersKeepUrls(s: Store, op: Op, h: HistoryId, url: string)
    requires Consistent(s) && !Touches(op, h)
    ensures HasUrl(Apply(s, op), h, url) <==> HasUrl(s, h, url)
  {
    var t := Apply(s, op);
    ApplyKeepsConsistent(s, op, h);
    forall row | row in SnapshotsOf(s.snapshots, h)
      ensures row in t.snapshots && t.snapshots[row] == s.snapshots[row]
        && t.listings[s.snapshots[row].listingId].url == s.listings[s.snapshots[row].listingId].url
    {
      assert row in SnapshotsOf(t.snapshots, h);
      ListingKeepsUrl(s, op, s.snapshots[row].listingId);
    }
    forall row | row in SnapshotsOf(t.snapshots, h) ensures row in s.snapshots && t.snapshots[row] == s.snapshots[row] {
      assert row in SnapshotsOf(s.snapshots, h);
    }
  }

  /** A listing that stays keeps its URL. */
  lemma ListingKeepsUrl(s: Store, op: Op, id: ListingId)
    requires Consistent(s) && id in s.listings && id in Apply(s, op).listings
    ensures Apply(s, op).listings[id].url == s.listings[id].url
  {
    match op
    case Crawl(g, inc) => PutListingShape(s, g, inc);
    case Cache(g, docs) => if g in s.histories { LinkCachedKeeps(s, g, docs); }
    case _ =>
  }

  lemma {:induction false} CrawlAddsUrls(s: Store, ops: seq<Op>, h: HistoryId, url: string)
    requires Consistent(s) && h in s.histories
    requires forall op :: op in ops && Touches(op, h) ==> op.Crawl?
    ensures HasUrl(ApplyAll(s, ops), h, url) <==> HasUrl(s, h, url) || url in KeptUrls(Own(ops, h))
    decreases |ops|
  {
    if ops == [] {
    } else {
      var op := ops[0];
      assert op in ops;
      ApplyKeepsConsistent(s, op, h);
      ApplyKeepsIds(s, op);
      HistoryStaysStep(s, op, h);
      CrawlAddsUrls(Apply(s, op), ops[1..], h, url);
      if Touches(op, h) {
        UpsertAddsUrl(s, h, op.inc, url);
        assert KeptUrls([op.inc] + Own(ops[1..], h)) == {op.inc.url} + KeptUrls(Own(ops[1..], h));
      } else {
        OthersKeepUrls(s, op, h, url);
      }
    }
  }

  /**
   * The result count a crawl stores for a history without results is the number of distinct URLs
   * its sites kept, however often and on however many sites each was found, and whatever happened
   * to other histories meanwhile.
   */
  lemma ResultCountIsDistinctUrls(s: Store, ops: seq<Op>, h: HistoryId)
    requires Consistent(s) && h in s.histories && SnapshotsOf(s.snapshots, h) == map[]
    requires forall op :: op in ops && Touches(op, h) ==> op.Crawl?
    ensures |SnapshotsOf(ApplyAll(s, ops).snapshots, h)| == |KeptUrls(Own(ops, h))|
  {
    var t := ApplyAll(s, ops);
    HistoryStaysIff(s, ops, h);
    SnapshotsCountUrls(t, h);
    forall row | row in s.snapshots ensures s.snapshots[row].historyId != h {
      assert row !in SnapshotsOf(s.snapshots, h);
    }
    forall url ensures url in UrlsOf(t, h) <==> url in KeptUrls(Own(ops, h)) {
      CrawlAddsUrls(s, ops, h, url);
      assert url in UrlsOf(t, h) <==> HasUrl(t, h, url);
    }
    assert UrlsOf(t, h) == KeptUrls(Own(ops, h));
  }

  /** The listings a history has results for. */
  function IdsOf(s: Store, h: HistoryId): set<ListingId> {
    set row | row in s.snapshots && s.snapshots[row].historyId == h :: s.snapshots[row].listingId
  }

  lemma SnapshotsCountListings(s: Store, h: HistoryId)
    requires Consistent(s)
    ensures |SnapshotsOf(s.snapshots, h)| == |IdsOf(s, h)|
  {
    var own := SnapshotsOf(s.snapshots, h);
    forall a, b | a in own && b in own && own[a].listingId == own[b].listingId ensures a == b {
      assert SamePair(s.snapshots[a], s.snapshots[b]);
    }
    OwnListingsSize(own);
    forall id ensures id in IdsOf(s, h) <==> id in OwnListings(own) {
      if id in IdsOf(s, h) {
        var row :| row in s.snapshots && s.snapshots[row].historyId == h && s.snapshots[row].listingId == id;
        assert row in own && own[row].listingId == id;
      }
    }
    assert IdsOf(s, h) == OwnListings(own);
  }

  function OwnListings(own: Snapshots): set<ListingId> {
    set row | row in own :: own[row].listingId
  }

  lemma OwnListingsSize(own: Snapshots)
    requires forall a, b | a in own && b in own && own[a].listingId == own[b].listingId :: a == b
    ensures |OwnListings(own)| == |own|
  {
    var id := (row: RowId) => if row in own then own[row].listingId else 0;
    InjectionSize(own.Keys, id);
    forall x ensures x in OwnListings(own) <==> x in (set row | row in own.Keys :: id(row)) {
    }
    assert OwnListings(own) == set row | row in own.Keys :: id(row);
  }

  function DocIds(docs: seq<(ListingId, Doc)>): set<ListingId> {
    set i | 0 <= i < |docs| :: docs[i].0
  }

  predicate DistinctIds(docs: seq<(ListingId, Doc)>) {
    forall i, j :: 0 <= i < j < |docs| ==> docs[i].0 != docs[j].0
  }

  lemma {:induction false} DocIdsSize(docs: seq<(ListingId, Doc)>)
    ensures |DocIds(docs)| <= |docs|
    ensures |DocIds(docs)| == |docs| <==> DistinctIds(docs)
    decreases |docs|
  {
    if docs == [] {
    } else {
      var n := |docs| - 1;
      var rest := docs[..n];
      DocIdsSize(rest);
      assert DocIds(docs) == DocIds(rest) + {docs[n].0} by {
        forall id ensures id in DocIds(docs) <==> id in DocIds(rest) + {docs[n].0} {
          if i :| 0 <= i < |docs| && docs[i].0 == id && i < n {
            assert rest[i].0 == id;
          }
          if i :| 0 <= i < |rest| && rest[i].0 == id {
            assert docs[i].0 == id;
          }
        }
      }
      if docs[n].0 in DocIds(rest) {
        var i :| 0 <= i < |rest| && rest[i].0 == docs[n].0;
        assert docs[i].0 == docs[n].0;
      } else if DistinctIds(rest) {
        forall i, j | 0 <= i < j < |docs| ensures docs[i].0 != docs[j].0 {
          assert rest[i].0 in DocIds(rest);
        }
      }
    }
  }

  /**
   * A cache hit stores the number of documents as its result count; that is the number of its
   * snapshots exactly when every document has a listing and none is returned twice.
   */
  lemma CachedCountIsExactIff(s: Store, docs: seq<(ListingId, Doc)>)
    requires Consistent(s)
    ensures var h := s.nextId;
      (|SnapshotsOf(LinkCached(OpenHistory(s), h, docs).snapshots, h)| == |docs|)
      <==> (DocIds(docs) <= s.listings.Keys && DistinctIds(docs))
  {
    var h := s.nextId;
    var u := OpenHistory(s);
    var t := LinkCached(u, h, docs);
    LinkCachedKeeps(u, h, docs);
    SnapshotsCountListings(t, h);
    forall id ensures id in IdsOf(t, h) <==> id in DocIds(docs) * s.listings.Keys {
      LinkCachedLinks(u, h, docs, id);
      assert id in IdsOf(t, h) <==> HasSnapshot(t.snapshots, h, id);
      assert !HasSnapshot(u.snapshots, h, id);
      assert Listed(docs, id) <==> id in DocIds(docs);
    }
    assert IdsOf(t, h) == DocIds(docs) * s.listings.Keys;
    DocIdsSize(docs);
    SubsetSize(DocIds(docs) * s.listings.Keys, DocIds(docs));
  }

  lemma {:induction false} SubsetSize(a: set<ListingId>, b: set<ListingId>)
    requires a <= b
    ensures |a| <= |b|
    ensures |a| == |b| <==> a == b
  {
    assert b == a + (b - a);
    assert |b| == |a| + |b - a|;
  }
}
