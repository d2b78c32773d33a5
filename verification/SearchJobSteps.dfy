/**
 * What single steps of the Search Job protocol do, field by field: rows and job after a poll, a
 * crawl message, a keyword search and the runner's saves, and where a success can come from.
 */
module SearchJobSteps {
  import opened Common
  import opened SearchJobStatus
  import opened SearchJobProtocol
  import opened SearchJobTheorems

  // ----- Progress as a mean -----

  function SumOf(points: seq<int>): int {
    if points == [] then 0 else points[0] + SumOf(points[1..])
  }

  /** The points each row gets, in order. */
  function Points(rows: seq<Row>, point: Row -> int): seq<int> {
    seq(|rows|, i requires 0 <= i < |rows| => point(rows[i]))
  }

  /** `progress` is the rounded mean of the rows' points. */
  predicate IsMean(progress: int, rows: seq<Row>, point: Row -> int) {
    rows != [] && IsNearest(progress, SumOf(Points(rows, point)) as real / |rows| as real)
  }

  lemma {:induction false} SharesAreSum(items: seq<ProgressItem>, points: seq<int>)
    requires |items| == |points| && forall i :: 0 <= i < |items| ==> points[i] == ItemShare(items[i])
    ensures SumShares(items) == SumOf(points)
  {
    if items == [] {
    } else {
      SharesAreSum(items[1..], points[1..]);
    }
  }

  lemma AggregateIsMean(items: seq<ProgressItem>, rows: seq<Row>, point: Row -> int)
    requires |items| == |rows| > 0 && forall i :: 0 <= i < |items| ==> point(rows[i]) == ItemShare(items[i])
    ensures IsMean(AggregateProgress(items), rows, point)
  {
    SharesAreSum(items, Points(rows, point));
    SharesBounded(items);
    MeanInRange(SumShares(items), |items|);
    RoundIsNearest(SumShares(items) as real / |items| as real);
  }

  lemma MeanInRange(sum: int, n: nat)
    requires n > 0 && 0 <= sum <= 100 * n
    ensures ClampScore(sum as real / n as real) == Round(sum as real / n as real)
  {
    var mean := sum as real / n as real;
    DivideMonotone(0.0, sum as real, n as real);
    DivideMonotone(sum as real, 100.0 * n as real, n as real);
    HundredEach(100.0 * n as real, n as real);
    RoundMonotone(0.0, mean);
    RoundMonotone(mean, 100.0);
    RoundOfInt(0);
    RoundOfInt(100);
  }

  // ----- Distinct listings -----

  /** The listings that some row's crawl has snapshots of. */
  function ListingsOf(rows: seq<Row>, snaps: Snapshots): set<ResultId> {
    if rows == [] then {}
    else (if rows[0].historyId in snaps then snaps[rows[0].historyId] else {}) + ListingsOf(rows[1..], snaps)
  }

  lemma {:induction false} ListingIsOfSomeRow(rows: seq<Row>, snaps: Snapshots, r: ResultId)
    ensures r in ListingsOf(rows, snaps) <==> exists i :: 0 <= i < |rows| && rows[i].historyId in snaps && r in snaps[rows[i].historyId]
  {
    if rows == [] {
    } else {
      ListingIsOfSomeRow(rows[1..], snaps, r);
      if i :| 0 <= i < |rows| && rows[i].historyId in snaps && r in snaps[rows[i].historyId] && i > 0 {
        assert rows[1..][i - 1] == rows[i];
      }
    }
  }

  lemma CountIsOfListings(rows: seq<Row>, snaps: Snapshots)
    ensures CountDistinct(snaps, HistoryIds(rows)) == |ListingsOf(rows, snaps)|
  {
    var ids := HistoryIds(rows);
    forall r ensures r in LinkedResults(snaps, ids) <==> r in ListingsOf(rows, snaps) {
      ListingIsOfSomeRow(rows, snaps, r);
      if i :| 0 <= i < |rows| && rows[i].historyId in snaps && r in snaps[rows[i].historyId] {
        assert ids[i] in ids;
      }
      if h :| h in ids && h in snaps && r in snaps[h] {
        var i :| 0 <= i < |ids| && ids[i] == h;
        assert rows[i].historyId == h;
      }
    }
    assert LinkedResults(snaps, ids) == ListingsOf(rows, snaps);
  }

  /** What the keywords found, each on its own. */
  function CountEach(rows: seq<Row>, snaps: Snapshots): int {
    if rows == [] then 0
    else (if rows[0].historyId in snaps then |snaps[rows[0].historyId]| else 0) + CountEach(rows[1..], snaps)
  }

  /** Two keywords found the same listing. */
  predicate Shared(rows: seq<Row>, snaps: Snapshots, i: int, j: int, r: ResultId) {
    && 0 <= i < j < |rows|
    && rows[i].historyId in snaps && r in snaps[rows[i].historyId]
    && rows[j].historyId in snaps && r in snaps[rows[j].historyId]
  }

  /**
   * The job's result count is the number of distinct listings; it is at most the sum over the
   * keywords, and less when two of them share a listing.
   */
  lemma {:induction false} JobCountsDistinct(rows: seq<Row>, snaps: Snapshots)
    ensures CountDistinct(snaps, HistoryIds(rows)) == |ListingsOf(rows, snaps)| <= CountEach(rows, snaps)
    ensures forall i, j, r | Shared(rows, snaps, i, j, r) :: CountDistinct(snaps, HistoryIds(rows)) < CountEach(rows, snaps)
  {
    CountIsOfListings(rows, snaps);
    if rows == [] {
    } else {
      var own := if rows[0].historyId in snaps then snaps[rows[0].historyId] else {};
      var rest := ListingsOf(rows[1..], snaps);
      JobCountsDistinct(rows[1..], snaps);
      CountIsOfListings(rows[1..], snaps);
      assert |own + rest| == |own| + |rest| - |own * rest|;
      forall i, j, r | Shared(rows, snaps, i, j, r) ensures |own + rest| < CountEach(rows, snaps) {
        assert rows[1..][j - 1] == rows[j];
        if i == 0 {
          ListingIsOfSomeRow(rows[1..], snaps, r);
          assert r in own * rest;
        } else {
          assert Shared(rows[1..], snaps, i - 1, j - 1, r);
        }
      }
    }
  }

  // ----- One poll -----

  predicate TooOld(cfg: Config, r: Row, at: Time) {
    at - r.createdAt >= cfg.keywordTimeoutMs
  }

  predicate LookedUp(cfg: Config, r: Row, at: Time, details: map<HistoryId, Detail>) {
    !IsTerminal(r.status) && !TooOld(cfg, r, at) && r.historyId in details
  }

  /** What a poll makes of a row: finished rows stay, old ones time out, the others follow their lookup. */
  predicate PollsTo(cfg: Config, r: Row, t: Row, at: Time, details: map<HistoryId, Detail>) {
    && t == r.(status := t.status, resultCount := t.resultCount)
    && (IsTerminal(r.status) ==> t == r)
    && (!IsTerminal(r.status) && TooOld(cfg, r, at) ==> t.status == RowTimeout && t.resultCount == r.resultCount)
    && (LookedUp(cfg, r, at, details) ==>
          && t.status == details[r.historyId].status
          && t.resultCount >= r.resultCount && t.resultCount >= details[r.historyId].resultCount
          && t.resultCount in {r.resultCount, details[r.historyId].resultCount})
    && (!IsTerminal(r.status) && !TooOld(cfg, r, at) && !LookedUp(cfg, r, at, details) ==> t == r)
  }

  /** A finished row counts 100, one whose lookup succeeded 40, one whose lookup failed 20. */
  function PollPoint(cfg: Config, at: Time, details: map<HistoryId, Detail>): Row -> int {
    (r: Row) => if IsTerminal(r.status) then 100 else if r.historyId in details then 40 else 20
  }

  lemma PollRowsAreExact(cfg: Config, s: State, at: Time, details: map<HistoryId, Detail>, snaps: Snapshots)
    requires Inv(s) && s.phase.Watching? && s.rows != [] && at - s.phase.startedAt < cfg.totalTimeoutMs
    ensures var rows := Step(cfg, s, Poll(at, details, snaps)).rows;
      |rows| == |s.rows| && forall i :: 0 <= i < |s.rows| ==> PollsTo(cfg, s.rows[i], rows[i], at, details)
  {
  }

  /**
   * A poll before the total time is up: every row as `PollsTo` says, the job with the rounded mean
   * of its rows' points and the number of distinct listings, and nothing else of it changed.
   */
  lemma PollIsExact(cfg: Config, s: State, at: Time, details: map<HistoryId, Detail>, snaps: Snapshots)
    requires Inv(s) && s.phase.Watching? && s.rows != [] && at - s.phase.startedAt < cfg.totalTimeoutMs
    ensures var t := Step(cfg, s, Poll(at, details, snaps));
      && |t.rows| == |s.rows|
      && (forall i :: 0 <= i < |s.rows| ==> PollsTo(cfg, s.rows[i], t.rows[i], at, details))
      && t.job == s.job.(progress := t.job.progress, resultCount := |ListingsOf(t.rows, snaps)|, currentSite := None)
      && IsMean(t.job.progress, t.rows, PollPoint(cfg, at, details))
      && t.attempts == s.attempts && t.report == s.report
      && t.phase == if AllTerminal(t.rows) then Finalizing else Watching(s.phase.startedAt, s.phase.polls + 1)
  {
    var t := Step(cfg, s, Poll(at, details, snaps));
    var items := PolledItems(cfg, s.rows, at, details);
    PollRowsAreExact(cfg, s, at, details, snaps);
    CountIsOfListings(t.rows, snaps);
    Percents();
    AggregateIsMean(items, t.rows, PollPoint(cfg, at, details));
  }

  lemma Percents()
    ensures ClampScore(10.0) == 10 && ClampScore(20.0) == 20 && ClampScore(40.0) == 40 && ClampScore(100.0) == 100
  {
    RoundOfInt(10);
    RoundOfInt(20);
    RoundOfInt(40);
    RoundOfInt(100);
  }

  /** When the total time is up every unfinished row times out, and nothing else of the rows changes. */
  lemma TotalTimeoutIsExact(cfg: Config, s: State, at: Time, details: map<HistoryId, Detail>, snaps: Snapshots)
    requires Inv(s) && s.phase.Watching? && at - s.phase.startedAt >= cfg.totalTimeoutMs
    ensures var t := Step(cfg, s, Poll(at, details, snaps));
      && |t.rows| == |s.rows| && t.phase.Stopped?
      && (forall i :: 0 <= i < |s.rows| ==>
            t.rows[i] == if IsTerminal(s.rows[i].status) then s.rows[i] else s.rows[i].(status := RowTimeout))
  {
  }

  // ----- One crawl message -----

  /** What a message makes of a row: its crawl's rows take status and count, the others stay. */
  predicate FollowsMessage(r: Row, t: Row, c: Crawl) {
    && (r.historyId != c.searchId ==> t == r)
    && (r.historyId == c.searchId ==>
          && t == r.(status := c.status, resultCount := t.resultCount)
          && (c.resultCount.None? ==> t.resultCount == r.resultCount)
          && (c.resultCount.Some? ==> t.resultCount == c.resultCount.value))
  }

  predicate Started(r: Row) {
    r.status.RowRunning? || IsTerminal(r.status)
  }

  /** A finished row counts 100, one of the message's crawl its percentage, others 50 when running and 10 before. */
  function MessagePoint(c: Crawl): Row -> int {
    (r: Row) =>
      if IsTerminal(r.status) then 100
      else if r.historyId == c.searchId then ClampScore(c.percent)
      else if r.status.RowRunning? then 50
      else 10
  }

  /** A message names a row of the job, or is for a job without rows that refers to its history. */
  predicate Concerns(s: State, c: Crawl, legacy: bool) {
    (exists i :: 0 <= i < |s.rows| && s.rows[i].historyId == c.searchId) || (legacy && s.job.searchHistoryId == Some(c.searchId))
  }

  lemma CrawlRowsAreExact(cfg: Config, s: State, c: Crawl, legacy: bool)
    ensures var t := Step(cfg, s, CrawlProgress(c, legacy));
      && |t.rows| == |s.rows| && (forall i :: 0 <= i < |s.rows| ==> FollowsMessage(s.rows[i], t.rows[i], c))
      && t.attempts == s.attempts && t.report == s.report && t.phase == s.phase
  {
  }

  lemma LinkedAfterCrawl(s: State, c: Crawl)
    ensures Linked(CrawledRows(s.rows, c), c) <==> exists i :: 0 <= i < |s.rows| && s.rows[i].historyId == c.searchId
  {
    var rows := CrawledRows(s.rows, c);
    forall i | 0 <= i < |s.rows| ensures rows[i] in rows && rows[i].historyId == s.rows[i].historyId {}
  }

  /** The status after a message: queued iff nothing of the job has started, by the message or by a row. */
  predicate StatusFollows(before: JobStatus, after: JobStatus, c: Crawl, rows: seq<Row>) {
    && (after.Queued? || after.Running?)
    && (after.Queued? <==>
          (before.Queued? || before.Running?) && c.status.RowQueued? && forall i :: 0 <= i < |rows| ==> !Started(rows[i]))
  }

  lemma CrawlStatusIsExact(cfg: Config, s: State, c: Crawl, legacy: bool)
    requires Inv(s) && !JobIsTerminal(s.job.status) && s.rows != [] && Concerns(s, c, legacy)
    ensures var t := Step(cfg, s, CrawlProgress(c, legacy)); StatusFollows(s.job.status, t.job.status, c, t.rows)
  {
    var rows := Step(cfg, s, CrawlProgress(c, legacy)).rows;
    LinkedAfterCrawl(s, c);
    forall i | 0 <= i < |rows| ensures rows[i] in rows {}
  }

  /**
   * A message for an unfinished job with rows: the job is queued afterwards iff it was queued or
   * running, the message says queued and no row has started; otherwise it is running. Its site
   * is the message's, its progress the rounded mean of its rows' points, and the rest stays.
   */
  lemma CrawlMessageIsExact(cfg: Config, s: State, c: Crawl, legacy: bool)
    requires Inv(s) && !JobIsTerminal(s.job.status) && s.rows != [] && Concerns(s, c, legacy)
    ensures var t := Step(cfg, s, CrawlProgress(c, legacy));
      && t.job == s.job.(status := t.job.status, progress := t.job.progress, currentSite := c.currentSite)
      && StatusFollows(s.job.status, t.job.status, c, t.rows)
      && IsMean(t.job.progress, t.rows, MessagePoint(c))
  {
    var t := Step(cfg, s, CrawlProgress(c, legacy));
    LinkedAfterCrawl(s, c);
    var items := CrawledItems(t.rows, c);
    Percents();
    AggregateIsMean(items, t.rows, MessagePoint(c));
    CrawlStatusIsExact(cfg, s, c, legacy);
  }

  /** A message that concerns no row of the job and not its only history, or comes after its end, leaves the job equal. */
  lemma OtherMessagesLeaveJob(cfg: Config, s: State, c: Crawl, legacy: bool)
    requires Inv(s) && (!Concerns(s, c, legacy) || JobIsTerminal(s.job.status))
    ensures Step(cfg, s, CrawlProgress(c, legacy)).job == s.job
  {
    LinkedAfterCrawl(s, c);
  }

  /**
   * A message for an unfinished job without rows: percentage and site are the message's, a count
   * replaces the old one, and an unfinished crawl decides between queued and running.
   */
  lemma LegacyMessageIsExact(cfg: Config, s: State, c: Crawl)
    requires Inv(s) && !JobIsTerminal(s.job.status) && s.rows == [] && s.job.searchHistoryId == Some(c.searchId)
    ensures var t := Step(cfg, s, CrawlProgress(c, true));
      && t.job == s.job.(status := t.job.status, progress := t.job.progress, currentSite := c.currentSite,
                         resultCount := t.job.resultCount)
      && IsPercent(t.job.progress, c.percent)
      && (IsTerminal(c.status) ==> t.job.status == s.job.status)
      && (!IsTerminal(c.status) ==> (t.job.status.Queued? <==> c.status.RowQueued?) && (t.job.status.Running? <==> !c.status.RowQueued?))
      && (c.resultCount.Some? ==> t.job.resultCount == c.resultCount.value)
      && (c.resultCount.None? ==> t.job.resultCount == s.job.resultCount)
  {
    ClampScoreIsPercent(c.percent);
  }

  /** Progress follows the messages and may fall: a second message of the one search reports less than the first. */
  lemma ProgressCanFall(cfg: Config)
    ensures
      var s := State(NewJob().(status := Running), [Row(7, "desk", RowRunning, 0, 0)], [], Watching(0, 0), NotDue);
      var t := Step(cfg, s, CrawlProgress(Crawl(7, RowRunning, 80.0, None, None), false));
      var u := Step(cfg, t, CrawlProgress(Crawl(7, RowRunning, 20.0, None, None), false));
      Inv(s) && t.job.progress == 80 && u.job.progress == 20
  {
    var r := Row(7, "desk", RowRunning, 0, 0);
    var s := State(NewJob().(status := Running), [r], [], Watching(0, 0), NotDue);
    var t := Step(cfg, s, CrawlProgress(Crawl(7, RowRunning, 80.0, None, None), false));
    assert t.rows == [r];
    OneRowProgress(cfg, s, Crawl(7, RowRunning, 80.0, None, None));
    OneRowProgress(cfg, t, Crawl(7, RowRunning, 20.0, None, None));
    RoundOfInt(80);
    RoundOfInt(20);
  }

  lemma OneRowProgress(cfg: Config, s: State, c: Crawl)
    requires |s.rows| == 1 && s.rows[0].historyId == c.searchId && !JobIsTerminal(s.job.status) && !IsTerminal(c.status)
    ensures Step(cfg, s, CrawlProgress(c, false)).job.progress == ClampScore(c.percent)
  {
    var rows := CrawledRows(s.rows, c);
    assert rows[0] in rows && Linked(rows, c);
    var items := CrawledItems(rows, c);
    assert SumShares(items) == ItemShare(items[0]) + SumShares(items[1..]);
    RoundOfInt(ClampScore(c.percent));
  }

  // ----- The runner -----

  /** The integer part of 10 + 50 i / n. */
  predicate IsKeywordProgress(p: int, i: nat, n: nat) {
    n * (p - 10) <= 50 * i < n * (p - 9)
  }

  lemma KeywordProgressIs(i: nat, n: nat)
    requires i < n
    ensures IsKeywordProgress(KeywordProgress(i, n), i, n) && 10 <= KeywordProgress(i, n) < 60
  {
    var q := (i * 50) / n;
    assert n * q <= i * 50 < n * (q + 1);
    if q >= 50 {
      MulGrows(n, 50, q);
    }
  }

  lemma MulGrows(n: nat, a: int, b: int)
    requires a <= b
    ensures n * a <= n * b
  {
  }

  /** The runner's saves before the searches: queued at 5, running at 10, and nothing else of the job changes. */
  lemma RunnerBeginsExactly(cfg: Config, s: State, keywords: seq<string>, at: Time)
    requires Inv(s) && keywords != []
    ensures s.phase.NotStarted? ==>
      var t := Step(cfg, s, Enqueue);
      && t.job == s.job.(status := Queued, progress := 5) && t.phase == Enqueued(t.job)
      && t.rows == s.rows && t.attempts == s.attempts && t.report == s.report
    ensures s.phase.Enqueued? ==>
      var t := Step(cfg, s, StartSearching(keywords, at));
      && t.job == s.phase.mem.(status := Running, progress := 10) && t.phase == Searching(0, false, t.job)
      && t.rows == s.rows && t.attempts == s.attempts && t.report == s.report
  {
  }

  /** Before keyword `i` of `n` the runner stores its copy of the job with progress 10 + 50 i / n, rounded down. */
  lemma KeywordSaveIsExact(cfg: Config, s: State, keywords: seq<string>)
    requires Inv(s) && s.phase.Searching? && !s.phase.saved && s.phase.next < |keywords|
    ensures var t := Step(cfg, s, SaveKeyword(keywords));
      && t.job == s.phase.mem.(progress := t.job.progress) && t.phase == Searching(s.phase.next, true, t.job)
      && IsKeywordProgress(t.job.progress, s.phase.next, |keywords|) && 10 <= t.job.progress < 60
      && t.rows == s.rows && t.attempts == s.attempts && t.report == s.report
  {
    KeywordProgressIs(s.phase.next, |keywords|);
  }

  /**
   * A search that returned a history adds one row for it if it could be recorded: with the
   * status reported, or queued while a crawl is still due. The first history becomes the job's.
   */
  lemma SearchIsRecordedExactly(cfg: Config, s: State, keywords: seq<string>, r: SearchResult, recorded: bool, at: Time)
    requires Inv(s) && s.phase.Searching? && s.phase.saved && s.phase.next < |keywords|
    ensures var t := Step(cfg, s, KeywordSearched(keywords, r, recorded, at));
      && t.job == s.job && t.attempts == s.attempts && t.report == s.report
      && t.phase == Searching(s.phase.next + 1, false, s.phase.mem.(searchHistoryId := t.phase.mem.searchHistoryId))
      && t.phase.mem.searchHistoryId == (if s.phase.mem.searchHistoryId.Some? then s.phase.mem.searchHistoryId else r.searchId)
      && (r.searchId.None? || !recorded ==> t.rows == s.rows)
      && (r.searchId.Some? && recorded ==>
            |t.rows| == |s.rows| + 1 && t.rows[..|s.rows|] == s.rows
            && var row := t.rows[|s.rows|];
               && row == Row(r.searchId.value, keywords[s.phase.next], row.status, r.resultCount, at)
               && (r.fromCache || IsTerminal(r.status) ==> row.status == r.status)
               && (!r.fromCache && !IsTerminal(r.status) ==> row.status == RowQueued))
  {
  }

  function PendingPoint(): Row -> int {
    (r: Row) => if IsTerminal(r.status) then 100 else 10
  }

  /** After the last search, with crawls still due, the watch begins; progress never falls back by this save. */
  lemma WatchBeginsExactly(cfg: Config, s: State, keywords: seq<string>, at: Time, snaps: Snapshots)
    requires Inv(s) && s.phase.Searching? && !s.phase.saved && s.phase.next >= |keywords| && !AllTerminal(s.rows)
    ensures var t := Step(cfg, s, SearchesDone(keywords, at, snaps));
      && t.phase == Watching(at, 0) && t.rows == s.rows && t.attempts == s.attempts && t.report == s.report
      && t.job == s.phase.mem.(status := Running, resultCount := |ListingsOf(s.rows, snaps)|, progress := t.job.progress)
      && t.job.progress >= s.phase.mem.progress
      && (t.job.progress == s.phase.mem.progress || IsMean(t.job.progress, s.rows, PendingPoint()))
      && (IsMean(s.phase.mem.progress, s.rows, PendingPoint()) ==> t.job.progress == s.phase.mem.progress)
      && Round(SumOf(Points(s.rows, PendingPoint())) as real / |s.rows| as real) <= t.job.progress
  {
    CountIsOfListings(s.rows, snaps);
    Percents();
    AggregateIsMean(PendingItems(s.rows), s.rows, PendingPoint());
  }

  /** A failure of the runner, or no keywords, stores the message and the time and stops; the rows stay. */
  lemma RunnerFailsExactly(cfg: Config, s: State, message: string, at: Time)
    requires Inv(s)
    ensures s.phase.Enqueued? || s.phase.Searching? ==>
      var t := Step(cfg, s, RunnerFailed(message, at));
      && t.job == s.job.(status := Failed, errorMessage := Some(message), finishedAt := Some(at))
      && t.phase.Stopped? && t.rows == s.rows && t.attempts == s.attempts && t.report == s.report
    ensures !(s.phase.Enqueued? || s.phase.Searching?) ==> Step(cfg, s, RunnerFailed(message, at)) == s
    ensures s.phase.Enqueued? ==>
      Step(cfg, s, StartSearching([], at)) == Step(cfg, s, RunnerFailed("No search keywords generated", at))
  {
  }

  /**
   * The final save: by `FinishingStepIsExact` the verdict, and of the job's other fields only the
   * error text changes, which says whether all or some searches failed.
   */
  lemma FinalSaveIsExact(cfg: Config, s: State, at: Time, snaps: Snapshots)
    requires Inv(s) && s.phase.Finalizing?
    ensures var t := Step(cfg, s, FinalizePolled(at, snaps));
      && t.job == s.job.(status := t.job.status, progress := t.job.progress, currentSite := t.job.currentSite,
                         finishedAt := t.job.finishedAt, resultCount := t.job.resultCount, errorMessage := t.job.errorMessage)
      && (s.rows != [] ==> t.job.resultCount == |ListingsOf(s.rows, snaps)|)
      && (s.rows != [] && t.job.status.Failed? ==> t.job.errorMessage == Some("All keyword searches failed or timed out"))
      && (s.rows != [] && t.job.status.Partial? ==> t.job.errorMessage == Some("Some keyword searches failed or timed out"))
      && (s.rows == [] ==> t.job.progress == s.job.progress || t.job.status.Completed?)
      && t.rows == s.rows && t.attempts == s.attempts
  {
    CountIsOfListings(s.rows, snaps);
  }

  /** The deletion of a history clears the job's reference to it and changes nothing else. */
  lemma HistoryDeletedExactly(cfg: Config, s: State, h: HistoryId)
    ensures var t := Step(cfg, s, HistoryDeleted(h));
      && (s.job.searchHistoryId == Some(h) ==> t == s.(job := s.job.(searchHistoryId := None)))
      && (s.job.searchHistoryId != Some(h) ==> t == s)
  {
  }

  // ----- Where a success comes from -----

  /** The event brings the news that crawl `h` succeeded. */
  predicate ReportsSuccess(e: Event, h: HistoryId) {
    || (e.KeywordSearched? && e.result.searchId == Some(h) && IsSuccess(e.result.status))
    || (e.Poll? && h in e.details && IsSuccess(e.details[h].status))
    || (e.CrawlProgress? && e.crawl.searchId == h && IsSuccess(e.crawl.status))
  }

  predicate SucceededRow(rows: seq<Row>, h: HistoryId) {
    exists i :: 0 <= i < |rows| && rows[i].historyId == h && IsSuccess(rows[i].status)
  }

  lemma StepReportsSuccess(cfg: Config, s: State, e: Event, h: HistoryId)
    requires SucceededRow(Step(cfg, s, e).rows, h) && !SucceededRow(s.rows, h)
    ensures ReportsSuccess(e, h)
  {
    var t := Step(cfg, s, e);
    var i :| 0 <= i < |t.rows| && t.rows[i].historyId == h && IsSuccess(t.rows[i].status);
    assert i < |s.rows| ==> s.rows[i].historyId == h && !IsSuccess(s.rows[i].status);
  }

  /** A row shows a success only after some event of the run reported a success for its crawl. */
  lemma {:induction false} SuccessWasReported(cfg: Config, events: seq<Event>, h: HistoryId)
    requires SucceededRow(Run(cfg, Initial(), events).rows, h)
    ensures exists e :: e in events && ReportsSuccess(e, h)
    decreases |events|
  {
    if events == [] {
    } else {
      var n := |events| - 1;
      var before := Run(cfg, Initial(), events[..n]);
      assert events == events[..n] + [events[n]];
      RunSnoc(cfg, Initial(), events[..n], events[n]);
      if SucceededRow(before.rows, h) {
        SuccessWasReported(cfg, events[..n], h);
        var e :| e in events[..n] && ReportsSuccess(e, h);
        assert e in events;
      } else {
        StepReportsSuccess(cfg, before, events[n], h);
        assert events[n] in events;
      }
    }
  }

  /** Nobody reports a success. */
  predicate NoSuccess(events: seq<Event>) {
    forall e, h | e in events && h in Mentioned(e) :: !ReportsSuccess(e, h)
  }

  /** The crawls an event speaks of. */
  function Mentioned(e: Event): set<HistoryId> {
    match e
    case KeywordSearched(_, r, _, _) => if r.searchId.Some? then {r.searchId.value} else {}
    case Poll(_, details, _) => details.Keys
    case CrawlProgress(c, _) => {c.searchId}
    case _ => {}
  }

  lemma NoRowSucceeds(cfg: Config, events: seq<Event>)
    ensures NoSuccess(events) ==> forall r :: r in Run(cfg, Initial(), events).rows ==> !IsSuccess(r.status)
  {
    var rows := Run(cfg, Initial(), events).rows;
    forall i | 0 <= i < |rows| && IsSuccess(rows[i].status) ensures !NoSuccess(events) {
      SuccessIsMentioned(cfg, events, rows[i].historyId);
    }
  }

  lemma SuccessIsMentioned(cfg: Config, events: seq<Event>, h: HistoryId)
    requires SucceededRow(Run(cfg, Initial(), events).rows, h)
    ensures !NoSuccess(events)
  {
    SuccessWasReported(cfg, events, h);
    var e :| e in events && ReportsSuccess(e, h);
    assert h in Mentioned(e);
  }

  lemma FinishesFailed(cfg: Config, s: State, e: Event)
    requires Inv(s) && !s.phase.Stopped? && Step(cfg, s, e).phase.Stopped? && Step(cfg, s, e).rows != []
    requires forall r :: r in Step(cfg, s, e).rows ==> !IsSuccess(r.status)
    ensures Step(cfg, s, e).job.status.Failed?
  {
    FinishingStepIsExact(cfg, s, e);
  }

  /**
   * A job that recorded its searches and hears of no success ends failed, whatever else happens:
   * neither a timeout nor a failed lookup nor an unfinished status counts for it.
   */
  lemma NoSuccessMeansFailed(cfg: Config, events: seq<Event>)
    requires NoSuccess(events) && Run(cfg, Initial(), events).phase.Stopped? && Run(cfg, Initial(), events).rows != []
    ensures Run(cfg, Initial(), events).job.status.Failed?
  {
    var k := RunFinishesOnce(cfg, Initial(), events);
    var early, late := events[..k + 1], events[k + 1..];
    assert events == early + late && early == events[..k] + [events[k]];
    RunSnoc(cfg, Initial(), events[..k], events[k]);
    RunSplits(cfg, Initial(), early, late);
    RowCountStays(cfg, Run(cfg, Initial(), early), late);
    NoRowSucceeds(cfg, early);
    FinishesFailed(cfg, Run(cfg, Initial(), events[..k]), events[k]);
  }

  lemma RowCountStays(cfg: Config, s: State, events: seq<Event>)
    requires Quiet(s)
    ensures |Run(cfg, s, events).rows| == |s.rows|
  {
    RowsFollowLastCrawl(cfg, s, events);
  }
}
