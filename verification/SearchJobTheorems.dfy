/** What holds of every run of the Search Job protocol. */
module SearchJobTheorems {
  import opened Common
  import opened SearchJobStatus
  import opened SearchJobProtocol

  lemma {:induction false} RunSplits(cfg: Config, s: State, a: seq<Event>, b: seq<Event>)
    ensures Run(cfg, s, a + b) == Run(cfg, Run(cfg, s, a), b)
    decreases |a|
  {
    if a == [] {
      assert a + b == b;
    } else {
      assert (a + b)[0] == a[0] && (a + b)[1..] == a[1..] + b;
      RunSplits(cfg, Step(cfg, s, a[0]), a[1..], b);
    }
  }

  lemma RunSnoc(cfg: Config, s: State, events: seq<Event>, e: Event)
    ensures Run(cfg, s, events + [e]) == Step(cfg, Run(cfg, s, events), e)
  {
    RunSplits(cfg, s, events, [e]);
    assert Run(cfg, Run(cfg, s, events), [e]) == Run(cfg, Step(cfg, Run(cfg, s, events), e), [e][1..]);
  }

  // ----- A finished job stays as it is -----

  /** Everything but the callback bookkeeping and the reference to the first crawl history. */
  predicate SameOutcome(a: Job, b: Job) {
    a == b.(callbackSentAt := a.callbackSentAt, callbackError := a.callbackError, searchHistoryId := a.searchHistoryId)
  }

  /** The reference after `events`: gone once its history is deleted. */
  function Referenced(history: Option<HistoryId>, events: seq<Event>): Option<HistoryId> {
    if history.Some? && HistoryDeleted(history.value) in events then None else history
  }

  lemma FinishedStepKeepsJob(cfg: Config, s: State, e: Event)
    requires Inv(s) && s.phase.Stopped?
    ensures SameOutcome(Step(cfg, s, e).job, s.job)
    ensures Step(cfg, s, e).job.searchHistoryId == Referenced(s.job.searchHistoryId, [e])
    ensures Step(cfg, s, e).phase.Stopped?
  {
  }

  lemma ReferencedSplits(history: Option<HistoryId>, events: seq<Event>)
    requires events != []
    ensures Referenced(history, events) == Referenced(Referenced(history, [events[0]]), events[1..])
  {
    assert events == [events[0]] + events[1..];
  }

  /**
   * Whatever happens after a job is finished, only its callback fields can change and its
   * reference to a crawl history, which is cleared exactly when that history is deleted.
   */
  lemma {:induction false} FinishedJobIsAbsorbing(cfg: Config, s: State, events: seq<Event>)
    requires Inv(s) && JobIsTerminal(s.job.status)
    ensures SameOutcome(Run(cfg, s, events).job, s.job)
    ensures Run(cfg, s, events).job.searchHistoryId == Referenced(s.job.searchHistoryId, events)
    ensures Run(cfg, s, events).phase.Stopped?
    decreases |events|
  {
    if events == [] {
    } else {
      var t := Step(cfg, s, events[0]);
      StepKeepsInv(cfg, s, events[0]);
      FinishedStepKeepsJob(cfg, s, events[0]);
      FinishedJobIsAbsorbing(cfg, t, events[1..]);
      ReferencedSplits(s.job.searchHistoryId, events);
    }
  }

  /** In every reachable state the stored status is final exactly when a finish time is stored. */
  lemma FinishTimeMarksFinalStatus(cfg: Config, events: seq<Event>)
    ensures var s := Run(cfg, Initial(), events);
      && (JobIsTerminal(s.job.status) <==> s.job.finishedAt.Some?)
      && (JobIsTerminal(s.job.status) <==> s.phase.Stopped?)
      && 0 <= s.job.progress <= 100
  {
    RunKeepsInv(cfg, Initial(), events);
  }

  /**
   * The runner saves its own copy of the job whole, so the reference to a history that was
   * deleted while it searched comes back with its next save, exactly when the copy holds it.
   */
  lemma DeletedHistoryReturnsIff(cfg: Config, s: State, h: HistoryId, keywords: seq<string>)
    requires Inv(s) && s.phase.Searching? && !s.phase.saved && s.phase.next < |keywords|
    ensures var t := Step(cfg, s, HistoryDeleted(h));
      && t.job.searchHistoryId != Some(h)
      && (Step(cfg, t, SaveKeyword(keywords)).job.searchHistoryId == Some(h) <==> s.phase.mem.searchHistoryId == Some(h))
  {
  }

  // ----- When the rows stay finished -----

  /** Runner and watcher write no more rows; only the subscriber does. */
  predicate Quiet(s: State) {
    s.phase.Finalizing? || s.phase.Stopped?
  }

  /** A crawl message that would make a finished row unfinished. */
  predicate Reopens(rows: seq<Row>, e: Event) {
    e.CrawlProgress? && Linked(rows, e.crawl) && !IsTerminal(e.crawl.status)
  }

  /** Absorption stops at the job: a late crawl event still rewrites a row of a finished job. */
  lemma LateEventRewritesFinishedRow(cfg: Config)
    ensures
      var job := NewJob().(status := Failed, progress := 100, finishedAt := Some(0));
      var s := State(job, [Row(7, "desk", RowTimeout, 0, 0)], [], Stopped, NotDue);
      var c := Crawl(7, RowCompleted, 100.0, None, Some(3));
      && Inv(s)
      && Step(cfg, s, CrawlProgress(c, false)) == s.(rows := [Row(7, "desk", RowCompleted, 3, 0)])
  {
    var r := Row(7, "desk", RowTimeout, 0, 0);
    var c := Crawl(7, RowCompleted, 100.0, None, Some(3));
    assert CrawledRows([r], c) == [CrawledRow(r, c)];
  }

  /** One step leaves finished rows finished iff it is no crawl message of an unfinished status for one of them. */
  lemma RowsStayFinishedStepIff(cfg: Config, s: State, e: Event)
    requires Quiet(s) && AllTerminal(s.rows)
    ensures AllTerminal(Step(cfg, s, e).rows) <==> !Reopens(s.rows, e)
    ensures Step(cfg, s, e).rows == s.rows <==> (e.CrawlProgress? ==> forall r :: r in s.rows ==> CrawledRow(r, e.crawl) == r)
  {
    if e.CrawlProgress? {
      var rows := CrawledRows(s.rows, e.crawl);
      assert Step(cfg, s, e).rows == rows;
      forall i | 0 <= i < |rows| ensures rows[i] in rows && s.rows[i] in s.rows {}
      assert AllTerminal(rows) <==> forall i :: 0 <= i < |rows| ==> IsTerminal(rows[i].status);
    }
  }

  /** The status of a row of crawl `h` after the messages in `events`: the last one wins. */
  function LastStatus(h: HistoryId, events: seq<Event>, status: RowStatus): RowStatus {
    if events == [] then status
    else
      LastStatus(h, events[1..],
        if events[0].CrawlProgress? && events[0].crawl.searchId == h then events[0].crawl.status else status)
  }

  /** From then on the rows stay the same searches and each has the status its crawl reported last. */
  lemma {:induction false} RowsFollowLastCrawl(cfg: Config, s: State, events: seq<Event>)
    requires Quiet(s)
    ensures Quiet(Run(cfg, s, events))
    ensures |Run(cfg, s, events).rows| == |s.rows|
    ensures forall i :: 0 <= i < |s.rows| ==>
      var r, t := s.rows[i], Run(cfg, s, events).rows[i];
      t == r.(resultCount := t.resultCount, status := LastStatus(r.historyId, events, r.status))
    decreases |events|
  {
    if events == [] {
    } else {
      RowsFollowLastCrawl(cfg, Step(cfg, s, events[0]), events[1..]);
    }
  }

  /** At the end of such a run all rows are finished iff the last message of each crawl was. */
  lemma RowsEndFinishedIff(cfg: Config, s: State, events: seq<Event>)
    requires Quiet(s)
    ensures AllTerminal(Run(cfg, s, events).rows)
       <==> forall r :: r in s.rows ==> IsTerminal(LastStatus(r.historyId, events, r.status))
  {
    RowsFollowLastCrawl(cfg, s, events);
    var rows := Run(cfg, s, events).rows;
    forall i | 0 <= i < |rows| ensures rows[i] in rows && s.rows[i] in s.rows {}
    assert AllTerminal(rows) <==> forall i :: 0 <= i < |rows| ==> IsTerminal(rows[i].status);
  }

  /** Finished rows are finished at every moment of a run iff none of its events reopens one. */
  lemma {:induction false} RowsStayFinishedIff(cfg: Config, s: State, events: seq<Event>)
    requires Quiet(s) && AllTerminal(s.rows)
    ensures FinishedThroughout(cfg, s, events) <==> forall e :: e in events ==> !Reopens(s.rows, e)
    decreases |events|
  {
    if events == [] {
    } else {
      var t := Step(cfg, s, events[0]);
      RowsStayFinishedStepIff(cfg, s, events[0]);
      assert events == [events[0]] + events[1..];
      if !Reopens(s.rows, events[0]) {
        RowsStayFinishedIff(cfg, t, events[1..]);
        forall e | e in events ensures Reopens(t.rows, e) <==> Reopens(s.rows, e) {
          LinksStay(cfg, s, events[0], e);
        }
      } else {
        assert events[0] in events;
      }
    }
  }

  lemma LinksStay(cfg: Config, s: State, first: Event, e: Event)
    requires Quiet(s)
    ensures Reopens(Step(cfg, s, first).rows, e) <==> Reopens(s.rows, e)
  {
    var rows := Step(cfg, s, first).rows;
    assert |rows| == |s.rows|;
    forall i | 0 <= i < |rows| ensures rows[i] in rows && s.rows[i] in s.rows && rows[i].historyId == s.rows[i].historyId {}
  }

  predicate FinishedThroughout(cfg: Config, s: State, events: seq<Event>)
    decreases |events|
  {
    AllTerminal(s.rows) && (events == [] || FinishedThroughout(cfg, Step(cfg, s, events[0]), events[1..]))
  }

  // ----- How a job finishes -----

  /** The job of a nonempty row set; rows that are not finished count as not successful. */
  predicate VerdictOf(j: Job, rows: seq<Row>, at: Time, snaps: Snapshots) {
    && (j.status.Completed? <==> forall r :: r in rows ==> IsSuccess(r.status))
    && (j.status.Failed? <==> forall r :: r in rows ==> !IsSuccess(r.status))
    && (j.status.Partial? <==> (exists r :: r in rows && IsSuccess(r.status)) && (exists r :: r in rows && !IsSuccess(r.status)))
    && JobIsTerminal(j.status)
    && j.progress == 100 && j.currentSite.None? && j.finishedAt == Some(at)
    && j.resultCount == |LinkedResults(snaps, HistoryIds(rows))|
    && (j.errorMessage.None? <==> j.status.Completed?)
  }

  /** The job of no rows: completed on the strength of its one crawl history, or failed. */
  predicate NoRowsVerdict(j: Job, history: Option<HistoryId>, at: Time, snaps: Snapshots) {
    && j.finishedAt == Some(at) && j.searchHistoryId == history
    && if history.Some? then
         j.status.Completed? && j.progress == 100 && j.currentSite.None? && j.errorMessage.None?
         && j.resultCount == |LinkedResults(snaps, [history.value])|
       else j.status.Failed? && j.errorMessage == Some("No search histories recorded")
  }

  lemma StatusesMatchRows(rows: seq<Row>)
    ensures forall r :: r in rows ==> r.status in Statuses(rows)
    ensures forall s :: s in Statuses(rows) ==> exists r :: r in rows && r.status == s
  {
    forall r | r in rows ensures r.status in Statuses(rows) {
      var i :| 0 <= i < |rows| && rows[i] == r;
      assert Statuses(rows)[i] == r.status;
    }
    forall s | s in Statuses(rows) ensures exists r :: r in rows && r.status == s {
      var i :| 0 <= i < |rows| && Statuses(rows)[i] == s;
      assert rows[i] in rows;
    }
  }

  lemma FinalizeVerdict(s: State, at: Time, snaps: Snapshots)
    requires Unfinished(s.job)
    ensures var t := Finalize(s, at, snaps);
      && t.rows == s.rows && t.phase.Stopped?
      && (s.rows != [] ==> VerdictOf(t.job, s.rows, at, snaps))
      && (s.rows == [] ==> NoRowsVerdict(t.job, s.job.searchHistoryId, at, snaps))
      && (t.report.Due? <==> t.job.status.Completed? || t.job.status.Partial?)
  {
    if s.rows != [] {
      StatusesMatchRows(s.rows);
      ResolveIsExact(Statuses(s.rows));
      assert Statuses(s.rows)[0] == s.rows[0].status && s.rows[0] in s.rows;
    }
  }

  /** What finishing leaves for the row set and the history reference it found. */
  predicate FinishedBy(t: State, history: Option<HistoryId>, at: Time, snaps: Snapshots) {
    && (t.rows != [] ==> VerdictOf(t.job, t.rows, at, snaps))
    && (t.rows == [] ==> NoRowsVerdict(t.job, history, at, snaps))
    && (t.report.Due? <==> t.job.status.Completed? || t.job.status.Partial?)
  }

  /**
   * The step that finishes a job does so by the exact verdict over its rows, with the number of
   * distinct listings; the only other ways are a failed search and no keywords. The rows are all
   * finished, except that a message between the watcher's last poll and the final save may have
   * reopened one (`RowsEndFinishedIff` says when).
   */
  lemma FinishingStepIsExact(cfg: Config, s: State, e: Event)
    requires Inv(s) && !s.phase.Stopped? && Step(cfg, s, e).phase.Stopped?
    ensures var t := Step(cfg, s, e);
      match e
      case SearchesDone(_, at, snaps) =>
        s.phase.Searching? && AllTerminal(t.rows) && FinishedBy(t, s.phase.mem.searchHistoryId, at, snaps)
      case Poll(at, _, snaps) => AllTerminal(t.rows) && FinishedBy(t, s.job.searchHistoryId, at, snaps)
      case FinalizePolled(at, snaps) => t.rows == s.rows && FinishedBy(t, s.job.searchHistoryId, at, snaps)
      case StartSearching(keywords, at) =>
        keywords == [] && t.job.status.Failed? && t.job.finishedAt == Some(at)
      case RunnerFailed(message, at) =>
        t.job.status.Failed? && t.job.finishedAt == Some(at) && t.job.errorMessage == Some(message)
      case _ => false
  {
    match e
    case SearchesDone(keywords, at, snaps) =>
      FinalizeVerdict(s.(job := s.phase.mem.(resultCount := CountDistinct(snaps, HistoryIds(s.rows)))), at, snaps);
    case Poll(at, details, snaps) =>
      if s.rows == [] {
        FinalizeVerdict(s, at, snaps);
      } else {
        assert AllTerminal(MarkTimeouts(s.rows));
        FinalizeVerdict(s.(rows := MarkTimeouts(s.rows)), at, snaps);
      }
    case FinalizePolled(at, snaps) => FinalizeVerdict(s, at, snaps);
    case _ =>
  }

  /**
   * A message that arrives between the last poll and the final save has the last word: the job
   * of one search ends completed iff the crawl's last message was a success, whatever the poll
   * had seen. So a late `running` turns a completed search into a failed job.
   */
  lemma LastMessageDecides(cfg: Config, s: State, events: seq<Event>, at: Time, snaps: Snapshots)
    requires Inv(s) && s.phase.Finalizing? && |s.rows| == 1
    requires forall e :: e in events ==> !e.FinalizePolled?
    ensures Step(cfg, Run(cfg, s, events), FinalizePolled(at, snaps)).job.status
      == if IsSuccess(LastStatus(s.rows[0].historyId, events, s.rows[0].status)) then Completed else Failed
  {
    RowsFollowLastCrawl(cfg, s, events);
    StaysFinalizing(cfg, s, events);
    RunKeepsInv(cfg, s, events);
    SingleRowVerdict(Run(cfg, s, events), at, snaps);
  }

  lemma {:induction false} StaysFinalizing(cfg: Config, s: State, events: seq<Event>)
    requires s.phase.Finalizing? && forall e :: e in events ==> !e.FinalizePolled?
    ensures Run(cfg, s, events).phase.Finalizing?
    decreases |events|
  {
    if events == [] {
    } else {
      assert events[0] in events;
      StaysFinalizing(cfg, Step(cfg, s, events[0]), events[1..]);
    }
  }

  lemma SingleRowVerdict(s: State, at: Time, snaps: Snapshots)
    requires Unfinished(s.job) && |s.rows| == 1
    ensures Finalize(s, at, snaps).job.status == if IsSuccess(s.rows[0].status) then Completed else Failed
  {
    assert Statuses(s.rows) == [s.rows[0].status];
    ResolveIsExact(Statuses(s.rows));
  }

  /**
   * Every run of a new job that ends finished has one finishing step, at position `k`; the job
   * it stored is the job at the end of the run, callback fields and history reference aside.
   */
  lemma {:induction false} RunFinishesOnce(cfg: Config, s: State, events: seq<Event>) returns (k: nat)
    requires Inv(s) && !s.phase.Stopped? && Run(cfg, s, events).phase.Stopped?
    ensures k < |events|
    ensures !Run(cfg, s, events[..k]).phase.Stopped? && Inv(Run(cfg, s, events[..k]))
    ensures Step(cfg, Run(cfg, s, events[..k]), events[k]).phase.Stopped?
    ensures SameOutcome(Run(cfg, s, events).job, Step(cfg, Run(cfg, s, events[..k]), events[k]).job)
    decreases |events|
  {
    var t := Step(cfg, s, events[0]);
    StepKeepsInv(cfg, s, events[0]);
    if t.phase.Stopped? {
      k := 0;
      FinishedJobIsAbsorbing(cfg, t, events[1..]);
    } else {
      var j := RunFinishesOnce(cfg, t, events[1..]);
      k := j + 1;
      assert events[..k][0] == events[0] && events[..k][1..] == events[1..][..j];
    }
  }

  // ----- The watcher stops in time -----

  /** Polls are at least one interval apart, measured from the start of the watch. */
  predicate Timely(cfg: Config, s: State, events: seq<Event>)
    decreases |events|
  {
    events == [] ||
    (&& (events[0].Poll? && s.phase.Watching? ==>
          events[0].at - s.phase.startedAt >= POLL_INTERVAL_MS * (s.phase.polls + 1))
     && Timely(cfg, Step(cfg, s, events[0]), events[1..]))
  }

  function MaxPolls(cfg: Config): int {
    (cfg.totalTimeoutMs + POLL_INTERVAL_MS - 1) / POLL_INTERVAL_MS
  }

  /** The polls of a run that find the watcher still watching. */
  function PollsMade(cfg: Config, s: State, events: seq<Event>): nat
    decreases |events|
  {
    if events == [] then 0
    else (if events[0].Poll? && s.phase.Watching? then 1 else 0) + PollsMade(cfg, Step(cfg, s, events[0]), events[1..])
  }

  function PollsOffered(events: seq<Event>): nat {
    if events == [] then 0 else (if events[0].Poll? then 1 else 0) + PollsOffered(events[1..])
  }

  /** The job is finished, or any final save finishes it. */
  ghost predicate AtItsEnd(cfg: Config, s: State) {
    && Quiet(s)
    && forall at, snaps ::
         var t := Step(cfg, s, FinalizePolled(at, snaps));
         t.phase.Stopped? && JobIsTerminal(t.job.status)
  }

  /**
   * Within ceil(totalTimeoutMs / 2000) polls the watcher has stopped, however the polls went and
   * whatever the other actors did between them: it never makes more polls than that, and a run
   * that offers it that many ends with the job finished or but for its final save.
   */
  lemma {:induction false} WatcherStops(cfg: Config, s: State, events: seq<Event>)
    requires Inv(s) && s.phase.Watching? && Timely(cfg, s, events)
    requires cfg.totalTimeoutMs > 0 && s.phase.polls < MaxPolls(cfg)
    ensures s.phase.polls + PollsMade(cfg, s, events) <= MaxPolls(cfg)
    ensures s.phase.polls + PollsOffered(events) >= MaxPolls(cfg) ==> AtItsEnd(cfg, Run(cfg, s, events))
    decreases |events|
  {
    if events == [] {
    } else {
      var t := Step(cfg, s, events[0]);
      StepKeepsInv(cfg, s, events[0]);
      if t.phase.Watching? {
        WatcherStops(cfg, t, events[1..]);
      } else {
        QuietMakesNoPolls(cfg, t, events[1..]);
        RunKeepsInv(cfg, t, events[1..]);
        QuietIsAtItsEnd(cfg, Run(cfg, t, events[1..]));
      }
    }
  }

  lemma {:induction false} QuietMakesNoPolls(cfg: Config, s: State, events: seq<Event>)
    requires Quiet(s)
    ensures PollsMade(cfg, s, events) == 0 && Quiet(Run(cfg, s, events))
    decreases |events|
  {
    if events == [] {
    } else {
      QuietMakesNoPolls(cfg, Step(cfg, s, events[0]), events[1..]);
    }
  }

  lemma QuietIsAtItsEnd(cfg: Config, s: State)
    requires Inv(s) && Quiet(s)
    ensures AtItsEnd(cfg, s)
  {
    forall at, snaps
      ensures var t := Step(cfg, s, FinalizePolled(at, snaps)); t.phase.Stopped? && JobIsTerminal(t.job.status)
    {
      StepKeepsInv(cfg, s, FinalizePolled(at, snaps));
    }
  }

  /**
   * One poll of a watched job ends the watch exactly when the total time is up or every row is
   * finished, too old, or reported finished; a row whose lookup failed keeps the watch going.
   */
  lemma PollEndsWatchIff(cfg: Config, s: State, at: Time, details: map<HistoryId, Detail>, snaps: Snapshots)
    requires Inv(s) && s.phase.Watching? && s.rows != []
    ensures Quiet(PollOnce(cfg, s, at, details, snaps)) <==>
      || at - s.phase.startedAt >= cfg.totalTimeoutMs
      || forall r :: r in s.rows ==>
           || IsTerminal(r.status)
           || at - r.createdAt >= cfg.keywordTimeoutMs
           || (r.historyId in details && IsTerminal(details[r.historyId].status))
  {
    var rows := PolledRows(cfg, s.rows, at, details);
    forall i | 0 <= i < |rows|
      ensures rows[i] in rows && s.rows[i] in s.rows
    {}
    assert AllTerminal(rows) <==> forall i :: 0 <= i < |rows| ==> IsTerminal(rows[i].status);
  }
}
