/**
 * The handlers of search-job.service.ts and search-job-progress.sync.ts over their tables.
 *
 * A loaded entity is a copy of its stored row: handlers change a local copy and save it back by
 * assigning the field. The ghost `log` holds the steps of SearchJobProtocol that the handlers
 * made so far, and `Valid` says that the tables are the state those steps lead to from a new job;
 * so what SearchJobTheorems and SearchJobCallback prove of runs holds of these handlers. What the
 * other actors do while a handler waits comes in as lists of their events.
 */
module SearchJobService {
  import opened Common
  import opened SearchJobStatus
  import opened SearchJobProtocol
  import opened SearchJobTheorems
  import opened SearchJobCallback

  /** How a manual resend ends: 200, 409, 400 for the status, 400 when disabled, 502. */
  datatype ResendResult = Resent(at: Time) | AlreadySent | WrongStatus | CallbackDisabled | DeliveryFailed

  /** How one automatic report goes: what others do during the investigation and during the call, and its end. */
  datatype ReportRun = ReportRun(before: seq<Event>, during: seq<Event>, at: Time, delivery: Delivery)

  /**
   * One round of the watch: the others' events during the sleep, the poll's inputs, and, if the
   * poll finds every row finished, the others' events before the final save and its inputs.
   */
  datatype Tick = Tick(
    before: seq<Event>, at: Time, details: map<HistoryId, Detail>, snaps: Snapshots,
    between: seq<Event>, finalAt: Time, finalSnaps: Snapshots)

  /** How one call of the search service ends. */
  datatype SearchOutcome =
    | Returned(result: SearchResult, recorded: bool, at: Time)
    | Threw(message: string, at: Time)

  function ResendAnswer(j: Job, at: Time, delivery: Delivery): ResendResult {
    if j.callbackSentAt.Some? && !HasError(j) then AlreadySent
    else if !CallbackAllowed(j) then WrongStatus
    else match delivery
      case Delivered => Resent(at)
      case Disabled => CallbackDisabled
      case Rejected(_) => DeliveryFailed
  }

  /** The steps of a manual resend, with what others do while its call is under way. */
  function ResendEvents(s: State, during: seq<Event>, at: Time, delivery: Delivery): seq<Event> {
    if ResendAccepted(s.job) then [ResendBegins] + during + [ResendEnds(|s.attempts|, at, delivery)] else [ResendBegins]
  }

  /** Nobody else saves the outcome of the call at position `call`. */
  predicate LeavesCall(events: seq<Event>, call: nat) {
    forall e :: e in events ==> !(e.ResendEnds? && e.call == call)
  }

  lemma ResendRuns(cfg: Config, s: State, during: seq<Event>, at: Time, delivery: Delivery)
    requires Inv(s) && ResendAccepted(s.job) && LeavesCall(during, |s.attempts|)
    ensures var ready := Run(cfg, Step(cfg, s, ResendBegins), during);
      && Inv(ready) && Ends(ready, ResendEnds(|s.attempts|, at, delivery), |s.attempts|)
      && ready.attempts[|s.attempts|] == Attempt(s.job.status, None)
      && Run(cfg, s, ResendEvents(s, during, at, delivery)) == Step(cfg, ready, ResendEnds(|s.attempts|, at, delivery))
  {
    var call := |s.attempts|;
    var begun := Step(cfg, s, ResendBegins);
    StepKeepsInv(cfg, s, ResendBegins);
    CallStaysOpen(cfg, begun, during, call);
    RunKeepsInv(cfg, begun, during);
    RunSplits(cfg, s, [ResendBegins], during);
    RunSnoc(cfg, s, [], ResendBegins);
    assert [] + [ResendBegins] == [ResendBegins];
    RunSnoc(cfg, s, [ResendBegins] + during, ResendEnds(call, at, delivery));
  }

  /**
   * The answer of a manual resend is honest, whatever others do while its call is under way:
   * 200 means this very call was accepted and is recorded, 502 that it failed and the error is
   * recorded, 409 that an earlier call had succeeded, and the first two refusals touch nothing.
   */
  lemma ResendAnswerIsHonest(cfg: Config, s: State, during: seq<Event>, at: Time, delivery: Delivery)
    requires Inv(s) && LeavesCall(during, |s.attempts|)
    ensures var r, t := ResendAnswer(s.job, at, delivery), Run(cfg, s, ResendEvents(s, during, at, delivery));
      && (r.Resent? ==> t.job.callbackSentAt == Some(at) && t.job.callbackError.None?)
      && (r.Resent? <==> |s.attempts| < |t.attempts| && Succeeded(t.attempts[|s.attempts|]))
      && (r.DeliveryFailed? ==> delivery.Rejected? && t.job.callbackError == Some(TruncateMessage(delivery.message)))
      && (r.AlreadySent? ==> DeliveredCount(s.attempts) > 0)
      && (OneAtATime(s) ==> (r.AlreadySent? <==> DeliveredCount(s.attempts) == 1))
      && (r.AlreadySent? || r.WrongStatus? ==> t == s)
      && (!r.AlreadySent? && !r.WrongStatus? ==> |s.attempts| < |t.attempts|)
  {
    if ResendAccepted(s.job) {
      ResendRuns(cfg, s, during, at, delivery);
      StepEnds(cfg, Run(cfg, Step(cfg, s, ResendBegins), during), ResendEnds(|s.attempts|, at, delivery), |s.attempts|);
    } else {
      RunSnoc(cfg, s, [], ResendBegins);
      assert [] + [ResendBegins] == [ResendBegins];
    }
  }

  /** The events that are neither the runner's, the watcher's, nor the automatic report's. */
  predicate FromOthers(events: seq<Event>) {
    forall e :: e in events ==> e.CrawlProgress? || e.ResendBegins? || e.ResendEnds? || e.HistoryDeleted?
  }

  /** Events that only other actors can take never move the runner, the watcher or the report. */
  lemma {:induction false} OthersKeepPhase(cfg: Config, s: State, events: seq<Event>)
    requires FromOthers(events)
    ensures Run(cfg, s, events).phase == s.phase && Run(cfg, s, events).report == s.report
    decreases |events|
  {
    if events == [] {
    } else {
      assert events[0] in events;
      OthersKeepPhase(cfg, Step(cfg, s, events[0]), events[1..]);
    }
  }

  /** The steps of the automatic report, if one is due; a report sent by hand meanwhile is not sent again. */
  function ReportEvents(cfg: Config, s: State, r: ReportRun): seq<Event> {
    if !s.report.Due? then []
    else
      r.before + [ReportBegins]
      + if SendAccepted(Run(cfg, s, r.before).job) then r.during + [ReportEnds(r.at, r.delivery)] else []
  }

  function PollOf(t: Tick): Event {
    Poll(t.at, t.details, t.snaps)
  }

  function FinalSaveOf(t: Tick): Event {
    FinalizePolled(t.finalAt, t.finalSnaps)
  }

  /** The state right after the final save that follows the poll of `t`, if that poll ends the watch. */
  function Saved(cfg: Config, polled: State, t: Tick): State {
    if polled.phase.Finalizing? then Step(cfg, Run(cfg, polled, t.between), FinalSaveOf(t)) else polled
  }

  /** The steps after a poll: none, or the final save and the report. */
  function AfterPoll(cfg: Config, polled: State, t: Tick, r: ReportRun): seq<Event> {
    (if polled.phase.Finalizing? then t.between + [FinalSaveOf(t)] else [])
    + if polled.phase.Watching? then [] else ReportEvents(cfg, Saved(cfg, polled, t), r)
  }

  predicate TickFromOthers(t: Tick) {
    FromOthers(t.before) && FromOthers(t.between)
  }

  predicate ReportFromOthers(r: ReportRun) {
    FromOthers(r.before) && FromOthers(r.during)
  }

  /** The events of the first `n` rounds. */
  function WatchEvents(ticks: nat -> Tick, n: nat): seq<Event> {
    if n == 0 then [] else WatchEvents(ticks, n - 1) + ticks(n - 1).before + [PollOf(ticks(n - 1))]
  }

  /** The verdict of a watched job, with the time and the snapshots of the save that finished it. */
  predicate WatchVerdict(cfg: Config, polled: State, t: Tick) {
    var s := Saved(cfg, polled, t);
    && s.phase.Stopped? && JobIsTerminal(s.job.status) && s.job.finishedAt.Some?
    && (s.rows != [] ==>
          VerdictOf(s.job, s.rows,
            if polled.phase.Finalizing? then t.finalAt else t.at,
            if polled.phase.Finalizing? then t.finalSnaps else t.snaps))
    && (!polled.phase.Finalizing? ==> AllTerminal(s.rows))
  }

  /**
   * How a watch of `n` polls ends: it made those rounds, the final save and the report, and the
   * stored job is that of the final save.
   */
  predicate WatchEnds(cfg: Config, start: State, ticks: nat -> Tick, n: nat, r: ReportRun,
                      before: seq<Event>, log: seq<Event>, job: Job)
    requires n > 0
  {
    var polled, last := Run(cfg, start, WatchEvents(ticks, n)), ticks(n - 1);
    && log == before + WatchEvents(ticks, n) + AfterPoll(cfg, polled, last, r)
    && WatchVerdict(cfg, polled, last)
    && SameOutcome(job, Saved(cfg, polled, last).job)
  }

  /** How the search of one keyword shows in the event log. */
  function LastEvent(keywords: seq<string>, outcome: SearchOutcome): Event {
    match outcome
    case Threw(message, at) => RunnerFailed(message, at)
    case Returned(result, recorded, at) => KeywordSearched(keywords, result, recorded, at)
  }

  /** The events from keyword `i` on, with the other actors' events `noise` in between; a thrown search is the last. */
  function KeywordEvents(keywords: seq<string>, searches: seq<SearchOutcome>, noise: nat -> seq<Event>, i: nat): seq<Event>
    requires i <= |keywords| == |searches|
    decreases |keywords| - i
  {
    if i == |keywords| then []
    else
      noise(2 * i) + [SaveKeyword(keywords)] + noise(2 * i + 1) + [LastEvent(keywords, searches[i])]
      + if searches[i].Threw? then [] else KeywordEvents(keywords, searches, noise, i + 1)
  }

  class Service {
    const cfg: Config
    var job: Job
    var rows: seq<Row>
    /** Every callback call made so far. */
    var attempts: seq<Attempt>
    /** Where the automatic report stands; not stored by the program. */
    var report: Report
    /** Where the runner or the watcher stands; not stored by the program. */
    ghost var phase: Phase
    /** The steps made so far. */
    ghost var log: seq<Event>

    ghost function Model(): State
      reads this
    {
      State(job, rows, attempts, phase, report)
    }

    /** The tables are what the logged steps make of a new job; so the protocol's invariant holds. */
    ghost predicate Valid()
      reads this
    {
      Model() == Run(cfg, Initial(), log)
    }

    lemma ValidMeansInv()
      requires Valid()
      ensures Inv(Model())
    {
      RunKeepsInv(cfg, Initial(), log);
    }

    constructor (cfg: Config)
      ensures this.cfg == cfg && log == [] && Valid()
    {
      this.cfg := cfg;
      job, rows, attempts, phase, report, log := NewJob(), [], [], NotStarted, NotDue, [];
    }

    /** Logs the step that led from the logged state to the current one. */
    ghost method Record(e: Event)
      requires Model() == Step(cfg, Run(cfg, Initial(), log), e)
      modifies this`log
      ensures log == old(log) + [e] && Valid()
    {
      RunSnoc(cfg, Initial(), log, e);
      log := log + [e];
    }

    // ----- The BackOffice callback -----

    lemma KeepsCallOpen(events: seq<Event>, call: nat)
      requires Valid() && InFlight(attempts, call) && FromOthers(events)
      requires report != Sending(call) ==> LeavesCall(events, call)
      ensures var t := Run(cfg, Model(), events); InFlight(t.attempts, call) && t.attempts[call] == attempts[call]
    {
      ValidMeansInv();
      CallStaysOpen(cfg, Model(), events, call);
    }

    /** The saves after a call; a switched-off callback saves nothing. */
    method SaveOutcome(call: nat, at: Time, delivery: Delivery)
      requires InFlight(attempts, call)
      modifies this`job, this`attempts
      ensures job == Reported(old(job), at, delivery)
      ensures attempts == old(attempts)[call := old(attempts)[call].(outcome := Some(delivery))]
    {
      attempts := attempts[call := attempts[call].(outcome := Some(delivery))];
      match delivery
      case Delivered => job := job.(callbackSentAt := Some(at), callbackError := None);
      case Disabled =>
      case Rejected(message) => job := job.(callbackError := Some(TruncateMessage(message)));
    }

    /** A call goes out, for the automatic report or for a resend. */
    method BeginDelivery(auto: bool) returns (call: nat)
      requires Valid() && if auto then report.Due? && SendAccepted(job) else ResendAccepted(job)
      modifies this`attempts, this`report, this`log
      ensures Valid() && log == old(log) + [if auto then ReportBegins else ResendBegins]
      ensures call == |old(attempts)| && attempts == old(attempts) + [Attempt(job.status, None)]
      ensures report == if auto then Sending(call) else old(report)
    {
      call := |attempts|;
      attempts := attempts + [Attempt(job.status, None)];
      if auto {
        report := Sending(call);
      }
      Record(if auto then ReportBegins else ResendBegins);
    }

    /** Its answer comes back. */
    method EndDelivery(call: nat, at: Time, delivery: Delivery)
      requires Valid() && InFlight(attempts, call)
      modifies this`job, this`attempts, this`report, this`log
      ensures Valid()
      ensures log == old(log) + [if old(report) == Sending(call) then ReportEnds(at, delivery) else ResendEnds(call, at, delivery)]
      ensures job == Reported(old(job), at, delivery)
      ensures attempts == old(attempts)[call := old(attempts)[call].(outcome := Some(delivery))]
      ensures report == if old(report) == Sending(call) then NotDue else old(report)
    {
      ghost var e := if report == Sending(call) then ReportEnds(at, delivery) else ResendEnds(call, at, delivery);
      SaveOutcome(call, at, delivery);
      if report == Sending(call) {
        report := NotDue;
      }
      Record(e);
    }

    method SendBackOfficeCallback(during: seq<Event>, at: Time, delivery: Delivery)
      requires Valid() && report.Due? && FromOthers(during)
      modifies this
      ensures Valid() && report.NotDue? && phase == old(phase)
      ensures log == old(log) + [ReportBegins] + if SendAccepted(old(job)) then during + [ReportEnds(at, delivery)] else []
      ensures !SendAccepted(old(job)) ==> job == old(job) && attempts == old(attempts)
      ensures SendAccepted(old(job)) ==>
        |attempts| > |old(attempts)| && attempts[|old(attempts)|] == Attempt(old(job).status, Some(delivery))
      ensures SendAccepted(old(job)) && delivery.Delivered? ==> job.callbackSentAt == Some(at) && job.callbackError.None?
      ensures SendAccepted(old(job)) && delivery.Rejected? ==> job.callbackError == Some(TruncateMessage(delivery.message))
    {
      if job.callbackSentAt.Some? || (!job.status.Completed? && !job.status.Partial?) {
        report := NotDue;
        Record(ReportBegins);
        return;
      }
      var call := BeginDelivery(true);
      KeepsCallOpen(during, call);
      HandleOthers(during);
      EndDelivery(call, at, delivery);
    }

    method ResendBackOfficeCallback(during: seq<Event>, at: Time, delivery: Delivery) returns (r: ResendResult)
      requires Valid() && FromOthers(during) && LeavesCall(during, |attempts|)
      modifies this
      ensures Valid() && phase == old(phase) && report == old(report)
      ensures log == old(log) + ResendEvents(old(Model()), during, at, delivery)
      ensures r == ResendAnswer(old(job), at, delivery)
      ensures r.Resent? ==> job.callbackSentAt == Some(at) && job.callbackError.None?
      ensures r.AlreadySent? || r.WrongStatus? ==> Model() == old(Model())
    {
      ValidMeansInv();
      if job.callbackSentAt.Some? && !HasError(job) {
        Record(ResendBegins);
        return AlreadySent;
      }
      if !job.status.Completed? && !job.status.Partial? {
        Record(ResendBegins);
        return WrongStatus;
      }
      var call := BeginDelivery(false);
      KeepsCallOpen(during, call);
      HandleOthers(during);
      EndDelivery(call, at, delivery);
      match delivery
      case Delivered => r := Resent(at);
      case Disabled => r := CallbackDisabled;
      case Rejected(_) => r := DeliveryFailed;
    }

    /** The investigation of the results, during which others go on, and then the report. */
    method TriggerAutoInvestigation(r: ReportRun)
      requires Valid() && report.Due? && ReportFromOthers(r)
      modifies this
      ensures Valid() && report.NotDue? && phase == old(phase)
      ensures log == old(log) + ReportEvents(cfg, old(Model()), r)
    {
      OthersKeepPhase(cfg, Model(), r.before);
      HandleOthers(r.before);
      SendBackOfficeCallback(r.during, r.at, r.delivery);
    }

    // ----- Finalizing -----

    /**
     * The final save, which `e` names, and the report it makes due. A job that is finished
     * already is left alone.
     */
    method FinalizeJob(at: Time, snaps: Snapshots, r: ReportRun, ghost e: Event)
      requires Step(cfg, Run(cfg, Initial(), log), e) == Finalize(Model(), at, snaps)
      requires ReportFromOthers(r)
      modifies this
      ensures Valid() && phase.Stopped?
      ensures log == old(log) + [e]
        + if old(job).finishedAt.Some? && JobIsTerminal(old(job).status) then [] else ReportEvents(cfg, Finalize(old(Model()), at, snaps), r)
    {
      var j := job;
      if j.finishedAt.Some? && (j.status.Completed? || j.status.Partial? || j.status.Failed?) {
        phase := Stopped;
        Record(e);
        return;
      }
      if |rows| == 0 {
        if j.searchHistoryId.None? {
          j := j.(status := Failed);
          j := j.(finishedAt := Some(at));
          j := j.(errorMessage := Some("No search histories recorded"));
        } else {
          j := j.(status := Completed, progress := 100, currentSite := None);
          j := j.(finishedAt := Some(at), errorMessage := None);
          j := j.(resultCount := CountDistinct(snaps, [j.searchHistoryId.value]));
        }
        job := j;
      } else {
        SaveVerdict(at, snaps);
      }
      var reported := job.status.Completed? || job.status.Partial?;
      phase, report := Stopped, if reported then Due else NotDue;
      Record(e);
      if reported {
        TriggerAutoInvestigation(r);
      }
    }

    /** The verdict over the recorded rows. */
    method SaveVerdict(at: Time, snaps: Snapshots)
      requires |rows| > 0
      modifies this`job
      ensures job == FinalJob(old(job), rows, at, snaps)
      ensures VerdictOf(job, rows, at, snaps)
    {
      ghost var loaded := NewJob();
      FinalizeVerdict(State(loaded, rows, [], Finalizing, NotDue), at, snaps);
      var j := job;
      var jobStatus := ResolveJobStatus(Statuses(rows));
      j := j.(resultCount := CountDistinct(snaps, HistoryIds(rows)));
      j := j.(status := jobStatus, progress := 100, currentSite := None);
      j := j.(finishedAt := Some(at));
      if jobStatus.Failed? {
        j := j.(errorMessage := Some("All keyword searches failed or timed out"));
      } else if jobStatus.Partial? {
        j := j.(errorMessage := Some("Some keyword searches failed or timed out"));
      } else {
        j := j.(errorMessage := None);
      }
      job := j;
    }

    /** The total timeout: every unfinished row becomes a timeout, the others stay. */
    method MarkIncompleteRowsTimeout()
      modifies this`rows
      ensures rows == MarkTimeouts(old(rows)) && AllTerminal(rows)
    {
      var i := 0;
      while i < |rows|
        invariant i <= |rows| == |old(rows)|
        invariant forall k :: 0 <= k < i ==> rows[k] == MarkTimeout(old(rows)[k])
        invariant forall k :: i <= k < |rows| ==> rows[k] == old(rows)[k]
      {
        if !IsTerminal(rows[i].status) {
          rows := rows[i := rows[i].(status := RowTimeout)];
        }
        i := i + 1;
      }
      assert rows == MarkTimeouts(old(rows));
    }

    /** Copies the reported crawl status into every row of that crawl, finished or not. */
    method UpdateJobHistoryFromCrawl(c: Crawl)
      modifies this`rows
      ensures rows == CrawledRows(old(rows), c)
    {
      var i := 0;
      while i < |rows|
        invariant i <= |rows| == |old(rows)|
        invariant forall k :: 0 <= k < i ==> rows[k] == CrawledRow(old(rows)[k], c)
        invariant forall k :: i <= k < |rows| ==> rows[k] == old(rows)[k]
      {
        var row := rows[i];
        if row.historyId == c.searchId {
          row := row.(status := c.status);
          if c.resultCount.Some? {
            row := row.(resultCount := c.resultCount.value);
          }
          rows := rows[i := row];
        }
        i := i + 1;
      }
      assert rows == CrawledRows(old(rows), c);
    }

    method RefreshJobProgressFromHistories(c: Crawl, legacy: bool)
      modifies this`job
      ensures job == RefreshJob(old(job), rows, c, legacy)
    {
      var linked := exists r :: r in rows && r.historyId == c.searchId;
      if !linked && !(legacy && job.searchHistoryId == Some(c.searchId)) {
        return;
      }
      var j := job;
      if j.status.Completed? || j.status.Partial? || j.status.Failed? {
        return;
      }
      if |rows| > 0 {
        j := j.(progress := AggregateProgress(CrawledItems(rows, c)));
        j := j.(currentSite := c.currentSite);
        if !j.status.Running? && !j.status.Queued? {
          j := j.(status := Running);
        } else if c.status.RowQueued? {
          var anyRunning := exists r :: r in rows && (r.status.RowRunning? || IsTerminal(r.status));
          j := j.(status := if anyRunning then Running else Queued);
        } else {
          j := j.(status := Running);
        }
      } else {
        j := j.(progress := ClampScore(c.percent), currentSite := c.currentSite);
        if !IsTerminal(c.status) {
          j := j.(status := if c.status.RowQueued? then Queued else Running);
        }
        if c.resultCount.Some? {
          j := j.(resultCount := c.resultCount.value);
        }
      }
      job := j;
    }

    /** The deletion of a search clears the reference of the job and leaves the rows. */
    method ForgetHistory(h: HistoryId)
      modifies this`job
      ensures job == old(job).(searchHistoryId := Referenced(old(job).searchHistoryId, [HistoryDeleted(h)]))
    {
      if job.searchHistoryId == Some(h) {
        job := job.(searchHistoryId := None);
      }
    }

    /** What the others do while a handler waits: crawl messages, manual resends and deleted searches, in any order. */
    method HandleOthers(events: seq<Event>)
      requires Valid() && FromOthers(events)
      modifies this`job, this`rows, this`attempts, this`log
      ensures Valid() && log == old(log) + events && Model() == Run(cfg, old(Model()), events)
    {
      var i := 0;
      while i < |events|
        invariant i <= |events| && phase == old(phase) && report == old(report)
        invariant Valid() && log == old(log) + events[..i] && Model() == Run(cfg, old(Model()), events[..i])
      {
        assert events[i] in events;
        RunSnoc(cfg, old(Model()), events[..i], events[i]);
        assert events[..i + 1] == events[..i] + [events[i]];
        HandleOther(events[i]);
        i := i + 1;
      }
      assert events[..i] == events;
    }

    method HandleOther(e: Event)
      requires Valid() && FromOthers([e])
      modifies this`job, this`rows, this`attempts, this`log
      ensures Valid() && log == old(log) + [e] && Model() == Step(cfg, old(Model()), e)
    {
      assert e in [e];
      match e {
        case CrawlProgress(crawl, legacy) =>
          UpdateJobHistoryFromCrawl(crawl);
          RefreshJobProgressFromHistories(crawl, legacy);
        case HistoryDeleted(h) =>
          ForgetHistory(h);
        case ResendBegins =>
          if (job.callbackSentAt.None? || HasError(job)) && (job.status.Completed? || job.status.Partial?) {
            attempts := attempts + [Attempt(job.status, None)];
          }
        case ResendEnds(call, at, delivery) =>
          if InFlight(attempts, call) && report != Sending(call) {
            SaveOutcome(call, at, delivery);
          }
      }
      Record(e);
    }

    // ----- The watcher -----

    /** The body of the poll loop after the sleep; `stop` is its `return`. */
    method PollJobHistories(startedAt: Time, t: Tick, r: ReportRun) returns (stop: bool)
      requires Valid() && phase.Watching? && phase.startedAt == startedAt
      requires TickFromOthers(t) && ReportFromOthers(r)
      modifies this
      ensures Valid()
      ensures log == old(log) + [PollOf(t)] + AfterPoll(cfg, Step(cfg, old(Model()), PollOf(t)), t, r)
      ensures stop <==> !Step(cfg, old(Model()), PollOf(t)).phase.Watching?
    {
      ValidMeansInv();
      if job.status.Completed? || job.status.Partial? || job.status.Failed? {
        assert false;
      }
      if |rows| == 0 {
        FinishWithoutRows(t, r);
        return true;
      }
      if t.at - startedAt >= cfg.totalTimeoutMs {
        TimeOutJob(t, r);
        return true;
      }
      stop := SavePolledJob(startedAt, t);
      if stop {
        FinalizePolledJob(t, r);
      }
    }

    /** After a poll that found every row finished: the others' events, then the final save. */
    method FinalizePolledJob(t: Tick, r: ReportRun)
      requires Valid() && phase.Finalizing? && TickFromOthers(t) && ReportFromOthers(r)
      modifies this
      ensures Valid()
      ensures log == old(log) + t.between + [FinalSaveOf(t)] + ReportEvents(cfg, Saved(cfg, old(Model()), t), r)
    {
      HandleOthers(t.between);
      ValidMeansInv();
      FinalizeJob(t.finalAt, t.finalSnaps, r, FinalSaveOf(t));
    }

    method FinishWithoutRows(t: Tick, r: ReportRun)
      requires Valid() && phase.Watching? && !JobIsTerminal(job.status) && rows == [] && ReportFromOthers(r)
      modifies this
      ensures Valid() && Step(cfg, old(Model()), PollOf(t)).phase.Stopped?
      ensures log == old(log) + [PollOf(t)] + AfterPoll(cfg, Step(cfg, old(Model()), PollOf(t)), t, r)
    {
      FinalizeJob(t.at, t.snaps, r, PollOf(t));
    }

    /** The total time is up: whatever is unfinished is timed out and the job finished. */
    method TimeOutJob(t: Tick, r: ReportRun)
      requires Valid() && phase.Watching? && !JobIsTerminal(job.status) && rows != []
      requires t.at - phase.startedAt >= cfg.totalTimeoutMs && ReportFromOthers(r)
      modifies this
      ensures Valid() && Step(cfg, old(Model()), PollOf(t)).phase.Stopped?
      ensures log == old(log) + [PollOf(t)] + AfterPoll(cfg, Step(cfg, old(Model()), PollOf(t)), t, r)
    {
      MarkIncompleteRowsTimeout();
      FinalizeJob(t.at, t.snaps, r, PollOf(t));
    }

    /** The pass over the rows and the save of the job; `stop` tells that every row is finished. */
    method SavePolledJob(startedAt: Time, t: Tick) returns (stop: bool)
      requires Valid() && phase.Watching? && phase.startedAt == startedAt
      requires !JobIsTerminal(job.status) && rows != [] && t.at - startedAt < cfg.totalTimeoutMs
      modifies this
      ensures Valid() && log == old(log) + [PollOf(t)]
      ensures Model() == Step(cfg, old(Model()), PollOf(t))
      ensures phase == if stop then Finalizing else Watching(startedAt, old(phase).polls + 1)
    {
      var items := RefreshRows(t);
      var j := job;
      j := j.(resultCount := CountDistinct(t.snaps, HistoryIds(rows)));
      j := j.(progress := AggregateProgress(items));
      j := j.(currentSite := None);
      job := j;
      stop := forall r :: r in rows ==> IsTerminal(r.status);
      phase := if stop then Finalizing else Watching(startedAt, phase.polls + 1);
      Record(PollOf(t));
    }

    /** One pass over the rows: age timeout first, then a lookup that may fail. */
    method RefreshRows(t: Tick) returns (items: seq<ProgressItem>)
      modifies this`rows
      ensures rows == PolledRows(cfg, old(rows), t.at, t.details)
      ensures items == PolledItems(cfg, old(rows), t.at, t.details)
    {
      var percents: seq<real> := [];
      var i := 0;
      while i < |rows|
        invariant i <= |rows| == |old(rows)| && |percents| == i
        invariant forall k :: 0 <= k < i ==> rows[k] == PolledRow(cfg, old(rows)[k], t.at, t.details)
        invariant forall k :: 0 <= k < i ==> percents[k] == PolledPercent(cfg, old(rows)[k], t.at, t.details)
        invariant forall k :: i <= k < |rows| ==> rows[k] == old(rows)[k]
      {
        var row := rows[i];
        var percent: real;
        if IsTerminal(row.status) {
          percent := 100.0;
        } else if t.at - row.createdAt >= cfg.keywordTimeoutMs {
          row := row.(status := RowTimeout);
          percent := 100.0;
        } else if row.historyId in t.details {
          var detail := t.details[row.historyId];
          row := row.(status := detail.status, resultCount := Max(row.resultCount, detail.resultCount));
          percent := if IsTerminal(row.status) then 100.0 else 40.0;
        } else {
          percent := 20.0;
        }
        rows := rows[i := row];
        percents := percents + [percent];
        i := i + 1;
      }
      items := seq(|rows|, k requires 0 <= k < |rows| reads this requires |percents| == |rows| =>
        ProgressItem(rows[k].status, Some(percents[k])));
      assert rows == PolledRows(cfg, old(rows), t.at, t.details);
      assert items == PolledItems(cfg, old(rows), t.at, t.details);
    }

    /**
     * The poll loop. Whatever the lookups return and whatever the other actors do while it waits,
     * it ends within ceil(totalTimeoutMs / 2000) polls with the job finished.
     */
    method WatchJobHistories(startedAt: Time, ticks: nat -> Tick, r: ReportRun) returns (polls: nat)
      requires Valid() && phase == Watching(startedAt, 0) && cfg.totalTimeoutMs > 0
      requires forall k: nat :: TickFromOthers(ticks(k))
      requires forall k: nat :: ticks(k).at - startedAt >= POLL_INTERVAL_MS * (k + 1)
      requires ReportFromOthers(r)
      modifies this
      ensures 1 <= polls <= MaxPolls(cfg)
      ensures Valid() && phase.Stopped?
      ensures WatchEnds(cfg, old(Model()), ticks, polls, r, old(log), log, job)
    {
      ghost var start, logged := Model(), log;
      polls := 0;
      while true
        invariant Valid() && phase == Watching(startedAt, polls) && polls < MaxPolls(cfg)
        invariant log == logged + WatchEvents(ticks, polls)
        invariant Model() == Run(cfg, start, WatchEvents(ticks, polls))
        decreases MaxPolls(cfg) - polls
      {
        var stop := WatchRound(startedAt, ticks, r, polls, start, logged);
        polls := polls + 1;
        if stop {
          return;
        }
      }
    }

    /** One round of the poll loop: whatever the others did during the sleep, then the poll. */
    method WatchRound(startedAt: Time, ticks: nat -> Tick, r: ReportRun, polls: nat, ghost start: State, ghost logged: seq<Event>)
      returns (stop: bool)
      requires Valid() && phase == Watching(startedAt, polls) && polls < MaxPolls(cfg) && cfg.totalTimeoutMs > 0
      requires TickFromOthers(ticks(polls)) && ReportFromOthers(r)
      requires ticks(polls).at - startedAt >= POLL_INTERVAL_MS * (polls + 1)
      requires log == logged + WatchEvents(ticks, polls) && Model() == Run(cfg, start, WatchEvents(ticks, polls))
      modifies this
      ensures Valid()
      ensures stop ==> phase.Stopped? && WatchEnds(cfg, start, ticks, polls + 1, r, logged, log, job)
      ensures !stop ==> phase == Watching(startedAt, polls + 1) && polls + 1 < MaxPolls(cfg)
      ensures !stop ==> log == logged + WatchEvents(ticks, polls + 1)
      ensures !stop ==> Model() == Run(cfg, start, WatchEvents(ticks, polls + 1))
    {
      var t := ticks(polls);
      WatchEventsRun(cfg, start, ticks, polls);
      ghost var polled: State;
      stop, polled := SleepAndPoll(startedAt, t, r);
    }

    method SleepAndPoll(startedAt: Time, t: Tick, r: ReportRun) returns (stop: bool, ghost polled: State)
      requires Valid() && phase.Watching? && phase.startedAt == startedAt
      requires TickFromOthers(t) && ReportFromOthers(r)
      modifies this
      ensures Valid() && polled == Step(cfg, Run(cfg, old(Model()), t.before), PollOf(t))
      ensures log == old(log) + t.before + [PollOf(t)] + AfterPoll(cfg, polled, t, r)
      ensures stop ==> phase.Stopped? && WatchVerdict(cfg, polled, t) && SameOutcome(job, Saved(cfg, polled, t).job)
      ensures !stop ==> AfterPoll(cfg, polled, t, r) == [] && Model() == polled
      ensures !stop ==> phase == Watching(startedAt, old(phase).polls + 1) && t.at - startedAt < cfg.totalTimeoutMs
    {
      OthersKeepPhase(cfg, Model(), t.before);
      HandleOthers(t.before);
      ValidMeansInv();
      ghost var found, before := Model(), log;
      polled := Step(cfg, found, PollOf(t));
      stop := PollJobHistories(startedAt, t, r);
      RunSnoc(cfg, Initial(), before, PollOf(t));
      RunSplits(cfg, Initial(), before + [PollOf(t)], AfterPoll(cfg, polled, t, r));
      if stop {
        PollVerdict(cfg, found, t, r);
      }
    }

    // ----- The runner -----

    method RecordJobHistory(keyword: string, result: SearchResult, at: Time)
      requires result.searchId.Some?
      modifies this`rows
      ensures rows == old(rows) + [RecordedRow(keyword, result.searchId.value, result, at)]
    {
      var terminal := IsTerminal(result.status) || result.fromCache;
      var needsCrawl := !terminal && !result.fromCache;
      rows := rows + [Row(result.searchId.value, keyword, if needsCrawl then RowQueued else result.status, result.resultCount, at)];
    }

    /**
     * The runner, keyword by keyword, with the other actors' events between its saves. It leaves
     * the job either finished and reported, or handed to the watcher.
     */
    method RunSearch(keywords: seq<string>, searches: seq<SearchOutcome>, published: seq<Event>, noise: nat -> seq<Event>,
                     at: Time, snaps: Snapshots, r: ReportRun)
      requires Valid() && phase.NotStarted? && |searches| == |keywords|
      requires FromOthers(published) && (forall k: nat :: FromOthers(noise(k))) && ReportFromOthers(r)
      modifies this
      ensures Valid() && (phase.Stopped? || phase == Watching(at, 0))
      ensures var events := [Enqueue] + published + [StartSearching(keywords, at)] + KeywordEvents(keywords, searches, noise, 0);
        if keywords == [] || exists o :: o in searches && o.Threw? then log == old(log) + events && job.status.Failed?
        else
          log == old(log) + events + [SearchesDone(keywords, at, snaps)]
            + ReportEvents(cfg, Run(cfg, old(Model()), events + [SearchesDone(keywords, at, snaps)]), r)
    {
      ghost var start := old(Model());
      ghost var logged := log;
      var mem := BeginSearch(keywords, published, at);
      if |keywords| == 0 {
        return;
      }
      var stop: bool;
      stop, mem := RunKeywords(keywords, searches, noise, mem);
      if stop {
        return;
      }
      ghost var events := [Enqueue] + published + [StartSearching(keywords, at)] + KeywordEvents(keywords, searches, noise, 0);
      assert log == logged + events;
      RunSplits(cfg, Initial(), logged, events);
      RunSnoc(cfg, start, events, SearchesDone(keywords, at, snaps));
      FinishSearches(keywords, at, snaps, mem, r);
    }

    /** The saves before the first keyword; without keywords the job fails at once. */
    method BeginSearch(keywords: seq<string>, published: seq<Event>, at: Time) returns (mem: Job)
      requires Valid() && phase.NotStarted? && FromOthers(published)
      modifies this
      ensures Valid() && log == old(log) + [Enqueue] + published + [StartSearching(keywords, at)]
      ensures if keywords == [] then phase.Stopped? && job.status.Failed? else phase == Searching(0, false, mem)
    {
      mem := job.(status := Queued, progress := 5);
      job := mem;
      phase := Enqueued(mem);
      Record(Enqueue);
      HandleOthers(published);
      if |keywords| == 0 {
        job := job.(status := Failed, errorMessage := Some("No search keywords generated"), finishedAt := Some(at));
        phase := Stopped;
      } else {
        mem := mem.(status := Running, progress := 10);
        job := mem;
        phase := Searching(0, false, mem);
      }
      Record(StartSearching(keywords, at));
    }

    /** The keyword loop; `stop` tells that a search threw and the job failed. */
    method RunKeywords(keywords: seq<string>, searches: seq<SearchOutcome>, noise: nat -> seq<Event>, loaded: Job)
      returns (stop: bool, mem: Job)
      requires |searches| == |keywords| && Valid() && phase == Searching(0, false, loaded)
      requires forall k: nat :: FromOthers(noise(k))
      modifies this
      ensures Valid() && log == old(log) + KeywordEvents(keywords, searches, noise, 0)
      ensures stop <==> exists o :: o in searches && o.Threw?
      ensures if stop then phase.Stopped? && job.status.Failed? else phase == Searching(|keywords|, false, mem)
    {
      mem := loaded;
      var i := 0;
      while i < |keywords|
        invariant i <= |keywords| && Valid() && phase == Searching(i, false, mem)
        invariant log + KeywordEvents(keywords, searches, noise, i) == old(log) + KeywordEvents(keywords, searches, noise, 0)
        invariant forall k :: 0 <= k < i ==> !searches[k].Threw?
      {
        KeywordRound(log, keywords, searches, noise, i);
        stop, mem := SearchKeyword(keywords, searches[i], noise(2 * i), noise(2 * i + 1), i, mem);
        if stop {
          assert searches[i] in searches;
          return;
        }
        i := i + 1;
      }
      stop := false;
    }

    /** After the last keyword: count the listings, then hand over to the watcher or finish. */
    method FinishSearches(keywords: seq<string>, at: Time, snaps: Snapshots, loaded: Job, r: ReportRun)
      requires Valid() && phase == Searching(|keywords|, false, loaded) && ReportFromOthers(r)
      modifies this
      ensures Valid() && (phase.Stopped? || phase == Watching(at, 0))
      ensures log == old(log) + [SearchesDone(keywords, at, snaps)]
        + ReportEvents(cfg, Step(cfg, old(Model()), SearchesDone(keywords, at, snaps)), r)
    {
      ValidMeansInv();
      var mem := loaded.(resultCount := CountDistinct(snaps, HistoryIds(rows)));
      if exists r :: r in rows && !IsTerminal(r.status) {
        mem := mem.(status := Running);
        mem := mem.(progress := Max(mem.progress, AggregateProgress(PendingItems(rows))));
        job := mem;
        phase := Watching(at, 0);
        Record(SearchesDone(keywords, at, snaps));
      } else {
        job := mem;
        FinalizeJob(at, snaps, r, SearchesDone(keywords, at, snaps));
      }
    }

    /** One round of the keyword loop: save progress, search, record the row. */
    method SearchKeyword(keywords: seq<string>, outcome: SearchOutcome, before: seq<Event>, after: seq<Event>, i: nat, mem: Job)
      returns (stop: bool, next: Job)
      requires i < |keywords| && Valid() && phase == Searching(i, false, mem)
      requires FromOthers(before) && FromOthers(after)
      modifies this
      ensures Valid()
      ensures log == old(log) + (before + [SaveKeyword(keywords)] + after + [LastEvent(keywords, outcome)])
      ensures stop == outcome.Threw?
      ensures stop ==> phase.Stopped? && job.status.Failed?
      ensures !stop ==> phase == Searching(i + 1, false, next)
      ensures !stop ==> next.progress == KeywordProgress(i, |keywords|)
      ensures !stop ==> next.searchHistoryId == OrElse(mem.searchHistoryId, outcome.result.searchId)
    {
      var m := SaveKeywordProgress(keywords, before, after, i, mem);
      stop, next := TakeResult(keywords, outcome, i, m);
    }

    /** The save before a search, with the other actors' events before and after it. */
    method SaveKeywordProgress(keywords: seq<string>, before: seq<Event>, after: seq<Event>, i: nat, mem: Job) returns (m: Job)
      requires i < |keywords| && Valid() && phase == Searching(i, false, mem)
      requires FromOthers(before) && FromOthers(after)
      modifies this
      ensures Valid() && log == old(log) + before + [SaveKeyword(keywords)] + after
      ensures m == mem.(progress := KeywordProgress(i, |keywords|)) && phase == Searching(i, true, m)
    {
      HandleOthers(before);
      m := mem.(progress := KeywordProgress(i, |keywords|));
      job := m;
      phase := Searching(i, true, m);
      Record(SaveKeyword(keywords));
      HandleOthers(after);
    }

    /** What the search of keyword `i` leads to: the row and the next keyword, or the failed job. */
    method TakeResult(keywords: seq<string>, outcome: SearchOutcome, i: nat, m: Job) returns (stop: bool, next: Job)
      requires i < |keywords| && Valid() && phase == Searching(i, true, m)
      modifies this
      ensures Valid() && log == old(log) + [LastEvent(keywords, outcome)]
      ensures stop == outcome.Threw?
      ensures stop ==> phase.Stopped? && job.status.Failed?
      ensures !stop ==> next == m.(searchHistoryId := OrElse(m.searchHistoryId, outcome.result.searchId))
      ensures !stop ==> phase == Searching(i + 1, false, next)
    {
      next := m;
      match outcome {
        case Threw(message, at) =>
          job := job.(status := Failed, errorMessage := Some(message), finishedAt := Some(at));
          phase := Stopped;
          stop := true;
        case Returned(result, recorded, at) =>
          if result.searchId.Some? && recorded {
            RecordJobHistory(keywords[i], result, at);
          }
          if result.searchId.Some? && next.searchHistoryId.None? {
            next := next.(searchHistoryId := result.searchId);
          }
          phase := Searching(i + 1, false, next);
          stop := false;
      }
      Record(LastEvent(keywords, outcome));
    }
  }

  lemma WatchEventsRun(cfg: Config, s: State, ticks: nat -> Tick, n: nat)
    ensures Run(cfg, s, WatchEvents(ticks, n + 1))
      == Step(cfg, Run(cfg, Run(cfg, s, WatchEvents(ticks, n)), ticks(n).before), PollOf(ticks(n)))
  {
    RunSplits(cfg, s, WatchEvents(ticks, n), ticks(n).before);
    RunSnoc(cfg, s, WatchEvents(ticks, n) + ticks(n).before, PollOf(ticks(n)));
  }

  /** What one more keyword adds to a log. */
  lemma KeywordRound(log: seq<Event>, keywords: seq<string>, searches: seq<SearchOutcome>, noise: nat -> seq<Event>, i: nat)
    requires i < |keywords| == |searches|
    ensures var round := noise(2 * i) + [SaveKeyword(keywords)] + noise(2 * i + 1) + [LastEvent(keywords, searches[i])];
      log + round + (if searches[i].Threw? then [] else KeywordEvents(keywords, searches, noise, i + 1))
        == log + KeywordEvents(keywords, searches, noise, i)
  {
  }

  /** A poll that ends the watch leads to the exact verdict, and the report changes nothing of it. */
  lemma PollVerdict(cfg: Config, s: State, t: Tick, r: ReportRun)
    requires Inv(s) && s.phase.Watching? && TickFromOthers(t)
    requires !Step(cfg, s, PollOf(t)).phase.Watching?
    ensures var polled := Step(cfg, s, PollOf(t));
      && WatchVerdict(cfg, polled, t)
      && SameOutcome(Run(cfg, polled, AfterPoll(cfg, polled, t, r)).job, Saved(cfg, polled, t).job)
      && Run(cfg, polled, AfterPoll(cfg, polled, t, r)).phase.Stopped?
  {
    var polled := Step(cfg, s, PollOf(t));
    StepKeepsInv(cfg, s, PollOf(t));
    if polled.phase.Finalizing? {
      OthersKeepPhase(cfg, polled, t.between);
      RunKeepsInv(cfg, polled, t.between);
      var ready := Run(cfg, polled, t.between);
      StepKeepsInv(cfg, ready, FinalSaveOf(t));
      FinishingStepIsExact(cfg, ready, FinalSaveOf(t));
      RunSnoc(cfg, polled, t.between, FinalSaveOf(t));
      RunSplits(cfg, polled, t.between + [FinalSaveOf(t)], ReportEvents(cfg, Saved(cfg, polled, t), r));
    } else {
      FinishingStepIsExact(cfg, s, PollOf(t));
      assert AfterPoll(cfg, polled, t, r) == ReportEvents(cfg, polled, r);
    }
    FinishedJobIsAbsorbing(cfg, Saved(cfg, polled, t), ReportEvents(cfg, Saved(cfg, polled, t), r));
  }
}
