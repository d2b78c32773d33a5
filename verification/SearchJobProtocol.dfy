/**
 * The Search Job protocol as a state machine (search-job.service.ts, search-job-progress.sync.ts).
 *
 * Six actors write one job and its keyword rows: the runner that issues the searches, the
 * polling watcher, the crawl-progress subscriber, the automatic report to the BackOffice, the
 * manual resend of that report, and the deletion of a search. The stretch of a handler from one
 * wait for anything but the database (a search, a sleep, a published message, an AI call, the
 * callback itself) to the next is one step; steps of different actors interleave freely. So the
 * report is due from the final save on but begins later, and every callback is two steps, the
 * check with the call and the save of its outcome. The runner keeps its own copy of the job
 * across steps (`mem`) and saves it whole, overwriting whatever others stored in between.
 */
module SearchJobProtocol {
  import opened Common
  import opened SearchJobStatus

  type Time = int
  type HistoryId = nat
  type ResultId = nat

  const POLL_INTERVAL_MS := 2000

  datatype Job = Job(
    status: JobStatus,
    progress: int,
    currentSite: Option<string>,
    resultCount: int,
    searchHistoryId: Option<HistoryId>,
    errorMessage: Option<string>,
    finishedAt: Option<Time>,
    callbackSentAt: Option<Time>,
    callbackError: Option<string>)

  datatype Row = Row(historyId: HistoryId, keyword: string, status: RowStatus, resultCount: int, createdAt: Time)

  /** What the BackOffice callback does: accepted, switched off, or failed with a message. */
  datatype Delivery = Delivered | Disabled | Rejected(message: string)

  /** One call of the callback, with the job status it was made for; no outcome while it is under way. */
  datatype Attempt = Attempt(status: JobStatus, outcome: Option<Delivery>)

  /** Where the automatic report of a job stands. */
  datatype Report = NotDue | Due | Sending(call: nat)

  datatype Config = Config(keywordTimeoutMs: int, totalTimeoutMs: int)

  datatype Phase =
    | NotStarted
    | Enqueued(mem: Job)
    | Searching(next: nat, saved: bool, mem: Job)
    | Watching(startedAt: Time, polls: nat)
    | Finalizing
    | Stopped

  datatype State = State(job: Job, rows: seq<Row>, attempts: seq<Attempt>, phase: Phase, report: Report)

  /** A crawl progress message. */
  datatype Crawl = Crawl(
    searchId: HistoryId, status: RowStatus, percent: real, currentSite: Option<string>, resultCount: Option<int>)

  /** What `getSearch` reports for a crawl history. */
  datatype Detail = Detail(status: RowStatus, resultCount: int)

  /** Which listings each crawl history has snapshots of. */
  type Snapshots = map<HistoryId, set<ResultId>>

  /** What one keyword search returned. */
  datatype SearchResult = SearchResult(
    searchId: Option<HistoryId>, status: RowStatus, fromCache: bool, resultCount: int)

  datatype Event =
    | Enqueue
    | StartSearching(keywords: seq<string>, at: Time)
    | SaveKeyword(keywords: seq<string>)
    | KeywordSearched(keywords: seq<string>, result: SearchResult, recorded: bool, at: Time)
    | SearchesDone(keywords: seq<string>, at: Time, snaps: Snapshots)
    | RunnerFailed(message: string, at: Time)
    | Poll(at: Time, details: map<HistoryId, Detail>, snaps: Snapshots)
    | FinalizePolled(at: Time, snaps: Snapshots)
    | CrawlProgress(crawl: Crawl, legacy: bool)
    | ReportBegins
    | ReportEnds(at: Time, delivery: Delivery)
    | ResendBegins
    | ResendEnds(call: nat, at: Time, delivery: Delivery)
    | HistoryDeleted(historyId: HistoryId)

  // ----- Callback delivery -----

  function TruncateMessage(m: string): string {
    if |m| <= 1000 then m else m[..1000]
  }

  predicate CallbackAllowed(j: Job) {
    j.status.Completed? || j.status.Partial?
  }

  /** A stored error counts as an error only when it is a nonempty string. */
  predicate HasError(j: Job) {
    j.callbackError.Some? && j.callbackError.value != ""
  }

  predicate SendAccepted(j: Job) {
    j.callbackSentAt.None? && CallbackAllowed(j)
  }

  predicate ResendAccepted(j: Job) {
    !(j.callbackSentAt.Some? && !HasError(j)) && CallbackAllowed(j)
  }

  predicate InFlight(attempts: seq<Attempt>, call: nat) {
    call < |attempts| && attempts[call].outcome.None?
  }

  function BeginCall(s: State): State {
    s.(attempts := s.attempts + [Attempt(s.job.status, None)])
  }

  function Reported(j: Job, at: Time, delivery: Delivery): Job {
    match delivery
    case Delivered => j.(callbackSentAt := Some(at), callbackError := None)
    case Disabled => j
    case Rejected(message) => j.(callbackError := Some(TruncateMessage(message)))
  }

  function EndCall(s: State, call: nat, at: Time, delivery: Delivery): State
    requires InFlight(s.attempts, call)
  {
    s.(job := Reported(s.job, at, delivery),
       attempts := s.attempts[call := s.attempts[call].(outcome := Some(delivery))])
  }

  // ----- Finalizing -----

  function LinkedResults(snaps: Snapshots, ids: seq<HistoryId>): set<ResultId> {
    set h, r | h in ids && h in snaps && r in snaps[h] :: r
  }

  function HistoryIds(rows: seq<Row>): seq<HistoryId> {
    seq(|rows|, i requires 0 <= i < |rows| => rows[i].historyId)
  }

  function Statuses(rows: seq<Row>): seq<RowStatus> {
    seq(|rows|, i requires 0 <= i < |rows| => rows[i].status)
  }

  predicate AllTerminal(rows: seq<Row>) {
    forall r :: r in rows ==> IsTerminal(r.status)
  }

  function CountDistinct(snaps: Snapshots, ids: seq<HistoryId>): int {
    |LinkedResults(snaps, ids)|
  }

  /** The job that `finalizeJob` stores. */
  function FinalJob(job: Job, rows: seq<Row>, at: Time, snaps: Snapshots): Job {
    if rows == [] then
      if job.searchHistoryId.None? then
        job.(status := Failed, finishedAt := Some(at), errorMessage := Some("No search histories recorded"))
      else
        job.(status := Completed, progress := 100, currentSite := None, finishedAt := Some(at), errorMessage := None,
             resultCount := CountDistinct(snaps, [job.searchHistoryId.value]))
    else
      var status := ResolveJobStatus(Statuses(rows));
      job.(status := status, progress := 100, currentSite := None, finishedAt := Some(at),
           resultCount := CountDistinct(snaps, HistoryIds(rows)),
           errorMessage :=
             if status.Failed? then Some("All keyword searches failed or timed out")
             else if status.Partial? then Some("Some keyword searches failed or timed out")
             else None)
  }

  /** The final save. A completed or partial job is to be reported, after the investigation. */
  function Finalize(s: State, at: Time, snaps: Snapshots): State {
    if s.job.finishedAt.Some? && JobIsTerminal(s.job.status) then s.(phase := Stopped)
    else
      var job := FinalJob(s.job, s.rows, at, snaps);
      s.(job := job, phase := Stopped, report := if CallbackAllowed(job) then Due else NotDue)
  }

  // ----- The runner -----

  function KeywordProgress(i: nat, n: nat): int
    requires n > 0
  {
    Min(60, 10 + (i * 50) / n)
  }

  /** The row that records one keyword search; a search that still needs a crawl starts queued. */
  function RecordedRow(keyword: string, id: HistoryId, r: SearchResult, at: Time): Row {
    Row(id, keyword, if IsTerminal(r.status) || r.fromCache then r.status else RowQueued, r.resultCount, at)
  }

  function PendingItems(rows: seq<Row>): seq<ProgressItem> {
    seq(|rows|, i requires 0 <= i < |rows| =>
      ProgressItem(rows[i].status, Some(if IsTerminal(rows[i].status) then 100.0 else 10.0)))
  }

  function RunnerFailure(s: State, message: string, at: Time): State {
    s.(job := s.job.(status := Failed, errorMessage := Some(message), finishedAt := Some(at)), phase := Stopped)
  }

  function AfterSearches(s: State, mem: Job, at: Time, snaps: Snapshots): State {
    var counted := mem.(resultCount := CountDistinct(snaps, HistoryIds(s.rows)));
    if AllTerminal(s.rows) then
      Finalize(s.(job := counted), at, snaps)
    else
      s.(job := counted.(status := Running, progress := Max(counted.progress, AggregateProgress(PendingItems(s.rows)))),
         phase := Watching(at, 0))
  }

  // ----- The watcher -----

  function MarkTimeout(r: Row): Row {
    if IsTerminal(r.status) then r else r.(status := RowTimeout)
  }

  function MarkTimeouts(rows: seq<Row>): seq<Row> {
    seq(|rows|, i requires 0 <= i < |rows| => MarkTimeout(rows[i]))
  }

  /** One row of one poll: timed out by its own age, refreshed, or left as it is on an error. */
  function PolledRow(cfg: Config, r: Row, at: Time, details: map<HistoryId, Detail>): Row {
    if IsTerminal(r.status) then r
    else if at - r.createdAt >= cfg.keywordTimeoutMs then r.(status := RowTimeout)
    else if r.historyId in details then
      r.(status := details[r.historyId].status,
         resultCount := Max(r.resultCount, details[r.historyId].resultCount))
    else r
  }

  function PolledPercent(cfg: Config, r: Row, at: Time, details: map<HistoryId, Detail>): real {
    if IsTerminal(PolledRow(cfg, r, at, details).status) then 100.0
    else if r.historyId in details then 40.0
    else 20.0
  }

  function PolledRows(cfg: Config, rows: seq<Row>, at: Time, details: map<HistoryId, Detail>): seq<Row> {
    seq(|rows|, i requires 0 <= i < |rows| => PolledRow(cfg, rows[i], at, details))
  }

  function PolledItems(cfg: Config, rows: seq<Row>, at: Time, details: map<HistoryId, Detail>): seq<ProgressItem> {
    seq(|rows|, i requires 0 <= i < |rows| =>
      ProgressItem(PolledRow(cfg, rows[i], at, details).status, Some(PolledPercent(cfg, rows[i], at, details))))
  }

  function PolledState(cfg: Config, s: State, at: Time, details: map<HistoryId, Detail>, snaps: Snapshots): State {
    var rows := PolledRows(cfg, s.rows, at, details);
    s.(rows := rows, job := s.job.(
      resultCount := CountDistinct(snaps, HistoryIds(rows)),
      progress := AggregateProgress(PolledItems(cfg, s.rows, at, details)),
      currentSite := None))
  }

  /** A poll that finds every row finished leaves the final save to a step of its own. */
  function PollOnce(cfg: Config, s: State, at: Time, details: map<HistoryId, Detail>, snaps: Snapshots): State
    requires s.phase.Watching?
  {
    if JobIsTerminal(s.job.status) then s.(phase := Stopped)
    else if s.rows == [] then Finalize(s, at, snaps)
    else if at - s.phase.startedAt >= cfg.totalTimeoutMs then
      Finalize(s.(rows := MarkTimeouts(s.rows)), at, snaps)
    else
      var polled := PolledState(cfg, s, at, details, snaps);
      polled.(phase := if AllTerminal(polled.rows) then Finalizing else Watching(s.phase.startedAt, s.phase.polls + 1))
  }

  // ----- The crawl-progress subscriber -----

  function CrawledRow(r: Row, c: Crawl): Row {
    if r.historyId != c.searchId then r
    else r.(status := c.status, resultCount := if c.resultCount.Some? then c.resultCount.value else r.resultCount)
  }

  function CrawledRows(rows: seq<Row>, c: Crawl): seq<Row> {
    seq(|rows|, i requires 0 <= i < |rows| => CrawledRow(rows[i], c))
  }

  predicate Linked(rows: seq<Row>, c: Crawl) {
    exists r :: r in rows && r.historyId == c.searchId
  }

  function CrawledItems(rows: seq<Row>, c: Crawl): seq<ProgressItem> {
    seq(|rows|, i requires 0 <= i < |rows| =>
      ProgressItem(rows[i].status,
        if rows[i].historyId == c.searchId then Some(c.percent)
        else if IsTerminal(rows[i].status) then Some(100.0)
        else None))
  }

  function CrawledJobStatus(status: JobStatus, rows: seq<Row>, c: Crawl): JobStatus {
    if status.Running? || status.Queued? then
      if c.status.RowQueued? then
        if exists r :: r in rows && (r.status.RowRunning? || IsTerminal(r.status)) then Running else Queued
      else Running
    else Running
  }

  /** `legacy`: no row of any job is linked to this crawl and the lookup picked this job. */
  function RefreshJob(job: Job, rows: seq<Row>, c: Crawl, legacy: bool): Job {
    if !Linked(rows, c) && !(legacy && job.searchHistoryId == Some(c.searchId)) then job
    else if JobIsTerminal(job.status) then job
    else if rows != [] then
      job.(progress := AggregateProgress(CrawledItems(rows, c)),
           currentSite := c.currentSite,
           status := CrawledJobStatus(job.status, rows, c))
    else
      job.(progress := ClampScore(c.percent),
           currentSite := c.currentSite,
           status := if IsTerminal(c.status) then job.status else if c.status.RowQueued? then Queued else Running,
           resultCount := if c.resultCount.Some? then c.resultCount.value else job.resultCount)
  }

  function OnCrawlProgress(s: State, c: Crawl, legacy: bool): State {
    var rows := CrawledRows(s.rows, c);
    s.(rows := rows, job := RefreshJob(s.job, rows, c, legacy))
  }

  // ----- The machine -----

  /** One step; an event its actor cannot take in the current phase leaves the state unchanged. */
  function Step(cfg: Config, s: State, e: Event): State {
    match e
    case Enqueue =>
      if !s.phase.NotStarted? then s
      else
        var mem := s.job.(status := Queued, progress := 5);
        s.(job := mem, phase := Enqueued(mem))
    case StartSearching(keywords, at) =>
      if !s.phase.Enqueued? then s
      else if keywords == [] then RunnerFailure(s, "No search keywords generated", at)
      else
        var mem := s.phase.mem.(status := Running, progress := 10);
        s.(job := mem, phase := Searching(0, false, mem))
    case SaveKeyword(keywords) =>
      if !s.phase.Searching? || s.phase.saved || s.phase.next >= |keywords| then s
      else
        var mem := s.phase.mem.(progress := KeywordProgress(s.phase.next, |keywords|));
        s.(job := mem, phase := Searching(s.phase.next, true, mem))
    case KeywordSearched(keywords, r, recorded, at) =>
      if !s.phase.Searching? || !s.phase.saved || s.phase.next >= |keywords| then s
      else if r.searchId.None? then s.(phase := Searching(s.phase.next + 1, false, s.phase.mem))
      else
        var mem := s.phase.mem.(searchHistoryId := OrElse(s.phase.mem.searchHistoryId, r.searchId));
        s.(rows := if recorded then s.rows + [RecordedRow(keywords[s.phase.next], r.searchId.value, r, at)] else s.rows,
           phase := Searching(s.phase.next + 1, false, mem))
    case SearchesDone(keywords, at, snaps) =>
      if !s.phase.Searching? || s.phase.saved || s.phase.next < |keywords| then s
      else AfterSearches(s, s.phase.mem, at, snaps)
    case RunnerFailed(message, at) =>
      if s.phase.Enqueued? || s.phase.Searching? then RunnerFailure(s, message, at) else s
    case Poll(at, details, snaps) =>
      if s.phase.Watching? then PollOnce(cfg, s, at, details, snaps) else s
    case FinalizePolled(at, snaps) =>
      if s.phase.Finalizing? then Finalize(s, at, snaps) else s
    case CrawlProgress(c, legacy) => OnCrawlProgress(s, c, legacy)
    case ReportBegins =>
      if !s.report.Due? then s
      else if SendAccepted(s.job) then BeginCall(s).(report := Sending(|s.attempts|))
      else s.(report := NotDue)
    case ReportEnds(at, delivery) =>
      if s.report.Sending? && InFlight(s.attempts, s.report.call)
      then EndCall(s, s.report.call, at, delivery).(report := NotDue)
      else s
    case ResendBegins => if ResendAccepted(s.job) then BeginCall(s) else s
    case ResendEnds(call, at, delivery) =>
      if InFlight(s.attempts, call) && s.report != Sending(call) then EndCall(s, call, at, delivery) else s
    case HistoryDeleted(h) =>
      if s.job.searchHistoryId == Some(h) then s.(job := s.job.(searchHistoryId := None)) else s
  }

  function Run(cfg: Config, s: State, events: seq<Event>): State
    decreases |events|
  {
    if events == [] then s else Run(cfg, Step(cfg, s, events[0]), events[1..])
  }

  // ----- What every step keeps -----

  /** A job no actor has finished: unfinished status, no finish time, no trace of a callback. */
  predicate Unfinished(j: Job) {
    && !JobIsTerminal(j.status) && j.finishedAt.None?
    && j.callbackSentAt.None? && j.callbackError.None?
    && 0 <= j.progress <= 100
  }

  predicate Succeeded(a: Attempt) {
    a.outcome == Some(Delivered)
  }

  function DeliveredCount(attempts: seq<Attempt>): nat {
    if attempts == [] then 0
    else DeliveredCount(attempts[..|attempts| - 1]) + if Succeeded(attempts[|attempts| - 1]) then 1 else 0
  }

  predicate PhaseInv(s: State) {
    match s.phase
    case Enqueued(mem) => Unfinished(s.job) && Unfinished(mem)
    case Searching(_, _, mem) => Unfinished(s.job) && Unfinished(mem)
    case Stopped => JobIsTerminal(s.job.status) && s.job.finishedAt.Some? && 0 <= s.job.progress <= 100
    case _ => Unfinished(s.job)
  }

  /** Callbacks are for a finished, completed or partial job, and a success is recorded iff there was one. */
  predicate CallbackInv(s: State) {
    && (s.phase.Stopped? || (s.attempts == [] && s.report.NotDue?))
    && (s.attempts != [] || s.report.Due? ==> CallbackAllowed(s.job))
    && (forall a :: a in s.attempts ==> a.status == s.job.status)
    && (s.report.Sending? ==> InFlight(s.attempts, s.report.call))
    && (s.job.callbackSentAt.Some? <==> DeliveredCount(s.attempts) > 0)
    && (s.job.callbackError.Some? ==> exists a :: a in s.attempts && a.outcome.Some? && a.outcome.value.Rejected?)
  }

  predicate Inv(s: State) {
    PhaseInv(s) && CallbackInv(s)
  }

  /** A job as `create` stores it. */
  function NewJob(): Job {
    Job(Pending, 0, None, 0, None, None, None, None, None)
  }

  function Initial(): State {
    State(NewJob(), [], [], NotStarted, NotDue)
  }

  lemma DeliveredAppend(attempts: seq<Attempt>, a: Attempt)
    ensures DeliveredCount(attempts + [a]) == DeliveredCount(attempts) + if Succeeded(a) then 1 else 0
  {
    assert (attempts + [a])[..|attempts|] == attempts;
  }

  /** The end of a call adds its own success and nothing else. */
  lemma {:induction false} DeliveredUpdate(attempts: seq<Attempt>, call: nat, a: Attempt)
    requires InFlight(attempts, call)
    ensures DeliveredCount(attempts[call := a]) == DeliveredCount(attempts) + if Succeeded(a) then 1 else 0
  {
    var n := |attempts| - 1;
    if call == n {
      assert attempts[call := a][..n] == attempts[..n];
    } else {
      DeliveredUpdate(attempts[..n], call, a);
      assert attempts[call := a][..n] == attempts[..n][call := a];
    }
  }

  lemma BeginKeepsCallbackInv(s: State)
    requires CallbackInv(s) && s.phase.Stopped? && CallbackAllowed(s.job)
    ensures CallbackInv(BeginCall(s))
    ensures s.report.Due? ==> CallbackInv(BeginCall(s).(report := Sending(|s.attempts|)))
  {
    DeliveredAppend(s.attempts, Attempt(s.job.status, None));
  }

  lemma EndKeepsCallbackInv(s: State, call: nat, at: Time, delivery: Delivery)
    requires CallbackInv(s) && InFlight(s.attempts, call)
    ensures s.report != Sending(call) ==> CallbackInv(EndCall(s, call, at, delivery))
    ensures s.report == Sending(call) ==> CallbackInv(EndCall(s, call, at, delivery).(report := NotDue))
  {
    var ended := EndCall(s, call, at, delivery).attempts;
    DeliveredUpdate(s.attempts, call, s.attempts[call].(outcome := Some(delivery)));
    assert ended[call] in ended;
    forall a | a in s.attempts && a.outcome.Some? ensures a in ended {
      var i :| 0 <= i < |s.attempts| && s.attempts[i] == a;
      assert ended[i] == a;
    }
  }

  lemma FinalizeKeepsInv(s: State, at: Time, snaps: Snapshots)
    requires Unfinished(s.job) && CallbackInv(s)
    ensures Inv(Finalize(s, at, snaps))
  {
  }

  lemma AfterSearchesKeepsInv(s: State, at: Time, snaps: Snapshots)
    requires Inv(s) && s.phase.Searching?
    ensures Inv(AfterSearches(s, s.phase.mem, at, snaps))
  {
    if !AllTerminal(s.rows) {
      AggregateIsPercentage(PendingItems(s.rows));
    }
  }

  lemma PollKeepsInv(cfg: Config, s: State, at: Time, details: map<HistoryId, Detail>, snaps: Snapshots)
    requires Inv(s) && s.phase.Watching?
    ensures Inv(PollOnce(cfg, s, at, details, snaps))
  {
    AggregateIsPercentage(PolledItems(cfg, s.rows, at, details));
  }

  lemma CrawlKeepsInv(s: State, c: Crawl, legacy: bool)
    requires Inv(s)
    ensures Inv(OnCrawlProgress(s, c, legacy))
  {
    AggregateIsPercentage(CrawledItems(CrawledRows(s.rows, c), c));
  }

  lemma CallbackStepKeepsInv(cfg: Config, s: State, e: Event)
    requires Inv(s) && (e.ReportBegins? || e.ReportEnds? || e.ResendBegins? || e.ResendEnds?)
    ensures Inv(Step(cfg, s, e))
  {
    if (e.ReportBegins? && s.report.Due? && SendAccepted(s.job)) || (e.ResendBegins? && ResendAccepted(s.job)) {
      BeginKeepsCallbackInv(s);
    } else if e.ReportEnds? && s.report.Sending? {
      EndKeepsCallbackInv(s, s.report.call, e.at, e.delivery);
    } else if e.ResendEnds? && InFlight(s.attempts, e.call) {
      EndKeepsCallbackInv(s, e.call, e.at, e.delivery);
    }
  }

  lemma RunnerStepKeepsInv(cfg: Config, s: State, e: Event)
    requires Inv(s)
    requires e.Enqueue? || e.StartSearching? || e.SaveKeyword? || e.KeywordSearched? || e.RunnerFailed? || e.HistoryDeleted?
    ensures Inv(Step(cfg, s, e))
  {
  }

  lemma StepKeepsInv(cfg: Config, s: State, e: Event)
    requires Inv(s)
    ensures Inv(Step(cfg, s, e))
  {
    if e.SearchesDone? {
      if s.phase.Searching? { AfterSearchesKeepsInv(s, e.at, e.snaps); }
    } else if e.Poll? {
      if s.phase.Watching? { PollKeepsInv(cfg, s, e.at, e.details, e.snaps); }
    } else if e.FinalizePolled? {
      if s.phase.Finalizing? { FinalizeKeepsInv(s, e.at, e.snaps); }
    } else if e.CrawlProgress? {
      CrawlKeepsInv(s, e.crawl, e.legacy);
    } else if e.ReportBegins? || e.ReportEnds? || e.ResendBegins? || e.ResendEnds? {
      CallbackStepKeepsInv(cfg, s, e);
    } else {
      RunnerStepKeepsInv(cfg, s, e);
    }
  }

  lemma {:induction false} RunKeepsInv(cfg: Config, s: State, events: seq<Event>)
    requires Inv(s)
    ensures Inv(Run(cfg, s, events))
    decreases |events|
  {
    if events == [] {
    } else {
      StepKeepsInv(cfg, s, events[0]);
      RunKeepsInv(cfg, Step(cfg, s, events[0]), events[1..]);
    }
  }
}
