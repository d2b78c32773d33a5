/**
 * What automatic case creation does with each result of a search, result by result and counted
 * over a whole run (investigation.service.ts), in terms of the decision about the result and the
 * live case it has; and what a manual request is answered and creates.
 */
module CaseRounds {
  import opened Common
  import opened Text
  import opened CaseWorkflow
  import opened CaseLog
  import opened CaseTable
  import SP = ScorePipeline
  import RuleEngine

  // ----- What a case shows of a result -----

  /** `x` is `v` held within 0..1. */
  predicate IsHeld(x: real, v: real) {
    0.0 <= x <= 1.0 && (x < v ==> x == 1.0) && (x > v ==> x == 0.0)
  }

  /** The engine's score or else the matching score, as a fraction; without both the better similarity. */
  predicate IsScoreOf(x: real, r: SP.ResultScores) {
    IsHeld(x,
      if SP.Usable(r.ai) then r.ai.value.value / 100.0
      else if SP.Usable(r.matching) then r.matching.value.value / 100.0
      else MaxReal(SP.ValueOrZero(r.title), SP.ValueOrZero(r.image)))
  }

  lemma ScoreIs(r: SP.ResultScores)
    ensures IsScoreOf(SP.ComputeAiScore(r), r)
  {
  }

  predicate IsPriorityOf(p: Priority, score: real) {
    (p.High? <==> score >= 0.8) && (p.Medium? <==> 0.6 <= score < 0.8) && (p.Low? <==> score < 0.6)
  }

  /** The result carries something of the AI engine: a usable score, a reason, or item scores. */
  predicate FromEngine(r: Result) {
    || (r.scores.ai.Some? && r.scores.ai.value.Finite?)
    || (r.scores.matching.Some? && r.scores.matching.value.Finite?)
    || (r.reason.Some? && r.reason.value != "")
    || r.hasItemScores
  }

  predicate Mirrors(d: Case, r: Result, history: string, watch: bool) {
    && IsScoreOf(d.aiScore, r.scores) && IsPriorityOf(d.priority, d.aiScore)
    && d.listing.title == r.listing.title && d.listing.site == r.listing.site && d.listing.url == r.listing.url
    && (r.listing.image.Some? ==> d.listing.image == r.listing.image)
    && (r.listing.price.Some? ==> d.listing.price == r.listing.price)
    && d.historyId == history && d.watchlisted == watch
  }

  predicate HasOrder(job: Option<Job>) {
    job.Some? && job.value.orderNo.Some? && Trim(job.value.orderNo.value) != ""
  }

  /** Job and order of the run replace the case's, which stay where the run has none; a blank order goes. */
  predicate Relinked(c: Case, d: Case, job: Option<Job>) {
    && d.jobId == (if job.Some? then Some(job.value.id) else c.jobId)
    && (HasOrder(job) ==> d.orderNo == Some(Trim(job.value.orderNo.value)))
    && (!HasOrder(job) ==> d.orderNo == if c.orderNo == Some("") then None else c.orderNo)
  }

  /** The entries behind `from`: the first one, the warnings in order, and the order if it is new. */
  predicate LogsRefresh(c: Case, d: Case, warnings: seq<RuleEngine.Rule>, job: Option<Job>, now: int) {
    var n := |c.timeline|;
    var mapped := d.orderNo.Some? && d.orderNo != c.orderNo;
    && |d.timeline| == n + 1 + |warnings| + Bit(mapped) && d.timeline[..n] == c.timeline
    && d.timeline[n].at == now && d.timeline[n].fact.ScoreUpdated? && d.timeline[n].fact.watch == d.watchlisted
    && IsNearest(d.timeline[n].fact.newScore, 100.0 * d.aiScore) && IsNearest(d.timeline[n].fact.oldScore, 100.0 * c.aiScore)
    && (forall k | 0 <= k < |warnings| :: d.timeline[n + 1 + k] == Event(now, RuleWarning(warnings[k])))
    && (mapped ==>
          d.timeline[|d.timeline| - 1] == Event(now, OrderMapped(d.orderNo.value, if job.Some? then Some(job.value.id) else None)))
  }

  /** An open case after a refresh from the result: what the result lacks stays, and nothing else changes. */
  predicate RefreshedTo(c: Case, d: Case, env: Env, item: Item, watch: bool, warnings: seq<RuleEngine.Rule>) {
    && d == c.(listing := d.listing, aiScore := d.aiScore, priority := d.priority, historyId := d.historyId, jobId := d.jobId,
               orderNo := d.orderNo, watchlisted := d.watchlisted, timeline := d.timeline)
    && Mirrors(d, item.result, env.history.id, watch)
    && (item.result.listing.image.None? ==> d.listing.image == c.listing.image)
    && (item.result.listing.price.None? ==> d.listing.price == c.listing.price)
    && Relinked(c, d, env.job) && LogsRefresh(c, d, warnings, env.job, item.now)
  }

  lemma {:induction false} WarningAt(warnings: seq<RuleEngine.Rule>, now: int)
    ensures |WarningEvents(warnings, now)| == |warnings|
    ensures forall k | 0 <= k < |warnings| :: WarningEvents(warnings, now)[k] == Event(now, RuleWarning(warnings[k]))
  {
    if warnings == [] {
    } else {
      WarningAt(warnings[1..], now);
    }
  }

  lemma RefreshIsExact(c: Case, env: Env, item: Item, watch: bool, warnings: seq<RuleEngine.Rule>)
    ensures RefreshedTo(c, ScoreRefreshed(c, item.result, env.history.id, env.job, warnings, watch, item.now), env, item, watch, warnings)
  {
    var d := ScoreRefreshed(c, item.result, env.history.id, env.job, warnings, watch, item.now);
    ScoreIs(item.result.scores);
    RefreshLogs(c, env, item, watch, warnings);
    assert Relinked(c, d, env.job);
  }

  lemma RefreshLogs(c: Case, env: Env, item: Item, watch: bool, warnings: seq<RuleEngine.Rule>)
    ensures LogsRefresh(c, ScoreRefreshed(c, item.result, env.history.id, env.job, warnings, watch, item.now), warnings, env.job, item.now)
  {
    WarningAt(warnings, item.now);
    RoundIsNearest(SP.ComputeAiScore(item.result.scores) * 100.0);
    RoundIsNearest(c.aiScore * 100.0);
  }

  /** One recommendation more, with the score the result has without its similarities. */
  predicate ExclusionRecorded(c: Case, d: Case, env: Env, item: Item, matched: seq<RuleEngine.Rule>) {
    var n := |c.timeline|;
    var scores := item.result.scores;
    && d == c.(jobId := d.jobId, orderNo := d.orderNo, timeline := d.timeline) && Relinked(c, d, env.job)
    && |d.timeline| == n + 1 && d.timeline[..n] == c.timeline
    && d.timeline[n].at == item.now && d.timeline[n].fact.ExcludeRecommended? && d.timeline[n].fact.rules == matched
    && IsPercent(d.timeline[n].fact.excludeScore,
         if SP.Usable(scores.ai) then scores.ai.value.value
         else if SP.Usable(scores.matching) then scores.matching.value.value else 0.0)
  }

  lemma ExclusionIsExact(c: Case, env: Env, item: Item, matched: seq<RuleEngine.Rule>)
    ensures ExclusionRecorded(c, ExcludeRecorded(c, item.result, matched, env.job, item.now), env, item, matched)
  {
    SP.ScorePercentIsExact(SP.ResultScores(item.result.scores.ai, item.result.scores.matching, None, None));
  }

  /** A new case: open, unassigned, showing the result, with the run's job and order. */
  predicate CreatedFrom(d: Case, env: Env, item: Item, watch: bool, warnings: seq<RuleEngine.Rule>) {
    && d.resultId == item.result.id && d.caseNo.day == item.day && d.listing == item.result.listing
    && Mirrors(d, item.result, env.history.id, watch)
    && d.status.Open? && d.autoCreated && d.assignee.None? && d.notes == [] && d.dueDate.None? && !d.deleted
    && d.finalDecision.None? && d.finalDecisionNote.None? && d.decidedAt.None?
    && d.jobId == (if env.job.Some? then Some(env.job.value.id) else None)
    && (HasOrder(env.job) ==> d.orderNo == Some(Trim(env.job.value.orderNo.value))) && (!HasOrder(env.job) ==> d.orderNo.None?)
    && LogsCreation(d, env, item, watch, warnings)
  }

  /** The search five minutes before, the score one minute before, the creation; then warnings, order and analysis. */
  predicate LogsCreation(d: Case, env: Env, item: Item, watch: bool, warnings: seq<RuleEngine.Rule>) {
    var t := d.timeline;
    && |t| >= 3 + |warnings| + Bit(d.orderNo.Some?)
    && t[0] == Event(item.now - 300000, SearchRun(if env.history.keyword == Some("") then None else env.history.keyword))
    && t[1].at == item.now - 60000 && t[1].fact.AiAnalysis? && t[1].fact.reason == item.result.reason
    && IsNearest(t[1].fact.score, 100.0 * d.aiScore)
    && t[2] == Event(item.now, Created(true, watch))
    && (forall k | 0 <= k < |warnings| :: t[3 + k] == Event(item.now, RuleWarning(warnings[k])))
    && (d.orderNo.Some? ==> t[3 + |warnings|] == Event(item.now, OrderMapped(d.orderNo.value, d.jobId)))
    && LogsAnalysis(t[3 + |warnings| + Bit(d.orderNo.Some?)..], item)
  }

  /** Summary, reasons and recommendation of the analysis, as far as it gave any. */
  predicate LogsAnalysis(t: seq<Event>, item: Item) {
    if item.analysis.None? then t == []
    else
      var a := item.analysis.value;
      && |t| == 1 + Bit(a.reasons != []) + Bit(a.recommendation.Some?)
      && t[0] == Event(item.now, Summary(a.summary))
      && (a.reasons != [] ==> t[1] == Event(item.now, Reasons(a.reasons)))
      && (a.recommendation.Some? ==> t[|t| - 1] == Event(item.now, Recommendation(a.recommendation.value)))
  }

  lemma OpeningIsExact(r: Result, env: Env, item: Item, watch: bool, warnings: seq<RuleEngine.Rule>, order: Option<string>)
    ensures var t := OpeningEvents(r, env.history, env.job, true, warnings, order, watch, item.analysis, item.now);
      && |t| >= 3 + |warnings| + Bit(order.Some?)
      && t[..3] == [Event(item.now - 300000, SearchRun(if env.history.keyword == Some("") then None else env.history.keyword)),
                    Event(item.now - 60000, AiAnalysis(Percent(SP.ComputeAiScore(r.scores)), r.reason)),
                    Event(item.now, Created(true, watch))]
      && (forall k | 0 <= k < |warnings| :: t[3 + k] == Event(item.now, RuleWarning(warnings[k])))
      && (order.Some? ==> t[3 + |warnings|] == Event(item.now, OrderMapped(order.value, JobId(env.job))))
      && LogsAnalysis(t[3 + |warnings| + Bit(order.Some?)..], item)
  {
    WarningAt(warnings, item.now);
    var t := OpeningEvents(r, env.history, env.job, true, warnings, order, watch, item.analysis, item.now);
    var mapped := MappedEvents(order, env.job, item.now);
    var rest := AnalysisEvents(item.analysis, item.now);
    assert |mapped| == Bit(order.Some?);
    assert t[3 + |warnings| + Bit(order.Some?)..] == rest;
  }

  lemma CreationLogs(cases: seq<Case>, env: Env, item: Item, watch: bool, warnings: seq<RuleEngine.Rule>)
    ensures LogsCreation(FreshCase(cases, cases, item.result, CreationOf(env, item, watch, warnings)), env, item, watch, warnings)
  {
    var d := FreshCase(cases, cases, item.result, CreationOf(env, item, watch, warnings));
    OpeningIsExact(item.result, env, item, watch, warnings, d.orderNo);
    RoundIsNearest(d.aiScore * 100.0);
    assert d.timeline[0] == d.timeline[..3][0] && d.timeline[1] == d.timeline[..3][1] && d.timeline[2] == d.timeline[..3][2];
  }

  lemma CreationIsExact(cases: seq<Case>, env: Env, item: Item, watch: bool, warnings: seq<RuleEngine.Rule>)
    ensures CreatedFrom(FreshCase(cases, cases, item.result, CreationOf(env, item, watch, warnings)), env, item, watch, warnings)
  {
    ScoreIs(item.result.scores);
    CreationLogs(cases, env, item, watch, warnings);
  }

  // ----- One round -----

  /** Row `i` is a case of the listing that was not deleted. */
  predicate Live(cases: seq<Case>, resultId: string, i: int) {
    0 <= i < |cases| && !cases[i].deleted && cases[i].resultId == resultId
  }

  ghost predicate HasLive(cases: seq<Case>, resultId: string) {
    exists i :: Live(cases, resultId, i)
  }

  ghost predicate HasOpen(cases: seq<Case>, resultId: string) {
    exists i :: Live(cases, resultId, i) && cases[i].status.Open?
  }

  /** What one round does with a result. */
  datatype Fate = Makes | Updates | Skips

  /** A result the rules open makes a case if it has none, updates an open one from the engine, and is skipped otherwise. */
  ghost function FateOf(env: Env, cases: seq<Case>, item: Item): Fate {
    if !Decision(env, item).Opened? then Skips
    else if !HasLive(cases, item.result.id) then Makes
    else if FromEngine(item.result) && HasOpen(cases, item.result.id) then Updates
    else Skips
  }

  predicate CountsMove(t: Tally, u: Tally, env: Env, item: Item, fate: Fate) {
    var d := Decision(env, item);
    && u.skipped == t.skipped + Bit(fate.Skips?)
    && u.excluded == t.excluded + Bit(d.Excluded?)
    && u.warned == t.warned + Bit(!d.Excluded? && d.warnings != [])
    && u.watchlisted == t.watchlisted + Bit(!fate.Skips? && d.Opened? && d.watchlisted)
    && (if fate.Makes? then |u.created| == |t.created| + 1 && u.created[..|t.created|] == t.created else u.created == t.created)
    && (if fate.Updates? then |u.updated| == |t.updated| + 1 && u.updated[..|t.updated|] == t.updated else u.updated == t.updated)
  }

  /** No row but `i` changes, and none is added. */
  predicate RowTurns(before: seq<Case>, after: seq<Case>, i: int) {
    |after| == |before| && 0 <= i < |before| && forall j | 0 <= j < |before| && j != i :: after[j] == before[j]
  }

  ghost predicate RowsMove(desk: Desk, end: Desk, env: Env, item: Item, fate: Fate) {
    var d := Decision(env, item);
    && (fate.Makes? && d.Opened? ==>
          && |end.cases| == |desk.cases| + 1 && end.cases[..|desk.cases|] == desk.cases && end.tally.created != []
          && end.tally.created[|end.tally.created| - 1] == end.cases[|desk.cases|]
          && CreatedFrom(end.cases[|desk.cases|], env, item, d.watchlisted, d.warnings))
    && (fate.Updates? && d.Opened? ==> forall i | Live(desk.cases, item.result.id, i) ::
          && RowTurns(desk.cases, end.cases, i) && end.tally.updated != []
          && end.tally.updated[|end.tally.updated| - 1] == end.cases[i]
          && RefreshedTo(desk.cases[i], end.cases[i], env, item, d.watchlisted, d.warnings))
    && (d.Excluded? && FromEngine(item.result) ==> forall i | Live(desk.cases, item.result.id, i) ::
          && RowTurns(desk.cases, end.cases, i)
          && ExclusionRecorded(desk.cases[i], end.cases[i], env, item, d.matched))
    && (fate.Skips? && !(d.Excluded? && FromEngine(item.result) && HasLive(desk.cases, item.result.id)) ==> end.cases == desk.cases)
  }

  ghost predicate RoundOf(env: Env, desk: Desk, item: Item, end: Desk) {
    var fate := FateOf(env, desk.cases, item);
    CountsMove(desk.tally, end.tally, env, item, fate) && RowsMove(desk, end, env, item, fate)
  }

  /** The live case of a listing is the one the lookup finds. */
  lemma LiveIsFound(cases: seq<Case>, resultId: string)
    requires ResultsDistinct(cases)
    ensures HasLive(cases, resultId) <==> FindResult(cases, resultId) < |cases|
    ensures forall i | Live(cases, resultId, i) :: i == FindResult(cases, resultId)
  {
    var f := FindResult(cases, resultId);
    if f < |cases| {
      assert Live(cases, resultId, f);
    }
    forall i | Live(cases, resultId, i) ensures i == f {
      assert Matches(cases[i], resultId);
    }
  }

  lemma FateIs(env: Env, cases: seq<Case>, item: Item)
    requires ResultsDistinct(cases)
    ensures var i := FindResult(cases, item.result.id); var fate := FateOf(env, cases, item);
      && (fate.Makes? <==> Decision(env, item).Opened? && i == |cases|)
      && (fate.Updates? <==> Decision(env, item).Opened? && i < |cases| && IsAiResult(item.result) && cases[i].status.Open?)
  {
    LiveIsFound(cases, item.result.id);
  }

  lemma SkippedRound(env: Env, desk: Desk, item: Item)
    requires ResultsDistinct(desk.cases) && !Decision(env, item).Opened?
    ensures RoundOf(env, desk, item, AutoStep(env, desk, item).value)
  {
    LiveIsFound(desk.cases, item.result.id);
    var d := Decision(env, item);
    var i := FindResult(desk.cases, item.result.id);
    if d.Excluded? && i < |desk.cases| {
      ExclusionIsExact(desk.cases[i], env, item, d.matched);
    }
  }

  lemma OpenedRound(env: Env, desk: Desk, item: Item)
    requires ResultsDistinct(desk.cases) && Decision(env, item).Opened? && AutoStep(env, desk, item).Some?
    ensures RoundOf(env, desk, item, AutoStep(env, desk, item).value)
  {
    LiveIsFound(desk.cases, item.result.id);
    FateIs(env, desk.cases, item);
    var d := Decision(env, item);
    var i := FindResult(desk.cases, item.result.id);
    if i == |desk.cases| {
      CreationIsExact(desk.cases, env, item, d.watchlisted, d.warnings);
    } else {
      RefreshIsExact(desk.cases[i], env, item, d.watchlisted, d.warnings);
    }
  }

  /**
   * One round, exactly: which counters move and by how much, which row is added or changes and
   * what it holds afterwards; all other rows stay. A round fails only in an insert.
   */
  lemma RoundIsExact(env: Env, desk: Desk, item: Item)
    requires TableInv(desk.cases)
    ensures AutoStep(env, desk, item).None? ==> FateOf(env, desk.cases, item).Makes?
    ensures AutoStep(env, desk, item).Some? ==> RoundOf(env, desk, item, AutoStep(env, desk, item).value)
  {
    FateIs(env, desk.cases, item);
    if !Decision(env, item).Opened? {
      SkippedRound(env, desk, item);
    } else if AutoStep(env, desk, item).Some? {
      OpenedRound(env, desk, item);
    }
  }

  // ----- Whole runs -----

  ghost predicate RoundAt(env: Env, desks: seq<Desk>, items: seq<Item>, k: nat) {
    k + 1 < |desks| && k < |items| && RoundOf(env, desks[k], items[k], desks[k + 1])
  }

  /** The desks of a run, round after round: all of its items, or up to the insert that threw. */
  ghost predicate Chain(env: Env, desks: seq<Desk>, items: seq<Item>, failed: bool) {
    && 0 < |desks| <= |items| + 1
    && (forall k: nat | k + 1 < |desks| :: RoundAt(env, desks, items, k))
    && (if failed then |desks| <= |items| && FateOf(env, desks[|desks| - 1].cases, items[|desks| - 1]).Makes?
        else |desks| == |items| + 1)
  }

  /** From one desk to another in rounds, each of them exact. */
  ghost predicate InRounds(env: Env, start: Desk, items: seq<Item>, end: Desk, failed: bool) {
    exists desks :: Chain(env, desks, items, failed) && desks[0] == start && desks[|desks| - 1] == end
  }

  lemma ChainCons(env: Env, desk: Desk, rest: seq<Desk>, items: seq<Item>, failed: bool)
    requires items != [] && Chain(env, rest, items[1..], failed) && RoundOf(env, desk, items[0], rest[0])
    ensures Chain(env, [desk] + rest, items, failed)
  {
    var desks := [desk] + rest;
    forall k: nat | k + 1 < |desks| ensures RoundAt(env, desks, items, k) {
      if k > 0 {
        assert RoundAt(env, rest, items[1..], k - 1);
      }
    }
  }

  /** Every table of the chain is in order. */
  predicate InOrder(desks: seq<Desk>) {
    forall k | 0 <= k < |desks| :: TableInv(desks[k].cases)
  }

  lemma ChainOne(env: Env, desk: Desk, items: seq<Item>)
    requires TableInv(desk.cases)
    requires items != [] ==> FateOf(env, desk.cases, items[0]).Makes?
    ensures Chain(env, [desk], items, items != []) && InOrder([desk])
  {
  }

  lemma InOrderCons(desk: Desk, rest: seq<Desk>)
    requires TableInv(desk.cases) && InOrder(rest)
    ensures InOrder([desk] + rest)
  {
  }

  lemma {:induction false} RunIsChain(env: Env, desk: Desk, items: seq<Item>) returns (desks: seq<Desk>)
    requires TableInv(desk.cases)
    ensures var run := AutoRun(env, desk, items);
      && Chain(env, desks, items, run.failed) && desks[0] == desk && desks[|desks| - 1] == run.desk
    ensures InOrder(desks)
    decreases |items|
  {
    if items == [] || AutoStep(env, desk, items[0]).None? {
      if items != [] {
        RoundIsExact(env, desk, items[0]);
      }
      desks := [desk];
      ChainOne(env, desk, items);
    } else {
      var next := AutoStep(env, desk, items[0]).value;
      RoundIsExact(env, desk, items[0]);
      StepKeepsInv(env, desk, items[0]);
      var rest := RunIsChain(env, next, items[1..]);
      ChainCons(env, desk, rest, items, AutoRun(env, desk, items).failed);
      InOrderCons(desk, rest);
      desks := [desk] + rest;
    }
  }

  /** Some result before the n-th that the rules open is for this listing. */
  ghost predicate Asked(env: Env, items: seq<Item>, n: int, resultId: string) {
    exists j :: 0 <= j < n && j < |items| && Wanted(env, items[j]) && items[j].result.id == resultId
  }

  /** The listing's live cases at a moment of the run: those from before, and one for each listing asked for without one. */
  ghost predicate LivesAt(env: Env, cases: seq<Case>, items: seq<Item>, n: int, now: seq<Case>, resultId: string) {
    && (HasLive(now, resultId) <==> HasLive(cases, resultId) || Asked(env, items, n, resultId))
    && (HasOpen(now, resultId) <==> HasOpen(cases, resultId) || (!HasLive(cases, resultId) && Asked(env, items, n, resultId)))
  }

  /** Rows keep who they are for, whether they live, and their status. */
  predicate RowsStay(before: seq<Case>, after: seq<Case>) {
    |before| <= |after| && forall i | 0 <= i < |before| ::
      after[i].resultId == before[i].resultId && after[i].deleted == before[i].deleted && after[i].status == before[i].status
  }

  lemma RoundKeepsRows(env: Env, desk: Desk, item: Item, end: Desk)
    requires RoundOf(env, desk, item, end)
    ensures RowsStay(desk.cases, end.cases)
    ensures |end.cases| == |desk.cases| + Bit(FateOf(env, desk.cases, item).Makes?)
    ensures FateOf(env, desk.cases, item).Makes? ==>
      var made := end.cases[|desk.cases|];
      made.resultId == item.result.id && !made.deleted && made.status.Open?
  {
    var fate := FateOf(env, desk.cases, item);
    if fate.Makes? {
      assert forall i | 0 <= i < |desk.cases| :: end.cases[..|desk.cases|][i] == end.cases[i];
    } else if HasLive(desk.cases, item.result.id) {
      var i :| Live(desk.cases, item.result.id, i);
      assert end.cases != desk.cases ==> RowTurns(desk.cases, end.cases, i);
    }
  }

  lemma RoundMovesLives(env: Env, desk: Desk, item: Item, end: Desk, resultId: string)
    requires RoundOf(env, desk, item, end)
    ensures var made := FateOf(env, desk.cases, item).Makes? && item.result.id == resultId;
      && (HasLive(end.cases, resultId) <==> HasLive(desk.cases, resultId) || made)
      && (HasOpen(end.cases, resultId) <==> HasOpen(desk.cases, resultId) || made)
  {
    RoundKeepsRows(env, desk, item, end);
    forall i | 0 <= i < |desk.cases|
      ensures Live(end.cases, resultId, i) <==> Live(desk.cases, resultId, i)
    {}
    if FateOf(env, desk.cases, item).Makes? {
      assert Live(end.cases, item.result.id, |desk.cases|);
    }
  }

  lemma AskedNext(env: Env, items: seq<Item>, n: nat, resultId: string)
    requires n < |items|
    ensures Asked(env, items, n + 1, resultId) <==>
      Asked(env, items, n, resultId) || (Wanted(env, items[n]) && items[n].result.id == resultId)
  {
  }

  lemma {:induction false} LivesOfChain(env: Env, desks: seq<Desk>, items: seq<Item>, failed: bool, n: nat, resultId: string)
    requires Chain(env, desks, items, failed) && n < |desks|
    ensures LivesAt(env, desks[0].cases, items, n, desks[n].cases, resultId)
    decreases n
  {
    if n == 0 {
    } else {
      assert RoundAt(env, desks, items, n - 1);
      LivesOfChain(env, desks, items, failed, n - 1, resultId);
      RoundMovesLives(env, desks[n - 1], items[n - 1], desks[n], resultId);
      AskedNext(env, items, n - 1, resultId);
    }
  }

  // ----- The counters of a run, from its inputs alone -----

  /** The k-th result makes a case: the rules open it, and the listing has none yet, from before or from this run. */
  ghost predicate MakesAt(env: Env, cases: seq<Case>, items: seq<Item>, k: int) {
    && 0 <= k < |items| && Wanted(env, items[k])
    && !HasLive(cases, items[k].result.id) && !Asked(env, items, k, items[k].result.id)
  }

  /** It updates a case: the rules open it, it is from the engine, and the case is open, or new in this run. */
  ghost predicate UpdatesAt(env: Env, cases: seq<Case>, items: seq<Item>, k: int) {
    && 0 <= k < |items| && Wanted(env, items[k]) && FromEngine(items[k].result)
    && (HasOpen(cases, items[k].result.id)
        || (!HasLive(cases, items[k].result.id) && Asked(env, items, k, items[k].result.id)))
  }

  lemma FateOfChain(env: Env, desks: seq<Desk>, items: seq<Item>, failed: bool, k: nat)
    requires Chain(env, desks, items, failed) && k < |desks| && k < |items|
    ensures FateOf(env, desks[k].cases, items[k]).Makes? <==> MakesAt(env, desks[0].cases, items, k)
    ensures FateOf(env, desks[k].cases, items[k]).Updates? <==> UpdatesAt(env, desks[0].cases, items, k)
  {
    LivesOfChain(env, desks, items, failed, k, items[k].result.id);
  }

  ghost predicate WatchesAt(env: Env, cases: seq<Case>, items: seq<Item>, k: int) {
    && (MakesAt(env, cases, items, k) || UpdatesAt(env, cases, items, k))
    && Decision(env, items[k]).watchlisted
  }

  predicate ExcludesAt(env: Env, items: seq<Item>, k: int) {
    0 <= k < |items| && Decision(env, items[k]).Excluded?
  }

  predicate WarnsAt(env: Env, items: seq<Item>, k: int) {
    0 <= k < |items| && !Decision(env, items[k]).Excluded? && Decision(env, items[k]).warnings != []
  }

  /** How many of the first `n` positions satisfy `p`. */
  ghost function Number(n: nat, p: int -> bool): nat {
    if n == 0 then 0 else Number(n - 1, p) + Bit(p(n - 1))
  }

  /** The counters after the first `n` results. */
  ghost predicate Counts(t: Tally, env: Env, cases: seq<Case>, items: seq<Item>, n: nat) {
    && |t.created| == Number(n, k => MakesAt(env, cases, items, k))
    && |t.updated| == Number(n, k => UpdatesAt(env, cases, items, k))
    && t.skipped == n - |t.created| - |t.updated|
    && t.excluded == Number(n, k => ExcludesAt(env, items, k))
    && t.warned == Number(n, k => WarnsAt(env, items, k))
    && t.watchlisted == Number(n, k => WatchesAt(env, cases, items, k))
  }

  lemma RoundCounts(env: Env, desks: seq<Desk>, items: seq<Item>, failed: bool, n: nat)
    requires Chain(env, desks, items, failed) && n + 1 < |desks|
    requires Counts(desks[n].tally, env, desks[0].cases, items, n)
    ensures Counts(desks[n + 1].tally, env, desks[0].cases, items, n + 1)
  {
    assert RoundAt(env, desks, items, n);
    FateOfChain(env, desks, items, failed, n);
  }

  lemma {:induction false} ChainCounts(env: Env, desks: seq<Desk>, items: seq<Item>, failed: bool, n: nat)
    requires Chain(env, desks, items, failed) && n < |desks| && desks[0].tally == EMPTY_TALLY
    ensures Counts(desks[n].tally, env, desks[0].cases, items, n)
    decreases n
  {
    if n == 0 {
    } else {
      ChainCounts(env, desks, items, failed, n - 1);
      RoundCounts(env, desks, items, failed, n - 1);
    }
  }

  /**
   * The counters of a whole run in terms of the table before it and the results alone: which
   * results create, which refresh, which the rules exclude, warn about or put on the watchlist.
   */
  lemma TallyIsExact(env: Env, cases: seq<Case>, items: seq<Item>)
    requires TableInv(cases) && !AutoRun(env, Desk(cases, EMPTY_TALLY), items).failed
    ensures Counts(AutoRun(env, Desk(cases, EMPTY_TALLY), items).desk.tally, env, cases, items, |items|)
  {
    var desks := RunIsChain(env, Desk(cases, EMPTY_TALLY), items);
    ChainCounts(env, desks, items, false, |desks| - 1);
  }

  // ----- The last result opened for a listing decides -----

  /** The k-th result makes or updates a case. */
  ghost predicate ServesAt(env: Env, cases: seq<Case>, items: seq<Item>, k: int) {
    MakesAt(env, cases, items, k) || UpdatesAt(env, cases, items, k)
  }

  /** And none before the n-th serves the same listing after it. */
  ghost predicate ServesLast(env: Env, cases: seq<Case>, items: seq<Item>, k: int, n: int) {
    && ServesAt(env, cases, items, k)
    && forall j | k < j < n && ServesAt(env, cases, items, j) :: items[j].result.id != items[k].result.id
  }

  /** The listing has a live case, and it shows the result. */
  ghost predicate Shown(env: Env, now: seq<Case>, item: Item) {
    Decision(env, item).Opened? && HasLive(now, item.result.id) && forall i | Live(now, item.result.id, i) ::
      Mirrors(now[i], item.result, env.history.id, Decision(env, item).watchlisted)
  }

  lemma RoundShows(env: Env, desk: Desk, item: Item, end: Desk)
    requires RoundOf(env, desk, item, end) && TableInv(end.cases) && !FateOf(env, desk.cases, item).Skips?
    ensures Shown(env, end.cases, item)
  {
    RoundKeepsRows(env, desk, item, end);
    RoundMovesLives(env, desk, item, end, item.result.id);
    forall i | Live(end.cases, item.result.id, i)
      ensures Mirrors(end.cases[i], item.result, env.history.id, Decision(env, item).watchlisted)
    {
      if FateOf(env, desk.cases, item).Makes? {
        assert Live(end.cases, item.result.id, |desk.cases|);
      } else {
        assert Live(desk.cases, item.result.id, i);
      }
    }
  }

  lemma RoundKeepsShown(env: Env, desk: Desk, item: Item, end: Desk, shown: Item)
    requires RoundOf(env, desk, item, end) && Shown(env, desk.cases, shown)
    requires FateOf(env, desk.cases, item).Skips? || item.result.id != shown.result.id
    ensures Shown(env, end.cases, shown)
  {
    RoundKeepsRows(env, desk, item, end);
    RoundMovesLives(env, desk, item, end, shown.result.id);
    forall i | Live(end.cases, shown.result.id, i)
      ensures Mirrors(end.cases[i], shown.result, env.history.id, Decision(env, shown).watchlisted)
    {
      RowShows(env, desk, item, end, shown, i);
    }
  }

  lemma RowShows(env: Env, desk: Desk, item: Item, end: Desk, shown: Item, i: int)
    requires RoundOf(env, desk, item, end) && Shown(env, desk.cases, shown)
    requires FateOf(env, desk.cases, item).Skips? || item.result.id != shown.result.id
    requires Live(end.cases, shown.result.id, i)
    ensures Mirrors(end.cases[i], shown.result, env.history.id, Decision(env, shown).watchlisted)
  {
    RoundKeepsRows(env, desk, item, end);
    if i < |desk.cases| {
      assert Live(desk.cases, shown.result.id, i);
      if FateOf(env, desk.cases, item).Makes? {
        assert end.cases[..|desk.cases|][i] == end.cases[i];
      } else if HasLive(desk.cases, item.result.id) {
        var j :| Live(desk.cases, item.result.id, j);
        if FateOf(env, desk.cases, item).Skips? {
          assert end.cases[i] == desk.cases[i] || ExclusionRecorded(desk.cases[i], end.cases[i], env, item, Decision(env, item).matched);
        } else {
          assert RowTurns(desk.cases, end.cases, j) && i != j;
        }
      }
    }
  }

  lemma {:induction false} ChainShows(env: Env, desks: seq<Desk>, items: seq<Item>, failed: bool, k: nat, n: nat)
    requires Chain(env, desks, items, failed) && InOrder(desks)
    requires k < n < |desks| && ServesLast(env, desks[0].cases, items, k, n)
    ensures Shown(env, desks[n].cases, items[k])
    decreases n
  {
    assert RoundAt(env, desks, items, n - 1);
    FateOfChain(env, desks, items, failed, n - 1);
    if n == k + 1 {
      RoundShows(env, desks[k], items[k], desks[n]);
    } else {
      ChainShows(env, desks, items, failed, k, n - 1);
      RoundKeepsShown(env, desks[n - 1], items[n - 1], desks[n], items[k]);
    }
  }

  /**
   * After a run the live case of a listing shows the last result that made or updated it: its
   * score, priority, listing, search and watchlist flag, whatever the run did after that.
   */
  lemma LastServedIsShown(env: Env, cases: seq<Case>, items: seq<Item>, k: nat)
    requires TableInv(cases) && !AutoRun(env, Desk(cases, EMPTY_TALLY), items).failed
    requires ServesLast(env, cases, items, k, |items|)
    ensures Shown(env, AutoRun(env, Desk(cases, EMPTY_TALLY), items).desk.cases, items[k])
  {
    var desks := RunIsChain(env, Desk(cases, EMPTY_TALLY), items);
    ChainShows(env, desks, items, false, k, |desks| - 1);
  }

  // ----- Manual requests -----

  /** The order of a manual case: the job's, or else the one asked for, unless both are blank. */
  predicate IsManualOrder(order: Option<string>, job: Option<Job>, asked: Option<string>) {
    if HasOrder(job) then order == Some(Trim(job.value.orderNo.value))
    else if asked.Some? && Trim(asked.value) != "" then order == Some(Trim(asked.value))
    else order.None?
  }

  /** A request is answered by the first of these that applies; only the last adds a row, the case it returns. */
  lemma ManualAnswerIsExact(cases: seq<Case>, m: ManualInput)
    requires ResultsDistinct(cases)
    ensures var a := ManualAnswerTo(cases, m); var found := HasLive(cases, m.resultId);
      && (a.ExistingCase? <==> found)
      && (forall i | Live(cases, m.resultId, i) :: a == ExistingCase(cases[i]))
      && (a.ResultNotFound? <==> !found && m.listing.None?)
      && (a.HistoryRequired? <==> !found && m.listing.Some? && m.historyId.None?)
      && (a.HistoryNotFound? <==> !found && m.listing.Some? && m.historyId.Some? && m.history.None?)
      && (a.JobNotFound? <==>
            !found && m.listing.Some? && m.historyId.Some? && m.history.Some? && m.jobRequested && m.job.None?)
      && AfterManual(cases, m) == (if a.Made? then cases + [a.c] else cases)
  {
    LiveIsFound(cases, m.resultId);
  }

  /** A manual case is open and unassigned, scored by the better similarity alone, and neither automatic nor watched. */
  lemma ManualCaseIsExact(cases: seq<Case>, m: ManualInput)
    requires ManualAnswerTo(cases, m).Made?
    ensures var c, r := ManualAnswerTo(cases, m).c, m.listing.value;
      && c.id == |cases| && c.resultId == m.resultId && c.listing == r.listing && c.caseNo.day == m.day
      && IsHeld(c.aiScore, MaxReal(SP.ValueOrZero(r.scores.title), SP.ValueOrZero(r.scores.image)))
      && IsPriorityOf(c.priority, c.aiScore)
      && c.status.Open? && !c.autoCreated && !c.watchlisted && c.assignee.None? && c.notes == [] && !c.deleted
      && c.finalDecision.None? && c.finalDecisionNote.None? && c.decidedAt.None? && c.dueDate.None?
      && c.historyId == m.history.value.id && c.jobId == (if m.job.Some? then Some(m.job.value.id) else None)
      && IsManualOrder(c.orderNo, m.job, m.orderNo)
  {
    ScoreIs(ManualResult(m).scores);
    if m.orderNo.Some? {
      TrimIsTight(m.orderNo.value);
    }
  }
}
