/**
 * The table of investigation cases: manual and automatic creation, and runs that mix them with
 * operations on single cases (investigation.service.ts), and with the deletion of searches, which
 * takes cases along (search.service.ts). A row's generated identifier is modelled as its position;
 * deleted rows stay as tombstones that no lookup finds.
 */
module CaseTable {
  import opened Common
  import opened Text
  import opened CaseWorkflow
  import opened CaseLog
  import opened CaseNumber
  import SP = ScorePipeline
  import RuleEngine

  // ----- Lookups and the insert -----

  predicate Matches(c: Case, resultId: string) {
    !c.deleted && c.resultId == resultId
  }

  function FindResult(cases: seq<Case>, resultId: string): (i: nat)
    ensures i <= |cases|
    ensures i < |cases| ==> Matches(cases[i], resultId)
    ensures forall j | 0 <= j < i :: !Matches(cases[j], resultId)
  {
    if cases == [] || Matches(cases[0], resultId) then 0 else 1 + FindResult(cases[1..], resultId)
  }

  predicate HasCase(cases: seq<Case>, resultId: string) {
    FindResult(cases, resultId) < |cases|
  }

  predicate OnDay(c: Case, day: string) {
    !c.deleted && c.caseNo.day == day
  }

  /** The numbers in use on one day, in order of creation. */
  function DayNumbers(cases: seq<Case>, day: string): seq<string> {
    if cases == [] then []
    else
      var last := cases[|cases| - 1];
      DayNumbers(cases[..|cases| - 1], day) + if OnDay(last, day) then [last.caseNo.number] else []
  }

  /** What creating a case needs to know besides the result itself. */
  datatype Creation = Creation(
    history: History, job: Option<Job>, auto: bool, warnings: seq<RuleEngine.Rule>, orderOverride: Option<string>,
    watchlist: bool, analysis: Option<Analysis>, day: string, now: int)

  /** The number the day's cases give the next one. */
  function NumberAfter(seen: seq<Case>, day: string): CaseNo {
    CaseNo(day, NextNumber(DayNumbers(seen, day)))
  }

  function FreshCase(cases: seq<Case>, seen: seq<Case>, r: Result, c: Creation): Case {
    NewCase(|cases|, NumberAfter(seen, c.day), r, c.history, c.job, c.auto, c.warnings, c.orderOverride, c.watchlist,
      c.analysis, c.now)
  }

  /**
   * The insert, with the number read from the table as it was at `seen`; the unique indexes on
   * case numbers and on results turn a repetition into an exception.
   */
  function Insert(cases: seq<Case>, seen: seq<Case>, r: Result, c: Creation): Option<seq<Case>> {
    if NextNumber(DayNumbers(seen, c.day)) in DayNumbers(cases, c.day) || HasCase(cases, r.id) then None
    else Some(cases + [FreshCase(cases, seen, r, c)])
  }

  // ----- The invariant of the table -----

  predicate ResultsDistinct(cases: seq<Case>) {
    forall i, j | 0 <= i < j < |cases| && !cases[i].deleted && !cases[j].deleted :: cases[i].resultId != cases[j].resultId
  }

  /** No two cases share a number. */
  predicate NumbersDistinct(cases: seq<Case>) {
    forall i, j | 0 <= i < j < |cases| && !cases[i].deleted && !cases[j].deleted :: cases[i].caseNo != cases[j].caseNo
  }

  predicate RowsValid(cases: seq<Case>) {
    forall i | 0 <= i < |cases| :: cases[i].id == i && CaseInv(cases[i]) && IsPrinted(cases[i].caseNo.number)
  }

  predicate TableInv(cases: seq<Case>) {
    RowsValid(cases) && ResultsDistinct(cases) && NumbersDistinct(cases)
  }

  lemma {:induction false} DayNumbersHas(cases: seq<Case>, i: nat)
    requires i < |cases| && !cases[i].deleted
    ensures cases[i].caseNo.number in DayNumbers(cases, cases[i].caseNo.day)
  {
    if i == |cases| - 1 {
    } else {
      DayNumbersHas(cases[..|cases| - 1], i);
    }
  }

  lemma {:induction false} DayNumbersOnly(cases: seq<Case>, day: string, k: nat)
    requires k < |DayNumbers(cases, day)|
    ensures exists i :: 0 <= i < |cases| && OnDay(cases[i], day) && cases[i].caseNo.number == DayNumbers(cases, day)[k]
  {
    var n := |cases| - 1;
    var front := DayNumbers(cases[..n], day);
    if k < |front| {
      DayNumbersOnly(cases[..n], day, k);
      var i :| 0 <= i < n && OnDay(cases[..n][i], day) && cases[..n][i].caseNo.number == front[k];
      assert cases[i] == cases[..n][i];
    } else {
      assert OnDay(cases[n], day) && cases[n].caseNo.number == DayNumbers(cases, day)[k];
    }
  }

  /** Some case of the day has this number. */
  predicate InUse(cases: seq<Case>, day: string, number: string) {
    exists i :: 0 <= i < |cases| && OnDay(cases[i], day) && cases[i].caseNo.number == number
  }

  lemma DayNumbersAreInUse(cases: seq<Case>, day: string, number: string)
    ensures number in DayNumbers(cases, day) <==> InUse(cases, day, number)
  {
    var used := DayNumbers(cases, day);
    if number in used {
      var k :| 0 <= k < |used| && used[k] == number;
      DayNumbersOnly(cases, day, k);
    }
    if i :| 0 <= i < |cases| && OnDay(cases[i], day) && cases[i].caseNo.number == number {
      DayNumbersHas(cases, i);
    }
  }

  /** The cases of the day hold 99...9 and the power of ten after it, and no number that goes on after those nines. */
  predicate DayBlocked(cases: seq<Case>, day: string, k: nat) {
    && InUse(cases, day, Nines(k)) && InUse(cases, day, Print(Power10(k)))
    && forall i | 0 <= i < |cases| && OnDay(cases[i], day) ::
         !(k < |cases[i].caseNo.number| && cases[i].caseNo.number[..k] == Nines(k))
  }

  /**
   * A creation fails on a repeated number exactly when the day is blocked like that, whatever
   * cases were deleted before: the first time, with 999,999 and 1,000,000 in use.
   */
  lemma InsertFailsIff(cases: seq<Case>, r: Result, c: Creation)
    requires RowsValid(cases) && !HasCase(cases, r.id)
    ensures Insert(cases, cases, r, c).None? <==> exists k :: k >= WIDTH && DayBlocked(cases, c.day, k)
  {
    var used := DayNumbers(cases, c.day);
    forall s | s in used ensures IsPrinted(s) {
      DayNumbersAreInUse(cases, c.day, s);
    }
    NextIsTakenIff(used);
    forall k: nat ensures BlockFull(used, k) <==> DayBlocked(cases, c.day, k) {
      BlockedIff(cases, c.day, k);
    }
  }

  lemma BlockedIff(cases: seq<Case>, day: string, k: nat)
    ensures BlockFull(DayNumbers(cases, day), k) <==> DayBlocked(cases, day, k)
  {
    var used := DayNumbers(cases, day);
    DayNumbersAreInUse(cases, day, Nines(k));
    DayNumbersAreInUse(cases, day, Print(Power10(k)));
    forall i | 0 <= i < |cases| && OnDay(cases[i], day) ensures cases[i].caseNo.number in used {
      DayNumbersHas(cases, i);
    }
    forall s | s in used ensures InUse(cases, day, s) {
      DayNumbersAreInUse(cases, day, s);
    }
  }

  lemma AppendKeepsInv(cases: seq<Case>, made: Case)
    requires TableInv(cases) && made.id == |cases| && CaseInv(made) && IsPrinted(made.caseNo.number)
    requires forall i | 0 <= i < |cases| && !cases[i].deleted ::
      cases[i].caseNo != made.caseNo && cases[i].resultId != made.resultId
    ensures TableInv(cases + [made])
  {
  }

  /** However old the number is, an insert that the indexes accept keeps the table in order. */
  lemma InsertKeepsInv(cases: seq<Case>, seen: seq<Case>, r: Result, c: Creation)
    requires TableInv(cases) && Insert(cases, seen, r, c).Some?
    ensures TableInv(Insert(cases, seen, r, c).value)
  {
    var made := FreshCase(cases, seen, r, c);
    NewCaseKeepsLog(made.id, made.caseNo, r, c.history, c.job, c.auto, c.warnings, c.orderOverride, c.watchlist, c.analysis, c.now);
    NextIsPrinted(DayNumbers(seen, c.day));
    forall i | 0 <= i < |cases| && !cases[i].deleted
      ensures cases[i].caseNo != made.caseNo && cases[i].resultId != made.resultId
    {
      DayNumbersHas(cases, i);
      assert !Matches(cases[i], r.id);
    }
    AppendKeepsInv(cases, made);
  }

  // ----- Changing and deleting rows -----

  /** Same identity: what no operation on a case touches. */
  predicate SameIdentity(c: Case, d: Case) {
    d.id == c.id && d.caseNo == c.caseNo && d.resultId == c.resultId && d.deleted == c.deleted
  }

  lemma ReplaceKeepsInv(cases: seq<Case>, i: nat, d: Case)
    requires TableInv(cases) && i < |cases| && SameIdentity(cases[i], d) && CaseInv(d)
    ensures TableInv(cases[i := d])
  {
  }

  /** The deletion of a search takes the cases linked to it along. */
  function DeletedWith(c: Case, history: string): Case {
    if c.historyId == history then c.(deleted := true) else c
  }

  function WithoutSearch(cases: seq<Case>, history: string): (r: seq<Case>)
    ensures |r| == |cases| && forall i | 0 <= i < |r| :: r[i] == DeletedWith(cases[i], history)
  {
    seq(|cases|, i requires 0 <= i < |cases| => DeletedWith(cases[i], history))
  }

  lemma DeletionKeepsInv(cases: seq<Case>, history: string)
    requires TableInv(cases)
    ensures TableInv(WithoutSearch(cases, history))
  {
    var after := WithoutSearch(cases, history);
    forall i | 0 <= i < |after| ensures CaseInv(after[i]) {
      assert ViewOf(after[i]) == ViewOf(cases[i]);
    }
  }

  // ----- Automatic creation -----

  /** One result of a search with the outside answers it meets on the way. */
  datatype Item = Item(result: Result, price: Option<real>, analysis: Option<Analysis>, day: string, now: int)

  /** The fixed inputs of one automatic run. */
  datatype Env = Env(settings: SP.Settings, rental: Option<real>, history: History, job: Option<Job>)

  datatype Tally = Tally(
    created: seq<Case>, updated: seq<Case>, skipped: nat, excluded: nat, warned: nat, watchlisted: nat)

  datatype Desk = Desk(cases: seq<Case>, tally: Tally)

  datatype AutoEnd = AutoEnd(desk: Desk, failed: bool)

  const EMPTY_TALLY := Tally([], [], 0, 0, 0, 0)

  function Decision(env: Env, item: Item): SP.Decision {
    SP.Decide(env.settings, item.result.scores, SP.Prices(env.rental, item.price))
  }

  predicate IsAiResult(r: Result) {
    SP.Usable(r.scores.ai) || SP.Usable(r.scores.matching) || NonEmpty(r.reason).Some? || r.hasItemScores
  }

  function AfterExclude(env: Env, desk: Desk, item: Item, matched: seq<RuleEngine.Rule>): Desk {
    var i := FindResult(desk.cases, item.result.id);
    var cases :=
      if IsAiResult(item.result) && i < |desk.cases|
      then desk.cases[i := ExcludeRecorded(desk.cases[i], item.result, matched, env.job, item.now)]
      else desk.cases;
    Desk(cases, desk.tally.(skipped := desk.tally.skipped + 1, excluded := desk.tally.excluded + 1))
  }

  function Skipped(desk: Desk): Desk {
    desk.(tally := desk.tally.(skipped := desk.tally.skipped + 1))
  }

  /** A result with rule warnings is counted before its case is looked at. */
  function Warned(desk: Desk, warnings: seq<RuleEngine.Rule>): Desk {
    desk.(tally := desk.tally.(warned := desk.tally.warned + Bit(warnings != [])))
  }

  function AfterUpdate(env: Env, desk: Desk, item: Item, i: nat, watch: bool, warnings: seq<RuleEngine.Rule>): Desk
    requires i < |desk.cases|
  {
    var d := ScoreRefreshed(desk.cases[i], item.result, env.history.id, env.job, warnings, watch, item.now);
    Desk(desk.cases[i := d],
      desk.tally.(updated := desk.tally.updated + [d], watchlisted := desk.tally.watchlisted + Bit(d.watchlisted)))
  }

  function CreationOf(env: Env, item: Item, watch: bool, warnings: seq<RuleEngine.Rule>): Creation {
    Creation(env.history, env.job, true, warnings, None, watch, item.analysis, item.day, item.now)
  }

  function AfterCreate(env: Env, desk: Desk, item: Item, watch: bool, warnings: seq<RuleEngine.Rule>): Option<Desk> {
    var c := CreationOf(env, item, watch, warnings);
    var cases := Insert(desk.cases, desk.cases, item.result, c);
    var made := FreshCase(desk.cases, desk.cases, item.result, c);
    if cases.None? then None
    else Some(Desk(cases.value,
      desk.tally.(created := desk.tally.created + [made], watchlisted := desk.tally.watchlisted + Bit(made.watchlisted))))
  }

  /** A result to open: its case is created, refreshed while still Open, or left alone. */
  function Opening(env: Env, desk: Desk, item: Item, watch: bool, warnings: seq<RuleEngine.Rule>): Option<Desk> {
    var i := FindResult(desk.cases, item.result.id);
    if i == |desk.cases| then AfterCreate(env, desk, item, watch, warnings)
    else if !IsAiResult(item.result) || !desk.cases[i].status.Open? then Some(Skipped(desk))
    else Some(AfterUpdate(env, desk, item, i, watch, warnings))
  }

  /** One round of the loop; None when the insert throws. */
  function AutoStep(env: Env, desk: Desk, item: Item): Option<Desk> {
    match Decision(env, item)
    case Excluded(matched) => Some(AfterExclude(env, desk, item, matched))
    case NotCreated(warnings) => Some(Skipped(Warned(desk, warnings)))
    case Opened(watch, warnings) => Opening(env, Warned(desk, warnings), item, watch, warnings)
  }

  function AutoRun(env: Env, desk: Desk, items: seq<Item>): AutoEnd
    decreases |items|
  {
    if items == [] then AutoEnd(desk, false)
    else
      var next := AutoStep(env, desk, items[0]);
      if next.None? then AutoEnd(desk, true) else AutoRun(env, next.value, items[1..])
  }

  // ----- What one automatic run does -----

  function WatchCount(cases: seq<Case>): nat {
    if cases == [] then 0 else WatchCount(cases[..|cases| - 1]) + Bit(cases[|cases| - 1].watchlisted)
  }

  /** The counters after `n` results, whatever the results were. */
  predicate TallyAdds(t: Tally, n: nat) {
    && |t.created| + |t.updated| + t.skipped == n
    && t.excluded <= t.skipped
    && t.warned + t.excluded <= n
    && t.watchlisted == WatchCount(t.created) + WatchCount(t.updated)
  }

  lemma TallyOfStep(env: Env, desk: Desk, item: Item)
    requires AutoStep(env, desk, item).Some?
    ensures var t, u := desk.tally, AutoStep(env, desk, item).value.tally; OneMore(t, u)
  {
  }

  /** One result more: skipped, updated or created. */
  predicate OneMore(t: Tally, u: Tally) {
    || (u.created == t.created && u.updated == t.updated && u.skipped == t.skipped + 1 && u.watchlisted == t.watchlisted
        && t.excluded <= u.excluded <= t.excluded + 1 && u.warned + u.excluded <= t.warned + t.excluded + 1)
    || (u.skipped == t.skipped && u.excluded == t.excluded && t.warned <= u.warned <= t.warned + 1
        && ((u.created == t.created && Grows(t.updated, u.updated, u.watchlisted - t.watchlisted))
            || (u.updated == t.updated && Grows(t.created, u.created, u.watchlisted - t.watchlisted))))
  }

  predicate Grows(a: seq<Case>, b: seq<Case>, watched: int) {
    |b| == |a| + 1 && b[..|a|] == a && watched == Bit(b[|a|].watchlisted)
  }

  lemma OneMoreAdds(t: Tally, u: Tally, n: nat)
    requires TallyAdds(t, n) && OneMore(t, u)
    ensures TallyAdds(u, n + 1)
  {
  }

  /** Every result is counted exactly once, and the watchlist counter counts the listed cases. */
  lemma {:induction false} RunTally(env: Env, desk: Desk, items: seq<Item>, n: nat)
    requires TallyAdds(desk.tally, n) && !AutoRun(env, desk, items).failed
    ensures TallyAdds(AutoRun(env, desk, items).desk.tally, n + |items|)
    decreases |items|
  {
    if items == [] {
    } else {
      TallyOfStep(env, desk, items[0]);
      OneMoreAdds(desk.tally, AutoStep(env, desk, items[0]).value.tally, n);
      RunTally(env, AutoStep(env, desk, items[0]).value, items[1..], n + 1);
    }
  }

  lemma CountsAddUp(env: Env, cases: seq<Case>, items: seq<Item>)
    requires !AutoRun(env, Desk(cases, EMPTY_TALLY), items).failed
    ensures var t := AutoRun(env, Desk(cases, EMPTY_TALLY), items).desk.tally;
      && |t.created| + |t.updated| + t.skipped == |items|
      && t.excluded <= t.skipped
      && t.watchlisted == WatchCount(t.created) + WatchCount(t.updated)
  {
    assert WatchCount([]) == 0;
    RunTally(env, Desk(cases, EMPTY_TALLY), items, 0);
  }

  /** What automatic runs may do to a case that exists: refresh it while Open, else only relink it. */
  predicate AutoTouches(c: Case, d: Case) {
    && SameIdentity(c, d) && d.status == c.status && d.notes == c.notes && d.assignee == c.assignee
    && d.finalDecision == c.finalDecision && d.autoCreated == c.autoCreated && c.timeline <= d.timeline
    && (c.status.Open? || OnlyRelinked(c, d))
  }

  /** Unchanged but for job link, order link and appended exclusion recommendations. */
  predicate OnlyRelinked(c: Case, d: Case) {
    && d == c.(jobId := d.jobId, orderNo := d.orderNo, timeline := d.timeline)
    && c.timeline <= d.timeline
    && forall k | |c.timeline| <= k < |d.timeline| :: d.timeline[k].fact.ExcludeRecommended?
  }

  lemma TouchesTransitive(a: Case, b: Case, c: Case)
    requires AutoTouches(a, b) && AutoTouches(b, c)
    ensures AutoTouches(a, c)
  {
    if !a.status.Open? {
      forall k | |a.timeline| <= k < |c.timeline| ensures c.timeline[k].fact.ExcludeRecommended? {
        assert k < |b.timeline| ==> c.timeline[k] == b.timeline[k];
      }
    }
  }

  predicate AllTouched(a: seq<Case>, b: seq<Case>) {
    |a| <= |b| && forall i | 0 <= i < |a| :: AutoTouches(a[i], b[i])
  }

  lemma ExcludeTouches(env: Env, desk: Desk, item: Item, matched: seq<RuleEngine.Rule>)
    ensures AllTouched(desk.cases, AfterExclude(env, desk, item, matched).cases)
  {
    var i := FindResult(desk.cases, item.result.id);
    if i < |desk.cases| {
      var d := ExcludeRecorded(desk.cases[i], item.result, matched, env.job, item.now);
      assert OnlyRelinked(desk.cases[i], d);
    }
  }

  lemma OpeningTouches(env: Env, desk: Desk, item: Item, watch: bool, warnings: seq<RuleEngine.Rule>)
    requires Opening(env, desk, item, watch, warnings).Some?
    ensures AllTouched(desk.cases, Opening(env, desk, item, watch, warnings).value.cases)
  {
    var after := Opening(env, desk, item, watch, warnings).value.cases;
    forall i | 0 <= i < |desk.cases| ensures AutoTouches(desk.cases[i], after[i]) {
    }
  }

  lemma StepTouches(env: Env, desk: Desk, item: Item)
    requires AutoStep(env, desk, item).Some?
    ensures AllTouched(desk.cases, AutoStep(env, desk, item).value.cases)
  {
    match Decision(env, item)
    case Excluded(matched) => ExcludeTouches(env, desk, item, matched);
    case NotCreated(_) =>
      forall i | 0 <= i < |desk.cases| ensures AutoTouches(desk.cases[i], desk.cases[i]) {
      }
    case Opened(watch, warnings) => OpeningTouches(env, Warned(desk, warnings), item, watch, warnings);
  }

  /**
   * A case someone has moved past Open keeps everything but its job and order links, and its
   * timeline gains nothing but exclusion recommendations; no automatic run changes a status.
   */
  lemma {:induction false} RunTouches(env: Env, desk: Desk, items: seq<Item>)
    ensures AllTouched(desk.cases, AutoRun(env, desk, items).desk.cases)
    decreases |items|
  {
    if items != [] && AutoStep(env, desk, items[0]).Some? {
      var mid := AutoStep(env, desk, items[0]).value;
      var end := AutoRun(env, desk, items).desk;
      StepTouches(env, desk, items[0]);
      RunTouches(env, mid, items[1..]);
      forall i | 0 <= i < |desk.cases| ensures AutoTouches(desk.cases[i], end.cases[i]) {
        assert AutoTouches(desk.cases[i], mid.cases[i]) && AutoTouches(mid.cases[i], end.cases[i]);
        TouchesTransitive(desk.cases[i], mid.cases[i], end.cases[i]);
      }
    } else {
      forall i | 0 <= i < |desk.cases| ensures AutoTouches(desk.cases[i], desk.cases[i]) {
      }
    }
  }

  lemma ExcludeKeepsInv(env: Env, desk: Desk, item: Item, matched: seq<RuleEngine.Rule>)
    requires TableInv(desk.cases)
    ensures TableInv(AfterExclude(env, desk, item, matched).cases)
  {
    var i := FindResult(desk.cases, item.result.id);
    if IsAiResult(item.result) && i < |desk.cases| {
      StepKeepsLog(desk.cases[i], RecordExclude(item.result, matched, env.job), item.now);
      ReplaceKeepsInv(desk.cases, i, ExcludeRecorded(desk.cases[i], item.result, matched, env.job, item.now));
    }
  }

  lemma OpeningKeepsInv(env: Env, desk: Desk, item: Item, watch: bool, warnings: seq<RuleEngine.Rule>)
    requires TableInv(desk.cases) && Opening(env, desk, item, watch, warnings).Some?
    ensures TableInv(Opening(env, desk, item, watch, warnings).value.cases)
  {
    var i := FindResult(desk.cases, item.result.id);
    if i == |desk.cases| {
      InsertKeepsInv(desk.cases, desk.cases, item.result, CreationOf(env, item, watch, warnings));
    } else if IsAiResult(item.result) && desk.cases[i].status.Open? {
      RefreshKeepsLog(desk.cases[i], item.result, env.history.id, env.job, warnings, watch, item.now);
      ReplaceKeepsInv(desk.cases, i, ScoreRefreshed(desk.cases[i], item.result, env.history.id, env.job, warnings, watch, item.now));
    }
  }

  lemma StepKeepsInv(env: Env, desk: Desk, item: Item)
    requires TableInv(desk.cases) && AutoStep(env, desk, item).Some?
    ensures TableInv(AutoStep(env, desk, item).value.cases)
  {
    match Decision(env, item)
    case Excluded(matched) => ExcludeKeepsInv(env, desk, item, matched);
    case NotCreated(_) =>
    case Opened(watch, warnings) => OpeningKeepsInv(env, Warned(desk, warnings), item, watch, warnings);
  }

  lemma {:induction false} AutoKeepsInv(env: Env, desk: Desk, items: seq<Item>)
    requires TableInv(desk.cases)
    ensures TableInv(AutoRun(env, desk, items).desk.cases)
    decreases |items|
  {
    if items == [] || AutoStep(env, desk, items[0]).None? {
    } else {
      StepKeepsInv(env, desk, items[0]);
      AutoKeepsInv(env, AutoStep(env, desk, items[0]).value, items[1..]);
    }
  }

  // ----- Running again -----

  predicate Wanted(env: Env, item: Item) {
    Decision(env, item).Opened?
  }

  lemma HasCaseKept(a: seq<Case>, b: seq<Case>, resultId: string)
    requires HasCase(a, resultId) && |a| <= |b|
    requires forall i | 0 <= i < |a| :: a[i].resultId == b[i].resultId && a[i].deleted == b[i].deleted
    ensures HasCase(b, resultId)
  {
    assert Matches(b[FindResult(a, resultId)], resultId);
  }

  lemma StepServes(env: Env, desk: Desk, item: Item)
    requires AutoStep(env, desk, item).Some? && Wanted(env, item)
    ensures HasCase(AutoStep(env, desk, item).value.cases, item.result.id)
  {
    var after := AutoStep(env, desk, item).value.cases;
    if !HasCase(desk.cases, item.result.id) {
      assert Matches(after[|desk.cases|], item.result.id);
    } else {
      StepTouches(env, desk, item);
      assert forall i | 0 <= i < |desk.cases| :: AutoTouches(desk.cases[i], after[i]);
      HasCaseKept(desk.cases, after, item.result.id);
    }
  }

  /** After a run every wanted result has its case. */
  lemma {:induction false} RunServes(env: Env, desk: Desk, items: seq<Item>, k: nat)
    requires k < |items| && Wanted(env, items[k]) && !AutoRun(env, desk, items).failed
    ensures HasCase(AutoRun(env, desk, items).desk.cases, items[k].result.id)
    decreases |items|
  {
    var mid := AutoStep(env, desk, items[0]).value;
    if k == 0 {
      StepServes(env, desk, items[0]);
      RunTouches(env, mid, items[1..]);
      var end := AutoRun(env, desk, items).desk.cases;
      assert forall i | 0 <= i < |mid.cases| :: AutoTouches(mid.cases[i], end[i]);
      HasCaseKept(mid.cases, end, items[0].result.id);
    } else {
      RunServes(env, mid, items[1..], k - 1);
    }
  }

  predicate AllServed(env: Env, cases: seq<Case>, items: seq<Item>) {
    forall k | 0 <= k < |items| && Wanted(env, items[k]) :: HasCase(cases, items[k].result.id)
  }

  lemma {:induction false} ServedCreatesNothing(env: Env, desk: Desk, items: seq<Item>)
    requires AllServed(env, desk.cases, items)
    ensures var e := AutoRun(env, desk, items);
      !e.failed && e.desk.tally.created == desk.tally.created && |e.desk.cases| == |desk.cases|
    decreases |items|
  {
    if items == [] {
    } else {
      assert Wanted(env, items[0]) ==> HasCase(desk.cases, items[0].result.id);
      var mid := AutoStep(env, desk, items[0]).value;
      StepTouches(env, desk, items[0]);
      assert forall i | 0 <= i < |desk.cases| :: AutoTouches(desk.cases[i], mid.cases[i]);
      forall k | 0 <= k < |items[1..]| && Wanted(env, items[1..][k]) ensures HasCase(mid.cases, items[1..][k].result.id) {
        assert items[1..][k] == items[k + 1];
        HasCaseKept(desk.cases, mid.cases, items[k + 1].result.id);
      }
      ServedCreatesNothing(env, mid, items[1..]);
    }
  }

  /** A step adds a row exactly when it reports a created case. */
  lemma StepCreates(env: Env, desk: Desk, item: Item)
    requires AutoStep(env, desk, item).Some?
    ensures var next := AutoStep(env, desk, item).value;
      && |next.cases| - |desk.cases| == |next.tally.created| - |desk.tally.created|
      && |next.tally.created| >= |desk.tally.created|
  {
  }

  lemma {:induction false} CreatedOnlyGrows(env: Env, desk: Desk, items: seq<Item>)
    ensures |desk.tally.created| <= |AutoRun(env, desk, items).desk.tally.created|
    ensures |AutoRun(env, desk, items).desk.cases| - |desk.cases|
      == |AutoRun(env, desk, items).desk.tally.created| - |desk.tally.created|
    decreases |items|
  {
    if items == [] || AutoStep(env, desk, items[0]).None? {
    } else {
      StepCreates(env, desk, items[0]);
      CreatedOnlyGrows(env, AutoStep(env, desk, items[0]).value, items[1..]);
    }
  }

  lemma {:induction false} NothingCreatedMeansServed(env: Env, desk: Desk, items: seq<Item>)
    requires var e := AutoRun(env, desk, items); !e.failed && |e.desk.cases| == |desk.cases|
    ensures AllServed(env, desk.cases, items)
    decreases |items|
  {
    forall k | 0 <= k < |items| && Wanted(env, items[k]) ensures HasCase(desk.cases, items[k].result.id) {
      RunServes(env, desk, items, k);
      RunTouches(env, desk, items);
      var end := AutoRun(env, desk, items).desk.cases;
      assert forall i | 0 <= i < |desk.cases| :: AutoTouches(desk.cases[i], end[i]);
      HasCaseKept(end, desk.cases, items[k].result.id);
    }
  }

  /**
   * A run creates nothing exactly when each result that the rules open has a case already; and it
   * adds exactly as many rows as it reports created.
   */
  lemma CreatesNothingIff(env: Env, cases: seq<Case>, items: seq<Item>)
    ensures var e := AutoRun(env, Desk(cases, EMPTY_TALLY), items);
      && (!e.failed && e.desk.tally.created == [] <==> AllServed(env, cases, items))
      && |e.desk.cases| == |cases| + |e.desk.tally.created|
  {
    var desk := Desk(cases, EMPTY_TALLY);
    var e := AutoRun(env, desk, items);
    CreatedOnlyGrows(env, desk, items);
    if !e.failed && e.desk.tally.created == [] {
      NothingCreatedMeansServed(env, desk, items);
    }
    if AllServed(env, cases, items) {
      ServedCreatesNothing(env, desk, items);
    }
  }

  // ----- Manual creation -----

  /** What the lookups of a manual request found. */
  datatype ManualInput = ManualInput(
    resultId: string, listing: Option<Result>, historyId: Option<string>, history: Option<History>,
    jobRequested: bool, job: Option<Job>, orderNo: Option<string>, analysis: Option<Analysis>, day: string, now: int)

  datatype ManualAnswer =
    | ExistingCase(c: Case)
    | Made(c: Case)
    | ResultNotFound
    | HistoryRequired
    | HistoryNotFound
    | JobNotFound
    | InsertThrew

  /** A manual request scores the listing by its similarities only. */
  function ManualResult(m: ManualInput): Result
    requires m.listing.Some?
  {
    var r := m.listing.value;
    Result(m.resultId, r.listing, SP.ResultScores(None, None, r.scores.title, r.scores.image), None, false)
  }

  function ManualCreation(m: ManualInput): Creation
    requires m.history.Some?
  {
    Creation(m.history.value, m.job, false, [], TrimmedOrNone(m.orderNo), false, m.analysis, m.day, m.now)
  }

  function ManualAnswerTo(cases: seq<Case>, m: ManualInput): ManualAnswer {
    var i := FindResult(cases, m.resultId);
    if i < |cases| then ExistingCase(cases[i])
    else if m.listing.None? then ResultNotFound
    else if m.historyId.None? then HistoryRequired
    else if m.history.None? then HistoryNotFound
    else if m.jobRequested && m.job.None? then JobNotFound
    else if Insert(cases, cases, ManualResult(m), ManualCreation(m)).None? then InsertThrew
    else Made(FreshCase(cases, cases, ManualResult(m), ManualCreation(m)))
  }

  function AfterManual(cases: seq<Case>, m: ManualInput): seq<Case> {
    var answer := ManualAnswerTo(cases, m);
    if answer.Made? then cases + [answer.c] else cases
  }

  /** Asking twice for the same listing gives the same case and no second row. */
  lemma ManualIsIdempotent(cases: seq<Case>, m: ManualInput, again: ManualInput)
    requires ManualAnswerTo(cases, m).Made? && again.resultId == m.resultId
    ensures var after := AfterManual(cases, m);
      && ManualAnswerTo(after, again) == ExistingCase(ManualAnswerTo(cases, m).c)
      && AfterManual(after, again) == after
  {
    var after := AfterManual(cases, m);
    assert Matches(after[|cases|], m.resultId);
    assert forall j | 0 <= j < |cases| :: after[j] == cases[j];
  }

  // ----- Runs of the whole table -----

  /** `LateInsert` is an insert whose number was read before others changed the table. */
  datatype TableOp =
    | OnCase(id: nat, op: Op, now: int)
    | Manual(input: ManualInput)
    | Auto(env: Env, items: seq<Item>)
    | LateInsert(seen: seq<Case>, result: Result, creation: Creation)
    | DeleteSearch(history: string)

  predicate Exists(cases: seq<Case>, id: nat) {
    id < |cases| && !cases[id].deleted
  }

  function TableStep(cases: seq<Case>, op: TableOp): seq<Case> {
    match op
    case OnCase(id, o, now) => if Exists(cases, id) then cases[id := Step(cases[id], o, now)] else cases
    case Manual(m) => AfterManual(cases, m)
    case Auto(env, items) => AutoRun(env, Desk(cases, EMPTY_TALLY), items).desk.cases
    case LateInsert(seen, r, c) => if Insert(cases, seen, r, c).Some? then Insert(cases, seen, r, c).value else cases
    case DeleteSearch(history) => WithoutSearch(cases, history)
  }

  function TableRun(cases: seq<Case>, ops: seq<TableOp>): seq<Case>
    decreases |ops|
  {
    if ops == [] then cases else TableRun(TableStep(cases, ops[0]), ops[1..])
  }

  predicate TableContinues(a: seq<Case>, b: seq<Case>) {
    |a| <= |b| && forall i | 0 <= i < |a| :: Continues(a[i], b[i])
  }

  lemma OnCaseKeepsInv(cases: seq<Case>, id: nat, op: Op, now: int)
    requires TableInv(cases) && Exists(cases, id)
    ensures TableInv(cases[id := Step(cases[id], op, now)])
  {
    StepKeepsLog(cases[id], op, now);
    StepContinues(cases[id], op, now);
    ReplaceKeepsInv(cases, id, Step(cases[id], op, now));
  }

  lemma ManualKeepsInv(cases: seq<Case>, m: ManualInput)
    requires TableInv(cases)
    ensures TableInv(AfterManual(cases, m))
  {
    if ManualAnswerTo(cases, m).Made? {
      InsertKeepsInv(cases, cases, ManualResult(m), ManualCreation(m));
    }
  }

  lemma TableStepKeepsInv(cases: seq<Case>, op: TableOp)
    requires TableInv(cases)
    ensures TableInv(TableStep(cases, op))
  {
    match op
    case OnCase(id, o, now) =>
      if Exists(cases, id) {
        OnCaseKeepsInv(cases, id, o, now);
      }
    case Manual(m) => ManualKeepsInv(cases, m);
    case Auto(env, items) => AutoKeepsInv(env, Desk(cases, EMPTY_TALLY), items);
    case LateInsert(seen, r, c) => if Insert(cases, seen, r, c).Some? { InsertKeepsInv(cases, seen, r, c); }
    case DeleteSearch(history) => DeletionKeepsInv(cases, history);
  }

  lemma AutoContinues(c: Case, d: Case)
    requires AutoTouches(c, d) && CaseInv(c) && CaseInv(d)
    ensures Continues(c, d)
  {
  }

  /** One round of the automatic loop, like every other operation, only continues the table. */
  lemma AutoStepContinues(env: Env, desk: Desk, item: Item)
    requires TableInv(desk.cases) && AutoStep(env, desk, item).Some?
    ensures TableInv(AutoStep(env, desk, item).value.cases)
    ensures TableContinues(desk.cases, AutoStep(env, desk, item).value.cases)
  {
    var after := AutoStep(env, desk, item).value.cases;
    StepTouches(env, desk, item);
    StepKeepsInv(env, desk, item);
    forall i | 0 <= i < |desk.cases| ensures Continues(desk.cases[i], after[i]) {
      assert AutoTouches(desk.cases[i], after[i]);
      AutoContinues(desk.cases[i], after[i]);
    }
  }

  lemma AllAutoContinue(env: Env, cases: seq<Case>, items: seq<Item>)
    requires TableInv(cases)
    ensures TableContinues(cases, AutoRun(env, Desk(cases, EMPTY_TALLY), items).desk.cases)
  {
    var desk := Desk(cases, EMPTY_TALLY);
    var after := AutoRun(env, desk, items).desk.cases;
    RunTouches(env, desk, items);
    AutoKeepsInv(env, desk, items);
    forall i | 0 <= i < |cases| ensures Continues(cases[i], after[i]) {
      assert AutoTouches(cases[i], after[i]);
      AutoContinues(cases[i], after[i]);
    }
  }

  lemma DeletionContinues(cases: seq<Case>, history: string)
    ensures TableContinues(cases, WithoutSearch(cases, history))
  {
    var after := WithoutSearch(cases, history);
    forall i | 0 <= i < |cases| ensures Continues(cases[i], after[i]) {
      assert after[i] == DeletedWith(cases[i], history);
    }
  }

  lemma OnCaseContinues(cases: seq<Case>, id: nat, op: Op, now: int)
    requires Exists(cases, id)
    ensures TableContinues(cases, cases[id := Step(cases[id], op, now)])
  {
    StepContinues(cases[id], op, now);
  }

  lemma ManualContinues(cases: seq<Case>, m: ManualInput)
    ensures TableContinues(cases, AfterManual(cases, m))
  {
  }

  lemma InsertContinues(cases: seq<Case>, seen: seq<Case>, r: Result, c: Creation)
    ensures Insert(cases, seen, r, c).Some? ==> TableContinues(cases, Insert(cases, seen, r, c).value)
    ensures TableContinues(cases, cases)
  {
  }

  lemma TableStepContinues(cases: seq<Case>, op: TableOp)
    requires TableInv(cases)
    ensures TableContinues(cases, TableStep(cases, op))
  {
    match op
    case OnCase(id, o, now) =>
      if Exists(cases, id) {
        OnCaseContinues(cases, id, o, now);
      }
    case Manual(m) => ManualContinues(cases, m);
    case Auto(env, items) => AllAutoContinue(env, cases, items);
    case LateInsert(seen, r, c) => InsertContinues(cases, seen, r, c);
    case DeleteSearch(history) => DeletionContinues(cases, history);
  }

  /**
   * Over any mix of manual and automatic creation, operations on cases and deleted searches: at
   * most one case per result, distinct case numbers, every timeline a faithful log; and no case
   * goes back in the workflow, leaves Archived, loses a timeline entry or comes back from deletion.
   */
  lemma {:induction false} TableRunKeepsInv(cases: seq<Case>, ops: seq<TableOp>)
    requires TableInv(cases)
    ensures TableInv(TableRun(cases, ops))
    ensures TableContinues(cases, TableRun(cases, ops))
    decreases |ops|
  {
    if ops == [] {
    } else {
      var mid := TableStep(cases, ops[0]);
      var end := TableRun(cases, ops);
      TableStepKeepsInv(cases, ops[0]);
      TableStepContinues(cases, ops[0]);
      TableRunKeepsInv(mid, ops[1..]);
      forall i | 0 <= i < |cases| ensures Continues(cases[i], end[i]) {
        assert Continues(cases[i], mid[i]) && Continues(mid[i], end[i]);
        ContinuesTransitive(cases[i], mid[i], end[i]);
      }
    }
  }

  // ----- A number read early -----

  /** A live row that was not there at `seen` and has the number or is for the listing. */
  predicate Overtakes(seen: seq<Case>, cases: seq<Case>, r: Result, day: string) {
    exists i :: |seen| <= i < |cases| && !cases[i].deleted
      && (cases[i].caseNo == NumberAfter(seen, day) || cases[i].resultId == r.id)
  }

  /**
   * Between reading its number and inserting it a creation waits for the AI analysis. Whatever
   * happens to the table meanwhile, the insert fails exactly when a case that is new since then
   * took the same number or is for the same listing.
   */
  lemma LateInsertFailsIff(seen: seq<Case>, ops: seq<TableOp>, r: Result, c: Creation)
    requires TableInv(seen) && Insert(seen, seen, r, c).Some?
    ensures Insert(TableRun(seen, ops), seen, r, c).None? <==> Overtakes(seen, TableRun(seen, ops), r, c.day)
  {
    var cases := TableRun(seen, ops);
    var number := NextNumber(DayNumbers(seen, c.day));
    TableRunKeepsInv(seen, ops);
    DayNumbersAreInUse(seen, c.day, number);
    DayNumbersAreInUse(cases, c.day, number);
    forall i | 0 <= i < |seen| && !cases[i].deleted
      ensures cases[i].caseNo != NumberAfter(seen, c.day) && cases[i].resultId != r.id
    {
      assert Continues(seen[i], cases[i]);
      assert !Matches(seen[i], r.id);
    }
    if HasCase(cases, r.id) {
      assert Matches(cases[FindResult(cases, r.id)], r.id);
    }
    if i :| |seen| <= i < |cases| && !cases[i].deleted && (cases[i].caseNo == NumberAfter(seen, c.day) || cases[i].resultId == r.id) {
      if cases[i].resultId == r.id {
        assert Matches(cases[i], r.id);
      } else {
        assert OnDay(cases[i], c.day) && cases[i].caseNo.number == number;
      }
    }
  }

  /** Two creations that read the same table for the same day get the same number: the second fails. */
  lemma ReadersCollide(seen: seq<Case>, r1: Result, c1: Creation, r2: Result, c2: Creation)
    requires Insert(seen, seen, r1, c1).Some? && c1.day == c2.day
    ensures Insert(Insert(seen, seen, r1, c1).value, seen, r2, c2).None?
  {
    var cases := Insert(seen, seen, r1, c1).value;
    DayNumbersHas(cases, |seen|);
  }

  predicate NoDeletion(ops: seq<TableOp>) {
    forall op | op in ops :: !op.DeleteSearch?
  }

  predicate SameLives(a: seq<Case>, b: seq<Case>) {
    |a| <= |b| && forall i | 0 <= i < |a| :: b[i].deleted == a[i].deleted && b[i].resultId == a[i].resultId
  }

  lemma StepKeepsLives(cases: seq<Case>, op: TableOp)
    requires !op.DeleteSearch?
    ensures SameLives(cases, TableStep(cases, op))
  {
    var after := TableStep(cases, op);
    match op
    case OnCase(id, o, now) =>
    case Manual(m) =>
    case LateInsert(_, _, _) =>
    case Auto(env, items) =>
      RunTouches(env, Desk(cases, EMPTY_TALLY), items);
      assert forall i | 0 <= i < |cases| :: AutoTouches(cases[i], after[i]);
  }

  /** Only the deletion of a search ever removes a case. */
  lemma {:induction false} RunKeepsLives(cases: seq<Case>, ops: seq<TableOp>)
    requires NoDeletion(ops)
    ensures SameLives(cases, TableRun(cases, ops))
    decreases |ops|
  {
    if ops == [] {
    } else {
      assert ops[0] in ops && forall op | op in ops[1..] :: op in ops;
      StepKeepsLives(cases, ops[0]);
      RunKeepsLives(TableStep(cases, ops[0]), ops[1..]);
    }
  }

  /** The same results, prices and rules, however much later. */
  predicate SameWork(env: Env, items: seq<Item>, env2: Env, items2: seq<Item>) {
    && env.settings == env2.settings && env.rental == env2.rental && |items| == |items2|
    && forall k | 0 <= k < |items| :: items2[k].result == items[k].result && items2[k].price == items[k].price
  }

  /** Running again over the same results creates nothing, whatever people did to the cases in between. */
  lemma RerunCreatesNothing(
      cases: seq<Case>, env: Env, items: seq<Item>, between: seq<TableOp>, env2: Env, items2: seq<Item>)
    requires SameWork(env, items, env2, items2) && NoDeletion(between)
    requires !AutoRun(env, Desk(cases, EMPTY_TALLY), items).failed
    ensures var first := TableStep(cases, Auto(env, items)); var later := TableRun(first, between);
      var again := AutoRun(env2, Desk(later, EMPTY_TALLY), items2);
      !again.failed && again.desk.tally.created == [] && |again.desk.cases| == |later|
  {
    var first := TableStep(cases, Auto(env, items));
    var later := TableRun(first, between);
    RunKeepsLives(first, between);
    forall k | 0 <= k < |items2| && Wanted(env2, items2[k]) ensures HasCase(later, items2[k].result.id) {
      assert items2[k].result == items[k].result && items2[k].price == items[k].price;
      RunServes(env, Desk(cases, EMPTY_TALLY), items, k);
      HasCaseKept(first, later, items[k].result.id);
    }
    CreatesNothingIff(env2, later, items2);
  }
}
