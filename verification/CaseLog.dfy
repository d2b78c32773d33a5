/**
 * One investigation case and what can happen to it (investigation.service.ts). Every operation
 * is a function from case to case; the timeline it appends to is shown to be a complete log of
 * the case's status, assignee, final decision, score and watchlist flag.
 */
module CaseLog {
  import opened Common
  import opened CaseWorkflow
  import opened Text
  import opened ScorePipeline
  import RuleEngine

  datatype Priority = High | Medium | Low

  /** What a timeline entry records; its display text is made of these values. */
  datatype Fact =
    | SearchRun(keyword: Option<string>)
    | AiAnalysis(score: int, reason: Option<string>)
    | Created(auto: bool, watchlist: bool)
    | RuleWarning(rule: RuleEngine.Rule)
    | OrderMapped(order: string, job: Option<string>)
    | Summary(summary: string)
    | Reasons(reasons: seq<string>)
    | Recommendation(recommendation: string)
    | StatusChanged(from: Status, to: Status)
    | AssigneeSet(prev: Option<string>, next: Option<string>)
    | NoteAdded(text: string)
    | FinalDecision(decision: string, note: Option<string>)
    | CompletedCase
    | ScoreUpdated(newScore: int, oldScore: int, watch: bool)
    | ExcludeRecommended(excludeScore: int, rules: seq<RuleEngine.Rule>)

  datatype Event = Event(at: int, fact: Fact)

  datatype Note = Note(id: nat, body: string, author: string, createdAt: int, updatedAt: int)

  datatype Listing = Listing(title: string, site: string, url: string, image: Option<string>, price: Option<string>)

  datatype CaseNo = CaseNo(day: string, number: string)

  /** `deleted` marks a row gone with its search; the model keeps it so that nothing reuses its place. */
  datatype Case = Case(
    id: nat, caseNo: CaseNo, resultId: string, listing: Listing, aiScore: real, status: Status, priority: Priority,
    assignee: Option<string>, historyId: string, jobId: Option<string>, orderNo: Option<string>,
    autoCreated: bool, watchlisted: bool, timeline: seq<Event>, notes: seq<Note>,
    finalDecision: Option<string>, finalDecisionNote: Option<string>, decidedAt: Option<int>, dueDate: Option<int>,
    deleted: bool)

  datatype Error = IllegalTransition | NoteNotFound | ArchivedCase | CaseNotFound

  datatype Outcome<T> = Ok(value: T) | Failed(error: Error)

  function PriorityFromScore(score: real): Priority {
    if score >= 0.8 then High else if score >= 0.6 then Medium else Low
  }

  // ----- Operations on one case -----

  datatype Edit<T> = Keep | Set(value: T)

  datatype Job = Job(id: string, orderNo: Option<string>)

  /** A search result as auto-creation sees it. */
  datatype Result = Result(
    id: string, listing: Listing, scores: ResultScores, reason: Option<string>, hasItemScores: bool)

  datatype Op =
    | UpdateStatus(next: Status)
    | UpdateAssignment(assignee: Edit<Option<string>>, priority: Edit<Priority>, dueDate: Edit<Option<int>>)
    | AddNote(noteId: nat, body: string, author: Option<string>)
    | UpdateNote(noteId: nat, body: string)
    | DeleteNote(noteId: nat)
    | ApplyFinalDecision(decision: string, note: Option<string>)
    | UpdateFromAi(result: Result, history: string, job: Option<Job>, warnings: seq<RuleEngine.Rule>, watchlist: bool)
    | RecordExclude(result: Result, matched: seq<RuleEngine.Rule>, job: Option<Job>)

  function StatusUpdated(c: Case, next: Status, now: int): Outcome<Case> {
    if !CanTransitionStatus(c.status, next) then Failed(IllegalTransition)
    else if c.status == next then Ok(c)
    else Ok(c.(status := next, timeline := c.timeline + [Event(now, StatusChanged(c.status, next))]))
  }

  /** An edit to the current value changes nothing and is not logged. */
  function AssignmentUpdated(c: Case, a: Edit<Option<string>>, p: Edit<Priority>, d: Edit<Option<int>>, now: int): Case {
    var named :=
      if a.Set? && a.value != c.assignee
      then c.(assignee := a.value, timeline := c.timeline + [Event(now, AssigneeSet(c.assignee, a.value))])
      else c;
    named.(priority := if p.Set? then p.value else c.priority, dueDate := if d.Set? then d.value else c.dueDate)
  }

  const DEFAULT_AUTHOR := "\U{B2F4}\U{B2F9}\U{C790}"

  function NewNote(id: nat, body: string, author: Option<string>, now: int): Note {
    var name := TrimmedOrNone(author);
    Note(id, Trim(body), Prefix(if name.Some? then name.value else DEFAULT_AUTHOR, 100), now, now)
  }

  /** Long notes are shortened in the timeline. */
  function NotePreview(body: string): string {
    if |body| > 120 then body[..117] + "..." else body
  }

  function NoteAddedTo(c: Case, id: nat, body: string, author: Option<string>, now: int): Case {
    var note := NewNote(id, body, author, now);
    c.(notes := c.notes + [note], timeline := c.timeline + [Event(now, NoteAdded(NotePreview(note.body)))])
  }

  function FindNote(notes: seq<Note>, id: nat): (i: nat)
    ensures i <= |notes|
    ensures i < |notes| ==> notes[i].id == id
    ensures forall j | 0 <= j < i :: notes[j].id != id
  {
    if notes == [] || notes[0].id == id then 0 else 1 + FindNote(notes[1..], id)
  }

  function NoteUpdated(c: Case, id: nat, body: string, now: int): Outcome<Case> {
    var i := FindNote(c.notes, id);
    if i == |c.notes| then Failed(NoteNotFound)
    else Ok(c.(notes := c.notes[i := c.notes[i].(body := Trim(body), updatedAt := now)]))
  }

  function WithoutNote(notes: seq<Note>, id: nat): seq<Note> {
    if notes == [] then []
    else (if notes[0].id == id then [] else [notes[0]]) + WithoutNote(notes[1..], id)
  }

  function NoteDeleted(c: Case, id: nat): Outcome<Case> {
    if FindNote(c.notes, id) == |c.notes| then Failed(NoteNotFound)
    else Ok(c.(notes := WithoutNote(c.notes, id)))
  }

  predicate SameDecision(c: Case, decision: string, note: Option<string>) {
    c.status.Completed? && c.finalDecision == Some(decision) && c.finalDecisionNote == TrimmedOrNone(note)
  }

  function DecisionApplied(c: Case, decision: string, note: Option<string>, now: int): Outcome<Case> {
    if c.status.Archived? then Failed(ArchivedCase)
    else if SameDecision(c, decision, note) then Ok(c)
    else
      var text := TrimmedOrNone(note);
      var closing := if c.status.Completed? then []
                     else [Event(now, StatusChanged(c.status, Completed)), Event(now, CompletedCase)];
      Ok(c.(status := Completed, finalDecision := Some(decision), finalDecisionNote := text, decidedAt := Some(now),
            timeline := c.timeline + ([Event(now, FinalDecision(decision, text))] + closing)))
  }

  function JobOrder(job: Option<Job>): Option<string> {
    if job.Some? then TrimmedOrNone(job.value.orderNo) else None
  }

  function JobId(job: Option<Job>): Option<string> {
    if job.Some? then Some(job.value.id) else None
  }

  function WarningEvents(warnings: seq<RuleEngine.Rule>, now: int): seq<Event> {
    if warnings == [] then [] else [Event(now, RuleWarning(warnings[0]))] + WarningEvents(warnings[1..], now)
  }

  function MappedEvents(order: Option<string>, job: Option<Job>, now: int): seq<Event> {
    if order.Some? then [Event(now, OrderMapped(order.value, JobId(job)))] else []
  }

  function Percent(score: real): int {
    Round(score * 100.0)
  }

  function ScoreRefreshed(
      c: Case, r: Result, history: string, job: Option<Job>, warnings: seq<RuleEngine.Rule>, watch: bool, now: int): Case
  {
    var score := ComputeAiScore(r.scores);
    var order := OrElse(JobOrder(job), NonEmpty(c.orderNo));
    var events :=
      [Event(now, ScoreUpdated(Percent(score), Percent(c.aiScore), watch))]
      + WarningEvents(warnings, now)
      + (if order != c.orderNo then MappedEvents(order, job, now) else []);
    c.(listing := r.listing.(image := OrElse(r.listing.image, c.listing.image), price := OrElse(r.listing.price, c.listing.price)),
       aiScore := score, priority := PriorityFromScore(score), historyId := history,
       jobId := OrElse(JobId(job), c.jobId), orderNo := order, watchlisted := watch, timeline := c.timeline + events)
  }

  /** The recommendation scores the result without its similarities. */
  function ExcludeScore(r: Result): int {
    ScorePercent(ResultScores(r.scores.ai, r.scores.matching, None, None))
  }

  function ExcludeRecorded(c: Case, r: Result, matched: seq<RuleEngine.Rule>, job: Option<Job>, now: int): Case {
    c.(jobId := OrElse(JobId(job), c.jobId),
       orderNo := OrElse(JobOrder(job), NonEmpty(c.orderNo)),
       timeline := c.timeline + [Event(now, ExcludeRecommended(ExcludeScore(r), matched))])
  }

  function ApplyOp(c: Case, op: Op, now: int): Outcome<Case> {
    match op
    case UpdateStatus(next) => StatusUpdated(c, next, now)
    case UpdateAssignment(a, p, d) => Ok(AssignmentUpdated(c, a, p, d, now))
    case AddNote(id, body, author) => Ok(NoteAddedTo(c, id, body, author, now))
    case UpdateNote(id, body) => NoteUpdated(c, id, body, now)
    case DeleteNote(id) => NoteDeleted(c, id)
    case ApplyFinalDecision(decision, note) => DecisionApplied(c, decision, note, now)
    case UpdateFromAi(r, h, job, ws, watch) => Ok(ScoreRefreshed(c, r, h, job, ws, watch, now))
    case RecordExclude(r, matched, job) => Ok(ExcludeRecorded(c, r, matched, job, now))
  }

  /** A refused operation leaves the case as it was. */
  function Step(c: Case, op: Op, now: int): Case {
    var r := ApplyOp(c, op, now);
    if r.Ok? then r.value else c
  }

  // ----- Creation -----

  datatype Analysis = Analysis(summary: string, reasons: seq<string>, recommendation: Option<string>)

  /** What the AI analysis leaves in the timeline; None when it is off or failed. */
  function AnalysisEvents(a: Option<Analysis>, now: int): seq<Event> {
    if a.None? then []
    else
      [Event(now, Summary(a.value.summary))]
      + (if a.value.reasons != [] then [Event(now, Reasons(a.value.reasons))] else [])
      + (if a.value.recommendation.Some? then [Event(now, Recommendation(a.value.recommendation.value))] else [])
  }

  /** The search a case comes from. */
  datatype History = History(id: string, keyword: Option<string>)

  const MINUTE := 60000

  /** The timeline a case starts with: search, score, creation, warnings, order, analysis. */
  function OpeningEvents(
      r: Result, h: History, job: Option<Job>, auto: bool, warnings: seq<RuleEngine.Rule>, order: Option<string>,
      watch: bool, analysis: Option<Analysis>, now: int): seq<Event>
  {
    [Event(now - 5 * MINUTE, SearchRun(NonEmpty(h.keyword))),
     Event(now - MINUTE, AiAnalysis(Percent(ComputeAiScore(r.scores)), r.reason)),
     Event(now, Created(auto, watch))]
    + (WarningEvents(warnings, now) + MappedEvents(order, job, now) + AnalysisEvents(analysis, now))
  }

  function NewCase(
      id: nat, caseNo: CaseNo, r: Result, h: History, job: Option<Job>, auto: bool, warnings: seq<RuleEngine.Rule>,
      orderOverride: Option<string>, watch: bool, analysis: Option<Analysis>, now: int): Case
  {
    var score := ComputeAiScore(r.scores);
    var order := OrElse(JobOrder(job), TrimmedOrNone(orderOverride));
    Case(id, caseNo, r.id, r.listing, score, Open, PriorityFromScore(score), None, h.id, JobId(job), order, auto, watch,
      OpeningEvents(r, h, job, auto, warnings, order, watch, analysis, now), [], None, None, None, None, false)
  }

  // ----- The timeline as an event log -----

  datatype Decided = Decided(decision: string, note: Option<string>, at: int)

  /** What the timeline alone tells about a case. */
  datatype View = View(
    status: Status, assignee: Option<string>, decided: Option<Decided>, score: int, watchlisted: bool)

  function Replay(v: View, e: Event): View {
    match e.fact
    case AiAnalysis(score, _) => v.(score := score)
    case Created(_, watch) => v.(watchlisted := watch)
    case StatusChanged(_, to) => v.(status := to)
    case AssigneeSet(_, next) => v.(assignee := next)
    case FinalDecision(d, n) => v.(decided := Some(Decided(d, n, e.at)))
    case ScoreUpdated(new_, _, watch) => v.(score := new_, watchlisted := watch)
    case _ => v
  }

  function ReplayFrom(v: View, events: seq<Event>): View
    decreases |events|
  {
    if events == [] then v else ReplayFrom(Replay(v, events[0]), events[1..])
  }

  function Blank(): View {
    View(Open, None, None, 0, false)
  }

  /** The same five things as the case's fields hold them. */
  function ViewOf(c: Case): View {
    View(c.status, c.assignee,
      if c.finalDecision.Some? && c.decidedAt.Some?
      then Some(Decided(c.finalDecision.value, c.finalDecisionNote, c.decidedAt.value)) else None,
      Percent(c.aiScore), c.watchlisted)
  }

  /**
   * Each logged change starts from the value then current, and each status change goes forward: by
   * one step, or to Completed right behind a final decision.
   */
  predicate Consistent(v: View, e: Event) {
    match e.fact
    case StatusChanged(from, to) =>
      && from == v.status
      && (WorkflowIndex(to) == WorkflowIndex(from) + 1
          || (to == Completed && v.decided.Some? && v.decided.value.at == e.at && WorkflowIndex(from) < WorkflowIndex(to)))
    case AssigneeSet(prev, next) => prev == v.assignee && next != prev
    case FinalDecision(_, _) => v.status != Archived
    case ScoreUpdated(_, old_, _) => old_ == v.score
    case _ => true
  }

  predicate ConsistentFrom(v: View, events: seq<Event>)
    decreases |events|
  {
    events == [] || (Consistent(v, events[0]) && ConsistentFrom(Replay(v, events[0]), events[1..]))
  }

  predicate NotesUnique(notes: seq<Note>) {
    forall i, j | 0 <= i < j < |notes| :: notes[i].id != notes[j].id
  }

  /** What every case keeps for life. */
  predicate CaseInv(c: Case) {
    && ReplayFrom(Blank(), c.timeline) == ViewOf(c)
    && ConsistentFrom(Blank(), c.timeline)
    && (c.finalDecision.Some? <==> c.decidedAt.Some?)
    && (c.finalDecisionNote.Some? ==> c.finalDecision.Some?)
    && (c.finalDecision.Some? ==> c.status.Completed? || c.status.Archived?)
  }

  lemma {:induction false} ReplayAppend(v: View, a: seq<Event>, b: seq<Event>)
    ensures ReplayFrom(v, a + b) == ReplayFrom(ReplayFrom(v, a), b)
    ensures ConsistentFrom(v, a + b) <==> ConsistentFrom(v, a) && ConsistentFrom(ReplayFrom(v, a), b)
    decreases |a|
  {
    if a == [] {
      assert a + b == b;
    } else {
      assert (a + b)[1..] == a[1..] + b;
      ReplayAppend(Replay(v, a[0]), a[1..], b);
    }
  }

  lemma {:induction false} WarningsSayNothing(v: View, warnings: seq<RuleEngine.Rule>, now: int)
    ensures ReplayFrom(v, WarningEvents(warnings, now)) == v && ConsistentFrom(v, WarningEvents(warnings, now))
  {
    if warnings == [] {
    } else {
      WarningsSayNothing(v, warnings[1..], now);
      assert WarningEvents(warnings, now)[1..] == WarningEvents(warnings[1..], now);
    }
  }

  predicate Silent(events: seq<Event>) {
    forall e | e in events :: e.fact.OrderMapped? || e.fact.Summary? || e.fact.Reasons? || e.fact.Recommendation?
  }

  lemma {:induction false} SilentSaysNothing(v: View, events: seq<Event>)
    requires Silent(events)
    ensures ReplayFrom(v, events) == v && ConsistentFrom(v, events)
  {
    if events == [] {
    } else {
      assert events[0] in events;
      assert forall e | e in events[1..] :: e in events;
      SilentSaysNothing(v, events[1..]);
    }
  }

  /** Appending a suffix that replays to the new fields keeps log and fields together. */
  lemma LogExtends(c: Case, d: Case, events: seq<Event>)
    requires CaseInv(c) && d.timeline == c.timeline + events
    requires ReplayFrom(ViewOf(c), events) == ViewOf(d) && ConsistentFrom(ViewOf(c), events)
    ensures ReplayFrom(Blank(), d.timeline) == ViewOf(d) && ConsistentFrom(Blank(), d.timeline)
  {
    ReplayAppend(Blank(), c.timeline, events);
  }

  lemma OneEvent(v: View, e: Event)
    ensures ReplayFrom(v, [e]) == Replay(v, e)
    ensures ConsistentFrom(v, [e]) <==> Consistent(v, e)
  {
    assert [e][1..] == [];
  }

  lemma ThreeEvents(v: View, a: Event, b: Event, c: Event)
    ensures ReplayFrom(v, [a, b, c]) == Replay(Replay(Replay(v, a), b), c)
    ensures ConsistentFrom(v, [a, b, c]) <==>
      Consistent(v, a) && Consistent(Replay(v, a), b) && Consistent(Replay(Replay(v, a), b), c)
  {
    assert [a, b, c] == [a] + [b, c] && [b, c] == [b] + [c];
    ReplayAppend(v, [a], [b, c]);
    ReplayAppend(Replay(v, a), [b], [c]);
    OneEvent(v, a);
    OneEvent(Replay(v, a), b);
    OneEvent(Replay(Replay(v, a), b), c);
  }

  lemma FollowUpSaysNothing(
      v: View, warnings: seq<RuleEngine.Rule>, order: Option<string>, job: Option<Job>, analysis: Option<Analysis>, now: int)
    ensures var events := WarningEvents(warnings, now) + MappedEvents(order, job, now) + AnalysisEvents(analysis, now);
      ReplayFrom(v, events) == v && ConsistentFrom(v, events)
  {
    var ws, ms, an := WarningEvents(warnings, now), MappedEvents(order, job, now), AnalysisEvents(analysis, now);
    ReplayAppend(v, ws + ms, an);
    ReplayAppend(v, ws, ms);
    WarningsSayNothing(v, warnings, now);
    SilentSaysNothing(v, ms);
    SilentSaysNothing(v, an);
  }

  /** A new case's opening entries already account for all its fields. */
  lemma NewCaseKeepsLog(
      id: nat, caseNo: CaseNo, r: Result, h: History, job: Option<Job>, auto: bool, warnings: seq<RuleEngine.Rule>,
      orderOverride: Option<string>, watch: bool, analysis: Option<Analysis>, now: int)
    ensures CaseInv(NewCase(id, caseNo, r, h, job, auto, warnings, orderOverride, watch, analysis, now))
  {
    var c := NewCase(id, caseNo, r, h, job, auto, warnings, orderOverride, watch, analysis, now);
    var order := OrElse(JobOrder(job), TrimmedOrNone(orderOverride));
    var e0, e1, e2 := c.timeline[0], c.timeline[1], c.timeline[2];
    var rest := WarningEvents(warnings, now) + MappedEvents(order, job, now) + AnalysisEvents(analysis, now);
    assert c.timeline == [e0, e1, e2] + rest;
    ReplayAppend(Blank(), [e0, e1, e2], rest);
    ThreeEvents(Blank(), e0, e1, e2);
    FollowUpSaysNothing(ViewOf(c), warnings, order, job, analysis, now);
  }

  lemma DecisionKeepsLog(c: Case, decision: string, note: Option<string>, now: int)
    requires CaseInv(c) && DecisionApplied(c, decision, note, now).Ok?
    ensures CaseInv(DecisionApplied(c, decision, note, now).value)
  {
    var d := DecisionApplied(c, decision, note, now).value;
    if !SameDecision(c, decision, note) {
      var e := Event(now, FinalDecision(decision, TrimmedOrNone(note)));
      var s, done := Event(now, StatusChanged(c.status, Completed)), Event(now, CompletedCase);
      OneEvent(ViewOf(c), e);
      if c.status.Completed? {
        assert [e] + [] == [e];
        LogExtends(c, d, [e]);
      } else {
        var v := Replay(ViewOf(c), e);
        assert [e] + [s, done] == [e] + ([s] + [done]);
        ReplayAppend(ViewOf(c), [e], [s] + [done]);
        ReplayAppend(v, [s], [done]);
        OneEvent(v, s);
        OneEvent(Replay(v, s), done);
        LogExtends(c, d, [e] + [s, done]);
      }
    }
  }

  lemma RefreshKeepsLog(
      c: Case, r: Result, history: string, job: Option<Job>, warnings: seq<RuleEngine.Rule>, watch: bool, now: int)
    requires CaseInv(c)
    ensures CaseInv(ScoreRefreshed(c, r, history, job, warnings, watch, now))
  {
    var d := ScoreRefreshed(c, r, history, job, warnings, watch, now);
    var order := OrElse(JobOrder(job), NonEmpty(c.orderNo));
    var e := Event(now, ScoreUpdated(Percent(d.aiScore), Percent(c.aiScore), watch));
    var ws := WarningEvents(warnings, now);
    var ms := if order != c.orderNo then MappedEvents(order, job, now) else [];
    var v := ViewOf(c);
    ReplayAppend(v, [e] + ws, ms);
    ReplayAppend(v, [e], ws);
    OneEvent(v, e);
    WarningsSayNothing(ViewOf(d), warnings, now);
    SilentSaysNothing(ViewOf(d), ms);
    LogExtends(c, d, [e] + ws + ms);
  }

  lemma SimpleOpsKeepLog(c: Case, op: Op, now: int)
    requires CaseInv(c)
    requires op.UpdateStatus? || op.UpdateAssignment? || op.AddNote? || op.RecordExclude?
    ensures CaseInv(Step(c, op, now))
  {
    var d := Step(c, op, now);
    if d.timeline != c.timeline {
      var e := d.timeline[|c.timeline|];
      assert d.timeline == c.timeline + [e];
      OneEvent(ViewOf(c), e);
      if op.UpdateStatus? {
        TransitionIsOneStep(c.status, op.next);
      }
      LogExtends(c, d, [e]);
    }
  }

  /** Every operation, accepted or refused, keeps the timeline a faithful log of the case. */
  lemma StepKeepsLog(c: Case, op: Op, now: int)
    requires CaseInv(c)
    ensures CaseInv(Step(c, op, now))
  {
    match op
    case ApplyFinalDecision(decision, note) =>
      if ApplyOp(c, op, now).Ok? {
        DecisionKeepsLog(c, decision, note, now);
      }
    case UpdateFromAi(r, h, job, ws, watch) => RefreshKeepsLog(c, r, h, job, ws, watch, now);
    case UpdateNote(_, _) =>
    case DeleteNote(_) =>
    case _ => SimpleOpsKeepLog(c, op, now);
  }

  // ----- Over whole runs -----

  /** What a later state of a case owes to an earlier one. */
  predicate Continues(c: Case, d: Case) {
    && d.id == c.id && d.caseNo == c.caseNo && d.resultId == c.resultId && d.autoCreated == c.autoCreated
    && (c.deleted ==> d.deleted)
    && c.timeline <= d.timeline
    && WorkflowIndex(c.status) <= WorkflowIndex(d.status)
    && (c.status.Archived? ==> d.status.Archived? && d.finalDecision == c.finalDecision && d.decidedAt == c.decidedAt)
    && (c.finalDecision.Some? ==> d.finalDecision.Some?)
  }

  lemma StepContinues(c: Case, op: Op, now: int)
    ensures Continues(c, Step(c, op, now))
  {
    if op.UpdateStatus? {
      TransitionIsOneStep(c.status, op.next);
    }
  }

  datatype Timed = Timed(op: Op, now: int)

  function Run(c: Case, ops: seq<Timed>): Case
    decreases |ops|
  {
    if ops == [] then c else Run(Step(c, ops[0].op, ops[0].now), ops[1..])
  }

  lemma ContinuesTransitive(a: Case, b: Case, c: Case)
    requires Continues(a, b) && Continues(b, c)
    ensures Continues(a, c)
  {
  }

  /**
   * Over any run of operations from creation on: the timeline only grows at its end, the workflow
   * never goes back, Archived is final, and replaying the log gives the current fields.
   */
  lemma {:induction false} RunKeepsLog(c: Case, ops: seq<Timed>)
    requires CaseInv(c)
    ensures CaseInv(Run(c, ops)) && Continues(c, Run(c, ops))
    decreases |ops|
  {
    if ops == [] {
    } else {
      var d := Step(c, ops[0].op, ops[0].now);
      StepKeepsLog(c, ops[0].op, ops[0].now);
      StepContinues(c, ops[0].op, ops[0].now);
      RunKeepsLog(d, ops[1..]);
      ContinuesTransitive(c, d, Run(d, ops[1..]));
    }
  }

  function StatusReplay(events: seq<Event>, start: Status): Status {
    if events == [] then start
    else StatusReplay(events[1..], if events[0].fact.StatusChanged? then events[0].fact.to else start)
  }

  lemma {:induction false} StatusReplayIsView(v: View, events: seq<Event>)
    ensures StatusReplay(events, v.status) == ReplayFrom(v, events).status
    decreases |events|
  {
    if events == [] {
    } else {
      StatusReplayIsView(Replay(v, events[0]), events[1..]);
    }
  }

  /** Replaying only the status changes, from Open, reproduces the current status. */
  lemma StatusIsReplayed(c: Case, ops: seq<Timed>)
    requires CaseInv(c)
    ensures StatusReplay(Run(c, ops).timeline, Open) == Run(c, ops).status
  {
    RunKeepsLog(c, ops);
    StatusReplayIsView(Blank(), Run(c, ops).timeline);
  }

  /** A repeated decision changes nothing, whenever and however often it comes. */
  lemma DecisionIsIdempotent(c: Case, decision: string, note: Option<string>, first: int, later: int)
    requires !c.status.Archived?
    ensures var d := Step(c, ApplyFinalDecision(decision, note), first);
      ApplyOp(d, ApplyFinalDecision(decision, note), later) == Ok(d)
  {
  }

  /** A decision completes the case from wherever it stands, and is refused exactly on Archived ones. */
  lemma DecisionCompletes(c: Case, decision: string, note: Option<string>, now: int)
    ensures var r := ApplyOp(c, ApplyFinalDecision(decision, note), now);
      && (r.Failed? <==> c.status.Archived?)
      && (r.Ok? ==> r.value.status.Completed? && r.value.finalDecision == Some(decision)
                    && r.value.finalDecisionNote == TrimmedOrNone(note))
      && (r.Ok? ==> (r.value.timeline == c.timeline <==> SameDecision(c, decision, note)))
  {
    var r := ApplyOp(c, ApplyFinalDecision(decision, note), now);
    if r.Ok? && !SameDecision(c, decision, note) {
      assert |r.value.timeline| > |c.timeline|;
    }
  }

  /** A new decision stores what was decided and when; behind it a case not yet completed logs its completion. */
  lemma DecisionIsExact(c: Case, decision: string, note: Option<string>, now: int)
    requires !c.status.Archived? && !(c.status.Completed? && c.finalDecision == Some(decision) && c.finalDecisionNote == TrimmedOrNone(note))
    ensures var d := Step(c, ApplyFinalDecision(decision, note), now); var n := |c.timeline|;
      && d == c.(status := Completed, finalDecision := Some(decision), finalDecisionNote := TrimmedOrNone(note),
                 decidedAt := Some(now), timeline := d.timeline)
      && |d.timeline| == n + (if c.status.Completed? then 1 else 3) && d.timeline[..n] == c.timeline
      && d.timeline[n] == Event(now, FinalDecision(decision, TrimmedOrNone(note)))
      && (!c.status.Completed? ==>
            d.timeline[n + 1] == Event(now, StatusChanged(c.status, Completed)) && d.timeline[n + 2] == Event(now, CompletedCase))
  {
  }

  /** Only a change of status changes the status. */
  lemma StatusMovesOnlyBy(c: Case, op: Op, now: int)
    requires Step(c, op, now).status != c.status
    ensures op.UpdateStatus? || op.ApplyFinalDecision?
    ensures op.UpdateStatus? ==> WorkflowIndex(Step(c, op, now).status) == WorkflowIndex(c.status) + 1
  {
    if op.UpdateStatus? {
      TransitionIsOneStep(c.status, op.next);
    }
  }

  /**
   * A refreshed case looks like one newly created from the same result: the result decides the
   * listing, score, priority, watchlist flag and search; what the result lacks is kept.
   */
  lemma RefreshAgreesWithCreate(
      c: Case, r: Result, h: History, job: Option<Job>, warnings: seq<RuleEngine.Rule>, watch: bool,
      analysis: Option<Analysis>, now: int)
    ensures var d := ScoreRefreshed(c, r, h.id, job, warnings, watch, now);
      var n := NewCase(c.id, c.caseNo, r, h, job, true, warnings, None, watch, analysis, now);
      && (d.aiScore, d.priority, d.watchlisted, d.historyId) == (n.aiScore, n.priority, n.watchlisted, n.historyId)
      && (d.listing.title, d.listing.site, d.listing.url) == (n.listing.title, n.listing.site, n.listing.url)
      && d.listing.image == OrElse(n.listing.image, c.listing.image) && d.listing.price == OrElse(n.listing.price, c.listing.price)
      && d.jobId == OrElse(n.jobId, c.jobId) && d.orderNo == OrElse(n.orderNo, NonEmpty(c.orderNo))
      && d == c.(listing := d.listing, aiScore := d.aiScore, priority := d.priority, historyId := d.historyId, jobId := d.jobId,
                 orderNo := d.orderNo, watchlisted := d.watchlisted, timeline := d.timeline)
  {
  }

  /** An assignment stores what was asked for, keeps the rest, and is logged iff the assignee changes. */
  lemma AssignmentIsExact(c: Case, a: Edit<Option<string>>, p: Edit<Priority>, due: Edit<Option<int>>, now: int)
    ensures var d := Step(c, UpdateAssignment(a, p, due), now);
      && d.assignee == (if a.Set? then a.value else c.assignee)
      && d.priority == (if p.Set? then p.value else c.priority)
      && d.dueDate == (if due.Set? then due.value else c.dueDate)
      && d == c.(assignee := d.assignee, priority := d.priority, dueDate := d.dueDate, timeline := d.timeline)
      && (d.timeline == c.timeline <==> d.assignee == c.assignee)
      && (d.assignee != c.assignee ==> d.timeline == c.timeline + [Event(now, AssigneeSet(c.assignee, d.assignee))])
  {
    var d := Step(c, UpdateAssignment(a, p, due), now);
    assert d.assignee != c.assignee ==> |d.timeline| == |c.timeline| + 1;
  }

  // ----- Notes -----

  lemma PrefixTight(s: string, n: nat)
    requires s != "" && n > 0
    ensures 0 < |Prefix(s, n)| <= n
  {
  }

  /** An added note is found under its identifier, with trimmed text and a nonempty, short author. */
  lemma AddedNoteIsFound(c: Case, id: nat, body: string, author: Option<string>, now: int)
    requires FindNote(c.notes, id) == |c.notes|
    ensures var notes := Step(c, AddNote(id, body, author), now).notes; var i := FindNote(notes, id);
      && i == |c.notes| < |notes| && notes[..i] == c.notes
      && notes[i].body == Trim(body) && Tight(notes[i].body) && 0 < |notes[i].author| <= 100
      && notes[i].createdAt == now == notes[i].updatedAt
  {
    TrimIsTight(body);
    WithoutFresh(c.notes, NewNote(id, body, author, now));
    PrefixTight(if TrimmedOrNone(author).Some? then TrimmedOrNone(author).value else DEFAULT_AUTHOR, 100);
  }

  /** The note's author: the first 100 characters of a nonblank name, or the default one. */
  predicate IsAuthor(name: string, author: Option<string>) {
    if author.Some? && Trim(author.value) != "" then
      name <= Trim(author.value) && |name| <= 100 && (|name| < 100 ==> name == Trim(author.value))
    else name == ['\U{B2F4}', '\U{B2F9}', '\U{C790}']
  }

  /** What the timeline shows of a text: all of it up to 120 characters, else 117 of them and three dots. */
  predicate IsPreview(shown: string, text: string) {
    if |text| <= 120 then shown == text else |shown| == 120 && shown[..117] == text[..117] && shown[117..] == "..."
  }

  /** Adding a note appends it with its author and a preview of it to the timeline, and changes nothing else. */
  lemma AddedNoteIsExact(c: Case, id: nat, body: string, author: Option<string>, now: int)
    ensures var d := Step(c, AddNote(id, body, author), now); var n, t := |c.notes|, |c.timeline|;
      && d == c.(notes := d.notes, timeline := d.timeline)
      && |d.notes| == n + 1 && d.notes[..n] == c.notes
      && d.notes[n] == Note(id, Trim(body), d.notes[n].author, now, now) && IsAuthor(d.notes[n].author, author)
      && |d.timeline| == t + 1 && d.timeline[..t] == c.timeline
      && d.timeline[t].at == now && d.timeline[t].fact.NoteAdded? && IsPreview(d.timeline[t].fact.text, Trim(body))
  {
  }

  /** Editing a note changes the text and time of that note only; an unknown one is refused. */
  lemma UpdatedNoteIsExact(c: Case, id: nat, body: string, now: int)
    ensures var r := ApplyOp(c, UpdateNote(id, body), now); var i := FindNote(c.notes, id);
      && (r.Failed? <==> forall n | n in c.notes :: n.id != id)
      && (r.Ok? ==> i < |c.notes| == |r.value.notes| && r.value == c.(notes := r.value.notes))
      && (r.Ok? ==> r.value.notes[i] == c.notes[i].(body := Trim(body), updatedAt := now))
      && (r.Ok? ==> forall j | 0 <= j < |c.notes| && j != i :: r.value.notes[j] == c.notes[j])
  {
    var i := FindNote(c.notes, id);
    if i < |c.notes| {
      assert c.notes[i] in c.notes;
    }
  }

  /** Deleting removes the notes with that identifier and no others. */
  lemma {:induction false} WithoutNoteIsExact(notes: seq<Note>, id: nat)
    ensures forall n :: n in WithoutNote(notes, id) <==> n in notes && n.id != id
  {
    if notes == [] {
    } else {
      WithoutNoteIsExact(notes[1..], id);
      assert notes == [notes[0]] + notes[1..];
    }
  }

  lemma {:induction false} WithoutNoteUnique(notes: seq<Note>, id: nat)
    requires NotesUnique(notes)
    ensures NotesUnique(WithoutNote(notes, id))
  {
    if notes == [] {
    } else {
      var rest := WithoutNote(notes[1..], id);
      WithoutNoteUnique(notes[1..], id);
      WithoutNoteIsExact(notes[1..], id);
      forall j | 0 <= j < |rest| ensures rest[j].id != notes[0].id {
        assert rest[j] in notes[1..];
      }
    }
  }

  lemma {:induction false} WithoutFresh(notes: seq<Note>, n: Note)
    requires FindNote(notes, n.id) == |notes|
    ensures WithoutNote(notes + [n], n.id) == notes
    ensures FindNote(notes + [n], n.id) == |notes|
  {
    if notes == [] {
      assert [] + [n] == [n] && [n][1..] == [];
    } else {
      assert (notes + [n])[1..] == notes[1..] + [n];
      WithoutFresh(notes[1..], n);
    }
  }

  /** An added note that is deleted again leaves the notes as they were, and its log entry behind. */
  lemma DeleteUndoesAdd(c: Case, id: nat, body: string, author: Option<string>, now: int, later: int)
    requires FindNote(c.notes, id) == |c.notes|
    ensures var d := Step(c, AddNote(id, body, author), now);
      && ApplyOp(d, DeleteNote(id), later) == Ok(c.(timeline := d.timeline))
      && |d.timeline| == |c.timeline| + 1
  {
    WithoutFresh(c.notes, NewNote(id, body, author, now));
  }

  /** Note identifiers stay distinct when each new note gets a fresh one. */
  lemma NotesStayUnique(c: Case, op: Op, now: int)
    requires NotesUnique(c.notes)
    requires op.AddNote? ==> FindNote(c.notes, op.noteId) == |c.notes|
    ensures NotesUnique(Step(c, op, now).notes)
  {
    if op.DeleteNote? {
      WithoutNoteUnique(c.notes, op.noteId);
    }
  }

  // ----- The order link -----

  function LastOrder(events: seq<Event>): Option<string> {
    if events == [] then None
    else if events[|events| - 1].fact.OrderMapped? then Some(events[|events| - 1].fact.order)
    else LastOrder(events[..|events| - 1])
  }

  /**
   * A changed order link is logged as `order_mapped`, except by an exclusion recommendation, which
   * may replace it silently. The link stays in step with the log exactly when the job brings no
   * other order number. (Priority, due date, job link, the listing's own fields and edited or
   * deleted notes are never logged.)
   */
  lemma ExcludeKeepsOrderLogIff(c: Case, r: Result, matched: seq<RuleEngine.Rule>, job: Option<Job>, now: int)
    requires LastOrder(c.timeline) == c.orderNo && c.orderNo != Some("")
    ensures var d := Step(c, RecordExclude(r, matched, job), now);
      LastOrder(d.timeline) == d.orderNo <==> JobOrder(job).None? || JobOrder(job) == c.orderNo
  {
    var d := Step(c, RecordExclude(r, matched, job), now);
    assert d.timeline[..|d.timeline| - 1] == c.timeline;
  }
}
