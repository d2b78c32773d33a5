/**
 * The service object around the table of cases (investigation.service.ts). Every method keeps the
 * table in order (`Valid`: one case per result, distinct numbers, every timeline a faithful log)
 * and only continues it: no case goes back, leaves Archived, loses a timeline entry or returns
 * from deletion. Each computes one step of CaseTable and says what the caller gets.
 */
module CaseService {
  import opened Common
  import opened Text
  import opened CaseWorkflow
  import opened CaseLog
  import opened CaseNumber
  import opened CaseTable
  import opened CaseRounds
  import SP = ScorePipeline
  import RuleEngine

  // ----- The loops of the service and the functions they compute -----

  lemma {:induction false} WarningEventsSnoc(warnings: seq<RuleEngine.Rule>, w: RuleEngine.Rule, now: int)
    ensures WarningEvents(warnings + [w], now) == WarningEvents(warnings, now) + [Event(now, RuleWarning(w))]
  {
    if warnings == [] {
      assert [] + [w] == [w] && [w][1..] == [];
    } else {
      assert (warnings + [w])[1..] == warnings[1..] + [w];
      WarningEventsSnoc(warnings[1..], w, now);
    }
  }

  lemma {:induction false} WithoutNoteSnoc(notes: seq<Note>, n: Note, id: nat)
    ensures WithoutNote(notes + [n], id) == WithoutNote(notes, id) + if n.id == id then [] else [n]
  {
    if notes == [] {
      assert [] + [n] == [n] && [n][1..] == [];
    } else {
      assert (notes + [n])[1..] == notes[1..] + [n];
      WithoutNoteSnoc(notes[1..], n, id);
      var head, tail := if notes[0].id == id then [] else [notes[0]], if n.id == id then [] else [n];
      NotesAssoc(head, WithoutNote(notes[1..], id), tail);
    }
  }

  lemma NotesAssoc(a: seq<Note>, b: seq<Note>, c: seq<Note>)
    ensures a + (b + c) == (a + b) + c
  {
  }

  lemma {:induction false} WithoutNoteSize(notes: seq<Note>, id: nat)
    requires NotesUnique(notes)
    ensures |WithoutNote(notes, id)| == |notes| - if FindNote(notes, id) < |notes| then 1 else 0
  {
    if notes == [] {
    } else {
      WithoutNoteSize(notes[1..], id);
      var i := FindNote(notes[1..], id);
      assert i < |notes| - 1 ==> notes[1..][i] == notes[1 + i] && notes[1 + i].id != notes[0].id;
    }
  }

  /** The textual maximum after one more number. */
  lemma TextMaxSnoc(used: seq<string>, s: string)
    ensures TextMax(used + [s]) == if used == [] then s else if TextLess(TextMax(used), s) then s else TextMax(used)
  {
    var all := used + [s];
    if used == [] {
      assert all == [s];
    } else {
      var m := TextMax(used);
      var top := if TextLess(m, s) then s else m;
      forall x | x in all ensures !TextLess(top, x) {
        Irreflexive(s);
        if x in used {
          TextMaxIsMax(used, x);
          if TextLess(m, s) && TextLess(s, x) {
            TextTransitive(m, s, x);
          }
        }
      }
      assert top in all;
      TextMaxUnique(all, top);
    }
  }

  /** The unique indexes on numbers and results, as a look at the rows. */
  predicate Collides(cases: seq<Case>, no: CaseNo, resultId: string) {
    exists c :: c in cases && !c.deleted && (c.caseNo == no || c.resultId == resultId)
  }

  lemma CollidesIff(cases: seq<Case>, no: CaseNo, resultId: string)
    ensures Collides(cases, no, resultId) <==> no.number in DayNumbers(cases, no.day) || HasCase(cases, resultId)
  {
    DayNumbersAreInUse(cases, no.day, no.number);
    if HasCase(cases, resultId) {
      assert cases[FindResult(cases, resultId)] in cases;
    }
    if c :| c in cases && !c.deleted && (c.caseNo == no || c.resultId == resultId) {
      var i :| 0 <= i < |cases| && cases[i] == c;
      assert c.caseNo == no ==> OnDay(cases[i], no.day) && cases[i].caseNo.number == no.number;
      assert c.resultId == resultId ==> Matches(cases[i], resultId);
    }
  }

  lemma LatestGrows(cases: seq<Case>, i: nat, day: string)
    requires i < |cases|
    ensures DayNumbers(cases[..i + 1], day)
      == if OnDay(cases[i], day) then DayNumbers(cases[..i], day) + [cases[i].caseNo.number] else DayNumbers(cases[..i], day)
  {
    assert cases[..i + 1][..i] == cases[..i];
  }

  lemma FourParts(a: seq<Event>, b: seq<Event>, c: seq<Event>, d: seq<Event>, abc: seq<Event>)
    requires abc == a + b + c
    ensures abc + d == a + (b + c + d)
  {
  }

  /** The one live case of a result is the one the lookup finds. */
  lemma OnlyCaseOf(cases: seq<Case>, resultId: string, i: nat)
    requires TableInv(cases) && i < |cases| && Matches(cases[i], resultId)
    ensures i == FindResult(cases, resultId) && HasCase(cases, resultId)
  {
    forall k | 0 <= k < i ensures !Matches(cases[k], resultId) {
      assert cases[k].deleted || cases[k].resultId != cases[i].resultId;
    }
  }

  /** Case `d` is case `was` with one note more, the last one, and one timeline entry more. */
  predicate HasNewNote(was: Case, d: Case, noteId: nat, body: string, now: int) {
    var n := |was.notes|;
    && d == was.(notes := d.notes, timeline := d.timeline)
    && |d.notes| == n + 1 && d.notes[..n] == was.notes && d.notes[n].id == noteId
    && d.notes[n].body == Trim(body) && Tight(d.notes[n].body) && 0 < |d.notes[n].author| <= 100
    && d.notes[n].createdAt == now == d.notes[n].updatedAt
    && |d.timeline| == |was.timeline| + 1 && was.timeline <= d.timeline
    && (NotesUnique(was.notes) && FindNote(was.notes, noteId) == n ==> NotesUnique(d.notes) && FindNote(d.notes, noteId) == n)
  }

  lemma NewNoteFacts(noteId: nat, body: string, author: Option<string>, now: int)
    ensures var n := NewNote(noteId, body, author, now);
      n.id == noteId && n.body == Trim(body) && Tight(n.body) && 0 < |n.author| <= 100 && n.createdAt == now == n.updatedAt
  {
    TrimIsTight(body);
    var name := TrimmedOrNone(author);
    PrefixTight(if name.Some? then name.value else DEFAULT_AUTHOR, 100);
  }

  lemma AddedNoteFacts(c: Case, noteId: nat, body: string, author: Option<string>, now: int)
    ensures HasNewNote(c, Step(c, Op.AddNote(noteId, body, author), now), noteId, body, now)
  {
    NewNoteFacts(noteId, body, author, now);
    if NotesUnique(c.notes) && FindNote(c.notes, noteId) == |c.notes| {
      NotesStayUnique(c, Op.AddNote(noteId, body, author), now);
      WithoutFresh(c.notes, NewNote(noteId, body, author, now));
    }
  }

  /** Exactly the live cases of the search go, and nothing else of any row changes. */
  lemma RemovalFacts(cases: seq<Case>, history: string)
    ensures var after := WithoutSearch(cases, history);
      && |after| == |cases|
      && (forall i | 0 <= i < |after| :: Exists(after, i) <==> Exists(cases, i) && cases[i].historyId != history)
      && (forall i | 0 <= i < |after| :: after[i] == cases[i].(deleted := after[i].deleted))
  {
  }

  /**
   * What an insert does to the table, with the number read at `seen` and whatever others did until
   * then: the table stays in order, and an accepted case has a number of its own.
   */
  lemma InsertFacts(seen: seq<Case>, during: seq<TableOp>, r: Result, c: Creation)
    requires TableInv(seen)
    ensures var now := TableRun(seen, during); var made := FreshCase(now, seen, r, c);
      && TableInv(now) && TableContinues(seen, now)
      && (Insert(now, seen, r, c).Some? ==>
            && TableInv(now + [made]) && TableContinues(seen, now + [made]) && CaseInv(made)
            && (forall i | 0 <= i < |now| && Exists(now, i) :: now[i].caseNo != made.caseNo && now[i].resultId != made.resultId))
  {
    var now := TableRun(seen, during);
    TableRunKeepsInv(seen, during);
    if Insert(now, seen, r, c).Some? {
      InsertKeepsInv(now, seen, r, c);
      var made := FreshCase(now, seen, r, c);
      assert (now + [made])[|now|] == made;
      forall i | 0 <= i < |now| && Exists(now, i) ensures now[i].caseNo != made.caseNo && now[i].resultId != made.resultId {
        assert (now + [made])[i] == now[i];
      }
    }
  }

  /** The listing of a manual request has the one live case `c`. */
  predicate OnlyCaseIs(cases: seq<Case>, resultId: string, c: Case) {
    && HasCase(cases, resultId) && cases[FindResult(cases, resultId)] == c
    && forall i | 0 <= i < |cases| && Matches(cases[i], resultId) :: i == FindResult(cases, resultId)
  }

  lemma FoundIsOnly(cases: seq<Case>, resultId: string, i: nat)
    requires TableInv(cases) && i < |cases| && Matches(cases[i], resultId)
    ensures OnlyCaseIs(cases, resultId, cases[i])
  {
    OnlyCaseOf(cases, resultId, i);
    forall k | 0 <= k < |cases| && Matches(cases[k], resultId) ensures k == FindResult(cases, resultId) {
      OnlyCaseOf(cases, resultId, k);
    }
  }

  /** The outcome of an insert whose number was read at `seen`, before others did `during`. */
  predicate Inserted(seen: seq<Case>, during: seq<TableOp>, r: Result, c: Creation, made: Option<Case>, cases: seq<Case>) {
    var now := TableRun(seen, during);
    && cases == (if made.Some? then now + [made.value] else now)
    && Insert(now, seen, r, c) == (if made.Some? then Some(cases) else None)
    && (made.Some? ==> made.value == FreshCase(now, seen, r, c))
  }

  lemma InsertedIff(seen: seq<Case>, during: seq<TableOp>, r: Result, c: Creation, made: Option<Case>, cases: seq<Case>)
    requires var now := TableRun(seen, during); var row := FreshCase(now, seen, r, c);
      && cases == (if made.Some? then now + [row] else now) && (made.Some? ==> made.value == row)
      && (made.None? <==> Collides(now, NumberAfter(seen, c.day), r.id))
    ensures Inserted(seen, during, r, c, made, cases)
  {
    CollidesIff(TableRun(seen, during), NumberAfter(seen, c.day), r.id);
  }

  /** What the outcome means for the table and the new case. */
  lemma InsertedFacts(seen: seq<Case>, during: seq<TableOp>, r: Result, c: Creation, made: Option<Case>, cases: seq<Case>)
    requires TableInv(seen) && Inserted(seen, during, r, c, made, cases)
    ensures TableInv(cases) && TableContinues(seen, cases)
    ensures made.Some? ==>
      && made.value.resultId == r.id && made.value.status.Open? && CaseInv(made.value)
      && made.value.autoCreated == c.auto && made.value.watchlisted == c.watchlist
      && (forall i | 0 <= i < |cases| - 1 && Exists(cases, i) :: cases[i].caseNo != made.value.caseNo)
      && OnlyCaseIs(cases, r.id, made.value)
  {
    InsertFacts(seen, during, r, c);
    if made.Some? {
      FoundIsOnly(cases, r.id, |cases| - 1);
    }
  }

  /** The request passes all lookups, so that a case is to be created. */
  predicate ToBeCreated(cases: seq<Case>, m: ManualInput) {
    var answer := ManualAnswerTo(cases, m);
    answer.Made? || answer.InsertThrew?
  }

  /** When the insert of a manual request fails although it could have succeeded at once, and when it could not. */
  lemma ManualInsertFails(cases: seq<Case>, m: ManualInput, during: seq<TableOp>)
    requires TableInv(cases) && ToBeCreated(cases, m)
    ensures ManualAnswerTo(cases, m).InsertThrew? <==> exists k :: k >= WIDTH && DayBlocked(cases, m.day, k)
    ensures ManualAnswerTo(cases, m).Made? ==>
      (Insert(TableRun(cases, during), cases, ManualResult(m), ManualCreation(m)).None?
       <==> Overtakes(cases, TableRun(cases, during), ManualResult(m), m.day))
  {
    InsertFailsIff(cases, ManualResult(m), ManualCreation(m));
    if ManualAnswerTo(cases, m).Made? {
      LateInsertFailsIff(cases, during, ManualResult(m), ManualCreation(m));
    }
  }

  /**
   * The outcome of a request that passed its lookups: a fresh open case at the end of whatever the
   * others made of the table, or an exception, which comes exactly when a case new since then
   * took the number or the listing, or, on a day that was blocked already, possibly anyway.
   */
  ghost predicate ManualOutcome(seen: seq<Case>, m: ManualInput, during: seq<TableOp>, r: ManualAnswer, cases: seq<Case>)
    requires m.listing.Some? && m.history.Some?
  {
    var now := TableRun(seen, during);
    && (r.Made? || r.InsertThrew?)
    && cases == TableStep(now, LateInsert(seen, ManualResult(m), ManualCreation(m)))
    && cases == (if r.Made? then now + [r.c] else now)
    && (r.Made? ==> r.c.status.Open? && !r.c.autoCreated && !r.c.watchlisted)
    && (ManualAnswerTo(seen, m).InsertThrew? <==> exists k :: k >= WIDTH && DayBlocked(seen, m.day, k))
    && (ManualAnswerTo(seen, m).Made? ==> (r.InsertThrew? <==> Overtakes(seen, now, ManualResult(m), m.day)))
    && (during == [] ==> r == ManualAnswerTo(seen, m) && cases == TableStep(seen, Manual(m)))
  }

  lemma {:induction false} InsertedIsLate(seen: seq<Case>, during: seq<TableOp>, r: Result, c: Creation, made: Option<Case>, cases: seq<Case>)
    requires Inserted(seen, during, r, c, made, cases)
    ensures cases == TableStep(TableRun(seen, during), LateInsert(seen, r, c))
    ensures made.None? <==> Insert(TableRun(seen, during), seen, r, c).None?
  {
    LateStep(TableRun(seen, during), seen, r, c);
  }

  lemma {:induction false} LateStep(now: seq<Case>, seen: seq<Case>, r: Result, c: Creation)
    ensures TableStep(now, LateInsert(seen, r, c)) == if Insert(now, seen, r, c).Some? then Insert(now, seen, r, c).value else now
  {
  }

  /** Undisturbed, the request is the manual creation of the table. */
  lemma ManualAtOnce(seen: seq<Case>, m: ManualInput, made: Option<Case>, cases: seq<Case>)
    requires ToBeCreated(seen, m) && Inserted(seen, [], ManualResult(m), ManualCreation(m), made, cases)
    ensures ManualAnswerTo(seen, m) == if made.Some? then Made(made.value) else InsertThrew
    ensures cases == TableStep(seen, Manual(m))
  {
  }

  lemma {:induction false} ManualFacts(seen: seq<Case>, m: ManualInput, during: seq<TableOp>, made: Option<Case>, cases: seq<Case>)
    requires TableInv(seen) && ToBeCreated(seen, m)
    requires Inserted(seen, during, ManualResult(m), ManualCreation(m), made, cases)
    ensures ManualOutcome(seen, m, during, if made.Some? then Made(made.value) else InsertThrew, cases)
    ensures made.Some? ==> OnlyCaseIs(cases, m.resultId, made.value)
  {
    ManualInsertFails(seen, m, during);
    InsertedFacts(seen, during, ManualResult(m), ManualCreation(m), made, cases);
    InsertedIsLate(seen, during, ManualResult(m), ManualCreation(m), made, cases);
    if during == [] {
      ManualAtOnce(seen, m, made, cases);
    }
  }

  lemma AfterCreateIs(env: Env, desk: Desk, item: Item, watch: bool, warnings: seq<RuleEngine.Rule>, made: Option<Case>)
    requires var c := CreationOf(env, item, watch, warnings);
      && Insert(desk.cases, desk.cases, item.result, c) == (if made.Some? then Some(desk.cases + [made.value]) else None)
      && (made.Some? ==> made.value == FreshCase(desk.cases, desk.cases, item.result, c))
    ensures AfterCreate(env, desk, item, watch, warnings) ==
      if made.None? then None
      else Some(Desk(desk.cases + [made.value],
        desk.tally.(created := desk.tally.created + [made.value],
                    watchlisted := desk.tally.watchlisted + Bit(made.value.watchlisted))))
  {
  }

  /** What one accepted round of the automatic loop does to the table. */
  lemma RoundFacts(env: Env, desk: Desk, item: Item)
    requires TableInv(desk.cases) && AutoStep(env, desk, item).Some?
    ensures var after := AutoStep(env, desk, item).value.cases;
      && TableInv(after) && TableContinues(desk.cases, after) && AllTouched(desk.cases, after)
      && (Wanted(env, item) ==> HasCase(after, item.result.id))
  {
    AutoStepContinues(env, desk, item);
    StepTouches(env, desk, item);
    if Wanted(env, item) {
      StepServes(env, desk, item);
    }
  }

  class InvestigationService {
    var cases: seq<Case>

    ghost predicate Valid()
      reads this
    {
      TableInv(cases)
    }

    constructor ()
      ensures Valid() && cases == []
    {
      cases := [];
    }

    /** The answer to one operation on one case. */
    function Answer(id: nat, op: Op, now: int): Outcome<Case>
      reads this
    {
      if Exists(cases, id) then ApplyOp(cases[id], op, now) else Failed(CaseNotFound)
    }

    // ----- Operations on one case -----

    /** Refused unless the status stays or moves one step forward; a move is logged, staying is not. */
    method UpdateStatus(id: nat, next: Status, now: int) returns (r: Outcome<Case>)
      requires Valid()
      modifies this
      ensures Valid() && TableContinues(old(cases), cases)
      ensures r == old(Answer(id, Op.UpdateStatus(next), now))
      ensures cases == if r.Ok? then old(cases)[id := r.value] else old(cases)
      ensures r == Failed(CaseNotFound) <==> !Exists(old(cases), id)
      ensures Exists(old(cases), id) ==>
        (r.Ok? <==> 0 <= WorkflowIndex(next) - WorkflowIndex(old(cases)[id].status) <= 1)
      ensures r.Ok? ==> var was := old(cases)[id];
        r.value == was.(status := next,
          timeline := was.timeline + if next == was.status then [] else [Event(now, StatusChanged(was.status, next))])
    {
      TableStepKeepsInv(cases, OnCase(id, Op.UpdateStatus(next), now));
      TableStepContinues(cases, OnCase(id, Op.UpdateStatus(next), now));
      if id >= |cases| || cases[id].deleted {
        return Failed(CaseNotFound);
      }
      var row := cases[id];
      TransitionIsOneStep(row.status, next);
      IndexIsPosition(row.status);
      IndexIsPosition(next);
      if !CanTransitionStatus(row.status, next) {
        return Failed(IllegalTransition);
      }
      if row.status == next {
        assert row.timeline + [] == row.timeline;
        return Ok(row);
      }
      var timeline := row.timeline;
      timeline := timeline + [Event(now, StatusChanged(row.status, next))];
      row := row.(status := next);
      row := row.(timeline := timeline);
      cases := cases[id := row];
      r := Ok(row);
    }

    /** Stores what was asked for, keeps the rest, and logs the change of the assignee only. */
    method UpdateAssignment(id: nat, assignee: Edit<Option<string>>, priority: Edit<Priority>, dueDate: Edit<Option<int>>, now: int)
      returns (r: Outcome<Case>)
      requires Valid()
      modifies this
      ensures Valid() && TableContinues(old(cases), cases)
      ensures r == old(Answer(id, Op.UpdateAssignment(assignee, priority, dueDate), now))
      ensures cases == if r.Ok? then old(cases)[id := r.value] else old(cases)
      ensures r.Ok? <==> Exists(old(cases), id)
      ensures r.Ok? ==> var was, d := old(cases)[id], r.value;
        && d.assignee == (if assignee.Set? then assignee.value else was.assignee)
        && d.priority == (if priority.Set? then priority.value else was.priority)
        && d.dueDate == (if dueDate.Set? then dueDate.value else was.dueDate)
        && d == was.(assignee := d.assignee, priority := d.priority, dueDate := d.dueDate, timeline := d.timeline)
        && (d.timeline == was.timeline <==> d.assignee == was.assignee)
    {
      var op := Op.UpdateAssignment(assignee, priority, dueDate);
      TableStepKeepsInv(cases, OnCase(id, op, now));
      TableStepContinues(cases, OnCase(id, op, now));
      if id >= |cases| || cases[id].deleted {
        return Failed(CaseNotFound);
      }
      var row := cases[id];
      AssignmentIsExact(row, assignee, priority, dueDate, now);
      var timeline := row.timeline;
      var changed := false;
      if assignee.Set? && assignee.value != row.assignee {
        var prev := row.assignee;
        row := row.(assignee := assignee.value);
        timeline := timeline + [Event(now, AssigneeSet(prev, assignee.value))];
        changed := true;
      }
      if priority.Set? && priority.value != row.priority {
        row := row.(priority := priority.value);
        changed := true;
      }
      if dueDate.Set? && dueDate.value != row.dueDate {
        row := row.(dueDate := dueDate.value);
        changed := true;
      }
      if !changed {
        return Ok(row);
      }
      row := row.(timeline := timeline);
      cases := cases[id := row];
      r := Ok(row);
    }

    /**
     * The note comes last, trimmed, with a nonempty author of at most 100 characters, and leaves
     * one entry in the timeline; under a fresh identifier it is the one a lookup finds.
     */
    method AddNote(id: nat, noteId: nat, body: string, author: Option<string>, now: int) returns (r: Outcome<Case>)
      requires Valid()
      modifies this
      ensures Valid() && TableContinues(old(cases), cases)
      ensures r == old(Answer(id, Op.AddNote(noteId, body, author), now))
      ensures cases == if r.Ok? then old(cases)[id := r.value] else old(cases)
      ensures r.Ok? <==> Exists(old(cases), id)
      ensures r.Ok? ==> HasNewNote(old(cases)[id], r.value, noteId, body, now)
    {
      var op := Op.AddNote(noteId, body, author);
      TableStepKeepsInv(cases, OnCase(id, op, now));
      TableStepContinues(cases, OnCase(id, op, now));
      if id >= |cases| || cases[id].deleted {
        return Failed(CaseNotFound);
      }
      var row := cases[id];
      var name := TrimmedOrNone(author);
      var signed := Prefix(if name.Some? then name.value else DEFAULT_AUTHOR, 100);
      var note := Note(noteId, Trim(body), signed, now, now);
      AddedNoteFacts(row, noteId, body, author, now);
      var preview := if |note.body| > 120 then note.body[..117] + "..." else note.body;
      row := row.(notes := row.notes + [note]);
      row := row.(timeline := row.timeline + [Event(now, NoteAdded(preview))]);
      cases := cases[id := row];
      r := Ok(row);
    }

    /** `findIndex` over the notes; their number stands for its -1. */
    method NoteIndex(notes: seq<Note>, noteId: nat) returns (index: nat)
      ensures index == FindNote(notes, noteId)
    {
      index := 0;
      while index < |notes| && notes[index].id != noteId
        invariant index <= |notes| && forall j | 0 <= j < index :: notes[j].id != noteId
      {
        index := index + 1;
      }
    }

    /** Refused exactly for an unknown note; otherwise that note's text and time change and nothing else. */
    method UpdateNote(id: nat, noteId: nat, body: string, now: int) returns (r: Outcome<Case>)
      requires Valid()
      modifies this
      ensures Valid() && TableContinues(old(cases), cases)
      ensures r == old(Answer(id, Op.UpdateNote(noteId, body), now))
      ensures cases == if r.Ok? then old(cases)[id := r.value] else old(cases)
      ensures r.Ok? <==> Exists(old(cases), id) && exists n :: n in old(cases)[id].notes && n.id == noteId
      ensures r.Ok? ==> var was, d := old(cases)[id], r.value; var i := FindNote(was.notes, noteId);
        && d == was.(notes := d.notes) && i < |was.notes| == |d.notes|
        && d.notes[i] == was.notes[i].(body := Trim(body), updatedAt := now) && Tight(d.notes[i].body)
        && (forall j | 0 <= j < |was.notes| && j != i :: d.notes[j] == was.notes[j])
    {
      var op := Op.UpdateNote(noteId, body);
      TableStepKeepsInv(cases, OnCase(id, op, now));
      TableStepContinues(cases, OnCase(id, op, now));
      if id >= |cases| || cases[id].deleted {
        return Failed(CaseNotFound);
      }
      var row := cases[id];
      UpdatedNoteIsExact(row, noteId, body, now);
      TrimIsTight(body);
      var notes := row.notes;
      var index := NoteIndex(notes, noteId);
      if index == |notes| {
        return Failed(NoteNotFound);
      }
      assert notes[index] in notes;
      notes := notes[index := notes[index].(body := Trim(body), updatedAt := now)];
      row := row.(notes := notes);
      cases := cases[id := row];
      r := Ok(row);
    }

    /** The notes with another identifier, in order. */
    method KeepOtherNotes(notes: seq<Note>, noteId: nat) returns (kept: seq<Note>)
      ensures kept == WithoutNote(notes, noteId)
      ensures forall n :: n in kept <==> n in notes && n.id != noteId
      ensures NotesUnique(notes) ==> NotesUnique(kept) && |kept| == |notes| - if FindNote(notes, noteId) < |notes| then 1 else 0
    {
      kept := [];
      var i := 0;
      while i < |notes|
        invariant i <= |notes| && kept == WithoutNote(notes[..i], noteId)
      {
        WithoutNoteSnoc(notes[..i], notes[i], noteId);
        assert notes[..i + 1] == notes[..i] + [notes[i]];
        if notes[i].id != noteId {
          kept := kept + [notes[i]];
        }
        i := i + 1;
      }
      assert notes[..i] == notes;
      WithoutNoteIsExact(notes, noteId);
      if NotesUnique(notes) {
        WithoutNoteUnique(notes, noteId);
        WithoutNoteSize(notes, noteId);
      }
    }

    /**
     * Refused exactly for an unknown note; otherwise the notes with that identifier go, which is
     * one note as long as identifiers are distinct, and nothing else changes.
     */
    method DeleteNote(id: nat, noteId: nat, now: int) returns (r: Outcome<Case>)
      requires Valid()
      modifies this
      ensures Valid() && TableContinues(old(cases), cases)
      ensures r == old(Answer(id, Op.DeleteNote(noteId), now))
      ensures cases == if r.Ok? then old(cases)[id := r.value] else old(cases)
      ensures r.Ok? <==> Exists(old(cases), id) && exists n :: n in old(cases)[id].notes && n.id == noteId
      ensures r.Ok? ==> var was, d := old(cases)[id], r.value;
        && d == was.(notes := d.notes)
        && (forall n :: n in d.notes <==> n in was.notes && n.id != noteId)
        && (NotesUnique(was.notes) ==> NotesUnique(d.notes) && |d.notes| == |was.notes| - 1)
    {
      var op := Op.DeleteNote(noteId);
      TableStepKeepsInv(cases, OnCase(id, op, now));
      TableStepContinues(cases, OnCase(id, op, now));
      if id >= |cases| || cases[id].deleted {
        return Failed(CaseNotFound);
      }
      var row := cases[id];
      var index := NoteIndex(row.notes, noteId);
      if index == |row.notes| {
        return Failed(NoteNotFound);
      }
      assert row.notes[index] in row.notes;
      var notes := KeepOtherNotes(row.notes, noteId);
      row := row.(notes := notes);
      cases := cases[id := row];
      r := Ok(row);
    }

    /**
     * Refused exactly on archived cases; otherwise the case is completed with this decision, and
     * the timeline grows unless the very same decision stood already.
     */
    method ApplyFinalDecision(id: nat, decision: string, note: Option<string>, now: int) returns (r: Outcome<Case>)
      requires Valid()
      modifies this
      ensures Valid() && TableContinues(old(cases), cases)
      ensures r == old(Answer(id, Op.ApplyFinalDecision(decision, note), now))
      ensures cases == if r.Ok? then old(cases)[id := r.value] else old(cases)
      ensures r.Ok? <==> Exists(old(cases), id) && !old(cases)[id].status.Archived?
      ensures r.Ok? ==> var was, d := old(cases)[id], r.value;
        && d.status.Completed? && d.finalDecision == Some(decision) && d.finalDecisionNote == TrimmedOrNone(note)
        && (d == was <==> SameDecision(was, decision, note))
        && (d.timeline == was.timeline <==> SameDecision(was, decision, note))
        && (d != was ==> d.decidedAt == Some(now))
    {
      var op := Op.ApplyFinalDecision(decision, note);
      TableStepKeepsInv(cases, OnCase(id, op, now));
      TableStepContinues(cases, OnCase(id, op, now));
      if id >= |cases| || cases[id].deleted {
        return Failed(CaseNotFound);
      }
      var row := cases[id];
      DecisionCompletes(row, decision, note, now);
      if row.status.Archived? {
        return Failed(ArchivedCase);
      }
      var alreadyCompleted := row.status.Completed?;
      var nextNote := TrimmedOrNone(note);
      if alreadyCompleted && row.finalDecision == Some(decision) && row.finalDecisionNote == nextNote {
        return Ok(row);
      }
      var appended := [Event(now, FinalDecision(decision, nextNote))];
      if !alreadyCompleted {
        appended := appended + [Event(now, StatusChanged(row.status, Completed)), Event(now, CompletedCase)];
        row := row.(status := Completed);
      }
      row := row.(finalDecision := Some(decision), finalDecisionNote := nextNote, decidedAt := Some(now));
      row := row.(timeline := row.timeline + appended);
      assert alreadyCompleted ==> appended + [] == appended;
      assert row == DecisionApplied(old(cases)[id], decision, note, now).value;
      cases := cases[id := row];
      r := Ok(row);
    }

    /** Deleting a search takes exactly the cases linked to it and leaves the others as they were. */
    method RemoveCasesOf(history: string)
      requires Valid()
      modifies this
      ensures Valid() && TableContinues(old(cases), cases)
      ensures cases == TableStep(old(cases), DeleteSearch(history))
      ensures |cases| == |old(cases)|
      ensures forall i | 0 <= i < |cases| :: Exists(cases, i) <==> Exists(old(cases), i) && old(cases)[i].historyId != history
      ensures forall i | 0 <= i < |cases| :: cases[i] == old(cases)[i].(deleted := cases[i].deleted)
    {
      TableStepKeepsInv(cases, DeleteSearch(history));
      TableStepContinues(cases, DeleteSearch(history));
      RemovalFacts(cases, history);
      var i := 0;
      while i < |cases|
        invariant i <= |cases| == |old(cases)|
        invariant forall k | 0 <= k < |cases| :: cases[k] == if k < i then DeletedWith(old(cases)[k], history) else old(cases)[k]
      {
        if cases[i].historyId == history {
          cases := cases[i := cases[i].(deleted := true)];
        }
        i := i + 1;
      }
      assert cases == WithoutSearch(old(cases), history);
    }

    // ----- Creation -----

    /** The query for the textually last number of the day, and the number after it. */
    method NextCaseNumber(day: string) returns (no: CaseNo)
      ensures no == NumberAfter(cases, day) && IsPrinted(no.number)
    {
      var latest: Option<string> := None;
      var i := 0;
      while i < |cases|
        invariant i <= |cases|
        invariant var used := DayNumbers(cases[..i], day); latest == if used == [] then None else Some(TextMax(used))
      {
        LatestGrows(cases, i, day);
        if !cases[i].deleted && cases[i].caseNo.day == day {
          TextMaxSnoc(DayNumbers(cases[..i], day), cases[i].caseNo.number);
          if latest.None? || TextLess(latest.value, cases[i].caseNo.number) {
            latest := Some(cases[i].caseNo.number);
          }
        }
        i := i + 1;
      }
      assert cases[..i] == cases;
      NextIsPrinted(DayNumbers(cases, day));
      var sequence := 1;
      if latest.Some? {
        var n := ParseInt(latest.value);
        if n.Some? {
          sequence := n.value + 1;
        }
      }
      no := CaseNo(day, Print(sequence));
    }

    method LogWarnings(timeline: seq<Event>, warnings: seq<RuleEngine.Rule>, now: int) returns (t: seq<Event>)
      ensures t == timeline + WarningEvents(warnings, now)
    {
      t := timeline;
      var i := 0;
      while i < |warnings|
        invariant i <= |warnings| && t == timeline + WarningEvents(warnings[..i], now)
      {
        WarningEventsSnoc(warnings[..i], warnings[i], now);
        assert warnings[..i + 1] == warnings[..i] + [warnings[i]];
        t := t + [Event(now, RuleWarning(warnings[i]))];
        i := i + 1;
      }
      assert warnings[..i] == warnings;
    }

    method OpeningTimeline(r: Result, c: Creation, order: Option<string>) returns (timeline: seq<Event>)
      ensures timeline == OpeningEvents(r, c.history, c.job, c.auto, c.warnings, order, c.watchlist, c.analysis, c.now)
    {
      var scorePct := Percent(SP.ComputeAiScore(r.scores));
      timeline := [
        Event(c.now - 5 * MINUTE, SearchRun(NonEmpty(c.history.keyword))),
        Event(c.now - MINUTE, AiAnalysis(scorePct, r.reason)),
        Event(c.now, Created(c.auto, c.watchlist))];
      ghost var opening := timeline;
      timeline := LogWarnings(timeline, c.warnings, c.now);
      if order.Some? {
        timeline := timeline + [Event(c.now, OrderMapped(order.value, JobId(c.job)))];
      }
      ghost var mapped := timeline;
      timeline := LogAnalysis(timeline, c.analysis, c.now);
      FourParts(opening, WarningEvents(c.warnings, c.now), MappedEvents(order, c.job, c.now), AnalysisEvents(c.analysis, c.now), mapped);
    }

    method LogAnalysis(timeline: seq<Event>, analysis: Option<Analysis>, now: int) returns (t: seq<Event>)
      ensures t == timeline + AnalysisEvents(analysis, now)
    {
      t := timeline;
      if analysis.Some? {
        t := t + [Event(now, Summary(analysis.value.summary))];
        if analysis.value.reasons != [] {
          t := t + [Event(now, Reasons(analysis.value.reasons))];
        }
        if analysis.value.recommendation.Some? {
          t := t + [Event(now, Recommendation(analysis.value.recommendation.value))];
        }
      }
    }

    /** The entity for a result, under a number read before. */
    method NewRow(no: CaseNo, r: Result, c: Creation, ghost seen: seq<Case>) returns (row: Case)
      requires no == NumberAfter(seen, c.day)
      ensures row == FreshCase(cases, seen, r, c)
    {
      var order := JobOrder(c.job);
      if order.None? {
        order := TrimmedOrNone(c.orderOverride);
      }
      var timeline := OpeningTimeline(r, c, order);
      var score := SP.ComputeAiScore(r.scores);
      row := Case(|cases|, no, r.id, r.listing, score, Open, PriorityFromScore(score), None, c.history.id, JobId(c.job), order,
        c.auto, c.watchlist, timeline, [], None, None, None, None, false);
    }

    /** What others do to the table while this handler waits. */
    method RunOthers(ops: seq<TableOp>)
      modifies this
      ensures cases == TableRun(old(cases), ops)
    {
      var i := 0;
      while i < |ops|
        invariant i <= |ops| && TableRun(cases, ops[i..]) == TableRun(old(cases), ops)
      {
        assert ops[i..][0] == ops[i] && ops[i..][1..] == ops[i + 1..];
        cases := TableStep(cases, ops[i]);
        i := i + 1;
      }
    }

    /**
     * Reads the number, waits for the analysis while others go on, and inserts the case, or nothing
     * when a unique index rejects it.
     */
    method CreateCaseFromResult(r: Result, c: Creation, during: seq<TableOp>) returns (made: Option<Case>)
      requires Valid()
      modifies this
      ensures Valid() && TableContinues(old(cases), cases)
      ensures Inserted(old(cases), during, r, c, made, cases)
      ensures made.Some? ==> made.value.resultId == r.id && made.value.status.Open? && CaseInv(made.value)
      ensures made.Some? ==> forall i | 0 <= i < |cases| - 1 && Exists(cases, i) :: cases[i].caseNo != made.value.caseNo
    {
      ghost var seen := cases;
      var no := NextCaseNumber(c.day);
      RunOthers(during);
      var row := NewRow(no, r, c, seen);
      var ok := InsertRow(row);
      made := if ok then Some(row) else None;
      InsertedIff(seen, during, r, c, made, cases);
      InsertedFacts(seen, during, r, c, made, cases);
    }

    /** The insert under the unique indexes. */
    method InsertRow(row: Case) returns (ok: bool)
      modifies this
      ensures ok <==> !Collides(old(cases), row.caseNo, row.resultId)
      ensures cases == if ok then old(cases) + [row] else old(cases)
    {
      ok := !exists x :: x in cases && !x.deleted && (x.caseNo == row.caseNo || x.resultId == row.resultId);
      if ok {
        cases := cases + [row];
      }
    }

    /**
     * A refusal, or a case that is there already, leaves the table as it was. Otherwise others may
     * act while the analysis is awaited: the new case is the listing's only one, or the insert
     * throws, which it does exactly when another case took its number or its listing meanwhile or
     * the day was blocked from the start.
     */
    method CreateManual(m: ManualInput, during: seq<TableOp>) returns (r: ManualAnswer)
      requires Valid()
      modifies this
      ensures Valid() && TableContinues(old(cases), cases)
      ensures r.ExistingCase? <==> HasCase(old(cases), m.resultId)
      ensures r.Made? || r.InsertThrew? <==> ToBeCreated(old(cases), m)
      ensures r.ExistingCase? || r.Made? ==> OnlyCaseIs(cases, m.resultId, r.c)
      ensures !ToBeCreated(old(cases), m) ==> r == ManualAnswerTo(old(cases), m) && cases == old(cases)
      ensures ToBeCreated(old(cases), m) ==> ManualOutcome(old(cases), m, during, r, cases)
    {
      InsertContinuesNothing(cases);
      var index := FindResult(cases, m.resultId);
      if index < |cases| {
        FoundIsOnly(cases, m.resultId, index);
        return ExistingCase(cases[index]);
      }
      if m.listing.None? {
        return ResultNotFound;
      }
      if m.historyId.None? {
        return HistoryRequired;
      }
      if m.history.None? {
        return HistoryNotFound;
      }
      if m.jobRequested && m.job.None? {
        return JobNotFound;
      }
      var made := CreateCaseFromResult(ManualResult(m), ManualCreation(m), during);
      r := if made.Some? then Made(made.value) else InsertThrew;
      ManualFacts(old(cases), m, during, made, cases);
    }

    // ----- The automatic run -----

    /** A row refreshed from a new result: score entry, warnings, order if it changes. */
    method RefreshedRow(row: Case, r: Result, history: string, job: Option<Job>, warnings: seq<RuleEngine.Rule>, watch: bool, now: int)
      returns (d: Case)
      ensures d == ScoreRefreshed(row, r, history, job, warnings, watch, now)
    {
      var score := SP.ComputeAiScore(r.scores);
      var order := JobOrder(job);
      if order.None? {
        order := NonEmpty(row.orderNo);
      }
      var timeline := RefreshTimeline(row, score, order, job, warnings, watch, now);
      var listing := r.listing;
      if listing.image.None? {
        listing := listing.(image := row.listing.image);
      }
      if listing.price.None? {
        listing := listing.(price := row.listing.price);
      }
      var jobId := if job.Some? then Some(job.value.id) else row.jobId;
      d := row.(listing := listing, aiScore := score, priority := PriorityFromScore(score), historyId := history, jobId := jobId,
        orderNo := order, watchlisted := watch, timeline := timeline);
    }

    method RefreshTimeline(row: Case, score: real, order: Option<string>, job: Option<Job>, warnings: seq<RuleEngine.Rule>, watch: bool, now: int)
      returns (timeline: seq<Event>)
      ensures timeline == row.timeline + (
        [Event(now, ScoreUpdated(Percent(score), Percent(row.aiScore), watch))]
        + WarningEvents(warnings, now)
        + (if order != row.orderNo then MappedEvents(order, job, now) else []))
    {
      timeline := row.timeline + [Event(now, ScoreUpdated(Percent(score), Percent(row.aiScore), watch))];
      timeline := LogWarnings(timeline, warnings, now);
      if order.Some? && order != row.orderNo {
        timeline := timeline + [Event(now, OrderMapped(order.value, JobId(job)))];
      }
    }

    /** One round of the automatic run: the counters afterwards, or the insert threw. */
    method HandleResult(env: Env, item: Item, tally: Tally) returns (t: Tally, threw: bool)
      requires Valid()
      modifies this
      ensures Valid() && TableContinues(old(cases), cases)
      ensures threw ==> cases == old(cases) && t == tally
      ensures AutoStep(env, Desk(old(cases), tally), item) == if threw then None else Some(Desk(cases, t))
      ensures !threw ==> AllTouched(old(cases), cases) && (Wanted(env, item) ==> HasCase(cases, item.result.id))
      ensures !threw ==> RoundOf(env, Desk(old(cases), tally), item, Desk(cases, t))
      ensures threw ==> FateOf(env, old(cases), item).Makes?
    {
      ghost var desk := Desk(cases, tally);
      RoundIsExact(env, desk, item);
      t, threw := DecideResult(env, item, tally);
      InsertContinuesNothing(desk.cases);
      if !threw {
        RoundFacts(env, desk, item);
      }
    }

    method DecideResult(env: Env, item: Item, tally: Tally) returns (t: Tally, threw: bool)
      requires Valid()
      modifies this
      ensures threw ==> cases == old(cases) && t == tally
      ensures AutoStep(env, Desk(old(cases), tally), item) == if threw then None else Some(Desk(cases, t))
    {
      t, threw := tally, false;
      var decision := Decision(env, item);
      if decision.Excluded? {
        t := HandleExcluded(env, item, tally, decision.matched);
        return;
      }
      var warnings := decision.warnings;
      if warnings != [] {
        t := t.(warned := t.warned + 1);
      }
      assert Desk(cases, t) == Warned(Desk(cases, tally), warnings);
      if decision.NotCreated? {
        t := t.(skipped := t.skipped + 1);
        return;
      }
      t, threw := OpenCase(env, item, t, decision.watchlisted, warnings);
      if threw {
        t := tally;
      }
    }

    /** An excluded result: recorded on its case if it has one, counted twice. */
    method HandleExcluded(env: Env, item: Item, tally: Tally, matched: seq<RuleEngine.Rule>) returns (t: Tally)
      modifies this
      ensures Desk(cases, t) == AfterExclude(env, Desk(old(cases), tally), item, matched)
    {
      if IsAiResult(item.result) {
        var index := FindResult(cases, item.result.id);
        if index < |cases| {
          var row := cases[index];
          var order := JobOrder(env.job);
          if order.None? {
            order := NonEmpty(row.orderNo);
          }
          if env.job.Some? {
            row := row.(jobId := Some(env.job.value.id));
          }
          row := row.(orderNo := order);
          row := row.(timeline := row.timeline + [Event(item.now, ExcludeRecommended(ExcludeScore(item.result), matched))]);
          cases := cases[index := row];
        }
      }
      t := tally.(excluded := tally.excluded + 1);
      t := t.(skipped := t.skipped + 1);
    }

    method RefreshCase(env: Env, item: Item, tally: Tally, index: nat, watch: bool, warnings: seq<RuleEngine.Rule>) returns (t: Tally)
      requires index < |cases|
      modifies this
      ensures Desk(cases, t) == AfterUpdate(env, Desk(old(cases), tally), item, index, watch, warnings)
    {
      var row := RefreshedRow(cases[index], item.result, env.history.id, env.job, warnings, watch, item.now);
      cases := cases[index := row];
      t := tally.(updated := tally.updated + [row]);
      if row.watchlisted {
        t := t.(watchlisted := t.watchlisted + 1);
      }
    }

    /** A result to open: refresh its case while Open, skip it when taken over, or create it. */
    method OpenCase(env: Env, item: Item, tally: Tally, watch: bool, warnings: seq<RuleEngine.Rule>)
      returns (t: Tally, threw: bool)
      requires Valid()
      modifies this
      ensures threw ==> cases == old(cases)
      ensures Opening(env, Desk(old(cases), tally), item, watch, warnings) == if threw then None else Some(Desk(cases, t))
    {
      t, threw := tally, false;
      var index := FindResult(cases, item.result.id);
      if index == |cases| {
        t, threw := CreateCase(env, item, tally, watch, warnings);
      } else if !IsAiResult(item.result) || !cases[index].status.Open? {
        t := t.(skipped := t.skipped + 1);
      } else {
        t := RefreshCase(env, item, tally, index, watch, warnings);
      }
    }

    method CreateCase(env: Env, item: Item, tally: Tally, watch: bool, warnings: seq<RuleEngine.Rule>) returns (t: Tally, threw: bool)
      requires Valid()
      modifies this
      ensures threw ==> cases == old(cases)
      ensures AfterCreate(env, Desk(old(cases), tally), item, watch, warnings) == if threw then None else Some(Desk(cases, t))
    {
      var made := CreateCaseFromResult(item.result, CreationOf(env, item, watch, warnings), []);
      AfterCreateIs(env, Desk(old(cases), tally), item, watch, warnings, made);
      if made.None? {
        return tally, true;
      }
      t, threw := tally.(created := tally.created + [made.value]), false;
      if made.value.watchlisted {
        t := t.(watchlisted := t.watchlisted + 1);
      }
    }

    /**
     * The automatic run after a search, result by result; `threw` reports the insert that failed,
     * and what was saved before it stays. Every result is counted once, as many rows are added as
     * are reported created, cases that were there are refreshed or relinked at most, every result
     * the rules open has its case, and nothing is created iff all of them had one.
     */
    method AutoCreateFromSearch(
        enabled: bool, history: Option<History>, settings: SP.Settings, rental: Option<real>, job: Option<Job>, items: seq<Item>)
      returns (result: Tally, threw: bool)
      requires Valid()
      modifies this
      ensures Valid() && TableContinues(old(cases), cases) && AllTouched(old(cases), cases)
      ensures !enabled || history.None? ==> cases == old(cases) && result == EMPTY_TALLY && !threw
      ensures enabled && history.Some? ==>
        AutoRun(Env(settings, rental, history.value, job), Desk(old(cases), EMPTY_TALLY), items)
          == AutoEnd(Desk(cases, result), threw)
      ensures |cases| == |old(cases)| + |result.created|
      ensures enabled && history.Some? && !threw ==>
        && |result.created| + |result.updated| + result.skipped == |items|
        && result.excluded <= result.skipped
        && result.watchlisted == WatchCount(result.created) + WatchCount(result.updated)
        && AllServed(Env(settings, rental, history.value, job), cases, items)
      ensures enabled && history.Some? ==>
        (!threw && result.created == [] <==> AllServed(Env(settings, rental, history.value, job), old(cases), items))
      ensures enabled && history.Some? ==>
        var env := Env(settings, rental, history.value, job);
        && InRounds(env, Desk(old(cases), EMPTY_TALLY), items, Desk(cases, result), threw)
        && (!threw ==> Counts(result, env, old(cases), items, |items|))
        && (!threw ==> forall k | ServesLast(env, old(cases), items, k, |items|) :: Shown(env, cases, items[k]))
    {
      if !enabled || history.None? {
        InsertContinuesNothing(cases);
        return EMPTY_TALLY, false;
      }
      var env := Env(settings, rental, history.value, job);
      AutoFacts(env, cases, items);
      AutoRounds(env, cases, items);
      result, threw := HandleResults(env, items);
    }

    /** The loop over the results. */
    method HandleResults(env: Env, items: seq<Item>) returns (result: Tally, threw: bool)
      requires Valid()
      modifies this
      ensures Valid() && AutoRun(env, Desk(old(cases), EMPTY_TALLY), items) == AutoEnd(Desk(cases, result), threw)
    {
      ghost var run := AutoRun(env, Desk(cases, EMPTY_TALLY), items);
      result, threw := EMPTY_TALLY, false;
      var i := 0;
      while i < |items|
        invariant i <= |items| && !threw && Valid()
        invariant run == AutoRun(env, Desk(cases, result), items[i..])
      {
        assert items[i..][0] == items[i] && items[i..][1..] == items[i + 1..];
        result, threw := HandleResult(env, items[i], result);
        if threw {
          return;
        }
        i := i + 1;
      }
    }
  }

  lemma InsertContinuesNothing(cases: seq<Case>)
    ensures TableContinues(cases, cases) && AllTouched(cases, cases)
  {
    forall i | 0 <= i < |cases| ensures AutoTouches(cases[i], cases[i]) {}
  }

  /** What an automatic run amounts to, finished or broken off. */
  lemma AutoFacts(env: Env, cases: seq<Case>, items: seq<Item>)
    requires TableInv(cases)
    ensures var e := AutoRun(env, Desk(cases, EMPTY_TALLY), items); var t := e.desk.tally;
      && TableInv(e.desk.cases) && TableContinues(cases, e.desk.cases) && AllTouched(cases, e.desk.cases)
      && |e.desk.cases| == |cases| + |t.created|
      && (!e.failed && t.created == [] <==> AllServed(env, cases, items))
      && (!e.failed ==> |t.created| + |t.updated| + t.skipped == |items| && t.excluded <= t.skipped
                        && t.watchlisted == WatchCount(t.created) + WatchCount(t.updated))
      && (!e.failed ==> AllServed(env, e.desk.cases, items))
  {
    var desk := Desk(cases, EMPTY_TALLY);
    AutoKeepsInv(env, desk, items);
    AllAutoContinue(env, cases, items);
    RunTouches(env, desk, items);
    CreatesNothingIff(env, cases, items);
    if !AutoRun(env, desk, items).failed {
      CountsAddUp(env, cases, items);
      forall k | 0 <= k < |items| && Wanted(env, items[k]) ensures HasCase(AutoRun(env, desk, items).desk.cases, items[k].result.id) {
        RunServes(env, desk, items, k);
      }
    }
  }

  /** The same round by round, and counted from the inputs. */
  lemma AutoRounds(env: Env, cases: seq<Case>, items: seq<Item>)
    requires TableInv(cases)
    ensures var e := AutoRun(env, Desk(cases, EMPTY_TALLY), items);
      && InRounds(env, Desk(cases, EMPTY_TALLY), items, e.desk, e.failed)
      && (!e.failed ==> Counts(e.desk.tally, env, cases, items, |items|))
      && (!e.failed ==> forall k | ServesLast(env, cases, items, k, |items|) :: Shown(env, e.desk.cases, items[k]))
  {
    var desk := Desk(cases, EMPTY_TALLY);
    var desks := RunIsChain(env, desk, items);
    if !AutoRun(env, desk, items).failed {
      TallyIsExact(env, cases, items);
      forall k | ServesLast(env, cases, items, k, |items|) ensures Shown(env, AutoRun(env, desk, items).desk.cases, items[k]) {
        LastServedIsShown(env, cases, items, k);
      }
    }
  }
}
