/**
 * The BackOffice callback of a Search Job over whole runs: what always holds, and that a report
 * can succeed twice exactly when a second call begins while another one is under way.
 */
module SearchJobCallback {
  import opened Common
  import opened SearchJobStatus
  import opened SearchJobProtocol
  import opened SearchJobTheorems

  predicate AnyInFlight(attempts: seq<Attempt>) {
    exists a :: a in attempts && a.outcome.None?
  }

  lemma UnderWayIsInFlight(attempts: seq<Attempt>, call: nat)
    ensures InFlight(attempts, call) ==> AnyInFlight(attempts)
  {
    if InFlight(attempts, call) {
      assert attempts[call] in attempts;
    }
  }

  /** The event starts a callback: it gets past the check of its sender. */
  predicate Begins(cfg: Config, s: State, e: Event) {
    |Step(cfg, s, e).attempts| > |s.attempts|
  }

  /** The event saves the outcome of the call under way at position `call`. */
  predicate Ends(s: State, e: Event, call: nat) {
    && InFlight(s.attempts, call)
    && if s.report == Sending(call) then e.ReportEnds? else e.ResendEnds? && e.call == call
  }

  /** No call of the run begins while another one is under way. */
  predicate Sequential(cfg: Config, s: State, events: seq<Event>)
    decreases |events|
  {
    events == [] ||
    (&& (Begins(cfg, s, events[0]) ==> !AnyInFlight(s.attempts))
     && Sequential(cfg, Step(cfg, s, events[0]), events[1..]))
  }

  /** What one call at a time adds to the invariant. */
  predicate OneAtATime(s: State) {
    && DeliveredCount(s.attempts) <= 1
    && (s.job.callbackSentAt.Some? ==> s.job.callbackError.None? && !AnyInFlight(s.attempts))
    && (forall i, j :: 0 <= i < j < |s.attempts| ==> !InFlight(s.attempts, i) || !InFlight(s.attempts, j))
  }

  // ----- What a step does to the callbacks -----

  lemma StepBegins(cfg: Config, s: State, e: Event)
    requires Inv(s) && Begins(cfg, s, e)
    ensures Step(cfg, s, e).attempts == s.attempts + [Attempt(s.job.status, None)]
    ensures Step(cfg, s, e).job == s.job && s.phase.Stopped?
    ensures e.ReportBegins? || e.ResendBegins?
    ensures s.job.callbackSentAt.None? || s.job.callbackError.Some?
    ensures Step(cfg, s, e).report == if e.ReportBegins? then Sending(|s.attempts|) else s.report
  {
  }

  lemma StepEnds(cfg: Config, s: State, e: Event, call: nat)
    requires Inv(s) && Ends(s, e, call)
    ensures Step(cfg, s, e).attempts == s.attempts[call := s.attempts[call].(outcome := Some(e.delivery))]
    ensures Step(cfg, s, e).job == Reported(s.job, e.at, e.delivery)
    ensures Step(cfg, s, e).report == if s.report == Sending(call) then NotDue else s.report
  {
  }

  /** Every other step leaves the calls and the callback fields alone. */
  lemma StepElse(cfg: Config, s: State, e: Event)
    requires Inv(s) && !Begins(cfg, s, e)
    requires forall call: nat :: !Ends(s, e, call)
    ensures Step(cfg, s, e).attempts == s.attempts
    ensures Step(cfg, s, e).job.callbackSentAt == s.job.callbackSentAt
    ensures Step(cfg, s, e).job.callbackError == s.job.callbackError
  {
    assert s.report.Sending? ==> !Ends(s, e, s.report.call);
    assert e.ResendEnds? ==> !Ends(s, e, e.call);
  }

  /** `m` shortened to its first 1000 characters. */
  predicate IsShortened(text: string, m: string) {
    text <= m && |text| <= 1000 && (|text| < 1000 ==> text == m)
  }

  /** The automatic report calls iff it is due and no success is stored; it is tried once. */
  lemma ReportBeginsIff(cfg: Config, s: State)
    requires Inv(s)
    ensures var t := Step(cfg, s, ReportBegins);
      && (Begins(cfg, s, ReportBegins) <==> s.report.Due? && s.job.callbackSentAt.None?)
      && t.job == s.job && t.rows == s.rows && t.phase == s.phase
      && (!Begins(cfg, s, ReportBegins) ==> t == s.(report := if s.report.Due? then NotDue else s.report))
  {
  }

  /**
   * A resend calls iff the job is completed or partial and no success is stored, or one beside a
   * nonempty error; otherwise nothing changes.
   */
  lemma ResendBeginsIff(cfg: Config, s: State)
    requires Inv(s)
    ensures var t := Step(cfg, s, ResendBegins);
      && (Begins(cfg, s, ResendBegins) <==>
            && (s.job.status.Completed? || s.job.status.Partial?)
            && (s.job.callbackSentAt.None? || (s.job.callbackError.Some? && s.job.callbackError.value != "")))
      && t == s.(attempts := t.attempts)
      && (!Begins(cfg, s, ResendBegins) ==> t == s)
  {
  }

  /**
   * What the end of a call stores: its time and no error for a success, the shortened message
   * for a rejection beside the time that was there, nothing when the callback is switched off.
   */
  lemma CallEndsExactly(cfg: Config, s: State, e: Event, call: nat)
    requires Inv(s) && Ends(s, e, call)
    ensures var t := Step(cfg, s, e);
      && t.job == s.job.(callbackSentAt := t.job.callbackSentAt, callbackError := t.job.callbackError)
      && (e.delivery.Delivered? ==> t.job.callbackSentAt == Some(e.at) && t.job.callbackError.None?)
      && (e.delivery.Disabled? ==> t.job == s.job)
      && (e.delivery.Rejected? ==>
            && t.job.callbackSentAt == s.job.callbackSentAt
            && t.job.callbackError.Some? && IsShortened(t.job.callbackError.value, e.delivery.message))
      && |t.attempts| == |s.attempts| && t.attempts[call] == Attempt(s.attempts[call].status, Some(e.delivery))
      && (forall i :: 0 <= i < |s.attempts| && i != call ==> t.attempts[i] == s.attempts[i])
  {
    StepEnds(cfg, s, e, call);
  }

  lemma StepKeepsOneAtATime(cfg: Config, s: State, e: Event)
    requires Inv(s) && OneAtATime(s) && (Begins(cfg, s, e) ==> !AnyInFlight(s.attempts))
    ensures OneAtATime(Step(cfg, s, e))
  {
    if Begins(cfg, s, e) {
      StepBegins(cfg, s, e);
      DeliveredAppend(s.attempts, Attempt(s.job.status, None));
      forall i: nat | i < |s.attempts| ensures !InFlight(s.attempts, i) {
        UnderWayIsInFlight(s.attempts, i);
      }
    } else if call: nat :| Ends(s, e, call) {
      EndKeepsOneAtATime(cfg, s, e, call);
    } else {
      StepElse(cfg, s, e);
    }
  }

  lemma EndKeepsOneAtATime(cfg: Config, s: State, e: Event, call: nat)
    requires Inv(s) && OneAtATime(s) && Ends(s, e, call)
    ensures OneAtATime(Step(cfg, s, e))
  {
    StepEnds(cfg, s, e, call);
    assert s.attempts[call] in s.attempts;
    DeliveredUpdate(s.attempts, call, s.attempts[call].(outcome := Some(e.delivery)));
    var ended := Step(cfg, s, e).attempts;
    forall a | a in ended ensures a.outcome.Some? {
      var i :| 0 <= i < |ended| && ended[i] == a;
      if i != call && a.outcome.None? {
        assert InFlight(s.attempts, i) && InFlight(s.attempts, call);
      }
    }
    forall i: nat ensures !InFlight(ended, i) {
      UnderWayIsInFlight(ended, i);
    }
  }

  lemma {:induction false} RunKeepsOneAtATime(cfg: Config, s: State, events: seq<Event>)
    requires Inv(s) && OneAtATime(s) && Sequential(cfg, s, events)
    ensures OneAtATime(Run(cfg, s, events))
    decreases |events|
  {
    if events == [] {
    } else {
      StepKeepsInv(cfg, s, events[0]);
      StepKeepsOneAtATime(cfg, s, events[0]);
      RunKeepsOneAtATime(cfg, Step(cfg, s, events[0]), events[1..]);
    }
  }

  // ----- At most once -----

  /**
   * Over every run of a new job: calls are made for a completed or partial job only, a success
   * is recorded exactly when one was delivered, and as long as no call begins while another one
   * is under way at most one succeeds and a recorded success excludes a recorded error.
   */
  lemma CallbackAtMostOnce(cfg: Config, events: seq<Event>)
    ensures var s := Run(cfg, Initial(), events);
      && (forall a :: a in s.attempts ==> a.status == s.job.status && (a.status.Completed? || a.status.Partial?))
      && (s.job.callbackSentAt.Some? <==> DeliveredCount(s.attempts) > 0)
      && (Sequential(cfg, Initial(), events) ==>
            DeliveredCount(s.attempts) <= 1 && (s.job.callbackSentAt.Some? ==> s.job.callbackError.None?))
  {
    RunKeepsInv(cfg, Initial(), events);
    if Sequential(cfg, Initial(), events) {
      RunKeepsOneAtATime(cfg, Initial(), events);
    }
  }

  /** Without another overlap, two calls may still both succeed from here. */
  ghost predicate CanSucceedTwice(cfg: Config, s: State) {
    exists events :: Sequential(cfg, s, events) && DeliveredCount(Run(cfg, s, events).attempts) >= 2
  }

  lemma OverlapDecides(cfg: Config, s: State, e: Event)
    requires Inv(s) && OneAtATime(s) && Begins(cfg, s, e)
    ensures CanSucceedTwice(cfg, Step(cfg, s, e)) <==> AnyInFlight(s.attempts)
  {
    var t := Step(cfg, s, e);
    StepKeepsInv(cfg, s, e);
    if AnyInFlight(s.attempts) {
      var a :| a in s.attempts && a.outcome.None?;
      var call: nat :| call < |s.attempts| && s.attempts[call] == a;
      StepBegins(cfg, s, e);
      BothSucceed(cfg, t, call, |s.attempts|);
    } else {
      StepKeepsOneAtATime(cfg, s, e);
      forall events | Sequential(cfg, t, events) ensures DeliveredCount(Run(cfg, t, events).attempts) < 2 {
        RunKeepsOneAtATime(cfg, t, events);
      }
    }
  }

  /**
   * The exact gap: in every run of a new job whose calls came one at a time so far, once the call
   * that begins with `e` is under way two calls can both succeed without any further overlap iff
   * another call was under way when it began.
   */
  lemma TwoSucceedIffOverlap(cfg: Config, events: seq<Event>, e: Event)
    requires Sequential(cfg, Initial(), events) && Begins(cfg, Run(cfg, Initial(), events), e)
    ensures CanSucceedTwice(cfg, Run(cfg, Initial(), events + [e])) <==> AnyInFlight(Run(cfg, Initial(), events).attempts)
  {
    RunKeepsInv(cfg, Initial(), events);
    RunKeepsOneAtATime(cfg, Initial(), events);
    RunSnoc(cfg, Initial(), events, e);
    OverlapDecides(cfg, Run(cfg, Initial(), events), e);
  }

  function SuccessOf(s: State, call: nat): Event {
    if s.report == Sending(call) then ReportEnds(0, Delivered) else ResendEnds(call, 0, Delivered)
  }

  lemma SuccessAt(cfg: Config, s: State, e: Event, call: nat)
    requires Inv(s) && Ends(s, e, call) && e.delivery == Delivered
    ensures var t := Step(cfg, s, e);
      && Inv(t) && DeliveredCount(t.attempts) == DeliveredCount(s.attempts) + 1
      && |t.attempts| == |s.attempts|
      && (forall i: nat :: i != call && InFlight(s.attempts, i) ==> InFlight(t.attempts, i))
      && t.report == if s.report == Sending(call) then NotDue else s.report
  {
    StepKeepsInv(cfg, s, e);
    StepEnds(cfg, s, e, call);
    DeliveredUpdate(s.attempts, call, s.attempts[call].(outcome := Some(Delivered)));
  }

  /** Two calls under way can both be accepted by the other side. */
  lemma BothSucceed(cfg: Config, s: State, a: nat, b: nat)
    requires Inv(s) && InFlight(s.attempts, a) && InFlight(s.attempts, b) && a != b
    ensures CanSucceedTwice(cfg, s)
  {
    var first := SuccessOf(s, a);
    var t := Step(cfg, s, first);
    SuccessAt(cfg, s, first, a);
    var second := SuccessOf(t, b);
    SuccessAt(cfg, t, second, b);
    var u := Step(cfg, t, second);
    assert [first, second][1..] == [second] && [second][1..] == [];
    assert Run(cfg, t, [second]) == Run(cfg, u, []);
    assert Run(cfg, s, [first, second]) == Run(cfg, t, [second]);
    assert Sequential(cfg, u, []);
    assert Sequential(cfg, t, [second]);
    assert Sequential(cfg, s, [first, second]);
  }

  // ----- A finished report -----

  /** Nothing is sent, under way, or recorded any more. */
  predicate ReportStands(s: State) {
    s.job.callbackSentAt.Some? && s.job.callbackError.None? && !AnyInFlight(s.attempts)
  }

  /** Once a success stands without an error and no call is under way, nothing is ever sent again. */
  lemma {:induction false} SuccessIsFinal(cfg: Config, s: State, events: seq<Event>)
    requires Inv(s) && ReportStands(s)
    ensures var t := Run(cfg, s, events);
      && t.attempts == s.attempts
      && t.job.callbackSentAt == s.job.callbackSentAt && t.job.callbackError.None?
    decreases |events|
  {
    if events == [] {
    } else {
      var e := events[0];
      StepKeepsInv(cfg, s, e);
      forall call: nat ensures !Ends(s, e, call) {
        UnderWayIsInFlight(s.attempts, call);
      }
      assert !Begins(cfg, s, e);
      StepElse(cfg, s, e);
      SuccessIsFinal(cfg, Step(cfg, s, e), events[1..]);
    }
  }

  /** A call stays under way, with the same sender, until its own end. */
  lemma {:induction false} CallStaysOpen(cfg: Config, s: State, events: seq<Event>, call: nat)
    requires Inv(s) && InFlight(s.attempts, call)
    requires forall e :: e in events ==> if s.report == Sending(call) then !e.ReportEnds? else !(e.ResendEnds? && e.call == call)
    ensures var t := Run(cfg, s, events);
      InFlight(t.attempts, call) && t.attempts[call] == s.attempts[call] && (t.report == Sending(call) <==> s.report == Sending(call))
    decreases |events|
  {
    if events == [] {
    } else {
      var e := events[0];
      assert e in events;
      StepKeepsInv(cfg, s, e);
      assert InFlight(Step(cfg, s, e).attempts, call) by { CallStaysOpenStep(cfg, s, e, call); }
      CallStaysOpenStep(cfg, s, e, call);
      CallStaysOpen(cfg, Step(cfg, s, e), events[1..], call);
    }
  }

  lemma CallStaysOpenStep(cfg: Config, s: State, e: Event, call: nat)
    requires Inv(s) && InFlight(s.attempts, call) && !Ends(s, e, call)
    ensures var t := Step(cfg, s, e);
      InFlight(t.attempts, call) && t.attempts[call] == s.attempts[call] && (t.report == Sending(call) <==> s.report == Sending(call))
  {
    if Begins(cfg, s, e) {
      StepBegins(cfg, s, e);
    }
  }

  /**
   * A failed report stays repairable by hand: whatever happens while the resend is under way, as
   * long as no other call begins, its success clears the error, and nothing is sent after it.
   */
  lemma ResendRepairsFailure(cfg: Config, s: State, during: seq<Event>, at: Time, later: seq<Event>)
    requires Inv(s) && OneAtATime(s) && !AnyInFlight(s.attempts)
    requires CallbackAllowed(s.job) && s.job.callbackSentAt.None?
    requires Sequential(cfg, Step(cfg, s, ResendBegins), during)
    requires forall e :: e in during ==> !(e.ResendEnds? && e.call == |s.attempts|)
    ensures var t := Step(cfg, Run(cfg, Step(cfg, s, ResendBegins), during), ResendEnds(|s.attempts|, at, Delivered));
      && t.job.callbackSentAt == Some(at) && t.job.callbackError.None?
      && Run(cfg, t, later).attempts == t.attempts
      && Run(cfg, t, later).job.callbackSentAt == Some(at) && Run(cfg, t, later).job.callbackError.None?
  {
    var call := |s.attempts|;
    var begun := Step(cfg, s, ResendBegins);
    StepKeepsInv(cfg, s, ResendBegins);
    StepKeepsOneAtATime(cfg, s, ResendBegins);
    assert begun.report != Sending(call);
    CallStaysOpen(cfg, begun, during, call);
    RunKeepsInv(cfg, begun, during);
    RunKeepsOneAtATime(cfg, begun, during);
    var ready := Run(cfg, begun, during);
    var e := ResendEnds(call, at, Delivered);
    StepEnds(cfg, ready, e, call);
    EndKeepsOneAtATime(cfg, ready, e, call);
    StepKeepsInv(cfg, ready, e);
    SuccessIsFinal(cfg, Step(cfg, ready, e), later);
  }

  /**
   * A recorded success comes to stand beside a recorded error exactly when a rejected call ends
   * after another one succeeded; a resend is accepted again then.
   */
  lemma SuccessKeepsNoErrorIff(cfg: Config, s: State, e: Event)
    requires Inv(s) && (s.job.callbackSentAt.Some? ==> s.job.callbackError.None?)
    ensures var t := Step(cfg, s, e);
      (t.job.callbackSentAt.Some? ==> t.job.callbackError.None?)
      <==> !(s.job.callbackSentAt.Some? && (exists call: nat :: Ends(s, e, call)) && e.delivery.Rejected?)
  {
    if Begins(cfg, s, e) {
      StepBegins(cfg, s, e);
    } else if call: nat :| Ends(s, e, call) {
      StepEnds(cfg, s, e, call);
    } else {
      StepElse(cfg, s, e);
    }
  }

  // ----- A job that is reported twice -----

  function OneKeyword(): seq<string> {
    ["desk"]
  }

  /** A search answered from the cache, and the final save: the report is due. */
  function FinishedRun(): seq<Event> {
    [Enqueue, StartSearching(OneKeyword(), 0), SaveKeyword(OneKeyword()),
     KeywordSearched(OneKeyword(), SearchResult(Some(1), RowCompleted, false, 0), true, 0), SearchesDone(OneKeyword(), 0, map[])]
  }

  lemma FinishedRunIsDue(cfg: Config)
    ensures var s := Run(cfg, Initial(), FinishedRun());
      s.report.Due? && s.job.status.Completed? && s.job.callbackSentAt.None? && s.attempts == []
  {
    var result := SearchResult(Some(1), RowCompleted, false, 0);
    var s1 := Step(cfg, Initial(), Enqueue);
    var s2 := Step(cfg, s1, StartSearching(OneKeyword(), 0));
    var s3 := Step(cfg, s2, SaveKeyword(OneKeyword()));
    var s4 := Step(cfg, s3, KeywordSearched(OneKeyword(), result, true, 0));
    var s5 := Step(cfg, s4, SearchesDone(OneKeyword(), 0, map[]));
    var rows := [RecordedRow("desk", 1, result, 0)];
    assert s4.rows == rows && AllTerminal(rows);
    assert Statuses(rows) == [RowCompleted];
    ResolveIsExact([RowCompleted]);
    RunOfFive(cfg, Initial(), FinishedRun());
  }

  lemma RunOfFive(cfg: Config, s: State, events: seq<Event>)
    requires |events| == 5
    ensures Run(cfg, s, events)
      == Step(cfg, Step(cfg, Step(cfg, Step(cfg, Step(cfg, s, events[0]), events[1]), events[2]), events[3]), events[4])
  {
    RunOfFour(cfg, Step(cfg, s, events[0]), events[1..]);
  }

  lemma RunOfFour(cfg: Config, s: State, events: seq<Event>)
    requires |events| == 4
    ensures Run(cfg, s, events) == Step(cfg, Step(cfg, Step(cfg, Step(cfg, s, events[0]), events[1]), events[2]), events[3])
  {
    assert events == events[..3] + [events[3]] && events[..3] == events[..2] + [events[2]]
      && events[..2] == events[..1] + [events[1]] && events[..1] == [] + [events[0]];
    RunSnoc(cfg, s, [], events[0]);
    RunSnoc(cfg, s, events[..1], events[1]);
    RunSnoc(cfg, s, events[..2], events[2]);
    RunSnoc(cfg, s, events[..3], events[3]);
  }

  /** The automatic report is under way when somebody asks for a resend, and both are accepted. */
  function Overlap(): seq<Event> {
    [ReportBegins, ResendBegins, ReportEnds(1, Delivered), ResendEnds(1, 2, Delivered)]
  }

  lemma ReportGoesOut(cfg: Config, s: State)
    requires Inv(s) && s.report.Due? && s.attempts == [] && s.job.callbackSentAt.None?
    ensures var t := Step(cfg, s, ReportBegins);
      && Inv(t) && t.job == s.job && t.attempts == [Attempt(s.job.status, None)] && t.report == Sending(0)
      && DeliveredCount(t.attempts) == 0
  {
    StepKeepsInv(cfg, s, ReportBegins);
    DeliveredAppend([], Attempt(s.job.status, None));
  }

  lemma ResendGoesOut(cfg: Config, s: State)
    requires Inv(s) && CallbackAllowed(s.job) && s.job.callbackSentAt.None?
    ensures var t := Step(cfg, s, ResendBegins);
      && Inv(t) && t.attempts == s.attempts + [Attempt(s.job.status, None)] && t.report == s.report
      && DeliveredCount(t.attempts) == DeliveredCount(s.attempts)
  {
    StepKeepsInv(cfg, s, ResendBegins);
    DeliveredAppend(s.attempts, Attempt(s.job.status, None));
  }

  /** Both calls of the overlap pass their checks. */
  lemma OverlapBegins(cfg: Config, s: State)
    requires Inv(s) && s.report.Due? && s.attempts == [] && s.job.callbackSentAt.None?
    ensures var u := Step(cfg, Step(cfg, s, ReportBegins), ResendBegins);
      && Inv(u) && DeliveredCount(u.attempts) == 0 && u.report == Sending(0)
      && InFlight(u.attempts, 0) && InFlight(u.attempts, 1)
  {
    ReportGoesOut(cfg, s);
    ResendGoesOut(cfg, Step(cfg, s, ReportBegins));
  }

  lemma OverlapDeliversTwice(cfg: Config, s: State)
    requires Inv(s) && s.report.Due? && s.attempts == [] && s.job.callbackSentAt.None?
    ensures DeliveredCount(Run(cfg, s, Overlap()).attempts) == 2
  {
    OverlapBegins(cfg, s);
    var u := Step(cfg, Step(cfg, s, ReportBegins), ResendBegins);
    SuccessAt(cfg, u, ReportEnds(1, Delivered), 0);
    SuccessAt(cfg, Step(cfg, u, ReportEnds(1, Delivered)), ResendEnds(1, 2, Delivered), 1);
    RunOfFour(cfg, s, Overlap());
  }

  /** A new job can be reported twice. */
  lemma ReportedTwice(cfg: Config)
    ensures DeliveredCount(Run(cfg, Initial(), FinishedRun() + Overlap()).attempts) == 2
  {
    FinishedRunIsDue(cfg);
    RunKeepsInv(cfg, Initial(), FinishedRun());
    OverlapDeliversTwice(cfg, Run(cfg, Initial(), FinishedRun()));
    RunSplits(cfg, Initial(), FinishedRun(), Overlap());
  }
}
