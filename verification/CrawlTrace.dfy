/** The progress messages of one crawl over its sites (crawler.service.ts). */
module CrawlTrace {
  import opened Common

  datatype CrawlStatus = CrawlRunning | CrawlCompleted | CrawlPartial | CrawlFailed

  datatype Progress = Progress(
    status: CrawlStatus, percent: int, currentSite: Option<string>,
    completed: seq<string>, pending: seq<string>, resultCount: int)

  /** What one site did: how many listings were saved, and the error that ended it, if any. */
  datatype SiteTally = SiteTally(saved: nat, error: Option<string>)

  function Percent(status: CrawlStatus, done: nat, hasCurrent: bool, totalSites: nat): int {
    var total := Max(totalSites, 1) as real;
    var boost := if status.CrawlRunning? && hasCurrent then 0.5 / total else 0.0;
    var percent := Round((done as real / total + boost) * 100.0);
    var settled :=
      if status.CrawlCompleted? || status.CrawlPartial? then 100
      else if status.CrawlFailed? then Max(percent, 100)
      else percent;
    Max(0, Min(100, settled))
  }

  /** The sites not among the completed ones, by name. */
  function PendingOf(sites: seq<string>, completed: seq<string>): seq<string> {
    if sites == [] then []
    else (if sites[0] in completed then [] else [sites[0]]) + PendingOf(sites[1..], completed)
  }

  function Emit(status: CrawlStatus, currentSite: Option<string>, completed: seq<string>, pending: seq<string>,
                resultCount: int, totalSites: nat): Progress {
    Progress(status, Percent(status, |completed|, currentSite.Some?, totalSites), currentSite, completed, pending, resultCount)
  }

  /** A message while site `k` is current and the first `done` sites are completed. */
  function AtSite(sites: seq<string>, k: nat, done: nat, resultCount: int): Progress
    requires k < |sites| && done <= |sites|
  {
    Emit(CrawlRunning, Some(sites[k]), sites[..done], PendingOf(sites, sites[..done]), resultCount, |sites|)
  }

  function SavedMessages(sites: seq<string>, k: nat, saved: int, n: nat): seq<Progress>
    requires k < |sites|
  {
    seq(n, i => AtSite(sites, k, k, saved + i + 1))
  }

  /** Site `k` with `n` saved listings: one message before it, one per listing, one after it. */
  function SiteMessages(sites: seq<string>, k: nat, saved: int, n: nat): seq<Progress>
    requires k < |sites|
  {
    [AtSite(sites, k, k, saved)] + SavedMessages(sites, k, saved, n) + [AtSite(sites, k, k + 1, saved + n)]
  }

  function SiteTrace(sites: seq<string>, tallies: seq<SiteTally>, k: nat, saved: int): seq<Progress>
    requires k <= |sites| == |tallies|
    decreases |sites| - k
  {
    if k == |sites| then []
    else SiteMessages(sites, k, saved, tallies[k].saved) + SiteTrace(sites, tallies, k + 1, saved + tallies[k].saved)
  }

  function TotalSaved(tallies: seq<SiteTally>): nat {
    if tallies == [] then 0 else tallies[0].saved + TotalSaved(tallies[1..])
  }

  function FinalStatus(tallies: seq<SiteTally>): CrawlStatus {
    if forall t :: t in tallies ==> t.error.None? then CrawlCompleted
    else if TotalSaved(tallies) > 0 then CrawlPartial
    else CrawlFailed
  }

  lemma {:induction false} TotalSavedSnoc(tallies: seq<SiteTally>, t: SiteTally)
    ensures TotalSaved(tallies + [t]) == TotalSaved(tallies) + t.saved
  {
    if tallies == [] {
      assert [t][1..] == [];
    } else {
      assert (tallies + [t])[1..] == tallies[1..] + [t];
      TotalSavedSnoc(tallies[1..], t);
    }
  }

  function Flatten(parts: seq<seq<Progress>>): seq<Progress> {
    if parts == [] then [] else parts[0] + Flatten(parts[1..])
  }

  lemma {:induction false} FlattenSnoc(parts: seq<seq<Progress>>, part: seq<Progress>)
    ensures Flatten(parts + [part]) == Flatten(parts) + part
  {
    if parts == [] {
      assert [part][1..] == [];
    } else {
      assert (parts + [part])[1..] == parts[1..] + [part];
      FlattenSnoc(parts[1..], part);
    }
  }

  lemma {:induction false} FlattenStep(parts: seq<seq<Progress>>, k: nat)
    requires k < |parts|
    ensures Flatten(parts[k..]) == parts[k] + Flatten(parts[k + 1..])
  {
    assert parts[k..][0] == parts[k] && parts[k..][1..] == parts[k + 1..];
  }

  /** Part `k` holds the messages of its site, which found `starts[k]` listings saved. */
  predicate PartAt(parts: seq<seq<Progress>>, starts: seq<int>, sites: seq<string>, tallies: seq<SiteTally>, k: nat)
    requires k < |tallies| == |parts| <= |sites| && |starts| == |tallies| + 1
  {
    starts[k + 1] == starts[k] + tallies[k].saved && parts[k] == SiteMessages(sites, k, starts[k], tallies[k].saved)
  }

  predicate PartsOf(parts: seq<seq<Progress>>, starts: seq<int>, sites: seq<string>, tallies: seq<SiteTally>) {
    && |parts| == |tallies| <= |sites| && |starts| == |tallies| + 1 && starts[0] == 0
    && forall k :: 0 <= k < |tallies| ==> PartAt(parts, starts, sites, tallies, k)
  }

  lemma {:induction false} PartFacts(parts: seq<seq<Progress>>, starts: seq<int>, sites: seq<string>, tallies: seq<SiteTally>, k: nat)
    requires PartsOf(parts, starts, sites, tallies) && k < |tallies|
    ensures starts[k + 1] == starts[k] + tallies[k].saved && parts[k] == SiteMessages(sites, k, starts[k], tallies[k].saved)
  {
    assert PartAt(parts, starts, sites, tallies, k);
  }

  lemma {:induction false} PartsGrow(parts: seq<seq<Progress>>, starts: seq<int>, sites: seq<string>, tallies: seq<SiteTally>, t: SiteTally)
    requires PartsOf(parts, starts, sites, tallies) && |tallies| < |sites|
    ensures var k := |tallies|;
      PartsOf(parts + [SiteMessages(sites, k, starts[k], t.saved)], starts + [starts[k] + t.saved], sites, tallies + [t])
  {
    var n := |tallies|;
    var parts1, starts1, tallies1 := parts + [SiteMessages(sites, n, starts[n], t.saved)], starts + [starts[n] + t.saved], tallies + [t];
    forall k | 0 <= k <= n ensures PartAt(parts1, starts1, sites, tallies1, k) {
      if k < n {
        PartFacts(parts, starts, sites, tallies, k);
        assert parts1[k] == parts[k] && tallies1[k] == tallies[k] && starts1[k] == starts[k] && starts1[k + 1] == starts[k + 1];
      }
    }
  }

  lemma {:induction false} NextPart(
      all: seq<Progress>, part: seq<Progress>, rest: seq<Progress>, sites: seq<string>, tallies: seq<SiteTally>, k: nat, saved: int)
    requires k < |sites| == |tallies|
    requires all == part + rest && part == SiteMessages(sites, k, saved, tallies[k].saved)
    requires rest == SiteTrace(sites, tallies, k + 1, saved + tallies[k].saved)
    ensures all == SiteTrace(sites, tallies, k, saved)
  {
  }

  lemma PartJoins(
      parts: seq<seq<Progress>>, starts: seq<int>, sites: seq<string>, tallies: seq<SiteTally>, k: nat)
    requires k < |sites| == |tallies| == |parts| && |starts| == |tallies| + 1 && PartAt(parts, starts, sites, tallies, k)
    requires Flatten(parts[k + 1..]) == SiteTrace(sites, tallies, k + 1, starts[k + 1])
    ensures Flatten(parts[k..]) == SiteTrace(sites, tallies, k, starts[k])
  {
    FlattenStep(parts, k);
    NextPart(Flatten(parts[k..]), parts[k], Flatten(parts[k + 1..]), sites, tallies, k, starts[k]);
  }

  /** Site by site, the messages are those of the whole list in the end. */
  lemma {:induction false} PartsMakeTrace(
      parts: seq<seq<Progress>>, starts: seq<int>, sites: seq<string>, tallies: seq<SiteTally>, k: nat)
    requires k <= |sites| == |tallies| && PartsOf(parts, starts, sites, tallies)
    ensures Flatten(parts[k..]) == SiteTrace(sites, tallies, k, starts[k])
    decreases |sites| - k
  {
    if k == |sites| {
    } else {
      PartsMakeTrace(parts, starts, sites, tallies, k + 1);
      PartJoins(parts, starts, sites, tallies, k);
    }
  }

  lemma ConcatAssoc(a: seq<Progress>, b: seq<Progress>, c: seq<Progress>)
    ensures (a + b) + c == a + (b + c)
  {
  }

  function Trace(sites: seq<string>, tallies: seq<SiteTally>, stored: int): seq<Progress>
    requires |sites| == |tallies|
  {
    [Emit(CrawlRunning, None, [], sites, 0, |sites|)]
      + SiteTrace(sites, tallies, 0, 0)
      + [Emit(FinalStatus(tallies), None, sites, [], stored, |sites|)]
  }

  // ----- Percentages -----

  predicate Nondecreasing(events: seq<Progress>) {
    forall i, j :: 0 <= i < j < |events| ==> events[i].percent <= events[j].percent
  }

  function Share(done: nat, hasCurrent: bool, totalSites: nat): real {
    (done as real + if hasCurrent then 0.5 else 0.0) / Max(totalSites, 1) as real
  }

  lemma PercentOfShare(done: nat, hasCurrent: bool, totalSites: nat)
    ensures Percent(CrawlRunning, done, hasCurrent, totalSites) == ClampScore(Share(done, hasCurrent, totalSites) * 100.0)
  {
    var t := Max(totalSites, 1) as real;
    DivideSum(done as real, if hasCurrent then 0.5 else 0.0, t);
    assert 0.0 / t == 0.0;
  }

  lemma PercentGrows(d1: nat, c1: bool, d2: nat, c2: bool, n: nat)
    requires d1 < d2 || (d1 == d2 && (c1 ==> c2))
    ensures 0 <= Percent(CrawlRunning, d1, c1, n) <= Percent(CrawlRunning, d2, c2, n) <= 100
  {
    PercentOfShare(d1, c1, n);
    PercentOfShare(d2, c2, n);
    var x, y := Share(d1, c1, n), Share(d2, c2, n);
    assert x <= y by {
      assert d1 < d2 ==> d1 as real + 1.0 <= d2 as real;
      DivideMonotone(d1 as real + if c1 then 0.5 else 0.0, d2 as real + if c2 then 0.5 else 0.0, Max(n, 1) as real);
    }
    RoundMonotone(x * 100.0, y * 100.0);
  }

  /** Every message of a site is of the two kinds. */
  lemma SiteMessageKinds(sites: seq<string>, tallies: seq<SiteTally>, k: nat, saved: int, i: nat)
    requires k < |sites| == |tallies| && i < |SiteMessages(sites, k, saved, tallies[k].saved)|
    ensures var events := SiteMessages(sites, k, saved, tallies[k].saved);
      && |events| == tallies[k].saved + 2
      && events[i] == (if i + 1 == |events| then AtSite(sites, k, k + 1, saved + tallies[k].saved) else AtSite(sites, k, k, saved + i))
  {
  }

  /** Percentages that never fall and stay between two bounds. */
  predicate Climbs(events: seq<Progress>, low: int, high: int) {
    && Nondecreasing(events)
    && forall i :: 0 <= i < |events| ==> low <= events[i].percent <= high
  }

  lemma ClimbOn(a: seq<Progress>, b: seq<Progress>, low: int, mid: int, high: int)
    requires Climbs(a, low, mid) && Climbs(b, mid, high) && low <= mid <= high
    ensures Climbs(a + b, low, high)
  {
    var all := a + b;
    forall i | 0 <= i < |all| ensures low <= all[i].percent <= high {
      assert all[i] == if i < |a| then a[i] else b[i - |a|];
    }
    forall i, j | 0 <= i < j < |all| ensures all[i].percent <= all[j].percent {
      assert all[i] == if i < |a| then a[i] else b[i - |a|];
      assert all[j] == if j < |a| then a[j] else b[j - |a|];
    }
  }

  lemma SiteMessagesGrow(sites: seq<string>, tallies: seq<SiteTally>, k: nat, saved: int)
    requires k < |sites| == |tallies|
    ensures Climbs(SiteMessages(sites, k, saved, tallies[k].saved),
      Percent(CrawlRunning, k, true, |sites|), Percent(CrawlRunning, k + 1, true, |sites|))
  {
    PercentGrows(k, true, k + 1, true, |sites|);
    var events := SiteMessages(sites, k, saved, tallies[k].saved);
    forall i | 0 <= i < |events|
      ensures events[i].percent == Percent(CrawlRunning, if i + 1 == |events| then k + 1 else k, true, |sites|)
    {
      SiteMessageKinds(sites, tallies, k, saved, i);
    }
  }

  lemma SiteClimbsInto(sites: seq<string>, tallies: seq<SiteTally>, k: nat, saved: int, rest: seq<Progress>)
    requires k < |sites| == |tallies| && Climbs(rest, Percent(CrawlRunning, k + 1, true, |sites|), 100)
    ensures Climbs(SiteMessages(sites, k, saved, tallies[k].saved) + rest, Percent(CrawlRunning, k, true, |sites|), 100)
  {
    var events, n := SiteMessages(sites, k, saved, tallies[k].saved), |sites|;
    SiteMessagesGrow(sites, tallies, k, saved);
    PercentGrows(k, true, k + 1, true, n);
    ClimbOn(events, rest, Percent(CrawlRunning, k, true, n), Percent(CrawlRunning, k + 1, true, n), 100);
  }

  lemma {:induction false} SiteTraceGrows(sites: seq<string>, tallies: seq<SiteTally>, k: nat, saved: int)
    requires k <= |sites| == |tallies|
    ensures Climbs(SiteTrace(sites, tallies, k, saved), Percent(CrawlRunning, k, true, |sites|), 100)
    decreases |sites| - k
  {
    if k == |sites| {
    } else {
      SiteTraceGrows(sites, tallies, k + 1, saved + tallies[k].saved);
      SiteClimbsInto(sites, tallies, k, saved, SiteTrace(sites, tallies, k + 1, saved + tallies[k].saved));
    }
  }

  /** Whatever the sites do, the percentages of a crawl never fall, stay in 0..100 and end at 100. */
  lemma PercentsClimbTo100(sites: seq<string>, tallies: seq<SiteTally>, stored: int)
    requires |sites| == |tallies|
    ensures var events := Trace(sites, tallies, stored);
      && Climbs(events, 0, 100)
      && events[|events| - 1].percent == 100
  {
    var first := Emit(CrawlRunning, None, [], sites, 0, |sites|);
    var middle := SiteTrace(sites, tallies, 0, 0);
    var last := Emit(FinalStatus(tallies), None, sites, [], stored, |sites|);
    var start := Percent(CrawlRunning, 0, true, |sites|);
    SiteTraceGrows(sites, tallies, 0, 0);
    PercentGrows(0, false, 0, true, |sites|);
    ClimbOn([first], middle, 0, start, 100);
    assert last.percent == 100;
    ClimbOn([first] + middle, [last], 0, 100, 100);
  }

  // ----- Completed and pending sites -----

  predicate Distinct(sites: seq<string>) {
    forall i, j :: 0 <= i < j < |sites| ==> sites[i] != sites[j]
  }

  predicate Splits(e: Progress, sites: seq<string>) {
    e.completed + e.pending == sites
  }

  lemma {:induction false} PendingOfConcat(a: seq<string>, b: seq<string>, completed: seq<string>)
    ensures PendingOf(a + b, completed) == PendingOf(a, completed) + PendingOf(b, completed)
  {
    if a == [] {
      assert a + b == b;
    } else {
      assert (a + b)[1..] == a[1..] + b;
      PendingOfConcat(a[1..], b, completed);
    }
  }

  lemma {:induction false} PendingOfExtremes(a: seq<string>, completed: seq<string>)
    ensures |PendingOf(a, completed)| <= |a|
    ensures (forall x :: x in a ==> x in completed) ==> PendingOf(a, completed) == []
    ensures PendingOf(a, completed) == a <==> forall x :: x in a ==> x !in completed
  {
    if a == [] {
    } else {
      PendingOfExtremes(a[1..], completed);
      assert a == [a[0]] + a[1..];
    }
  }

  /** After `done` sites the message splits the site list exactly when no later site repeats an earlier one. */
  lemma SplitsIff(sites: seq<string>, done: nat)
    requires done <= |sites|
    ensures sites[..done] + PendingOf(sites, sites[..done]) == sites <==>
      forall x :: x in sites[done..] ==> x !in sites[..done]
  {
    var a, b := sites[..done], sites[done..];
    assert sites == a + b;
    PendingOfConcat(a, b, a);
    PendingOfExtremes(a, a);
    PendingOfExtremes(b, a);
    assert PendingOf(sites, a) == PendingOf(b, a);
    if a + PendingOf(b, a) == a + b {
      assert PendingOf(b, a) == (a + PendingOf(b, a))[done..] == b;
    }
  }

  predicate AllSplit(events: seq<Progress>, sites: seq<string>) {
    forall i :: 0 <= i < |events| ==> Splits(events[i], sites)
  }

  lemma SplitOn(a: seq<Progress>, b: seq<Progress>, sites: seq<string>)
    requires AllSplit(a, sites) && AllSplit(b, sites)
    ensures AllSplit(a + b, sites)
  {
  }

  lemma SiteMessagesSplit(sites: seq<string>, tallies: seq<SiteTally>, k: nat, saved: int)
    requires k < |sites| == |tallies| && Distinct(sites)
    ensures AllSplit(SiteMessages(sites, k, saved, tallies[k].saved), sites)
  {
    SplitsIff(sites, k);
    SplitsIff(sites, k + 1);
    var events := SiteMessages(sites, k, saved, tallies[k].saved);
    forall i | 0 <= i < |events| ensures Splits(events[i], sites) {
      SiteMessageKinds(sites, tallies, k, saved, i);
    }
  }

  lemma {:induction false} SiteTraceSplits(sites: seq<string>, tallies: seq<SiteTally>, k: nat, saved: int)
    requires k <= |sites| == |tallies| && Distinct(sites)
    ensures AllSplit(SiteTrace(sites, tallies, k, saved), sites)
    decreases |sites| - k
  {
    if k == |sites| {
    } else {
      SiteMessagesSplit(sites, tallies, k, saved);
      SiteTraceSplits(sites, tallies, k + 1, saved + tallies[k].saved);
      SplitOn(SiteMessages(sites, k, saved, tallies[k].saved), SiteTrace(sites, tallies, k + 1, saved + tallies[k].saved), sites);
    }
  }

  /** The message after site `j`. */
  predicate Reports(e: Progress, sites: seq<string>, j: nat)
    requires j < |sites|
  {
    e.completed == sites[..j + 1] && e.pending == PendingOf(sites, sites[..j + 1])
  }

  predicate Covered(events: seq<Progress>, sites: seq<string>, j: nat)
    requires j < |sites|
  {
    exists i :: 0 <= i < |events| && Reports(events[i], sites, j)
  }

  lemma CoveredByPart(a: seq<Progress>, b: seq<Progress>, sites: seq<string>, j: nat)
    requires j < |sites| && (Covered(a, sites, j) || Covered(b, sites, j))
    ensures Covered(a + b, sites, j)
  {
    if Covered(a, sites, j) {
      var i :| 0 <= i < |a| && Reports(a[i], sites, j);
      assert (a + b)[i] == a[i];
    } else {
      var i :| 0 <= i < |b| && Reports(b[i], sites, j);
      assert (a + b)[|a| + i] == b[i];
    }
  }

  lemma SiteIsCovered(sites: seq<string>, tallies: seq<SiteTally>, k: nat, saved: int)
    requires k < |sites| == |tallies|
    ensures Covered(SiteMessages(sites, k, saved, tallies[k].saved), sites, k)
  {
    var events := SiteMessages(sites, k, saved, tallies[k].saved);
    SiteMessageKinds(sites, tallies, k, saved, |events| - 1);
    assert Reports(events[|events| - 1], sites, k);
  }

  /** Every site gets its message. */
  lemma {:induction false} SiteTraceCovers(sites: seq<string>, tallies: seq<SiteTally>, k: nat, saved: int, j: nat)
    requires k <= j < |sites| == |tallies|
    ensures Covered(SiteTrace(sites, tallies, k, saved), sites, j)
    decreases |sites| - k
  {
    var part, rest := SiteMessages(sites, k, saved, tallies[k].saved), SiteTrace(sites, tallies, k + 1, saved + tallies[k].saved);
    if k == j {
      SiteIsCovered(sites, tallies, k, saved);
    } else {
      SiteTraceCovers(sites, tallies, k + 1, saved + tallies[k].saved, j);
    }
    assert Covered(part, sites, j) || Covered(rest, sites, j);
    CoveredByPart(part, rest, sites, j);
  }

  lemma TraceAt(sites: seq<string>, tallies: seq<SiteTally>, stored: int, i: nat)
    requires |sites| == |tallies| && i < |Trace(sites, tallies, stored)|
    ensures var trace, middle := Trace(sites, tallies, stored), SiteTrace(sites, tallies, 0, 0);
      && |trace| == |middle| + 2
      && trace[i] == (if i == 0 then Emit(CrawlRunning, None, [], sites, 0, |sites|)
                      else if i <= |middle| then middle[i - 1]
                      else Emit(FinalStatus(tallies), None, sites, [], stored, |sites|))
  {
  }

  lemma RepeatBreaksSplit(sites: seq<string>, e: Progress, i: nat, j: nat)
    requires i < j < |sites| && sites[i] == sites[j] && Reports(e, sites, i)
    ensures !Splits(e, sites)
  {
    SplitsIff(sites, i + 1);
    var early, late := sites[..i + 1], sites[i + 1..];
    assert late[j - i - 1] in late && early[i] in early && late[j - i - 1] == early[i];
  }

  lemma RepeatedSiteBreaksSplit(sites: seq<string>, tallies: seq<SiteTally>, stored: int, i: nat, j: nat)
    requires |sites| == |tallies| && i < j < |sites| && sites[i] == sites[j]
    ensures !AllSplit(Trace(sites, tallies, stored), sites)
  {
    SiteTraceCovers(sites, tallies, 0, 0, i);
    var middle := SiteTrace(sites, tallies, 0, 0);
    var at :| 0 <= at < |middle| && Reports(middle[at], sites, i);
    RepeatBreaksSplit(sites, middle[at], i, j);
    TraceAt(sites, tallies, stored, 0);
    TraceAt(sites, tallies, stored, at + 1);
  }

  /**
   * In every message the completed sites followed by the pending ones are the site list,
   * exactly when no site is requested twice.
   */
  lemma MessagesSplitSitesIffDistinct(sites: seq<string>, tallies: seq<SiteTally>, stored: int)
    requires |sites| == |tallies|
    ensures AllSplit(Trace(sites, tallies, stored), sites) <==> Distinct(sites)
  {
    if Distinct(sites) {
      SiteTraceSplits(sites, tallies, 0, 0);
      forall i | 0 <= i < |Trace(sites, tallies, stored)| ensures Splits(Trace(sites, tallies, stored)[i], sites) {
        TraceAt(sites, tallies, stored, i);
      }
    } else {
      var i, j :| 0 <= i < j < |sites| && sites[i] == sites[j];
      RepeatedSiteBreaksSplit(sites, tallies, stored, i, j);
    }
  }

  // ----- Messages field by field -----

  /** A running crawl counts half a site for the one under way; a finished one is at 100. */
  lemma PercentIsExact(status: CrawlStatus, done: nat, hasCurrent: bool, totalSites: nat)
    ensures status.CrawlRunning? ==>
      IsPercent(Percent(status, done, hasCurrent, totalSites),
        100.0 * ((done as real + if hasCurrent then 0.5 else 0.0) / (if totalSites == 0 then 1.0 else totalSites as real)))
    ensures !status.CrawlRunning? ==> Percent(status, done, hasCurrent, totalSites) == 100
  {
    if status.CrawlRunning? {
      PercentOfShare(done, hasCurrent, totalSites);
      ClampScoreIsPercent(Share(done, hasCurrent, totalSites) * 100.0);
    }
  }

  lemma {:induction false} SomeSaved(tallies: seq<SiteTally>)
    ensures TotalSaved(tallies) > 0 <==> exists t :: t in tallies && t.saved > 0
  {
    if tallies == [] {
    } else {
      SomeSaved(tallies[1..]);
      assert tallies == [tallies[0]] + tallies[1..];
    }
  }

  /** Completed without an error; with one, partial iff some site saved a listing. */
  lemma FinalStatusIsExact(tallies: seq<SiteTally>)
    ensures FinalStatus(tallies).CrawlCompleted? <==> forall t :: t in tallies ==> t.error.None?
    ensures FinalStatus(tallies).CrawlPartial? <==>
      (exists t :: t in tallies && t.error.Some?) && (exists t :: t in tallies && t.saved > 0)
    ensures FinalStatus(tallies).CrawlFailed? <==>
      (exists t :: t in tallies && t.error.Some?) && (forall t :: t in tallies ==> t.saved == 0)
  {
    SomeSaved(tallies);
  }

  lemma {:induction false} PendingMembers(sites: seq<string>, completed: seq<string>)
    ensures forall s :: s in PendingOf(sites, completed) <==> s in sites && s !in completed
  {
    if sites == [] {
    } else {
      PendingMembers(sites[1..], completed);
      assert sites == [sites[0]] + sites[1..];
    }
  }

  /** Site `k` is current with the `done` sites before it completed, and `count` listings saved so far. */
  ghost predicate Tells(p: Progress, sites: seq<string>, k: nat, done: nat, count: int)
    requires k < |sites| && done <= |sites|
  {
    && p.status.CrawlRunning? && p.currentSite == Some(sites[k]) && p.completed == sites[..done] && p.resultCount == count
    && (forall s :: s in p.pending <==> s in sites && s !in p.completed)
    && IsPercent(p.percent, 100.0 * ((done as real + 0.5) / |sites| as real))
  }

  /** Every site sends a message before it, one after each saved listing, and one when it is completed. */
  lemma SiteMessagesAreExact(sites: seq<string>, tallies: seq<SiteTally>, k: nat, saved: int, i: nat)
    requires k < |sites| == |tallies|
    ensures var events, n := SiteMessages(sites, k, saved, tallies[k].saved), tallies[k].saved;
      && |events| == n + 2
      && (i <= n ==> Tells(events[i], sites, k, k, saved + i))
      && Tells(events[n + 1], sites, k, k + 1, saved + n)
  {
    var n := tallies[k].saved;
    SiteMessageKinds(sites, tallies, k, saved, n + 1);
    if i <= n {
      SiteMessageKinds(sites, tallies, k, saved, i);
    }
    PendingMembers(sites, sites[..k]);
    PendingMembers(sites, sites[..k + 1]);
    PercentIsExact(CrawlRunning, k, true, |sites|);
    PercentIsExact(CrawlRunning, k + 1, true, |sites|);
  }

  /** The first message of a crawl has nothing completed, the last one everything, with the stored count. */
  lemma TraceEndsAreExact(sites: seq<string>, tallies: seq<SiteTally>, stored: int)
    requires |sites| == |tallies|
    ensures var t := Trace(sites, tallies, stored); var last := t[|t| - 1];
      && |t| >= 2 && t[0] == Progress(CrawlRunning, 0, None, [], sites, 0)
      && last == Progress(FinalStatus(tallies), 100, None, sites, [], stored)
  {
    PercentIsExact(FinalStatus(tallies), |sites|, false, |sites|);
    PercentIsExact(CrawlRunning, 0, false, |sites|);
    assert 0.0 / (if |sites| == 0 then 1.0 else |sites| as real) == 0.0;
  }
}
