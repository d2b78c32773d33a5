/**
 * The adaptive crawl over neighbourhoods (karrot.adapter.ts): batches of two, back-off to one
 * after repeated blocks, abort after more, merge by URL. The outside world answers each request
 * as it likes.
 */
module KarrotCrawl {
  import opened Common
  import opened TitleSimilarity

  datatype Fetch = Fetched(items: seq<Listing>) | Failed(status: Option<int>)

  datatype Request = Request(target: string, answer: Fetch)

  predicate IsForbidden(f: Fetch) {
    f.Failed? && (f.status == Some(403) || f.status == Some(429))
  }

  // ----- What a log of requests amounts to -----

  function Targets(log: seq<Request>): (r: seq<string>)
    ensures |r| == |log| && forall i | 0 <= i < |log| :: r[i] == log[i].target
  {
    seq(|log|, i requires 0 <= i < |log| => log[i].target)
  }

  /** All items of all successful requests, in order. */
  function AllItems(log: seq<Request>): seq<Listing> {
    if log == [] then []
    else
      var last := log[|log| - 1].answer;
      AllItems(log[..|log| - 1]) + if last.Fetched? then last.items else []
  }

  function CountFetched(log: seq<Request>): nat {
    if log == [] then 0 else CountFetched(log[..|log| - 1]) + if log[|log| - 1].answer.Fetched? then 1 else 0
  }

  function CountForbidden(log: seq<Request>): nat {
    if log == [] then 0 else CountForbidden(log[..|log| - 1]) + if IsForbidden(log[|log| - 1].answer) then 1 else 0
  }

  /** The length of the run of blocked requests at the end. */
  function BlockedRun(log: seq<Request>): nat {
    if log == [] || !IsForbidden(log[|log| - 1].answer) then 0 else 1 + BlockedRun(log[..|log| - 1])
  }

  /** The k-th request was answered with status 403 or 429. */
  predicate BlockedAt(log: seq<Request>, k: int) {
    0 <= k < |log| && (log[k].answer == Failed(Some(403)) || log[k].answer == Failed(Some(429)))
  }

  predicate SomeBlocked(log: seq<Request>) {
    exists k :: 0 <= k < |log| && BlockedAt(log, k)
  }

  predicate SomeFetched(log: seq<Request>) {
    exists k :: 0 <= k < |log| && log[k].answer.Fetched?
  }

  lemma {:induction false} CountsAreExact(log: seq<Request>)
    ensures CountFetched(log) > 0 <==> SomeFetched(log)
    ensures CountForbidden(log) > 0 <==> SomeBlocked(log)
  {
    if log == [] {
    } else {
      var front, n := log[..|log| - 1], |log| - 1;
      CountsAreExact(front);
      if SomeFetched(front) {
        var k :| 0 <= k < n && front[k].answer.Fetched?;
        assert log[k].answer.Fetched?;
      }
      if k :| 0 <= k < |log| && log[k].answer.Fetched? && k < n {
        assert front[k].answer.Fetched?;
      }
      if SomeBlocked(front) {
        var k :| 0 <= k < n && BlockedAt(front, k);
        assert BlockedAt(log, k);
      }
      if k :| 0 <= k < |log| && BlockedAt(log, k) && k < n {
        assert BlockedAt(front, k);
      }
      assert IsForbidden(log[n].answer) <==> BlockedAt(log, n);
    }
  }

  /** At least `n` requests in a row are blocked at the end: the last `n` were all answered 403 or 429. */
  lemma {:induction false} BlockedRunIsExact(log: seq<Request>, n: nat)
    ensures BlockedRun(log) >= n <==> n <= |log| && forall k | |log| - n <= k < |log| :: BlockedAt(log, k)
  {
    if log == [] || n == 0 {
    } else {
      var front := log[..|log| - 1];
      BlockedRunIsExact(front, n - 1);
      assert forall k | 0 <= k < |front| :: BlockedAt(front, k) <==> BlockedAt(log, k);
      assert IsForbidden(log[|log| - 1].answer) <==> BlockedAt(log, |log| - 1);
    }
  }

  // ----- Merging by URL -----

  function Urls(items: seq<Listing>): set<string> {
    set i | 0 <= i < |items| :: items[i].url
  }

  /** Each item unless an earlier one has its URL. */
  function Dedupe(items: seq<Listing>): seq<Listing> {
    if items == [] then []
    else
      var front, last := Dedupe(items[..|items| - 1]), items[|items| - 1];
      if last.url in Urls(front) then front else front + [last]
  }

  predicate UrlsDistinct(items: seq<Listing>) {
    forall i, j | 0 <= i < j < |items| :: items[i].url != items[j].url
  }

  /** The first item with this URL. */
  predicate IsFirst(items: seq<Listing>, item: Listing) {
    exists k :: 0 <= k < |items| && items[k] == item && forall j | 0 <= j < k :: items[j].url != item.url
  }

  lemma UrlsSnoc(items: seq<Listing>, last: Listing)
    ensures Urls(items + [last]) == Urls(items) + {last.url}
  {
    var all := items + [last];
    assert all[|items|] == last;
    assert forall i | 0 <= i < |items| :: all[i] == items[i];
  }

  /** Merging keeps exactly the first item of every URL. */
  lemma {:induction false} DedupeIsExact(items: seq<Listing>)
    ensures UrlsDistinct(Dedupe(items)) && Urls(Dedupe(items)) == Urls(items)
    ensures forall i | 0 <= i < |Dedupe(items)| :: IsFirst(items, Dedupe(items)[i])
  {
    if items == [] {
    } else {
      var init, last := items[..|items| - 1], items[|items| - 1];
      var front := Dedupe(init);
      assert items == init + [last];
      DedupeIsExact(init);
      UrlsSnoc(init, last);
      UrlsSnoc(front, last);
      forall i | 0 <= i < |Dedupe(items)| ensures IsFirst(items, Dedupe(items)[i]) {
        if i < |front| {
          FirstStays(init, last, front[i]);
        } else {
          LastIsFirst(init, last);
        }
      }
    }
  }

  lemma FirstStays(init: seq<Listing>, last: Listing, item: Listing)
    requires IsFirst(init, item)
    ensures IsFirst(init + [last], item)
  {
    var items := init + [last];
    var k :| 0 <= k < |init| && init[k] == item && forall j | 0 <= j < k :: init[j].url != item.url;
    assert items[k] == item && forall j | 0 <= j < k :: items[j].url != item.url;
  }

  lemma LastIsFirst(init: seq<Listing>, last: Listing)
    requires last.url !in Urls(init)
    ensures IsFirst(init + [last], last)
  {
    var items, k := init + [last], |init|;
    assert items[k] == last;
    forall j | 0 <= j < k ensures items[j].url != last.url {
      assert init[j].url in Urls(init);
    }
  }

  lemma DedupeSnoc(items: seq<Listing>, last: Listing)
    ensures Dedupe(items + [last]) ==
      if last.url in Urls(Dedupe(items)) then Dedupe(items) else Dedupe(items) + [last]
  {
    assert (items + [last])[..|items|] == items;
  }

  /** The inner loop over one result's items, with the set of URLs seen so far. */
  method MergeItems(items: seq<Listing>, merged: seq<Listing>, seen: set<string>, ghost before: seq<Listing>)
    returns (m: seq<Listing>, s: set<string>)
    requires merged == Dedupe(before) && seen == Urls(merged)
    ensures m == Dedupe(before + items) && s == Urls(m)
  {
    m, s := merged, seen;
    assert before + items[..0] == before;
    for i := 0 to |items|
      invariant m == Dedupe(before + items[..i]) && s == Urls(m)
    {
      assert before + items[..i + 1] == (before + items[..i]) + [items[i]];
      DedupeSnoc(before + items[..i], items[i]);
      if items[i].url in s {
        continue;
      }
      UrlsSnoc(m, items[i]);
      s := s + {items[i].url};
      m := m + [items[i]];
    }
    assert items[..|items|] == items;
  }

  // ----- The counters -----

  datatype Counters = Counters(
    merged: seq<Listing>, seen: set<string>, success: nat, forbidden: nat, consecutiveForbidden: nat)

  predicate Tallied(c: Counters, log: seq<Request>) {
    && c.merged == Dedupe(AllItems(log)) && c.seen == Urls(c.merged)
    && c.success == CountFetched(log) && c.forbidden == CountForbidden(log)
    && c.consecutiveForbidden == BlockedRun(log)
  }

  /** What one more request adds to the log's totals. */
  lemma LogSnoc(log: seq<Request>, r: Request)
    ensures AllItems(log + [r]) == if r.answer.Fetched? then AllItems(log) + r.answer.items else AllItems(log)
    ensures CountFetched(log + [r]) == CountFetched(log) + if r.answer.Fetched? then 1 else 0
    ensures CountForbidden(log + [r]) == CountForbidden(log) + if IsForbidden(r.answer) then 1 else 0
    ensures BlockedRun(log + [r]) == if IsForbidden(r.answer) then BlockedRun(log) + 1 else 0
  {
    assert (log + [r])[..|log|] == log;
    assert AllItems(log) + [] == AllItems(log);
  }

  method HandleResult(r: Request, c: Counters, ghost log: seq<Request>) returns (d: Counters)
    requires Tallied(c, log)
    ensures Tallied(d, log + [r])
  {
    LogSnoc(log, r);
    d := c;
    if r.answer.Fetched? {
      var merged, seen := MergeItems(r.answer.items, c.merged, c.seen, AllItems(log));
      d := d.(consecutiveForbidden := 0, success := c.success + 1, merged := merged, seen := seen);
    } else if r.answer.status == Some(403) || r.answer.status == Some(429) {
      d := d.(forbidden := c.forbidden + 1, consecutiveForbidden := c.consecutiveForbidden + 1);
    } else {
      d := d.(consecutiveForbidden := 0);
    }
  }

  // ----- The batches -----

  /** How often the source may wait after `n` back-offs. */
  function Delay(base: nat, n: nat): nat {
    if n == 0 then base else Min(Delay(base, n - 1) * 2, 8000)
  }

  /** Every entry is the answer that the outside world gave to that request. */
  predicate Answered(log: seq<Request>, world: (nat, string) -> Fetch) {
    forall k | 0 <= k < |log| :: log[k].answer == world(k, log[k].target)
  }

  /** Some batch of two, at an even number of requests, ended with at least four blocked in a row. */
  predicate PairBlocked(log: seq<Request>) {
    log != [] && (PairBlocked(log[..|log| - 1]) || (|log| % 2 == 0 && BlockedRun(log) >= 4))
  }

  /** Positions of the loop over `n` targets; `dup` > 0 marks the target after which one is repeated. */
  predicate Position(n: nat, i: nat, concurrency: nat, dup: nat) {
    if concurrency == 2 then dup == 0 && i % 2 == 0
    else concurrency == 1 && i <= n && if dup == 0 then i == n else 2 <= dup <= n && dup <= i + 1
  }

  /** The requests made by position `i`. */
  function Expected(targets: seq<string>, i: nat, dup: nat): seq<string> {
    if dup == 0 || !(dup <= i + 1 && i <= |targets| && dup <= |targets|) then targets[..Min(i, |targets|)]
    else targets[..dup] + targets[dup - 1..i]
  }

  predicate Requested(log: seq<Request>, targets: seq<string>, i: nat, dup: nat) {
    Targets(log) == Expected(targets, i, dup)
  }

  lemma PairBlockedOneMore(before: seq<Request>, after: seq<Request>)
    requires before <= after && |after| == |before| + 1
    ensures PairBlocked(after) <==> PairBlocked(before) || (|after| % 2 == 0 && BlockedRun(after) >= 4)
  {
    assert after[..|after| - 1] == before;
  }

  lemma PairBlockedBy(before: seq<Request>, after: seq<Request>)
    requires before <= after && !PairBlocked(before) && |before| % 2 == 0 && |after| <= |before| + 2
    ensures PairBlocked(after) <==> |after| == |before| + 2 && BlockedRun(after) >= 4
  {
    if |after| == |before| {
      assert after == before;
    } else if |after| == |before| + 1 {
      PairBlockedOneMore(before, after);
    } else {
      var mid := after[..|before| + 1];
      PairBlockedOneMore(before, mid);
      PairBlockedOneMore(mid, after);
    }
  }

  method RunBatch(batch: seq<string>, world: (nat, string) -> Fetch, c: Counters, log: seq<Request>)
    returns (d: Counters, after: seq<Request>)
    requires Tallied(c, log) && Answered(log, world)
    ensures Tallied(d, after) && Answered(after, world)
    ensures log <= after && Targets(after) == Targets(log) + batch
  {
    d, after := c, log;
    for k := 0 to |batch|
      invariant Tallied(d, after) && Answered(after, world)
      invariant log <= after && Targets(after) == Targets(log) + batch[..k]
    {
      var r := Request(batch[k], world(|after|, batch[k]));
      d := HandleResult(r, d, after);
      assert batch[..k + 1] == batch[..k] + [batch[k]];
      after := after + [r];
    }
    assert batch[..|batch|] == batch;
  }

  datatype CrawlState = CrawlState(
    i: nat, concurrency: nat, delay: nat, backoffs: nat, counters: Counters, log: seq<Request>)

  /** Which targets have been requested, and whether one was repeated, at position `i`. */
  predicate Shape(log: seq<Request>, targets: seq<string>, i: nat, concurrency: nat, dup: nat) {
    && Position(|targets|, i, concurrency, dup)
    && Targets(log) == Expected(targets, i, dup)
    && (PairBlocked(log) <==> dup > 0)
  }

  /** Where a round leads: one further if blocked or already slow, two further otherwise. */
  function NextDup(n: nat, i: nat, was: nat, now: nat, dup: nat): nat {
    if was == 2 && now == 1 && i + 2 <= n then i + 2 else dup
  }

  lemma PositionMoves(n: nat, i: nat, was: nat, now: nat, dup: nat)
    requires Position(n, i, was, dup) && i < n && (now == was || now == 1)
    ensures Position(n, i + now, now, NextDup(n, i, was, now, dup))
  {
  }

  lemma ExpectedMoves(targets: seq<string>, i: nat, was: nat, now: nat, dup: nat)
    requires Position(|targets|, i, was, dup) && i < |targets| && (now == was || now == 1)
    ensures Expected(targets, i, dup) + targets[i..Min(i + was, |targets|)]
      == Expected(targets, i + now, NextDup(|targets|, i, was, now, dup))
  {
    var n := |targets|;
    if was == 2 {
      assert targets[..i] + targets[i..Min(i + 2, n)] == targets[..Min(i + 2, n)];
      if i + 2 <= n {
        assert targets[..i + 2] + targets[i + 1..i + 1] == targets[..i + 2];
      }
    } else {
      assert targets[dup - 1..i] + targets[i..i + 1] == targets[dup - 1..i + 1];
    }
  }

  lemma ExpectedLength(targets: seq<string>, i: nat, concurrency: nat, dup: nat)
    requires Position(|targets|, i, concurrency, dup)
    ensures |Expected(targets, i, dup)| == if dup == 0 then Min(i, |targets|) else i + 1
  {
  }

  /** The log before a round tells whether the round is the one that repeats a target. */
  lemma RepeatIsDecided(before: seq<Request>, after: seq<Request>, targets: seq<string>, i: nat, was: nat, now: nat, dup: nat)
    requires Shape(before, targets, i, was, dup) && i < |targets| && before <= after
    requires |after| == |before| + Min(i + was, |targets|) - i && now == if BlockedRun(after) >= 4 then 1 else was
    ensures PairBlocked(after) <==> NextDup(|targets|, i, was, now, dup) > 0
  {
    ExpectedLength(targets, i, was, dup);
    assert |before| == |Targets(before)|;
    if was == 2 {
      PairBlockedBy(before, after);
    } else {
      PairBlockedOneMore(before, after);
    }
  }

  /** At no earlier request had ten in a row been blocked. */
  predicate CalmBefore(log: seq<Request>) {
    log == [] || (BlockedRun(log[..|log| - 1]) < 10 && CalmBefore(log[..|log| - 1]))
  }

  lemma CalmOneMore(before: seq<Request>, after: seq<Request>)
    requires CalmBefore(before) && BlockedRun(before) < 10 && before <= after && |after| == |before| + 1
    ensures CalmBefore(after) && BlockedRun(after) <= BlockedRun(before) + 1
  {
    assert after[..|after| - 1] == before;
  }

  /** So an abort comes with the tenth block in a row, neither later nor inside a batch of two. */
  lemma AbortIsPrompt(before: seq<Request>, after: seq<Request>)
    requires CalmBefore(before) && BlockedRun(before) < 10 && before <= after
    requires |after| <= |before| + 1 || (|after| == |before| + 2 && BlockedRun(before) < 4)
    ensures CalmBefore(after) && BlockedRun(after) <= 10
  {
    if |after| == |before| {
      assert after == before;
    } else if |after| == |before| + 1 {
      CalmOneMore(before, after);
    } else {
      var mid := after[..|before| + 1];
      CalmOneMore(before, mid);
      CalmOneMore(mid, after);
    }
  }

  lemma RoundIsPrompt(before: seq<Request>, after: seq<Request>, targets: seq<string>, i: nat, concurrency: nat, dup: nat)
    requires Shape(before, targets, i, concurrency, dup) && i < |targets|
    requires CalmBefore(before) && BlockedRun(before) < 10
    requires before <= after && |after| <= |before| + concurrency
    ensures CalmBefore(after) && BlockedRun(after) <= 10
  {
    PairStartsLow(before, targets, i, concurrency, dup);
    AbortIsPrompt(before, after);
  }

  lemma PairStartsLow(log: seq<Request>, targets: seq<string>, i: nat, concurrency: nat, dup: nat)
    requires Shape(log, targets, i, concurrency, dup) && i < |targets|
    ensures concurrency == 2 ==> BlockedRun(log) < 4
  {
    assert |log| == |Targets(log)|;
    ExpectedLength(targets, i, concurrency, dup);
    if concurrency == 2 && log != [] {
      assert |log| % 2 == 0 && !PairBlocked(log);
    }
  }

  predicate CrawlInv(s: CrawlState, world: (nat, string) -> Fetch, base: nat) {
    Tallied(s.counters, s.log) && Answered(s.log, world) && s.delay == Delay(base, s.backoffs)
  }

  function Batch(s: CrawlState, targets: seq<string>): seq<string>
    requires s.i < |targets|
  {
    targets[s.i..Min(s.i + s.concurrency, |targets|)]
  }

  /** One round: request a batch, back off when blocked, advance by the concurrency then in force. */
  method CrawlRound(s: CrawlState, targets: seq<string>, world: (nat, string) -> Fetch, ghost base: nat)
    returns (t: CrawlState, aborted: bool)
    requires CrawlInv(s, world, base) && s.i < |targets|
    ensures CrawlInv(t, world, base)
    ensures RoundTaken(s, t, targets)
    ensures aborted <==> BlockedRun(t.log) >= 10
  {
    var counters, log := RunBatch(Batch(s, targets), world, s.counters, s.log);
    var concurrency, delay, backoffs := s.concurrency, s.delay, s.backoffs;
    if counters.consecutiveForbidden >= 4 {
      concurrency := 1;
      delay := Min(delay * 2, 8000);
      backoffs := backoffs + 1;
    }
    aborted := counters.consecutiveForbidden >= 10;
    t := CrawlState(s.i + concurrency, concurrency, delay, backoffs, counters, log);
  }

  predicate UnderWay(s: CrawlState, targets: seq<string>, dup: nat) {
    Shape(s.log, targets, s.i, s.concurrency, dup) && CalmBefore(s.log)
  }

  /** What a round does to the position and the log. */
  predicate RoundTaken(s: CrawlState, t: CrawlState, targets: seq<string>) {
    && s.i < |targets| && s.log <= t.log && Targets(t.log) == Targets(s.log) + Batch(s, targets)
    && t.concurrency == (if BlockedRun(t.log) >= 4 then 1 else s.concurrency)
    && t.i == s.i + t.concurrency
  }

  function DupAfter(s: CrawlState, t: CrawlState, targets: seq<string>, dup: nat): nat {
    NextDup(|targets|, s.i, s.concurrency, t.concurrency, dup)
  }

  lemma RoundMovesPosition(s: CrawlState, t: CrawlState, targets: seq<string>, dup: nat)
    requires UnderWay(s, targets, dup) && RoundTaken(s, t, targets)
    ensures Position(|targets|, t.i, t.concurrency, DupAfter(s, t, targets, dup))
  {
    PositionMoves(|targets|, s.i, s.concurrency, t.concurrency, dup);
  }

  lemma RoundMovesTargets(s: CrawlState, t: CrawlState, targets: seq<string>, dup: nat)
    requires UnderWay(s, targets, dup) && RoundTaken(s, t, targets)
    ensures Targets(t.log) == Expected(targets, t.i, DupAfter(s, t, targets, dup))
  {
    ExpectedMoves(targets, s.i, s.concurrency, t.concurrency, dup);
  }

  lemma RoundDecidesRepeat(s: CrawlState, t: CrawlState, targets: seq<string>, dup: nat)
    requires UnderWay(s, targets, dup) && RoundTaken(s, t, targets)
    ensures PairBlocked(t.log) <==> DupAfter(s, t, targets, dup) > 0
  {
    assert |t.log| == |Targets(t.log)| && |s.log| == |Targets(s.log)|;
    RepeatIsDecided(s.log, t.log, targets, s.i, s.concurrency, t.concurrency, dup);
  }

  lemma RoundStaysCalm(s: CrawlState, t: CrawlState, targets: seq<string>, dup: nat)
    requires UnderWay(s, targets, dup) && RoundTaken(s, t, targets) && BlockedRun(s.log) < 10
    ensures CalmBefore(t.log) && BlockedRun(t.log) <= 10
  {
    assert |t.log| == |Targets(t.log)| && |s.log| == |Targets(s.log)|;
    RoundIsPrompt(s.log, t.log, targets, s.i, s.concurrency, dup);
  }

  lemma RoundMovesOn(s: CrawlState, t: CrawlState, targets: seq<string>, dup: nat)
    requires UnderWay(s, targets, dup) && RoundTaken(s, t, targets) && BlockedRun(s.log) < 10
    ensures UnderWay(t, targets, DupAfter(s, t, targets, dup)) && BlockedRun(t.log) <= 10
  {
    RoundMovesPosition(s, t, targets, dup);
    RoundMovesTargets(s, t, targets, dup);
    RoundDecidesRepeat(s, t, targets, dup);
    RoundStaysCalm(s, t, targets, dup);
  }

  /** In other words: ten blocks in a row were seen at the last request only, if at all. */
  lemma {:induction false} CalmAtEveryRequest(log: seq<Request>, m: nat)
    requires CalmBefore(log) && m < |log|
    ensures BlockedRun(log[..m]) < 10
  {
    var front := log[..|log| - 1];
    if m < |front| {
      CalmAtEveryRequest(front, m);
      assert front[..m] == log[..m];
    }
  }

  /** All targets once, except that one target may have been requested a second time in a row. */
  predicate OnceWithRepeat(log: seq<Request>, targets: seq<string>, dup: nat) {
    2 <= dup <= |targets| && Targets(log) == targets[..dup] + targets[dup - 1..]
  }

  /** A crawl that was not aborted: which targets it requested depends on the first back-off only. */
  ghost predicate Complete(log: seq<Request>, targets: seq<string>) {
    if PairBlocked(log) then exists dup: nat :: OnceWithRepeat(log, targets, dup) else Targets(log) == targets
  }

  lemma ShapeAtEnd(log: seq<Request>, targets: seq<string>, i: nat, concurrency: nat, dup: nat)
    requires Shape(log, targets, i, concurrency, dup) && i >= |targets|
    ensures Complete(log, targets)
  {
    if dup > 0 {
      assert targets[dup - 1..i] == targets[dup - 1..];
      assert OnceWithRepeat(log, targets, dup);
    } else {
      assert targets[..|targets|] == targets;
    }
  }

  /** What is known of all the requests of a crawl. */
  ghost predicate ProperLog(log: seq<Request>, targets: seq<string>, aborted: bool) {
    && CalmBefore(log)
    && (if aborted then BlockedRun(log) == 10 else BlockedRun(log) < 10)
    && (if aborted then exists i: nat, dup: nat :: Requested(log, targets, i, dup) else Complete(log, targets))
  }

  method RunRounds(targets: seq<string>, world: (nat, string) -> Fetch, base: nat)
    returns (s: CrawlState, aborted: bool)
    ensures CrawlInv(s, world, base) && ProperLog(s.log, targets, aborted)
  {
    s := CrawlState(0, 2, base, 0, Counters([], {}, 0, 0, 0), []);
    ghost var dup: nat := 0;
    while s.i < |targets|
      invariant CrawlInv(s, world, base)
      invariant UnderWay(s, targets, dup) && BlockedRun(s.log) < 10
      decreases |targets| - s.i
    {
      ghost var was := s;
      s, aborted := CrawlRound(s, targets, world, base);
      RoundMovesOn(was, s, targets, dup);
      dup := DupAfter(was, s, targets, dup);
      assert Requested(s.log, targets, s.i, dup);
      if aborted {
        return;
      }
    }
    ShapeAtEnd(s.log, targets, s.i, s.concurrency, dup);
    aborted := false;
  }

  datatype CrawlEnd = CrawlEnd(items: Option<seq<Listing>>, log: seq<Request>, aborted: bool)

  /**
   * The crawl over shuffled targets. `items` is None when it throws: when nothing succeeded and
   * something was blocked.
   */
  method Crawl(keyword: string, maxResults: Option<int>, targets: seq<string>, world: (nat, string) -> Fetch, base: nat)
    returns (end: CrawlEnd)
    ensures Answered(end.log, world) && ProperLog(end.log, targets, end.aborted)
    ensures end.items.None? <==> !SomeFetched(end.log) && SomeBlocked(end.log)
    ensures end.items.Some? ==>
      end.items.value == SelectTop(keyword, Dedupe(AllItems(end.log)), if maxResults.Some? then maxResults.value else 20)
  {
    var max := if maxResults.Some? then maxResults.value else 20;
    var s, aborted := RunRounds(targets, world, base);
    NothingFetched(s.log);
    CountsAreExact(s.log);
    if s.counters.merged == [] && s.counters.forbidden > 0 && s.counters.success == 0 {
      return CrawlEnd(None, s.log, aborted);
    }
    end := CrawlEnd(Some(SelectTop(keyword, s.counters.merged, max)), s.log, aborted);
  }

  lemma {:induction false} NothingFetched(log: seq<Request>)
    ensures CountFetched(log) == 0 ==> AllItems(log) == [] && Dedupe(AllItems(log)) == []
  {
    if log == [] {
    } else {
      NothingFetched(log[..|log| - 1]);
    }
  }

  lemma RepeatCovers(targets: seq<string>, dup: nat)
    requires 2 <= dup <= |targets|
    ensures var all := targets[..dup] + targets[dup - 1..];
      |all| == |targets| + 1 && forall t :: t in targets <==> t in all
  {
    var all := targets[..dup] + targets[dup - 1..];
    forall t ensures t in targets <==> t in all {
      if t in targets {
        var i :| 0 <= i < |targets| && targets[i] == t;
        assert all[if i < dup then i else i + 1] == t;
      }
      if t in all {
        var i :| 0 <= i < |all| && all[i] == t;
        assert targets[if i < dup then i else i - 1] == t;
      }
    }
  }

  /**
   * A complete crawl requests every target, makes at most one request more than there are
   * targets, and makes that extra one exactly when a batch of two ended in four blocks in a row.
   */
  lemma CompleteCoversTargets(log: seq<Request>, targets: seq<string>)
    requires Complete(log, targets)
    ensures forall t :: t in targets <==> t in Targets(log)
    ensures |log| == |targets| + if PairBlocked(log) then 1 else 0
  {
    assert |log| == |Targets(log)|;
    if PairBlocked(log) {
      var dup: nat :| OnceWithRepeat(log, targets, dup);
      RepeatCovers(targets, dup);
    }
  }

  lemma {:induction false} SuccessfulItemsIn(log: seq<Request>, k: nat, item: Listing)
    requires k < |log| && log[k].answer.Fetched? && item in log[k].answer.items
    ensures item in AllItems(log)
  {
    if k == |log| - 1 {
    } else {
      SuccessfulItemsIn(log[..|log| - 1], k, item);
    }
  }

  lemma {:induction false} ItemsAreFetched(log: seq<Request>, item: Listing)
    requires item in AllItems(log)
    ensures exists k :: 0 <= k < |log| && log[k].answer.Fetched? && item in log[k].answer.items
  {
    var front := log[..|log| - 1];
    if item in AllItems(front) {
      ItemsAreFetched(front, item);
      var k :| 0 <= k < |front| && front[k].answer.Fetched? && item in front[k].answer.items;
      assert log[k] == front[k];
    }
  }

  ghost predicate FetchedUrl(log: seq<Request>, url: string) {
    exists k, item :: 0 <= k < |log| && log[k].answer.Fetched? && item in log[k].answer.items && item.url == url
  }

  /** The merged list: distinct URLs, and a URL is there exactly when some successful request had it. */
  lemma MergedIsExact(log: seq<Request>)
    ensures UrlsDistinct(Dedupe(AllItems(log)))
    ensures forall url :: url in Urls(Dedupe(AllItems(log))) <==> FetchedUrl(log, url)
  {
    var all := AllItems(log);
    DedupeIsExact(all);
    forall url ensures url in Urls(all) <==> FetchedUrl(log, url) {
      if url in Urls(all) {
        var i :| 0 <= i < |all| && all[i].url == url;
        ItemsAreFetched(log, all[i]);
        var k :| 0 <= k < |log| && log[k].answer.Fetched? && all[i] in log[k].answer.items;
        assert all[i].url == url;
      }
      if FetchedUrl(log, url) {
        var k, item :| 0 <= k < |log| && log[k].answer.Fetched? && item in log[k].answer.items && item.url == url;
        SuccessfulItemsIn(log, k, item);
        var i :| 0 <= i < |all| && all[i] == item;
      }
    }
  }

  /** The j-th item of the k-th request is the earliest one with its URL. */
  predicate Earliest(log: seq<Request>, k: int, j: int) {
    && 0 <= k < |log| && log[k].answer.Fetched? && 0 <= j < |log[k].answer.items|
    && (forall i | 0 <= i < j :: log[k].answer.items[i].url != log[k].answer.items[j].url)
    && (forall h | 0 <= h < k :: !HasUrl(log[h], log[k].answer.items[j].url))
  }

  predicate HasUrl(r: Request, url: string) {
    r.answer.Fetched? && exists i :: 0 <= i < |r.answer.items| && r.answer.items[i].url == url
  }

  lemma {:induction false} FirstIsEarliest(log: seq<Request>, p: nat)
    requires p < |AllItems(log)| && forall i | 0 <= i < p :: AllItems(log)[i].url != AllItems(log)[p].url
    ensures exists k, j :: Earliest(log, k, j) && log[k].answer.items[j] == AllItems(log)[p]
  {
    var front, n := log[..|log| - 1], |log| - 1;
    var all, before := AllItems(log), AllItems(front);
    if p < |before| {
      assert forall i | 0 <= i <= p :: all[i] == before[i];
      FirstIsEarliest(front, p);
      var k, j :| Earliest(front, k, j) && front[k].answer.items[j] == before[p];
      assert log[k] == front[k] && forall h | 0 <= h < k :: log[h] == front[h];
      assert Earliest(log, k, j);
    } else {
      var j := p - |before|;
      var items := log[n].answer.items;
      assert all == before + items && all[p] == items[j];
      assert forall i | 0 <= i < j :: items[i] == all[|before| + i];
      forall h | 0 <= h < n ensures !HasUrl(log[h], items[j].url) {
        NoneBefore(log, h, items[j].url);
      }
      assert Earliest(log, n, j);
    }
  }

  lemma NoneBefore(log: seq<Request>, h: nat, url: string)
    requires h < |log| - 1 && forall i | 0 <= i < |AllItems(log[..|log| - 1])| :: AllItems(log)[i].url != url
    ensures !HasUrl(log[h], url)
  {
    var front := log[..|log| - 1];
    var before := AllItems(front);
    assert forall i | 0 <= i < |before| :: before[i] == AllItems(log)[i];
    if HasUrl(log[h], url) {
      var i :| 0 <= i < |log[h].answer.items| && log[h].answer.items[i].url == url;
      assert front[h] == log[h];
      SuccessfulItemsIn(front, h, log[h].answer.items[i]);
    }
  }

  /** Of several items with one URL the merged list holds the one fetched first. */
  lemma MergedAreEarliest(log: seq<Request>, item: Listing)
    requires item in Dedupe(AllItems(log))
    ensures exists k, j :: Earliest(log, k, j) && log[k].answer.items[j] == item
  {
    var all := AllItems(log);
    DedupeIsExact(all);
    var i :| 0 <= i < |Dedupe(all)| && Dedupe(all)[i] == item;
    var p :| 0 <= p < |all| && all[p] == item && forall j | 0 <= j < p :: all[j].url != item.url;
    FirstIsEarliest(log, p);
  }

  function Power2(n: nat): nat {
    if n == 0 then 1 else 2 * Power2(n - 1)
  }

  /** After `n` back-offs the delay is the configured one times 2 to the n, and at most eight seconds. */
  lemma {:induction false} DelayIsExact(base: nat, n: nat)
    ensures n == 0 ==> Delay(base, n) == base
    ensures n > 0 ==> Delay(base, n) == Min(base * Power2(n), 8000)
  {
    if n > 0 {
      DelayIsExact(base, n - 1);
      assert base * Power2(n) == 2 * (base * Power2(n - 1));
    }
  }

  /** Back-off doubles the delay up to eight seconds (a longer configured delay is cut to that). */
  lemma {:induction false} DelayCapped(base: nat, n: nat)
    requires n > 0
    ensures Delay(base, n) <= 8000
    ensures base <= 8000 ==> Delay(base, n - 1) <= Delay(base, n)
  {
    if n <= 1 {
    } else {
      DelayCapped(base, n - 1);
    }
  }

  // ----- Shuffling the targets -----

  lemma SwapPermutes(s: seq<string>, t: seq<string>, i: nat, j: nat)
    requires i < |s| && j < |s| && t == s[i := s[j]][j := s[i]]
    ensures multiset(t) == multiset(s)
  {
  }

  /** The in-place shuffle of a copy, for any random choices: a permutation of the targets. */
  method Shuffle(items: seq<string>, choice: nat -> real) returns (shuffled: seq<string>)
    requires forall i :: 0.0 <= choice(i) < 1.0
    ensures multiset(shuffled) == multiset(items)
  {
    var arr := new string[|items|](i requires 0 <= i < |items| => items[i]);
    assert arr[..] == items;
    var i := arr.Length - 1;
    while i > 0
      invariant -1 <= i < arr.Length
      invariant multiset(arr[..]) == multiset(items)
    {
      var j := (choice(i) * (i + 1) as real).Floor;
      ChoiceInRange(choice(i), i + 1);
      ghost var before := arr[..];
      arr[i], arr[j] := arr[j], arr[i];
      SwapPermutes(before, arr[..], i, j);
      i := i - 1;
    }
    shuffled := arr[..];
  }

  lemma ChoiceInRange(x: real, n: nat)
    requires 0.0 <= x < 1.0 && n > 0
    ensures 0 <= (x * n as real).Floor < n
  {
    var m := n as real;
    assert 0.0 <= x * m;
    assert (1.0 - x) * m > 0.0;
    assert x * m < m;
  }
}
