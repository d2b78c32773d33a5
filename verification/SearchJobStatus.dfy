/**
 * Keyword-level and job-level status of a Search Job (search-job-status.util.ts).
 *
 * The three status sets of the source partition the statuses a keyword row can hold; the
 * job status is decided by counting them, and job progress by averaging per-row shares.
 */
module SearchJobStatus {
  import opened Common

  /** Status of one keyword row: the crawl history statuses plus the watcher's `timeout`. */
  datatype RowStatus =
    | RowPending | RowQueued | RowRunning
    | RowCompleted | RowPartial | RowCached | RowFailed | RowTimeout

  datatype JobStatus = Pending | Queued | Running | Completed | Partial | Failed

  predicate IsTerminal(s: RowStatus) {
    s.RowCompleted? || s.RowPartial? || s.RowFailed? || s.RowCached? || s.RowTimeout?
  }

  predicate IsSuccess(s: RowStatus) {
    s.RowCompleted? || s.RowPartial? || s.RowCached?
  }

  predicate IsFailure(s: RowStatus) {
    s.RowFailed? || s.RowTimeout?
  }

  predicate JobIsTerminal(s: JobStatus) {
    s.Completed? || s.Partial? || s.Failed?
  }

  /** Every status is unfinished, a success or a failure, and only one of them. */
  lemma StatusesPartition(s: RowStatus)
    ensures IsTerminal(s) <==> !(s == RowPending || s == RowQueued || s == RowRunning)
    ensures IsTerminal(s) <==> IsSuccess(s) || IsFailure(s)
    ensures IsFailure(s) <==> s == RowFailed || s == RowTimeout
    ensures IsSuccess(s) ==> !IsFailure(s)
  {
  }

  /** How many statuses satisfy `p`: the `filter(p).length` of the source. */
  function CountWhere(statuses: seq<RowStatus>, p: RowStatus -> bool): (n: nat)
    ensures n <= |statuses|
  {
    if statuses == [] then 0
    else (if p(statuses[0]) then 1 else 0) + CountWhere(statuses[1..], p)
  }

  function ResolveJobStatus(statuses: seq<RowStatus>): JobStatus {
    if |statuses| == 0 then Failed
    else
      var successCount := CountWhere(statuses, IsSuccess);
      var failureCount := CountWhere(statuses, IsFailure);
      if successCount == |statuses| then Completed
      else if failureCount == |statuses| then Failed
      else if successCount > 0 then Partial
      else Failed
  }

  lemma {:induction false} CountExtremes(statuses: seq<RowStatus>, p: RowStatus -> bool)
    ensures CountWhere(statuses, p) == |statuses| <==> forall s :: s in statuses ==> p(s)
    ensures CountWhere(statuses, p) == 0 <==> forall s :: s in statuses ==> !p(s)
  {
    if statuses == [] {
    } else {
      CountExtremes(statuses[1..], p);
      assert statuses == [statuses[0]] + statuses[1..];
    }
  }

  /**
   * The verdict depends only on whether some row succeeded and whether some row did not,
   * for every list of statuses, finished or not.
   */
  lemma ResolveIsExact(statuses: seq<RowStatus>)
    ensures ResolveJobStatus(statuses).Completed?
       <==> statuses != [] && forall s :: s in statuses ==> IsSuccess(s)
    ensures ResolveJobStatus(statuses).Failed?
       <==> forall s :: s in statuses ==> !IsSuccess(s)
    ensures ResolveJobStatus(statuses).Partial?
       <==> (exists s :: s in statuses && IsSuccess(s)) && (exists s :: s in statuses && !IsSuccess(s))
  {
    CountExtremes(statuses, IsSuccess);
    CountExtremes(statuses, IsFailure);
    if statuses != [] {
      assert statuses[0] in statuses;
    }
  }

  /** One row's contribution to job progress; `percent` is absent or a finite number. */
  datatype ProgressItem = ProgressItem(status: RowStatus, percent: Option<real>)

  function ItemShare(item: ProgressItem): int {
    if IsTerminal(item.status) then 100
    else if item.percent.Some? then ClampScore(item.percent.value)
    else if item.status.RowRunning? then 50
    else 10
  }

  function SumShares(items: seq<ProgressItem>): int {
    if items == [] then 0 else ItemShare(items[0]) + SumShares(items[1..])
  }

  function AggregateProgress(items: seq<ProgressItem>): int {
    if |items| == 0 then 0 else ClampScore(SumShares(items) as real / |items| as real)
  }

  lemma {:induction false} SharesBounded(items: seq<ProgressItem>)
    ensures 0 <= SumShares(items) <= 100 * |items|
    ensures (forall i :: i in items ==> IsTerminal(i.status)) ==> SumShares(items) == 100 * |items|
  {
    if items == [] {
    } else {
      SharesBounded(items[1..]);
      assert items == [items[0]] + items[1..];
    }
  }

  /** Job progress is a percentage, 0 without rows, and every row being finished makes it exactly 100. */
  lemma AggregateIsPercentage(items: seq<ProgressItem>)
    ensures 0 <= AggregateProgress(items) <= 100
    ensures items == [] ==> AggregateProgress(items) == 0
    ensures items != [] && (forall i :: i in items ==> IsTerminal(i.status)) ==> AggregateProgress(items) == 100
  {
    SharesBounded(items);
    if items != [] && forall i :: i in items ==> IsTerminal(i.status) {
      FullAverage(SumShares(items), |items|);
    }
  }

  lemma FullAverage(sum: int, n: nat)
    requires n > 0 && sum == 100 * n
    ensures ClampScore(sum as real / n as real) == 100
  {
    HundredEach(sum as real, n as real);
    RoundOfInt(100);
  }

  lemma HundredEach(sum: real, n: real)
    requires n > 0.0 && sum == 100.0 * n
    ensures sum / n == 100.0
  {
  }
}
