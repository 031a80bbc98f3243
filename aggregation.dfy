/**
 * The reduction at the end of `runTest`: the per-attempt results collected
 * from the channel become one summary with a success counter, a failure
 * counter and the average duration.
 */
module Aggregation {

  /** One attempt's outcome; `duration` is a `time.Duration`, in nanoseconds. */
  datatype ReservationResult = ReservationResult(success: bool, duration: int)

  /** The summary of one test case. */
  datatype TestResult = TestResult(
    numUsuarios: int,
    isolationName: string,
    successCount: int,
    failureCount: int,
    avgDuration: int)

  function CountSuccess(rs: seq<ReservationResult>): nat {
    if rs == [] then 0 else CountSuccess(rs[..|rs| - 1]) + (if rs[|rs| - 1].success then 1 else 0)
  }

  function CountFailure(rs: seq<ReservationResult>): nat {
    if rs == [] then 0 else CountFailure(rs[..|rs| - 1]) + (if rs[|rs| - 1].success then 0 else 1)
  }

  function TotalDuration(rs: seq<ReservationResult>): int {
    if rs == [] then 0 else TotalDuration(rs[..|rs| - 1]) + rs[|rs| - 1].duration
  }

  /** Positions of the successful results. */
  function SuccessIndices(rs: seq<ReservationResult>): set<int> {
    set i | 0 <= i < |rs| && rs[i].success
  }

  /** Go's integer division, which truncates toward zero (Dafny's `/` is Euclidean). */
  function QuoTrunc(a: int, b: int): (q: int)
    requires b > 0
    ensures a >= 0 ==> 0 <= q && q * b <= a < (q + 1) * b
    ensures a < 0 ==> q <= 0 && (q - 1) * b < a <= q * b
  {
    if a >= 0 then
      EuclidBounds(a, b);
      a / b
    else
      var p := (-a) / b;
      EuclidBounds(-a, b);
      assert (-p - 1) * b == -((p + 1) * b);
      assert -p * b == -(p * b);
      -p
  }

  /** For a non-negative dividend, Euclidean and truncating division agree, bracketed by the divisor. */
  lemma EuclidBounds(a: int, b: int)
    requires a >= 0 && b > 0
    ensures 0 <= a / b && (a / b) * b <= a < (a / b + 1) * b
  {
    var q, r := a / b, a % b;
    assert a == q * b + r && 0 <= r < b;
    assert (q + 1) * b == q * b + b;
  }

  /** `avgDuration`: zero when nothing was counted, else the truncated mean. */
  function AvgDuration(total: int, count: int): (avg: int)
    ensures count <= 0 ==> avg == 0
    ensures count > 0 && total >= 0 ==> avg * count <= total < (avg + 1) * count
    ensures count > 0 && total < 0 ==> (avg - 1) * count < total <= avg * count
  {
    if count > 0 then QuoTrunc(total, count) else 0
  }

  /** The summary `runTest` returns for the collected results `rs`. */
  function Summary(numUsuarios: int, isolationName: string, rs: seq<ReservationResult>): TestResult {
    TestResult(numUsuarios, isolationName, CountSuccess(rs), CountFailure(rs),
               AvgDuration(TotalDuration(rs), |rs|))
  }

  lemma AppendCounts(rs: seq<ReservationResult>, r: ReservationResult)
    ensures CountSuccess(rs + [r]) == CountSuccess(rs) + (if r.success then 1 else 0)
    ensures CountFailure(rs + [r]) == CountFailure(rs) + (if r.success then 0 else 1)
    ensures TotalDuration(rs + [r]) == TotalDuration(rs) + r.duration
  {
    assert (rs + [r])[..|rs|] == rs;
  }

  /** Every result is counted exactly once, as a success or as a failure. */
  lemma {:induction false} Partition(rs: seq<ReservationResult>)
    ensures CountSuccess(rs) + CountFailure(rs) == |rs|
  {
    if rs != [] { Partition(rs[..|rs| - 1]); }
  }

  /** The success counter is the number of results whose `success` is true. */
  lemma {:induction false} CountSuccessIsNumberOfSuccesses(rs: seq<ReservationResult>)
    ensures CountSuccess(rs) == |SuccessIndices(rs)|
  {
    if rs != [] {
      var init := rs[..|rs| - 1];
      CountSuccessIsNumberOfSuccesses(init);
      var last := |rs| - 1;
      if rs[last].success {
        assert SuccessIndices(rs) == SuccessIndices(init) + {last};
      } else {
        assert SuccessIndices(rs) == SuccessIndices(init);
      }
    }
  }

  lemma {:induction false} TotalNonNegative(rs: seq<ReservationResult>)
    requires forall i :: 0 <= i < |rs| ==> rs[i].duration >= 0
    ensures TotalDuration(rs) >= 0
  {
    if rs != [] { TotalNonNegative(rs[..|rs| - 1]); }
  }

  /** Taking the result at position `j` out of the sequence takes its share out of each tally. */
  lemma {:induction false} RemoveAt(rs: seq<ReservationResult>, j: int)
    requires 0 <= j < |rs|
    ensures var rest := rs[..j] + rs[j + 1..];
            && CountSuccess(rs) == CountSuccess(rest) + (if rs[j].success then 1 else 0)
            && CountFailure(rs) == CountFailure(rest) + (if rs[j].success then 0 else 1)
            && TotalDuration(rs) == TotalDuration(rest) + rs[j].duration
  {
    var n := |rs|;
    var init := rs[..n - 1];
    var rest := rs[..j] + rs[j + 1..];
    if j == n - 1 {
      assert rest == init;
    } else {
      var restInit := init[..j] + init[j + 1..];
      RemoveAt(init, j);
      assert rest == restInit + [rs[n - 1]];
      AppendCounts(restInit, rs[n - 1]);
    }
  }

  /**
   * The channel hands results over in whatever order the goroutines finish:
   * the tallies depend only on the multiset of results.
   */
  lemma {:induction false} TalliesIgnoreOrder(a: seq<ReservationResult>, b: seq<ReservationResult>)
    requires multiset(a) == multiset(b)
    ensures CountSuccess(a) == CountSuccess(b)
    ensures CountFailure(a) == CountFailure(b)
    ensures TotalDuration(a) == TotalDuration(b)
    decreases |a|
  {
    if a == [] {
      assert |b| == |multiset(b)| == 0;
    } else {
      var init, last := a[..|a| - 1], a[|a| - 1];
      assert a == init + [last];
      assert last in multiset(b);
      var j :| 0 <= j < |b| && b[j] == last;
      var rest := b[..j] + b[j + 1..];
      assert b == b[..j] + [b[j]] + b[j + 1..];
      assert multiset(rest) == multiset(b) - multiset{last};
      TalliesIgnoreOrder(init, rest);
      RemoveAt(b, j);
    }
  }

  lemma SummaryIgnoresOrder(numUsuarios: int, isolationName: string, a: seq<ReservationResult>, b: seq<ReservationResult>)
    requires multiset(a) == multiset(b)
    ensures Summary(numUsuarios, isolationName, a) == Summary(numUsuarios, isolationName, b)
  {
    TalliesIgnoreOrder(a, b);
    assert |a| == |multiset(a)| == |b|;
  }

  /**
   * The reduction loop of `runTest`: one pass over the results updating the
   * counters and the total, then the guarded truncating division.
   */
  method Aggregate(numUsuarios: int, isolationName: string, results: seq<ReservationResult>)
    returns (t: TestResult)
    ensures t.numUsuarios == numUsuarios && t.isolationName == isolationName
    ensures t.successCount == CountSuccess(results) == |SuccessIndices(results)|
    ensures t.successCount + t.failureCount == |results|
    ensures |results| == 0 ==> t.avgDuration == 0
    ensures (forall i :: 0 <= i < |results| ==> results[i].duration >= 0) && |results| > 0 ==>
              t.avgDuration * |results| <= TotalDuration(results) < (t.avgDuration + 1) * |results|
    ensures t == Summary(numUsuarios, isolationName, results)
  {
    var successCount, failureCount, totalDuration, count := 0, 0, 0, 0;
    for i := 0 to |results|
      invariant count == i
      invariant successCount == CountSuccess(results[..i])
      invariant failureCount == CountFailure(results[..i])
      invariant totalDuration == TotalDuration(results[..i])
    {
      var r := results[i];
      assert results[..i + 1] == results[..i] + [r];
      AppendCounts(results[..i], r);
      count := count + 1;
      totalDuration := totalDuration + r.duration;
      if r.success {
        successCount := successCount + 1;
      } else {
        failureCount := failureCount + 1;
      }
    }
    assert results[..|results|] == results;
    var avgDuration := 0;
    if count > 0 {
      avgDuration := QuoTrunc(totalDuration, count);
    }
    Partition(results);
    CountSuccessIsNumberOfSuccesses(results);
    if forall i :: 0 <= i < |results| ==> results[i].duration >= 0 {
      TotalNonNegative(results);
    }
    t := TestResult(numUsuarios, isolationName, successCount, failureCount, avgDuration);
  }
}
