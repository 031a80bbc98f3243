/**
 * The experiment driver of `main` and a serial reading of `runTest`: the test
 * cases are run in order, one summary each, and the summaries become the CSV
 * records.
 */
module Driver {
  import opened Wrappers
  import opened SeatStore
  import opened Aggregation
  import opened Report

  const TotalSeats: nat := 50
  const EventoID: int := 1

  datatype IsolationLevel = ReadCommitted | RepeatableRead | Serializable

  /** One row of the experiment matrix. */
  datatype TestCase = TestCase(numUsuarios: int, isolationName: string, isolation: IsolationLevel)

  const TestCases: seq<TestCase> := [
    TestCase(5, "READ COMMITTED", ReadCommitted),
    TestCase(10, "REPEATABLE READ", RepeatableRead),
    TestCase(20, "SERIALIZABLE", Serializable),
    TestCase(30, "SERIALIZABLE", Serializable)
  ]

  /**
   * The loop over the test cases: one summary per case, appended in order.
   * `trials[i]` holds the results the goroutines of case `i` sent on the channel.
   */
  method CollectResults(testCases: seq<TestCase>, trials: seq<seq<ReservationResult>>)
    returns (allResults: seq<TestResult>)
    requires |trials| == |testCases|
    ensures |allResults| == |testCases|
    ensures forall i :: 0 <= i < |testCases| ==>
              allResults[i] == Summary(testCases[i].numUsuarios, testCases[i].isolationName, trials[i])
    ensures forall i :: 0 <= i < |testCases| ==>
              && allResults[i].numUsuarios == testCases[i].numUsuarios
              && allResults[i].isolationName == testCases[i].isolationName
              && allResults[i].successCount + allResults[i].failureCount == |trials[i]|
  {
    allResults := [];
    for i := 0 to |testCases|
      invariant |allResults| == i
      invariant forall j :: 0 <= j < i ==>
                  allResults[j] == Summary(testCases[j].numUsuarios, testCases[j].isolationName, trials[j])
      invariant forall j :: 0 <= j < i ==>
                  allResults[j].successCount + allResults[j].failureCount == |trials[j]|
    {
      var result := Aggregate(testCases[i].numUsuarios, testCases[i].isolationName, trials[i]);
      allResults := allResults + [result];
    }
  }

  /** The end of `main`: collect the summaries, then build the CSV records from them. */
  method Experiment(testCases: seq<TestCase>, trials: seq<seq<ReservationResult>>)
    returns (allResults: seq<TestResult>, rows: seq<seq<Field>>)
    requires |trials| == |testCases|
    ensures |allResults| == |testCases| && |rows| == |testCases| + 1 && rows[0] == Header
    ensures forall i :: 0 <= i < |testCases| ==>
              && rows[i + 1] == Record(allResults[i])
              && rows[i + 1][0] == Num(testCases[i].numUsuarios)
              && rows[i + 1][1] == Text(testCases[i].isolationName)
              && rows[i + 1][2].Num? && rows[i + 1][3].Num?
              && rows[i + 1][2].n + rows[i + 1][3].n == |trials[i]|
  {
    allResults := CollectResults(testCases, trials);
    rows := ExportRows(allResults);
  }

  // ---------------------------------------------------------------------------
  // One trial, with its attempts run one after another

  /** What the environment decides for one client: the seat drawn, the database fault, the time it took. */
  datatype Attempt = Attempt(asientoNum: int, fault: ReserveFault, duration: int)

  function DigitChar(d: nat): char
    requires d < 10
  {
    "0123456789"[d]
  }

  function Decimal(n: nat): string
    decreases n
  {
    if n < 10 then [DigitChar(n)] else Decimal(n / 10) + [DigitChar(n % 10)]
  }

  /** `fmt.Sprintf("user_%d", i+1)`. */
  function UserId(i: nat): string {
    "user_" + Decimal(i + 1)
  }

  /** The store after a run of attempts, and the result recorded for each attempt. */
  datatype Run = Run(db: Db, results: seq<ReservationResult>)

  /**
   * The attempts of one trial applied one after another to `db`, client `i`
   * as `UserId(i)`. Each result records whether that client's transaction
   * committed (`success := err == nil`) and the time it took.
   */
  function RunAttempts(db: Db, eventoID: int, attempts: seq<Attempt>): (r: Run)
    ensures |r.results| == |attempts|
    ensures SameRows(db.asientos, r.db.asientos)
    ensures forall i :: 0 <= i < |attempts| ==> r.results[i].duration == attempts[i].duration
    ensures forall i :: 0 <= i < |attempts| && attempts[i].fault != NoFault ==> !r.results[i].success
    ensures forall i :: 0 <= i < |attempts| && SeatKey(eventoID, attempts[i].asientoNum) !in db.asientos ==>
              !r.results[i].success
    ensures forall i :: 0 <= i < |attempts| && r.results[i].success ==>
              && SeatKey(eventoID, attempts[i].asientoNum) in r.db.asientos
              && r.db.asientos[SeatKey(eventoID, attempts[i].asientoNum)].estado == Reservado
    decreases |attempts|
  {
    if attempts == [] then Run(db, [])
    else
      var n := |attempts| - 1;
      var prev := RunAttempts(db, eventoID, attempts[..n]);
      var s := Reserve(prev.db, eventoID, attempts[n].asientoNum, UserId(n), attempts[n].fault);
      Run(s.db, prev.results + [ReservationResult(s.outcome.Pass?, attempts[n].duration)])
  }

  /** In a serial run no seat number is won by two clients: the winner's seat is no longer available. */
  lemma {:induction false} NoSeatWonTwice(db: Db, eventoID: int, attempts: seq<Attempt>)
    ensures var r := RunAttempts(db, eventoID, attempts);
            forall i, j :: 0 <= i < j < |attempts| && r.results[i].success && r.results[j].success ==>
              attempts[i].asientoNum != attempts[j].asientoNum
    decreases |attempts|
  {
    if attempts != [] {
      var n := |attempts| - 1;
      var prev := RunAttempts(db, eventoID, attempts[..n]);
      var r := RunAttempts(db, eventoID, attempts);
      NoSeatWonTwice(db, eventoID, attempts[..n]);
      forall i, j | 0 <= i < j < |attempts| && r.results[i].success && r.results[j].success
        ensures attempts[i].asientoNum != attempts[j].asientoNum
      {
        if j == n {
          assert prev.results[i].success;
          assert prev.db.asientos[SeatKey(eventoID, attempts[i].asientoNum)].estado == Reservado;
        } else {
          assert prev.results[i].success && prev.results[j].success;
        }
      }
    }
  }

  /**
   * A serial run keeps the event's invariant and adds one booking among the
   * event's seats per successful attempt; it keeps the global invariant too.
   */
  lemma {:induction false} RunAttemptsBookings(db: Db, eventoID: int, attempts: seq<Attempt>)
    requires EventSafe(db, eventoID)
    ensures var r := RunAttempts(db, eventoID, attempts);
            && EventSafe(r.db, eventoID)
            && BookedIn(r.db.reservas, EventIds(r.db.asientos, eventoID)) ==
                 BookedIn(db.reservas, EventIds(db.asientos, eventoID)) + CountSuccess(r.results)
            && (BookingInvariant(db) ==> BookingInvariant(r.db))
    decreases |attempts|
  {
    if attempts != [] {
      var n := |attempts| - 1;
      var prev := RunAttempts(db, eventoID, attempts[..n]);
      RunAttemptsBookings(db, eventoID, attempts[..n]);
      var a := attempts[n];
      var s := Reserve(prev.db, eventoID, a.asientoNum, UserId(n), a.fault);
      ReservePreservesEventSafe(prev.db, eventoID, a.asientoNum, UserId(n), a.fault);
      ReserveCountsBooking(prev.db, eventoID, a.asientoNum, UserId(n), a.fault);
      if BookingInvariant(db) {
        ReservePreservesInvariant(prev.db, eventoID, a.asientoNum, UserId(n), a.fault);
      }
      AppendCounts(prev.results, ReservationResult(s.outcome.Pass?, a.duration));
    }
  }

  /** The seat numbers `rnd.Intn(totalSeats) + 1` can draw. */
  function SeatNumbers(totalSeats: int): (s: set<int>)
    ensures forall x :: x in s <==> 1 <= x <= totalSeats
    ensures totalSeats >= 0 ==> |s| == totalSeats
    decreases totalSeats
  {
    if totalSeats <= 0 then {} else SeatNumbers(totalSeats - 1) + {totalSeats}
  }

  /** Successful attempts on pairwise distinct seat numbers drawn from `seats` number at most |seats|. */
  lemma {:induction false} DistinctWinsBound(results: seq<ReservationResult>, attempts: seq<Attempt>, seats: set<int>)
    requires |results| == |attempts|
    requires forall i :: 0 <= i < |results| && results[i].success ==> attempts[i].asientoNum in seats
    requires forall i, j :: 0 <= i < j < |results| && results[i].success && results[j].success ==>
               attempts[i].asientoNum != attempts[j].asientoNum
    ensures CountSuccess(results) <= |seats|
  {
    if results != [] {
      var n := |results| - 1;
      if results[n].success {
        DistinctWinsBound(results[..n], attempts[..n], seats - {attempts[n].asientoNum});
      } else {
        DistinctWinsBound(results[..n], attempts[..n], seats);
      }
    }
  }

  /**
   * What a serial trial guarantees, from any store with unique row ids: after
   * the reset and the attempts, the event's invariant holds, the successes
   * are exactly the event's bookings, and they number at most the event's
   * seats and at most `totalSeats`.
   */
  lemma SerialTrialBookings(db: Db, eventoID: int, totalSeats: int, attempts: seq<Attempt>)
    requires UniqueIds(db.asientos)
    requires totalSeats > 0 && forall i :: 0 <= i < |attempts| ==> 1 <= attempts[i].asientoNum <= totalSeats
    ensures var run := RunAttempts(Reset(db, eventoID, ResetOk).db, eventoID, attempts);
            && EventSafe(run.db, eventoID)
            && CountSuccess(run.results) == BookedIn(run.db.reservas, EventIds(run.db.asientos, eventoID))
            && CountSuccess(run.results) <= |EventKeys(db.asientos, eventoID)|
            && CountSuccess(run.results) <= totalSeats
            && (BookingInvariant(db) ==> BookingInvariant(run.db))
  {
    var afterReset := Reset(db, eventoID, ResetOk).db;
    var run := RunAttempts(afterReset, eventoID, attempts);
    ResetPostState(db, eventoID);
    ResetMakesEventSafe(db, eventoID);
    if BookingInvariant(db) {
      ResetPreservesInvariant(db, eventoID);
    }
    SameRowsKeepIds(db.asientos, afterReset.asientos, eventoID);
    RunAttemptsBookings(afterReset, eventoID, attempts);
    SameRowsKeepIds(afterReset.asientos, run.db.asientos, eventoID);
    BookingsWithinSeats(run.db, eventoID);
    NoSeatWonTwice(afterReset, eventoID, attempts);
    DistinctWinsBound(run.results, attempts, SeatNumbers(totalSeats));
  }

  /**
   * `runTest` with its attempts executed one at a time, in client order: reset
   * the event (a failed reset ends the run: `None`), let each client try its
   * seat, then aggregate. The isolation level plays no part in a serial run.
   */
  method SerialTrial(store: Store, tc: TestCase, eventoID: int, totalSeats: int, resetFault: ResetFault,
                     attempts: seq<Attempt>)
    returns (results: seq<ReservationResult>, summary: Option<TestResult>)
    requires store.Valid()
    requires |attempts| == tc.numUsuarios
    requires totalSeats > 0 && forall i :: 0 <= i < |attempts| ==> 1 <= attempts[i].asientoNum <= totalSeats
    modifies store
    ensures store.Valid()
    ensures summary.None? <==> !resetFault.ResetOk?
    ensures summary.None? ==> results == [] && store.State() == Reset(old(store.State()), eventoID, resetFault).db
    ensures summary.Some? ==>
              var run := RunAttempts(Reset(old(store.State()), eventoID, ResetOk).db, eventoID, attempts);
              && store.State() == run.db
              && results == run.results
              && summary.value == Summary(tc.numUsuarios, tc.isolationName, results)
              && summary.value.successCount + summary.value.failureCount == tc.numUsuarios
              && summary.value.successCount <= totalSeats
              && EventSafe(store.State(), eventoID)
              && summary.value.successCount == BookedIn(store.reservas, EventIds(store.asientos, eventoID))
              && summary.value.successCount <= |EventKeys(old(store.asientos), eventoID)|
              && (BookingInvariant(old(store.State())) ==> BookingInvariant(store.State()))
  {
    ghost var initial := store.State();
    var reset := store.ResetAllSeats(eventoID, resetFault);
    if reset.Fail? {
      return [], None;
    }
    ghost var afterReset := store.State();
    results := [];
    for i := 0 to |attempts|
      invariant store.Valid()
      invariant store.State() == RunAttempts(afterReset, eventoID, attempts[..i]).db
      invariant results == RunAttempts(afterReset, eventoID, attempts[..i]).results
    {
      assert attempts[..i + 1][..i] == attempts[..i];
      var outcome := store.ReserveAsiento(eventoID, attempts[i].asientoNum, UserId(i), attempts[i].fault);
      results := results + [ReservationResult(outcome.Pass?, attempts[i].duration)];
    }
    assert attempts[..|attempts|] == attempts;
    var t := Aggregate(tc.numUsuarios, tc.isolationName, results);
    SerialTrialBookings(initial, eventoID, totalSeats, attempts);
    summary := Some(t);
  }

  /** A test case's summary as `runTest` returns it with 50 seats. */
  predicate SummaryOf(t: TestResult, tc: TestCase)
  {
    && t.numUsuarios == tc.numUsuarios
    && t.isolationName == tc.isolationName
    && t.successCount + t.failureCount == tc.numUsuarios
    && t.successCount <= TotalSeats
  }

  /**
   * One call of `runTest` for test case `tc` on event 1, on a database
   * value: the reset, then the attempts in client order, then the summary.
   * A failed reset yields no summary and the store the reset left.
   */
  function CaseStep(db: Db, tc: TestCase, resetFault: ResetFault, attempts: seq<Attempt>): (Db, Option<TestResult>) {
    if !resetFault.ResetOk? then (Reset(db, EventoID, resetFault).db, None)
    else
      var run := RunAttempts(Reset(db, EventoID, ResetOk).db, EventoID, attempts);
      (run.db, Some(Summary(tc.numUsuarios, tc.isolationName, run.results)))
  }

  /** Where `main` stands: the store, the summaries so far, and whether `log.Fatalf` has stopped it. */
  datatype MainState = MainState(db: Db, results: seq<TestResult>, halted: bool)

  /** `main`'s loop over the first `n` test cases, each a `CaseStep`; a failed reset stops it. */
  function MainRun(db: Db, n: nat, resetFaults: seq<ResetFault>, attempts: seq<seq<Attempt>>): (m: MainState)
    requires n <= |TestCases| && n <= |resetFaults| && n <= |attempts|
    ensures m.halted <==> exists k :: 0 <= k < n && !resetFaults[k].ResetOk?
    ensures !m.halted ==> |m.results| == n
    ensures |m.results| <= n
  {
    if n == 0 then MainState(db, [], false)
    else
      var prev := MainRun(db, n - 1, resetFaults, attempts);
      if prev.halted then prev
      else
        var (d, s) := CaseStep(prev.db, TestCases[n - 1], resetFaults[n - 1], attempts[n - 1]);
        if s.None? then MainState(d, prev.results, true) else MainState(d, prev.results + [s.value], false)
  }

  /** Once `main` has stopped, the later test cases change nothing. */
  lemma {:induction false} MainRunHaltedStays(db: Db, k: nat, n: nat, resetFaults: seq<ResetFault>,
                                              attempts: seq<seq<Attempt>>)
    requires k <= n <= |TestCases| && n <= |resetFaults| && n <= |attempts|
    requires MainRun(db, k, resetFaults, attempts).halted
    ensures MainRun(db, n, resetFaults, attempts) == MainRun(db, k, resetFaults, attempts)
  {
    if n > k {
      MainRunHaltedStays(db, k, n - 1, resetFaults, attempts);
    }
  }

  /** Summaries are only ever appended: those of the first `k` cases open those of the first `n`. */
  lemma {:induction false} MainRunPrefix(db: Db, k: nat, n: nat, resetFaults: seq<ResetFault>,
                                         attempts: seq<seq<Attempt>>)
    requires k <= n <= |TestCases| && n <= |resetFaults| && n <= |attempts|
    ensures MainRun(db, k, resetFaults, attempts).results <= MainRun(db, n, resetFaults, attempts).results
  {
    if n > k {
      MainRunPrefix(db, k, n - 1, resetFaults, attempts);
    }
  }

  /** When `main` runs through, summary `i` is what `runTest` computes for case `i` on the store the earlier cases left. */
  lemma MainRunCase(db: Db, i: nat, n: nat, resetFaults: seq<ResetFault>, attempts: seq<seq<Attempt>>)
    requires i < n <= |TestCases| && n <= |resetFaults| && n <= |attempts|
    requires !MainRun(db, n, resetFaults, attempts).halted
    ensures CaseStep(MainRun(db, i, resetFaults, attempts).db, TestCases[i], resetFaults[i], attempts[i]).1
            == Some(MainRun(db, n, resetFaults, attempts).results[i])
  {
    MainRunPrefix(db, i + 1, n, resetFaults, attempts);
  }

  /**
   * One test case keeps unique row ids, and its summary belongs to it: the
   * user count and name passed through, the counts adding up to the user
   * count, at most 50 successes.
   */
  lemma CaseStepFacts(db: Db, tc: TestCase, resetFault: ResetFault, attempts: seq<Attempt>)
    requires UniqueIds(db.asientos)
    requires |attempts| == tc.numUsuarios
    requires forall j :: 0 <= j < |attempts| ==> 1 <= attempts[j].asientoNum <= TotalSeats
    ensures var (d, s) := CaseStep(db, tc, resetFault, attempts);
            UniqueIds(d.asientos) && (s.Some? ==> SummaryOf(s.value, tc))
  {
    var afterReset := Reset(db, EventoID, resetFault).db;
    SameRowsKeepIds(db.asientos, afterReset.asientos, EventoID);
    if resetFault.ResetOk? {
      var run := RunAttempts(afterReset, EventoID, attempts);
      SameRowsKeepIds(afterReset.asientos, run.db.asientos, EventoID);
      SerialTrialBookings(db, EventoID, TotalSeats, attempts);
      Partition(run.results);
    }
  }

  /** Every summary `main` collects belongs to its test case, and the store keeps unique row ids throughout. */
  lemma {:induction false} MainRunSummaries(db: Db, n: nat, resetFaults: seq<ResetFault>, attempts: seq<seq<Attempt>>)
    requires UniqueIds(db.asientos)
    requires n <= |TestCases| && n <= |resetFaults| && n <= |attempts|
    requires forall i :: 0 <= i < n ==> |attempts[i]| == TestCases[i].numUsuarios
    requires forall i, j :: 0 <= i < n && 0 <= j < |attempts[i]| ==> 1 <= attempts[i][j].asientoNum <= TotalSeats
    ensures var m := MainRun(db, n, resetFaults, attempts);
            && UniqueIds(m.db.asientos)
            && forall i :: 0 <= i < |m.results| ==> SummaryOf(m.results[i], TestCases[i])
  {
    if n > 0 {
      MainRunSummaries(db, n - 1, resetFaults, attempts);
      var prev := MainRun(db, n - 1, resetFaults, attempts);
      if !prev.halted {
        var step := CaseStep(prev.db, TestCases[n - 1], resetFaults[n - 1], attempts[n - 1]);
        CaseStepFacts(prev.db, TestCases[n - 1], resetFaults[n - 1], attempts[n - 1]);
        assert MainRun(db, n, resetFaults, attempts).results
               == if step.1.None? then prev.results else prev.results + [step.1.value];
      }
    }
  }

  /** One iteration of `main`'s loop: `runTest` for one case, event 1, 50 seats. */
  method RunCase(store: Store, tc: TestCase, resetFault: ResetFault, attempts: seq<Attempt>)
    returns (summary: Option<TestResult>)
    requires store.Valid()
    requires |attempts| == tc.numUsuarios
    requires forall j :: 0 <= j < |attempts| ==> 1 <= attempts[j].asientoNum <= TotalSeats
    modifies store
    ensures store.Valid()
    ensures summary.None? <==> !resetFault.ResetOk?
    ensures (store.State(), summary) == CaseStep(old(store.State()), tc, resetFault, attempts)
    ensures summary.Some? ==> SummaryOf(summary.value, tc)
  {
    var _, s := SerialTrial(store, tc, EventoID, TotalSeats, resetFault, attempts);
    summary := s;
  }

  /**
   * `main` run serially: the test cases in order, each trial on the same
   * store, then the CSV records. A failed reset stops the program before
   * any record is built.
   */
  method SerialMain(store: Store, resetFaults: seq<ResetFault>, attempts: seq<seq<Attempt>>)
    returns (allResults: seq<TestResult>, rows: Option<seq<seq<Field>>>)
    requires store.Valid()
    requires |resetFaults| == |TestCases| && |attempts| == |TestCases|
    requires forall i :: 0 <= i < |TestCases| ==> |attempts[i]| == TestCases[i].numUsuarios
    requires forall i, j :: 0 <= i < |TestCases| && 0 <= j < |attempts[i]| ==> 1 <= attempts[i][j].asientoNum <= TotalSeats
    modifies store
    ensures store.Valid()
    ensures rows.Some? <==> forall i :: 0 <= i < |TestCases| ==> resetFaults[i].ResetOk?
    ensures var m := MainRun(old(store.State()), |TestCases|, resetFaults, attempts);
            store.State() == m.db && allResults == m.results && (rows.Some? <==> !m.halted)
    ensures rows.Some? ==>
              && |allResults| == |TestCases|
              && |rows.value| == |TestCases| + 1
              && rows.value[0] == Header
              && forall i :: 0 <= i < |TestCases| ==>
                   rows.value[i + 1] == Record(allResults[i]) && SummaryOf(allResults[i], TestCases[i])
  {
    ghost var initial := store.State();
    allResults := [];
    for i := 0 to |TestCases|
      invariant store.Valid()
      invariant !MainRun(initial, i, resetFaults, attempts).halted
      invariant store.State() == MainRun(initial, i, resetFaults, attempts).db
      invariant allResults == MainRun(initial, i, resetFaults, attempts).results
    {
      var summary := RunCase(store, TestCases[i], resetFaults[i], attempts[i]);
      if summary.None? {
        MainRunHaltedStays(initial, i + 1, |TestCases|, resetFaults, attempts);
        return allResults, None;
      }
      allResults := allResults + [summary.value];
    }
    MainRunSummaries(initial, |TestCases|, resetFaults, attempts);
    var csv := ExportRows(allResults);
    rows := Some(csv);
  }
}
