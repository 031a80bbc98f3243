# Seat-reservation stress test: a Dafny model

The program stress-tests seat booking for one event in a PostgreSQL store.
A number of simulated users each try to book a random seat. Each try is a
transaction that reads the seat row with `SELECT ... FOR UPDATE`. If the row
says `"disponible"`, the transaction marks it `"reservado"` and inserts a
reservation marked `"exitosa"`; otherwise it rolls back. Before each test
case the event's seats are reset. After each test case the per-attempt
results are aggregated into a summary: success count, failure count and
average duration. At the end the summaries become a CSV file.

The row lock serializes attempts on the same seat, so the model takes each
transaction as one atomic step on an in-memory store. It has five modules:

- `Wrappers`: `Option` and `Outcome` (an error return: `Pass` for nil, `Fail(e)` otherwise).
- `SeatStore`: the tables as `map<SeatKey, Seat>` and `seq<Reserva>`.
  - `Reserve` and `Reset` are the two operations as state-transition functions.
  - Around them are lemmas about their effects and about the booking invariant.
  - The `Store` class holds the two tables as fields. Its methods `ReserveAsiento` and `ResetAllSeats` update them in place and are proved to follow `Reserve` and `Reset`.
  - A `fault` parameter says which database call fails, if any. The model covers every error return of `reserveAsiento` and `resetAllSeats`.
- `Aggregation`: the reduction loop of `runTest` (`Aggregate`) and its reference functions.
  - Counts and the total are defined recursively. Go's truncating division is `QuoTrunc`.
  - Lemmas prove the partition, the average bounds, and that the order of results does not matter.
- `Report`: the CSV header and one five-field record per summary (`ExportRows`). Numbers stay integers.
- `Driver`: the test-case matrix and the loop that collects one summary per case (`CollectResults`, `Experiment`). It also has `SerialTrial`, which runs `runTest` with its attempts one after another (`RunAttempts`), and `SerialMain`, which runs the whole matrix that way on one store.

Durations are integers in nanoseconds. Go's `/` on `time.Duration` and
`Duration.Milliseconds()` truncate toward zero, and the model follows that.

## Model

| member | source | states |
|---|---|---|
| `SeatStore.SetStatusById` | main.go:71 | Definition of `UPDATE asientos SET estado = ... WHERE id = ...`: every seat row with that id gets the new status. |
| `SeatStore.MarkEventAvailable` | main.go:98 | Definition of `UPDATE asientos SET estado = 'disponible' WHERE evento_id = ...`. |
| `SeatStore.EventIds` | main.go:103 | Definition of the subquery `SELECT id FROM asientos WHERE evento_id = ...`: the row ids of the event's seats. |
| `SeatStore.Reserve` | main.go:44-93 | On every error path the store is unchanged. The attempt commits iff no call fails, the (event, seat number) row exists and its status is `"disponible"`. A missing row gives the query error. A row with any other status gives the unavailable error. Keys and row ids never change, and a seat marked `"reservado"` stays so. |
| `SeatStore.ReserveCommitEffect` | main.go:70-92 | A committed attempt sets only the target seat to `"reservado"` and appends exactly one reservation `(userID, seat id, "exitosa")`. The `UPDATE ... WHERE id` changes no other seat because row ids are unique. |
| `SeatStore.ReservePreservesInvariant` | main.go:64-85 | Whatever fails, an attempt keeps the booking invariant: unique row ids, no seat with two `"exitosa"` reservations, and every booked seat marked `"reservado"`. |
| `SeatStore.ReserveCountsBooking` | main.go:70-85 | A committed attempt adds exactly one booking among its event's seats; a failed one adds none. |
| `SeatStore.BookedInBound` | main.go:64-71 | If no seat of a set of seat ids is booked twice, their bookings number at most the size of that set. |
| `SeatStore.ReservePreservesEventSafe` | main.go:64-85 | Whatever fails, an attempt on an event keeps that event's invariant: no seat of the event booked twice, and every booked seat of the event marked `"reservado"`. |
| `SeatStore.BookingsWithinSeats` | main.go:64-71 | While an event's invariant holds, the bookings of its seats never exceed the number of seats of that event. |
| `SeatStore.Reset` | main.go:97-109 | The reset passes iff neither statement fails. If the seat UPDATE fails, the store is unchanged. Otherwise every seat of the event is `"disponible"` and every other seat is unchanged, including when the DELETE fails, because the UPDATE has already committed; a failed DELETE leaves the reservations as they were. Keys and row ids never change. |
| `SeatStore.DropReservations` | main.go:103 | Definition of the `DELETE ... WHERE asiento_id IN (...)`, keeping the remaining rows in order; it never lengthens the table. |
| `SeatStore.DropMembers` | main.go:103 | The DELETE keeps exactly the reservations whose seat id is not one of the event's seats. |
| `SeatStore.DropBookings` | main.go:103 | After the DELETE, the event's seats have no bookings and every other seat keeps its booking count. |
| `SeatStore.DropBookedIn` | main.go:103 | After the DELETE, no booking of the deleted seat ids remains. |
| `SeatStore.DropIdempotent` | main.go:103 | Running the DELETE twice removes nothing more than running it once. |
| `SeatStore.ResetPostState` | main.go:95-108 | After a successful reset: every seat of the event is `"disponible"`; the other events' seats are unchanged; the reservations are exactly those on other events' seats, in their order; their booking counts are unchanged; the event has no bookings left. |
| `SeatStore.ResetIdempotent` | main.go:95-109 | Resetting twice gives the same store as resetting once. |
| `SeatStore.ResetPreservesInvariant` | main.go:97-109 | A successful reset keeps the booking invariant. |
| `SeatStore.ResetMakesEventSafe` | main.go:95-108 | From any store with unique row ids, a successful reset establishes the event's invariant, whatever reservations the store held before. |
| `SeatStore.SameRowsKeepIds` | main.go:71 | A status-only update keeps row ids unique and keeps each event's seats and row ids. |
| `SeatStore.Store.constructor` | main.go:233 | The store starts with the seat table the schema provides (unique row ids) and no reservations, so the booking invariant holds. |
| `SeatStore.Store.ReserveAsiento` | main.go:44-93 | The transaction stages its writes and publishes them only at commit. Its new tables and its outcome are exactly those of `Reserve`. On an error both tables are unchanged. |
| `SeatStore.Store.ResetAllSeats` | main.go:97-109 | The two statements run in order, and the new tables and the outcome are exactly those of `Reset`. |
| `Aggregation.QuoTrunc` | main.go:166 | Integer division truncating toward zero: for a non-negative dividend `q*b <= a < (q+1)*b`; for a negative one `(q-1)*b < a <= q*b`. |
| `Aggregation.AvgDuration` | main.go:164-167 | The average is 0 when there are no results. Otherwise it is the truncated mean, with `avg*count <= total < (avg+1)*count` for a non-negative total. |
| `Aggregation.Partition` | main.go:150-162 | Every result is counted exactly once: successes plus failures equals the number of results. |
| `Aggregation.CountSuccessIsNumberOfSuccesses` | main.go:154-161 | The success counter equals the number of positions whose result has `success == true`. |
| `Aggregation.TotalNonNegative` | main.go:156 | The total of non-negative durations is non-negative. |
| `Aggregation.RemoveAt` | main.go:154-162 | Taking one result out of the sequence takes exactly its share out of each of the three tallies. |
| `Aggregation.TalliesIgnoreOrder` | main.go:147-162 | The three tallies depend only on the multiset of results, not on the order of the channel. |
| `Aggregation.SummaryIgnoresOrder` | main.go:150-175 | Two orderings of the same results give the same summary. |
| `Aggregation.Summary` | main.go:169-175 | Definition of the returned `testResult`: the two inputs passed through, the two counters, and the guarded average of the total over the count. |
| `Aggregation.Aggregate` | main.go:150-175 | `numUsuarios` and `isolationName` pass through unchanged. `successCount` is the number of successful results. `successCount + failureCount` equals the number of results. The average is 0 for no results and otherwise truncated, within the bounds above: the same summary as `Summary`. |
| `Report.Milliseconds` | main.go:202 | `Duration.Milliseconds()` truncates: for `d >= 0`, `ms*1_000_000 <= d < (ms+1)*1_000_000`. |
| `Report.Header` | main.go:190 | Definition of the five header fields, in order. |
| `Report.Record` | main.go:197-203 | Definition of one record: user count, isolation name, success count, failure count, average in milliseconds. |
| `Report.ExportRows` | main.go:189-207 | The output is the 5-column header followed by one 5-field record per result, in order. Each record's last field is the average in truncated milliseconds. |
| `Driver.TestCases` | main.go:242-251 | Definition of the four test cases: 5, 10, 20 and 30 users under READ COMMITTED, REPEATABLE READ, SERIALIZABLE, SERIALIZABLE. |
| `Driver.UserId` | main.go:144 | Definition of the client identity `user_<i+1>`. |
| `Driver.CollectResults` | main.go:258-261 | One summary per test case, in test-case order. Each carries its case's user count and isolation name, and its success and failure counts add up to that case's number of results. |
| `Driver.Experiment` | main.go:257-268 | The CSV records follow the test cases: record `i+1` holds case `i`'s user count and isolation name, and its two counts add up to the case's number of results. |
| `Driver.RunAttempts` | main.go:123-145 | The attempts applied one after another with `Reserve`, client `i` as `user_<i+1>`: one result per attempt with its duration; `success` true exactly when that client's transaction committed; an attempt with a failing database call or a seat row that does not exist fails; a winner's seat ends `"reservado"`; row ids and keys are kept. |
| `Driver.NoSeatWonTwice` | main.go:64-71 | In such a run, two successful attempts never have the same seat number. |
| `Driver.RunAttemptsBookings` | main.go:123-145 | A run keeps the event's invariant and adds one event booking per success; if the global invariant held before, it holds after. |
| `Driver.SeatNumbers` | main.go:129 | The seat numbers `rnd.Intn(totalSeats) + 1` can draw: exactly `1..totalSeats`, `totalSeats` of them. |
| `Driver.DistinctWinsBound` | main.go:129 | Successful attempts on pairwise distinct seat numbers from a set number at most the size of that set. |
| `Driver.SerialTrialBookings` | main.go:113-147 | From any store with unique row ids, after the reset and a run of attempts on seats `1..totalSeats`: the event's invariant holds, the successes equal the event's bookings, and they are at most the event's number of seats and at most `totalSeats`. |
| `Driver.SerialTrial` | main.go:113-176 | A failed reset ends the run (no summary, the store as the reset left it), as `log.Fatalf` does. Otherwise the new store and every result are exactly those of `RunAttempts` after the reset; the summary is that of `Aggregate`; successes plus failures equal the user count; successes equal the event's bookings and are at most the event's seats and `totalSeats`; the event's invariant holds, and the global one if it held before. |
| `Driver.CaseStep` | main.go:113-176 | Definition of one `runTest` on a database value: the reset, then `RunAttempts`, then `Summary`; no summary, and the reset's store, when the reset fails. |
| `Driver.MainRun` | main.go:258-262 | `main`'s loop over the first `n` cases as a fold of `CaseStep`: it has stopped iff some reset among them failed; otherwise it holds one summary per case. |
| `Driver.MainRunHaltedStays` | main.go:115-117 | Once a failed reset has stopped `main`, the later cases change neither the store nor the summaries. |
| `Driver.MainRunPrefix` | main.go:261 | Summaries are only appended: those after `k` cases are a prefix of those after `n >= k` cases. |
| `Driver.MainRunCase` | main.go:259-261 | When no reset fails, summary `i` is what `runTest` computes for case `i` on the store the earlier cases left. |
| `Driver.CaseStepFacts` | main.go:113-176 | One case keeps unique row ids, and its summary passes its user count and name through, has counts adding up to the user count and at most 50 successes. |
| `Driver.MainRunSummaries` | main.go:258-262 | From a store with unique row ids, every summary `main` collects has those properties for its own case, and the ids stay unique. |
| `Driver.RunCase` | main.go:259-261 | One iteration of `main`'s loop, on event 1 with 50 seats: it stops iff the reset fails. The new store and the summary are exactly `CaseStep` of the old store: the store the reset left when it fails, otherwise the summary of `RunAttempts` after the reset. The summary passes the case's user count and name through, its counts add up to the user count, and at most 50 attempts succeed. |
| `Driver.SerialMain` | main.go:239-268 | The four test cases run in order on the same store with event 1 and 50 seats. The new store and the summaries are exactly `MainRun` of the old store, including when a reset fails. The records are built iff no reset fails, and then record `i+1` is `Record` of case `i`'s summary, which carries its user count and name, counts adding up to the user count, and at most 50 successes. |

## Left out

- Goroutines, the `sync.WaitGroup` and the buffered channel (main.go:119-148) are not modelled. `SerialTrial` runs the attempts in client order. `TalliesIgnoreOrder` covers the arbitrary order in which the channel delivers results.
- The isolation levels themselves, and the anomalies and serialization failures that PostgreSQL produces under them, are not modelled. The model executes serially, so an attempt's isolation level has no effect, and double booking under weak isolation cannot be shown in it.
- The random seat choice and the wall-clock timing (main.go:121, 127-131) are inputs: each `Attempt` gives the seat number, the fault and the duration.
- Database failures are inputs, not behaviour: the `ReserveFault` and `ResetFault` parameters name the call that fails.
- Connection setup, `db.Ping` and the goose migrations (main.go:212-236) are not modelled. The schema under `./db` is not part of this model. `Store.constructor` takes the seat table as given and assumes unique row ids, which the primary key provides.
- Store.constructor: its empty reservation table describes a freshly migrated database only. On a later run `goose.Up` changes nothing and both tables keep the previous run's rows; `SerialTrial` therefore assumes nothing about the reservations it starts from.
- Logging, console output and `time.Sleep` (main.go:140-142, 253-255, 262-263) are output or timing only.
- Creating the CSV file, the CSV writer's quoting, its flushing and its write errors (main.go:180-187, 191-193, 204-206) are I/O. Decimal formatting is not modelled: numeric fields are integers.
- The connection constants (main.go:18-23) are not modelled. `TotalSeats` (main.go:24) and `EventoID` (main.go:239) are used by `SerialMain`.
- Driver.SerialMain and Driver.SerialTrial: the seat numbers are required to lie in `1..totalSeats`, which is what `rnd.Intn(totalSeats) + 1` returns once `totalSeats > 0` (main.go:129).
- Aggregation.Aggregate: the counters and `totalDuration` are unbounded integers, so the int64 wrap-around of `time.Duration` is not modelled; no realistic trial gets close to it.
- Driver.SerialTrial: shows the successes bounded by the event's seats; the number of seats in state `"reservado"` is not counted separately.
- The reset is two separately committed statements in the source (main.go:98, 103), not one atomic reset. The model follows the code: a failed DELETE leaves the seats reset and the reservations in place.
- The average duration is truncated integer division (main.go:166), not an exact arithmetic mean, and the model follows the code.
- The store is reset inside `runTest` (main.go:115), once per test case, not by the loop in `main`. The model follows the code.
