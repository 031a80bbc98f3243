/**
 * The seat store: table `asientos` (seats keyed by event and seat number) and
 * table `reservas` (reservation records), with the reservation transaction of
 * `reserveAsiento` and the bulk reset of `resetAllSeats`, each taken as one
 * atomic step on the store (the `FOR UPDATE` row lock serializes attempts).
 */
module SeatStore {
  import opened Wrappers

  const Disponible: string := "disponible"
  const Reservado: string := "reservado"
  const Exitosa: string := "exitosa"

  /** Identity of a seat row: (evento_id, numero_asiento). */
  datatype SeatKey = SeatKey(eventoID: int, numeroAsiento: int)

  /** The remaining columns of a seat row: its row id and its status. */
  datatype Seat = Seat(id: int, estado: string)

  /** A row of table `reservas`. */
  datatype Reserva = Reserva(usuarioID: string, asientoID: int, estadoReserva: string)

  /** The whole store. */
  datatype Db = Db(asientos: map<SeatKey, Seat>, reservas: seq<Reserva>)

  /** Which database call, if any, reports an error during a reservation attempt. */
  datatype ReserveFault = NoFault | BeginFails | QueryFails | UpdateFails | InsertFails | CommitFails

  /** The errors `reserveAsiento` returns, one per `return fmt.Errorf(...)`. */
  datatype ReserveError =
    | BeginError
    | QueryError
    | Unavailable(asientoNum: int)
    | UpdateError
    | InsertError
    | CommitError

  /** Which of the two reset statements, if any, reports an error. */
  datatype ResetFault = ResetOk | SeatUpdateFails | DeleteFails

  /** The errors `resetAllSeats` returns. */
  datatype ResetError = ResetSeatsError | DeleteReservationsError

  /** The store after an operation, with the operation's outcome. */
  datatype Step<+E> = Step(db: Db, outcome: Outcome<E>)

  // ---------------------------------------------------------------------------
  // Views of the seat table

  /** Row ids are a primary key: two keys with the same row id are the same key. */
  ghost predicate UniqueIds(asientos: map<SeatKey, Seat>) {
    forall k1, k2 :: k1 in asientos && k2 in asientos && asientos[k1].id == asientos[k2].id ==> k1 == k2
  }

  /** The seats of event `e`. */
  function EventKeys(asientos: map<SeatKey, Seat>, e: int): set<SeatKey> {
    set k | k in asientos && k.eventoID == e
  }

  /** Row ids of the seats of event `e` (`SELECT id FROM asientos WHERE evento_id = e`). */
  function EventIds(asientos: map<SeatKey, Seat>, e: int): set<int> {
    set k | k in asientos && k.eventoID == e :: asientos[k].id
  }

  /** Row ids of the seats whose status is "reservado". */
  function ReservedIds(asientos: map<SeatKey, Seat>): set<int> {
    set k | k in asientos && asientos[k].estado == Reservado :: asientos[k].id
  }

  /** Two seat tables with the same keys and the same row id at each key (statuses may differ). */
  ghost predicate SameRows(m: map<SeatKey, Seat>, m': map<SeatKey, Seat>) {
    m'.Keys == m.Keys && forall k :: k in m ==> m'[k].id == m[k].id
  }

  /** `UPDATE asientos SET estado = st WHERE id = id`. */
  function SetStatusById(asientos: map<SeatKey, Seat>, id: int, st: string): map<SeatKey, Seat> {
    map k | k in asientos :: if asientos[k].id == id then asientos[k].(estado := st) else asientos[k]
  }

  /** `UPDATE asientos SET estado = 'disponible' WHERE evento_id = e`. */
  function MarkEventAvailable(asientos: map<SeatKey, Seat>, e: int): map<SeatKey, Seat> {
    map k | k in asientos :: if k.eventoID == e then asientos[k].(estado := Disponible) else asientos[k]
  }

  lemma SameRowsKeepIds(m: map<SeatKey, Seat>, m': map<SeatKey, Seat>, e: int)
    requires SameRows(m, m')
    ensures UniqueIds(m) ==> UniqueIds(m')
    ensures EventKeys(m', e) == EventKeys(m, e)
    ensures EventIds(m', e) == EventIds(m, e)
  {
    forall x | x in EventIds(m, e) ensures x in EventIds(m', e) {
      var k :| k in m && k.eventoID == e && m[k].id == x;
      assert m'[k].id == x;
    }
  }

  // ---------------------------------------------------------------------------
  // Views of the reservation table

  /** Number of "exitosa" reservations of seat row `id`. */
  function Bookings(rs: seq<Reserva>, id: int): nat {
    if rs == [] then 0
    else Bookings(rs[..|rs| - 1], id) + (if rs[|rs| - 1].estadoReserva == Exitosa && rs[|rs| - 1].asientoID == id then 1 else 0)
  }

  /** Number of "exitosa" reservations whose seat row is in `ids`. */
  function BookedIn(rs: seq<Reserva>, ids: set<int>): nat {
    if rs == [] then 0
    else BookedIn(rs[..|rs| - 1], ids) + (if rs[|rs| - 1].estadoReserva == Exitosa && rs[|rs| - 1].asientoID in ids then 1 else 0)
  }

  /** `DELETE FROM reservas WHERE asiento_id IN ids`: keeps the other rows, in order. */
  function DropReservations(rs: seq<Reserva>, ids: set<int>): (r: seq<Reserva>)
    ensures |r| <= |rs|
  {
    if rs == [] then []
    else
      var last := rs[|rs| - 1];
      if last.asientoID in ids then DropReservations(rs[..|rs| - 1], ids)
      else DropReservations(rs[..|rs| - 1], ids) + [last]
  }

  /** No seat row has two "exitosa" reservations. */
  ghost predicate NoDoubleBooking(rs: seq<Reserva>) {
    forall id :: Bookings(rs, id) <= 1
  }

  /**
   * The booking invariant a serial run keeps: row ids are unique, no seat is
   * booked twice, and every booked seat is marked "reservado".
   */
  ghost predicate BookingInvariant(db: Db) {
    && UniqueIds(db.asientos)
    && NoDoubleBooking(db.reservas)
    && forall id :: Bookings(db.reservas, id) > 0 ==> id in ReservedIds(db.asientos)
  }

  /**
   * The same invariant restricted to the seats of event `e`: what a trial on
   * that event needs, whatever the rest of the store holds.
   */
  ghost predicate EventSafe(db: Db, e: int) {
    && UniqueIds(db.asientos)
    && (forall id :: id in EventIds(db.asientos, e) ==> Bookings(db.reservas, id) <= 1)
    && (forall id :: id in EventIds(db.asientos, e) && Bookings(db.reservas, id) > 0 ==> id in ReservedIds(db.asientos))
  }

  // ---------------------------------------------------------------------------
  // The two operations as atomic steps

  /**
   * `reserveAsiento(db, eventoID, asientoNum, userID, _)` run as one transaction,
   * with `fault` naming the database call that fails, if any.
   */
  function Reserve(db: Db, eventoID: int, asientoNum: int, userID: string, fault: ReserveFault): (s: Step<ReserveError>)
    ensures s.outcome.Fail? ==> s.db == db
    ensures s.outcome.Pass? <==>
              && fault == NoFault
              && SeatKey(eventoID, asientoNum) in db.asientos
              && db.asientos[SeatKey(eventoID, asientoNum)].estado == Disponible
    ensures fault != BeginFails && SeatKey(eventoID, asientoNum) !in db.asientos ==>
              s.outcome == Fail(QueryError)
    ensures fault !in {BeginFails, QueryFails} && SeatKey(eventoID, asientoNum) in db.asientos
              && db.asientos[SeatKey(eventoID, asientoNum)].estado != Disponible ==>
              s.outcome == Fail(Unavailable(asientoNum))
    ensures SameRows(db.asientos, s.db.asientos)
    ensures forall k :: k in db.asientos && db.asientos[k].estado == Reservado ==> k in s.db.asientos && s.db.asientos[k].estado == Reservado
  {
    var key := SeatKey(eventoID, asientoNum);
    if fault.BeginFails? then Step(db, Fail(BeginError))
    else if fault.QueryFails? || key !in db.asientos then Step(db, Fail(QueryError))
    else
      var seat := db.asientos[key];
      if seat.estado != Disponible then Step(db, Fail(Unavailable(asientoNum)))
      else if fault.UpdateFails? then Step(db, Fail(UpdateError))
      else if fault.InsertFails? then Step(db, Fail(InsertError))
      else if fault.CommitFails? then Step(db, Fail(CommitError))
      else
        var asientos := SetStatusById(db.asientos, seat.id, Reservado);
        Step(Db(asientos, db.reservas + [Reserva(userID, seat.id, Exitosa)]), Pass)
  }

  /**
   * `resetAllSeats(db, eventoID)`: two statements, each committed on its own.
   * A failing DELETE leaves the seats already reset.
   */
  function Reset(db: Db, eventoID: int, fault: ResetFault): (s: Step<ResetError>)
    ensures s.outcome.Pass? <==> fault == ResetOk
    ensures fault == SeatUpdateFails ==> s.db == db
    ensures fault == DeleteFails ==> s.db.reservas == db.reservas
    ensures SameRows(db.asientos, s.db.asientos)
    ensures fault != SeatUpdateFails ==>
              forall k :: k in db.asientos ==>
                s.db.asientos[k] == if k.eventoID == eventoID then db.asientos[k].(estado := Disponible) else db.asientos[k]
  {
    if fault.SeatUpdateFails? then Step(db, Fail(ResetSeatsError))
    else
      var asientos := MarkEventAvailable(db.asientos, eventoID);
      if fault.DeleteFails? then Step(Db(asientos, db.reservas), Fail(DeleteReservationsError))
      else Step(Db(asientos, DropReservations(db.reservas, EventIds(asientos, eventoID))), Pass)
  }

  // ---------------------------------------------------------------------------
  // Counting lemmas

  lemma BookingsAppend(rs: seq<Reserva>, r: Reserva, id: int)
    ensures Bookings(rs + [r], id) == Bookings(rs, id) + (if r.estadoReserva == Exitosa && r.asientoID == id then 1 else 0)
  {
    assert (rs + [r])[..|rs|] == rs;
  }

  lemma BookedInAppend(rs: seq<Reserva>, r: Reserva, ids: set<int>)
    ensures BookedIn(rs + [r], ids) == BookedIn(rs, ids) + (if r.estadoReserva == Exitosa && r.asientoID in ids then 1 else 0)
  {
    assert (rs + [r])[..|rs|] == rs;
  }

  /** The DELETE keeps exactly the reservations whose seat row is not in `ids`. */
  lemma {:induction false} DropMembers(rs: seq<Reserva>, ids: set<int>)
    ensures forall x :: x in DropReservations(rs, ids) <==> x in rs && x.asientoID !in ids
  {
    if rs != [] {
      var init, last := rs[..|rs| - 1], rs[|rs| - 1];
      DropMembers(init, ids);
      assert rs == init + [last];
    }
  }

  /** After the DELETE, seats in `ids` have no booking left and the others keep theirs. */
  lemma {:induction false} DropBookings(rs: seq<Reserva>, ids: set<int>, id: int)
    ensures Bookings(DropReservations(rs, ids), id) == if id in ids then 0 else Bookings(rs, id)
  {
    if rs != [] {
      var init, last := rs[..|rs| - 1], rs[|rs| - 1];
      DropBookings(init, ids, id);
      if last.asientoID !in ids {
        BookingsAppend(DropReservations(init, ids), last, id);
      }
    }
  }

  lemma {:induction false} DropBookedIn(rs: seq<Reserva>, ids: set<int>)
    ensures BookedIn(DropReservations(rs, ids), ids) == 0
  {
    if rs != [] {
      var init, last := rs[..|rs| - 1], rs[|rs| - 1];
      DropBookedIn(init, ids);
      if last.asientoID !in ids {
        BookedInAppend(DropReservations(init, ids), last, ids);
      }
    }
  }

  /** Deleting the same reservations a second time deletes nothing more. */
  lemma {:induction false} DropIdempotent(rs: seq<Reserva>, ids: set<int>)
    ensures DropReservations(DropReservations(rs, ids), ids) == DropReservations(rs, ids)
  {
    if rs != [] {
      var init, last := rs[..|rs| - 1], rs[|rs| - 1];
      var d := DropReservations(init, ids);
      DropIdempotent(init, ids);
      if last.asientoID !in ids {
        assert (d + [last])[..|d|] == d;
      }
    }
  }

  lemma {:induction false} BookedInSplit(rs: seq<Reserva>, ids: set<int>, x: int)
    requires x in ids
    ensures BookedIn(rs, ids) == BookedIn(rs, ids - {x}) + Bookings(rs, x)
  {
    if rs != [] { BookedInSplit(rs[..|rs| - 1], ids, x); }
  }

  /** With no seat of `ids` booked twice, the bookings of the seats in `ids` number at most |ids|. */
  lemma {:induction false} BookedInBound(rs: seq<Reserva>, ids: set<int>)
    requires forall id :: id in ids ==> Bookings(rs, id) <= 1
    ensures BookedIn(rs, ids) <= |ids|
  {
    if rs != [] {
      var init, last := rs[..|rs| - 1], rs[|rs| - 1];
      forall id | id in ids ensures Bookings(init, id) <= 1 {
        assert Bookings(rs, id) <= 1;
      }
      if last.estadoReserva == Exitosa && last.asientoID in ids {
        var x := last.asientoID;
        assert Bookings(rs, x) <= 1;
        BookedInSplit(init, ids, x);
        BookedInBound(init, ids - {x});
      } else {
        BookedInBound(init, ids);
      }
    }
  }

  /** Distinct seats have distinct keys, so an event has at most as many row ids as seats. */
  lemma {:induction false} IdsOfKeysBound(m: map<SeatKey, Seat>, keys: set<SeatKey>)
    requires keys <= m.Keys
    ensures |set k | k in keys :: m[k].id| <= |keys|
    decreases keys
  {
    if |keys| != 0 {
      var k :| k in keys;
      var rest := keys - {k};
      IdsOfKeysBound(m, rest);
      var ids, restIds := set j | j in keys :: m[j].id, set j | j in rest :: m[j].id;
      var bigger := restIds + {m[k].id};
      assert ids <= bigger;
      assert bigger == ids + (bigger - ids);
    }
  }

  lemma EventIdsBound(asientos: map<SeatKey, Seat>, e: int)
    ensures |EventIds(asientos, e)| <= |EventKeys(asientos, e)|
  {
    var keys := EventKeys(asientos, e);
    IdsOfKeysBound(asientos, keys);
    assert EventIds(asientos, e) == set k | k in keys :: asientos[k].id;
  }

  // ---------------------------------------------------------------------------
  // Properties of a reservation attempt

  /**
   * A committed attempt changes exactly the target seat, to "reservado", and
   * appends exactly one "exitosa" reservation for it.
   */
  lemma ReserveCommitEffect(db: Db, eventoID: int, asientoNum: int, userID: string)
    requires UniqueIds(db.asientos)
    requires SeatKey(eventoID, asientoNum) in db.asientos
    requires db.asientos[SeatKey(eventoID, asientoNum)].estado == Disponible
    ensures var key := SeatKey(eventoID, asientoNum);
            var seat := db.asientos[key];
            Reserve(db, eventoID, asientoNum, userID, NoFault) ==
              Step(Db(db.asientos[key := seat.(estado := Reservado)],
                      db.reservas + [Reserva(userID, seat.id, Exitosa)]), Pass)
  {
    var key := SeatKey(eventoID, asientoNum);
    var seat := db.asientos[key];
    var m := SetStatusById(db.asientos, seat.id, Reservado);
    var expected := db.asientos[key := seat.(estado := Reservado)];
    forall k | k in db.asientos ensures m[k] == expected[k] {
      if k != key { assert db.asientos[k].id != seat.id; }
    }
    assert m == expected;
  }

  /** A reservation attempt keeps the booking invariant, whatever fails. */
  lemma ReservePreservesInvariant(db: Db, eventoID: int, asientoNum: int, userID: string, fault: ReserveFault)
    requires BookingInvariant(db)
    ensures BookingInvariant(Reserve(db, eventoID, asientoNum, userID, fault).db)
  {
    var s := Reserve(db, eventoID, asientoNum, userID, fault);
    if s.outcome.Pass? {
      var key := SeatKey(eventoID, asientoNum);
      var seat := db.asientos[key];
      ReserveCommitEffect(db, eventoID, asientoNum, userID);
      SameRowsKeepIds(db.asientos, s.db.asientos, eventoID);
      assert seat.id !in ReservedIds(db.asientos);
      forall id ensures Bookings(s.db.reservas, id) == Bookings(db.reservas, id) + (if id == seat.id then 1 else 0) {
        BookingsAppend(db.reservas, Reserva(userID, seat.id, Exitosa), id);
      }
      forall id | Bookings(s.db.reservas, id) > 0 ensures id in ReservedIds(s.db.asientos) {
        if id == seat.id {
          assert s.db.asientos[key].estado == Reservado;
        } else {
          var k :| k in db.asientos && db.asientos[k].estado == Reservado && db.asientos[k].id == id;
          assert k != key;
          assert s.db.asientos[k] == db.asientos[k];
        }
      }
    }
  }

  /** A committed attempt adds exactly one booking among the seats of its event; a failed one adds none. */
  lemma ReserveCountsBooking(db: Db, eventoID: int, asientoNum: int, userID: string, fault: ReserveFault)
    requires UniqueIds(db.asientos)
    ensures var s := Reserve(db, eventoID, asientoNum, userID, fault);
            BookedIn(s.db.reservas, EventIds(s.db.asientos, eventoID)) ==
              BookedIn(db.reservas, EventIds(db.asientos, eventoID)) + (if s.outcome.Pass? then 1 else 0)
  {
    var s := Reserve(db, eventoID, asientoNum, userID, fault);
    SameRowsKeepIds(db.asientos, s.db.asientos, eventoID);
    if s.outcome.Pass? {
      var key := SeatKey(eventoID, asientoNum);
      var seat := db.asientos[key];
      assert seat.id in EventIds(db.asientos, eventoID);
      BookedInAppend(db.reservas, Reserva(userID, seat.id, Exitosa), EventIds(db.asientos, eventoID));
    }
  }

  /** A reservation attempt on event `e` keeps that event's invariant, whatever fails. */
  lemma ReservePreservesEventSafe(db: Db, eventoID: int, asientoNum: int, userID: string, fault: ReserveFault)
    requires EventSafe(db, eventoID)
    ensures EventSafe(Reserve(db, eventoID, asientoNum, userID, fault).db, eventoID)
  {
    var s := Reserve(db, eventoID, asientoNum, userID, fault);
    if s.outcome.Pass? {
      var key := SeatKey(eventoID, asientoNum);
      var seat := db.asientos[key];
      var ids := EventIds(db.asientos, eventoID);
      ReserveCommitEffect(db, eventoID, asientoNum, userID);
      SameRowsKeepIds(db.asientos, s.db.asientos, eventoID);
      assert seat.id in ids;
      assert seat.id !in ReservedIds(db.asientos);
      forall id ensures Bookings(s.db.reservas, id) == Bookings(db.reservas, id) + (if id == seat.id then 1 else 0) {
        BookingsAppend(db.reservas, Reserva(userID, seat.id, Exitosa), id);
      }
      forall id | id in ids && Bookings(s.db.reservas, id) > 0 ensures id in ReservedIds(s.db.asientos) {
        if id == seat.id {
          assert s.db.asientos[key].estado == Reservado;
        } else {
          var k :| k in db.asientos && db.asientos[k].estado == Reservado && db.asientos[k].id == id;
          assert k != key;
          assert s.db.asientos[k] == db.asientos[k];
        }
      }
    }
  }

  /**
   * While an event's invariant holds, the bookings of its seats never exceed
   * the number of seats of that event.
   */
  lemma BookingsWithinSeats(db: Db, eventoID: int)
    requires EventSafe(db, eventoID)
    ensures BookedIn(db.reservas, EventIds(db.asientos, eventoID)) <= |EventKeys(db.asientos, eventoID)|
  {
    BookedInBound(db.reservas, EventIds(db.asientos, eventoID));
    EventIdsBound(db.asientos, eventoID);
  }

  // ---------------------------------------------------------------------------
  // Properties of the reset

  /**
   * After a successful reset every seat of the event is "disponible", no
   * reservation is left on them, and the rest of the store is as it was.
   */
  lemma ResetPostState(db: Db, eventoID: int)
    ensures var s := Reset(db, eventoID, ResetOk);
            var ids := EventIds(db.asientos, eventoID);
            && s.outcome == Pass
            && s.db.asientos.Keys == db.asientos.Keys
            && (forall k :: k in db.asientos && k.eventoID == eventoID ==> s.db.asientos[k] == db.asientos[k].(estado := Disponible))
            && (forall k :: k in db.asientos && k.eventoID != eventoID ==> s.db.asientos[k] == db.asientos[k])
            && s.db.reservas == DropReservations(db.reservas, ids)
            && (forall x :: x in s.db.reservas <==> x in db.reservas && x.asientoID !in ids)
            && (forall id :: Bookings(s.db.reservas, id) == if id in ids then 0 else Bookings(db.reservas, id))
            && BookedIn(s.db.reservas, EventIds(s.db.asientos, eventoID)) == 0
  {
    var s := Reset(db, eventoID, ResetOk);
    SameRowsKeepIds(db.asientos, s.db.asientos, eventoID);
    var ids := EventIds(db.asientos, eventoID);
    forall id ensures Bookings(s.db.reservas, id) == if id in ids then 0 else Bookings(db.reservas, id) {
      DropBookings(db.reservas, ids, id);
    }
    DropBookedIn(db.reservas, ids);
    DropMembers(db.reservas, ids);
  }

  /** Resetting twice gives the same store as resetting once. */
  lemma ResetIdempotent(db: Db, eventoID: int)
    ensures var once := Reset(db, eventoID, ResetOk).db;
            Reset(once, eventoID, ResetOk).db == once
  {
    var once := Reset(db, eventoID, ResetOk).db;
    var twice := Reset(once, eventoID, ResetOk).db;
    SameRowsKeepIds(once.asientos, twice.asientos, eventoID);
    SameRowsKeepIds(db.asientos, once.asientos, eventoID);
    DropIdempotent(db.reservas, EventIds(db.asientos, eventoID));
    assert twice.asientos == once.asientos;
  }

  /** A successful reset keeps the booking invariant. */
  lemma ResetPreservesInvariant(db: Db, eventoID: int)
    requires BookingInvariant(db)
    ensures BookingInvariant(Reset(db, eventoID, ResetOk).db)
  {
    var s := Reset(db, eventoID, ResetOk);
    var ids := EventIds(db.asientos, eventoID);
    ResetPostState(db, eventoID);
    SameRowsKeepIds(db.asientos, s.db.asientos, eventoID);
    forall id | Bookings(s.db.reservas, id) > 0 ensures id in ReservedIds(s.db.asientos) {
      var k :| k in db.asientos && db.asientos[k].estado == Reservado && db.asientos[k].id == id;
      assert k.eventoID != eventoID;
      assert s.db.asientos[k] == db.asientos[k];
    }
  }

  /**
   * A successful reset establishes the event's invariant from any store with
   * unique row ids: the event's seats are left with no booking at all.
   */
  lemma ResetMakesEventSafe(db: Db, eventoID: int)
    requires UniqueIds(db.asientos)
    ensures EventSafe(Reset(db, eventoID, ResetOk).db, eventoID)
  {
    var s := Reset(db, eventoID, ResetOk);
    ResetPostState(db, eventoID);
    SameRowsKeepIds(db.asientos, s.db.asientos, eventoID);
  }

  // ---------------------------------------------------------------------------
  // The store as the program's database handle

  class Store {
    var asientos: map<SeatKey, Seat>
    var reservas: seq<Reserva>

    function State(): Db
      reads this
    {
      Db(asientos, reservas)
    }

    ghost predicate Valid()
      reads this
    {
      UniqueIds(asientos)
    }

    /** The tables as the migrations leave them: the given seats and no reservations. */
    constructor (seats: map<SeatKey, Seat>)
      requires UniqueIds(seats)
      ensures Valid() && BookingInvariant(State())
      ensures asientos == seats && reservas == []
    {
      asientos := seats;
      reservas := [];
    }

    /**
     * The reservation transaction. The writes are staged and published only
     * at commit; every error path rolls back and leaves both tables as they were.
     */
    method ReserveAsiento(eventoID: int, asientoNum: int, userID: string, fault: ReserveFault)
      returns (res: Outcome<ReserveError>)
      requires Valid()
      modifies this
      ensures Valid()
      ensures Step(State(), res) == Reserve(old(State()), eventoID, asientoNum, userID, fault)
      ensures res.Fail? ==> asientos == old(asientos) && reservas == old(reservas)
    {
      if fault == BeginFails {
        return Fail(BeginError);
      }
      var key := SeatKey(eventoID, asientoNum);
      if fault == QueryFails || key !in asientos {
        return Fail(QueryError);
      }
      var seat := asientos[key];
      if seat.estado != Disponible {
        return Fail(Unavailable(asientoNum));
      }
      var stagedSeats := SetStatusById(asientos, seat.id, Reservado);
      if fault == UpdateFails {
        return Fail(UpdateError);
      }
      var stagedReservas := reservas + [Reserva(userID, seat.id, Exitosa)];
      if fault == InsertFails {
        return Fail(InsertError);
      }
      if fault == CommitFails {
        return Fail(CommitError);
      }
      SameRowsKeepIds(asientos, stagedSeats, eventoID);
      asientos, reservas := stagedSeats, stagedReservas;
      res := Pass;
    }

    /** The reset: first the seat UPDATE, then the reservation DELETE. */
    method ResetAllSeats(eventoID: int, fault: ResetFault) returns (res: Outcome<ResetError>)
      requires Valid()
      modifies this
      ensures Valid()
      ensures Step(State(), res) == Reset(old(State()), eventoID, fault)
    {
      if fault == SeatUpdateFails {
        return Fail(ResetSeatsError);
      }
      var seats := MarkEventAvailable(asientos, eventoID);
      SameRowsKeepIds(asientos, seats, eventoID);
      asientos := seats;
      if fault == DeleteFails {
        return Fail(DeleteReservationsError);
      }
      reservas := DropReservations(reservas, EventIds(asientos, eventoID));
      res := Pass;
    }
  }
}
