/**
 * The booking service (internal/service/booking.go): Book and Confirm run their reads
 * and writes inside WithTx, CancelBook and the listing go straight to the pool. Each
 * transactional operation is a pure specification of what its fn does (BookFn,
 * ConfirmFn) and a method that runs it between BeginTx and EndTx.
 */
module BookingService {
  import opened Model
  import opened Store
  import opened Transactions
  import BookingRepository
  import EventRepository
  import Paging

  /** errors.Is(err, sql.ErrNoRows) ? ErrBookingNotFound : err, after a failed event lookup. */
  function LookupError(e: Error): Error
  {
    if Is(e, ErrNoRows) then ErrBookingNotFound else e
  }

  /** The status a new booking gets. */
  function StatusFor(event: EventRow): string
  {
    if event.bookingConfirmation then StatusBookingPending else StatusBookingConfirmed
  }

  /**
   * The checks of Book once the event and its occupancy are read: the date check first
   * (an event strictly before now has passed), then the capacity check; the status of
   * the new booking is "pending" when the event asks for confirmation, else "confirmed".
   */
  function Decide(event: EventRow, occupied: int, now: int): (r: Result<string>)
    ensures r == Err(ErrEventAlreadyPassed) <==> event.eventDate < now
    ensures r == Err(ErrNoSeatsAvailable) <==> now <= event.eventDate && occupied >= event.totalPlace
    ensures r.Ok? <==> now <= event.eventDate && occupied < event.totalPlace
    ensures r.Ok? ==> (r.value == StatusBookingPending <==> event.bookingConfirmation)
    ensures r.Ok? ==> Active(r.value)
  {
    if event.eventDate < now then Err(ErrEventAlreadyPassed)
    else if occupied >= event.totalPlace then Err(ErrNoSeatsAvailable)
    else Ok(StatusFor(event))
  }

  /** Driver failures of the three statements Book sends. */
  datatype BookFaults = BookFaults(getEvent: Option<string>, occupancy: Option<string>, insert: Option<string>)

  /**
   * Book's fn on a transaction over tables t. The clock is read once (now): the date
   * check, the expiry now + reservation period and created_at all use it. The expiry is
   * set whatever the status.
   */
  function BookFn(t: Tables, b: BookingInCreate, now: int, bf: BookFaults): FnEffect
  {
    var ev := EventRepository.GetByID(t, b.eventId, bf.getEvent);
    if ev.Err? then FnEffect(t, [], Some(LookupError(ev.error)))
    else
      var occ := BookingRepository.GetOccupiedPlace(t, b.eventId, bf.occupancy);
      if occ.Err? then FnEffect(t, [], Some(occ.error))
      else
        var d := Decide(ev.value, occ.value, now);
        if d.Err? then FnEffect(t, [], Some(d.error))
        else if bf.insert.Some? then FnEffect(t, [], Some(Db(bf.insert.value)))
        else FnEffect(t, [InsertBooking(b.userId, b.eventId, d.value, now + ev.value.reservationPeriod, now)], None)
  }

  /** Book: WithTx around BookFn. */
  method Book(s: Storage, b: BookingInCreate, now: int, tf: TxFaults, bf: BookFaults) returns (r: TxResult)
    modifies s
    ensures TxOutcome(r, s.Contents()) == WithTx(old(s.Contents()), tf, BookFn(old(s.Contents()), b, now, bf))
  {
    var tx, err := BeginTx(s, tf);
    if err.Some? {
      return Returned(err);
    }
    var fnErr := BookInTx(tx, b, now, bf);
    r := EndTx(s, tx, tf, fnErr);
  }

  /** The body of Book's fn, on the transaction handle. */
  method BookInTx(tx: Storage, b: BookingInCreate, now: int, bf: BookFaults) returns (err: Option<Error>)
    modifies tx
    ensures var fx := BookFn(old(tx.Contents()), b, now, bf);
            err == fx.err && tx.journal == old(tx.journal) + fx.journal
  {
    var t := tx.Contents();
    var ev := EventRepository.GetByID(t, b.eventId, bf.getEvent);
    if ev.Err? {
      return Some(LookupError(ev.error));
    }
    var occ := BookingRepository.GetOccupiedPlace(t, b.eventId, bf.occupancy);
    if occ.Err? {
      return Some(occ.error);
    }
    var d := Decide(ev.value, occ.value, now);
    if d.Err? {
      return Some(d.error);
    }
    var booking := b.(expiresAt := now + ev.value.reservationPeriod);
    err := BookingRepository.Create(tx, booking, d.value, now, bf.insert);
  }

  /** The event Book reads: the row with that id, or the zero record. */
  function EventOf(t: Tables, eventId: int): EventRow
  {
    EventRepository.GetByID(t, eventId, None).value
  }

  /**
   * Book's checks, in order: with the reads succeeding, it fails with
   * ErrEventAlreadyPassed exactly when the event date is before now, and with
   * ErrNoSeatsAvailable exactly when the date is not past and the event's occupancy has
   * reached its total; in either case nothing is written.
   */
  lemma BookChecks(t: Tables, b: BookingInCreate, now: int, bf: BookFaults)
    requires bf.getEvent.None? && bf.occupancy.None?
    ensures var fx := BookFn(t, b, now, bf);
            var e := EventOf(t, b.eventId);
            && (fx.err == Some(ErrEventAlreadyPassed) <==> e.eventDate < now)
            && (fx.err == Some(ErrNoSeatsAvailable) <==> now <= e.eventDate && Occupied(t.bookings, b.eventId) >= e.totalPlace)
            && (fx.err.Some? ==> fx.journal == [])
  {
    BookingRepository.OccupiedIsFilterCount(t.bookings, b.eventId);
  }

  /** The event lookup without a fault: the row with that id, or the zero record when there is none. */
  lemma EventOfCases(t: Tables, eventId: int)
    ensures EventOf(t, eventId) == ZeroEvent || (EventOf(t, eventId) in t.events && EventOf(t, eventId).id == eventId)
  {
    if exists x :: x in t.events && x.id == eventId {
      Paging.FirstOrMatches(t.events, EventRepository.WithId(eventId), ZeroEvent);
    }
  }

  /** The insert Book sends once every check has passed. */
  function BookInsert(t: Tables, b: BookingInCreate, now: int): Write
  {
    var e := EventOf(t, b.eventId);
    InsertBooking(b.userId, b.eventId, StatusFor(e), now + e.reservationPeriod, now)
  }

  /**
   * When Book's fn returns nil, the event exists, has not passed and has a free seat,
   * and the fn's only transactional write is the insert for it.
   */
  lemma BookFnSucceeds(t: Tables, b: BookingInCreate, now: int, bf: BookFaults)
    requires BookFn(t, b, now, bf).err.None?
    ensures var e := EventOf(t, b.eventId);
            && e in t.events && e.id == b.eventId && now <= e.eventDate
            && Occupied(t.bookings, b.eventId) < e.totalPlace
            && BookFn(t, b, now, bf) == FnEffect(t, [BookInsert(t, b, now)], None)
  {
    EventOfCases(t, b.eventId);
    BookingRepository.OccupiedIsFilterCount(t.bookings, b.eventId);
  }

  /** fn's writes outside the transaction: Book sends none. */
  lemma BookFnKeepsPool(t: Tables, b: BookingInCreate, now: int, bf: BookFaults)
    ensures BookFn(t, b, now, bf).outer == t
  {
  }

  /**
   * The whole of Book. If it returns anything but nil the tables are as before. If it
   * returns nil, the event exists, was not past, had a free seat, and exactly one row
   * was added: the caller's user and event, the status the event's confirmation flag
   * gives, expiry now plus the reservation period, created now; that event's occupancy
   * rose by one and still does not exceed its total.
   */
  lemma BookOutcome(t: Tables, b: BookingInCreate, now: int, tf: TxFaults, bf: BookFaults)
    ensures var o := WithTx(t, tf, BookFn(t, b, now, bf));
            var e := EventOf(t, b.eventId);
            && (o.result != Returned(None) ==> o.tables == t)
            && (o.result == Returned(None) ==>
                  e in t.events && e.id == b.eventId && now <= e.eventDate
                  && o.tables.bookings
                     == t.bookings + [BookingRow(t.bookingSerial, b.userId, b.eventId, StatusFor(e), now + e.reservationPeriod, now)]
                  && o.tables.events == t.events && o.tables.users == t.users
                  && Occupied(o.tables.bookings, b.eventId) == Occupied(t.bookings, b.eventId) + 1
                  && Occupied(o.tables.bookings, b.eventId) <= e.totalPlace)
  {
    BookFnKeepsPool(t, b, now, bf);
    var o := WithTx(t, tf, BookFn(t, b, now, bf));
    if o.result == Returned(None) {
      BookFnSucceeds(t, b, now, bf);
      var w := BookInsert(t, b, now);
      assert o.tables == Apply(t, w) by {
        assert ApplyAll(t, [w]) == Apply(ApplyAll(t, []), w);
      }
      BookInsertAddsRow(t, b, now);
    }
  }

  /** What Book's insert does to the tables. */
  lemma BookInsertAddsRow(t: Tables, b: BookingInCreate, now: int)
    ensures var e := EventOf(t, b.eventId);
            var t' := Apply(t, BookInsert(t, b, now));
            && t'.bookings
               == t.bookings + [BookingRow(t.bookingSerial, b.userId, b.eventId, StatusFor(e), now + e.reservationPeriod, now)]
            && t'.events == t.events && t'.users == t.users
            && Occupied(t'.bookings, b.eventId) == Occupied(t.bookings, b.eventId) + 1
  {
    var e := EventOf(t, b.eventId);
    var row := BookingRow(t.bookingSerial, b.userId, b.eventId, StatusFor(e), now + e.reservationPeriod, now);
    assert BookInsert(t, b, now) == InsertBooking(row.userId, row.eventId, row.status, row.expiresAt, row.createdAt);
    InsertRowTakesSeat(t, row);
  }

  /** Inserting a seat-holding row appends it and raises its event's occupancy by one. */
  lemma InsertRowTakesSeat(t: Tables, row: BookingRow)
    requires row.id == t.bookingSerial && Active(row.status)
    ensures var t' := Apply(t, InsertBooking(row.userId, row.eventId, row.status, row.expiresAt, row.createdAt));
            && t'.bookings == t.bookings + [row]
            && t'.events == t.events && t'.users == t.users
            && Occupied(t'.bookings, row.eventId) == Occupied(t.bookings, row.eventId) + 1
  {
    OccupiedAppend(t.bookings, row, row.eventId);
  }

  /** A booking for an event that does not exist is refused: the zero record has passed or has no seats. */
  lemma BookMissingEvent(t: Tables, b: BookingInCreate, now: int, bf: BookFaults)
    requires bf.getEvent.None? && bf.occupancy.None?
    requires forall e :: e in t.events ==> e.id != b.eventId
    ensures BookFn(t, b, now, bf) == FnEffect(t, [], Some(if ZeroTime < now then ErrEventAlreadyPassed else ErrNoSeatsAvailable))
  {
    assert EventOf(t, b.eventId) == ZeroEvent;
    var occ := BookingRepository.GetOccupiedPlace(t, b.eventId, None);
    assert occ.Ok? && occ.value >= 0;
  }

  /** Book never reports ErrBookingNotFound: the event lookup never fails with sql.ErrNoRows. */
  lemma BookNeverReportsNotFound(t: Tables, b: BookingInCreate, now: int, tf: TxFaults, bf: BookFaults)
    ensures WithTx(t, tf, BookFn(t, b, now, bf)).result != Returned(Some(ErrBookingNotFound))
  {
    if bf.getEvent.Some? {
      assert !Is(Db(bf.getEvent.value), ErrNoRows);
    }
  }

  // ---- the capacity invariant ----

  /**
   * Ids are keys, every booking refers to an existing event, and no event has more
   * seat-holding bookings than places.
   */
  ghost predicate Invariant(t: Tables)
  {
    WellFormed(t)
    && (forall b :: b in t.bookings ==> exists e :: e in t.events && e.id == b.eventId)
    && (forall e :: e in t.events ==> Occupied(t.bookings, e.id) <= e.totalPlace)
  }

  /** Inserting a booking for an existing event whose occupancy stays within its total keeps the invariant. */
  lemma InsertKeepsInvariant(t: Tables, w: Write, e: EventRow)
    requires Invariant(t)
    requires w.InsertBooking? && e in t.events && e.id == w.eventId
    requires Active(w.status) ==> Occupied(t.bookings, e.id) < e.totalPlace
    ensures Invariant(Apply(t, w))
  {
    var t' := Apply(t, w);
    var row := NewBooking(t, w.userId, w.eventId, w.status, w.expiresAt, w.createdAt);
    assert t'.bookings == t.bookings + [row] && t'.events == t.events;
    ApplyKeepsWellFormed(t, w);
    forall x | x in t'.bookings ensures exists y :: y in t'.events && y.id == x.eventId {
      if x != row {
        assert x in t.bookings;
      }
    }
    forall y | y in t'.events ensures Occupied(t'.bookings, y.id) <= y.totalPlace {
      OccupiedAppend(t.bookings, row, y.id);
      if y.id == e.id {
        EventRepository.GetByIDFindsRow(t, y);
        EventRepository.GetByIDFindsRow(t, e);
      }
    }
  }

  /** Book keeps the invariant, whatever the faults. */
  lemma BookKeepsInvariant(t: Tables, b: BookingInCreate, now: int, tf: TxFaults, bf: BookFaults)
    requires Invariant(t)
    ensures Invariant(WithTx(t, tf, BookFn(t, b, now, bf)).tables)
  {
    BookFnKeepsPool(t, b, now, bf);
    var o := WithTx(t, tf, BookFn(t, b, now, bf));
    if o.result == Returned(None) {
      BookFnSucceeds(t, b, now, bf);
      var w := BookInsert(t, b, now);
      assert o.tables == Apply(t, w) by {
        assert ApplyAll(t, [w]) == Apply(ApplyAll(t, []), w);
      }
      InsertKeepsInvariant(t, w, EventOf(t, b.eventId));
    }
  }

  /** Setting a status that holds no seat keeps the invariant. */
  lemma ReleaseKeepsInvariant(t: Tables, status: string, eventId: int, userId: int)
    requires Invariant(t)
    requires !Active(status)
    ensures Invariant(Apply(t, UpdateBookingStatus(status, eventId, userId)))
  {
    var t' := Apply(t, UpdateBookingStatus(status, eventId, userId));
    assert t' == t.(bookings := UpdateStatusRows(t.bookings, status, eventId, userId));
    ApplyKeepsWellFormed(t, UpdateBookingStatus(status, eventId, userId));
    forall x | x in t'.bookings ensures exists y :: y in t'.events && y.id == x.eventId {
      var k :| 0 <= k < |t'.bookings| && t'.bookings[k] == x;
      assert x.eventId == t.bookings[k].eventId && t.bookings[k] in t.bookings;
    }
    forall y | y in t'.events ensures Occupied(t'.bookings, y.id) <= y.totalPlace {
      UpdateStatusOccupancy(t.bookings, status, eventId, userId, y.id);
    }
  }

  /** The expiry sweep keeps the invariant. */
  lemma SweepKeepsInvariant(t: Tables, now: int)
    requires Invariant(t)
    ensures Invariant(Apply(t, DeleteExpiredBookings(now)))
  {
    var t' := Apply(t, DeleteExpiredBookings(now));
    ApplyKeepsWellFormed(t, DeleteExpiredBookings(now));
    forall y | y in t'.events ensures Occupied(t'.bookings, y.id) <= y.totalPlace {
      DeleteExpiredOccupancy(t.bookings, now, y.id);
    }
  }

  // ---- Confirm ----

  /** Driver failures of the two statements Confirm sends. */
  datatype ConfirmFaults = ConfirmFaults(getEvent: Option<string>, update: Option<string>)

  /**
   * Confirm's fn. The event is read through the transaction; the status update goes
   * through the pool handle (outside the transaction), so it is in effect as soon as it
   * runs and no rollback or failed commit undoes it. The booking id plays no part.
   */
  function ConfirmFn(t: Tables, eventId: int, userId: int, cf: ConfirmFaults): FnEffect
  {
    var ev := EventRepository.GetByID(t, eventId, cf.getEvent);
    if ev.Err? then FnEffect(t, [], Some(LookupError(ev.error)))
    else if !ev.value.bookingConfirmation then FnEffect(t, [], Some(ErrBookingNotRequired))
    else if cf.update.Some? then FnEffect(t, [], Some(Db(cf.update.value)))
    else FnEffect(Apply(t, UpdateBookingStatus(StatusBookingConfirmed, eventId, userId)), [], None)
  }

  /** Confirm: WithTx around ConfirmFn. */
  method Confirm(s: Storage, bookId: int, eventId: int, userId: int, tf: TxFaults, cf: ConfirmFaults) returns (r: TxResult)
    modifies s
    ensures TxOutcome(r, s.Contents()) == WithTx(old(s.Contents()), tf, ConfirmFn(old(s.Contents()), eventId, userId, cf))
  {
    var tx, err := BeginTx(s, tf);
    if err.Some? {
      return Returned(err);
    }
    var fnErr := ConfirmInTx(s, tx, eventId, userId, cf);
    r := EndTx(s, tx, tf, fnErr);
  }

  /** The body of Confirm's fn: reads through the transaction, writes through the pool. */
  method ConfirmInTx(s: Storage, tx: Storage, eventId: int, userId: int, cf: ConfirmFaults) returns (err: Option<Error>)
    requires tx != s
    requires tx.Contents() == s.Contents() && tx.journal == []
    modifies s
    ensures var fx := ConfirmFn(old(s.Contents()), eventId, userId, cf);
            err == fx.err && s.Contents() == fx.outer && tx.journal == fx.journal
  {
    var ev := EventRepository.GetByID(tx.Contents(), eventId, cf.getEvent);
    if ev.Err? {
      return Some(LookupError(ev.error));
    }
    if !ev.value.bookingConfirmation {
      return Some(ErrBookingNotRequired);
    }
    err := BookingRepository.UpdateStatus(s, StatusBookingConfirmed, eventId, userId, cf.update);
  }

  /**
   * Confirm: an event without confirmation (a missing one reads as the zero record, which
   * has none) gives ErrBookingNotRequired and changes nothing; otherwise every row of
   * the user for the event becomes "confirmed", and stays so even when the commit fails.
   */
  lemma ConfirmOutcome(t: Tables, eventId: int, userId: int, tf: TxFaults, cf: ConfirmFaults)
    requires tf.ping.None? && tf.begin.None? && tf.panic.None? && cf.getEvent.None?
    ensures var o := WithTx(t, tf, ConfirmFn(t, eventId, userId, cf));
            && (!EventOf(t, eventId).bookingConfirmation ==> o == TxOutcome(Returned(Some(ErrBookingNotRequired)), t))
            && ((forall e :: e in t.events ==> e.id != eventId) ==> o.result == Returned(Some(ErrBookingNotRequired)))
            && (EventOf(t, eventId).bookingConfirmation && cf.update.None? ==>
                  o.tables == Apply(t, UpdateBookingStatus(StatusBookingConfirmed, eventId, userId))
                  && (tf.commit.Some? ==> o.result == Returned(Some(Wrapped(CommitContext, Db(tf.commit.value))))))
  {
    if forall e :: e in t.events ==> e.id != eventId {
      assert EventOf(t, eventId) == ZeroEvent;
    }
    var fx := ConfirmFn(t, eventId, userId, cf);
    if EventOf(t, eventId).bookingConfirmation && cf.update.None? {
      assert fx.journal == [] && ApplyAll(fx.outer, []) == fx.outer;
    }
  }

  /**
   * Confirm as written can overbook: the update sets "confirmed" on every row of the user
   * for the event, a cancelled one included, with no capacity check. Event 1 has one
   * place; user 10 cancelled, then user 20 took the place; confirming user 10 revives the
   * cancelled row, Confirm returns nil and the event holds two seats.
   */
  lemma ConfirmCanOverbook()
    ensures var e := EventRow(1, "e", "", 100, EventStatusPending, 1, 0, true, 0);
            var cancelled := BookingRow(1, 10, 1, StatusBookingCanceled, 0, 0);
            var pending := BookingRow(2, 20, 1, StatusBookingPending, 0, 0);
            var t := Tables([cancelled, pending], [e], [], 3, 2, 1);
            var o := WithTx(t, TxFaults(None, None, None, None), ConfirmFn(t, 1, 10, ConfirmFaults(None, None)));
            && Invariant(t)
            && o.result == Returned(None)
            && Occupied(o.tables.bookings, 1) == 2 > e.totalPlace
            && !Invariant(o.tables)
  {
    var e := EventRow(1, "e", "", 100, EventStatusPending, 1, 0, true, 0);
    var cancelled := BookingRow(1, 10, 1, StatusBookingCanceled, 0, 0);
    var pending := BookingRow(2, 20, 1, StatusBookingPending, 0, 0);
    var t := Tables([cancelled, pending], [e], [], 3, 2, 1);
    assert EventOf(t, 1) == e by {
      assert Paging.FirstOr([e], EventRepository.WithId(1), ZeroEvent) == e;
    }
    var t' := Apply(t, UpdateBookingStatus(StatusBookingConfirmed, 1, 10));
    assert t'.bookings == [cancelled.(status := StatusBookingConfirmed), pending];
    assert ApplyAll(t', []) == t';
    assert Occupied(t.bookings, 1) == 1 by {
      assert t.bookings[..1] == [cancelled];
      assert t.bookings[..1][..0] == [];
    }
    assert Occupied(t'.bookings, 1) == 2 by {
      assert t'.bookings[..1] == [cancelled.(status := StatusBookingConfirmed)];
      assert t'.bookings[..1][..0] == [];
    }
  }

  /**
   * UPDATE booking SET status='confirmed' WHERE user_id=$1 AND event_id=$2 AND
   * status='pending': the update Confirm evidently intends, touching only rows that
   * already hold a seat.
   */
  function ConfirmPendingRows(rows: seq<BookingRow>, eventId: int, userId: int): (r: seq<BookingRow>)
    ensures |r| == |rows|
    ensures forall i :: 0 <= i < |rows| ==>
              r[i] == if rows[i].userId == userId && rows[i].eventId == eventId && rows[i].status == StatusBookingPending
                      then rows[i].(status := StatusBookingConfirmed) else rows[i]
  {
    if rows == [] then []
    else
      var init, last := rows[..|rows| - 1], rows[|rows| - 1];
      ConfirmPendingRows(init, eventId, userId)
        + [if last.userId == userId && last.eventId == eventId && last.status == StatusBookingPending
           then last.(status := StatusBookingConfirmed) else last]
  }

  /** Confirming only pending rows moves no event's occupancy. */
  lemma {:induction false} ConfirmPendingOccupancy(rows: seq<BookingRow>, eventId: int, userId: int, e: int)
    ensures Occupied(ConfirmPendingRows(rows, eventId, userId), e) == Occupied(rows, e)
  {
    if rows != [] {
      var init, last := rows[..|rows| - 1], rows[|rows| - 1];
      assert rows == init + [last];
      var last' := if last.userId == userId && last.eventId == eventId && last.status == StatusBookingPending
                   then last.(status := StatusBookingConfirmed) else last;
      assert ConfirmPendingRows(rows, eventId, userId) == ConfirmPendingRows(init, eventId, userId) + [last'];
      ConfirmPendingOccupancy(init, eventId, userId, e);
      OccupiedAppend(init, last, e);
      OccupiedAppend(ConfirmPendingRows(init, eventId, userId), last', e);
    }
  }

  /** Confirm's fn with the corrected update. */
  function ConfirmPendingFn(t: Tables, eventId: int, userId: int, cf: ConfirmFaults): FnEffect
  {
    var ev := EventRepository.GetByID(t, eventId, cf.getEvent);
    if ev.Err? then FnEffect(t, [], Some(LookupError(ev.error)))
    else if !ev.value.bookingConfirmation then FnEffect(t, [], Some(ErrBookingNotRequired))
    else if cf.update.Some? then FnEffect(t, [], Some(Db(cf.update.value)))
    else FnEffect(t.(bookings := ConfirmPendingRows(t.bookings, eventId, userId)), [], None)
  }

  /** The corrected update changes only statuses: ids, and the events rows refer to, stay. */
  lemma ConfirmPendingKeepsRefs(t: Tables, eventId: int, userId: int)
    requires WellFormed(t)
    requires forall b :: b in t.bookings ==> exists e :: e in t.events && e.id == b.eventId
    ensures var t' := t.(bookings := ConfirmPendingRows(t.bookings, eventId, userId));
            && WellFormed(t')
            && forall b :: b in t'.bookings ==> exists e :: e in t.events && e.id == b.eventId
  {
    var rows := ConfirmPendingRows(t.bookings, eventId, userId);
    ConfirmPendingKeepsIds(t.bookings, eventId, userId);
    forall i, j | 0 <= i < j < |rows| ensures rows[i].id < rows[j].id {
      assert rows[i].id == t.bookings[i].id && rows[j].id == t.bookings[j].id;
    }
    forall b | b in rows ensures b.id < t.bookingSerial && exists e :: e in t.events && e.id == b.eventId {
      var k :| 0 <= k < |rows| && rows[k] == b;
      assert b.id == t.bookings[k].id && b.eventId == t.bookings[k].eventId && t.bookings[k] in t.bookings;
    }
  }

  /** The corrected update changes statuses only. */
  lemma ConfirmPendingKeepsIds(rows: seq<BookingRow>, eventId: int, userId: int)
    ensures var r := ConfirmPendingRows(rows, eventId, userId);
            forall k :: 0 <= k < |rows| ==> r[k].id == rows[k].id && r[k].eventId == rows[k].eventId
  {
  }

  /** The corrected update keeps the capacity invariant. */
  lemma ConfirmPendingRowsKeepInvariant(t: Tables, eventId: int, userId: int)
    requires Invariant(t)
    ensures Invariant(t.(bookings := ConfirmPendingRows(t.bookings, eventId, userId)))
  {
    var t' := t.(bookings := ConfirmPendingRows(t.bookings, eventId, userId));
    ConfirmPendingKeepsRefs(t, eventId, userId);
    forall e | e in t'.events ensures Occupied(t'.bookings, e.id) <= e.totalPlace {
      ConfirmPendingOccupancy(t.bookings, eventId, userId, e.id);
    }
  }

  /** The corrected fn writes nothing in the transaction, and through the pool at most its update. */
  lemma ConfirmPendingFnShape(t: Tables, eventId: int, userId: int, cf: ConfirmFaults)
    ensures var fx := ConfirmPendingFn(t, eventId, userId, cf);
            && fx.journal == []
            && (fx.outer == t || fx.outer == t.(bookings := ConfirmPendingRows(t.bookings, eventId, userId)))
  {
  }

  /** The corrected Confirm keeps the capacity invariant, whatever the faults. */
  lemma ConfirmPendingKeepsInvariant(t: Tables, eventId: int, userId: int, tf: TxFaults, cf: ConfirmFaults)
    requires Invariant(t)
    ensures Invariant(WithTx(t, tf, ConfirmPendingFn(t, eventId, userId, cf)).tables)
  {
    var fx := ConfirmPendingFn(t, eventId, userId, cf);
    ConfirmPendingFnShape(t, eventId, userId, cf);
    assert ApplyAll(fx.outer, []) == fx.outer;
    var o := WithTx(t, tf, fx);
    assert o.tables == t || o.tables == fx.outer;
    ConfirmPendingRowsKeepInvariant(t, eventId, userId);
  }

  // ---- CancelBook ----

  /** CancelBook: overwrite the status with "cancelled", no lookup, no check; the booking id plays no part. */
  method CancelBook(s: Storage, bookId: int, eventId: int, userId: int, fault: Option<string>) returns (err: Option<Error>)
    modifies s
    ensures err == FaultError(fault)
    ensures fault.None? ==> s.Contents() == Apply(old(s.Contents()), UpdateBookingStatus(StatusBookingCanceled, eventId, userId))
    ensures fault.Some? ==> s.Contents() == old(s.Contents())
  {
    err := BookingRepository.UpdateStatus(s, StatusBookingCanceled, eventId, userId, fault);
  }

  /**
   * After a cancel, none of the user's rows for the event holds a seat, whatever status
   * it had, and other rows are untouched.
   */
  lemma CancelReleases(t: Tables, eventId: int, userId: int)
    ensures var t' := Apply(t, UpdateBookingStatus(StatusBookingCanceled, eventId, userId));
            && |t'.bookings| == |t.bookings|
            && forall k :: 0 <= k < |t.bookings| ==>
                 if t.bookings[k].userId == userId && t.bookings[k].eventId == eventId
                 then t'.bookings[k] == t.bookings[k].(status := StatusBookingCanceled) && !HoldsSeat(t'.bookings[k], eventId)
                 else t'.bookings[k] == t.bookings[k]
  {
  }

  /**
   * A cancel raises no event's occupancy, keeps the user's row count, and keeps the
   * invariant.
   */
  lemma CancelKeepsCounts(t: Tables, eventId: int, userId: int)
    ensures var t' := Apply(t, UpdateBookingStatus(StatusBookingCanceled, eventId, userId));
            && (forall e :: Occupied(t'.bookings, e) <= Occupied(t.bookings, e))
            && CountUserRows(t'.bookings, userId) == CountUserRows(t.bookings, userId)
            && (Invariant(t) ==> Invariant(t'))
  {
    forall e ensures Occupied(UpdateStatusRows(t.bookings, StatusBookingCanceled, eventId, userId), e) <= Occupied(t.bookings, e) {
      UpdateStatusOccupancy(t.bookings, StatusBookingCanceled, eventId, userId, e);
    }
    UpdateStatusKeepsUserCount(t.bookings, StatusBookingCanceled, eventId, userId, userId);
    if Invariant(t) {
      ReleaseKeepsInvariant(t, StatusBookingCanceled, eventId, userId);
    }
  }

  // ---- reads ----

  /** The response record built from a repository row: every field copied. */
  function Response(d: BookingWithEventDetails): BookingInResponse
  {
    BookingInResponse(d.booking.id, d.booking.userId, d.booking.eventId, d.booking.status, d.booking.expiresAt,
                      d.booking.createdAt, d.eventTitle, d.eventDescription, d.eventDate)
  }

  function FromResponse(r: BookingInResponse): BookingWithEventDetails
  {
    BookingWithEventDetails(BookingRow(r.id, r.userId, r.eventId, r.status, r.expiresAt, r.createdAt),
                            r.eventTitle, r.eventDescription, r.eventDate)
  }

  /**
   * GetByUserID: the repository's error as is, or one response per repository row, in
   * the same order, each carrying all of its row's fields.
   */
  method GetByUserID(t: Tables, req: BookingGetRequest, fault: Option<string>) returns (r: Result<seq<BookingInResponse>>)
    ensures fault.Some? ==> r == Err(Db(fault.value))
    ensures fault.None? && BookingRepository.ListQuery(t, req).Err? ==> r == Err(BookingRepository.ListQuery(t, req).error)
    ensures fault.None? && BookingRepository.ListQuery(t, req).Ok? ==>
              var rows := BookingRepository.ListQuery(t, req).value;
              r.Ok? && |r.value| == |rows|
              && forall k :: 0 <= k < |rows| ==> FromResponse(r.value[k]) == BookingRepository.Details(rows[k])
  {
    var list := BookingRepository.GetListBooking(t, req, fault);
    if list.Err? {
      return Err(list.error);
    }
    var items := list.value;
    var out: seq<BookingInResponse> := [];
    var i := 0;
    while i < |items|
      invariant 0 <= i <= |items|
      invariant |out| == i
      invariant forall k :: 0 <= k < i ==> FromResponse(out[k]) == items[k]
    {
      out := out + [Response(items[i])];
      i := i + 1;
    }
    return Ok(out);
  }

  /** GetCountUserBooking: all of the user's rows, whatever their status. */
  function GetCountUserBooking(t: Tables, userId: int, fault: Option<string>): (r: Result<int>)
    ensures fault.Some? ==> r == Err(Db(fault.value))
    ensures fault.None? ==> r.Ok? && r.value == |Paging.Filter(t.bookings, BookingRepository.RowOf(userId))|
  {
    BookingRepository.GetCountUserBooking(t, userId, fault)
  }
}
