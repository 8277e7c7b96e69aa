/**
 * The PostgreSQL tables the repositories read and write, held in memory: the
 * booking, events and users tables as sequences of rows in insertion order, each
 * with the serial counter that numbers its rows. The write statements of the
 * repositories are the Write values; Apply gives their meaning.
 */
module Store {
  import opened Model

  datatype Tables = Tables(
    bookings: seq<BookingRow>, events: seq<EventRow>, users: seq<UserRow>,
    bookingSerial: int, eventSerial: int, userSerial: int)

  /** status IN ('pending', 'confirmed'): the statuses that hold a seat. */
  predicate Active(status: string)
  {
    status == StatusBookingPending || status == StatusBookingConfirmed
  }

  predicate HoldsSeat(b: BookingRow, eventId: int)
  {
    b.eventId == eventId && Active(b.status)
  }

  /** SELECT COUNT(*) FROM booking WHERE event_id=$1 AND status IN ('pending', 'confirmed'). */
  function Occupied(rows: seq<BookingRow>, eventId: int): (n: nat)
    ensures n <= |rows|
    ensures n == 0 <==> forall b :: b in rows ==> !HoldsSeat(b, eventId)
  {
    if rows == [] then 0
    else
      var init, last := rows[..|rows| - 1], rows[|rows| - 1];
      assert rows == init + [last];
      Occupied(init, eventId) + (if HoldsSeat(last, eventId) then 1 else 0)
  }

  /** SELECT COUNT(*) FROM booking WHERE user_id=$1: every status counts. */
  function CountUserRows(rows: seq<BookingRow>, userId: int): (n: nat)
    ensures n <= |rows|
    ensures n == 0 <==> forall b :: b in rows ==> b.userId != userId
  {
    if rows == [] then 0
    else
      var init, last := rows[..|rows| - 1], rows[|rows| - 1];
      assert rows == init + [last];
      CountUserRows(init, userId) + (if last.userId == userId then 1 else 0)
  }

  /** UPDATE booking SET status=$1 WHERE user_id=$2 AND event_id=$3. */
  function UpdateStatusRows(rows: seq<BookingRow>, status: string, eventId: int, userId: int): (r: seq<BookingRow>)
    ensures |r| == |rows|
    ensures forall i :: 0 <= i < |rows| ==>
              r[i] == if rows[i].userId == userId && rows[i].eventId == eventId then rows[i].(status := status) else rows[i]
  {
    if rows == [] then []
    else
      var init, last := rows[..|rows| - 1], rows[|rows| - 1];
      UpdateStatusRows(init, status, eventId, userId)
        + [if last.userId == userId && last.eventId == eventId then last.(status := status) else last]
  }

  /** status = 'pending' AND expires_at < now: the WHERE clause of the expiry delete. */
  predicate Expired(b: BookingRow, now: int)
  {
    b.status == StatusBookingPending && b.expiresAt < now
  }

  /** DELETE FROM booking WHERE status = 'pending' AND expires_at < now. */
  function DeleteExpiredRows(rows: seq<BookingRow>, now: int): (r: seq<BookingRow>)
    ensures forall b :: multiset(r)[b] == if Expired(b, now) then 0 else multiset(rows)[b]
    ensures forall b :: b in r <==> b in rows && !Expired(b, now)
  {
    if rows == [] then []
    else
      var init, last := rows[..|rows| - 1], rows[|rows| - 1];
      assert rows == init + [last];
      var kept := DeleteExpiredRows(init, now);
      var r := kept + (if Expired(last, now) then [] else [last]);
      assert forall b :: b in r <==> b in multiset(r);
      r
  }

  /** Occupancy of a table with one more row. */
  lemma OccupiedAppend(rows: seq<BookingRow>, b: BookingRow, eventId: int)
    ensures Occupied(rows + [b], eventId) == Occupied(rows, eventId) + (if HoldsSeat(b, eventId) then 1 else 0)
  {
    assert (rows + [b])[..|rows|] == rows;
  }

  /** A user's row count with one more row. */
  lemma CountUserAppend(rows: seq<BookingRow>, b: BookingRow, userId: int)
    ensures CountUserRows(rows + [b], userId) == CountUserRows(rows, userId) + (if b.userId == userId then 1 else 0)
  {
    assert (rows + [b])[..|rows|] == rows;
  }

  /**
   * A status update leaves other events' occupancy alone, and setting a status
   * that holds no seat never raises the occupancy of any event.
   */
  lemma {:induction false} UpdateStatusOccupancy(rows: seq<BookingRow>, status: string, eventId: int, userId: int, e: int)
    ensures e != eventId ==> Occupied(UpdateStatusRows(rows, status, eventId, userId), e) == Occupied(rows, e)
    ensures !Active(status) ==> Occupied(UpdateStatusRows(rows, status, eventId, userId), e) <= Occupied(rows, e)
  {
    if rows != [] {
      var init, last := rows[..|rows| - 1], rows[|rows| - 1];
      assert rows == init + [last];
      var last' := if last.userId == userId && last.eventId == eventId then last.(status := status) else last;
      assert UpdateStatusRows(rows, status, eventId, userId) == UpdateStatusRows(init, status, eventId, userId) + [last'];
      UpdateStatusOccupancy(init, status, eventId, userId, e);
      OccupiedAppend(init, last, e);
      OccupiedAppend(UpdateStatusRows(init, status, eventId, userId), last', e);
    }
  }

  /** A status update never changes how many rows a user has. */
  lemma {:induction false} UpdateStatusKeepsUserCount(rows: seq<BookingRow>, status: string, eventId: int, userId: int, u: int)
    ensures CountUserRows(UpdateStatusRows(rows, status, eventId, userId), u) == CountUserRows(rows, u)
  {
    if rows != [] {
      var init, last := rows[..|rows| - 1], rows[|rows| - 1];
      assert rows == init + [last];
      var last' := if last.userId == userId && last.eventId == eventId then last.(status := status) else last;
      assert UpdateStatusRows(rows, status, eventId, userId) == UpdateStatusRows(init, status, eventId, userId) + [last'];
      UpdateStatusKeepsUserCount(init, status, eventId, userId, u);
      CountUserAppend(init, last, u);
      CountUserAppend(UpdateStatusRows(init, status, eventId, userId), last', u);
    }
  }

  /** Deleting expired rows never raises the occupancy of any event. */
  lemma {:induction false} DeleteExpiredOccupancy(rows: seq<BookingRow>, now: int, e: int)
    ensures Occupied(DeleteExpiredRows(rows, now), e) <= Occupied(rows, e)
  {
    if rows != [] {
      var init, last := rows[..|rows| - 1], rows[|rows| - 1];
      assert rows == init + [last];
      var kept := DeleteExpiredRows(init, now);
      DeleteExpiredOccupancy(init, now, e);
      OccupiedAppend(init, last, e);
      if Expired(last, now) {
        assert DeleteExpiredRows(rows, now) == kept + [];
        assert kept + [] == kept;
      } else {
        assert DeleteExpiredRows(rows, now) == kept + [last];
        OccupiedAppend(kept, last, e);
      }
    }
  }

  /** The write statements of the repositories, with the values they bind. */
  datatype Write =
    | InsertBooking(userId: int, eventId: int, status: string, expiresAt: int, createdAt: int)
    | UpdateBookingStatus(status: string, eventId: int, userId: int)
    | DeleteExpiredBookings(now: int)
    | InsertEvent(title: string, description: string, eventDate: int, status: string, totalPlace: int,
                  reservationPeriod: int, bookingConfirmation: bool, createdAt: int)
    | InsertUser(email: string, password: string, role: string, tgChatId: Option<int>, createdAt: int)

  /** The row an insert adds: the serial numbers it. */
  function NewBooking(t: Tables, userId: int, eventId: int, status: string, expiresAt: int, createdAt: int): BookingRow
  {
    BookingRow(t.bookingSerial, userId, eventId, status, expiresAt, createdAt)
  }

  function Apply(t: Tables, w: Write): Tables
  {
    match w
    case InsertBooking(u, e, s, x, c) =>
      t.(bookings := t.bookings + [NewBooking(t, u, e, s, x, c)], bookingSerial := t.bookingSerial + 1)
    case UpdateBookingStatus(s, e, u) =>
      t.(bookings := UpdateStatusRows(t.bookings, s, e, u))
    case DeleteExpiredBookings(now) =>
      t.(bookings := DeleteExpiredRows(t.bookings, now))
    case InsertEvent(title, d, date, s, total, period, confirm, c) =>
      t.(events := t.events + [EventRow(t.eventSerial, title, d, date, s, total, period, confirm, c)],
         eventSerial := t.eventSerial + 1)
    case InsertUser(email, password, role, chat, c) =>
      t.(users := t.users + [UserRow(t.userSerial, email, password, role, chat, c)], userSerial := t.userSerial + 1)
  }

  /** The writes ws applied in order. */
  function ApplyAll(t: Tables, ws: seq<Write>): Tables
  {
    if ws == [] then t else Apply(ApplyAll(t, ws[..|ws| - 1]), ws[|ws| - 1])
  }

  ghost predicate BookingIdsAscend(rows: seq<BookingRow>, serial: int)
  {
    (forall i, j :: 0 <= i < j < |rows| ==> rows[i].id < rows[j].id) && (forall b :: b in rows ==> b.id < serial)
  }

  ghost predicate EventIdsAscend(rows: seq<EventRow>, serial: int)
  {
    (forall i, j :: 0 <= i < j < |rows| ==> rows[i].id < rows[j].id) && (forall e :: e in rows ==> e.id < serial)
  }

  ghost predicate UserIdsAscend(rows: seq<UserRow>, serial: int)
  {
    (forall i, j :: 0 <= i < j < |rows| ==> rows[i].id < rows[j].id) && (forall u :: u in rows ==> u.id < serial)
  }

  /** Every table's ids increase in insertion order and stay below its serial: ids are keys. */
  ghost predicate WellFormed(t: Tables)
  {
    BookingIdsAscend(t.bookings, t.bookingSerial)
    && EventIdsAscend(t.events, t.eventSerial)
    && UserIdsAscend(t.users, t.userSerial)
  }

  lemma AppendKeepsIdsAscending(rows: seq<BookingRow>, last: BookingRow, serial: int)
    requires BookingIdsAscend(rows, serial)
    requires forall b :: b in rows ==> b.id < last.id
    requires last.id < serial
    ensures BookingIdsAscend(rows + [last], serial)
  {
    var r := rows + [last];
    forall i, j | 0 <= i < j < |r| ensures r[i].id < r[j].id {
      assert r[i] == rows[i];
      if j == |rows| {
        assert rows[i] in rows;
      }
    }
  }

  /** Without its last row, an ascending table stays ascending, below that row's id. */
  lemma AscendingPrefix(rows: seq<BookingRow>, serial: int)
    requires rows != [] && BookingIdsAscend(rows, serial)
    ensures var init, last := rows[..|rows| - 1], rows[|rows| - 1];
            BookingIdsAscend(init, serial) && (forall b :: b in init ==> b.id < last.id) && last.id < serial
  {
    var init, last := rows[..|rows| - 1], rows[|rows| - 1];
    forall i, j | 0 <= i < j < |init| ensures init[i].id < init[j].id {
      assert init[i] == rows[i] && init[j] == rows[j];
    }
    forall b | b in init ensures b.id < serial && b.id < last.id {
      var k :| 0 <= k < |init| && init[k] == b;
      assert rows[k] == b;
    }
    assert last in rows;
  }

  lemma {:induction false} DeleteKeepsIdsAscending(rows: seq<BookingRow>, now: int, serial: int)
    requires BookingIdsAscend(rows, serial)
    ensures BookingIdsAscend(DeleteExpiredRows(rows, now), serial)
  {
    if rows != [] {
      var init, last := rows[..|rows| - 1], rows[|rows| - 1];
      assert rows == init + [last];
      AscendingPrefix(rows, serial);
      DeleteKeepsIdsAscending(init, now, serial);
      var kept := DeleteExpiredRows(init, now);
      assert DeleteExpiredRows(rows, now) == kept + (if Expired(last, now) then [] else [last]);
      if !Expired(last, now) {
        assert forall b :: b in kept ==> b in init;
        AppendKeepsIdsAscending(kept, last, serial);
      }
    }
  }

  /** Every write statement keeps ids unique. */
  lemma ApplyKeepsWellFormed(t: Tables, w: Write)
    requires WellFormed(t)
    ensures WellFormed(Apply(t, w))
  {
    match w
    case DeleteExpiredBookings(now) =>
      DeleteKeepsIdsAscending(t.bookings, now, t.bookingSerial);
    case UpdateBookingStatus(s, e, u) =>
      var r := UpdateStatusRows(t.bookings, s, e, u);
      forall b | b in r ensures b.id < t.bookingSerial {
        var k :| 0 <= k < |r| && r[k] == b;
        assert t.bookings[k] in t.bookings;
      }
    case _ =>
  }

  lemma {:induction false} ApplyAllKeepsWellFormed(t: Tables, ws: seq<Write>)
    requires WellFormed(t)
    ensures WellFormed(ApplyAll(t, ws))
  {
    if ws != [] {
      ApplyAllKeepsWellFormed(t, ws[..|ws| - 1]);
      ApplyKeepsWellFormed(ApplyAll(t, ws[..|ws| - 1]), ws[|ws| - 1]);
    }
  }

  /**
   * A database handle: the connection pool or one transaction. The tables are its
   * fields; journal lists the writes issued through it, which a commit replays.
   */
  class Storage {
    var bookings: seq<BookingRow>
    var events: seq<EventRow>
    var users: seq<UserRow>
    var bookingSerial: int
    var eventSerial: int
    var userSerial: int
    var journal: seq<Write>

    function Contents(): Tables
      reads this
    {
      Tables(bookings, events, users, bookingSerial, eventSerial, userSerial)
    }

    constructor (t: Tables)
      ensures Contents() == t && journal == []
    {
      bookings, events, users := t.bookings, t.events, t.users;
      bookingSerial, eventSerial, userSerial := t.bookingSerial, t.eventSerial, t.userSerial;
      journal := [];
    }

    /** Runs one write statement. */
    method Exec(w: Write)
      modifies this
      ensures Contents() == Apply(old(Contents()), w)
      ensures journal == old(journal) + [w]
    {
      journal := journal + [w];
      match w
      case InsertBooking(u, e, s, x, c) =>
        bookings := bookings + [BookingRow(bookingSerial, u, e, s, x, c)];
        bookingSerial := bookingSerial + 1;
      case UpdateBookingStatus(s, e, u) =>
        bookings := UpdateStatusRows(bookings, s, e, u);
      case DeleteExpiredBookings(now) =>
        bookings := DeleteExpiredRows(bookings, now);
      case InsertEvent(title, d, date, s, total, period, confirm, c) =>
        events := events + [EventRow(eventSerial, title, d, date, s, total, period, confirm, c)];
        eventSerial := eventSerial + 1;
      case InsertUser(email, password, role, chat, c) =>
        users := users + [UserRow(userSerial, email, password, role, chat, c)];
        userSerial := userSerial + 1;
    }

    /** Runs the writes ws in order (a commit replaying a transaction's journal). */
    method Replay(ws: seq<Write>)
      modifies this
      ensures Contents() == ApplyAll(old(Contents()), ws)
      ensures journal == old(journal) + ws
    {
      ghost var t0, j0 := Contents(), journal;
      var i := 0;
      while i < |ws|
        invariant 0 <= i <= |ws|
        invariant Contents() == ApplyAll(t0, ws[..i])
        invariant journal == j0 + ws[..i]
      {
        assert ws[..i + 1][..i] == ws[..i];
        assert ApplyAll(t0, ws[..i + 1]) == Apply(ApplyAll(t0, ws[..i]), ws[i]);
        Exec(ws[i]);
        i := i + 1;
      }
      assert ws[..i] == ws;
    }
  }
}
