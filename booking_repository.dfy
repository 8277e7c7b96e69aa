/**
 * The booking repository (internal/repository/booking.go): every statement it sends,
 * as an operation on the tables. Writes go through a Storage handle (the pool or a
 * transaction); reads are functions of the tables, and the two row-scanning loops
 * are methods proved against the query they scan.
 */
module BookingRepository {
  import opened Model
  import opened Store
  import opened Paging

  /** A row of booking b INNER JOIN events e ON e.event_id = b.event_id. */
  datatype JoinedBooking = JoinedBooking(booking: BookingRow, event: EventRow)

  /** A row of booking b INNER JOIN events e ... INNER JOIN users u ON b.user_id = u.user_id. */
  datatype ExpiredJoin = ExpiredJoin(booking: BookingRow, event: EventRow, user: UserRow)

  /** The error the driver reports when a NULL tg_chatid is scanned into an int64. */
  const NullChatIdMessage: string := "converting NULL to int64 is unsupported"

  // ---- writes ----

  /** INSERT INTO booking (user_id, event_id, status, expires_at, created_at), created_at being now. */
  method Create(s: Storage, b: BookingInCreate, status: string, now: int, fault: Option<string>) returns (err: Option<Error>)
    modifies s
    ensures err == FaultError(fault)
    ensures fault.None? ==>
              s.Contents() == Apply(old(s.Contents()), InsertBooking(b.userId, b.eventId, status, b.expiresAt, now))
              && s.journal == old(s.journal) + [InsertBooking(b.userId, b.eventId, status, b.expiresAt, now)]
    ensures fault.Some? ==> s.Contents() == old(s.Contents()) && s.journal == old(s.journal)
  {
    if fault.Some? {
      return Some(Db(fault.value));
    }
    s.Exec(InsertBooking(b.userId, b.eventId, status, b.expiresAt, now));
    return None;
  }

  /**
   * The insert adds exactly one row carrying the given user, event, status and expiry:
   * the event's occupancy grows by one exactly when the status holds a seat, no other
   * event's occupancy moves, and the user's row count grows by one.
   */
  lemma CreateAddsOneRow(t: Tables, b: BookingInCreate, status: string, now: int)
    ensures var t' := Apply(t, InsertBooking(b.userId, b.eventId, status, b.expiresAt, now));
            && t'.bookings == t.bookings + [BookingRow(t.bookingSerial, b.userId, b.eventId, status, b.expiresAt, now)]
            && t'.events == t.events && t'.users == t.users
            && Occupied(t'.bookings, b.eventId) == Occupied(t.bookings, b.eventId) + (if Active(status) then 1 else 0)
            && (forall e :: e != b.eventId ==> Occupied(t'.bookings, e) == Occupied(t.bookings, e))
            && CountUserRows(t'.bookings, b.userId) == CountUserRows(t.bookings, b.userId) + 1
  {
    var row := BookingRow(t.bookingSerial, b.userId, b.eventId, status, b.expiresAt, now);
    OccupiedAppend(t.bookings, row, b.eventId);
    forall e | e != b.eventId ensures Occupied(t.bookings + [row], e) == Occupied(t.bookings, e) {
      OccupiedAppend(t.bookings, row, e);
    }
    CountUserAppend(t.bookings, row, b.userId);
  }

  /** UPDATE booking SET status=$1 WHERE user_id=$2 AND event_id=$3. */
  method UpdateStatus(s: Storage, status: string, eventId: int, userId: int, fault: Option<string>) returns (err: Option<Error>)
    modifies s
    ensures err == FaultError(fault)
    ensures fault.None? ==>
              s.Contents() == Apply(old(s.Contents()), UpdateBookingStatus(status, eventId, userId))
              && s.journal == old(s.journal) + [UpdateBookingStatus(status, eventId, userId)]
    ensures fault.Some? ==> s.Contents() == old(s.Contents()) && s.journal == old(s.journal)
  {
    if fault.Some? {
      return Some(Db(fault.value));
    }
    s.Exec(UpdateBookingStatus(status, eventId, userId));
    return None;
  }

  /** DELETE FROM booking WHERE status = 'pending' AND expires_at < now. */
  method DeleteExpiredBooking(s: Storage, now: int, fault: Option<string>) returns (err: Option<Error>)
    modifies s
    ensures err == FaultError(fault)
    ensures fault.None? ==>
              s.Contents() == Apply(old(s.Contents()), DeleteExpiredBookings(now))
              && s.journal == old(s.journal) + [DeleteExpiredBookings(now)]
    ensures fault.Some? ==> s.Contents() == old(s.Contents()) && s.journal == old(s.journal)
  {
    if fault.Some? {
      return Some(Db(fault.value));
    }
    s.Exec(DeleteExpiredBookings(now));
    return None;
  }

  // ---- counts ----

  /** WHERE event_id=$1 AND status IN ('pending', 'confirmed'). */
  function SeatOf(eventId: int): BookingRow -> bool
  {
    (b: BookingRow) => HoldsSeat(b, eventId)
  }

  /** WHERE user_id=$1. */
  function RowOf(userId: int): BookingRow -> bool
  {
    (b: BookingRow) => b.userId == userId
  }

  lemma {:induction false} OccupiedIsFilterCount(rows: seq<BookingRow>, eventId: int)
    ensures Occupied(rows, eventId) == |Filter(rows, SeatOf(eventId))|
  {
    if rows != [] {
      var init, last := rows[..|rows| - 1], rows[|rows| - 1];
      assert rows == init + [last];
      OccupiedIsFilterCount(init, eventId);
    }
  }

  lemma {:induction false} CountUserIsFilterCount(rows: seq<BookingRow>, userId: int)
    ensures CountUserRows(rows, userId) == |Filter(rows, RowOf(userId))|
  {
    if rows != [] {
      var init, last := rows[..|rows| - 1], rows[|rows| - 1];
      assert rows == init + [last];
      CountUserIsFilterCount(init, userId);
    }
  }

  /**
   * SELECT COUNT(*) ... WHERE event_id=$1 AND status IN ('pending', 'confirmed'): the
   * number of the event's rows whose status holds a seat; cancelled rows do not count.
   */
  function GetOccupiedPlace(t: Tables, eventId: int, fault: Option<string>): (r: Result<int>)
    ensures fault.Some? ==> r == Err(Db(fault.value))
    ensures fault.None? ==> r.Ok? && r.value == |Filter(t.bookings, SeatOf(eventId))|
  {
    if fault.Some? then Err(Db(fault.value))
    else
      OccupiedIsFilterCount(t.bookings, eventId);
      Ok(Occupied(t.bookings, eventId))
  }

  /** SELECT COUNT(*) ... WHERE user_id=$1: all of the user's rows, whatever their status. */
  function GetCountUserBooking(t: Tables, userId: int, fault: Option<string>): (r: Result<int>)
    ensures fault.Some? ==> r == Err(Db(fault.value))
    ensures fault.None? ==> r.Ok? && r.value == |Filter(t.bookings, RowOf(userId))|
  {
    if fault.Some? then Err(Db(fault.value))
    else
      CountUserIsFilterCount(t.bookings, userId);
      Ok(CountUserRows(t.bookings, userId))
  }

  // ---- joins ----

  function PairWith(b: BookingRow, es: seq<EventRow>): (r: seq<JoinedBooking>)
    ensures forall j :: j in r <==> j.booking == b && j.event in es
  {
    if es == [] then []
    else
      assert es == es[..|es| - 1] + [es[|es| - 1]];
      PairWith(b, es[..|es| - 1]) + [JoinedBooking(b, es[|es| - 1])]
  }

  /** booking b INNER JOIN events e ON e.event_id = b.event_id, in booking-table order. */
  function JoinEvents(bookings: seq<BookingRow>, events: seq<EventRow>): (r: seq<JoinedBooking>)
    ensures forall j :: j in r <==> j.booking in bookings && j.event in events && j.event.id == j.booking.eventId
  {
    if bookings == [] then []
    else
      var init, last := bookings[..|bookings| - 1], bookings[|bookings| - 1];
      assert bookings == init + [last];
      JoinEvents(init, events) + PairWith(last, Filter(events, (e: EventRow) => e.id == last.eventId))
  }

  function TripleWith(b: BookingRow, e: EventRow, us: seq<UserRow>): (r: seq<ExpiredJoin>)
    ensures forall x :: x in r <==> x.booking == b && x.event == e && x.user in us
  {
    if us == [] then []
    else
      assert us == us[..|us| - 1] + [us[|us| - 1]];
      TripleWith(b, e, us[..|us| - 1]) + [ExpiredJoin(b, e, us[|us| - 1])]
  }

  function TriplesWith(b: BookingRow, es: seq<EventRow>, us: seq<UserRow>): (r: seq<ExpiredJoin>)
    ensures forall x :: x in r <==> x.booking == b && x.event in es && x.user in us
  {
    if es == [] then []
    else
      assert es == es[..|es| - 1] + [es[|es| - 1]];
      TriplesWith(b, es[..|es| - 1], us) + TripleWith(b, es[|es| - 1], us)
  }

  /**
   * The rows of the expiry select: bookings with status='pending' AND expires_at < now,
   * joined with their event and their user. The query has no ORDER BY; the rows come
   * in booking-table order.
   */
  function ExpiredRows(t: Tables, now: int): (r: seq<ExpiredJoin>)
    ensures forall x :: x in r <==>
              x.booking in t.bookings && Expired(x.booking, now)
              && x.event in t.events && x.event.id == x.booking.eventId
              && x.user in t.users && x.user.id == x.booking.userId
  {
    ExpiredFrom(t.bookings, t.events, t.users, now)
  }

  function ExpiredFrom(bookings: seq<BookingRow>, events: seq<EventRow>, users: seq<UserRow>, now: int): (r: seq<ExpiredJoin>)
    ensures forall x :: x in r <==>
              x.booking in bookings && Expired(x.booking, now)
              && x.event in events && x.event.id == x.booking.eventId
              && x.user in users && x.user.id == x.booking.userId
  {
    if bookings == [] then []
    else
      var init, last := bookings[..|bookings| - 1], bookings[|bookings| - 1];
      assert bookings == init + [last];
      ExpiredFrom(init, events, users, now)
        + (if Expired(last, now)
           then TriplesWith(last, Filter(events, (e: EventRow) => e.id == last.eventId),
                            Filter(users, (u: UserRow) => u.id == last.userId))
           else [])
  }

  // ---- list query ----

  /** ORDER BY b.created_at, b.booking_id. */
  function JoinedKey(j: JoinedBooking): Cursor
  {
    Cursor(j.booking.createdAt, j.booking.id)
  }

  /** WHERE b.user_id=$1. */
  function OfUser(userId: int): JoinedBooking -> bool
  {
    (j: JoinedBooking) => j.booking.userId == userId
  }

  function DetailsKey(d: BookingWithEventDetails): Cursor
  {
    Cursor(d.booking.createdAt, d.booking.id)
  }

  /** The query getQueryFromMode selects, run with (user_id, last_created_at, last_id, page_size). */
  function ListQuery(t: Tables, req: BookingGetRequest): Result<seq<JoinedBooking>>
  {
    Select(JoinEvents(t.bookings, t.events), OfUser(req.userId), JoinedKey, QueryFromMode(req.mode),
           Cursor(req.lastCreatedAt, req.lastId), req.pageSize)
  }

  /** Scan of one result row into BookingWithEventDetails. */
  function Details(j: JoinedBooking): BookingWithEventDetails
  {
    BookingWithEventDetails(j.booking, j.event.title, j.event.description, j.event.eventDate)
  }

  /** The loop over the result set of the list query: one record per row, in order. */
  method ScanDetails(rows: seq<JoinedBooking>) returns (out: seq<BookingWithEventDetails>)
    ensures |out| == |rows|
    ensures forall k :: 0 <= k < |rows| ==> out[k] == Details(rows[k])
  {
    out := [];
    var i := 0;
    while i < |rows|
      invariant 0 <= i <= |rows|
      invariant |out| == i
      invariant forall k :: 0 <= k < i ==> out[k] == Details(rows[k])
    {
      out := out + [Details(rows[i])];
      i := i + 1;
    }
  }

  /** What the selected list rows satisfy, per mode. */
  lemma ListQueryRows(t: Tables, req: BookingGetRequest)
    requires ListQuery(t, req).Ok?
    ensures var rows := ListQuery(t, req).value;
            && |rows| <= (if req.pageSize < 0 then 0 else req.pageSize)
            && (forall j :: j in rows ==>
                  j.booking in t.bookings && j.event in t.events && j.event.id == j.booking.eventId
                  && j.booking.userId == req.userId
                  && (req.mode == "next" ==> Beyond(JoinedKey(j), Cursor(req.lastCreatedAt, req.lastId)))
                  && (req.mode == "prev" ==> Below(JoinedKey(j), Cursor(req.lastCreatedAt, req.lastId))))
            && forall a, b :: 0 <= a < b < |rows| ==> Ordered(JoinedKey(rows[a]), JoinedKey(rows[b]), req.mode == "next")
  {
    var q := QueryFromMode(req.mode);
    var rows := ListQuery(t, req).value;
    var all := JoinEvents(t.bookings, t.events);
    if q == NextQuery {
      assert |rows| == Min(req.pageSize, |Filter(all, NextScope(OfUser(req.userId), JoinedKey, Cursor(req.lastCreatedAt, req.lastId)))|);
    } else if q == PrevQuery {
      assert |rows| == Min(req.pageSize, |Filter(all, PrevScope(OfUser(req.userId), JoinedKey, Cursor(req.lastCreatedAt, req.lastId)))|);
    }
  }

  /**
   * GetListBooking: the user's bookings joined with their event. "next" returns rows with
   * created_at above the cursor AND id above the last id, ascending; "prev" returns rows
   * strictly below (cursor, last id) in (created_at, id) order, descending; each at most
   * page_size rows. Any other mode runs the empty query text.
   */
  method GetListBooking(t: Tables, req: BookingGetRequest, fault: Option<string>) returns (r: Result<seq<BookingWithEventDetails>>)
    ensures fault.Some? ==> r == Err(Db(fault.value))
    ensures fault.None? && req.mode != "next" && req.mode != "prev" ==> r == Ok([])
    ensures fault.None? && (req.mode == "next" || req.mode == "prev") ==> (r.Err? <==> req.pageSize < 0)
    ensures fault.None? && ListQuery(t, req).Err? ==> r == Err(ListQuery(t, req).error)
    ensures fault.None? && ListQuery(t, req).Ok? ==>
              r.Ok? && |r.value| == |ListQuery(t, req).value|
              && forall k :: 0 <= k < |r.value| ==> r.value[k] == Details(ListQuery(t, req).value[k])
    ensures r.Ok? ==>
              |r.value| <= (if req.pageSize < 0 then 0 else req.pageSize)
              && forall d :: d in r.value ==>
                   d.booking in t.bookings && d.booking.userId == req.userId
                   && (exists e :: e in t.events && e.id == d.booking.eventId
                        && d.eventTitle == e.title && d.eventDescription == e.description && d.eventDate == e.eventDate)
                   && (req.mode == "next" ==> Beyond(DetailsKey(d), Cursor(req.lastCreatedAt, req.lastId)))
                   && (req.mode == "prev" ==> Below(DetailsKey(d), Cursor(req.lastCreatedAt, req.lastId)))
    ensures r.Ok? ==> forall i, j :: 0 <= i < j < |r.value| ==>
              Ordered(DetailsKey(r.value[i]), DetailsKey(r.value[j]), req.mode == "next")
  {
    if fault.Some? {
      return Err(Db(fault.value));
    }
    var q := ListQuery(t, req);
    if q.Err? {
      return Err(q.error);
    }
    var rows := q.value;
    var out := ScanDetails(rows);
    ListQueryRows(t, req);
    forall d | d in out
      ensures d.booking in t.bookings && d.booking.userId == req.userId
      ensures exists e :: e in t.events && e.id == d.booking.eventId
                && d.eventTitle == e.title && d.eventDescription == e.description && d.eventDate == e.eventDate
      ensures req.mode == "next" ==> Beyond(DetailsKey(d), Cursor(req.lastCreatedAt, req.lastId))
      ensures req.mode == "prev" ==> Below(DetailsKey(d), Cursor(req.lastCreatedAt, req.lastId))
    {
      var k :| 0 <= k < |out| && out[k] == d;
      assert rows[k] in rows;
      assert DetailsKey(d) == JoinedKey(rows[k]);
    }
    forall a, b | 0 <= a < b < |out|
      ensures Ordered(DetailsKey(out[a]), DetailsKey(out[b]), req.mode == "next")
    {
      assert DetailsKey(out[a]) == JoinedKey(rows[a]) && DetailsKey(out[b]) == JoinedKey(rows[b]);
    }
    return Ok(out);
  }

  // ---- expiry scan ----

  /** Scan of one expiry row into BookingGetForTG; the chat id must not be NULL. */
  function ForTG(x: ExpiredJoin): BookingGetForTG
    requires x.user.tgChatId.Some?
  {
    BookingGetForTG(x.booking.id, x.user.tgChatId.value, x.event.eventDate, x.event.title)
  }

  /**
   * The scan of the expiry rows: the first NULL chat id fails the whole batch, else one
   * record per row, in row order.
   */
  function ScanExpired(rows: seq<ExpiredJoin>): (r: Result<seq<BookingGetForTG>>)
    ensures r.Err? <==> exists x :: x in rows && x.user.tgChatId.None?
    ensures r.Err? ==> r.error == Db(NullChatIdMessage)
    ensures r.Ok? ==> |r.value| == |rows|
                      && forall k :: 0 <= k < |rows| ==> rows[k].user.tgChatId.Some? && r.value[k] == ForTG(rows[k])
  {
    if rows == [] then Ok([])
    else if rows[0].user.tgChatId.None? then Err(Db(NullChatIdMessage))
    else
      var rest := ScanExpired(rows[1..]);
      assert forall x :: x in rows[1..] ==> x in rows;
      assert rows[0].user.tgChatId.Some? && (forall x :: x in rows[1..] && x.user.tgChatId.None? ==> x in rows);
      if rest.Err? then rest else Ok([ForTG(rows[0])] + rest.value)
  }

  /**
   * GetExpiredBooking: one record per expiry row, in row order. A user without a chat id
   * makes the scan fail, and the whole batch is returned as an error.
   */
  method GetExpiredBooking(t: Tables, now: int, fault: Option<string>) returns (r: Result<seq<BookingGetForTG>>)
    ensures fault.Some? ==> r == Err(Db(fault.value))
    ensures fault.None? ==> r == ScanExpired(ExpiredRows(t, now))
    ensures fault.None? ==>
              (r.Err? <==> exists x :: x in ExpiredRows(t, now) && x.user.tgChatId.None?)
              && (r.Err? ==> r.error == Db(NullChatIdMessage))
    ensures r.Ok? ==>
              var rows := ExpiredRows(t, now);
              |r.value| == |rows|
              && forall k :: 0 <= k < |rows| ==> rows[k].user.tgChatId.Some? && r.value[k] == ForTG(rows[k])
  {
    if fault.Some? {
      return Err(Db(fault.value));
    }
    var rows := ExpiredRows(t, now);
    var out: seq<BookingGetForTG> := [];
    var i := 0;
    while i < |rows|
      invariant 0 <= i <= |rows|
      invariant |out| == i
      invariant forall k :: 0 <= k < i ==> rows[k].user.tgChatId.Some? && out[k] == ForTG(rows[k])
    {
      if rows[i].user.tgChatId.None? {
        return Err(Db(NullChatIdMessage));
      }
      out := out + [ForTG(rows[i])];
      i := i + 1;
    }
    forall x | x in rows ensures x.user.tgChatId.Some? {
      var k :| 0 <= k < |rows| && rows[k] == x;
    }
    assert out == ScanExpired(rows).value;
    return Ok(out);
  }
}
