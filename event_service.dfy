/**
 * The event service (internal/service/event.go): validation before the insert, and
 * the projections that add each event's occupancy to what the repository returns.
 */
module EventService {
  import opened Model
  import opened Store
  import EventRepository
  import BookingRepository
  import BookingService
  import Paging

  /**
   * validateCreateEvent, in its order: an empty title first, then a date strictly before
   * now, then a total that is not positive; nil when all three pass.
   */
  function ValidateCreateEvent(e: EventInCreate, now: int): (r: Option<Error>)
    ensures r == Some(ErrEmptyTitle) <==> e.title == ""
    ensures r == Some(ErrInvalidEventDate) <==> e.title != "" && e.eventDate < now
    ensures r == Some(ErrInvalidTotalPlace) <==> e.title != "" && now <= e.eventDate && e.totalPlace <= 0
    ensures r.None? <==> e.title != "" && now <= e.eventDate && e.totalPlace > 0
  {
    if e.title == "" then Some(ErrEmptyTitle)
    else if e.eventDate < now then Some(ErrInvalidEventDate)
    else if e.totalPlace <= 0 then Some(ErrInvalidTotalPlace)
    else None
  }

  /**
   * CreateEvent: a rejected event never reaches storage; an accepted one goes to the
   * repository's Create, whose error is returned as is.
   */
  method CreateEvent(s: Storage, e: EventInCreate, parseDuration: string -> Option<int>, now: int, fault: Option<string>)
    returns (err: Option<Error>)
    modifies s
    ensures ValidateCreateEvent(e, now).Some? ==>
              err == ValidateCreateEvent(e, now) && s.Contents() == old(s.Contents()) && s.journal == old(s.journal)
    ensures ValidateCreateEvent(e, now).None? && parseDuration(e.reservationPeriod).None? ==>
              err == Some(Wrapped(EventRepository.PeriodFormatContext, InvalidDuration(e.reservationPeriod)))
              && s.Contents() == old(s.Contents())
    ensures ValidateCreateEvent(e, now).None? && parseDuration(e.reservationPeriod).Some? ==>
              err == FaultError(fault)
              && s.Contents() == if fault.Some? then old(s.Contents())
                                 else Apply(old(s.Contents()), EventRepository.InsertFor(e, parseDuration(e.reservationPeriod).value, now))
  {
    var invalid := ValidateCreateEvent(e, now);
    if invalid.Some? {
      return invalid;
    }
    err := EventRepository.Create(s, e, parseDuration, now, fault);
  }

  /**
   * A new event starts with no seat taken: every booking refers to an existing event,
   * whose id is below the serial the new event gets. With a validated (positive) total,
   * the capacity invariant holds on.
   */
  lemma CreateEventKeepsInvariant(t: Tables, e: EventInCreate, period: int, now: int)
    requires BookingService.Invariant(t)
    requires ValidateCreateEvent(e, now).None?
    ensures var t' := Apply(t, EventRepository.InsertFor(e, period, now));
            && Occupied(t'.bookings, t.eventSerial) == 0
            && BookingService.Invariant(t')
  {
    var w := EventRepository.InsertFor(e, period, now);
    var t' := Apply(t, w);
    var row := EventRow(t.eventSerial, e.title, e.description, e.eventDate, EventStatusPending,
                        e.totalPlace, period, e.bookingConfirmation, now);
    assert t' == t.(events := t.events + [row], eventSerial := t.eventSerial + 1);
    ApplyKeepsWellFormed(t, w);
    NoSeatAtSerial(t);
    AddEventKeepsInvariant(t, t', row);
  }

  /** No booking holds a seat at the id the next event will get. */
  lemma NoSeatAtSerial(t: Tables)
    requires BookingService.Invariant(t)
    ensures Occupied(t.bookings, t.eventSerial) == 0
  {
    forall b | b in t.bookings ensures !HoldsSeat(b, t.eventSerial) {
      var y :| y in t.events && y.id == b.eventId;
      assert y.id < t.eventSerial;
    }
  }

  /** One more event row, with room for what already refers to it, keeps the invariant. */
  lemma AddEventKeepsInvariant(t: Tables, t': Tables, row: EventRow)
    requires BookingService.Invariant(t) && WellFormed(t')
    requires t'.bookings == t.bookings && t'.events == t.events + [row]
    requires Occupied(t.bookings, row.id) <= row.totalPlace
    ensures BookingService.Invariant(t')
  {
    forall b | b in t'.bookings ensures exists y :: y in t'.events && y.id == b.eventId {
      var y :| y in t.events && y.id == b.eventId;
      assert y in t'.events;
    }
    forall y | y in t'.events ensures Occupied(t'.bookings, y.id) <= y.totalPlace {
      if y != row {
        assert y in t.events;
      }
    }
  }

  /** An event row and its occupancy as the service reports them; the period through Duration.String. */
  function ResponseOf(e: EventRow, occupied: int, formatDuration: int -> string): EventInResponse
  {
    EventInResponse(e.id, e.title, e.description, e.eventDate, e.totalPlace, occupied, e.status,
                    formatDuration(e.reservationPeriod), e.bookingConfirmation, e.createdAt)
  }

  /**
   * GetByID: the lookup's error (its sql.ErrNoRows case would become ErrEventNotFound, but
   * the lookup never produces it), then the occupancy count's error, else the event with
   * its occupancy. The response leaves the id and created_at at their zero values.
   */
  function GetByID(t: Tables, id: int, formatDuration: int -> string, lookupFault: Option<string>, countFault: Option<string>)
    : (r: Result<EventInResponse>)
    ensures lookupFault.Some? ==> r == Err(Db(lookupFault.value))
    ensures lookupFault.None? && countFault.Some? ==> r == Err(Db(countFault.value))
    ensures lookupFault.None? && countFault.None? ==>
              var e := BookingService.EventOf(t, id);
              r == Ok(ResponseOf(e, Occupied(t.bookings, id), formatDuration).(id := 0, createdAt := ZeroTime))
    ensures r != Err(ErrEventNotFound)
  {
    var ev := EventRepository.GetByID(t, id, lookupFault);
    if ev.Err? then Err(if Is(ev.error, ErrNoRows) then ErrEventNotFound else ev.error)
    else
      var occ := BookingRepository.GetOccupiedPlace(t, id, countFault);
      BookingRepository.OccupiedIsFilterCount(t.bookings, id);
      if occ.Err? then Err(occ.error)
      else Ok(ResponseOf(ev.value, occ.value, formatDuration).(id := 0, createdAt := ZeroTime))
  }

  /**
   * GetByID of an id no event has, on tables keeping the invariant: no error, the zero
   * event with no seat taken.
   */
  lemma GetByIDMissing(t: Tables, id: int, formatDuration: int -> string)
    requires BookingService.Invariant(t)
    requires forall e :: e in t.events ==> e.id != id
    ensures GetByID(t, id, formatDuration, None, None) == Ok(ResponseOf(ZeroEvent, 0, formatDuration))
  {
    assert BookingService.EventOf(t, id) == ZeroEvent;
    forall b | b in t.bookings ensures !HoldsSeat(b, id) {
      var y :| y in t.events && y.id == b.eventId;
    }
  }

  /**
   * GetListEvents: the repository's listing, then one occupancy count per row in order;
   * countFaults maps a row's position to the driver error of its count. The first failing
   * count fails the whole call; otherwise one response per row, in order, each with its
   * own occupancy.
   */
  method GetListEvents(t: Tables, req: EventGetRequest, formatDuration: int -> string,
                       listFault: Option<string>, countFaults: map<int, string>)
    returns (r: Result<seq<EventInResponse>>)
    ensures listFault.Some? ==> r == Err(Db(listFault.value))
    ensures listFault.None? ==>
              var q := Paging.Select(t.events, EventRepository.AnyEvent(), EventRepository.EventKey,
                                     Paging.QueryFromMode(req.mode), Paging.Cursor(req.lastCreatedAt, req.lastId), req.pageSize);
              && (q.Err? ==> r == Err(q.error))
              && (q.Ok? ==>
                    && (r.Err? <==> exists k :: 0 <= k < |q.value| && k in countFaults)
                    && (r.Err? ==> exists k :: 0 <= k < |q.value| && k in countFaults && r.error == Db(countFaults[k])
                                             && forall j :: 0 <= j < k ==> j !in countFaults)
                    && (r.Ok? ==> |r.value| == |q.value|
                                  && forall k :: 0 <= k < |q.value| ==>
                                       r.value[k] == ResponseOf(q.value[k], Occupied(t.bookings, q.value[k].id), formatDuration)))
  {
    var list := EventRepository.GetListEvents(t, req, listFault);
    if list.Err? {
      return Err(list.error);
    }
    r := WithOccupancy(t, list.value, formatDuration, countFaults);
  }

  /** The loop of GetListEvents: one occupancy count per row, stopping at the first failure. */
  method WithOccupancy(t: Tables, rows: seq<EventRow>, formatDuration: int -> string, countFaults: map<int, string>)
    returns (r: Result<seq<EventInResponse>>)
    ensures r.Err? <==> exists k :: 0 <= k < |rows| && k in countFaults
    ensures r.Err? ==> exists k :: 0 <= k < |rows| && k in countFaults && r.error == Db(countFaults[k])
                                  && forall j :: 0 <= j < k ==> j !in countFaults
    ensures r.Ok? ==> |r.value| == |rows|
                      && forall k :: 0 <= k < |rows| ==>
                           r.value[k] == ResponseOf(rows[k], Occupied(t.bookings, rows[k].id), formatDuration)
  {
    var out: seq<EventInResponse> := [];
    var i := 0;
    while i < |rows|
      invariant 0 <= i <= |rows|
      invariant |out| == i
      invariant forall j :: 0 <= j < i ==> j !in countFaults
      invariant forall k :: 0 <= k < i ==> out[k] == ResponseOf(rows[k], Occupied(t.bookings, rows[k].id), formatDuration)
    {
      if i in countFaults {
        assert 0 <= i < |rows| && i in countFaults;
        return Err(Db(countFaults[i]));
      }
      var occ := CountOccupied(t, rows[i].id);
      out := out + [ResponseOf(rows[i], occ, formatDuration)];
      i := i + 1;
    }
    return Ok(out);
  }

  /** A GetOccupiedPlace call that succeeds: the event's seat-holding rows. */
  method CountOccupied(t: Tables, eventId: int) returns (n: int)
    ensures n == Occupied(t.bookings, eventId)
  {
    var occ := BookingRepository.GetOccupiedPlace(t, eventId, None);
    BookingRepository.OccupiedIsFilterCount(t.bookings, eventId);
    n := occ.value;
  }

  /** GetCountEvent: the repository's count of every event row. */
  function GetCountEvent(t: Tables, fault: Option<string>): (r: Result<int>)
    ensures fault.Some? ==> r == Err(Db(fault.value))
    ensures fault.None? ==> r == Ok(|t.events|)
  {
    EventRepository.GetCountEvents(t, fault)
  }
}
