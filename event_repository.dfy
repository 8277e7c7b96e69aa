/**
 * The event repository (internal/repository/event.go): the insert, the lookup by id,
 * the keyset-paginated listing and the row count of the events table.
 */
module EventRepository {
  import opened Model
  import opened Store
  import opened Paging

  /** The context Create wraps a duration parse error in. */
  const PeriodFormatContext: string := "invalid reservation_period format (use '30m', '1h', etc)"

  /** The insert Create issues for a parsed reservation period. */
  function InsertFor(e: EventInCreate, period: int, now: int): Write
  {
    InsertEvent(e.title, e.description, e.eventDate, EventStatusPending, e.totalPlace, period, e.bookingConfirmation, now)
  }

  /**
   * Create: the reservation period is parsed first (time.ParseDuration, a parameter
   * here); an unparsable period is a wrapped error and nothing is inserted. Otherwise
   * one row is inserted with status "pending" and created_at now.
   */
  method Create(s: Storage, e: EventInCreate, parseDuration: string -> Option<int>, now: int, fault: Option<string>)
    returns (err: Option<Error>)
    modifies s
    ensures parseDuration(e.reservationPeriod).None? ==>
              err == Some(Wrapped(PeriodFormatContext, InvalidDuration(e.reservationPeriod)))
              && s.Contents() == old(s.Contents()) && s.journal == old(s.journal)
    ensures parseDuration(e.reservationPeriod).Some? ==> err == FaultError(fault)
    ensures parseDuration(e.reservationPeriod).Some? && fault.None? ==>
              var w := InsertFor(e, parseDuration(e.reservationPeriod).value, now);
              s.Contents() == Apply(old(s.Contents()), w) && s.journal == old(s.journal) + [w]
    ensures fault.Some? ==> s.Contents() == old(s.Contents()) && s.journal == old(s.journal)
  {
    var period := parseDuration(e.reservationPeriod);
    if period.None? {
      return Some(Wrapped(PeriodFormatContext, InvalidDuration(e.reservationPeriod)));
    }
    if fault.Some? {
      return Some(Db(fault.value));
    }
    s.Exec(InsertFor(e, period.value, now));
    return None;
  }

  /** WHERE event_id=$1. */
  function WithId(id: int): EventRow -> bool
  {
    (e: EventRow) => e.id == id
  }

  /**
   * GetByID: the first row with that id; when there is none, the zero record and no
   * error (the code never reports sql.ErrNoRows).
   */
  function GetByID(t: Tables, id: int, fault: Option<string>): (r: Result<EventRow>)
    ensures fault.Some? ==> r == Err(Db(fault.value))
    ensures fault.None? && (forall e :: e in t.events ==> e.id != id) ==> r == Ok(ZeroEvent)
  {
    if fault.Some? then Err(Db(fault.value)) else Ok(FirstOr(t.events, WithId(id), ZeroEvent))
  }

  /** Ids are keys: in a well-formed table the lookup returns THE row with that id. */
  lemma GetByIDFindsRow(t: Tables, row: EventRow)
    requires EventIdsAscend(t.events, t.eventSerial)
    requires row in t.events
    ensures GetByID(t, row.id, None) == Ok(row)
  {
    FirstOrMatches(t.events, WithId(row.id), ZeroEvent);
    var found := FirstOr(t.events, WithId(row.id), ZeroEvent);
    var i :| 0 <= i < |t.events| && t.events[i] == found;
    var j :| 0 <= j < |t.events| && t.events[j] == row;
    assert i == j;
  }

  /** An event created into a well-formed table is found again by its new id, as created. */
  lemma CreateThenGetByID(t: Tables, e: EventInCreate, period: int, now: int)
    requires WellFormed(t)
    ensures var t' := Apply(t, InsertFor(e, period, now));
            && WellFormed(t')
            && GetByID(t', t.eventSerial, None)
               == Ok(EventRow(t.eventSerial, e.title, e.description, e.eventDate, EventStatusPending,
                              e.totalPlace, period, e.bookingConfirmation, now))
            && |t'.events| == |t.events| + 1
  {
    var t' := Apply(t, InsertFor(e, period, now));
    ApplyKeepsWellFormed(t, InsertFor(e, period, now));
    var row := EventRow(t.eventSerial, e.title, e.description, e.eventDate, EventStatusPending,
                        e.totalPlace, period, e.bookingConfirmation, now);
    assert t'.events == t.events + [row];
    assert row in t'.events;
    GetByIDFindsRow(t', row);
  }

  function EventKey(e: EventRow): Cursor
  {
    Cursor(e.createdAt, e.id)
  }

  /** The events query has no scope beyond the cursor. */
  function AnyEvent(): EventRow -> bool
  {
    (e: EventRow) => true
  }

  /**
   * GetListEvents: "next" returns events with created_at above the cursor AND event_id
   * above the last id, ascending; "prev" returns events strictly below (cursor, last id),
   * descending; each at most page_size rows; any other mode runs the empty query text.
   */
  method GetListEvents(t: Tables, req: EventGetRequest, fault: Option<string>) returns (r: Result<seq<EventRow>>)
    ensures fault.Some? ==> r == Err(Db(fault.value))
    ensures fault.None? ==>
              r == Select(t.events, AnyEvent(), EventKey, QueryFromMode(req.mode),
                          Cursor(req.lastCreatedAt, req.lastId), req.pageSize)
  {
    if fault.Some? {
      return Err(Db(fault.value));
    }
    var q := Select(t.events, AnyEvent(), EventKey, QueryFromMode(req.mode), Cursor(req.lastCreatedAt, req.lastId), req.pageSize);
    if q.Err? {
      return q;
    }
    var out := ScanRows(q.value);
    return Ok(out);
  }

  /** The listing, per mode: the rows it returns, their order and their number. */
  lemma GetListEventsModes(t: Tables, req: EventGetRequest)
    ensures var r := Select(t.events, AnyEvent(), EventKey, QueryFromMode(req.mode),
                            Cursor(req.lastCreatedAt, req.lastId), req.pageSize);
            var cursor := Cursor(req.lastCreatedAt, req.lastId);
            && (req.mode != "next" && req.mode != "prev" ==> r == Ok([]))
            && (req.mode == "next" || req.mode == "prev" ==> (r.Err? <==> req.pageSize < 0))
            && (r.Ok? && req.mode == "next" ==>
                  (forall e :: e in r.value ==> e in t.events && Beyond(EventKey(e), cursor))
                  && |r.value| == Min(req.pageSize, |Filter(t.events, NextScope(AnyEvent(), EventKey, cursor))|)
                  && Sorted(r.value, EventKey, true))
            && (r.Ok? && req.mode == "prev" ==>
                  (forall e :: e in r.value ==> e in t.events && Below(EventKey(e), cursor))
                  && |r.value| == Min(req.pageSize, |Filter(t.events, PrevScope(AnyEvent(), EventKey, cursor))|)
                  && Sorted(r.value, EventKey, false))
  {
    var q := QueryFromMode(req.mode);
    assert req.mode == "next" ==> q == NextQuery;
    assert req.mode == "prev" ==> q == PrevQuery;
  }

  /** SELECT COUNT(*) FROM events: every row, whatever its status. */
  function GetCountEvents(t: Tables, fault: Option<string>): (r: Result<int>)
    ensures fault.Some? ==> r == Err(Db(fault.value))
    ensures fault.None? ==> r == Ok(|t.events|)
  {
    if fault.Some? then Err(Db(fault.value)) else Ok(|t.events|)
  }
}
