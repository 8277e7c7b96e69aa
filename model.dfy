/**
 * Records, status strings and errors of the booking core (internal/model and
 * internal/service/errors.go). Timestamps and durations are plain integers on one
 * clock; Go's zero time.Time is ZeroTime.
 */
module Model {

  // Booking statuses as stored in the booking table
  const StatusBookingPending: string := "pending"
  const StatusBookingConfirmed: string := "confirmed"
  const StatusBookingCanceled: string := "cancelled"

  // Event statuses as stored in the events table
  const EventStatusPending: string := "pending"
  const EventStatusCanceled: string := "canceled"
  const EventStatusExpired: string := "expired"

  /** The role every user row is created with. */
  const RoleUser: string := "user"

  /** Go's zero time.Time (year 1): earlier than any reading of the clock. */
  const ZeroTime: int := 0

  datatype Option<T> = None | Some(value: T)

  /** The errors the core can return; Db carries a driver error, Wrapped an fmt.Errorf("%w") chain. */
  datatype Error =
    | ErrEventNotFound
    | ErrEventAlreadyPassed
    | ErrEmptyTitle
    | ErrInvalidTotalPlace
    | ErrInvalidEventDate
    | ErrBookingNotFound
    | ErrBookingNotRequired
    | ErrNoSeatsAvailable
    | ErrNoRows
    | InvalidDuration(text: string)
    | Db(message: string)
    | Wrapped(context: string, cause: Error)

  datatype Result<T> = Ok(value: T) | Err(error: Error)

  /** errors.Is: the error or some error it wraps is the target. */
  predicate Is(err: Error, target: Error)
  {
    err == target || (err.Wrapped? && Is(err.cause, target))
  }

  /** The error a failing statement returns. */
  function FaultError(fault: Option<string>): Option<Error>
  {
    if fault.Some? then Some(Db(fault.value)) else None
  }

  // ---- bookings ----

  datatype BookingInCreate = BookingInCreate(userId: int, eventId: int, expiresAt: int)

  /** A row of the booking table (BookingInRepo). */
  datatype BookingRow = BookingRow(id: int, userId: int, eventId: int, status: string, expiresAt: int, createdAt: int)

  datatype BookingWithEventDetails = BookingWithEventDetails(
    booking: BookingRow, eventTitle: string, eventDescription: string, eventDate: int)

  datatype BookingInResponse = BookingInResponse(
    id: int, userId: int, eventId: int, status: string, expiresAt: int, createdAt: int,
    eventTitle: string, eventDescription: string, eventDate: int)

  datatype BookingGetRequest = BookingGetRequest(userId: int, mode: string, lastCreatedAt: int, lastId: int, pageSize: int)

  datatype BookingGetForTG = BookingGetForTG(id: int, tgChatId: int, eventDate: int, titleEvent: string)

  // ---- events ----

  datatype EventInCreate = EventInCreate(
    title: string, description: string, eventDate: int, totalPlace: int,
    reservationPeriod: string, bookingConfirmation: bool)

  /** A row of the events table (EventInRepo); reservationPeriod is a parsed duration. */
  datatype EventRow = EventRow(
    id: int, title: string, description: string, eventDate: int, status: string,
    totalPlace: int, reservationPeriod: int, bookingConfirmation: bool, createdAt: int)

  /** The record a query returns when no row matches: every field zero-valued. */
  const ZeroEvent: EventRow := EventRow(0, "", "", ZeroTime, "", 0, 0, false, ZeroTime)

  datatype EventInResponse = EventInResponse(
    id: int, title: string, description: string, eventDate: int, totalPlace: int,
    occupiedPlace: int, eventStatus: string, reservationPeriod: string,
    bookingConfirmation: bool, createdAt: int)

  datatype EventGetRequest = EventGetRequest(lastCreatedAt: int, lastId: int, mode: string, pageSize: int)

  // ---- users ----

  datatype UserInCreate = UserInCreate(email: string, password: string, tgChatId: Option<int>)

  /** A row of the users table (UserInRepo); tg_chatid is nullable. */
  datatype UserRow = UserRow(id: int, email: string, password: string, role: string, tgChatId: Option<int>, createdAt: int)

  const ZeroUser: UserRow := UserRow(0, "", "", "", None, ZeroTime)

  datatype UserGetRequest = UserGetRequest(lastCreatedAt: int, lastId: int, mode: string, pageSize: int)
}
