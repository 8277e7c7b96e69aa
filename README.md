# EventBooker booking core in Dafny

This project models the booking reservation and lifecycle engine of EventBooker, a Go
service. Users reserve seats at events. An event may ask the organiser to confirm each
booking. Pending bookings expire, and their users are told so over Telegram.

The database is modelled as three tables of rows held in a `Store.Storage` object:
bookings, events and users. Each table has a serial counter for new ids. Every SQL
statement of the repositories is a write (`Store.Write`) or a function of the tables,
with the same WHERE clause. A driver failure is an `Option<string>` fault parameter of
the statement. Time is an integer `now` handed in by the caller.

The modules follow the Go packages:

- `Store` holds the tables, the writes and the storage object.
- `Paging` holds keyset pagination.
- `BookingRepository`, `EventRepository` and `UserRepository` model `internal/repository`.
- `Transactions` models `Storage.WithTx`.
- `BookingService` and `EventService` model `internal/service`.
- `Scheduler` models the expiry sweep tick.
- `Telegram` models the retry worker.
- `Model` holds the records and error values.
- `Decimal` holds the `%d` formatting of a booking id and its parse back.

`WithTx` is a redo log. A transaction handle is a fresh `Storage` copy whose journal
starts empty. Commit replays that journal onto the pool. Rollback drops it.
`Transactions.WithTx` is the pure specification of the whole call. The service methods
`Book` and `Confirm` are proved equal to it, with the effect of their `fn` as a pure
function (`BookFn`, `ConfirmFn`).

The capacity invariant `BookingService.Invariant` has three parts:

- ids are keys;
- every booking refers to an existing event;
- no event has more seat-holding bookings than places.

Book, cancel, the expiry sweep and event creation keep it. Confirm as written does not:
see Findings.

Where the code and the design disagree, the model follows the code:

- "next" pagination compares created_at and id separately, not as a pair
  (`internal/repository/booking.go:58`).
- `GetByID` returns a zero record and no error when no row matches. So the
  `sql.ErrNoRows` branches never fire. Booking a missing event ends in
  `ErrEventAlreadyPassed` (or `ErrNoSeatsAvailable` for a `now` not after the zero time).
  Confirming one ends in `ErrBookingNotRequired`. The event service's `GetByID` never
  returns `ErrEventNotFound`.
- Book sets `expires_at` whatever the status, confirmed included.
- Confirm's status update goes through the pool handle (`bs.storage`), not the
  transaction. It takes effect at once, and no rollback or failed commit undoes it.
- The service passes a booking id to `UpdateStatus`, whose signature has no such
  parameter and whose SQL never uses it. The booking id has no effect in the model.
- An unknown pagination mode runs the empty query text. The model returns no rows.
- A negative page size is refused, as PostgreSQL refuses a negative LIMIT.

## Model

| member | source | states |
|---|---|---|
| Store.Occupied | internal/repository/booking.go:121-136 | counts only the event's pending and confirmed rows; zero exactly when no row of the event holds a seat |
| Store.CountUserRows | internal/repository/booking.go:172-188 | counts all of a user's rows, whatever their status; zero exactly when the user has none |
| Store.UpdateStatusRows | internal/repository/booking.go:110-114 | every row matching both the user and the event gets the new status; every other row is unchanged; the table keeps its length |
| Store.DeleteExpiredRows | internal/repository/booking.go:190-193 | removes exactly the pending rows with expires_at before now; every other row keeps its multiplicity |
| Store.OccupiedAppend | internal/repository/booking.go:32-34 | one more row raises an event's occupancy by one exactly when that row holds a seat for it |
| Store.CountUserAppend | internal/repository/booking.go:172-175 | one more row raises a user's count by one exactly when it is that user's |
| Store.UpdateStatusOccupancy | internal/repository/booking.go:110-124 | a status update leaves other events' occupancy unchanged; a status that holds no seat never raises any event's occupancy |
| Store.UpdateStatusKeepsUserCount | internal/repository/booking.go:110-114 | a status update never changes how many rows a user has |
| Store.DeleteExpiredOccupancy | internal/repository/booking.go:190-193 | the expiry delete never raises any event's occupancy |
| Store.ApplyAllKeepsWellFormed | internal/repository/db.go:67-69 | a committed journal keeps ids unique and below their serials |
| Store.Storage.Exec | internal/repository/db.go:12-16 | a statement applies its write to the handle's tables and is appended to its journal |
| Store.Storage.Replay | internal/repository/db.go:67-69 | commit replays the journal in order: the new tables are the writes applied one after another |
| Paging.FirstOr | internal/repository/event.go:62-70 | a single-row scan returns the zero record when no row matches |
| Paging.FirstOrIsFirst | internal/repository/event.go:48-50 | a single-row scan returns the matching row at the lowest position |
| Paging.FirstOrMatches | internal/repository/event.go:63-69 | when some row matches, the scanned record is a matching row of the table |
| Paging.Sort | internal/repository/booking.go:59 | ORDER BY gives a permutation of the rows, sorted by (created_at, id) |
| Paging.Page | internal/repository/booking.go:58-60 | a page holds min(limit, matches) rows, all matching rows of the table, sorted |
| Paging.PageHoldsFirstMatches | internal/repository/booking.go:59-60 | a matching row left off the page comes after every row on it |
| Paging.QueryFromMode | internal/repository/booking.go:41-79 | "next" and "prev" select their query; any other mode selects the empty query |
| Paging.Select | internal/repository/booking.go:58-76 | the empty query returns no rows; a negative limit fails; "next" rows are beyond the cursor in both columns, ascending; "prev" rows are lexicographically below it, descending; each at most limit rows |
| Paging.NextSkipsLaterRowWithSmallerId | internal/repository/booking.go:58 | a row sorting after the cursor but with a smaller id is not returned by "next" |
| Paging.TiedRowOnNeitherPage | internal/repository/booking.go:58-74 | a row sharing the cursor's created_at with a larger id is returned by neither "next" nor "prev" |
| Paging.LexicographicModesPartition | internal/repository/booking.go:74 | with the lexicographic "next", every row in scope other than the cursor's is on exactly one side |
| BookingRepository.Create | internal/repository/booking.go:30-39 | a fault returns its error and writes nothing; otherwise exactly the insert is applied and journalled |
| BookingRepository.CreateAddsOneRow | internal/repository/booking.go:32-34 | the insert appends one row with the given user, event, status and expiry; occupancy rises by one exactly when the status holds a seat; other events and tables are unchanged; the user's count rises by one |
| BookingRepository.UpdateStatus | internal/repository/booking.go:110-119 | a fault returns its error and writes nothing; otherwise exactly the status update is applied |
| BookingRepository.DeleteExpiredBooking | internal/repository/booking.go:190-198 | a fault returns its error and writes nothing; otherwise exactly the expiry delete is applied |
| BookingRepository.OccupiedIsFilterCount | internal/repository/booking.go:122-124 | the occupancy count is the number of rows of the event with status pending or confirmed |
| BookingRepository.CountUserIsFilterCount | internal/repository/booking.go:173-175 | the user count is the number of the user's rows |
| BookingRepository.GetOccupiedPlace | internal/repository/booking.go:121-136 | a fault returns its error; otherwise the count of the event's seat-holding rows |
| BookingRepository.GetCountUserBooking | internal/repository/booking.go:172-188 | a fault returns its error; otherwise the count of all of the user's rows |
| BookingRepository.JoinEvents | internal/repository/booking.go:56-57 | the inner join pairs exactly each booking with the events whose id it refers to |
| BookingRepository.ExpiredRows | internal/repository/booking.go:139-147 | the expiry select holds exactly the pending bookings with expires_at before now that have a matching event and user |
| BookingRepository.ScanExpired | internal/repository/booking.go:159-168 | a NULL chat id fails the whole batch; otherwise one record per row, in row order |
| BookingRepository.GetExpiredBooking | internal/repository/booking.go:138-170 | the scan loop returns the fault, or the scan of the expiry rows |
| BookingRepository.ScanDetails | internal/repository/booking.go:95-107 | the scan loop turns each joined row into its details record, in order |
| BookingRepository.ListQueryRows | internal/repository/booking.go:81-85 | the listed rows are the user's bookings joined with their event, within the mode's cursor condition and in the mode's order |
| BookingRepository.GetListBooking | internal/repository/booking.go:81-108 | a fault, a negative page size or the query's error is returned; otherwise the details of the query's rows, in order, each the user's, beyond or below the cursor as the mode says, sorted |
| EventRepository.Create | internal/repository/event.go:28-45 | an unparsable period returns a wrapped error and inserts nothing; a fault inserts nothing; otherwise one pending event is inserted |
| EventRepository.GetByID | internal/repository/event.go:47-71 | a fault returns its error; when no row has the id, the zero record and no error |
| EventRepository.GetByIDFindsRow | internal/repository/event.go:48-50 | with unique ids, the lookup returns the row with that id |
| EventRepository.CreateThenGetByID | internal/repository/event.go:35-40 | a created event is found again by its new id, as created, with status pending |
| EventRepository.GetListEvents | internal/repository/event.go:73-113 | the scan loop returns the fault, or exactly the rows of the mode's query |
| EventRepository.GetListEventsModes | internal/repository/event.go:75-88 | "next" returns events beyond the cursor in both columns, ascending; "prev" returns events lexicographically below it, descending; at most page-size rows; other modes return none |
| EventRepository.GetCountEvents | internal/repository/event.go:115-129 | a fault returns its error; otherwise the number of all event rows |
| UserRepository.Create | internal/repository/user.go:28-37 | a fault inserts nothing; otherwise one row with the given e-mail, password and chat id and role "user" |
| UserRepository.GetByID | internal/repository/user.go:39-56 | a fault returns its error; when no row has the id, the zero record and no error |
| UserRepository.GetByEmail | internal/repository/user.go:58-75 | a fault returns its error; no matching row gives the zero record; otherwise a row of the table with that e-mail |
| UserRepository.GetByIDFindsRow | internal/repository/user.go:40-42 | with unique ids, the lookup returns the row with that id |
| UserRepository.CreateThenLookUp | internal/repository/user.go:29-32 | a user created with a new e-mail is found again by e-mail and by id, with role "user" |
| UserRepository.GetListUsers | internal/repository/user.go:77-116 | the scan loop returns the fault, or exactly the rows of the mode's query |
| UserRepository.GetListUsersModes | internal/repository/user.go:79-92 | "next" returns users beyond the cursor in both columns, ascending; "prev" returns users lexicographically below it, descending; at most page-size rows; other modes return none |
| UserRepository.GetCountUsers | internal/repository/user.go:118-132 | a fault returns its error; otherwise the number of all user rows |
| Transactions.WithTx | internal/repository/db.go:34-72 | a failed ping or begin returns its wrapped error before fn runs; a panic is re-raised; fn's error is returned unchanged; a failed commit is wrapped; nil exactly when nothing failed, and only then are fn's writes applied |
| Transactions.BeginTx | internal/repository/db.go:35-48 | a failed ping or begin returns its wrapped error; otherwise a fresh handle on the pool's tables with an empty journal |
| Transactions.EndTx | internal/repository/db.go:50-71 | rollback or commit after fn, as the tail of WithTx prescribes |
| BookingService.Decide | internal/service/booking.go:47-63 | a past date fails first; then a full event; otherwise a seat-holding status, pending exactly when the event asks for confirmation |
| BookingService.Book | internal/service/booking.go:31-73 | the outcome and the new tables are those of WithTx around Book's fn |
| BookingService.BookInTx | internal/service/booking.go:32-72 | the fn's error and its transactional writes are those of BookFn |
| BookingService.BookChecks | internal/service/booking.go:47-53 | ErrEventAlreadyPassed exactly for a past date; ErrNoSeatsAvailable exactly for a full event not past; no write on failure |
| BookingService.EventOfCases | internal/repository/event.go:62-70 | the event Book reads is the zero record or the table's row with that id |
| BookingService.BookFnSucceeds | internal/service/booking.go:47-65 | when fn returns nil, the event exists, is not past, has a free seat, and the only write is its insert |
| BookingService.BookFnKeepsPool | internal/service/booking.go:32-72 | Book writes nothing outside the transaction |
| BookingService.BookOutcome | internal/service/booking.go:31-73 | any error leaves the tables unchanged; nil means exactly one row was added with the status from the confirmation flag and expiry now plus the period, and occupancy rose by one and stays within the total |
| BookingService.BookInsertAddsRow | internal/service/booking.go:55-65 | Book's insert appends the row and raises the event's occupancy by one |
| BookingService.BookMissingEvent | internal/service/booking.go:33-53 | a booking for a missing event fails with ErrEventAlreadyPassed or ErrNoSeatsAvailable and writes nothing |
| BookingService.BookNeverReportsNotFound | internal/service/booking.go:33-39 | Book never returns ErrBookingNotFound |
| BookingService.InsertKeepsInvariant | internal/service/booking.go:51-65 | inserting a booking for an existing event with a free seat keeps the capacity invariant |
| BookingService.BookKeepsInvariant | internal/service/booking.go:31-73 | Book keeps the capacity invariant, whatever fails |
| BookingService.ReleaseKeepsInvariant | internal/service/booking.go:132-134 | setting a status that holds no seat keeps the capacity invariant |
| BookingService.SweepKeepsInvariant | internal/repository/booking.go:190-193 | the expiry delete keeps the capacity invariant |
| BookingService.Confirm | internal/service/booking.go:75-99 | the outcome and the new tables are those of WithTx around Confirm's fn, whose update goes through the pool |
| BookingService.ConfirmInTx | internal/service/booking.go:76-97 | reads through the transaction, writes through the pool: error and pool tables are those of ConfirmFn |
| BookingService.ConfirmOutcome | internal/service/booking.go:86-96 | no confirmation required (a missing event included) gives ErrBookingNotRequired and no change; otherwise the user's rows for the event become confirmed, even when the commit fails |
| BookingService.ConfirmCanOverbook | internal/service/booking.go:91 | a cancelled row revived by Confirm takes an event past its total |
| BookingService.ConfirmPendingRows | internal/repository/booking.go:110-114 | the corrected update confirms only the user's pending rows for the event |
| BookingService.ConfirmPendingOccupancy | internal/repository/booking.go:110-124 | confirming only pending rows moves no event's occupancy |
| BookingService.ConfirmPendingKeepsRefs | internal/repository/booking.go:110-114 | the corrected update keeps ids and event references |
| BookingService.ConfirmPendingRowsKeepInvariant | internal/repository/booking.go:110-114 | the corrected update keeps the capacity invariant |
| BookingService.ConfirmPendingKeepsInvariant | internal/service/booking.go:75-99 | the corrected Confirm keeps the capacity invariant, whatever fails |
| BookingService.CancelBook | internal/service/booking.go:132-134 | the status becomes cancelled with no lookup or check; a fault changes nothing |
| BookingService.CancelReleases | internal/service/booking.go:132-134 | after a cancel, none of the user's rows for the event holds a seat, and other rows are untouched |
| BookingService.CancelKeepsCounts | internal/service/booking.go:132-134 | a cancel raises no occupancy, keeps the user's count and keeps the capacity invariant |
| BookingService.GetByUserID | internal/service/booking.go:101-126 | the repository's error as is, or one response per row, in order, with every field copied |
| BookingService.GetCountUserBooking | internal/service/booking.go:128-130 | the count of all of the user's rows, or the fault |
| EventService.ValidateCreateEvent | internal/service/event.go:108-123 | an empty title fails first, then a past date, then a non-positive total; nil exactly when all pass |
| EventService.CreateEvent | internal/service/event.go:30-43 | a rejected event leaves storage untouched; an accepted one is created as the repository does |
| EventService.CreateEventKeepsInvariant | internal/service/event.go:30-43 | a validated new event has no seat taken, and the capacity invariant holds |
| EventService.GetByID | internal/service/event.go:45-71 | the lookup's or the count's error, or the event with its occupancy, id and created_at left zero; never ErrEventNotFound |
| EventService.GetByIDMissing | internal/service/event.go:45-71 | a missing id gives the zero event with no seat taken and no error |
| EventService.GetListEvents | internal/service/event.go:73-102 | the listing's error, the first failing count's error, or one response per row in order, each with its own occupancy |
| EventService.CountOccupied | internal/service/event.go:83 | a count that succeeds is the number of the event's seat-holding rows |
| EventService.WithOccupancy | internal/service/event.go:80-101 | the first failing count fails the whole call; otherwise one response per row, in order |
| EventService.GetCountEvent | internal/service/event.go:104-106 | the count of all event rows, or the fault |
| Decimal.IntRoundTrip | internal/service/scheduler.go:59 | a booking id written in decimal reads back as the same id |
| Scheduler.BuildMessage | internal/service/scheduler.go:57-66 | the message goes to the booking's chat, with no attempts, and carries the notice text |
| Scheduler.NoticeNamesBooking | internal/service/scheduler.go:59-61 | the notice is the id line, whose id reads back, then the title line and the time line |
| Scheduler.Messages | internal/service/scheduler.go:31-42 | a failed read gives no messages; otherwise one per record, in order |
| Scheduler.Tick | internal/service/scheduler.go:30-45 | one tick pushes and deletes as TickSpec says, and changes the queue only by appending what it pushed |
| Scheduler.PushAll | internal/service/scheduler.go:36-42 | the notices are pushed in order until a cancellation; completed exactly when every one went out |
| Scheduler.PushMessages | internal/service/scheduler.go:36-42 | the queue gains the messages in order, up to the one waiting when the context is cancelled; completed exactly when none was cancelled |
| Scheduler.TickNotifiesEachExpired | internal/service/scheduler.go:31-42 | every expired booking gets one notice, to its user's chat, naming it, in the repository's order |
| Scheduler.TickRemovesNotified | internal/service/scheduler.go:31-45 | once the delete runs, every booking read as expired is gone, bookings not expired stay, and the capacity invariant holds |
| Scheduler.NullChatIdSilencesTick | internal/service/scheduler.go:31-45 | one user without a chat id means nothing is pushed, yet every expired booking is deleted |
| Scheduler.FailedReadStillDeletes | internal/service/scheduler.go:31-45 | a failed read pushes nothing and the delete still runs |
| Scheduler.CancelSkipsDelete | internal/service/scheduler.go:37-39 | a cancellation at message k keeps the messages before k and skips the delete |
| Telegram.Handle | internal/service/tgservice.go:98-126 | no bot logs the text; a sent message carries the header; a failure adds one attempt and retries after 3 s per attempt exactly while attempts stay below 5, else drops |
| Telegram.StepKeepsBounded | internal/service/tgservice.go:107-112 | one iteration keeps every waiting message below 5 attempts, each timer's delay being its back-off |
| Telegram.DrainKeepsBounded | internal/service/tgservice.go:98-126 | draining empties the queue, keeps its closed flag and keeps the retry bound |
| Telegram.DrainWithoutBot | internal/service/tgservice.go:100-103 | with no bot every message is consumed and logged in order, never sent or retried |
| Telegram.DrainAllSent | internal/service/tgservice.go:98-110 | when every send succeeds, each message goes out once, with the header, in order, and nothing is retried |
| Telegram.BackoffIsLinear | internal/service/tgservice.go:107-112 | a message that always fails is retried 4 minus its attempts more times, the k-th after 3 × (attempts + 1 + k) seconds |
| Telegram.NewMessageSendsFiveTimes | internal/service/tgservice.go:19-112 | a new message that always fails is sent 5 times, with waits of 3, 6, 9 and 12 seconds |
| Telegram.RetryQueue.Push | internal/service/scheduler.go:37-41 | a push appends to the queue and changes nothing else |
| Telegram.RetryQueue.Close | internal/app/app.go:52 | closing marks the queue closed and changes nothing else |
| Telegram.RetryQueue.Fire | internal/service/tgservice.go:110-121 | a timer that ends re-enqueues its message, unless the context was cancelled first |
| Telegram.RetryQueue.Run | internal/service/tgservice.go:98-126 | the worker's new state is Drain of the old one; it stops exactly when the queue is closed |

## Left out

- Concurrency: the mutex in `Send`, the goroutines, the three workers, the 100-slot channel and its blocking, the ticker, and the race between `ctx.Done()` and a push. One tick and one worker run sequentially. Cancellation is an explicit position (`cancelAt`, `Fire`'s `cancelled`). Concurrent `Book` calls under default isolation are not modelled.
- Telegram I/O: `NewTelegramBot`, `ListenUpdated` and the actual `bot.Send`. A send is a pass/fail oracle.
- Logging (zlog, `log.Println`). The lines a nil bot prints are recorded as `logged`.
- HTTP handlers, auth, the user service, wiring and configuration.
- `time.ParseDuration`, `Duration.String` and the `%s` formatting of a `time.Time`. They are function parameters (`parseDuration`, `formatDuration`, `formatTime`). Durations and times are integers.
- BookingService.Book: the Go code reads the clock separately for the date check, the expiry and `created_at`. The model uses one `now` for all three.
- Row order of a query without ORDER BY (the expiry select) is table order.
- Database sequences: a new row's id is the table's serial counter. The 64-bit width of ids, counts and chat ids is not modelled.
- A `Scan` error inside `GetByID` and the list scans (other than the NULL chat id) is folded into the statement's fault.
- A failing rollback is only logged, so it has no effect in the model.
- Pushing a retry onto a closed channel panics in Go. `Fire` and `Push` require an open queue.
- The driver's response to the empty query text of an unknown mode: the model returns no rows.

## Findings

| source | as written | input that shows it | evidently intended | confidence | as-written member | corrected member |
|---|---|---|---|---|---|---|
| internal/service/booking.go:91 | Confirm sets "confirmed" on every row of the user for the event, cancelled rows included, with no capacity check | event 1 has one place; user 10's booking is cancelled; user 20 holds a pending booking; Confirm(user 10, event 1) returns nil and two rows hold seats | confirm only the user's pending rows, which already hold a seat | medium, not executed | BookingService.ConfirmCanOverbook | BookingService.ConfirmPendingKeepsInvariant |
| internal/repository/booking.go:58 | "next" requires created_at > cursor AND id > last id, column by column, while "prev" compares the pair | a row with created_at 10 and id 6, cursor (10, 5): neither "next" nor "prev" returns it | "next" returns rows whose (created_at, id) pair is after the cursor, as "prev" and the ORDER BY treat it | medium, not executed | Paging.TiedRowOnNeitherPage | Paging.LexicographicModesPartition |
