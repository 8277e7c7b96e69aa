/**
 * The expiry sweep (internal/service/scheduler.go): each tick of SchedulerService.Start
 * reads the expired bookings, pushes one cancellation message per booking onto the
 * retry queue, in order, and then deletes the expired bookings. A failed read is only
 * logged, so the delete still runs; a failed delete is only logged. A cancelled
 * context during a push ends the loop before the delete.
 */
module Scheduler {
  import opened Model
  import opened Store
  import BookingRepository
  import BookingService
  import Decimal
  import opened Telegram

  const CancelPrefix: string := "Бронирование "
  const CancelSuffix: string := " отменено.\n"
  const TitlePrefix: string := "Событие: "
  const DatePrefix: string := "Время события: "

  /** The three lines of a cancellation notice: the booking id, the event title, the event time. */
  function NoticeText(id: int, title: string, date: string): string
  {
    CancelPrefix + Decimal.IntToDecimal(id) + CancelSuffix + TitlePrefix + title + "\n" + DatePrefix + date + "\n"
  }

  /**
   * buildMessage: to the booking's chat, no attempts yet; formatTime stands for the %s
   * formatting of the event's time.Time.
   */
  function BuildMessage(b: BookingGetForTG, formatTime: int -> string): (m: RetryMessage)
    ensures m.chatId == b.tgChatId && m.attempts == 0
    ensures m.text == NoticeText(b.id, b.titleEvent, formatTime(b.eventDate))
  {
    RetryMessage(b.tgChatId, 0, NoticeText(b.id, b.titleEvent, formatTime(b.eventDate)))
  }

  /**
   * The notice names its booking: the first line is the prefix, the booking id in
   * decimal, which reads back as that id, and the suffix; then come the title line and the
   * time line.
   */
  lemma NoticeNamesBooking(id: int, title: string, date: string)
    ensures var text := NoticeText(id, title, date);
            var digits := Decimal.IntToDecimal(id);
            var n := |CancelPrefix|;
            var d := |digits|;
            && |text| == n + d + |CancelSuffix| + |TitlePrefix| + |title| + 1 + |DatePrefix| + |date| + 1
            && text[..n] == CancelPrefix
            && Decimal.ParseInt(text[n..n + d]) == id
            && text[n + d..n + d + |CancelSuffix|] == CancelSuffix
            && text[n + d + |CancelSuffix|..] == TitlePrefix + title + "\n" + DatePrefix + date + "\n"
  {
    var digits := Decimal.IntToDecimal(id);
    var n := |CancelPrefix|;
    var d := |digits|;
    var text := NoticeText(id, title, date);
    var rest := TitlePrefix + title + "\n" + DatePrefix + date + "\n";
    assert text == CancelPrefix + digits + CancelSuffix + rest;
    assert text[n..n + d] == digits;
    Decimal.IntRoundTrip(id);
  }

  /** The messages for what the expiry read returned: none when it failed, else one per record, in order. */
  function Messages(found: Result<seq<BookingGetForTG>>, formatTime: int -> string): (ms: seq<RetryMessage>)
    ensures found.Err? ==> ms == []
    ensures found.Ok? ==> |ms| == |found.value|
                          && forall k :: 0 <= k < |ms| ==> ms[k] == BuildMessage(found.value[k], formatTime)
  {
    if found.Err? then [] else Notices(found.value, formatTime)
  }

  function Notices(bs: seq<BookingGetForTG>, formatTime: int -> string): (ms: seq<RetryMessage>)
    ensures |ms| == |bs| && forall k :: 0 <= k < |bs| ==> ms[k] == BuildMessage(bs[k], formatTime)
  {
    if bs == [] then [] else [BuildMessage(bs[0], formatTime)] + Notices(bs[1..], formatTime)
  }

  /** What a tick pushed, whether it reached the delete, and the tables after it. */
  datatype TickOutcome = TickOutcome(pushed: seq<RetryMessage>, deleted: bool, tables: Tables)

  /**
   * One tick on tables t. The read happens at tSelect and the delete at tDelete (each
   * statement reads the database clock). cancelAt = Some(k) is a context cancelled while
   * the k-th message waits to be pushed.
   */
  function TickSpec(t: Tables, tSelect: int, tDelete: int, selectFault: Option<string>, deleteFault: Option<string>,
                    cancelAt: Option<int>, formatTime: int -> string): TickOutcome
  {
    var found := if selectFault.Some? then Err(Db(selectFault.value))
                 else BookingRepository.ScanExpired(BookingRepository.ExpiredRows(t, tSelect));
    var ms := Messages(found, formatTime);
    if cancelAt.Some? && 0 <= cancelAt.value < |ms| then TickOutcome(ms[..cancelAt.value], false, t)
    else if deleteFault.Some? then TickOutcome(ms, true, t)
    else TickOutcome(ms, true, Apply(t, DeleteExpiredBookings(tDelete)))
  }

  /** One tick of Start, as the loop body runs it: read, push each message, delete. */
  method Tick(s: Storage, q: RetryQueue, tSelect: int, tDelete: int, selectFault: Option<string>,
              deleteFault: Option<string>, cancelAt: Option<int>, formatTime: int -> string)
    returns (o: TickOutcome)
    requires !q.closed
    modifies s, q
    ensures o == TickSpec(old(s.Contents()), tSelect, tDelete, selectFault, deleteFault, cancelAt, formatTime)
    ensures s.Contents() == o.tables
    ensures q.State() == old(q.State()).(queue := old(q.queue) + o.pushed)
  {
    var found := BookingRepository.GetExpiredBooking(s.Contents(), tSelect, selectFault);
    var bs := if found.Ok? then found.value else [];
    var pushed, completed := PushAll(q, bs, cancelAt, formatTime);
    if !completed {
      return TickOutcome(pushed, false, s.Contents());
    }
    var err := BookingRepository.DeleteExpiredBooking(s, tDelete, deleteFault);
    return TickOutcome(pushed, true, s.Contents());
  }

  /**
   * The push loop of a tick: the notices for bs, in order, until a cancellation at
   * cancelAt stops it; completed says whether every notice went out. buildMessage only
   * computes, so the notices are built before the pushes begin.
   */
  method PushAll(q: RetryQueue, bs: seq<BookingGetForTG>, cancelAt: Option<int>, formatTime: int -> string)
    returns (pushed: seq<RetryMessage>, completed: bool)
    requires !q.closed
    modifies q
    ensures completed <==> !(cancelAt.Some? && 0 <= cancelAt.value < |bs|)
    ensures pushed == if completed then Notices(bs, formatTime) else Notices(bs, formatTime)[..cancelAt.value]
    ensures q.State() == old(q.State()).(queue := old(q.queue) + pushed)
  {
    var all := Notices(bs, formatTime);
    completed := PushMessages(q, all, cancelAt);
    pushed := if completed then all else all[..cancelAt.value];
  }

  /** Pushes ms in order; a cancellation while message k waits ends the loop before it. */
  method PushMessages(q: RetryQueue, ms: seq<RetryMessage>, cancelAt: Option<int>) returns (completed: bool)
    requires !q.closed
    modifies q
    ensures completed <==> !(cancelAt.Some? && 0 <= cancelAt.value < |ms|)
    ensures q.State() == old(q.State()).(queue := old(q.queue) + if completed then ms else ms[..cancelAt.value])
  {
    ghost var q0 := q.State();
    var i := 0;
    while i < |ms|
      invariant 0 <= i <= |ms|
      invariant !(cancelAt.Some? && 0 <= cancelAt.value < i)
      invariant !q.closed
      invariant q.State() == q0.(queue := q0.queue + ms[..i])
    {
      if cancelAt == Some(i) {
        return false;
      }
      assert ms[..i + 1] == ms[..i] + [ms[i]];
      q.Push(ms[i]);
      i := i + 1;
    }
    assert ms[..i] == ms;
    return true;
  }

  /**
   * With the read and the delete succeeding and no cancellation, every expired booking
   * with a matching event and user gets one notice, to its user's chat, naming it, in the
   * repository's order, provided no such user lacks a chat id.
   */
  lemma TickNotifiesEachExpired(t: Tables, tSelect: int, tDelete: int, formatTime: int -> string)
    requires forall x :: x in BookingRepository.ExpiredRows(t, tSelect) ==> x.user.tgChatId.Some?
    ensures var rows := BookingRepository.ExpiredRows(t, tSelect);
            var o := TickSpec(t, tSelect, tDelete, None, None, None, formatTime);
            && o.deleted
            && |o.pushed| == |rows|
            && forall k :: 0 <= k < |rows| ==>
                 o.pushed[k].chatId == rows[k].user.tgChatId.value
                 && o.pushed[k].text == NoticeText(rows[k].booking.id, rows[k].event.title, formatTime(rows[k].event.eventDate))
  {
  }

  /**
   * When the tick reaches the delete and the delete succeeds, every booking it read as
   * expired is gone, provided the delete's clock is not behind the read's; a booking not
   * expired at the delete's clock stays, and the capacity invariant holds on.
   */
  lemma TickRemovesNotified(t: Tables, tSelect: int, tDelete: int, selectFault: Option<string>,
                            cancelAt: Option<int>, formatTime: int -> string)
    requires tSelect <= tDelete
    ensures var o := TickSpec(t, tSelect, tDelete, selectFault, None, cancelAt, formatTime);
            o.deleted ==>
              && (forall x :: x in BookingRepository.ExpiredRows(t, tSelect) ==> x.booking !in o.tables.bookings)
              && (forall b :: b in t.bookings && !Expired(b, tDelete) ==> b in o.tables.bookings)
              && (BookingService.Invariant(t) ==> BookingService.Invariant(o.tables))
  {
    var o := TickSpec(t, tSelect, tDelete, selectFault, None, cancelAt, formatTime);
    if o.deleted {
      assert o.tables == Apply(t, DeleteExpiredBookings(tDelete));
      SweepRemovesExpired(t, tSelect, tDelete);
      if BookingService.Invariant(t) {
        BookingService.SweepKeepsInvariant(t, tDelete);
      }
    }
  }

  /** A booking expired at the read's clock is still expired at a later delete, which removes it. */
  lemma SweepRemovesExpired(t: Tables, tSelect: int, tDelete: int)
    requires tSelect <= tDelete
    ensures var t' := Apply(t, DeleteExpiredBookings(tDelete));
            && (forall x :: x in BookingRepository.ExpiredRows(t, tSelect) ==> x.booking !in t'.bookings)
            && (forall b :: b in t.bookings && !Expired(b, tDelete) ==> b in t'.bookings)
  {
  }

  /**
   * One expired booking whose user has no chat id silences the whole tick: nothing is
   * pushed, yet the delete still runs and removes every expired booking.
   */
  lemma NullChatIdSilencesTick(t: Tables, tSelect: int, tDelete: int, cancelAt: Option<int>, formatTime: int -> string)
    requires exists x :: x in BookingRepository.ExpiredRows(t, tSelect) && x.user.tgChatId.None?
    ensures TickSpec(t, tSelect, tDelete, None, None, cancelAt, formatTime)
            == TickOutcome([], true, Apply(t, DeleteExpiredBookings(tDelete)))
  {
  }

  /** A failed read is only logged: nothing is pushed and the delete still runs. */
  lemma FailedReadStillDeletes(t: Tables, tSelect: int, tDelete: int, selectFault: string,
                               deleteFault: Option<string>, cancelAt: Option<int>, formatTime: int -> string)
    ensures var o := TickSpec(t, tSelect, tDelete, Some(selectFault), deleteFault, cancelAt, formatTime);
            o.pushed == [] && o.deleted
            && o.tables == if deleteFault.Some? then t else Apply(t, DeleteExpiredBookings(tDelete))
  {
  }

  /**
   * A cancellation while pushing message k ends the tick at once: the messages before k
   * went out, the delete does not run and the tables are as they were.
   */
  lemma CancelSkipsDelete(t: Tables, tSelect: int, tDelete: int, selectFault: Option<string>,
                          deleteFault: Option<string>, k: int, formatTime: int -> string)
    ensures var o := TickSpec(t, tSelect, tDelete, selectFault, deleteFault, Some(k), formatTime);
            var all := TickSpec(t, tSelect, tDelete, selectFault, deleteFault, None, formatTime).pushed;
            0 <= k < |all| ==> o == TickOutcome(all[..k], false, t)
  {
  }
}
