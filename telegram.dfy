/**
 * The notification retry policy (internal/service/tgservice.go): RetryWorker takes
 * messages off the retry queue in order and sends each one; a failed send counts one
 * more attempt and, below maxRetry attempts, re-enqueues the message after 3 seconds
 * per attempt. Without a bot the text is only logged. The transport is an oracle: the
 * worker is handed whether each send succeeded.
 */
module Telegram {

  const MaxRetry: int := 5
  const Header: string := "Новое уведомление!\n"
  /** Seconds of back-off per attempt. */
  const BackoffUnit: int := 3

  datatype RetryMessage = RetryMessage(chatId: int, attempts: int, text: string)

  /** A goroutine sleeping delay seconds before putting message back on the queue. */
  datatype Timer = Timer(message: RetryMessage, delay: int)

  /** What the bot transmitted: the chat and the full text. */
  datatype Delivery = Delivery(chatId: int, text: string)

  /** What happens to one message taken off the queue. */
  datatype Outcome = Delivered(delivery: Delivery) | Logged(line: string) | Retry(timer: Timer) | Dropped

  /**
   * One iteration of RetryWorker. A nil bot logs the text. Send prefixes the header; on
   * success that is the end. On failure the attempt count goes up by one; below MaxRetry
   * a timer re-enqueues the message after 3 seconds times the new count, otherwise the
   * message is dropped.
   */
  function Handle(hasBot: bool, m: RetryMessage, sendOk: bool): (o: Outcome)
    ensures !hasBot ==> o == Logged(m.text)
    ensures hasBot && sendOk ==> o == Delivered(Delivery(m.chatId, Header + m.text))
    ensures hasBot && !sendOk ==> (o.Retry? <==> m.attempts + 1 < MaxRetry) && (o.Retry? || o.Dropped?)
    ensures o.Retry? ==> o.timer.message == m.(attempts := m.attempts + 1)
                         && o.timer.delay == BackoffUnit * o.timer.message.attempts
  {
    if !hasBot then Logged(m.text)
    else if sendOk then Delivered(Delivery(m.chatId, Header + m.text))
    else
      var m' := m.(attempts := m.attempts + 1);
      if m'.attempts < MaxRetry then Retry(Timer(m', BackoffUnit * m'.attempts)) else Dropped
  }

  /** The worker's state: the queue, whether it is closed, the sleeping retries and what went out. */
  datatype QueueState = QueueState(
    queue: seq<RetryMessage>, closed: bool, timers: seq<Timer>, delivered: seq<Delivery>, logged: seq<string>)

  /** The state after the worker takes the head of the queue and the send answers sendOk. */
  function Step(st: QueueState, hasBot: bool, sendOk: bool): QueueState
    requires st.queue != []
  {
    var st' := st.(queue := st.queue[1..]);
    match Handle(hasBot, st.queue[0], sendOk)
    case Delivered(d) => st'.(delivered := st.delivered + [d])
    case Logged(line) => st'.(logged := st.logged + [line])
    case Retry(timer) => st'.(timers := st.timers + [timer])
    case Dropped => st'
  }

  /** The worker draining the queue, the i-th send answering sendOks[i]. */
  function Drain(st: QueueState, hasBot: bool, sendOks: seq<bool>): QueueState
    requires |sendOks| == |st.queue|
    decreases |sendOks|
  {
    if sendOks == [] then st else Drain(Step(st, hasBot, sendOks[0]), hasBot, sendOks[1..])
  }

  /** Every message waiting, queued or asleep, has had fewer than MaxRetry attempts; each timer's delay is its back-off. */
  ghost predicate Bounded(st: QueueState)
  {
    (forall m :: m in st.queue ==> 0 <= m.attempts < MaxRetry)
    && (forall x :: x in st.timers ==> 1 <= x.message.attempts < MaxRetry && x.delay == BackoffUnit * x.message.attempts)
  }

  /** A step keeps the retry bound. */
  lemma StepKeepsBounded(st: QueueState, hasBot: bool, sendOk: bool)
    requires st.queue != [] && Bounded(st)
    ensures Bounded(Step(st, hasBot, sendOk))
  {
    assert st.queue[0] in st.queue;
    forall m | m in st.queue[1..] ensures m in st.queue {
    }
  }

  /** Draining empties the queue, leaves it open or closed as it was, and keeps the retry bound. */
  lemma {:induction false} DrainKeepsBounded(st: QueueState, hasBot: bool, sendOks: seq<bool>)
    requires |sendOks| == |st.queue| && Bounded(st)
    ensures var st' := Drain(st, hasBot, sendOks);
            st'.queue == [] && st'.closed == st.closed && Bounded(st')
    decreases |sendOks|
  {
    if sendOks != [] {
      StepKeepsBounded(st, hasBot, sendOks[0]);
      DrainKeepsBounded(Step(st, hasBot, sendOks[0]), hasBot, sendOks[1..]);
    }
  }

  function Texts(ms: seq<RetryMessage>): (r: seq<string>)
    ensures |r| == |ms| && forall k :: 0 <= k < |ms| ==> r[k] == ms[k].text
  {
    if ms == [] then [] else [ms[0].text] + Texts(ms[1..])
  }

  function Deliveries(ms: seq<RetryMessage>): (r: seq<Delivery>)
    ensures |r| == |ms| && forall k :: 0 <= k < |ms| ==> r[k] == Delivery(ms[k].chatId, Header + ms[k].text)
  {
    if ms == [] then [] else [Delivery(ms[0].chatId, Header + ms[0].text)] + Deliveries(ms[1..])
  }

  lemma AppendAssoc<T>(a: seq<T>, b: seq<T>, c: seq<T>)
    ensures a + (b + c) == (a + b) + c
  {
  }

  /** Without a bot, a step logs the head's text and nothing else. */
  lemma StepLogs(st: QueueState, sendOk: bool)
    requires st.queue != []
    ensures Step(st, false, sendOk) == st.(queue := st.queue[1..], logged := st.logged + [st.queue[0].text])
  {
  }

  /** A successful send delivers the head with the header and nothing else. */
  lemma StepSends(st: QueueState)
    requires st.queue != []
    ensures Step(st, true, true)
            == st.(queue := st.queue[1..], delivered := st.delivered + [Delivery(st.queue[0].chatId, Header + st.queue[0].text)])
  {
  }

  /** Without a bot every message is consumed and its text logged, in order; nothing is sent or retried. */
  lemma {:induction false} DrainWithoutBot(st: QueueState, sendOks: seq<bool>)
    requires |sendOks| == |st.queue|
    ensures var st' := Drain(st, false, sendOks);
            st'.logged == st.logged + Texts(st.queue) && st'.delivered == st.delivered && st'.timers == st.timers
    decreases |sendOks|
  {
    if sendOks != [] {
      var m := st.queue[0];
      var st1 := Step(st, false, sendOks[0]);
      StepLogs(st, sendOks[0]);
      DrainWithoutBot(st1, sendOks[1..]);
      assert Texts(st.queue) == [m.text] + Texts(st.queue[1..]);
      AppendAssoc(st.logged, [m.text], Texts(st.queue[1..]));
    }
  }

  /** When every send succeeds, each message goes out once, header first, in queue order, and nothing is retried. */
  lemma {:induction false} DrainAllSent(st: QueueState, sendOks: seq<bool>)
    requires |sendOks| == |st.queue|
    requires forall k :: 0 <= k < |sendOks| ==> sendOks[k]
    ensures var st' := Drain(st, true, sendOks);
            st'.delivered == st.delivered + Deliveries(st.queue) && st'.timers == st.timers && st'.logged == st.logged
    decreases |sendOks|
  {
    if sendOks != [] {
      var m := st.queue[0];
      var d := Delivery(m.chatId, Header + m.text);
      var st1 := Step(st, true, true);
      StepSends(st);
      assert sendOks[0] && forall k :: 0 <= k < |sendOks[1..]| ==> sendOks[1..][k];
      DrainAllSent(st1, sendOks[1..]);
      assert Deliveries(st.queue) == [d] + Deliveries(st.queue[1..]);
      AppendAssoc(st.delivered, [d], Deliveries(st.queue[1..]));
    }
  }

  /**
   * The delays a message meets when every send of it fails: one per retry, until the
   * attempt count reaches MaxRetry.
   */
  function Backoff(m: RetryMessage): seq<int>
    decreases MaxRetry - m.attempts
  {
    match Handle(true, m, false)
    case Retry(timer) => [timer.delay] + Backoff(timer.message)
    case _ => []
  }

  /**
   * A message with a attempts that always fails is retried MaxRetry - 1 - a more times,
   * the k-th retry after 3 * (a + 1 + k) seconds: linear back-off.
   */
  lemma {:induction false} BackoffIsLinear(m: RetryMessage)
    requires 0 <= m.attempts < MaxRetry
    ensures |Backoff(m)| == MaxRetry - 1 - m.attempts
    ensures forall k :: 0 <= k < |Backoff(m)| ==> Backoff(m)[k] == BackoffUnit * (m.attempts + 1 + k)
    decreases MaxRetry - m.attempts
  {
    if m.attempts + 1 < MaxRetry {
      var m' := m.(attempts := m.attempts + 1);
      BackoffIsLinear(m');
      assert Backoff(m) == [BackoffUnit * m'.attempts] + Backoff(m');
    }
  }

  /** A new message that always fails is sent five times: the first try and retries after 3, 6, 9 and 12 seconds. */
  lemma NewMessageSendsFiveTimes(chatId: int, text: string)
    ensures Backoff(RetryMessage(chatId, 0, text)) == [3, 6, 9, 12]
    ensures 1 + |Backoff(RetryMessage(chatId, 0, text))| == MaxRetry
  {
    BackoffIsLinear(RetryMessage(chatId, 0, text));
  }

  /**
   * The retry queue and its single worker. The channel is the queue; timers are the
   * goroutines waiting to re-enqueue a failed message.
   */
  class RetryQueue {
    var queue: seq<RetryMessage>
    var closed: bool
    var timers: seq<Timer>
    var delivered: seq<Delivery>
    var logged: seq<string>
    /** Whether a bot exists (tg != nil). */
    const hasBot: bool

    function State(): QueueState
      reads this
    {
      QueueState(queue, closed, timers, delivered, logged)
    }

    constructor(hasBot: bool)
      ensures this.hasBot == hasBot
      ensures State() == QueueState([], false, [], [], [])
    {
      this.hasBot := hasBot;
      queue := [];
      closed := false;
      timers := [];
      delivered := [];
      logged := [];
    }

    /** msgCh <- m: a send on a closed channel panics, so the queue must be open. */
    method Push(m: RetryMessage)
      requires !closed
      modifies this
      ensures State() == old(State()).(queue := old(queue) + [m])
    {
      queue := queue + [m];
    }

    method Close()
      modifies this
      ensures State() == old(State()).(closed := true)
    {
      closed := true;
    }

    /**
     * Timer k ends: its message goes back on the queue, unless the context was cancelled
     * first, in which case the retry is dropped. Either way the goroutine is gone.
     */
    method Fire(k: int, cancelled: bool)
      requires 0 <= k < |timers|
      requires !cancelled ==> !closed
      modifies this
      ensures State() == old(State()).(timers := old(timers[..k] + timers[k + 1..]),
                                       queue := if cancelled then old(queue) else old(queue) + [old(timers[k]).message])
    {
      var x := timers[k];
      timers := timers[..k] + timers[k + 1..];
      if !cancelled {
        queue := queue + [x.message];
      }
    }

    /**
     * for rm := range retryQueue: takes every queued message in order, the i-th send
     * answering sendOks[i]. It then blocks for more, or stops when the queue is closed.
     */
    method Run(sendOks: seq<bool>) returns (stopped: bool)
      requires |sendOks| == |queue|
      modifies this
      ensures State() == Drain(old(State()), hasBot, sendOks)
      ensures stopped == closed
    {
      var i := 0;
      while i < |sendOks|
        invariant 0 <= i <= |sendOks|
        invariant |queue| == |sendOks| - i
        invariant Drain(old(State()), hasBot, sendOks) == Drain(State(), hasBot, sendOks[i..])
      {
        ghost var before := State();
        var m := queue[0];
        queue := queue[1..];
        match Handle(hasBot, m, sendOks[i]) {
          case Delivered(d) =>
            delivered := delivered + [d];
          case Logged(line) =>
            logged := logged + [line];
          case Retry(timer) =>
            timers := timers + [timer];
          case Dropped =>
        }
        assert State() == Step(before, hasBot, sendOks[i]);
        assert sendOks[i..][1..] == sendOks[i + 1..];
        i := i + 1;
      }
      stopped := closed;
    }
  }
}
