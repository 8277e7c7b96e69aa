/**
 * Storage.WithTx (internal/repository/db.go): ping, begin, run fn on a transaction
 * handle, then roll back (fn failed or panicked) or commit. A transaction handle is a
 * Storage copy of the tables with an empty journal; committing replays its journal onto
 * the pool's tables, rolling back drops it. Writes fn sends through the pool handle
 * instead (outside the transaction) take effect at once and are not rolled back.
 */
module Transactions {
  import opened Model
  import opened Store

  const UnavailableContext: string := "database unavailable"
  const BeginContext: string := "begin transaction"
  const CommitContext: string := "commit failed"

  /**
   * The driver's answer at each step of WithTx: Some(message) where the ping, the begin
   * or the commit fails; panic is Some(value) when fn panics. A failing rollback is only
   * logged, so it has no entry.
   */
  datatype TxFaults = TxFaults(ping: Option<string>, begin: Option<string>, panic: Option<string>, commit: Option<string>)

  /** How WithTx ends: it returns an error or nil, or it re-raises fn's panic. */
  datatype TxResult = Returned(err: Option<Error>) | Panicked(value: string)

  /**
   * What fn did when run on the transaction handle: the pool's tables after it (changed
   * only by writes fn sent outside the transaction), the writes it sent through the
   * transaction, and the error it returned.
   */
  datatype FnEffect = FnEffect(outer: Tables, journal: seq<Write>, err: Option<Error>)

  datatype TxOutcome = TxOutcome(result: TxResult, tables: Tables)

  /** The part of WithTx after fn has run: roll back, or commit. */
  function Finish(tf: TxFaults, fx: FnEffect): TxOutcome
  {
    if tf.panic.Some? then TxOutcome(Panicked(tf.panic.value), fx.outer)
    else if fx.err.Some? then TxOutcome(Returned(fx.err), fx.outer)
    else if tf.commit.Some? then TxOutcome(Returned(Some(Wrapped(CommitContext, Db(tf.commit.value)))), fx.outer)
    else TxOutcome(Returned(None), ApplyAll(fx.outer, fx.journal))
  }

  /**
   * WithTx on tables t, fn having effect fx when run on a snapshot of t. A failing ping
   * or begin returns its wrapped error before fn runs; fn's own error is returned
   * unchanged; a commit failure is wrapped; a panic is re-raised. fn's transactional
   * writes become visible exactly when the result is nil, and then all of them.
   */
  function WithTx(t: Tables, tf: TxFaults, fx: FnEffect): (o: TxOutcome)
    ensures tf.ping.Some? ==> o == TxOutcome(Returned(Some(Wrapped(UnavailableContext, Db(tf.ping.value)))), t)
    ensures tf.ping.None? && tf.begin.Some? ==> o == TxOutcome(Returned(Some(Wrapped(BeginContext, Db(tf.begin.value)))), t)
    ensures tf.ping.None? && tf.begin.None? && tf.panic.Some? ==> o == TxOutcome(Panicked(tf.panic.value), fx.outer)
    ensures tf.ping.None? && tf.begin.None? && tf.panic.None? && fx.err.Some? ==> o == TxOutcome(Returned(fx.err), fx.outer)
    ensures tf.ping.None? && tf.begin.None? && tf.panic.None? && fx.err.None? && tf.commit.Some? ==>
              o == TxOutcome(Returned(Some(Wrapped(CommitContext, Db(tf.commit.value)))), fx.outer)
    ensures o.result == Returned(None) <==>
              tf.ping.None? && tf.begin.None? && tf.panic.None? && fx.err.None? && tf.commit.None?
    ensures o.result == Returned(None) ==> o.tables == ApplyAll(fx.outer, fx.journal)
  {
    if tf.ping.Some? then TxOutcome(Returned(Some(Wrapped(UnavailableContext, Db(tf.ping.value)))), t)
    else if tf.begin.Some? then TxOutcome(Returned(Some(Wrapped(BeginContext, Db(tf.begin.value)))), t)
    else Finish(tf, fx)
  }

  /** Ping and begin: a fresh transaction handle on the pool's current tables. */
  method BeginTx(s: Storage, tf: TxFaults) returns (tx: Storage?, err: Option<Error>)
    ensures tf.ping.Some? ==> tx == null && err == Some(Wrapped(UnavailableContext, Db(tf.ping.value)))
    ensures tf.ping.None? && tf.begin.Some? ==> tx == null && err == Some(Wrapped(BeginContext, Db(tf.begin.value)))
    ensures tf.ping.None? && tf.begin.None? ==>
              err == None && tx != null && fresh(tx) && tx.Contents() == s.Contents() && tx.journal == []
  {
    if tf.ping.Some? {
      return null, Some(Wrapped(UnavailableContext, Db(tf.ping.value)));
    }
    if tf.begin.Some? {
      return null, Some(Wrapped(BeginContext, Db(tf.begin.value)));
    }
    tx := new Storage(s.Contents());
    err := None;
  }

  /**
   * After fn returned fnErr (or panicked): roll back by dropping the transaction's
   * journal, or commit by replaying it onto the pool.
   */
  method EndTx(s: Storage, tx: Storage, tf: TxFaults, fnErr: Option<Error>) returns (r: TxResult)
    requires tx != s
    modifies s
    ensures TxOutcome(r, s.Contents()) == Finish(tf, FnEffect(old(s.Contents()), tx.journal, fnErr))
  {
    if tf.panic.Some? {
      return Panicked(tf.panic.value);
    }
    if fnErr.Some? {
      return Returned(fnErr);
    }
    if tf.commit.Some? {
      return Returned(Some(Wrapped(CommitContext, Db(tf.commit.value))));
    }
    s.Replay(tx.journal);
    return Returned(None);
  }
}
