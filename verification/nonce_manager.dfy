/** The nonce bookkeeping of `LockedNonceManagerMiddleware`.

    The manager owns a one-shot `initialized` flag and a stored counter.
    Every call it makes into the inner middleware (the remote transaction
    count, the inner `fill_transaction`, the inner `send_transaction`) is an
    input here: the answer that call would give. Each operation is a pure
    transition from the state before the call to an outcome holding the state
    after it, the nonce the transaction carried and the result returned. */
module NonceManager {
  import opened Wrappers

  /** An error reported by the inner middleware, kept opaque. */
  datatype InnerError = InnerError(code: nat)

  /** `NonceManagerError`: a transparent wrapper around the inner error. */
  datatype NonceError = MiddlewareError(cause: InnerError)

  /** The handle of a broadcast transaction, kept opaque. */
  datatype Pending = Pending(hash: nat)

  /** The manager's state: the flag and the counter behind the lock. */
  datatype State = State(initialized: bool, stored: nat)

  /** What lazy initialisation did during one call. */
  datatype InitEvent =
    | NoQuery              // the flag was set: the remote count was not asked for
    | QueryFailed          // the remote count was asked for and the query failed
    | QueryStored(remote: nat)  // the remote count was asked for and stored

  /** The state lazy initialisation leaves behind, given what it did. */
  function AfterInit(s: State, e: InitEvent): State
  {
    if e.QueryStored? then State(true, e.remote) else s
  }

  /** A freshly constructed manager: not initialised, counter zero. */
  function New(): (m: State)
    ensures !m.initialized && m.stored == 0
  {
    State(false, 0)
  }

  /** `next`: the counter as a reader sees it; reading changes nothing. */
  function Next(s: State): (r: nat)
    ensures r == s.stored
  {
    s.stored
  }

  datatype InitOutcome = InitOutcome(state: State, result: Result<nat, NonceError>, event: InitEvent)

  /** `get_or_init_nonce`: ask for the remote count only while the flag is
      clear, store it and set the flag; then return the counter.
      `count` is the answer the remote count query would give. */
  function GetOrInit(s: State, count: Result<nat, InnerError>): (o: InitOutcome)
    // the query is issued exactly when the manager is not yet initialised
    ensures o.event.NoQuery? <==> s.initialized
    ensures o.state == AfterInit(s, o.event)
    // an initialised manager is left alone and its counter returned
    ensures s.initialized ==> o.state == s && o.result == Success(s.stored)
    // an uninitialised one adopts the remote count, or reports the query's error
    ensures !s.initialized && count.Success? ==>
              o.event == QueryStored(count.value) && o.result == Success(count.value)
    ensures !s.initialized && count.Failure? ==>
              o.event == QueryFailed && o.result == Failure(MiddlewareError(count.error))
    // whatever succeeds returns the counter of an initialised manager
    ensures o.result.Success? ==> o.state.initialized && o.result.value == o.state.stored
    // a failure changes nothing, so a later call asks again
    ensures o.result.Failure? ==> o.state == s && !o.state.initialized
  {
    if !s.initialized then
      match count
      case Failure(e) => InitOutcome(s, Failure(MiddlewareError(e)), QueryFailed)
      case Success(n) =>
        var s' := State(true, n);
        InitOutcome(s', Success(Next(s')), QueryStored(n))
    else
      InitOutcome(s, Success(Next(s)), NoQuery)
  }

  /** `initialize_nonce`: the public entry to lazy initialisation. */
  function InitializeNonce(s: State, count: Result<nat, InnerError>): (o: InitOutcome)
    // once initialised, it asks nothing and returns the counter unchanged
    ensures s.initialized ==> o == InitOutcome(s, Success(s.stored), NoQuery)
    // otherwise it adopts the remote count, or leaves the manager as it was
    ensures !s.initialized && count.Success? ==>
              o.state == State(true, count.value) && o.result == Success(count.value)
    ensures !s.initialized && count.Failure? ==>
              o.state == s && o.result == Failure(MiddlewareError(count.error))
  {
    GetOrInit(s, count)
  }

  /** What lazy initialisation does during a fill or send: nothing for a
      transaction that brings its own nonce or on an initialised manager;
      otherwise it asks for the remote count and stores the answer. */
  function LazyInit(s: State, tx: Option<nat>, count: Result<nat, InnerError>): InitEvent
  {
    if tx.Some? || s.initialized then NoQuery
    else if count.Success? then QueryStored(count.value)
    else QueryFailed
  }

  /** The working nonce of a fill or send once lazy initialisation has
      succeeded: the stored counter when the transaction brings its own
      nonce, the lazily initialised counter otherwise. */
  function WorkingNonce(s: State, tx: Option<nat>, count: Result<nat, InnerError>): nat
  {
    match LazyInit(s, tx, count)
    case QueryStored(n) => n
    case _ => s.stored
  }

  /** The first part of both fill and send: the working nonce is the
      stored counter, and a transaction without a nonce gets the lazily
      initialised counter instead. */
  datatype Assignment =
    | Assigned(state: State, nonce: nat, local: nat, init: InitEvent)
    | InitFailed(state: State, error: NonceError, init: InitEvent)

  function Assign(s: State, tx: Option<nat>, count: Result<nat, InnerError>): (a: Assignment)
    ensures a.init == LazyInit(s, tx, count)
    ensures a.state == AfterInit(s, a.init)
    ensures a.Assigned? ==> a.local == WorkingNonce(s, tx, count)
    // an explicit nonce is kept, lazy initialisation is skipped, and the
    // working nonce is the stored counter whatever the transaction carries
    ensures tx.Some? ==>
              a.Assigned? && a.nonce == tx.value && a.local == s.stored && a.init.NoQuery?
    // a missing nonce becomes the working nonce, the counter of an initialised manager
    ensures tx.None? && a.Assigned? ==>
              a.nonce == a.local == a.state.stored && a.state.initialized
    ensures tx.None? && s.initialized ==> a.Assigned? && a.local == s.stored && a.init.NoQuery?
    ensures tx.None? && !s.initialized ==> (a.Assigned? <==> count.Success?)
    ensures tx.None? && !s.initialized && count.Success? ==> a.Assigned? && a.local == count.value
    // only a failed initialisation query stops the call, leaving the state alone
    ensures a.InitFailed? ==>
              tx.None? && !s.initialized && count == Failure(a.error.cause) && a.state == s
  {
    var local := s.stored;
    if tx.None? then
      var i := GetOrInit(s, count);
      match i.result
      case Success(n) => Assigned(i.state, n, n, i.event)
      case Failure(e) => InitFailed(i.state, e, i.event)
    else
      Assigned(s, tx.value, local, NoQuery)
  }

  datatype FillOutcome = FillOutcome(state: State, tx: Option<nat>, result: Result<(), NonceError>, init: InitEvent)

  /** `fill_transaction`: assign a nonce if the transaction has none, let
      the inner middleware fill the rest, and advance the counter to one
      past the working nonce. `count` is the answer to the remote count
      query (asked only by lazy initialisation) and `inner` the answer of
      the inner `fill_transaction`. */
  function Fill(s: State, tx: Option<nat>, count: Result<nat, InnerError>, inner: Result<(), InnerError>): (o: FillOutcome)
    // the nonce on the transaction: an explicit one untouched, otherwise the
    // counter of the (possibly just) initialised manager
    ensures tx.Some? ==> o.tx == tx
    ensures tx.None? && s.initialized ==> o.tx == Some(s.stored)
    ensures tx.None? && !s.initialized ==>
              o.tx == (if count.Success? then Some(count.value) else None)
    // lazy initialisation runs only for a nonce-less transaction on an
    // uninitialised manager, and (by the state clauses below) only its
    // success sets the flag
    ensures o.init == LazyInit(s, tx, count)
    // success needs a nonce on the transaction and the inner fill to succeed
    ensures o.result.Success? <==> o.tx.Some? && inner.Success?
    // on success the counter is one past the working nonce: the stored
    // counter itself when the transaction brought its own nonce, the
    // placed nonce otherwise
    ensures o.result.Success? ==> o.state == AfterInit(s, o.init).(stored := WorkingNonce(s, tx, count) + 1)
    // on failure the error is passed on and only lazy initialisation has
    // touched the state
    ensures o.result.Failure? ==> o.state == AfterInit(s, o.init)
    ensures o.result.Failure? && o.tx.None? ==> o.result.error == MiddlewareError(count.error)
    ensures o.result.Failure? && o.tx.Some? ==> o.result.error == MiddlewareError(inner.error)
  {
    match Assign(s, tx, count)
    case InitFailed(st, err, ev) => FillOutcome(st, tx, Failure(err), ev)
    case Assigned(st, placed, local, ev) =>
      var filled := Some(placed);
      match inner
      case Failure(e) => FillOutcome(st, filled, Failure(MiddlewareError(e)), ev)
      case Success(_) => FillOutcome(st.(stored := local + 1), filled, Success(()), ev)
  }

  datatype SendOutcome = SendOutcome(state: State, result: Result<Pending, NonceError>, init: InitEvent, broadcasts: seq<nat>)

  /** `send_transaction`: assign a nonce if the transaction has none,
      broadcast it, and after a failed broadcast compare the working nonce
      with the remote count; when the remote count is ahead, store it and
      broadcast once more with the same working nonce. `broadcasts` lists
      the nonce the transaction carried at each broadcast.
      `count` answers the lazy-initialisation query, `first` the first
      broadcast, `recount` the remote count query after a failed broadcast,
      and `retry` the second broadcast. */
  function Send(s: State, tx: Option<nat>, count: Result<nat, InnerError>,
                first: Result<Pending, InnerError>, recount: Result<nat, InnerError>,
                retry: Result<Pending, InnerError>): (o: SendOutcome)
    ensures |o.broadcasts| <= 2
    // lazy initialisation as in fill; the state clauses below show that
    // only a stored remote count sets the flag
    ensures o.init == LazyInit(s, tx, count)
    // nothing is broadcast exactly when lazy initialisation fails, and then
    // the query's error is returned and the state is untouched
    ensures o.broadcasts == [] <==> tx.None? && !s.initialized && count.Failure?
    ensures o.broadcasts == [] ==>
              o.state == s && o.result == Failure(MiddlewareError(count.error))
    // the nonce of the first broadcast
    ensures tx.Some? ==> o.broadcasts[0] == tx.value
    ensures tx.None? && s.initialized ==> o.broadcasts[0] == s.stored
    ensures tx.None? && !s.initialized && count.Success? ==> o.broadcasts[0] == count.value
    // the first broadcast succeeds: one broadcast, counter one past the working nonce
    ensures o.broadcasts != [] && first.Success? ==>
              var local := WorkingNonce(s, tx, count);
              |o.broadcasts| == 1 && o.result == Success(first.value) &&
              o.state == AfterInit(s, o.init).(stored := local + 1)
    // it fails and so does the remote count query: that error, no retry
    ensures o.broadcasts != [] && first.Failure? && recount.Failure? ==>
              |o.broadcasts| == 1 && o.result == Failure(MiddlewareError(recount.error)) &&
              o.state == AfterInit(s, o.init)
    // it fails and the remote count is not ahead: the original error, no retry
    ensures o.broadcasts != [] && first.Failure? && recount.Success? ==>
              var local := WorkingNonce(s, tx, count);
              recount.value <= local ==>
                |o.broadcasts| == 1 && o.result == Failure(MiddlewareError(first.error)) &&
                o.state == AfterInit(s, o.init)
    // it fails and the remote count is ahead: one retry with the working
    // nonce; the counter ends one past it, or at the remote count when the
    // retry fails too
    ensures o.broadcasts != [] && first.Failure? && recount.Success? ==>
              var local := WorkingNonce(s, tx, count);
              recount.value > local ==>
                |o.broadcasts| == 2 && o.broadcasts[1] == local &&
                (retry.Success? ==> o.result == Success(retry.value) &&
                                    o.state == AfterInit(s, o.init).(stored := local + 1)) &&
                (retry.Failure? ==> o.result == Failure(MiddlewareError(retry.error)) &&
                                    o.state == AfterInit(s, o.init).(stored := recount.value))
  {
    match Assign(s, tx, count)
    case InitFailed(st, err, ev) => SendOutcome(st, Failure(err), ev, [])
    case Assigned(st, placed, local, ev) =>
      match first
      case Success(h) => SendOutcome(st.(stored := local + 1), Success(h), ev, [placed])
      case Failure(e) =>
        match recount
        case Failure(e') => SendOutcome(st, Failure(MiddlewareError(e')), ev, [placed])
        case Success(current) =>
          if current > local then
            var refreshed := st.(stored := current);
            match retry
            case Success(h) => SendOutcome(refreshed.(stored := local + 1), Success(h), ev, [placed, local])
            case Failure(e'') => SendOutcome(refreshed, Failure(MiddlewareError(e'')), ev, [placed, local])
          else
            SendOutcome(st, Failure(MiddlewareError(e)), ev, [placed])
  }
}
