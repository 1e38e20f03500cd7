/** Properties relating several calls on one manager, or one call under
    different answers from the inner middleware. */
module Properties {
  import opened Wrappers
  import opened NonceManager

  /** After a successful initialisation, initialising again asks nothing
      and returns the same value, whatever the remote count would now say. */
  lemma InitializeNonceIdempotent(s: State, first: Result<nat, InnerError>, later: Result<nat, InnerError>)
    ensures var o := InitializeNonce(s, first);
            o.result.Success? ==> InitializeNonce(o.state, later) == InitOutcome(o.state, o.result, NoQuery)
  {
  }

  /** A failed initialisation leaves the manager as it was, so the next
      call asks again and adopts that answer. */
  lemma InitFailureIsRetried(s: State, e: InnerError, remote: nat)
    requires !s.initialized
    ensures GetOrInit(s, Failure(e)).state == s
    ensures GetOrInit(GetOrInit(s, Failure(e)).state, Success(remote)) ==
              InitOutcome(State(true, remote), Success(remote), QueryStored(remote))
  {
  }

  /** `next` names the nonce the next fill or send without a nonce will
      use on an initialised manager, and moves up by one after it. */
  lemma NextIsNextNonce(s: State, count: Result<nat, InnerError>, inner: Result<(), InnerError>,
                        first: Result<Pending, InnerError>, recount: Result<nat, InnerError>,
                        retry: Result<Pending, InnerError>)
    requires s.initialized
    ensures Fill(s, None, count, inner).tx == Some(Next(s))
    ensures inner.Success? ==> Next(Fill(s, None, count, inner).state) == Next(s) + 1
    ensures Send(s, None, count, first, recount, retry).broadcasts[0] == Next(s)
    ensures first.Success? ==> Next(Send(s, None, count, first, recount, retry).state) == Next(s) + 1
  {
  }

  /** A successful fill with an explicit nonce advances the counter by one
      from where it was, whatever that nonce is: the counter does not
      follow the transaction. */
  lemma ExplicitFillIgnoresItsNonce(s: State, x: nat, y: nat, c1: Result<nat, InnerError>,
                                    c2: Result<nat, InnerError>, inner: Result<(), InnerError>)
    requires inner.Success?
    ensures Fill(s, Some(x), c1, inner).state == Fill(s, Some(y), c2, inner).state
    ensures Fill(s, Some(x), c1, inner).state == s.(stored := s.stored + 1)
  {
  }

  /** On a fresh manager an explicit-nonce fill moves the counter to 1
      without initialising; the first nonce-less fill then replaces it
      with the remote count, so the explicit fill's advance is lost. */
  lemma ExplicitFillBeforeInitIsDiscarded(x: nat, remote: nat)
    ensures Fill(New(), Some(x), Success(remote), Success(())).state == State(false, 1)
    ensures var s := Fill(New(), Some(x), Success(remote), Success(())).state;
            var o := Fill(s, None, Success(remote), Success(()));
            o.tx == Some(remote) && o.state == State(true, remote + 1)
  {
  }

  /** A fill whose inner fill fails does not consume the nonce it placed:
      the next nonce-less fill places the same one. */
  lemma FailedFillKeepsNonce(s: State, count: Result<nat, InnerError>, e: InnerError,
                             count': Result<nat, InnerError>, inner': Result<(), InnerError>)
    ensures var o := Fill(s, None, count, Failure(e));
            o.tx.Some? ==> Fill(o.state, None, count', inner').tx == o.tx
  {
  }

  /** The retry happens exactly when the first broadcast failed, the
      remote count could be read, and it is ahead of the working nonce. */
  lemma RetryExactlyWhenRemoteAhead(s: State, tx: Option<nat>, count: Result<nat, InnerError>,
                                    first: Result<Pending, InnerError>, recount: Result<nat, InnerError>,
                                    retry: Result<Pending, InnerError>)
    ensures var a := Assign(s, tx, count);
            var o := Send(s, tx, count, first, recount, retry);
            |o.broadcasts| == 2 <==>
              a.Assigned? && first.Failure? && recount.Success? && recount.value > a.local
  {
  }

  /** The stale-nonce retry broadcasts the same nonce again rather than the
      remote count, and after it succeeds the counter is one past that
      nonce, which can leave it below the remote count. */
  lemma StaleRetryReusesNonce(s: State, count: Result<nat, InnerError>, e: InnerError,
                              remote: nat, retry: Result<Pending, InnerError>)
    requires s.initialized && remote > s.stored
    ensures var o := Send(s, None, count, Failure(e), Success(remote), retry);
            o.broadcasts == [s.stored, s.stored] &&
            (retry.Success? ==> o.state.stored == s.stored + 1 <= remote) &&
            (retry.Failure? ==> o.state.stored == remote)
  {
  }

  /** With an explicit nonce the retry does not rebroadcast that nonce: it
      puts the stored counter on the transaction instead. */
  lemma ExplicitSendRetryUsesCounter(s: State, x: nat, count: Result<nat, InnerError>, e: InnerError,
                                     remote: nat, retry: Result<Pending, InnerError>)
    requires remote > s.stored
    ensures Send(s, Some(x), count, Failure(e), Success(remote), retry).broadcasts == [x, s.stored]
  {
  }

  /** A failed send that is not retried does not consume its nonce. */
  lemma UnretriedSendKeepsNonce(s: State, count: Result<nat, InnerError>, e: InnerError,
                                recount: Result<nat, InnerError>, retry: Result<Pending, InnerError>,
                                count': Result<nat, InnerError>, first': Result<Pending, InnerError>,
                                recount': Result<nat, InnerError>, retry': Result<Pending, InnerError>)
    ensures var o := Send(s, None, count, Failure(e), recount, retry);
            |o.broadcasts| == 1 ==>
              Send(o.state, None, count', first', recount', retry').broadcasts[0] == o.broadcasts[0]
  {
  }
}
