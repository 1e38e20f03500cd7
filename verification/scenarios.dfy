/** Concrete runs of the manager with fixed answers from the inner middleware. */
module Scenarios {
  import opened Wrappers
  import opened NonceManager

  /** The remote count is 5 when the manager first needs it: the first
      nonce-less fill places 5 and leaves 6, the second places 6 and
      leaves 7 without asking the remote count again. */
  lemma TwoFillsFromFive(e: InnerError)
    ensures var o1 := Fill(New(), None, Success(5), Success(()));
            o1.tx == Some(5) && o1.state == State(true, 6) && o1.init == QueryStored(5)
    ensures var o1 := Fill(New(), None, Success(5), Success(()));
            var o2 := Fill(o1.state, None, Failure(e), Success(()));
            o2.tx == Some(6) && o2.state == State(true, 7) && o2.init == NoQuery
  {
  }

  /** The counter is 7 and a send fails while the remote count has moved
      to 9: one retry is made, again with nonce 7. The counter ends at 9
      when the retry fails and at 8 when it succeeds. */
  lemma StaleSendFromSeven(e: InnerError, e': InnerError, h: Pending)
    ensures var o := Send(State(true, 7), None, Failure(e), Failure(e), Success(9), Failure(e'));
            o.broadcasts == [7, 7] && o.state == State(true, 9) && o.result == Failure(MiddlewareError(e'))
    ensures var o := Send(State(true, 7), None, Failure(e), Failure(e), Success(9), Success(h));
            o.broadcasts == [7, 7] && o.state == State(true, 8) && o.result == Success(h)
  {
  }

  /** The counter is 7, a send fails and the remote count is 7 too: the
      original error comes back, nothing is retried, the counter stays 7. */
  lemma FailedSendWithoutRecovery(e: InnerError, e': InnerError, h: Pending)
    ensures var o := Send(State(true, 7), None, Failure(e'), Failure(e), Success(7), Success(h));
            o.broadcasts == [7] && o.state == State(true, 7) && o.result == Failure(MiddlewareError(e))
  {
  }
}
