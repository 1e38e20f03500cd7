/** Sequences of calls on one manager, one exclusive call at a time: each
    fill or send runs to completion before the next one starts, as the
    write lock held across the whole call guarantees. */
module Sessions {
  import opened Wrappers
  import opened NonceManager

  /** One call together with the answers the inner middleware gives during it. */
  datatype Call =
    | FillCall(tx: Option<nat>, count: Result<nat, InnerError>, fill: Result<(), InnerError>)
    | SendCall(tx: Option<nat>, count: Result<nat, InnerError>,
               first: Result<Pending, InnerError>, recount: Result<nat, InnerError>,
               retry: Result<Pending, InnerError>)

  /** What one call did: the state after it, the nonce the transaction
      carried on its first hand-off to the inner middleware (None when lazy
      initialisation failed first; a send's retry is not recorded), whether it succeeded, and what lazy
      initialisation did. */
  datatype Effect = Effect(state: State, placed: Option<nat>, ok: bool, init: InitEvent)

  function Step(s: State, c: Call): (e: Effect)
    // the flag is never cleared, and is set only by a query whose answer is stored
    ensures s.initialized ==> e.state.initialized && e.init.NoQuery?
    ensures e.init.QueryStored? <==> !s.initialized && e.state.initialized
    // a nonce reaches the inner middleware unless lazy initialisation failed
    ensures e.init == LazyInit(s, c.tx, c.count)
    ensures e.placed.None? <==> e.init.QueryFailed?
    // the nonce recorded is the one the first hand-off carried: an explicit
    // nonce as given, otherwise the working nonce
    ensures c.tx.Some? ==> e.placed == c.tx
    ensures c.tx.None? && e.placed.Some? ==> e.placed.value == WorkingNonce(s, c.tx, c.count)
  {
    match c
    case FillCall(tx, count, fill) =>
      var o := Fill(s, tx, count, fill);
      Effect(o.state, o.tx, o.result.Success?, o.init)
    case SendCall(tx, count, first, recount, retry) =>
      var o := Send(s, tx, count, first, recount, retry);
      Effect(o.state, if o.broadcasts == [] then None else Some(o.broadcasts[0]), o.result.Success?, o.init)
  }

  /** The state after a run of calls. */
  function Final(s: State, calls: seq<Call>): (f: State)
    // the flag is never cleared
    ensures s.initialized ==> f.initialized
    decreases |calls|
  {
    if calls == [] then s else Final(Step(s, calls[0]).state, calls[1..])
  }

  /** The nonce each call of a run carried on its first hand-off to the
      inner middleware, in order; a call whose lazy initialisation failed
      hands nothing over. A send's retry is not recorded here. */
  function Placed(s: State, calls: seq<Call>): (p: seq<nat>)
    ensures |p| <= |calls|
    // once the manager is initialised, every call places a nonce
    ensures s.initialized ==> |p| == |calls|
    decreases |calls|
  {
    if calls == [] then []
    else
      var e := Step(s, calls[0]);
      (if e.placed.Some? then [e.placed.value] else []) + Placed(e.state, calls[1..])
  }

  /** How many calls of a run stored a remote count during lazy initialisation. */
  function InitStores(s: State, calls: seq<Call>): (n: nat)
    // at most once in any run, never once the manager is initialised, and
    // exactly once when the run is what initialises the manager
    ensures n <= 1
    ensures s.initialized ==> n == 0
    ensures n == 1 <==> !s.initialized && Final(s, calls).initialized
    decreases |calls|
  {
    if calls == [] then 0
    else
      var e := Step(s, calls[0]);
      (if e.init.QueryStored? then 1 else 0) + InitStores(e.state, calls[1..])
  }

  /** A call that asks the manager for a nonce and whose first hand-off to
      the inner middleware succeeds. */
  predicate SucceedsFirstTry(c: Call)
  {
    c.tx.None? &&
    match c
    case FillCall(_, _, fill) => fill.Success?
    case SendCall(_, _, first, _, _) => first.Success?
  }

  /** On an initialised manager such a call takes the stored counter and
      advances it by one. */
  lemma StepTakesCounter(s: State, c: Call)
    requires s.initialized && SucceedsFirstTry(c)
    ensures Step(s, c) == Effect(State(true, s.stored + 1), Some(s.stored), true, NoQuery)
  {
  }

  /** Sequential fills and sends on a manager initialised to I, each asking
      for a nonce and succeeding first time, get I, I+1, ..., I+k-1 in
      order, and the counter ends at I+k. */
  lemma {:induction false} ConsecutiveNonces(s: State, calls: seq<Call>)
    requires s.initialized
    requires forall i :: 0 <= i < |calls| ==> SucceedsFirstTry(calls[i])
    ensures Final(s, calls) == State(true, s.stored + |calls|)
    ensures |Placed(s, calls)| == |calls|
    ensures forall i :: 0 <= i < |calls| ==> Placed(s, calls)[i] == s.stored + i
    decreases |calls|
  {
    if calls != [] {
      StepTakesCounter(s, calls[0]);
      var next := State(true, s.stored + 1);
      ConsecutiveNonces(next, calls[1..]);
      var rest := Placed(next, calls[1..]);
      assert Placed(s, calls) == [s.stored] + rest;
      forall i | 0 <= i < |calls|
        ensures Placed(s, calls)[i] == s.stored + i
      {
        if i > 0 {
          assert Placed(s, calls)[i] == rest[i - 1];
        }
      }
    }
  }

  /** The same run hands out pairwise distinct nonces covering exactly
      I .. I+k-1: no duplicate and no gap. */
  lemma DistinctAndGapless(s: State, calls: seq<Call>)
    requires s.initialized
    requires forall i :: 0 <= i < |calls| ==> SucceedsFirstTry(calls[i])
    ensures var p := Placed(s, calls);
            forall i, j :: 0 <= i < j < |p| ==> p[i] != p[j]
    ensures var p := Placed(s, calls);
            forall n :: n in p <==> s.stored <= n < s.stored + |calls|
  {
    ConsecutiveNonces(s, calls);
    var p := Placed(s, calls);
    forall n | s.stored <= n < s.stored + |calls|
      ensures n in p
    {
      assert p[n - s.stored] == n;
    }
  }

  /** On a fresh manager whose first call learns the remote count I, the
      same run again hands out I, I+1, ..., with the one initialisation
      query at the start. */
  lemma FreshRunConsecutive(calls: seq<Call>, remote: nat)
    requires |calls| > 0 && calls[0].count == Success(remote)
    requires forall i :: 0 <= i < |calls| ==> SucceedsFirstTry(calls[i])
    ensures Final(New(), calls) == State(true, remote + |calls|)
    ensures |Placed(New(), calls)| == |calls|
    ensures forall i :: 0 <= i < |calls| ==> Placed(New(), calls)[i] == remote + i
    ensures InitStores(New(), calls) == 1
  {
    var e := Step(New(), calls[0]);
    assert e.state == State(true, remote + 1) && e.placed == Some(remote);
    ConsecutiveNonces(e.state, calls[1..]);
    var rest := Placed(e.state, calls[1..]);
    assert Placed(New(), calls) == [remote] + rest;
    forall i | 0 < i < |calls|
      ensures Placed(New(), calls)[i] == remote + i
    {
      assert Placed(New(), calls)[i] == rest[i - 1];
    }
  }
}
