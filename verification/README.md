# Nonce manager middleware, modelled in Dafny

A Dafny model of `LockedNonceManagerMiddleware` from `ethers-nonce`. This
middleware hands out account nonces locally. It keeps two pieces of state: a
one-shot `initialized` flag and a stored counter. It sits in front of an inner
middleware, which signs, fills and broadcasts transactions.

The model reduces the manager to an immutable `State(initialized, stored)`.
Each entry point is a pure transition. Every call the manager makes into the
inner middleware becomes a parameter that carries the answer that call would
give:

- the remote transaction count, as `Result<nat, InnerError>`;
- the inner `fill_transaction`, as `Result<(), InnerError>`;
- the inner `send_transaction`, as `Result<Pending, InnerError>`.

A transaction is reduced to its optional nonce, `Option<nat>`.

Each transition returns a record with these parts:

- the new state;
- the nonce placed on the transaction;
- what lazy initialisation did (`NoQuery`, `QueryFailed` or `QueryStored(n)`);
- the result;
- for a send, the nonce carried by each broadcast.

Files:

- `wrappers.dfy`: `Option` and `Result`.
- `nonce_manager.dfy` (module `NonceManager`): the state, construction, `Next`, lazy initialisation (`GetOrInit`, `InitializeNonce`), the nonce assignment shared by both entry points (`Assign`), and the two entry points `Fill` and `Send`.
- `sessions.dfy` (module `Sessions`): runs of fill and send calls, one at a time. Includes the consecutive-nonce and initialise-at-most-once properties.
- `properties.dfy` (module `Properties`): properties that relate two calls, or one call under different answers.
- `scenarios.dfy` (module `Scenarios`): concrete runs.

Behaviours pinned as written in `src/lib.rs`, not corrected:

- A fill with an explicit nonce still sets the counter to the *stored* value + 1. It does not use the transaction's nonce, and it skips lazy initialisation (lines 101, 103-106, 114).
- In the send path the working nonce is the stored counter when the transaction carries its own nonce (line 130). The stale-nonce retry puts that working nonce back on the transaction (line 143). So an explicit nonce is replaced by the counter on the retry.
- The retry reuses the original working nonce, not the remote count (line 143). When the retry succeeds, line 155 overwrites the remote count written at line 142. The counter ends at working nonce + 1.
- If the remote count query after a failed broadcast itself fails, its error is returned instead of the broadcast's (line 140).
- After a stale-nonce failure the counter holds the remote count only until the retry finishes (line 142). A successful retry leaves it at working nonce + 1 (line 155), so counter 7 with remote count 9 ends at 8, and at 9 only when the retry fails (`Scenarios.StaleSendFromSeven`).

## Model

| member | source | states |
|---|---|---|
| `NonceManager.New` | src/lib.rs:24-31 | a new manager is not initialised and its counter is zero |
| `NonceManager.Next` | src/lib.rs:41-45 | `next` reads the stored counter and changes nothing; that this is the nonce the next nonce-less call places is `Properties.NextIsNextNonce` |
| `NonceManager.GetOrInit` | src/lib.rs:47-64 | the remote count is queried exactly when the flag is clear. On success it is stored, the flag is set and the value returned. On failure the error is returned and the state is unchanged, so a later call queries again. An initialised manager is left alone and its counter returned |
| `NonceManager.InitializeNonce` | src/lib.rs:34-39 | on an initialised manager it queries nothing and returns the counter with the state unchanged. Otherwise it adopts and returns the remote count, or returns the query's error and leaves the state as it was |
| `NonceManager.Assign` | src/lib.rs:100-106 | an explicit nonce is kept, no initialisation runs, and the working nonce is the stored counter. A missing nonce becomes the lazily initialised counter. Initialisation queries the remote count only for a nonce-less transaction on an uninitialised manager (`LazyInit`). Only a failed initialisation query stops the call, and the state is then unchanged |
| `NonceManager.Fill` | src/lib.rs:95-117 | the nonce placed on the transaction in each case. What lazy initialisation did is pinned for every input (`LazyInit`): no query for an explicit nonce or an initialised manager, otherwise the remote count stored or the query failed. Success requires a placed nonce and a successful inner fill. On success the counter becomes the working nonce + 1: stored + 1 for an explicit nonce, placed nonce + 1 otherwise. On failure the error is passed on and only lazy initialisation has changed the state |
| `NonceManager.Send` | src/lib.rs:122-158 | at most two broadcasts, none exactly when initialisation fails. What lazy initialisation did is pinned for every input, as for fill. The first broadcast carries the explicit or assigned nonce. A successful first broadcast sets the counter to working nonce + 1. A failed remote count query returns its error with no retry. A remote count not ahead of the working nonce returns the original error with no retry. A remote count ahead causes one retry with the working nonce: the counter becomes working nonce + 1 if it succeeds, or the remote count and the retry's error if it fails |
| `Sessions.Step` | src/lib.rs:95-158 | within one fill or send the flag is never cleared, and it is set exactly when lazy initialisation stored a remote count. The transaction reaches the inner middleware with a nonce unless the initialisation query failed. The nonce recorded is the first hand-off's: the explicit nonce as given, otherwise the working nonce |
| `Sessions.Final` | src/lib.rs:52-60 | no run of calls clears the flag once it is set |
| `Sessions.Placed` | src/lib.rs:100-106 | the nonce each call's first hand-off to the inner middleware carried (the explicit nonce, or the working nonce for a nonce-less call, as `Sessions.Step` pins): at most one per call, and exactly one per call once the manager is initialised. A send's retry nonce is not recorded |
| `Sessions.InitStores` | src/lib.rs:47-64 | in any sequence of calls, lazy initialisation stores a remote count at most once. It never does so on an initialised manager, and does so exactly once when the run initialises it |
| `Sessions.StepTakesCounter` | src/lib.rs:100-116 | on an initialised manager, a nonce-less call whose first hand-off succeeds takes the stored counter and advances it by one |
| `Sessions.ConsecutiveNonces` | src/lib.rs:100-116 | k sequential nonce-less fills and sends on a manager initialised to I, each succeeding first time, place I, I+1, ..., I+k-1 in order, and the counter ends at I+k |
| `Sessions.DistinctAndGapless` | src/lib.rs:95-158 | the nonces of such a run are pairwise distinct and cover exactly I .. I+k-1 |
| `Sessions.FreshRunConsecutive` | src/lib.rs:24-64 | on a fresh manager whose first call reads remote count I, such a run places I, I+1, ... and queries the remote count exactly once |
| `Properties.InitializeNonceIdempotent` | src/lib.rs:34-39 | after a successful `initialize_nonce` a second one queries nothing and returns the same value |
| `Properties.InitFailureIsRetried` | src/lib.rs:52-61 | a failed initialisation leaves the state unchanged, and the next call adopts the next answer |
| `Properties.NextIsNextNonce` | src/lib.rs:41-45 | on an initialised manager `next` is the nonce the next nonce-less fill or send places, and it grows by one after a successful one |
| `Properties.ExplicitFillIgnoresItsNonce` | src/lib.rs:101-114 | a successful explicit-nonce fill yields stored + 1 with the flag unchanged, whatever the explicit nonce is |
| `Properties.ExplicitFillBeforeInitIsDiscarded` | src/lib.rs:101-114 | on a fresh manager an explicit fill moves the counter to 1 without initialising. The next nonce-less fill replaces that with the remote count |
| `Properties.FailedFillKeepsNonce` | src/lib.rs:108-114 | a fill whose inner fill fails does not consume its nonce: the next nonce-less fill places the same one |
| `Properties.RetryExactlyWhenRemoteAhead` | src/lib.rs:137-153 | a second broadcast happens if and only if the first failed and the remote count was read and is ahead of the working nonce |
| `Properties.StaleRetryReusesNonce` | src/lib.rs:140-155 | the retry rebroadcasts the same nonce. After it succeeds the counter is that nonce + 1, which is at most the remote count. After it fails the counter is the remote count |
| `Properties.ExplicitSendRetryUsesCounter` | src/lib.rs:130-143 | with an explicit nonce, the retry carries the stored counter instead of that nonce |
| `Properties.UnretriedSendKeepsNonce` | src/lib.rs:139-151 | a failed send that is not retried does not consume its nonce |
| `Scenarios.TwoFillsFromFive` | src/lib.rs:95-117 | with remote count 5, two fills place 5 then 6 and leave 6 then 7, and only the first queries |
| `Scenarios.StaleSendFromSeven` | src/lib.rs:137-155 | counter 7, failed send, remote count 9: both broadcasts carry 7. The counter ends at 9 when the retry fails and at 8 when it succeeds |
| `Scenarios.FailedSendWithoutRecovery` | src/lib.rs:140-151 | counter 7, failed send, remote count 7: the original error, no retry, counter still 7 |

## Left out

- Locking and atomics: the `RwLock` and the `AtomicBool` are not modelled, and neither is async scheduling. The model runs one exclusive call at a time. In the code, `get_or_init_nonce` takes the same non-reentrant lock (lines 58 and 63) that fill and send already hold for writing (lines 100 and 129). As written, a nonce-less fill or send would wait on its own lock. The model gives the evidently intended meaning: both accesses act on the same cell.
- Concurrency: races between first callers on the unsynchronised flag check (line 52) are not modelled, so "the query runs at most once" is proved only for sequential runs. Concurrent sends are modelled as a sequence, which the write lock held across the call would enforce.
- The inner middleware is an oracle. This covers signing, gas filling, broadcasting, `PendingTransaction` handles (an opaque `Pending`), the `inner()` accessor and the provider types. The `block` argument and the `address` are dropped because they only pass through to it.
- `NonceManagerError` and `FromErr` (lines 67-79) become one wrapper, `MiddlewareError`, around an opaque `InnerError`.
- `TypedTransaction` is reduced to its optional nonce.
- `U256` arithmetic: `nonce + 1` overflows `U256` when the nonce is 2^256 - 1 (lines 114 and 155), which panics rather than wrapping. Counters are unbounded `nat`, so that panic is not modelled.
- Sessions.Placed: records only the nonce of each call's first hand-off. The retry of a send (line 143) is pinned by `NonceManager.Send`'s `broadcasts`, but a run does not collect it, so the distinctness of `Sessions.DistinctAndGapless` is about first hand-offs only.
