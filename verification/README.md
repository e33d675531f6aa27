# MaybeDone, modelled in Dafny

This project models the `MaybeDone` combinator of `futures-util`. The
combinator wraps an inner future and polls it until it completes. It then
caches the future's output in place. The cached output can be viewed or
edited through `output_mut`, and `take_output` moves it out exactly once.
Awaiting the wrapper itself only ever yields `()`.

Files:

- `core.dfy`: the `Option` and `Poll` value types.
- `maybe_done.dfy`: module `MaybeDoneFuture`. It holds the three-state
  `MaybeDone<F, T>` datatype (`Future(fut)`, `Done(output)`, `Gone`) and the
  operations `Wrap` (`maybe_done`), `IsTerminated`, `OutputMut`,
  `WriteOutput`, `TakeOutput` and `Poll`, each a pure function that returns
  the new state together with what the call answers.
- `countdown.dfy`: a concrete inner future. It answers `Pending` to a fixed
  number of polls and then `Ready(value)`. `Countdown(0, v)` plays the part
  of `future::ready(v)`.
- `traces.dfy`: module `Traces`. It runs a sequence of calls on one wrapper
  (`Run`) and proves what holds along every such sequence.
- `countdown_traces.dfy`: the lifecycle of a wrapped countdown, including
  the documented `ready(5)` example.

The inner future is a parameter. It is a state of type `F` with a total step
function `pollInner: F -> (F, Poll<T>)` that answers the next state and
`Pending` or `Ready(v)`. The waker is not a parameter (see below).

The three states are named as in the code: `Future`, `Done` and `Gone`.

The doc comment of `output_mut` (lines 50-52) says it answers `Some` if and
only if the inner future has completed and `take_output` "has not yet been
called". Read literally, that is too strong: a
`take_output` called before completion answers `None` and changes nothing.
`Traces.WrappedHistory` therefore proves what the code does: `output_mut`
answers `Some` exactly when some poll has reported completion and no
`take_output` has yet handed out the value.

## Model

| member | source | states |
|---|---|---|
| MaybeDoneFuture.Wrap | futures-util/src/future/maybe_done.rs:44-46 | `maybe_done(f)` holds `f` in the `Future` variant. Right after construction the wrapper is not terminated, `output_mut` answers `None` and `take_output` answers `None` without changing it. |
| MaybeDoneFuture.IsTerminated | futures-util/src/future/maybe_done.rs:84-91 | `is_terminated` holds exactly when a value is cached (`output_mut` answers `Some`) or the value has already been taken. |
| MaybeDoneFuture.OutputMut | futures-util/src/future/maybe_done.rs:49-63 | `output_mut` answers `Some` exactly in the `Done` variant, holding the cached value. It answers `None` in `Future` and `Gone`. |
| MaybeDoneFuture.WriteOutput | futures-util/src/future/maybe_done.rs:55-61 | A value stored through the reference `output_mut` returned is what `output_mut` sees afterwards. The variant and termination status stay the same. |
| MaybeDoneFuture.TakeOutput | futures-util/src/future/maybe_done.rs:65-81 | On `Done(v)`, `take_output` answers `Some(v)` and leaves `Gone`. On `Future` or `Gone` it answers `None` and leaves the state untouched, so it never turns `Future` into `Done`. Nothing is left to take afterwards. |
| MaybeDoneFuture.Poll | futures-util/src/future/maybe_done.rs:93-112 | `poll` requires the wrapper not to be `Gone`. It answers `Ready(())` exactly when the new state is `Done`, and never the value. On `Future`, a pending inner future keeps the wrapper in `Future`, holding the inner future's advanced state. A completing inner future leaves `Done(v)` with exactly the inner future's value. On `Done`, the state is unchanged. The lifecycle never goes backwards. |
| MaybeDoneFuture.TerminatedIffPollInert | futures-util/src/future/maybe_done.rs:85-90 | For a wrapper that may be polled, `is_terminated` holds if and only if every possible inner future makes `poll` answer `Ready(())` and leave the state unchanged. |
| MaybeDoneFuture.OutputMutAgreesWithTake | futures-util/src/future/maybe_done.rs:49-81 | `output_mut` sees exactly the value that `take_output` would move out. After that take, `output_mut` sees nothing. |
| MaybeDoneFuture.WriteThenTake | futures-util/src/future/maybe_done.rs:55-81 | A value written through `output_mut` is the one `take_output` hands out next, directly or after one poll. |
| Traces.Run | futures-util/src/future/maybe_done.rs:106-107 | A run of calls stops early only at a poll of a `Gone` wrapper, which is the panic in the source. Every call before that point is answered. |
| Traces.TakeSucceedsAtMostOnce | futures-util/src/future/maybe_done.rs:65-81 | In every sequence of calls, `take_output` hands out a value at most once. It never does so when the value was already gone at the start. |
| Traces.LaterTakesAnswerNone | futures-util/src/future/maybe_done.rs:36-41 | After a `take_output` that handed out a value, every later `take_output` in the same run answers `None`. |
| Traces.RunHistory | futures-util/src/future/maybe_done.rs:65-111 | After any run, the wrapper is `Gone` exactly when it started `Gone` or a take succeeded. It is still `Future` exactly when it started in `Future` and no poll reported `Ready(())`. |
| Traces.WrappedHistory | futures-util/src/future/maybe_done.rs:49-52 | For a freshly wrapped future, `output_mut` answers `Some` exactly when the inner future has completed and `take_output` has not yet handed out the value. `is_terminated` holds exactly when some poll reported completion. |
| Traces.NeverBackToFuture | futures-util/src/future/maybe_done.rs:96-111 | No sequence of calls lowers the lifecycle rank (`Future` < `Done` < `Gone`). In particular, a wrapper that is `Done` or `Gone` never returns to `Future`. |
| Traces.PrefixRankMonotone | futures-util/src/future/maybe_done.rs:96-111 | The state after any prefix of a run is no later in the lifecycle than the state at the end of the run. This includes a prefix that panicked. |
| Traces.RunAppend | futures-util/src/future/maybe_done.rs:96-111 | Running two sequences of calls one after the other is the same as running their concatenation, unless the first sequence panicked. |
| Traces.WriteSurvivesPolls | futures-util/src/future/maybe_done.rs:55-81 | A value written through `output_mut` survives any number of polls without a panic. The next `take_output` hands it out. |
| Traces.PollDoneIdempotent | futures-util/src/future/maybe_done.rs:106 | Polling a `Done(v)` wrapper any number of times answers `Ready(())` every time and keeps `Done(v)` unchanged. |
| CountdownTraces.CountdownPolls | futures-util/src/future/maybe_done.rs:96-111 | A wrapped future that completes on poll `k+1` makes the wrapper answer `Pending` to the first `k` polls and `Ready(())` to every later poll. The wrapper is terminated exactly when more than `k` polls were made, and it then holds the value. |
| CountdownTraces.CountdownTakeOnce | futures-util/src/future/maybe_done.rs:65-81 | After `n` polls, a first take hands out the value exactly when the inner future has completed. The second take never does. |
| CountdownTraces.ReadyFiveExample | futures-util/src/future/maybe_done.rs:36-41 | The documented example: for `maybe_done(ready(5))`, a take before awaiting answers `None`. Awaiting then yields `()`, the next take answers `Some(5)` and the one after that answers `None`. |
| CountdownTraces.PendingOnceExample | futures-util/src/future/maybe_done.rs:96-111 | For an inner future that is pending once and then yields `"x"`: after the first poll the wrapper is not terminated and has nothing to take. The second poll completes it, and the take then hands out `"x"`. |
| CountdownTraces.PollAfterTakePanics | futures-util/src/future/maybe_done.rs:107 | Polling after the value has been taken is a fault. The run stops there, keeping the answers of the calls before it. |

## Left out

- Pinning: `Pin::get_mut_unchecked`, `Pin::new_unchecked`, `Pin::set` and the manual `Unpin` impl (line 24) only guarantee memory addresses. The model threads the wrapper through as a value.
- The `LocalWaker` argument of `poll` and the wake protocol: the executor is outside the model. The inner future's step function does not receive a waker.
- Concrete inner futures and the `Future` trait machinery: the inner future is a type parameter with a step function. `Countdown` is the one concrete inner future used, and only to state traces.
- The `Debug` derive: it has no behaviour to model.
- The `unreachable!()` branch of `take_output` (line 78): the `Done` check before it makes it dead code. `TakeOutput` matches the state once, so the branch does not exist in the model.
- The panic of polling a `Gone` wrapper (line 107) is not runtime behaviour of `Poll`. It is the precondition `!m.Gone?`. A `Run` of several calls records it by stopping with `panicked` set.
- Mutation through `output_mut`'s reference is modelled only as assigning a whole new value (`WriteOutput`). In-place partial mutation of the value is the same thing at the level of values.
- Dropping a wrapper, which cancels a `Future`, has no observable effect at the level of values.
- Panics inside the inner future's own `poll` (line 100): they pass straight through and leave the wrapper in `Future`. `pollInner` is total, and `Run`'s `panicked` flag stands only for the panic at line 107.
