/** Concrete lifecycles of a `MaybeDone` wrapping a `Countdown` future: the
    wrapper reports `Pending` while the inner future does, `Ready(())` from
    the completing poll on, and hands the value out once. */
module CountdownTraces {
  import opened Options
  import Task
  import opened MaybeDoneFuture
  import opened Countdown
  import opened Traces

  /** Polling a wrapped countdown with `k` pending answers `n` times: the
      first `k` polls answer `Pending` and only advance the inner future,
      every later one answers `Ready(())`; the wrapper is terminated exactly
      when more than `k` polls were made, and then caches the value. */
  lemma {:induction false} CountdownPolls<T>(k: nat, v: T, n: nat)
    ensures var t := Run(Wrap(Countdown(k, v)), PollCountdown, Polls(n));
      && !t.panicked
      && (forall i :: 0 <= i < n ==> t.observed[i] == Polled(if i < k then Task.Pending else Task.Ready(())))
      && (n <= k ==> t.final == Future(Countdown(k - n, v)))
      && (n > k ==> t.final == Done(v))
      && (IsTerminated(t.final) <==> n > k)
  {
    if n > 0 {
      assert Polls<T>(n)[1..] == Polls(n - 1);
      if k == 0 {
        PollDoneIdempotent(v, PollCountdown, n - 1);
      } else {
        CountdownPolls(k - 1, v, n - 1);
      }
    }
  }

  /** Taking twice after `n` polls: the first take hands out `v` exactly when
      the countdown has completed, and the second take never does. */
  lemma CountdownTakeOnce<T>(k: nat, v: T, n: nat)
    ensures var t := Run(Wrap(Countdown(k, v)), PollCountdown, Polls(n) + [TakeOutputOp, TakeOutputOp]);
      && !t.panicked
      && t.observed[n] == Took(if n > k then Some(v) else None)
      && t.observed[n + 1] == Took(None)
  {
    var takes: seq<Op<T>> := [TakeOutputOp, TakeOutputOp];
    var polled := Run(Wrap(Countdown(k, v)), PollCountdown, Polls(n));
    CountdownPolls(k, v, n);
    RunAppend(Wrap(Countdown(k, v)), PollCountdown, Polls(n), takes);
    var taken := Run(polled.final, PollCountdown, takes);
    assert takes[1..] == [TakeOutputOp];
    assert takes[2..] == [];
    assert (polled.observed + taken.observed)[n] == taken.observed[0];
    assert (polled.observed + taken.observed)[n + 1] == taken.observed[1];
  }

  /** The documented use of `maybe_done(ready(5))`: a take before awaiting
      answers `None`, awaiting completes on the first poll, then one take
      answers `Some(5)` and the next `None`. */
  lemma ReadyFiveExample()
    ensures Run(Wrap(Countdown(0, 5)), PollCountdown, [TakeOutputOp, PollOp, TakeOutputOp, TakeOutputOp])
      == Trace(Gone, [Took(None), Polled(Task.Ready(())), Took(Some(5)), Took(None)], false)
  {
    var ops: seq<Op<int>> := [TakeOutputOp, PollOp, TakeOutputOp, TakeOutputOp];
    assert ops[1..] == [PollOp, TakeOutputOp, TakeOutputOp];
    assert ops[2..] == [TakeOutputOp, TakeOutputOp];
    assert ops[3..] == [TakeOutputOp];
    assert ops[4..] == [];
  }

  /** A future that is pending once and then yields "x": before completion
      the wrapper is not terminated and has nothing to take; the second poll
      completes it and the take hands out "x". */
  lemma PendingOnceExample()
    ensures Run(Wrap(Countdown(1, "x")), PollCountdown,
                [PollOp, IsTerminatedOp, TakeOutputOp, PollOp, IsTerminatedOp, TakeOutputOp])
      == Trace(Gone, [Polled(Task.Pending), Queried(false), Took(None),
                      Polled(Task.Ready(())), Queried(true), Took(Some("x"))], false)
  {
    var ops: seq<Op<string>> := [PollOp, IsTerminatedOp, TakeOutputOp, PollOp, IsTerminatedOp, TakeOutputOp];
    assert ops[1..] == [IsTerminatedOp, TakeOutputOp, PollOp, IsTerminatedOp, TakeOutputOp];
    assert ops[2..] == [TakeOutputOp, PollOp, IsTerminatedOp, TakeOutputOp];
    assert ops[3..] == [PollOp, IsTerminatedOp, TakeOutputOp];
    assert ops[4..] == [IsTerminatedOp, TakeOutputOp];
    assert ops[5..] == [TakeOutputOp];
    assert ops[6..] == [];
  }

  /** Polling after the value has been taken is the one fault: the run
      stops there, after the answers of the calls before it. */
  lemma PollAfterTakePanics()
    ensures Run(Wrap(Countdown(0, 5)), PollCountdown, [PollOp, TakeOutputOp, PollOp])
      == Trace(Gone, [Polled(Task.Ready(())), Took(Some(5))], true)
  {
    var ops: seq<Op<int>> := [PollOp, TakeOutputOp, PollOp];
    assert ops[1..] == [TakeOutputOp, PollOp];
    assert ops[2..] == [PollOp];
  }
}
