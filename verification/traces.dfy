/** Sequences of calls on one `MaybeDone` wrapper, as a single owner makes
    them, and what the caller observes along the way. */
module Traces {
  import opened Options
  import Task
  import opened MaybeDoneFuture

  /** One call on the wrapper. `OutputMutOp(assign)` is
      `if let Some(r) = output_mut() { *r = v }` when `assign == Some(v)`,
      and a plain read when `assign == None`. */
  datatype Op<T> =
    | PollOp
    | TakeOutputOp
    | OutputMutOp(assign: Option<T>)
    | IsTerminatedOp

  /** What one call answers. */
  datatype Observation<T> =
    | Polled(status: Task.Poll<()>)
    | Took(taken: Option<T>)
    | Viewed(view: Option<T>)
    | Queried(terminated: bool)

  /** The outcome of a run: the last state, the answers of the calls that
      completed, and whether the run stopped on the panic of polling a
      `Gone` wrapper. */
  datatype Trace<F, T> = Trace(final: MaybeDone<F, T>, observed: seq<Observation<T>>, panicked: bool)

  /** Perform one call that does not panic. */
  function Step<F, T>(m: MaybeDone<F, T>, pollInner: F -> (F, Task.Poll<T>), op: Op<T>)
    : (r: (MaybeDone<F, T>, Observation<T>))
    requires !(op.PollOp? && m.Gone?)
    ensures Rank(m) <= Rank(r.0)
    ensures !op.PollOp? ==> IsTerminated(r.0) == IsTerminated(m)
    ensures op.IsTerminatedOp? ==> r.0 == m
  {
    match op
    case PollOp =>
      var (m', status) := Poll(m, pollInner);
      (m', Polled(status))
    case TakeOutputOp =>
      var (m', taken) := TakeOutput(m);
      (m', Took(taken))
    case OutputMutOp(assign) =>
      var view := OutputMut(m);
      (if view.Some? && assign.Some? then WriteOutput(m, assign.value) else m, Viewed(view))
    case IsTerminatedOp =>
      (m, Queried(IsTerminated(m)))
  }

  /** Perform the calls `ops` in order, stopping at a poll of a `Gone`
      wrapper. */
  function Run<F, T>(m: MaybeDone<F, T>, pollInner: F -> (F, Task.Poll<T>), ops: seq<Op<T>>)
    : (t: Trace<F, T>)
    ensures !t.panicked ==> |t.observed| == |ops|
    ensures t.panicked ==> |t.observed| < |ops| && ops[|t.observed|].PollOp? && t.final.Gone?
    decreases |ops|
  {
    if ops == [] then Trace(m, [], false)
    else if ops[0].PollOp? && m.Gone? then Trace(m, [], true)
    else
      var (m', o) := Step(m, pollInner, ops[0]);
      var rest := Run(m', pollInner, ops[1..]);
      Trace(rest.final, [o] + rest.observed, rest.panicked)
  }

  /** `n` polls in a row. */
  function Polls<T>(n: nat): (ops: seq<Op<T>>)
    ensures |ops| == n && forall i :: 0 <= i < n ==> ops[i].PollOp?
  {
    seq(n, _ => PollOp)
  }

  /** Whether an observation is a `take_output` that handed out a value. */
  predicate IsSuccessfulTake<T>(o: Observation<T>)
  {
    o.Took? && o.taken.Some?
  }

  /** The number of `take_output` calls that handed out a value. */
  function SuccessfulTakes<T>(obs: seq<Observation<T>>): nat
  {
    if obs == [] then 0
    else (if IsSuccessfulTake(obs[0]) then 1 else 0) + SuccessfulTakes(obs[1..])
  }

  /** Whether some poll reported `Ready(())`. */
  predicate ReportedReady<T>(obs: seq<Observation<T>>)
  {
    exists i :: 0 <= i < |obs| && obs[i] == Polled(Task.Ready(()))
  }

  lemma {:induction false} ReportedReadyCons<T>(o: Observation<T>, obs: seq<Observation<T>>)
    ensures ReportedReady([o] + obs) <==> o == Polled(Task.Ready(())) || ReportedReady(obs)
  {
    if o == Polled(Task.Ready(())) {
      assert ([o] + obs)[0] == o;
    }
    if ReportedReady(obs) {
      var i :| 0 <= i < |obs| && obs[i] == Polled(Task.Ready(()));
      assert ([o] + obs)[i + 1] == obs[i];
    }
    if ReportedReady([o] + obs) && o != Polled(Task.Ready(())) {
      var i :| 0 <= i < |[o] + obs| && ([o] + obs)[i] == Polled(Task.Ready(()));
      assert obs[i - 1] == ([o] + obs)[i];
    }
  }

  lemma {:induction false} SuccessfulTakeCounted<T>(obs: seq<Observation<T>>, j: nat)
    requires j < |obs| && IsSuccessfulTake(obs[j])
    ensures SuccessfulTakes(obs) >= 1
  {
    if j > 0 {
      SuccessfulTakeCounted(obs[1..], j - 1);
    }
  }

  lemma {:induction false} TwoSuccessfulTakesCounted<T>(obs: seq<Observation<T>>, i: nat, j: nat)
    requires i < j < |obs| && IsSuccessfulTake(obs[i]) && IsSuccessfulTake(obs[j])
    ensures SuccessfulTakes(obs) >= 2
  {
    if i == 0 {
      SuccessfulTakeCounted(obs[1..], j - 1);
    } else {
      TwoSuccessfulTakesCounted(obs[1..], i - 1, j - 1);
    }
  }

  /** Running `a` and then `b` is running `a + b`, unless `a` already
      panicked. */
  lemma {:induction false} RunAppend<F, T>(m: MaybeDone<F, T>, pollInner: F -> (F, Task.Poll<T>), a: seq<Op<T>>, b: seq<Op<T>>)
    ensures var ta := Run(m, pollInner, a);
      Run(m, pollInner, a + b) ==
        if ta.panicked then ta
        else
          var tb := Run(ta.final, pollInner, b);
          Trace(tb.final, ta.observed + tb.observed, tb.panicked)
    decreases |a|
  {
    if a == [] {
      assert a + b == b;
    } else if a[0].PollOp? && m.Gone? {
      assert (a + b)[0] == a[0];
    } else {
      assert (a + b)[0] == a[0];
      assert (a + b)[1..] == a[1..] + b;
      var (m', o) := Step(m, pollInner, a[0]);
      RunAppend(m', pollInner, a[1..], b);
      var ra := Run(m', pollInner, a[1..]);
      if !ra.panicked {
        var tb := Run(ra.final, pollInner, b);
        assert [o] + (ra.observed + tb.observed) == ([o] + ra.observed) + tb.observed;
      }
    }
  }

  /** However the calls are interleaved, `take_output` hands out a value at
      most once, and never from a wrapper whose value is already gone. */
  lemma {:induction false} TakeSucceedsAtMostOnce<F, T>(m: MaybeDone<F, T>, pollInner: F -> (F, Task.Poll<T>), ops: seq<Op<T>>)
    ensures SuccessfulTakes(Run(m, pollInner, ops).observed) <= (if m.Gone? then 0 else 1)
    decreases |ops|
  {
    if ops != [] && !(ops[0].PollOp? && m.Gone?) {
      var (m', o) := Step(m, pollInner, ops[0]);
      var rest := Run(m', pollInner, ops[1..]);
      assert ([o] + rest.observed)[1..] == rest.observed;
      TakeSucceedsAtMostOnce(m', pollInner, ops[1..]);
    }
  }

  /** After a `take_output` that handed out a value, every later
      `take_output` answers `None`. */
  lemma LaterTakesAnswerNone<F, T>(m: MaybeDone<F, T>, pollInner: F -> (F, Task.Poll<T>), ops: seq<Op<T>>)
    ensures var obs := Run(m, pollInner, ops).observed;
      forall i, j :: 0 <= i < j < |obs| && IsSuccessfulTake(obs[i]) && obs[j].Took? ==> obs[j].taken.None?
  {
    var obs := Run(m, pollInner, ops).observed;
    TakeSucceedsAtMostOnce(m, pollInner, ops);
    forall i, j | 0 <= i < j < |obs| && IsSuccessfulTake(obs[i]) && obs[j].Took?
      ensures obs[j].taken.None?
    {
      if obs[j].taken.Some? {
        TwoSuccessfulTakesCounted(obs, i, j);
      }
    }
  }

  /** The state after a run is determined by the state before it and the
      answers seen: the value is gone exactly when it was gone already or a
      take handed it out, and the inner future is still running exactly when
      it was running and no poll reported completion. */
  lemma {:induction false} RunHistory<F, T>(m: MaybeDone<F, T>, pollInner: F -> (F, Task.Poll<T>), ops: seq<Op<T>>)
    ensures var t := Run(m, pollInner, ops);
      && (t.final.Gone? <==> m.Gone? || SuccessfulTakes(t.observed) > 0)
      && (t.final.Future? <==> m.Future? && !ReportedReady(t.observed))
    decreases |ops|
  {
    if ops != [] && !(ops[0].PollOp? && m.Gone?) {
      var (m', o) := Step(m, pollInner, ops[0]);
      var rest := Run(m', pollInner, ops[1..]);
      assert ([o] + rest.observed)[1..] == rest.observed;
      ReportedReadyCons(o, rest.observed);
      RunHistory(m', pollInner, ops[1..]);
    }
  }

  /** For a freshly wrapped future, the doc promise of `output_mut`: it
      answers `Some` exactly when the inner future has completed and the
      value has not been taken. Likewise `is_terminated` holds exactly when
      some poll has reported completion, and `take_output` would succeed
      exactly when `output_mut` answers `Some`. */
  lemma WrappedHistory<F, T>(fut: F, pollInner: F -> (F, Task.Poll<T>), ops: seq<Op<T>>)
    ensures var t := Run(Wrap(fut), pollInner, ops);
      && (OutputMut(t.final).Some? <==> ReportedReady(t.observed) && SuccessfulTakes(t.observed) == 0)
      && (IsTerminated(t.final) <==> ReportedReady(t.observed))
      && (TakeOutput(t.final).1.Some? <==> OutputMut(t.final).Some?)
  {
    RunHistory(Wrap(fut), pollInner, ops);
  }

  /** No sequence of calls moves the wrapper back towards `Future`: the
      lifecycle rank after every prefix is at most the rank at the end. */
  lemma {:induction false} NeverBackToFuture<F, T>(m: MaybeDone<F, T>, pollInner: F -> (F, Task.Poll<T>), ops: seq<Op<T>>)
    ensures Rank(m) <= Rank(Run(m, pollInner, ops).final)
    ensures !m.Future? ==> !Run(m, pollInner, ops).final.Future?
    decreases |ops|
  {
    if ops != [] && !(ops[0].PollOp? && m.Gone?) {
      var (m', o) := Step(m, pollInner, ops[0]);
      NeverBackToFuture(m', pollInner, ops[1..]);
    }
  }

  /** Along a run, every prefix ends at a rank no higher than the whole. */
  lemma PrefixRankMonotone<F, T>(m: MaybeDone<F, T>, pollInner: F -> (F, Task.Poll<T>), ops: seq<Op<T>>, k: nat)
    requires k <= |ops|
    ensures Rank(Run(m, pollInner, ops[..k]).final) <= Rank(Run(m, pollInner, ops).final)
  {
    assert ops == ops[..k] + ops[k..];
    RunAppend(m, pollInner, ops[..k], ops[k..]);
    if !Run(m, pollInner, ops[..k]).panicked {
      NeverBackToFuture(Run(m, pollInner, ops[..k]).final, pollInner, ops[k..]);
    }
  }

  /** Polling a `Done` wrapper any number of times answers `Ready(())` every
      time and keeps the cached value. */
  lemma {:induction false} PollDoneIdempotent<F, T>(v: T, pollInner: F -> (F, Task.Poll<T>), n: nat)
    ensures var t := Run(Done(v), pollInner, Polls(n));
      && t.final == Done(v) && !t.panicked
      && forall i :: 0 <= i < |t.observed| ==> t.observed[i] == Polled(Task.Ready(()))
  {
    if n > 0 {
      assert Polls<T>(n)[1..] == Polls(n - 1);
      PollDoneIdempotent(v, pollInner, n - 1);
    }
  }

  /** A value written through `output_mut` survives any number of polls and
      is the one the next `take_output` hands out. */
  lemma WriteSurvivesPolls<F, T>(m: MaybeDone<F, T>, v: T, pollInner: F -> (F, Task.Poll<T>), n: nat)
    requires OutputMut(m).Some?
    ensures var t := Run(WriteOutput(m, v), pollInner, Polls(n));
      && !t.panicked
      && TakeOutput(t.final) == (Gone, Some(v))
  {
    PollDoneIdempotent(v, pollInner, n);
  }
}
