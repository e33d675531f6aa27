/** The `MaybeDone` combinator: a wrapper that drives an inner future to
    completion once, caches its output in place, and hands the output out
    at most once.

    The inner future is abstract: a state of type `F` together with a total
    step function `pollInner` that polls it once, answering its next state and
    `Pending` or `Ready(value)`. Pinning and the waker are not modelled; the
    wrapper is a value threaded through the operations. */
module MaybeDoneFuture {
  import opened Options
  import Task

  /** The three lifecycle states. */
  datatype MaybeDone<F, T> =
    | Future(fut: F)      // the inner future has not completed yet
    | Done(output: T)     // the inner future completed; its output is cached
    | Gone                // the cached output has been taken

  /** Position of a state in the lifecycle Future -> Done -> Gone; no
      operation ever lowers it. */
  function Rank<F, T>(m: MaybeDone<F, T>): nat
  {
    match m
    case Future(_) => 0
    case Done(_) => 1
    case Gone => 2
  }

  /** `maybe_done(future)`: wrap a future that has not been polled yet. */
  function Wrap<F, T>(fut: F): (m: MaybeDone<F, T>)
    ensures !IsTerminated(m)
    ensures OutputMut(m) == None && TakeOutput(m) == (m, None)
    ensures m.Future? && m.fut == fut
  {
    Future(fut)
  }

  /** `is_terminated`: whether the wrapper can no longer make progress
      towards a new outcome. */
  predicate IsTerminated<F, T>(m: MaybeDone<F, T>)
    ensures IsTerminated(m) <==> OutputMut(m).Some? || m.Gone?
  {
    match m
    case Future(_) => false
    case Done(_) | Gone => true
  }

  /** `output_mut`, read side: the value the returned reference points at,
      if there is one. */
  function OutputMut<F, T>(m: MaybeDone<F, T>): (r: Option<T>)
    ensures r.Some? <==> m.Done?
    ensures r.Some? ==> r.value == m.output
  {
    match m
    case Done(res) => Some(res)
    case _ => None
  }

  /** `output_mut`, write side: storing `v` through the reference that
      `output_mut` returned. Only possible when it returned `Some`. */
  function WriteOutput<F, T>(m: MaybeDone<F, T>, v: T): (m': MaybeDone<F, T>)
    requires OutputMut(m).Some?
    ensures OutputMut(m') == Some(v)
    ensures IsTerminated(m') == IsTerminated(m) && Rank(m') == Rank(m)
  {
    Done(v)
  }

  /** `take_output`: move the cached output out, leaving `Gone`; never drives
      the inner future. Answers the new state and the taken value. */
  function TakeOutput<F, T>(m: MaybeDone<F, T>): (r: (MaybeDone<F, T>, Option<T>))
    ensures r.1.Some? <==> m.Done?
    ensures r.1.Some? ==> r.1.value == m.output && r.0.Gone?
    ensures r.1.None? ==> r.0 == m
    ensures !r.0.Done?
    ensures Rank(m) <= Rank(r.0)
  {
    match m
    case Done(output) => (Gone, Some(output))
    case Future(_) | Gone => (m, None)
  }

  /** `poll`: drive the wrapper once. A `Future` polls its inner future in
      place; completion caches the output and reports only `Ready(())`. A
      `Done` wrapper reports `Ready(())` again without change. Polling a
      `Gone` wrapper panics in the source, so it is excluded here. */
  function Poll<F, T>(m: MaybeDone<F, T>, pollInner: F -> (F, Task.Poll<T>))
    : (r: (MaybeDone<F, T>, Task.Poll<()>))
    requires !m.Gone?
    ensures !r.0.Gone?
    ensures r.1.Ready? <==> r.0.Done?
    ensures r.1.Ready? <==> IsTerminated(r.0)
    ensures m.Done? ==> r.0 == m
    ensures r.0.Future? ==> m.Future? && pollInner(m.fut).1.Pending? && r.0.fut == pollInner(m.fut).0
    ensures m.Future? && r.0.Done? ==> pollInner(m.fut).1 == Task.Ready(r.0.output)
    ensures Rank(m) <= Rank(r.0)
  {
    match m
    case Future(a) =>
      var (a', res) := pollInner(a);
      (match res
       case Ready(v) => (Done(v), Task.Ready(()))
       case Pending => (Future(a'), Task.Pending))
    case Done(_) => (m, Task.Ready(()))
  }

  /** `is_terminated` holds exactly when polling cannot depend on the inner
      future any more: every poll answers `Ready(())` and leaves the state as
      it is, whatever the inner future would do. */
  lemma TerminatedIffPollInert<F, T>(m: MaybeDone<F, T>)
    requires !m.Gone?
    ensures IsTerminated(m) <==>
      forall pollInner: F -> (F, Task.Poll<T>) :: Poll(m, pollInner) == (m, Task.Ready(()))
  {
    if !IsTerminated(m) {
      var stall: F -> (F, Task.Poll<T>) := (a: F) => (a, Task.Pending);
      assert Poll(m, stall).1 == Task.Pending;
    }
  }

  /** The read side of `output_mut` sees exactly the value that
      `take_output` would move out, and reading does not consume it. */
  lemma OutputMutAgreesWithTake<F, T>(m: MaybeDone<F, T>)
    ensures OutputMut(m) == TakeOutput(m).1
    ensures OutputMut(m).Some? ==> OutputMut(TakeOutput(m).0).None?
  {
  }

  /** A value written through `output_mut` is the one a later `take_output`
      hands out, and polling in between leaves it alone. */
  lemma WriteThenTake<F, T>(m: MaybeDone<F, T>, v: T, pollInner: F -> (F, Task.Poll<T>))
    requires OutputMut(m).Some?
    ensures TakeOutput(WriteOutput(m, v)) == (Gone, Some(v))
    ensures TakeOutput(Poll(WriteOutput(m, v), pollInner).0) == (Gone, Some(v))
  {
  }
}
