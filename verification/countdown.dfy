/** A concrete inner future for stating multi-step traces: it answers
    `Pending` to its first `pending` polls and `Ready(value)` to the next one.
    `Countdown(0, v)` behaves like `future::ready(v)`. */
module Countdown {
  import Task

  datatype Countdown<T> = Countdown(pending: nat, value: T)

  /** Poll the countdown once. */
  function PollCountdown<T>(c: Countdown<T>): (Countdown<T>, Task.Poll<T>)
  {
    if c.pending == 0 then (c, Task.Ready(c.value))
    else (Countdown(c.pending - 1, c.value), Task.Pending)
  }
}
