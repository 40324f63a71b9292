/** The sequential meaning of a bounded work-stealing deque: the reference against which the
    step-level Chase-Lev algorithm, the ring-buffer class and the scheduler's queues are stated. */
module Deque {

  datatype Option<+T> = None | Some(value: T)

  datatype Op<T> = PushBottom(task: T) | PopBottom | PopTop

  datatype Result<T> = Accepted | Full | Got(task: T) | Nothing

  /** `op` may answer `r` on the deque `q` (oldest element first), leaving `q'`.
      Push is refused exactly on a full deque and PopBottom answers Nothing exactly on an empty
      one; PopTop yields the oldest element or gives up. */
  ghost predicate Legal<T>(capacity: nat, q: seq<T>, op: Op<T>, r: Result<T>, q': seq<T>) {
    match op
    case PushBottom(x) =>
      if |q| < capacity then r == Accepted && q' == q + [x] else r == Full && q' == q
    case PopBottom =>
      if q == [] then r == Nothing && q' == q else r == Got(q[|q| - 1]) && q' == q[..|q| - 1]
    case PopTop =>
      (r == Nothing && q' == q) || (q != [] && r == Got(q[0]) && q' == q[1..])
  }
}
