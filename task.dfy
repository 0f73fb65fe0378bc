/** `std::task::Poll`, the answer of `poll_ready` in tower's two-phase
    `Service` interface: `Ready` when a `call` may follow, `Pending` to push
    back. */
module Task {
  datatype Poll<+T> = Ready(value: T) | Pending
}
