/** The fatal conditions of `nexus::vector`. The container reports each one on
    the error stream and ends the process; here each becomes an explicit
    `Fatal` outcome that carries which check failed. */
module Faults {

  /** Which checked access or removal failed. */
  datatype Fault =
    | IndexOutOfRange(index: nat)  // `at(index)` with `index >= size()`
    | EmptyFront                   // `front()` on an empty vector
    | EmptyBack                    // `back()` on an empty vector
    | EmptyPopBack                 // `pop_back()` on an empty vector

  /** Either the operation's value, or the fault that would have ended the process. */
  datatype Outcome<+R> = Ok(value: R) | Fatal(fault: Fault)
}
