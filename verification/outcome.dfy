/** Outcomes of operations that can fail the way the Python code does: by
    raising an exception instead of returning a value. */
module Outcome {

  datatype Option<T> = None | Some(value: T)

  /** The exceptions the modelled code can raise. */
  datatype Fault =
    | IndexError          // a list index out of range, or `pop` on an empty list
    | UnboundLocalError   // a local variable read before it was ever assigned
    | Failed              // `raise Exception('Failed!')` when the solver finds no model
    | BadInput            // `raise Exception("bad input!")` on an impossible response
    | Unsat               // `raise Exception("Unsat")` when no cut formula model exists
    | AssertionError      // a failed `assert` statement

  datatype Result<T> = Ok(value: T) | Err(fault: Fault)
}
