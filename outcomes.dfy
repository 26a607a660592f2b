/** Error and result values shared by the modules of the model.
    Python's exceptions and failed `assert`s become `Err` values. */
module Outcomes {

  /** The ways an operation of the modelled library can fail. */
  datatype Error =
    | WidthMismatch      // two bit-vectors of different widths were combined
    | NonPositiveWidth   // a bit-vector was constructed with width < 1
    | NotCallable        // `self.width(...)`: an int was called like a function
    | IndexOutOfRange    // a bit index at or beyond the width was asked for
    | NegativeShift      // `1 << i` with a negative `i`
    | Unsupported        // the oracle was asked for an operation it does not know

  datatype Result<+T> = Ok(value: T) | Err(error: Error) {
    predicate IsFailure() { Err? }

    function PropagateFailure<U>(): Result<U>
      requires Err?
    {
      Err(error)
    }

    function Extract(): T
      requires Ok?
    {
      value
    }
  }

  datatype Option<+T> = None | Some(value: T)
}
