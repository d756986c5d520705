/** Failure-compatible result types for the World Magnetic Model. Every `Error`
    constructor stands for an exception the Python implementation raises. */
module Outcomes {

  datatype Option<+T> = None | Some(value: T)

  datatype Error =
    | InvalidType        // TypeError: an argument of the wrong Python type
    | InvalidLatitude    // ValueError: |latitude| > 90
    | InvalidLongitude   // ValueError: |longitude| > 180
    | InvalidFrame       // ValueError: frame is neither NED nor ENU
    | DateOutOfRange     // ValueError/OverflowError from datetime: year outside 1..9999
    | NoCoefficients     // ValueError: a date before 2015
    | NotCofFile         // TypeError: coefficient file name without the ".COF" suffix
    | MissingEpoch       // IndexError: the header line has no tokens
    | BadEpoch           // ValueError: float() rejects the first header token
    | FlatTable          // IndexError: fewer than two data rows make a one-dimensional array
    | IndexOutOfRange    // IndexError: a degree-0 table has no sin/cos slot for m = 1

  datatype Result<+T> = Ok(value: T) | Err(error: Error) {

    predicate IsFailure() {
      Err?
    }

    function PropagateFailure<U>(): Result<U>
      requires Err?
    {
      Err(error)
    }

    function Extract(): T
      requires Ok?
    {
      value
    }
  }
}
