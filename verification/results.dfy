/** Outcomes of the statistics core: a value, a Go run-time panic, or an error returned to the caller. */
module Results {

  /** What can go wrong. The first three are run-time panics of the Go program;
      `InvalidSyntax` is the error value `strconv.Atoi` returns. */
  datatype Error =
    | IndexOutOfRange              // slice index outside [0, len)
    | DivideByZero                 // integer `%` by zero
    | MakeLenOutOfRange            // `make([]int, n)` with n < 0
    | InvalidSyntax(text: string)  // the text `strconv.Atoi` could not parse

  /** A value or an error; failure-compatible, so `:-` passes an error on. */
  datatype Result<+T> = Ok(value: T) | Err(error: Error) {
    predicate IsFailure() {
      Err?
    }

    function PropagateFailure<U>(): Result<U>
      requires Err?
    {
      Err(error)
    }

    function Extract(): T
      requires Ok?
    {
      value
    }
  }
}
