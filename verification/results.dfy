/** Failure-compatible wrappers for the query engine: an optional value and a
    result that is either a value or one of the errors the Python code raises. */
module Results {

  /** An optional value; `None` also stands for Python's falsy "no operator" marker. */
  datatype Option<+T> = None | Some(value: T)

  /** The exceptions the query path can raise. All three are Python `IndexError`s;
      they are told apart here by where they are raised. */
  datatype Error =
      /** `expression[0]` on an empty string (queryer.py lines 110 and 138). */
    | EmptyExpression
      /** `stack.pop()` on an empty list while scanning right to left (line 131). */
    | UnmatchedOpenParen
      /** `cleaned_string[-1]` on an empty string (line 76); never raised, see `JoinIsConcat`. */
    | EmptyJoinBuffer

  /** A value or the error that stopped the computation; usable with `:-`. */
  datatype Result<+T> = Success(value: T) | Failure(error: Error) {

    predicate IsFailure() {
      Failure?
    }

    function PropagateFailure<U>(): Result<U>
      requires Failure?
    {
      Failure(error)
    }

    function Extract(): T
      requires Success?
    {
      value
    }
  }
}
