/** Outcomes of the reconciliation code: the Python exceptions it can raise,
    a value-or-exception result, and what one feed entry contributes to a
    collection. */
module Outcomes {

  /** The exception classes the modelled code can raise. */
  datatype PyError =
    | IndexError        // a list index out of range
    | ValueError        // int() of a non-numeral, or an unpacking count mismatch
    | TypeError         // str.join over an item that is not a string
    | InvalidOperation  // decimal.Decimal of a malformed numeral

  /** A value, or the exception raised instead of returning it. */
  datatype Result<+T> = Ok(value: T) | Err(error: PyError)

  datatype Option<+T> = None | Some(value: T)

  /** What resolving one feed entry yields: a ledger row, an exclusion
      (the caller skips the entry and keeps scanning), or an exception that
      aborts the whole collection. */
  datatype Classified<+R> = Row(row: R) | Excluded | Failure(error: PyError)

  /** Python's `xs[i]` for a non-negative index: an IndexError past the end. */
  function Index<T>(xs: seq<T>, i: nat): Result<T> {
    if i < |xs| then Ok(xs[i]) else Err(IndexError)
  }
}
