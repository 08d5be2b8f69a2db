/** Values shared by the validator, the solver and the legacy helpers. */
module Common {

  datatype Option<+T> = None | Some(value: T)

  /** The Python exceptions that escape from the modelled functions. */
  datatype Exception = ValueError | AttributeError | TypeError

  /** A call either returns a value or raises an exception to its caller. */
  datatype Outcome<+T> = Returned(value: T) | Raised(exc: Exception)

  /** The entries `n`, `k`, `j`, `s` of the `params` dictionary, already converted to integers. */
  datatype Params = Params(n: int, k: int, j: int, s: int)
}
