/**
  Value wrappers shared by the compliance engine: optional values, results that
  carry a Python exception message on failure, and the pass/fail outcome of one
  compliance check.
 */
module Results {

  /** A value that may be absent (a missing key of the certificate document). */
  datatype Option<+T> = None | Some(value: T)

  /** A computation that either yields a value or raises; `error` is `str(e)`. */
  datatype Result<+T> = Ok(value: T) | Err(error: string)

  /** The outcome of one compliance check: it returned, or it raised with a message. */
  datatype CheckResult = Pass | Fail(msg: string)
}
