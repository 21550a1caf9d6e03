/** Failure-carrying datatypes shared by every module of the model, and the
    errors the original program raises on its way to a result. */
module Wrappers {

  /** A value that may be absent: the hidden "cases" element before the first
      callback, or a case-count query whose aggregate could not be read. */
  datatype Option<+T> = None | Some(value: T)

  /** Either a value or the error that stopped the computation. */
  datatype Result<+T, +E> = Success(value: T) | Failure(error: E) {

    predicate IsFailure() {
      Failure?
    }

    function PropagateFailure<U>(): Result<U, E>
      requires Failure?
    {
      Failure(error)
    }

    function Extract(): T
      requires Success?
    {
      value
    }
  }

  /** The exceptions the program can raise inside the modelled core. */
  datatype Error =
    | NoCountyName(rawLabel: string)   // re.findall(...)[0] on an empty match list
    | FetchFailed(county: string)      // the case-count query gave no usable sum
    | UnknownCounty(county: string)    // the population lookup returned None
    | ZeroPopulation(county: string)   // cases / population with population == 0
}
