/** The exceptions the quadrature rules can raise, and a result that carries
    either the computed value or the exception that stopped the computation. */
module Errors {

  datatype Error =
    | InvalidSegmentCount  // the rule's own ValueError: n fails its divisibility guard
    | ZeroDivision         // h = (b - a) / n evaluated with n == 0
    | InvalidSampleCount   // np.linspace asked for a negative number of samples
    | IndexOutOfRange      // y[0] read from an empty sample array

  datatype Result<T> = Success(value: T) | Failure(error: Error)
}
