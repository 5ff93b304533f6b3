/** The exceptions raised by the noise generator, and a result type that carries them. */
module Outcomes {

  /** The Java exceptions the modelled code can raise. */
  datatype Exception =
    | IllegalArgument    // IllegalArgumentException, thrown by `power` and `interpolate`
    | IndexOutOfBounds   // ArrayIndexOutOfBoundsException, from reading an axis a corner does not have

  /** Either a value or the exception that ended the computation. */
  datatype Result<T> = Ok(value: T) | Err(error: Exception)
}
