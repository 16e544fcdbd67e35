/** Small failure-carrying datatypes shared by the model, and the switch that
    selects between the program as written and its corrected form. */
module Outcomes {

  /** A value that may be absent. */
  datatype Option<+T> = None | Some(value: T)

  /** A value, or the error that stopped the computation. */
  datatype Result<+T, +E> = Ok(value: T) | Err(error: E)

  /** Several operations behave in a way that is evidently unintended. They are
      modelled twice: as the program is written, and as it was evidently meant. */
  datatype Version = AsWritten | Corrected
}
