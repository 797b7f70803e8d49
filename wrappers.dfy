/** Failure-carrying results: a null pointer becomes `None`, a thrown
    `std::invalid_argument` becomes `InvalidArgument`. */
module Wrappers {

  datatype Option<+T> = None | Some(value: T)

  datatype Result<+T> = Ok(value: T) | InvalidArgument
}
