/** Failure-carrying results shared by the tree and the hash table.
    A `Failure` stands for the C++ exception the source throws at that point. */
module Outcomes {

  datatype Option<+T> = None | Some(value: T)

  datatype Result<+T, +E> = Ok(value: T) | Failure(error: E)
}
