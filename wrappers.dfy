/** Option and Result values for the operations whose Rust code returns an
    `Option`, fails with `unwrap`/`expect`, or panics on a missing table entry. */
module Wrappers {

  datatype Option<+T> = None | Some(value: T)

  datatype Result<+T, +E> = Ok(value: T) | Err(error: E)
}
