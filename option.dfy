/** Rust's `Option`, for the resource slots that are taken and put back. */
module Optional {
  datatype Option<T> = None | Some(value: T)
}
