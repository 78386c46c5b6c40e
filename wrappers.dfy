/** Small helper types shared by the other modules. */
module Wrappers {
  /** An optional value: Rust's `Option`, or a C++ pointer that may be null. */
  datatype Option<T> = None | Some(value: T)
  {
    predicate IsSome() { Some? }
  }

  /** The result of a three-way comparison (`std::cmp::Ordering`). */
  datatype Ordering = Less | Equal | Greater
}
