/** A value or its absence: the kernel's pointers that may be NULL. */
module Options {
  datatype Option<T> = None | Some(value: T)
}
