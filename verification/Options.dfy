/** A value that may be absent, as a null pointer or a failed lookup is in the kernel code. */
module Options {
  datatype Option<T> = None | Some(value: T)
}
