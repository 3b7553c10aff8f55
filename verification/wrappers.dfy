/** Option and Result, the two sum types the kernel code uses for missing values and errors. */
module Wrappers {

  datatype Option<+T> = None | Some(value: T)

  /** `Result<T, &'static str>`: the ramfs operations report failures as static messages. */
  datatype Result<+T, +E> = Ok(value: T) | Err(error: E)
}
