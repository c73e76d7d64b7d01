/** Results shared by the kernel modules: an optional value, and a value or a kernel panic. */
module Outcomes {

  datatype Option<T> = None | Some(value: T)

  /**
   * The outcome of a kernel operation: a value, or `panic(msg)`, after which
   * the kernel halts (the model leaves the state as the panic found it).
   */
  datatype Result<T> = Ok(value: T) | Panic(msg: string)
}
