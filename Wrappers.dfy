// Optional values (a C null pointer or a "no slot found" result) and the
// outcome of a kernel routine that may call panic().
module Wrappers {
  datatype Option<T> = None | Some(value: T)

  /** A routine either returns normally or stops the kernel with a message. */
  datatype Outcome = Done | Panic(msg: string)
}
