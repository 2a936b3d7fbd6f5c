/** The outcome of an operation that can abort the program with a Rust panic
    (a failed `assert!` or an arithmetic underflow). */
module Panics {
  datatype Result<T> = Ok(value: T) | Panic
}
