/** What every part of the model shares. */
module Basics {
  datatype Option<+T> = None | Some(value: T)

  /** A call either returns or stops the machine. */
  datatype Outcome<+T> = Returned(value: T) | Panicked

  type byte = x: nat | x < 256

  /** The character that ends a C string. */
  const NUL: char := '\0'
}
