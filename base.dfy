/** Types and constants shared by every part of the redaction program. */
module Base {

  /** Rust's `u8`: an unsigned byte. */
  newtype u8 = x: int | 0 <= x < 256

  /** The fixed length of every array in the program (main.rs:16). */
  const LEN: nat := 2

  /** The byte every field array is filled with before its loop runs (main.rs:17). */
  const NULL: u8 := 0

  datatype Option<T> = None | Some(value: T)

  /** A Rust `Result`; `:-` plays the part of Rust's `?`. */
  datatype Result<T, E> = Ok(value: T) | Err(error: E)
  {
    predicate IsFailure() { Err? }

    function PropagateFailure<U>(): Result<U, E>
      requires Err?
    {
      Err(error)
    }

    function Extract(): T
      requires Ok?
    {
      value
    }
  }
}
