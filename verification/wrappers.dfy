/** Failure-carrying result types shared by the whole model. */
module Wrappers {

  /** An optional value, the model of Rust's `Option`. */
  datatype Option<+T> = None | Some(value: T)

  /** A recoverable outcome, the model of `Result<T, String>` / `Result<T, Box<dyn Error>>`:
      errors are carried as their message text. */
  datatype Result<+T> = Ok(value: T) | Err(error: string)

  /** The outcome of code that may also abort the thread: `Panicked` stands for a
      `panic!`, a failed `unwrap`, a `todo!()` or an out-of-range slice. */
  datatype Outcome<+T> = Done(value: T) | Failed(error: string) | Panicked(reason: string)
}
