// Optional values and error results used across the model: `Option` stands
// for std::optional and null pointers, `Result` for a value or a thrown
// exception.

module Wrappers {

  datatype Option<+T> = None | Some(value: T)

  datatype Result<+T> = Ok(value: T) | Err(message: string)
}
