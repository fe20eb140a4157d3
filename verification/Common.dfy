// Result and option values shared by every component.
module Common {

  datatype Option<+T> = None | Some(value: T)

  datatype Result<+T, +E> = Ok(value: T) | Err(error: E)

  datatype Unit = Unit

  function Max(a: int, b: int): int {
    if a < b then b else a
  }
}
