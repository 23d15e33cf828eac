/** Small shared datatypes: an optional value (PHP's `null`-able values)
    and the one exception the storage raises. */
module Base {

  /** A value that may be absent; `None` plays the part of PHP's `null`. */
  datatype Option<+T> = None | Some(value: T)

  /** The only exception `LocalFileStorage` throws itself: a logical path
      that the path pattern rejects ("Incorrect path was given!"). */
  datatype PathError = IncorrectPath(path: string)

  /** Either a value or the path exception. */
  datatype Result<+T> = Ok(value: T) | Err(error: PathError)
}
