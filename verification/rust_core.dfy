/** The two sum types of Rust's `core` library that the sallyport helpers use:
    `Option` (returned by slice indexing with `get`) and `Result` (the
    success-or-errno value a proxied system call produces). */
module RustCore {

  datatype Option<+T> = None | Some(value: T) {

    /** `Option::unwrap_or`: the carried value, or `default` when there is none. */
    function UnwrapOr(default: T): (r: T)
      ensures Some? ==> r == value
      ensures None? ==> r == default
    {
      match this
      case Some(v) => v
      case None => default
    }
  }

  datatype Result<+T, +E> = Ok(value: T) | Err(error: E)
}
