/** Optional values and results with an error side, used for the kernel's
    fatal error paths instead of preconditions that would hide them. */
module Results {

  datatype Option<T> = None | Some(value: T)

  datatype Result<T, E> = Ok(value: T) | Err(error: E)
}
