/** Optional values and the breaker's failure outcome. */
module Results {

  datatype Option<T> = None | Some(value: T)

  /** The one failure of the breaker: no key length passed the Kasiski test
      (the Ruby code raises at this point). */
  datatype Error = KeyLengthNotFound

  datatype Result<T> = Ok(value: T) | Err(error: Error)
}
