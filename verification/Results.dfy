/** The negative return codes of the library. */
module Results {
  datatype Error = Param | Transport | Card | Crypto | Auth | Length | Unsupported

  datatype Result<+T> = Ok(value: T) | Err(error: Error)

  datatype Option<+T> = None | Some(value: T)
}
