/** Optional values and results with an error, used for the fields a
    bibliography entry may lack and for the failure of month parsing. */
module Wrappers {

  /** A field that is present (`Some`) or missing (`None`, pandas' NaN). */
  datatype Option<T> = None | Some(value: T)

  /** A computation that either succeeds or raises an error. */
  datatype Result<T, E> = Ok(value: T) | Err(error: E)
}
