/** Optional values, and the errors of the store (crates/store/src/error.rs). */
module Outcomes {

  datatype Option<+T> = None | Some(value: T)

  datatype StoreError = InvalidLimit | SchemaDrift(column: string) | NotFound

  datatype Result<+T> = Ok(value: T) | Err(error: StoreError)
}
