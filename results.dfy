/** Outcomes of the storage operations.  The Python code signals a failed
    lookup by raising; the model returns the failure as a value instead. */
module Results {

  /** What went wrong in a storage operation. */
  datatype StoreError =
    | KeyError(key: string)   // a shelve key that is not present
    | NoneRow                 // a SELECT that found no row; the code then subscripts None

  datatype Result<+T> = Ok(value: T) | Err(error: StoreError)
}
