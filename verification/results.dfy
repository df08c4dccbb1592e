/** The two Python exceptions the anonymiser's core can raise, and a result that
    carries either a value or one of them. */
module Results {

  /** `KeyError` is raised by a schema lookup of a missing column name;
      `ValueError` by the file-type dispatch of an unsupported extension. */
  datatype Error =
    | KeyError(key: string)
    | ValueError(message: string)

  datatype Result<+T> = Ok(value: T) | Err(error: Error)
}
