/** Optional values and error-or-value results shared by the scripts' models.
    An `Err` stands for an uncaught Python exception or a `sys.exit` with a
    non-zero code; its text names what was raised. */
module Results {

  datatype Option<+T> = None | Some(value: T)

  datatype Result<+T> = Ok(value: T) | Err(error: string)
}
