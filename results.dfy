/** The error codes the library returns and the result types that carry them. */
module Results {

  /** The errno values iniparser.c returns (allocation failures are not modelled). */
  datatype Errno =
    | EINVAL   // a required argument is missing or empty
    | ENOENT   // ini_cfg_set_value: the key is not in the section
    | EEXIST   // ini_cfg_add_key: the key is already in the section
    | EBADMSG  // a line does not match the grammar, or a key/value line precedes every section

  /** A value, or the error code returned instead of it. */
  datatype Result<+T> = Ok(value: T) | Err(error: Errno)

  /** The status of an operation that returns only an error code: 0 or an errno value. */
  datatype Outcome = Pass | Fail(error: Errno)

  datatype Option<+T> = None | Some(value: T)

  /** The status a Result reports. */
  function StatusOf<T>(r: Result<T>): (st: Outcome)
    ensures st.Pass? <==> r.Ok?
    ensures r.Err? ==> st.error == r.error
  {
    if r.Ok? then Pass else Fail(r.error)
  }
}
