/** Result types shared by the model.

    Go returns `(value, error)` pairs and sometimes panics (a nil dereference,
    an index out of range). The model keeps the three outcomes apart instead
    of forbidding the inputs that lead to a panic. */
module Results {

  datatype Option<+T> = None | Some(value: T)

  /** `Ok` is a nil error, `Err` a returned error with its message, and
      `Panic` a run-time panic that the Go code does not recover from. */
  datatype Result<+T> = Ok(value: T) | Err(msg: string) | Panic(reason: string)

  /** The message of a failed outcome, `""` for `Ok`. */
  function ErrorText<T>(r: Result<T>): string {
    match r
    case Ok(_) => ""
    case Err(m) => m
    case Panic(m) => m
  }

  /** What an external command returned: its standard output and whether it
      exited with an error. */
  datatype ExecResult = ExecResult(output: string, failed: bool)
}
