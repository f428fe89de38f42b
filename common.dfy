/** Small shared vocabulary: an optional value and the outcome of running an
    external command (a `postfix`, `postqueue` or `cp` invocation). */
module Common {

  datatype Option<+T> = None | Some(value: T)

  /** What `subprocess.run` yields to its caller: either the process ran to
      completion with an exit code and captured standard output, or the call
      raised (timeout, missing binary, ...) and the caller's `except` runs. */
  datatype Outcome = Completed(returncode: int, stdout: string) | Raised {

    /** The process ran and exited with status 0. */
    predicate Succeeded() {
      Completed? && returncode == 0
    }
  }
}
