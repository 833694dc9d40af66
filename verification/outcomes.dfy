/** Failure-carrying values shared by the task model.

    The build script has exactly two ways to fail: an external command exits
    with a non-zero status (invoke raises `UnexpectedExit`), or the working
    directory cannot be changed (`os.chdir` raises `FileNotFoundError`).
 */
module Outcomes {

  /** An optional value, as Python's `None`-or-value arguments. */
  datatype Option<+T> = None | Some(value: T)

  /** The errors a task can propagate to its invoker. */
  datatype Error =
    | CommandFailed(command: string)   // a run command exited non-zero
    | NoSuchDirectory(path: string)    // os.chdir could not enter `path`

  /** The result of running a piece of the script: it completes with a value
      or raises an error, which propagates unchanged. */
  datatype Outcome<+T> = Done(value: T) | Raised(error: Error)
}
