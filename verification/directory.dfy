/** The `directory` context manager: run a body with the working directory
    changed, and change back afterwards whatever happens.

    The process working directory is a value threaded through the model.
    Entering records it, changes into the target when one is given (which
    fails for a directory that does not exist), and yields a path to the
    body. Leaving changes back to the recorded directory on every exit path,
    after a normal completion as well as after an error raised by the body
    or by the first change of directory; the error then propagates.
 */
module DirectoryScope {
  import opened Outcomes

  /** The directories `os.chdir` can enter. */
  datatype FileSystem = FileSystem(dirs: set<string>)

  /** How a scoped body ends: the working directory it leaves behind and
      its outcome. */
  datatype Exit<T> = Exit(cwd: string, outcome: Outcome<T>)

  /** A scoped body: given the working directory it runs in and the path
      the scope yields, it ends with some working directory and an outcome. */
  type Body<T> = (string, string) -> Exit<T>

  /** `os.chdir(target)`: the new working directory, or the error it raises.
      The empty path never names a directory. */
  function Chdir(fs: FileSystem, target: string): (r: Outcome<string>)
    ensures r.Done? <==> target != "" && target in fs.dirs
    ensures r.Done? ==> r.value == target
    ensures r.Raised? ==> r.error == NoSuchDirectory(target)
  {
    if target != "" && target in fs.dirs then Done(target) else Raised(NoSuchDirectory(target))
  }

  /** `Path(dirname or curdir)`: an absent or empty target yields the
      recorded directory. */
  function Yielded(dirname: Option<string>, curdir: string): string
  {
    if dirname.Some? && dirname.value != "" then dirname.value else curdir
  }

  /** `with directory(dirname) as d: body(d)`, started in working directory
      `cwd`. Whatever the body does to the working directory, the scope ends
      in `cwd`. */
  function Directory<T>(cwd: string, fs: FileSystem, dirname: Option<string>, body: Body<T>): (r: Exit<T>)
    ensures r.cwd == cwd
  {
    var curdir := cwd;
    var entered := if dirname.None? then Done(curdir) else Chdir(fs, dirname.value);
    var outcome :=
      match entered
      case Raised(e) => Raised(e)
      case Done(inside) => body(inside, Yielded(dirname, curdir)).outcome;
    Exit(curdir, outcome)
  }

  /** Without a target the scope changes nothing: the body runs in the
      current directory, is handed that directory, and its outcome, normal
      or failed, is the scope's. */
  lemma NoTargetKeepsDirectory<T>(cwd: string, fs: FileSystem, body: Body<T>)
    ensures Directory(cwd, fs, None, body) == Exit(cwd, body(cwd, cwd).outcome)
  {
  }

  /** With an existing target the body runs inside it and is handed it;
      afterwards the recorded directory is back, and the body's outcome,
      normal or failed, is the scope's. */
  lemma TargetHoldsDuringBody<T>(cwd: string, fs: FileSystem, target: string, body: Body<T>)
    requires target != "" && target in fs.dirs
    ensures Directory(cwd, fs, Some(target), body) == Exit(cwd, body(target, target).outcome)
  {
  }

  /** A target that cannot be entered raises before the body runs, and the
      recorded directory is still restored. */
  lemma UnreachableTargetSkipsBody<T>(cwd: string, fs: FileSystem, target: string, body: Body<T>)
    requires target == "" || target !in fs.dirs
    ensures Directory(cwd, fs, Some(target), body) == Exit(cwd, Raised(NoSuchDirectory(target)))
  {
  }

  /** An error raised by the body, run where the scope put it, propagates
      out of the scope unchanged, after the working directory is restored. */
  lemma BodyErrorPropagates<T>(cwd: string, fs: FileSystem, dirname: Option<string>, body: Body<T>, e: Error)
    requires dirname.Some? ==> dirname.value != "" && dirname.value in fs.dirs
    requires body(if dirname.Some? then dirname.value else cwd, Yielded(dirname, cwd)).outcome == Raised(e)
    ensures Directory(cwd, fs, dirname, body) == Exit(cwd, Raised(e))
  {
  }
}
