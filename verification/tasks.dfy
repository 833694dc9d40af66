/** The build tasks: `puml`, `raster`, `dg` and `doc`.

    Every task is a straight sequence of external commands. Running a
    command is abstracted as a `Runner`: given the working directory and the
    command line, it says whether the command exits with status zero. A
    command that exits non-zero raises `CommandFailed` (invoke's
    `UnexpectedExit`), which ends the task and propagates to the invoker.
 */
module Tasks {
  import opened Outcomes
  import RasterCommand
  import DirectoryScope

  /** Whether a command, run in a working directory, exits with status zero. */
  type Runner = (string, string) -> bool

  const PumlCommand := "plantuml -tsvg ./docs/diagrams.puml"
  const DocsDir := "./docs"
  const DocInput := "adding-ds-to-rpa.md"
  const DocOutput := "adding-ds-to-rpa.docx"
  const DocReference := "style-reference.docx"

  /** `'pandoc {} -o {} --toc --reference-docx={}'.format(...)`. */
  function PandocCommand(): string
  {
    "pandoc " + DocInput + " -o " + DocOutput + " --toc --reference-docx=" + DocReference
  }

  /** `ctx.run(cmd)`: completes when the command exits zero, raises otherwise. */
  function RunCommand(run: Runner, cwd: string, cmd: string): (r: Outcome<()>)
    ensures r.Done? <==> run(cwd, cmd)
    ensures r.Raised? ==> r.error == CommandFailed(cmd)
  {
    if run(cwd, cmd) then Done(()) else Raised(CommandFailed(cmd))
  }

  /** The loop of `raster`, for any command builder: for each path, in
      order, build its command and run it. The first command that fails ends
      the loop; the commands after it are never issued. `issued` lists the
      commands run, in order. */
  method RunForEach(build: string -> string, paths: seq<string>, cwd: string, run: Runner)
    returns (issued: seq<string>, outcome: Outcome<()>)
    ensures |issued| <= |paths|
    ensures forall i :: 0 <= i < |issued| ==> issued[i] == build(paths[i])
    ensures forall i :: 0 <= i < |issued| - 1 ==> run(cwd, issued[i])
    ensures outcome.Done? <==> |issued| == |paths| && forall i :: 0 <= i < |issued| ==> run(cwd, issued[i])
    ensures outcome.Raised? ==>
              |issued| >= 1 && !run(cwd, issued[|issued| - 1])
              && outcome.error == CommandFailed(issued[|issued| - 1])
  {
    issued := [];
    var k := 0;
    while k < |paths|
      invariant k <= |paths| && |issued| == k
      invariant forall i :: 0 <= i < k ==> issued[i] == build(paths[i])
      invariant forall i :: 0 <= i < k ==> run(cwd, issued[i])
    {
      var cmd := build(paths[k]);
      issued := issued + [cmd];
      outcome := RunCommand(run, cwd, cmd);
      if outcome.Raised? {
        return;
      }
      k := k + 1;
    }
    outcome := Done(());
  }

  /** `raster`: convert every SVG of the listing, in listing order, with the
      command `build_raster_command` gives it, stopping at the first failure.
      An empty listing runs nothing and succeeds. */
  method Raster(svgPaths: seq<string>, cwd: string, run: Runner) returns (issued: seq<string>, outcome: Outcome<()>)
    ensures |issued| <= |svgPaths|
    ensures forall i :: 0 <= i < |issued| ==> issued[i] == RasterCommand.BuildRasterCommand(svgPaths[i])
    ensures forall i :: 0 <= i < |issued| - 1 ==> run(cwd, issued[i])
    ensures outcome.Done? <==> |issued| == |svgPaths| && forall i :: 0 <= i < |issued| ==> run(cwd, issued[i])
    ensures outcome.Raised? ==>
              |issued| >= 1 && !run(cwd, issued[|issued| - 1])
              && outcome.error == CommandFailed(issued[|issued| - 1])
  {
    issued, outcome := RunForEach(RasterCommand.BuildRasterCommand, svgPaths, cwd, run);
  }

  /** `puml`: render the diagram source to SVG. */
  function Puml(cwd: string, run: Runner): (r: Outcome<()>)
    ensures r.Done? <==> run(cwd, PumlCommand)
    ensures r.Raised? ==> r.error == CommandFailed(PumlCommand)
  {
    RunCommand(run, cwd, PumlCommand)
  }

  /** `dg`: its prerequisites `puml` and then `raster`, and nothing else.
      `svgPaths` is the listing `raster` sees, taken after `puml` has run.
      A failing `puml` stops the task before any conversion, and a failing
      conversion stops it before the next one. */
  method DiagramGenerate(svgPaths: seq<string>, cwd: string, run: Runner) returns (issued: seq<string>, outcome: Outcome<()>)
    ensures 1 <= |issued| <= |svgPaths| + 1 && issued[0] == PumlCommand
    ensures !run(cwd, PumlCommand) ==> issued == [PumlCommand] && outcome == Raised(CommandFailed(PumlCommand))
    ensures forall i :: 1 <= i < |issued| ==> issued[i] == RasterCommand.BuildRasterCommand(svgPaths[i - 1])
    ensures forall i :: 0 <= i < |issued| - 1 ==> run(cwd, issued[i])
    ensures outcome.Done? <==> |issued| == |svgPaths| + 1 && forall i :: 0 <= i < |issued| ==> run(cwd, issued[i])
    ensures outcome.Raised? ==>
              !run(cwd, issued[|issued| - 1]) && outcome.error == CommandFailed(issued[|issued| - 1])
  {
    outcome := Puml(cwd, run);
    if outcome.Raised? {
      return [PumlCommand], outcome;
    }
    var converted;
    converted, outcome := Raster(svgPaths, cwd, run);
    issued := [PumlCommand] + converted;
    assert issued[0] == PumlCommand && run(cwd, PumlCommand);
    assert forall i :: 1 <= i < |issued| ==> issued[i] == converted[i - 1];
    if outcome.Done? {
      assert forall i :: 0 <= i < |issued| ==> run(cwd, issued[i]);
    } else {
      assert issued[|issued| - 1] == converted[|converted| - 1];
      assert !run(cwd, issued[|issued| - 1]);
    }
  }

  /** `doc`: inside `./docs`, convert the Markdown document to Word with the
      reference style. */
  function Doc(cwd: string, fs: DirectoryScope.FileSystem, run: Runner): DirectoryScope.Exit<()>
  {
    DirectoryScope.Directory(cwd, fs, Some(DocsDir),
      (inside: string, _: string) => DirectoryScope.Exit(inside, RunCommand(run, inside, PandocCommand())))
  }

  /** `doc` runs pandoc in `./docs` and leaves the working directory where it
      found it; it succeeds exactly when `./docs` exists and pandoc succeeds
      there. */
  lemma DocRunsInDocsDir(cwd: string, fs: DirectoryScope.FileSystem, run: Runner)
    ensures Doc(cwd, fs, run).cwd == cwd
    ensures Doc(cwd, fs, run).outcome.Done? <==> DocsDir in fs.dirs && run(DocsDir, PandocCommand())
    ensures DocsDir !in fs.dirs ==> Doc(cwd, fs, run).outcome == Raised(NoSuchDirectory(DocsDir))
    ensures DocsDir in fs.dirs && !run(DocsDir, PandocCommand()) ==>
              Doc(cwd, fs, run).outcome == Raised(CommandFailed(PandocCommand()))
  {
    var body := (inside: string, _: string) => DirectoryScope.Exit(inside, RunCommand(run, inside, PandocCommand()));
    if DocsDir in fs.dirs {
      DirectoryScope.TargetHoldsDuringBody(cwd, fs, DocsDir, body);
    } else {
      DirectoryScope.UnreachableTargetSkipsBody(cwd, fs, DocsDir, body);
    }
  }
}
