# btrpa build tasks, modelled in Dafny

The btrpa repository builds its documentation with a handful of `invoke`
tasks in `tasks.py`:

- `puml` renders the PlantUML diagram source to SVG.
- `raster` turns every SVG diagram in `./docs` into a print-size PNG with
  `rsvg-convert`.
- `dg` runs `puml` and then `raster`.
- `doc` runs `pandoc` inside `./docs`, which turns the Markdown document into a
  styled Word file.

Two pieces of logic do the real work:

- `build_raster_command` computes the converter's command line for one SVG
  path. This includes the anchored `\.svg$` → `.png` rewrite of the output
  path and the print width of 300 dpi × 6.3 in = 1890 px.
- The `directory` context manager changes the working directory for the
  duration of a block and always changes it back.

The model is written in six modules:

- `Outcomes`: `Option`, and `Outcome`, a value or a raised `Error`.
- `Text`: suffix test, decimal rendering, `' '.join` and its inverse
  `str.split`.
- `Regex`: Python's `re.sub` for a literal pattern followed by `$`, with
  `count=1` and a replacement without backslashes, which is inserted literally.
- `RasterCommand`: `build_raster_command`.
- `DirectoryScope`: `directory`, as a pure function of the working directory
  and the set of existing directories.
- `Tasks`: the four tasks. An external command is a `Runner`, which maps a
  working directory and a command line to whether the command exits with
  status zero.

The pattern is anchored at the end of the string (`tasks.py:47`), so only a
final `.svg` is rewritten:

- `weird.svg.svg` becomes `weird.svg.png` (`RasterCommand.DoubleSuffixExample`);
- an inner `.svg` is never touched (`RasterCommand.InnerSuffixExample`).

Python's `$` also matches just before a final newline, and the model keeps that
too (`RasterCommand.OutputPathBeforeNewline`).

## Model

| member | source | states |
|---|---|---|
| Regex.FirstMatchFrom | tasks.py:47 | the position the left-to-right search returns is at or after the start and really is a match of the pattern at the end of the string |
| Regex.FirstMatchIsLeftmost | tasks.py:47 | no match exists before the one found, and when none is found there is no match at any later position |
| Regex.SubAnchoredOnce | tasks.py:47 | replacing with a string as long as the pattern keeps the length of the string |
| Regex.SubReplacesLeftmostMatch | tasks.py:47 | with count 1, exactly the leftmost match is replaced and every other character is kept |
| Regex.SubWithoutMatch | tasks.py:47 | a string without a match comes back unchanged |
| Regex.MatchIsUnique | tasks.py:47 | a `$`-anchored literal not ending in a newline matches in at most one place |
| RasterCommand.OutputPathOfSvg | tasks.py:47 | a path ending in `.svg` gets exactly that final `.svg` rewritten to `.png`, all earlier characters kept |
| RasterCommand.OutputPathBeforeNewline | tasks.py:47 | a path ending in `.svg` and a newline gets `.png` and the newline |
| RasterCommand.OutputPathOfOther | tasks.py:47 | any other path is its own output path |
| RasterCommand.DoubleSuffixExample | tasks.py:47 | `weird.svg.svg` becomes `weird.svg.png`: the final suffix is rewritten, not the first occurrence |
| RasterCommand.InnerSuffixExample | tasks.py:47 | `notes.svg.txt` is left alone |
| RasterCommand.OutputDiffersFromInput | tasks.py:47 | converting an SVG never overwrites its source and always writes a `.png` path |
| RasterCommand.OutputPathInjective | tasks.py:47 | distinct SVG paths get distinct PNG paths, so two conversions never write the same file |
| RasterCommand.WidthPx | tasks.py:49-51 | the width is the product of density and width in inches, truncated toward zero |
| RasterCommand.PrintSize | tasks.py:49-52 | 300 dpi across 6.3 in gives 1890 px, and both numbers are written as plain decimal digits |
| Text.DecimalRoundTrip | tasks.py:52 | `'{}'.format(n)` for a natural number is all digits, has no leading zero and reads back as `n` |
| RasterCommand.SizeOpts | tasks.py:52 | the size options are the two arguments `--dpi-x=300` and `--width=1890` separated by one space |
| RasterCommand.BuildRasterCommand | tasks.py:46-56 | the command is the converter, the six fixed options, the output path and the input path, joined by single spaces |
| RasterCommand.CommandLayout | tasks.py:54-55 | the command starts with `rsvg-convert ` and ends with `--output`, the output path and the input path |
| RasterCommand.DocsDiagramCommand | tasks.py:46-56 | `./docs/diagram.svg` is written to `./docs/diagram.png`, and its command ends with `--output ./docs/diagram.png ./docs/diagram.svg`, and its third argument is `--width=1890` |
| RasterCommand.CommandTokens | tasks.py:48-55 | for a path without spaces, splitting the command on spaces gives back exactly the nine arguments in order |
| RasterCommand.CommandInjective | tasks.py:46-56 | distinct input paths give distinct commands |
| Text.SplitJoin | tasks.py:55 | splitting a space-joined list of space-free arguments gives the list back |
| Text.JoinSplit | tasks.py:55 | joining the pieces of a split string gives the string back |
| DirectoryScope.Chdir | tasks.py:21 | changing into an existing directory makes it the working directory; any other target, the empty path included, raises `NoSuchDirectory` for that path |
| DirectoryScope.Directory | tasks.py:10-24 | whatever the body does and however it ends, the scope leaves the working directory it started in |
| DirectoryScope.NoTargetKeepsDirectory | tasks.py:18-24 | without a target the body runs in, and is handed, the current directory, and its outcome is the scope's |
| DirectoryScope.TargetHoldsDuringBody | tasks.py:18-24 | with an existing target the body runs in, and is handed, the target, and its outcome is the scope's |
| DirectoryScope.UnreachableTargetSkipsBody | tasks.py:19-24 | a target that cannot be entered raises before the body runs, and the directory is still restored |
| DirectoryScope.BodyErrorPropagates | tasks.py:19-24 | an error the body raises where it runs propagates unchanged once the directory is restored |
| Tasks.RunCommand | tasks.py:43 | `ctx.run` completes exactly when the command exits zero, and otherwise raises for that command |
| Tasks.RunForEach | tasks.py:38-43 | commands are issued in listing order, one per path; every issued command except possibly the last succeeded; the loop completes exactly when every path was converted successfully, and otherwise raises for the command that failed |
| Tasks.Raster | tasks.py:37-43 | the same as `RunForEach`, with each command built by `build_raster_command` |
| Tasks.Puml | tasks.py:32-34 | `puml` succeeds exactly when the PlantUML command succeeds, and otherwise raises for that command |
| Tasks.DiagramGenerate | tasks.py:59-61 | `dg` runs the PlantUML command first and stops there if it fails; it then issues one conversion per SVG in order, stopping at the first failing command; every command before the last succeeded, it succeeds exactly when every command succeeded, and otherwise raises for the last command, which failed |
| Tasks.DocRunsInDocsDir | tasks.py:64-71 | `doc` leaves the working directory unchanged; it succeeds exactly when `./docs` exists and pandoc succeeds there; otherwise it raises the missing directory or the failed pandoc command |

## Left out

- Running external programs (`ctx.run`, `plantuml`, `rsvg-convert`, `pandoc`) is a `Runner` parameter: the model records which commands run, where, and in what order, and takes each one's exit status from the `Runner`. Its output, its side effects on files and invoke's echoing and hiding options are not modelled. The `Runner` is a pure function, so a command's exit status depends only on the directory and the command line, not on what ran before it (such as `puml` producing the SVGs that `rsvg-convert` reads) or on chance.
- `glob.iglob('./docs/*.svg')`: the listing is an input sequence in whatever order the file system enumerates it. Matching the pattern against real directory contents is not modelled, and neither is a `puml` run adding new SVGs to that listing, which `Tasks.DiagramGenerate` takes as an input.
- `os.getcwd` and `os.chdir` act on an abstract working directory and a set of enterable directories. Relative paths are not resolved against the current directory, so `./docs` is a name and not a location.
- DirectoryScope.Directory: the `os.chdir(curdir)` in `finally` is assumed to succeed. If the directory it returns to had been removed in the meantime, Python would raise there, and that error is not modelled.
- Regex.SubAnchoredOnce: the replacement is inserted literally. Python's escape processing in a replacement string (`\n`, `\g<0>`) is not modelled, because `tasks.py:47` only ever passes `.png`, which has no backslash.
- `Path(dirname or curdir)`: the yielded value is the plain string (`DirectoryScope.Yielded`), without `pathlib` normalisation.
- The `print` calls in `raster` and the `hello` task only write to standard output, so they are not modelled.
- RasterCommand.WidthPx: integers replace the floating-point `int(dpi * width_in)`. The width is taken in tenths of an inch, 63, and the product is truncated. For the values in the code the double product 300 × 6.3 rounds to exactly 1890.0, so the results agree. Other widths whose decimal value has no exact binary form are not covered.
- RasterCommand.CommandTokens: it requires a path without spaces. With a space, `' '.join` still produces the same string, but splitting it no longer recovers the path as one argument. Only the tokenisation statement is restricted. `RasterCommand.BuildRasterCommand` and `RasterCommand.CommandInjective` hold for every path.
- Invoke's task registration and dependency resolution are not modelled. `@task(puml, raster)` is modelled only as the order in which `dg` runs its prerequisites. Invoke's de-duplication of a task requested twice is not modelled.
