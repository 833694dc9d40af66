/** `build_raster_command`: the `rsvg-convert` invocation that turns one SVG
    diagram into a PNG at print resolution.

    The output path is the input path with the `.svg` at its END rewritten
    to `.png` (the substitution is anchored); the command is the converter
    name, the size options, the fixed format options, `--output <png>` and
    the input path, joined by single spaces.
 */
module RasterCommand {
  import Text
  import Regex

  const Converter := "rsvg-convert"
  /** Lossless density, in dots per inch. */
  const Dpi: nat := 300
  /** Width of an A4 Word page without margins, 6.3 inches, in tenths of an inch. */
  const PageWidthTenths: nat := 63
  /** The fixed options `--format=png --keep-aspect-ratio --background-color=none`:
      PNG output, aspect ratio kept, transparent background. */
  const OtherOpts := "--format=png" + " " + "--keep-aspect-ratio" + " " + "--background-color=none"

  /** The arguments every raster command starts with, in order; the output
      path and the input path follow them. */
  const PrefixTokens := ["rsvg-convert", "--dpi-x=300", "--width=1890", "--format=png",
                         "--keep-aspect-ratio", "--background-color=none", "--output"]

  /** `int(dpi * width_in)` with the width given in tenths of an inch:
      the pixel count, truncated toward zero. */
  function WidthPx(dpi: nat, widthTenths: nat): (px: nat)
    ensures px * 10 <= dpi * widthTenths < px * 10 + 10
  {
    dpi * widthTenths / 10
  }

  /** The print size: 300 dpi across 6.3 inches is 1890 pixels, and both
      numbers render as their plain decimal digits. */
  lemma PrintSize()
    ensures WidthPx(Dpi, PageWidthTenths) == 1890
    ensures Text.Decimal(Dpi) == "300"
    ensures Text.Decimal(1890) == "1890"
  {
  }

  /** The output path: `re.sub(r'\.svg$', '.png', input_file, 1)`. */
  function OutputPath(input: string): string
  {
    Regex.SubAnchoredOnce(".svg", ".png", input)
  }

  /** `'--dpi-x={} --width={}'.format(dpi, width_px)` for the fixed print size. */
  function SizeOpts(): (opts: string)
    ensures opts == Text.Join(["--dpi-x=300", "--width=1890"], ' ')
  {
    PrintSize();
    "--dpi-x=" + Text.Decimal(Dpi) + " --width=" + Text.Decimal(WidthPx(Dpi, PageWidthTenths))
  }

  /** The command line that converts `input`: read as a list of
      space-separated arguments it is the fixed prefix, the output path and
      the input path. */
  function BuildRasterCommand(input: string): (cmd: string)
    ensures cmd == Text.Join(PrefixTokens + [OutputPath(input), input], ' ')
  {
    var outputOpt := "--output " + OutputPath(input);
    var cmd := Text.Join([Converter, SizeOpts(), OtherOpts, outputOpt, input], ' ');
    CommandAssembled(OutputPath(input), input);
    cmd
  }

  lemma CommandAssembled(output: string, input: string)
    ensures Text.Join([Converter, SizeOpts(), OtherOpts, "--output " + output, input], ' ')
         == Text.Join(PrefixTokens + [output, input], ' ')
  {
    var size := ["--dpi-x=300", "--width=1890"];
    var format := ["--format=png", "--keep-aspect-ratio", "--background-color=none"];
    assert PrefixTokens + [output, input] == [Converter] + size + format + ["--output", output] + [input];
    JoinGroups([Converter], size, format, ["--output", output], [input]);
    JoinThree("--format=png", "--keep-aspect-ratio", "--background-color=none");
    assert Text.Join(["--output", output], ' ') == "--output " + output;
  }

  /** Joining five option groups, each itself a joined token list, joins
      all of their tokens. */
  lemma JoinGroups(a: seq<string>, b: seq<string>, c: seq<string>, d: seq<string>, e: seq<string>)
    requires |a| >= 1 && |b| >= 1 && |c| >= 1 && |d| >= 1 && |e| >= 1
    ensures Text.Join(a + b + c + d + e, ' ')
         == Text.Join([Text.Join(a, ' '), Text.Join(b, ' '), Text.Join(c, ' '), Text.Join(d, ' '), Text.Join(e, ' ')], ' ')
  {
    Text.JoinAppend(a + b + c + d, e, ' ');
    Text.JoinAppend(a + b + c, d, ' ');
    Text.JoinAppend(a + b, c, ' ');
    Text.JoinAppend(a, b, ' ');
    JoinFive(Text.Join(a, ' '), Text.Join(b, ' '), Text.Join(c, ' '), Text.Join(d, ' '), Text.Join(e, ' '));
  }

  lemma JoinThree(a: string, b: string, c: string)
    ensures Text.Join([a, b, c], ' ') == a + " " + b + " " + c
  {
    assert [a, b, c] == [a] + [b, c];
    Text.JoinCons(a, [b, c], ' ');
    Text.JoinPair(b, c, ' ');
  }

  lemma JoinFive(a: string, b: string, c: string, d: string, e: string)
    ensures Text.Join([a, b, c, d, e], ' ') == a + " " + b + " " + c + " " + d + " " + e
  {
    assert [a, b, c, d, e] == [a] + [b, c, d, e];
    assert [b, c, d, e] == [b] + [c, d, e];
    assert [c, d, e] == [c] + [d, e];
    Text.JoinCons(a, [b, c, d, e], ' ');
    Text.JoinCons(b, [c, d, e], ' ');
    Text.JoinCons(c, [d, e], ' ');
    Text.JoinPair(d, e, ' ');
  }

  /** The command starts with the converter and ends with the `--output`
      option and then the input path. */
  lemma CommandLayout(input: string)
    ensures BuildRasterCommand(input)[..|Converter| + 1] == Converter + " "
    ensures Text.EndsWith(BuildRasterCommand(input), " " + "--output" + " " + OutputPath(input) + " " + input)
  {
    var out := OutputPath(input);
    var rest := PrefixTokens[1..] + [out, input];
    assert PrefixTokens + [out, input] == [Converter] + rest;
    JoinStartsWith(Converter, rest);
    PrefixEndsWithOutput();
    JoinEndsWith(Text.Join(PrefixTokens[..6], ' '), "--output", PrefixTokens, out, input);
  }

  /** The fixed prefix ends with the `--output` flag. */
  lemma PrefixEndsWithOutput()
    ensures Text.Join(PrefixTokens, ' ') == Text.Join(PrefixTokens[..6], ' ') + [' '] + "--output"
  {
    assert PrefixTokens == PrefixTokens[..6] + ["--output"];
    Text.JoinAppend(PrefixTokens[..6], ["--output"], ' ');
  }

  lemma JoinStartsWith(first: string, rest: seq<string>)
    requires |rest| >= 1
    ensures Text.Join([first] + rest, ' ')[..|first| + 1] == first + " "
  {
    Text.JoinCons(first, rest, ' ');
  }

  lemma JoinEndsWith(head: string, last: string, prefix: seq<string>, out: string, input: string)
    requires |prefix| >= 1 && Text.Join(prefix, ' ') == head + [' '] + last
    ensures Text.EndsWith(Text.Join(prefix + [out, input], ' '), " " + last + " " + out + " " + input)
  {
    Text.JoinLastTwo(prefix, out, input, ' ');
    TrailingTokens(head, last, out, input);
  }

  /** `head + " " + last + " " + out + " " + input` ends with everything after `head`. */
  lemma TrailingTokens(head: string, last: string, out: string, input: string)
    ensures Text.EndsWith(head + [' '] + last + [' '] + (out + [' '] + input), " " + last + " " + out + " " + input)
  {
    var tail := " " + last + " " + out + " " + input;
    assert head + [' '] + last + [' '] + (out + [' '] + input) == head + tail;
    assert (head + tail)[|head|..] == tail;
  }

  /** `y` is the last `|y|` characters of `p + " " + x + " " + y`. */
  lemma LastTwoAtEnd(p: string, x: string, y: string)
    ensures |p + [' '] + (x + [' '] + y)| == |p| + |x| + |y| + 2
    ensures (p + [' '] + (x + [' '] + y))[|p| + |x| + 2..] == y
  {
    assert p + [' '] + (x + [' '] + y) == p + (" " + x + " " + y);
  }

  /** A path ending in `.svg` has exactly that final suffix rewritten;
      every earlier character is kept. */
  lemma OutputPathOfSvg(input: string)
    requires Text.EndsWith(input, ".svg")
    ensures OutputPath(input) == input[..|input| - 4] + ".png"
  {
    var n := |input|;
    assert Regex.MatchesAt(".svg", input, n - 4);
    forall j: nat | j < n - 4
      ensures !Regex.MatchesAt(".svg", input, j)
    {
      if Regex.MatchesAt(".svg", input, j) {
        Regex.MatchIsUnique(".svg", input, j, n - 4);
      }
    }
    Regex.SubReplacesLeftmostMatch(".svg", ".png", input, n - 4);
    assert input[n..] == [];
  }

  /** `$` also matches before a final newline, so `a.svg\n` becomes `a.png\n`. */
  lemma OutputPathBeforeNewline(input: string)
    requires Text.EndsWith(input, ".svg\n")
    ensures OutputPath(input) == input[..|input| - 5] + ".png\n"
  {
    var n := |input|;
    assert input[n - 5..n - 1] == input[n - 5..][..4];
    assert Regex.MatchesAt(".svg", input, n - 5);
    forall j: nat | j < n - 5
      ensures !Regex.MatchesAt(".svg", input, j)
    {
      if Regex.MatchesAt(".svg", input, j) {
        Regex.MatchIsUnique(".svg", input, j, n - 5);
      }
    }
    Regex.SubReplacesLeftmostMatch(".svg", ".png", input, n - 5);
    assert input[n - 1..] == "\n";
  }

  /** A path without a trailing `.svg` is its own output path. */
  lemma OutputPathOfOther(input: string)
    requires !Text.EndsWith(input, ".svg") && !Text.EndsWith(input, ".svg\n")
    ensures OutputPath(input) == input
  {
    assert forall j: nat :: !Regex.MatchesAt(".svg", input, j);
    Regex.SubWithoutMatch(".svg", ".png", input);
  }

  /** The anchored rewrite replaces the final `.svg`, not the first one. */
  lemma DoubleSuffixExample()
    ensures OutputPath("weird.svg.svg") == "weird.svg.png"
  {
    OutputPathOfSvg("weird.svg.svg");
  }

  /** An inner `.svg` that is not at the end is left alone. */
  lemma InnerSuffixExample()
    ensures OutputPath("notes.svg.txt") == "notes.svg.txt"
  {
    OutputPathOfOther("notes.svg.txt");
  }

  /** The command for `./docs/diagram.svg` writes `./docs/diagram.png`, ends
      with the diagram's own path and sets the width to 1890 pixels. */
  lemma DocsDiagramCommand()
    ensures OutputPath("./docs/diagram.svg") == "./docs/diagram.png"
    ensures Text.EndsWith(BuildRasterCommand("./docs/diagram.svg"),
                          " " + "--output" + " " + "./docs/diagram.png" + " " + "./docs/diagram.svg")
    ensures var args := Text.Split(BuildRasterCommand("./docs/diagram.svg"), ' ');
              |args| == 9 && args[2] == "--width=1890"
  {
    OutputPathOfSvg("./docs/diagram.svg");
    CommandLayout("./docs/diagram.svg");
    CommandTokens("./docs/diagram.svg");
  }

  /** Converting an SVG never writes over its source, and always writes a PNG. */
  lemma OutputDiffersFromInput(input: string)
    requires Text.EndsWith(input, ".svg")
    ensures OutputPath(input) != input
    ensures Text.EndsWith(OutputPath(input), ".png")
  {
    OutputPathOfSvg(input);
    var out := OutputPath(input);
    assert out[|out| - 1] == 'g' && out[|out| - 2] == 'n';
    assert input[|input| - 2] == 'v';
  }

  /** Distinct SVG inputs get distinct PNG outputs. */
  lemma OutputPathInjective(a: string, b: string)
    requires Text.EndsWith(a, ".svg") && Text.EndsWith(b, ".svg")
    requires OutputPath(a) == OutputPath(b)
    ensures a == b
  {
    OutputPathOfSvg(a);
    OutputPathOfSvg(b);
    assert a[..|a| - 4] == OutputPath(a)[..|a| - 4];
    assert b[..|b| - 4] == OutputPath(b)[..|b| - 4];
    assert a == a[..|a| - 4] + ".svg";
    assert b == b[..|b| - 4] + ".svg";
  }

  /** The input path can be read back from the end of its command, so
      distinct inputs give distinct commands. */
  lemma CommandInjective(a: string, b: string)
    requires BuildRasterCommand(a) == BuildRasterCommand(b)
    ensures a == b
  {
    JoinedPathsInjective(PrefixTokens, OutputPath(a), a, OutputPath(b), b);
  }

  /** Two arguments of equal length at the end of a joined list can be told
      apart from the joined string alone. */
  lemma JoinedPathsInjective(prefix: seq<string>, oa: string, a: string, ob: string, b: string)
    requires |prefix| >= 1 && |oa| == |a| && |ob| == |b|
    requires Text.Join(prefix + [oa, a], ' ') == Text.Join(prefix + [ob, b], ' ')
    ensures a == b
  {
    var p := Text.Join(prefix, ' ');
    Text.JoinLastTwo(prefix, oa, a, ' ');
    Text.JoinLastTwo(prefix, ob, b, ' ');
    LastTwoAtEnd(p, oa, a);
    LastTwoAtEnd(p, ob, b);
  }

  lemma PrefixTokensHaveNoSpace()
    ensures forall i :: 0 <= i < |PrefixTokens| ==> ' ' !in PrefixTokens[i]
  {
  }

  /** When the input path holds no space, the command splits into exactly
      the converter, its six fixed arguments, the output path and the input
      path, in that order. */
  lemma CommandTokens(input: string)
    requires ' ' !in input
    ensures Text.Split(BuildRasterCommand(input), ' ') == PrefixTokens + [OutputPath(input), input]
  {
    var out := OutputPath(input);
    if Text.EndsWith(input, ".svg") {
      OutputPathOfSvg(input);
    } else if Text.EndsWith(input, ".svg\n") {
      OutputPathBeforeNewline(input);
    } else {
      OutputPathOfOther(input);
    }
    PrefixTokensHaveNoSpace();
    SplitJoinedPaths(PrefixTokens, out, input);
  }

  lemma SplitJoinedPaths(prefix: seq<string>, out: string, input: string)
    requires forall i :: 0 <= i < |prefix| ==> ' ' !in prefix[i]
    requires ' ' !in out && ' ' !in input
    ensures Text.Split(Text.Join(prefix + [out, input], ' '), ' ') == prefix + [out, input]
  {
    NoSpaceInAppend(prefix, [out, input]);
    Text.SplitJoin(prefix + [out, input], ' ');
  }

  lemma NoSpaceInAppend(a: seq<string>, b: seq<string>)
    requires forall i :: 0 <= i < |a| ==> ' ' !in a[i]
    requires forall i :: 0 <= i < |b| ==> ' ' !in b[i]
    ensures forall i :: 0 <= i < |a + b| ==> ' ' !in (a + b)[i]
  {
  }
}
