/**
 * argparse_to_md: turn the `--help` text of a tool into Markdown lines,
 * one input line at a time, with a flag that says whether the lines belong
 * to an example block.
 */
module ArgparseToMd {
  import opened Text
  import opened Mol2

  // ---------------------------------------------------------------------
  // get_pyfiles
  // ---------------------------------------------------------------------

  /** A directory entry the documentation covers: a Python file that is not private. */
  predicate IsPublicScript(f: string) {
    EndsWith(f, ".py") && !StartsWith(f, "_")
  }

  /** The covered entries of a listing, in listing order. */
  function PyNames(listing: seq<string>): (names: seq<string>)
    ensures |names| <= |listing|
    decreases |listing|
  {
    if listing == [] then []
    else (if IsPublicScript(listing[0]) then [listing[0]] else []) + PyNames(listing[1..])
  }

  lemma {:induction false} PyNamesSnoc(listing: seq<string>, f: string)
    ensures PyNames(listing + [f]) == PyNames(listing) + (if IsPublicScript(f) then [f] else [])
    decreases |listing|
  {
    if listing == [] {
      assert listing + [f] == [f];
      assert [f][1..] == [];
    } else {
      assert (listing + [f])[1..] == listing[1..] + [f];
      PyNamesSnoc(listing[1..], f);
      AppendAssoc(if IsPublicScript(listing[0]) then [listing[0]] else [], PyNames(listing[1..]),
        if IsPublicScript(f) then [f] else []);
    }
  }

  /** A name is covered iff it is listed, ends in ".py" and does not start with '_'. */
  lemma {:induction false} PyNamesMember(listing: seq<string>, f: string)
    ensures f in PyNames(listing) <==> f in listing && EndsWith(f, ".py") && !StartsWith(f, "_")
    decreases |listing|
  {
    if listing != [] {
      PyNamesMember(listing[1..], f);
      assert listing == [listing[0]] + listing[1..];
    }
  }

  /** The loop over `os.listdir(path)`, joining each covered name to the absolute directory path. */
  method GetPyfiles(absPath: string, listing: seq<string>) returns (files: seq<string>)
    ensures files == JoinAll(absPath, PyNames(listing))
  {
    files := [];
    var i := 0;
    while i < |listing|
      invariant 0 <= i <= |listing|
      invariant files == JoinAll(absPath, PyNames(listing[..i]))
    {
      var f := listing[i];
      assert listing[..i + 1] == listing[..i] + [f];
      PyNamesSnoc(listing[..i], f);
      if EndsWith(f, ".py") && !StartsWith(f, "_") {
        JoinAllAppend(absPath, PyNames(listing[..i]), [f]);
        files := files + [JoinPath(absPath, f)];
      } else {
        assert PyNames(listing[..i]) + [] == PyNames(listing[..i]);
      }
      i := i + 1;
    }
    assert listing[..i] == listing;
  }

  // ---------------------------------------------------------------------
  // help_to_md: one line
  // ---------------------------------------------------------------------

  const VersionLine := "-v, --version" + "         show program's version number and exit"
  const HelpLine := "-h, --help" + "            show this help message and exit"
  const ExampleHeading := "\n**Example:**\n\n```"
  const Fence := "```\n"
  const ArgumentsHeading := "\n**Arguments:**\n\n"

  /** The output of one line and the example flag after it. */
  datatype Step = Step(out: seq<string>, example: bool)

  /** `'\n**Usage:**\n\n    %s\n\n' % stripped.split('usage:')[-1]`. */
  function UsageLine(stripped: string): string {
    var pieces := SplitOn(stripped, "usage:");
    "\n**Usage:**\n\n    " + pieces[|pieces| - 1] + "\n\n"
  }

  /** `'`%s`  ' % stripped`. */
  function Code(stripped: string): string {
    "`" + stripped + "`  "
  }

  /** The branches of the loop body for a line whose stripped text is not empty and no example flag is set. */
  function Plain(line: string, stripped: string): string {
    if StartsWith(stripped, "[-") then Code(stripped)
    else if StartsWith(stripped, "usage:") then UsageLine(stripped)
    else if StartsWith(stripped, "optional arguments:") then ArgumentsHeading
    else if StartsWith(stripped, "  --") || StartsWith(stripped, "python") then Code(stripped)
    else if StartsWith(line, "  -") then "- " + Code(stripped)
    else if StartsWith(stripped, "  ") then "     " + Strip(stripped)
    else stripped
  }

  /** One pass of the loop body on a line, with the example flag before it. */
  function Convert(line: string, example: bool): Step {
    var stripped := Strip(line);
    if stripped == "" then Step([], example) else NonBlank(line, stripped, example)
  }

  /** The loop body once the stripped line is known not to be empty: one or two lines come out. */
  function NonBlank(line: string, stripped: string, example: bool): (r: Step)
    ensures 1 <= |r.out| <= 2
  {
    if stripped == VersionLine then Step(["- `-v, --version`  ", "Show program's version number and exit"], example)
    else if stripped == HelpLine then Step(["- `-h, --help`  ", "Show this help message and exit"], example)
    else if StartsWith(stripped, "Example:") then Step([ExampleHeading], true)
    else if example then
      (if StartsWith(stripped, "#") then Step([Fence, stripped], false) else Step([stripped], true))
    else Step([Plain(line, stripped)], false)
  }

  /** A white-space-only line produces nothing and leaves the flag alone; any other line produces one or two lines. */
  lemma ConvertBlank(line: string, example: bool)
    ensures Convert(line, example).out == [] <==> AllSpace(line)
    ensures AllSpace(line) ==> Convert(line, example).example == example
    ensures 1 <= |Convert(line, example).out| <= 2 || AllSpace(line)
  {
  }

  lemma Facts()
    ensures VersionLine[0] == '-' && HelpLine[0] == '-' && "Example:"[0] == 'E'
  {
  }

  /** Two lines come out exactly for the version line, the help line and a '#' line of an example. */
  lemma NonBlankTwoLines(line: string, stripped: string, example: bool)
    ensures |NonBlank(line, stripped, example).out| == 2 <==>
      stripped == VersionLine || stripped == HelpLine || (example && StartsWith(stripped, "#"))
  {
    Facts();
    if StartsWith(stripped, "#") {
      assert stripped[0] == '#';
      assert !StartsWith(stripped, "Example:");
    }
  }

  /** An "Example:" line opens the block: the heading with its opening fence, and the flag is set. */
  lemma NonBlankExample(line: string, stripped: string, example: bool)
    requires StartsWith(stripped, "Example:")
    ensures NonBlank(line, stripped, example) == Step([ExampleHeading], true)
  {
    Facts();
    assert stripped[0] == 'E';
  }

  /**
   * Inside an example block a line is copied stripped; a '#' line first
   * closes the block with a fence and clears the flag, and is still copied.
   */
  lemma NonBlankInExample(line: string, stripped: string)
    requires stripped != VersionLine && stripped != HelpLine && !StartsWith(stripped, "Example:")
    ensures StartsWith(stripped, "#") ==> NonBlank(line, stripped, true) == Step([Fence, stripped], false)
    ensures !StartsWith(stripped, "#") ==> NonBlank(line, stripped, true) == Step([stripped], true)
  {
  }

  /** A usage line becomes the usage heading with the text after its last "usage:". */
  lemma NonBlankUsage(line: string, stripped: string)
    requires StartsWith(stripped, "usage:")
    ensures NonBlank(line, stripped, false).out == [UsageLine(stripped)]
  {
    Facts();
    assert stripped[0] == 'u';
    assert !StartsWith(stripped, "Example:");
  }

  /**
   * The stripped text never starts with a space, so the "  --" test and
   * the re-indent of the last branch never apply: outside an example, a raw
   * line starting with "  -" and not caught earlier becomes a list item.
   */
  lemma StrippedTestsNeverFire(line: string)
    ensures !StartsWith(Strip(line), "  --") && !StartsWith(Strip(line), "  ")
  {
    var stripped := Strip(line);
    if stripped != [] {
      assert !IsSpace(stripped[0]);
      assert IsSpace(' ');
    }
  }

  lemma ConvertOption(line: string)
    requires StartsWith(line, "  -") && Strip(line) != ""
    requires !StartsWith(Strip(line), "[-") && !StartsWith(Strip(line), "usage:")
    requires !StartsWith(Strip(line), "optional arguments:") && !StartsWith(Strip(line), "python")
    ensures Plain(line, Strip(line)) == "- `" + Strip(line) + "`  "
  {
    var stripped := Strip(line);
    StrippedTestsNeverFire(line);
    assert !(StartsWith(stripped, "  --") || StartsWith(stripped, "python"));
    assert Plain(line, stripped) == "- " + Code(stripped);
    assert "- " + ("`" + stripped + "`  ") == "- `" + stripped + "`  ";
  }

  // ---------------------------------------------------------------------
  // help_to_md: the whole text
  // ---------------------------------------------------------------------

  /** The loop over the lines: each line's output after the previous ones, the flag carried along. */
  function Run(lines: seq<string>): Step
    decreases |lines|
  {
    if lines == [] then Step([], false)
    else
      var before := Run(lines[..|lines| - 1]);
      var step := Convert(lines[|lines| - 1], before.example);
      Step(before.out + step.out, step.example)
  }

  /** One more line: its output after the previous ones, converted with the flag they leave. */
  lemma RunStep(lines: seq<string>, i: nat)
    requires i < |lines|
    ensures Run(lines[..i + 1]).out == Run(lines[..i]).out + Convert(lines[i], Run(lines[..i]).example).out
    ensures Run(lines[..i + 1]).example == Convert(lines[i], Run(lines[..i]).example).example
  {
    assert lines[..i + 1][..i] == lines[..i];
  }

  /** The Markdown lines of a help text, with a closing fence when the text ends inside an example. */
  function HelpToMdSpec(s: string): seq<string> {
    var r := Run(SplitOn(s, "\n"));
    r.out + (if r.example then [Fence] else [])
  }

  /** The loop body on one line: its output lines and the new value of `example_section`. */
  method ConvertLine(line: string, exampleSection: bool) returns (out: seq<string>, example: bool)
    ensures Step(out, example) == Convert(line, exampleSection)
  {
    out, example := [], exampleSection;
    var stripped := Strip(line);  // line.lstrip().rstrip()
    if stripped == "" {
      return;
    }
    out, example := NonBlankLine(line, stripped, exampleSection);
  }

  /** The branches of the loop body after the blank-line test. */
  method NonBlankLine(line: string, stripped: string, exampleSection: bool) returns (out: seq<string>, example: bool)
    ensures Step(out, example) == NonBlank(line, stripped, exampleSection)
  {
    out, example := [], exampleSection;
    if stripped == VersionLine {
      out := out + ["- `-v, --version`  "];
      out := out + ["Show program's version number and exit"];
    } else if stripped == HelpLine {
      out := out + ["- `-h, --help`  "];
      out := out + ["Show this help message and exit"];
    } else if StartsWith(stripped, "Example:") {
      example := true;
      out := out + [ExampleHeading];
    } else if example {
      if StartsWith(stripped, "#") {
        out := out + [Fence];
        example := false;
      }
      out := out + [stripped];
    } else {
      var text := PlainLine(line, stripped);
      out := out + [text];
    }
  }

  /** The branches after the example test. */
  method PlainLine(line: string, stripped: string) returns (text: string)
    ensures text == Plain(line, stripped)
  {
    if StartsWith(stripped, "[-") {
      text := Code(stripped);
    } else if StartsWith(stripped, "usage:") {
      var pieces := SplitOn(stripped, "usage:");
      text := "\n**Usage:**\n\n    " + pieces[|pieces| - 1] + "\n\n";
    } else if StartsWith(stripped, "optional arguments:") {
      text := ArgumentsHeading;
    } else if StartsWith(stripped, "  --") || StartsWith(stripped, "python") {
      text := Code(stripped);
    } else if StartsWith(line, "  -") {
      text := "- " + Code(stripped);
    } else {
      text := stripped;
      if StartsWith(text, "  ") {
        text := "     " + Strip(text);
      }
    }
  }

  /** `help_to_md`: the loop over the lines of the help text, then the closing fence if still in an example. */
  method HelpToMd(s: string) returns (outLines: seq<string>)
    ensures outLines == HelpToMdSpec(s)
  {
    var lines := SplitOn(s, "\n");
    outLines := [];
    var exampleSection := false;
    var i := 0;
    while i < |lines|
      invariant 0 <= i <= |lines|
      invariant Run(lines[..i]) == Step(outLines, exampleSection)
    {
      RunStep(lines, i);
      var out, example := ConvertLine(lines[i], exampleSection);
      outLines, exampleSection := outLines + out, example;
      i := i + 1;
    }
    assert lines[..i] == lines;
    if exampleSection {
      outLines := outLines + [Fence];
    }
  }

  /** A text that ends inside an example block ends with a closing fence. */
  lemma EndsWithFence(s: string)
    requires Run(SplitOn(s, "\n")).example
    ensures HelpToMdSpec(s)[|HelpToMdSpec(s)| - 1] == Fence
  {
  }

  /** The output is at most two lines per input line, plus the closing fence. */
  lemma {:induction false} RunLength(lines: seq<string>)
    ensures |Run(lines).out| <= 2 * |lines|
    decreases |lines|
  {
    if lines != [] {
      var before := Run(lines[..|lines| - 1]);
      RunLength(lines[..|lines| - 1]);
      ConvertBlank(lines[|lines| - 1], before.example);
    }
  }
}
