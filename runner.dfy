/** `run_cmd` (e2b_nvim_test.py:57-98): run one command in the sandbox,
    print its output for the operator (long output elided in the middle) and
    return the combined, untruncated output. */
module Runner {
  import opened Text

  /** What the SDK's `sbx.commands.run` does for one call: it returns a
      result, raises `CommandExitException` for a non-zero exit (its `str`
      is `text`), or raises some other error. An absent `stdout`/`stderr`
      is the empty string, which the script treats the same way. */
  datatype SdkResult =
    | Finished(stdout: string, stderr: string, exitCode: int)
    | ExitError(text: string)
    | SdkError(text: string)

  /** The value `run_cmd` returns, or the exception it lets escape. */
  datatype CmdOutcome = Returned(output: string) | Raised(error: string)

  /** Outputs with more lines than this are elided when printed. */
  const LineLimit: nat := 80

  /** Lines printed from each end of an elided output. */
  const KeptLines: nat := 40

  /** `output.strip().split("\n")`. */
  function OutputLines(output: string): seq<string> {
    Split(Strip(output), '\n')
  }

  const MarkerPrefix: string := "  ... ("
  const MarkerSuffix: string := " lines omitted) ..."

  /** The elision line `f"  ... ({n} lines omitted) ..."`. */
  function Marker(n: nat): string {
    MarkerPrefix + NatToString(n) + MarkerSuffix
  }

  /** The lines printed for a command's combined output: a placeholder for
      blank output, the stripped output whole when it has at most 80 lines,
      otherwise its first 40 lines, a marker framed by blank lines, and its
      last 40 lines. */
  function Display(output: string): seq<string> {
    if Strip(output) == [] then ["  (no output)"]
    else
      var lines := OutputLines(output);
      if |lines| > LineLimit then
        lines[..KeptLines] + ["", Marker(|lines| - LineLimit), ""] + lines[|lines| - KeptLines..]
      else lines
  }

  /** The lines of an elided output that are not printed. */
  function Hidden(output: string): seq<string>
    requires |OutputLines(output)| > LineLimit
  {
    var lines := OutputLines(output);
    lines[KeptLines..|lines| - KeptLines]
  }

  /** The exit-code confirmation printed after the output. */
  function ExitLines(code: int): seq<string> {
    if code != 0 then ["", "  ✘ Exit code: " + IntToString(code)] else ["", "  ✔ Exit code: 0"]
  }

  /** `run_cmd(sbx, cmd, label, allow_fail)` given what the SDK did: returns
      the outcome and the lines printed after the banner. */
  method RunCmd(result: SdkResult, allowFail: bool) returns (outcome: CmdOutcome, shown: seq<string>)
    ensures result.Finished? ==>
              outcome == Returned(result.stdout + result.stderr)
              && shown == Display(result.stdout + result.stderr) + ExitLines(result.exitCode)
    ensures result.ExitError? ==>
              shown == Split("  " + result.text, '\n')
              && outcome == (if allowFail then Returned(result.text) else Raised(result.text))
    ensures result.SdkError? ==> outcome == Raised(result.text) && shown == []
    ensures outcome.Raised? <==> result.SdkError? || (result.ExitError? && !allowFail)
  {
    match result {
      case SdkError(text) =>
        outcome, shown := Raised(text), [];
      case ExitError(text) =>
        shown := Split("  " + text, '\n');
        if !allowFail {
          outcome := Raised(text);
          return;
        }
        outcome := Returned(text);
      case Finished(stdout, stderr, code) =>
        var output := "";
        if stdout != "" {
          output := output + stdout;
        }
        if stderr != "" {
          output := output + stderr;
        }
        assert output == stdout + stderr;
        shown := Display(output) + ExitLines(code);
        outcome := Returned(output);
    }
  }

  /** The placeholder is printed exactly for blank output: a non-blank output
      printed whole starts with a non-space character. */
  lemma DisplayBlank(output: string)
    ensures Display(output) == ["  (no output)"] <==> AllSpace(output)
  {
    StripSpec(output);
    if !AllSpace(output) && |OutputLines(output)| <= LineLimit {
      JoinSplit(Strip(output), '\n');
    }
  }

  /** Output of at most 80 lines is printed whole: the printed lines, joined
      back, are the stripped output. */
  lemma DisplayWhole(output: string)
    requires !AllSpace(output) && |OutputLines(output)| <= LineLimit
    ensures Join(Display(output), '\n') == Strip(output)
  {
    StripSpec(output);
    JoinSplit(Strip(output), '\n');
  }

  /** Output of more than 80 lines prints exactly its first 40 and last 40
      lines around the marker; the lines in between are all that is left out,
      and the count the marker prints is their number. */
  lemma DisplayElided(output: string)
    requires |OutputLines(output)| > LineLimit
    ensures var lines := OutputLines(output);
            var shown := Display(output);
            && |shown| == 2 * KeptLines + 3
            && shown[..KeptLines] == lines[..KeptLines]
            && shown[KeptLines + 3..] == lines[|lines| - KeptLines..]
            && lines == shown[..KeptLines] + Hidden(output) + shown[KeptLines + 3..]
            && shown[KeptLines + 1] == Marker(|Hidden(output)|)
  {
    var lines := OutputLines(output);
    DisplayLong(output);
    Elision(lines, ["", Marker(|lines| - LineLimit), ""]);
  }

  lemma DisplayLong(output: string)
    requires |OutputLines(output)| > LineLimit
    ensures var lines := OutputLines(output);
            Display(output)
            == lines[..KeptLines] + ["", Marker(|lines| - LineLimit), ""] + lines[|lines| - KeptLines..]
  {
    assert Split([], '\n') == [[]];
  }

  /** Keeping the first and last 40 of more than 80 items around a
      three-item marker leaves out exactly the items in between. */
  lemma Elision<T>(xs: seq<T>, marker: seq<T>)
    requires |xs| > LineLimit && |marker| == 3
    ensures var shown := xs[..KeptLines] + marker + xs[|xs| - KeptLines..];
            && |shown| == 2 * KeptLines + 3
            && shown[..KeptLines] == xs[..KeptLines]
            && shown[KeptLines + 3..] == xs[|xs| - KeptLines..]
            && xs == shown[..KeptLines] + xs[KeptLines..|xs| - KeptLines] + shown[KeptLines + 3..]
            && shown[KeptLines + 1] == marker[1]
  {
    var shown := xs[..KeptLines] + marker + xs[|xs| - KeptLines..];
    assert shown[..KeptLines] == xs[..KeptLines];
    assert shown[KeptLines + 3..] == xs[|xs| - KeptLines..];
    assert xs == xs[..KeptLines] + xs[KeptLines..|xs| - KeptLines] + xs[|xs| - KeptLines..];
  }

  /** The number in the marker line reads back as the count it was given. */
  lemma MarkerCount(n: nat)
    ensures var m := Marker(n);
            && |MarkerPrefix| + |MarkerSuffix| < |m|
            && m[..|MarkerPrefix|] == MarkerPrefix
            && m[|m| - |MarkerSuffix|..] == MarkerSuffix
            && var digits := m[|MarkerPrefix|..|m| - |MarkerSuffix|];
               && (forall i :: 0 <= i < |digits| ==> IsDigit(digits[i]))
               && ParseNat(digits) == n
  {
    var m := Marker(n);
    assert m[|MarkerPrefix|..|m| - |MarkerSuffix|] == NatToString(n);
    ParseNatToString(n);
  }
}
