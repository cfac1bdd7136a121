/**
  The "Run Stata Code" form: the quick-command insertion into the code box, the do-file
  that wraps the user's code in a log, the assembly of the result shown after Stata
  ran, and the removal of the two scratch files.

  The filesystem is a map from path to contents, and how writing the do-file ends is an
  oracle argument (`Files.WriteResult`). Stata itself is an oracle: given the
  filesystem with the do-file written, it reports the process error, its standard
  output and error, the filesystem afterwards, and whether the log file can be read.
 */
module RunStataCode {
  import opened Options
  import opened Text
  import opened Files

  // ---------------------------------------------------------------- quick insert

  /** `prev + (prev ? "\n" : "") + cmd`: a command goes on a new line unless the box is empty. */
  function QuickInsert(prev: string, cmd: string): (r: string)
    ensures prev == "" ==> r == cmd
    ensures prev != "" ==> r == prev + "\n" + cmd
    ensures StartsWith(r, prev) && EndsWith(r, cmd)
  {
    var r := prev + (if prev != "" then "\n" else "") + cmd;
    assert r[..|prev|] == prev;
    assert r[|r| - |cmd|..] == cmd;
    r
  }

  /** The code box after inserting `cmds` one after another into an empty box. */
  function InsertAll(cmds: seq<string>): string
    decreases |cmds|
  {
    if cmds == [] then "" else QuickInsert(InsertAll(cmds[..|cmds| - 1]), cmds[|cmds| - 1])
  }

  /** Inserting non-empty commands into an empty box puts one command on each line. */
  lemma {:induction false} InsertAllJoinsLines(cmds: seq<string>)
    requires forall i :: 0 <= i < |cmds| ==> cmds[i] != ""
    ensures InsertAll(cmds) == Join(cmds, "\n")
    decreases |cmds|
  {
    if |cmds| == 1 {
      assert cmds[..0] == [];
    } else if |cmds| > 1 {
      var init := cmds[..|cmds| - 1];
      InsertAllJoinsLines(init);
      assert init[0] == cmds[0];
      assert InsertAll(init) != "" by {
        JoinNonEmpty(init, "\n");
      }
      assert cmds == init + [cmds[|cmds| - 1]];
      JoinSnoc(init, cmds[|cmds| - 1], "\n");
    }
  }

  // ---------------------------------------------------------------- the generated do-file

  /** The first line of the do-file after its leading empty line. */
  function LogUsingLine(logFile: string): string {
    "log using \"" + logFile + "\", replace text"
  }

  const Trailer: string := "\nlog close\nexit\n"

  /**
    `doFileContent`: an empty line, `log using "<logFile>", replace text`, the user's
    code verbatim, `log close`, `exit`, each on its own line.
   */
  function DoFileContent(code: string, logFile: string): (r: string)
    ensures StartsWith(r, "\n" + LogUsingLine(logFile) + "\n")
    ensures EndsWith(r, Trailer)
    ensures |r| == |"\n" + LogUsingLine(logFile) + "\n"| + |code| + |Trailer|
  {
    var head := "\n" + LogUsingLine(logFile) + "\n";
    var r := head + code + Trailer;
    assert r[..|head|] == head;
    assert r[|r| - |Trailer|..] == Trailer;
    r
  }

  /** The user's code as it stands between the log header and the trailer of a do-file. */
  function ExtractCode(content: string, logFile: string): (code: Option<string>)
  {
    var head := "\n" + LogUsingLine(logFile) + "\n";
    if |content| >= |head| + |Trailer| && StartsWith(content, head) && EndsWith(content, Trailer)
    then Some(content[|head|..|content| - |Trailer|])
    else None
  }

  /** The code is carried verbatim: it can be read back from the do-file unchanged. */
  lemma ExtractDoFileContent(code: string, logFile: string)
    ensures ExtractCode(DoFileContent(code, logFile), logFile) == Some(code)
  {
    var head := "\n" + LogUsingLine(logFile) + "\n";
    var r := DoFileContent(code, logFile);
    assert r == head + code + Trailer;
    assert r[|head|..|r| - |Trailer|] == code;
  }

  /** Different code never yields the same do-file. */
  lemma DoFileContentInjective(code1: string, code2: string, logFile: string)
    requires DoFileContent(code1, logFile) == DoFileContent(code2, logFile)
    ensures code1 == code2
  {
    ExtractDoFileContent(code1, logFile);
    ExtractDoFileContent(code2, logFile);
  }

  // ---------------------------------------------------------------- the result

  /** What reading the log file gives: it is missing, reading it throws, or its contents. */
  datatype LogRead = NoLog | Unreadable | Log(contents: string)

  datatype CodeResult = CodeResult(code: string, output: string, error: Option<string>)

  /**
    The output text: the log's contents when it could be read; otherwise stdout when it
    is non-empty, with `"No output generated"` for a missing log and `"Could not read
    output"` for an unreadable one.
   */
  function OutputText(log: LogRead, stdout: string): (out: string)
    ensures log.Log? ==> out == log.contents
    ensures !log.Log? && stdout != "" ==> out == stdout
    ensures log.NoLog? && stdout == "" ==> out == "No output generated"
    ensures log.Unreadable? && stdout == "" ==> out == "Could not read output"
  {
    match log
    case Log(contents) => contents
    case NoLog => if stdout != "" then stdout else "No output generated"
    case Unreadable => if stdout != "" then stdout else "Could not read output"
  }

  /** Unless a readable log is empty, the output shown is never empty. */
  lemma OutputTextNonEmpty(log: LogRead, stdout: string)
    requires log.Log? ==> log.contents != ""
    ensures OutputText(log, stdout) != ""
  {
  }

  /**
    `error ? error.message : stderr || undefined`: the process error's message wins;
    without one, non-empty stderr; otherwise no error at all.
   */
  function ErrorText(error: Option<string>, stderr: string): (e: Option<string>)
    ensures error.Some? ==> e == error
    ensures error.None? ==> (e.Some? <==> stderr != "")
    ensures e.Some? && error.None? ==> e.value == stderr
  {
    match error
    case Some(message) => Some(message)
    case None => if stderr != "" then Some(stderr) else None
  }

  /**
    The fall-backs only fill gaps: a readable log hides stdout whatever it holds, and a
    process error hides stderr; without either, the result shows no error exactly when
    stderr is empty.
   */
  lemma ResultPrecedence(log: LogRead, stdout1: string, stdout2: string,
                         error: Option<string>, stderr1: string, stderr2: string)
    ensures log.Log? ==> OutputText(log, stdout1) == OutputText(log, stdout2)
    ensures error.Some? ==> ErrorText(error, stderr1) == ErrorText(error, stderr2)
    ensures ErrorText(error, stderr1).None? <==> error.None? && stderr1 == ""
  {
  }

  function AssembleResult(code: string, error: Option<string>, stdout: string, stderr: string, log: LogRead): (r: CodeResult)
    ensures r.code == code
    ensures r.output == OutputText(log, stdout)
    ensures r.error == ErrorText(error, stderr)
  {
    CodeResult(code, OutputText(log, stdout), ErrorText(error, stderr))
  }

  // ---------------------------------------------------------------- cleanup

  /**
    `[tempFile, logFile].forEach(file => { try { unlinkSync(file) } catch {} })`: each
    file is removed when it exists and `removable` allows it; a failure on one does not
    stop the attempt on the next.
   */
  function RemoveAll(fs: map<string, string>, files: seq<string>, removable: string -> bool): (r: map<string, string>)
    ensures r.Keys == fs.Keys - set f | f in files && removable(f)
    ensures forall p :: p in r ==> r[p] == fs[p]
    decreases |files|
  {
    if files == [] then fs
    else
      var f := files[0];
      var fs' := if f in fs && removable(f) then fs - {f} else fs;
      RemoveAll(fs', files[1..], removable)
  }

  // ---------------------------------------------------------------- the whole run

  /** What Stata reports after running the batch do-file. */
  datatype StataReport = StataReport(
    error: Option<string>,
    stdout: string,
    stderr: string,
    after: map<string, string>,
    logReadable: bool)

  /** The log file as the callback finds it in the filesystem Stata left behind. */
  function LogOf(report: StataReport, logFile: string): (log: LogRead)
    ensures log.NoLog? <==> logFile !in report.after
    ensures log.Log? <==> logFile in report.after && report.logReadable
    ensures log.Log? ==> log.contents == report.after[logFile]
  {
    if logFile !in report.after then NoLog
    else if report.logReadable then Log(report.after[logFile])
    else Unreadable
  }

  datatype RunOutcome =
    | LaunchFailed                        // writing the do-file threw: "Failed to run Stata code"
    | Completed(result: CodeResult)

  datatype Run = Run(outcome: RunOutcome, fs: map<string, string>, ranOn: Option<map<string, string>>)

  /**
    `runStataCode`: writes the do-file, lets Stata run on it, assembles the result from
    what it reports, then tries to remove the do-file and the log. When the write
    throws, Stata never runs and no cleanup happens: whatever the write left stays.
   */
  function RunCode(fs: map<string, string>, code: string, tempFile: string, logFile: string,
                   write: WriteResult, stata: map<string, string> -> StataReport,
                   removable: string -> bool): (r: Run)
    ensures !write.Written? ==> r.outcome == LaunchFailed && r.ranOn == None
    ensures !write.Written? ==> forall p :: p != tempFile ==> (p in r.fs <==> p in fs) && (p in r.fs ==> r.fs[p] == fs[p])
    ensures write.NotOpened? ==> r.fs == fs
    ensures write.FailedAfter? ==> tempFile in r.fs && StartsWith(DoFileContent(code, logFile), r.fs[tempFile])
    ensures write.Written? ==> r.outcome.Completed? && r.ranOn == Some(fs[tempFile := DoFileContent(code, logFile)])
    ensures r.outcome.Completed? ==> r.outcome.result.code == code
    ensures r.outcome.Completed? ==>
              var report := stata(r.ranOn.value);
              && r.outcome.result.error == ErrorText(report.error, report.stderr)
              && r.outcome.result.output == OutputText(LogOf(report, logFile), report.stdout)
              && r.fs.Keys == report.after.Keys - set f | f in [tempFile, logFile] && removable(f)
              && forall p :: p in r.fs ==> p in report.after && r.fs[p] == report.after[p]
  {
    var content := DoFileContent(code, logFile);
    if !write.Written? then Run(LaunchFailed, AfterWrite(fs, tempFile, content, write), None)
    else
      var written := fs[tempFile := content];
      var report := stata(written);
      var result := AssembleResult(code, report.error, report.stdout, report.stderr, LogOf(report, logFile));
      Run(Completed(result), RemoveAll(report.after, [tempFile, logFile], removable), Some(written))
  }

  /**
    After a completed run neither scratch file is left when both can be removed, and
    every other file is as Stata left it.
   */
  lemma RunCodeCleansUp(fs: map<string, string>, code: string, tempFile: string, logFile: string,
                        stata: map<string, string> -> StataReport, removable: string -> bool)
    requires removable(tempFile) && removable(logFile)
    ensures var r := RunCode(fs, code, tempFile, logFile, Written, stata, removable);
            && tempFile !in r.fs && logFile !in r.fs
            && forall p :: p in stata(r.ranOn.value).after && p != tempFile && p != logFile ==>
                 p in r.fs && r.fs[p] == stata(r.ranOn.value).after[p]
  {
    var r := RunCode(fs, code, tempFile, logFile, Written, stata, removable);
    assert tempFile in [tempFile, logFile] && logFile in [tempFile, logFile];
  }

  /** A failed removal of the do-file does not keep the log from being removed. */
  lemma RemovalIndependent(fs: map<string, string>, tempFile: string, logFile: string, removable: string -> bool)
    requires !removable(tempFile) && removable(logFile)
    ensures logFile !in RemoveAll(fs, [tempFile, logFile], removable)
    ensures tempFile in fs ==> tempFile in RemoveAll(fs, [tempFile, logFile], removable)
  {
    assert logFile in [tempFile, logFile];
  }
}
