/**
 * The two shell helpers of the backend: `runAdbCommand` runs `adb <command>`
 * and `runNormalCommand` runs a command line, both through a promisified
 * `exec`. What `exec` produced is an input; the helpers only decide whether
 * the caller gets the trimmed stdout, an exception, or `undefined`.
 */
module AdbExec {
  import opened JsString

  /** What the promisified `exec` gave: its output, or the error it rejected with. */
  datatype ExecResult =
    | Completed(stdout: string, stderr: string)
    | Failed(message: string)   // e.g. "Command failed: adb …" for a non-zero exit

  /** What the awaiting caller observes. */
  datatype CallOutcome =
    | Returned(value: string)
    | ReturnedUndefined
    | Threw(message: string)

  /** The shell command line `runAdbCommand(command)` executes. */
  function AdbCommandLine(command: string): (line: string)
    ensures |line| == |command| + 4 && line[4..] == command
    ensures line[..4] == "adb "
  {
    "adb " + command
  }

  /** The adb arguments that start an app through its launcher activity. */
  function LaunchCommand(id: string, packageName: string): string {
    "-s " + id + " shell monkey -p " + packageName + " -c android.intent.category.LAUNCHER 1"
  }

  /**
   * The error the `try` block raises, if any: exec's own rejection, or an
   * `Error` built from non-empty stderr.
   */
  function CaughtMessage(exec: ExecResult): string
    requires exec.Failed? || exec.stderr != ""
  {
    if exec.Failed? then exec.message else exec.stderr
  }

  /** The messages `runAdbCommand` lets through to its caller. */
  predicate IsRethrown(message: string) {
    Includes(message, "Command failed:") || Includes(message, "does not exist.")
  }

  /** `runAdbCommand` given what `exec` produced for `adb <command>`. */
  function RunAdbCommand(exec: ExecResult): (r: CallOutcome)
    ensures r.Returned? <==> exec.Completed? && exec.stderr == ""
    ensures r.Returned? ==> r.value == Trim(exec.stdout)
    ensures r.Threw? <==> (exec.Failed? || exec.stderr != "") && IsRethrown(CaughtMessage(exec))
    ensures r.Threw? ==> r.message == CaughtMessage(exec)
  {
    if exec.Completed? && exec.stderr == "" then Returned(Trim(exec.stdout))
    else
      var message := CaughtMessage(exec);
      if IsRethrown(message) then Threw(message) else ReturnedUndefined
  }

  /** `runNormalCommand`: it catches everything and never throws. */
  function RunNormalCommand(exec: ExecResult): (r: CallOutcome)
    ensures !r.Threw?
    ensures r.Returned? <==> exec.Completed? && exec.stderr == ""
    ensures r.Returned? ==> r.value == Trim(exec.stdout)
  {
    if exec.Completed? && exec.stderr == "" then Returned(Trim(exec.stdout)) else ReturnedUndefined
  }

  /**
   * A command that printed only to stderr is swallowed unless the message
   * names one of the two phrases: `adb` warnings on stderr make the caller
   * see `undefined`, not the output.
   */
  lemma StderrWithoutPhraseIsSwallowed(stdout: string, stderr: string)
    requires stderr != "" && !IsRethrown(stderr)
    ensures RunAdbCommand(Completed(stdout, stderr)) == ReturnedUndefined
  {
  }

  /** Both helpers agree whenever the command succeeds with empty stderr, and differ only by rethrowing. */
  lemma HelpersAgreeExceptRethrow(exec: ExecResult)
    ensures !RunAdbCommand(exec).Threw? ==> RunAdbCommand(exec) == RunNormalCommand(exec)
    ensures RunAdbCommand(exec).Threw? ==> RunNormalCommand(exec) == ReturnedUndefined
  {
  }
}
