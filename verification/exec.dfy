/** `exec_command` in src/main.rs: run the trigger command once. Spawning
    the process and capturing its output are not modelled; the outcome of
    the run is a parameter, and only the rule that turns it into the
    function's result is kept. */
module Exec {

  /** A process to start: the program and its arguments, in order. */
  datatype Command = Command(program: string, args: seq<string>)

  /** How `command.output()` ended: `RunFailed` is its `Err` (the process
      could not be spawned, or waiting for it or reading its captured
      output failed); otherwise the process exited with a status code or
      was ended by a signal (no code). */
  datatype Spawn = RunFailed | Exited(code: int) | Signalled

  /** `ExitStatus::success`: exit code zero. */
  predicate Success(s: Spawn)
  {
    s == Exited(0)
  }

  /** The result of `exec_command`: `Err` ends `main` through `?`; `Ok`
      says whether a failed run was reported in the log. */
  datatype ExecResult = Ok(reportedFailure: bool) | Err

  /** `Command::new(cmd_args[0])` followed by `arg` for every later element.
      Indexing element 0 panics on an empty vector, hence the precondition. */
  method BuildCommand(argv: seq<string>) returns (c: Command)
    requires |argv| >= 1
    ensures [c.program] + c.args == argv
  {
    c := Command(argv[0], []);
    var n := 1;
    while n < |argv|
      invariant 1 <= n <= |argv|
      invariant c.program == argv[0]
      invariant c.args == argv[1..n]
    {
      c := c.(args := c.args + [argv[n]]);
      n := n + 1;
    }
  }

  /** `exec_command`: build the command from `argv` and run it once; `run`
      stands for what the operating system makes of it. Only an error from
      `output()` is an error; a non-zero exit or a signal is only reported. */
  method ExecCommand(argv: seq<string>, run: Command -> Spawn) returns (c: Command, r: ExecResult)
    requires |argv| >= 1
    ensures [c.program] + c.args == argv
    ensures r.Err? <==> run(c).RunFailed?
    ensures r.Ok? ==> (r.reportedFailure <==> !Success(run(c)))
  {
    c := BuildCommand(argv);
    var outcome := run(c);
    if outcome.RunFailed? {
      return c, Err;
    }
    r := Ok(!Success(outcome));
  }
}
