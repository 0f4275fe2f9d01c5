/** The loop of `main` in src/main.rs: seed `last_alive` from one probe,
    then forever wait for a power-on edge and run the trigger command once.

    The probe outcomes after the seed are a finite trace (an observation
    window); when it runs out the model stops where the program would keep
    probing. `spawn(k)` is how the k-th run of the trigger command ends. */
module Driver {
  import opened Detector
  import Argv
  import Exec

  /** One call of `probe_tv_switch_on_tcp` made at position `pos` of the
      trace: it returns at the next edge, or runs to the end of the trace. */
  method AwaitSwitchOn(seed: bool, trace: seq<bool>, pos: nat, last: bool)
    returns (on: bool, next: nat, last': bool)
    requires pos < |trace|
    requires last == StateAfter(seed, trace, pos)
    ensures pos < next <= |trace|
    ensures last' == StateAfter(seed, trace, next)
    ensures on ==> last'
    ensures on ==> EdgesBelow(seed, trace, next) == EdgesBelow(seed, trace, pos) + [next - 1]
    ensures !on ==> next == |trace| && EdgesBelow(seed, trace, next) == EdgesBelow(seed, trace, pos)
  {
    var w := WaitSwitchOn(last, trace[pos..]);
    WaitFindsNextEdge(seed, trace, pos, last, w);
    on, next, last' := w.on, pos + w.consumed, w.last;
  }

  /** The `exec_command(&cmd_args).await?` step for the k-th trigger: `c`
      is the command run and `failed` means the error ends `main`. */
  method Trigger(argv: seq<string>, spawn: nat -> Exec.Spawn, k: nat) returns (c: Exec.Command, failed: bool)
    requires |argv| >= 1
    ensures [c.program] + c.args == argv
    ensures failed <==> spawn(k).RunFailed?
  {
    var outcome := spawn(k);
    var res;
    c, res := Exec.ExecCommand(argv, _ => outcome);
    failed := res.Err?;
  }

  /** `main` after argument parsing. `fired` lists the trace positions at
      which the trigger ran and `cmds` the commands run there, `exited` says
      `main` returned an error, and `last` is the final `last_alive`. */
  method RunMain(ip: string, pkg: string, first: bool, trace: seq<bool>, spawn: nat -> Exec.Spawn)
    returns (fired: seq<nat>, cmds: seq<Exec.Command>, exited: bool, last: bool)
    ensures fired <= Edges(first, trace)
    ensures |cmds| == |fired|
    ensures forall k :: 0 <= k < |cmds| ==>
              [cmds[k].program] + cmds[k].args == Argv.Split(Argv.CmdLine(ip, pkg))
    ensures forall k :: 0 <= k < |cmds| ==> cmds[k].program == "curl"
    ensures |fired| <= CountRises([first] + trace)
    ensures !exited ==> fired == Edges(first, trace)
    ensures !exited ==> |fired| == CountRises([first] + trace)
    ensures !exited ==> last == StateAfter(first, trace, |trace|)
    ensures exited <==> exists k :: 0 <= k < |Edges(first, trace)| && spawn(k).RunFailed?
    ensures exited ==> |fired| >= 1 && spawn(|fired| - 1).RunFailed? && last
    ensures forall k :: 0 <= k < |fired| - 1 ==> !spawn(k).RunFailed?
  {
    var argv := Argv.Split(Argv.CmdLine(ip, pkg));
    Argv.CommandArgv(ip, pkg);
    last := first;
    fired := [];
    cmds := [];
    exited := false;
    var pos := 0;
    EdgeCount(first, trace);
    while pos < |trace|
      invariant pos <= |trace|
      invariant last == StateAfter(first, trace, pos)
      invariant fired == EdgesBelow(first, trace, pos)
      invariant forall k :: 0 <= k < |fired| ==> !spawn(k).RunFailed?
      invariant |cmds| == |fired|
      invariant forall k :: 0 <= k < |cmds| ==> [cmds[k].program] + cmds[k].args == argv
      invariant forall k :: 0 <= k < |cmds| ==> cmds[k].program == "curl"
      decreases |trace| - pos
    {
      var on, next;
      on, next, last := AwaitSwitchOn(first, trace, pos, last);
      pos := next;
      if on {
        fired := fired + [pos - 1];
        var c, failed := Trigger(argv, spawn, |fired| - 1);
        cmds := cmds + [c];
        if failed {
          exited := true;
          EdgesBelowPrefix(first, trace, pos, |trace|);
          return;
        }
      }
    }
    assert fired == Edges(first, trace);
  }
}
