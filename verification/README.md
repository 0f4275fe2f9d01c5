# mytv power-on detector, modelled in Dafny

`mytv` watches a smart TV on the local network and, each time the TV is
switched on, runs one `curl` command that asks the TV to start an app. The
TV counts as "on" when a TCP connection to its control port 6095 completes
within a timeout. The program keeps one boolean, `last_alive`. It seeds that
boolean from one probe. Then it loops for ever: it waits in
`probe_tv_switch_on_tcp` for a false-to-true change of the probe outcome,
and then runs the trigger command once.

The model has five modules:

- `Detector` (detector.dfy) is the edge detector. `Observe` is one pass of
  the probe loop. `WaitSwitchOn` is the whole loop, folded over a finite
  sequence of probe outcomes. Reference definitions (`StateAfter`, `IsEdge`,
  `Edges`, `CountRises`) say what a power-on edge is, without the loop. The
  lemmas tie the loop to them.
- `Pacing` (pacing.dfy) is the sleep after each probe and the probe start
  times that follow from it.
- `Argv` (argv.dfy) builds the address and command line, and splits the
  command line on single spaces like Rust's `str::split(" ")`. `Join` is the
  partner that puts the pieces back together.
- `Exec` (exec.dfy) is `exec_command`: how the argument vector becomes a
  program and its arguments, and which run outcomes are errors.
- `Driver` (driver.dfy) is the loop of `main`, written as a `while` loop
  over the trace. It counts the triggers, records the command run at each, and stops when a run fails.

The network probe is an oracle. After the seed, probe outcomes are a finite
`seq<bool>` (an observation window). `Detector.Connect` names success and
a few representative errors of one connection attempt; `.is_ok()` turns
every error into `false`. How the k-th run of the trigger command ends is
the parameter `spawn(k)`: `RunFailed` stands for `command.output()`
returning an error, or else the exit status. Time is a natural number of nanoseconds.

Three behaviours are kept exactly as the code has them, although a more
careful design would differ:

- The address is never validated. An address that neither parses nor
  resolves makes every probe fail, so the program waits for ever and never triggers
  (`Detector.BadAddressNeverSwitchesOn`). It does not fail at startup.
- An error from running the trigger command (it cannot be spawned, or
  waiting for it or reading its output fails) ends `main` through `?`. A
  non-zero exit status is only logged.
- There is no multicast wake channel: `mod multicast` is commented out in
  src/main.rs, so the wake listener is not part of the program.

## Model

| member | source | states |
|---|---|---|
| Detector.ConnectEdges | src/main.rs:87-97 | Seen through `.is_ok()`, position i is a power-on edge exactly when the connect there succeeded and the previous one (the seed connect for i = 0) failed, whatever the error; the case i = 0 is also stated on its own. |
| Detector.Observe | src/main.rs:87-97 | After one probe, `last_alive` always holds the new outcome. The loop returns exactly when the old state was false and the outcome is true. An outcome equal to the state changes nothing and does not return. |
| Detector.WaitSwitchOn | src/main.rs:82-106 | The probe loop returns at the first power-on edge of its outcomes and at no other point. On return `last_alive` is true. Otherwise it consumes every outcome. In both cases it leaves the most recent outcome in `last_alive`. |
| Detector.UnchangedOutcomeIsIgnored | src/main.rs:87-90 | A run of outcomes equal to `last_alive` neither returns nor changes the state. The call then behaves as if those outcomes had not been seen, apart from their count. |
| Detector.NoDoubleFire | src/main.rs:90-97 | After a call has returned, the next call on the outcomes that follow returns only after it has seen a false outcome. So one on-period cannot fire twice. |
| Detector.EdgesSeparatedByOff | src/main.rs:54-58 | Between any two power-on edges of a trace there is an off outcome. |
| Detector.FirstEdgeAfterOnSeed | src/main.rs:51-58 | If the seed probe was true, the first trigger needs an earlier false outcome. |
| Detector.WaitFindsNextEdge | src/main.rs:54-58 | A call made part-way through a trace, with the state reached there, returns exactly at the next edge of the whole trace. If it runs to the end, no edge is left in the trace. |
| Detector.EdgeCount | src/main.rs:51-58 | The number of power-on edges equals the number of false-to-true pairs in the seed followed by the trace. |
| Detector.BadAddressNeverSwitchesOn | src/main.rs:108-111 | If the address neither parses nor resolves, every connect fails and no power-on edge is ever seen. |
| Detector.FlipsGiveOneTriggerEach | src/main.rs:54-58 | Starting off and switching on and off n times gives exactly n edges: none missed and none extra. |
| Pacing.FromMillis | src/main.rs:56 | The millisecond timeout becomes a whole number of milliseconds in nanoseconds. |
| Pacing.SleepAfter | src/main.rs:101-104 | The sleep after a probe is at most the timeout. Probe time plus sleep is at least the timeout, and equals the larger of the two. |
| Pacing.ProbeStarts | src/main.rs:84-105 | Consecutive probe starts of one call are exactly max(probe time, timeout) apart. |
| Pacing.PollFloor | src/main.rs:85-104 | j - i probes later, at least (j - i) timeouts have passed, however fast the probes fail. |
| Pacing.PollFloorMillis | src/main.rs:56 | With the timeout taken from the command-line milliseconds through `Duration::from_millis`, j - i probes later at least (j - i) times that many milliseconds have passed. |
| Pacing.FastProbesKeepPeriod | src/main.rs:101-104 | When every probe resolves within the timeout, the probes start exactly one timeout apart. |
| Argv.Split | src/main.rs:49 | Splitting on " " gives at least one piece and no piece contains a space. Joining the pieces with " " gives back the original string. |
| Argv.SplitJoin | src/main.rs:49 | Splitting a join of space-free pieces gives back the pieces. |
| Argv.UrlAddress | src/main.rs:47-48 | The URL carries the address `ip:6095` right after `http://`. |
| Argv.CommandArgv | src/main.rs:47-49 | For any inputs the argument vector has at least three elements: `curl`, then `-v`, then an argument that starts with `http://`. It joins back to the command line. With space-free address and package it is exactly `curl`, `-v` and the URL, and the URL carries `ip:6095`. |
| Exec.BuildCommand | src/main.rs:62-65 | The program followed by the arguments is exactly the argument vector. |
| Exec.ExecCommand | src/main.rs:61-80 | `exec_command` gives Err exactly when `output()` fails. A non-zero exit or a signal still gives Ok and is reported exactly when the run did not succeed. The command run is the argument vector. |
| Driver.AwaitSwitchOn | src/main.rs:56 | One wait inside `main` advances to the next edge and records it, or reaches the end of the trace and records nothing. |
| Driver.Trigger | src/main.rs:57 | The trigger step runs the command built from the argument vector, and ends `main` exactly when that run fails. |
| Driver.RunMain | src/main.rs:42-58 | The trigger runs at a prefix of the power-on edges of the seed followed by the trace, and each time the command run is `curl` with the split of the command line built from the address and package. Without a failed run it runs at all edges, as many times as there are false-to-true pairs. `main` exits exactly when the run for some edge fails, and then it exits at the first such edge. |

## Left out

- The TCP connect and the tokio timeout (src/main.rs:108-111): the probe
  outcome is an input. So the classification of a connect that takes exactly
  the timeout is not modelled.
- Clocks and sleeping: only the arithmetic of the sleep duration is
  modelled. `tokio::time::sleep` may sleep longer than asked, which only
  widens the gaps that `Pacing.PollFloor` bounds from below.
- Pacing across a trigger: after a returning probe there is no sleep.
  The next call's first probe follows as soon as the trigger command has
  finished, so the timeout floor applies only between probes of one call.
- Driver.RunMain: the program runs for ever. The model covers a finite
  window of probe outcomes and stops where the program would go on probing.
- Process spawning and output capture (src/main.rs:61-80): the outcome of a
  run is an input. The log lines and the decoding of stdout and stderr are
  not modelled.
- Logging setup (`init_log`, `init_log2`) and command-line parsing
  (`CmdArgs`): glue over external crates.
- src/multicast.rs: it is not compiled into the program, because
  `mod multicast` is commented out at src/main.rs:27.
