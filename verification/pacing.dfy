/** Pacing of the probe loop in `probe_tv_switch_on_tcp` (src/main.rs):
    after a probe that does not end the call, the loop sleeps for what is
    left of the timeout, so that a probe failing at once (connection
    refused) does not make the loop spin.

    Time is a natural number of nanoseconds, the resolution of Rust's
    `Duration`; clocks and sleeping are not modelled, only the arithmetic. */
module Pacing {

  const NanosPerMilli: nat := 1_000_000

  /** `Duration::from_millis`: the command-line timeout is in milliseconds. */
  function FromMillis(ms: nat): (ns: nat)
    ensures ns / NanosPerMilli == ms && ns % NanosPerMilli == 0
  {
    ms * NanosPerMilli
  }

  function Max(a: nat, b: nat): nat
  {
    if a < b then b else a
  }

  /** The sleep after a probe that took `elapsed`: the rest of the timeout,
      or nothing once the probe itself used the whole timeout. */
  function SleepAfter(timeout: nat, elapsed: nat): (sleep: nat)
    ensures sleep <= timeout
    ensures elapsed + sleep >= timeout
    ensures elapsed + sleep == Max(elapsed, timeout)
  {
    if elapsed < timeout then timeout - elapsed else 0
  }

  /** Start times of consecutive probes of one call, the first at `t0`, when
      the i-th probe took `elapsed[i]` and was followed by its sleep. */
  function ProbeStarts(t0: nat, timeout: nat, elapsed: seq<nat>): (starts: seq<nat>)
    ensures |starts| == |elapsed| + 1
    ensures starts[0] == t0
    ensures forall i :: 0 <= i < |elapsed| ==> starts[i + 1] == starts[i] + Max(elapsed[i], timeout)
    decreases |elapsed|
  {
    if |elapsed| == 0 then [t0]
    else [t0] + ProbeStarts(t0 + elapsed[0] + SleepAfter(timeout, elapsed[0]), timeout, elapsed[1..])
  }

  lemma MulStep(n: nat, t: nat)
    ensures (n + 1) * t == n * t + t
  {
  }

  lemma MulAssoc(a: nat, b: nat, c: nat)
    ensures a * (b * c) == a * b * c
  {
  }

  /** Poll-period floor: `j - i` probes after the i-th, at least `j - i`
      whole timeouts have passed, however fast the probes fail. */
  lemma {:induction false} PollFloor(t0: nat, timeout: nat, elapsed: seq<nat>, i: nat, j: nat)
    requires i <= j <= |elapsed|
    ensures ProbeStarts(t0, timeout, elapsed)[j] >= ProbeStarts(t0, timeout, elapsed)[i] + (j - i) * timeout
    decreases j - i
  {
    if i < j {
      PollFloor(t0, timeout, elapsed, i, j - 1);
      var starts := ProbeStarts(t0, timeout, elapsed);
      assert starts[j] == starts[j - 1] + Max(elapsed[j - 1], timeout);
      MulStep(j - 1 - i, timeout);
    }
  }

  /** When every probe resolves before the timeout, probes start exactly one
      timeout apart: the period is the timeout itself. */
  lemma {:induction false} FastProbesKeepPeriod(t0: nat, timeout: nat, elapsed: seq<nat>, j: nat)
    requires j <= |elapsed|
    requires forall i :: 0 <= i < |elapsed| ==> elapsed[i] < timeout
    ensures ProbeStarts(t0, timeout, elapsed)[j] == t0 + j * timeout
  {
    if j > 0 {
      FastProbesKeepPeriod(t0, timeout, elapsed, j - 1);
      MulStep(j - 1, timeout);
    }
  }

  /** The floor for the command-line timeout `ms`: `j - i` probes later at
      least `j - i` times `ms` milliseconds have passed. */
  lemma PollFloorMillis(t0: nat, ms: nat, elapsed: seq<nat>, i: nat, j: nat)
    requires i <= j <= |elapsed|
    ensures ProbeStarts(t0, FromMillis(ms), elapsed)[j]
              >= ProbeStarts(t0, FromMillis(ms), elapsed)[i] + (j - i) * ms * NanosPerMilli
  {
    PollFloor(t0, FromMillis(ms), elapsed, i, j);
    MulAssoc(j - i, ms, NanosPerMilli);
  }
}
