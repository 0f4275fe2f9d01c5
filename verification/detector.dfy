/** The power-on edge detector: the loop of `probe_tv_switch_on_tcp` in
    src/main.rs, with the network probe replaced by a finite sequence of
    probe outcomes (`true` = the TCP connect to the TV succeeded in time).

    The only state is `last_alive`. An outcome equal to it changes nothing;
    a different outcome overwrites it; the call returns exactly on a
    false-to-true change. */
module Detector {

  /** How one `tcp_connect` attempt ended: success, or one of a few
      representative errors (the rest, such as an unreachable host or a
      reset, behave the same). `BadAddress` is an address that neither
      parses nor resolves. Every error is collapsed to "not alive" by
      `.is_ok()`. */
  datatype Connect = Connected | Refused | TimedOut | BadAddress

  function Alive(c: Connect): bool
  {
    c.Connected?
  }

  /** The probe outcomes for a sequence of connection attempts. */
  function Outcomes(cs: seq<Connect>): (bs: seq<bool>)
    ensures |bs| == |cs|
    ensures forall i :: 0 <= i < |cs| ==> (bs[i] <==> cs[i] == Connected)
  {
    seq(|cs|, i requires 0 <= i < |cs| => Alive(cs[i]))
  }

  /* ---------------------------------------------------------------------
     Reference definitions: what a power-on edge is, independently of the
     loop that detects it.
     --------------------------------------------------------------------- */

  /** The most recent outcome once the first `n` outcomes of `trace` have
      been seen, or `seed` when none has been seen yet. */
  function StateAfter(seed: bool, trace: seq<bool>, n: nat): bool
    requires n <= |trace|
  {
    if n == 0 then seed else trace[n - 1]
  }

  /** Position `i` of `trace` is a power-on edge: the TV is reachable there
      and was not at the previous probe (or in `seed`, for `i == 0`). */
  predicate IsEdge(seed: bool, trace: seq<bool>, i: int)
  {
    0 <= i < |trace| && !StateAfter(seed, trace, i) && trace[i]
  }

  /** The power-on edges among the first `n` positions, in increasing order. */
  function EdgesBelow(seed: bool, trace: seq<bool>, n: nat): seq<nat>
    requires n <= |trace|
  {
    if n == 0 then []
    else EdgesBelow(seed, trace, n - 1) + (if IsEdge(seed, trace, n - 1) then [n - 1] else [])
  }

  /** All power-on edges of `trace` seen from `seed`. */
  function Edges(seed: bool, trace: seq<bool>): seq<nat>
  {
    EdgesBelow(seed, trace, |trace|)
  }

  /** Number of adjacent false-then-true pairs in a sequence of outcomes. */
  function CountRises(s: seq<bool>): nat
    decreases |s|
  {
    if |s| < 2 then 0
    else (if !s[0] && s[1] then 1 else 0) + CountRises(s[1..])
  }

  /* ---------------------------------------------------------------------
     The loop as written.
     --------------------------------------------------------------------- */

  /** What one loop iteration leaves behind: the new `last_alive`, and
      whether the loop returns. */
  datatype Step = Step(last: bool, fire: bool)

  /** One iteration of the probe loop: outcome `alive` observed while
      `last_alive` holds `last`. */
  function Observe(last: bool, alive: bool): (s: Step)
    ensures s.last == alive
    ensures s.fire <==> !last && alive
    ensures alive == last ==> s == Step(last, false)
  {
    if alive != last then
      var isOn := !last;
      Step(alive, isOn)
    else
      Step(last, false)
  }

  /** The result of running `probe_tv_switch_on_tcp` over a finite list of
      outcomes: `consumed` probes were made, `on` says the call returned
      (rather than still looping when the outcomes ran out) and `last` is
      the value left in `last_alive`. */
  datatype Wait = Wait(consumed: nat, on: bool, last: bool)

  /** `probe_tv_switch_on_tcp` with stored state `last` fed `outcomes`.
      It returns at the first power-on edge and nowhere else, and leaves the
      most recent outcome in `last_alive`. */
  function WaitSwitchOn(last: bool, outcomes: seq<bool>): (r: Wait)
    ensures r.consumed <= |outcomes|
    ensures |outcomes| > 0 ==> r.consumed >= 1
    ensures r.last == StateAfter(last, outcomes, r.consumed)
    ensures r.on ==> r.consumed >= 1 && IsEdge(last, outcomes, r.consumed - 1)
    ensures r.on ==> r.last
    ensures !r.on ==> r.consumed == |outcomes|
    ensures forall i :: IsEdge(last, outcomes, i) ==> r.on && r.consumed - 1 <= i
    decreases |outcomes|
  {
    if |outcomes| == 0 then Wait(0, false, last)
    else
      var s := Observe(last, outcomes[0]);
      if s.fire then Wait(1, true, s.last)
      else
        var r := WaitSwitchOn(s.last, outcomes[1..]);
        EdgeShift(last, outcomes);
        Wait(r.consumed + 1, r.on, r.last)
  }

  /** Dropping the first outcome moves every edge one position left, with
      that outcome as the new seed. */
  lemma EdgeShift(seed: bool, trace: seq<bool>)
    requires |trace| > 0
    ensures forall i :: 1 <= i < |trace| ==>
              (IsEdge(seed, trace, i) <==> IsEdge(trace[0], trace[1..], i - 1))
    ensures forall n :: 0 <= n < |trace| ==>
              StateAfter(seed, trace, n + 1) == StateAfter(trace[0], trace[1..], n)
  {
    forall n | 0 <= n < |trace|
      ensures StateAfter(seed, trace, n + 1) == StateAfter(trace[0], trace[1..], n)
    {
      if n > 0 {
        assert trace[1..][n - 1] == trace[n];
      }
    }
  }

  /* ---------------------------------------------------------------------
     Properties.
     --------------------------------------------------------------------- */

  /** An outcome equal to the stored state neither changes it nor makes the
      loop return; a differing one is always recorded. */
  lemma {:induction false} UnchangedOutcomeIsIgnored(last: bool, outcomes: seq<bool>, k: nat)
    requires k < |outcomes|
    requires forall i :: 0 <= i <= k ==> outcomes[i] == last
    ensures WaitSwitchOn(last, outcomes).consumed > k + 1 || !WaitSwitchOn(last, outcomes).on
    ensures WaitSwitchOn(last, outcomes) ==
              (var r := WaitSwitchOn(last, outcomes[k + 1..]); Wait(r.consumed + k + 1, r.on, r.last))
    decreases k
  {
    assert outcomes[0] == last;
    if k == 0 {
      assert outcomes[1..] == outcomes[k + 1..];
    } else {
      var tail := outcomes[1..];
      UnchangedOutcomeIsIgnored(last, tail, k - 1);
      assert tail[k..] == outcomes[k + 1..];
    }
  }

  /** Once a call has returned, `last_alive` is true, so the next call (on
      the outcomes that follow) can only return after a `false` outcome: no
      double trigger for one on-period. */
  lemma NoDoubleFire(last: bool, outcomes: seq<bool>)
    requires WaitSwitchOn(last, outcomes).on
    ensures var first := WaitSwitchOn(last, outcomes);
            var rest := outcomes[first.consumed..];
            var second := WaitSwitchOn(first.last, rest);
            second.on ==> exists k :: 0 <= k < second.consumed - 1 && !rest[k]
  {
    var first := WaitSwitchOn(last, outcomes);
    var rest := outcomes[first.consumed..];
    var second := WaitSwitchOn(first.last, rest);
    if second.on {
      var c := second.consumed;
      assert IsEdge(true, rest, c - 1);
      assert c - 1 > 0;
      assert !rest[c - 2];
    }
  }

  /** Two power-on edges of one trace are always separated by an off outcome. */
  lemma EdgesSeparatedByOff(seed: bool, trace: seq<bool>, i: nat, j: nat)
    requires IsEdge(seed, trace, i) && IsEdge(seed, trace, j) && i < j
    ensures exists k :: i < k < j && !trace[k]
  {
    assert !StateAfter(seed, trace, j);
    assert j - 1 != i;
    assert !trace[j - 1];
  }

  /** With a reachable seed, the first edge needs an earlier off outcome. */
  lemma FirstEdgeAfterOnSeed(trace: seq<bool>, i: nat)
    requires IsEdge(true, trace, i)
    ensures exists k :: 0 <= k < i && !trace[k]
  {
    assert i > 0;
    assert !trace[i - 1];
  }

  /** `EdgesBelow` lists exactly the edges below `n`, strictly increasing. */
  lemma {:induction false} EdgesBelowExact(seed: bool, trace: seq<bool>, n: nat)
    requires n <= |trace|
    ensures forall i :: i in EdgesBelow(seed, trace, n) <==> i < n && IsEdge(seed, trace, i)
    ensures forall a, b :: 0 <= a < b < |EdgesBelow(seed, trace, n)| ==>
              EdgesBelow(seed, trace, n)[a] < EdgesBelow(seed, trace, n)[b]
    ensures forall a :: 0 <= a < |EdgesBelow(seed, trace, n)| ==> EdgesBelow(seed, trace, n)[a] < n
  {
    if n > 0 {
      EdgesBelowExact(seed, trace, n - 1);
    }
  }

  /** Edges found before `a` stay a prefix of those found before `b >= a`. */
  lemma {:induction false} EdgesBelowPrefix(seed: bool, trace: seq<bool>, a: nat, b: nat)
    requires a <= b <= |trace|
    ensures EdgesBelow(seed, trace, a) <= EdgesBelow(seed, trace, b)
    decreases b - a
  {
    if a < b {
      EdgesBelowPrefix(seed, trace, a, b - 1);
    }
  }

  /** A stretch without edges adds nothing to the edge list. */
  lemma {:induction false} EdgesBelowSkip(seed: bool, trace: seq<bool>, a: nat, b: nat)
    requires a <= b <= |trace|
    requires forall i :: a <= i < b ==> !IsEdge(seed, trace, i)
    ensures EdgesBelow(seed, trace, b) == EdgesBelow(seed, trace, a)
    decreases b - a
  {
    if a < b {
      EdgesBelowSkip(seed, trace, a, b - 1);
    }
  }

  /** Looking at the suffix from `pos` with the state reached at `pos` sees
      the same edges and states, shifted by `pos`. */
  lemma SuffixView(seed: bool, trace: seq<bool>, pos: nat)
    requires pos <= |trace|
    ensures forall i :: pos <= i < |trace| ==>
              (IsEdge(seed, trace, i) <==> IsEdge(StateAfter(seed, trace, pos), trace[pos..], i - pos))
    ensures forall m :: 0 <= m <= |trace| - pos ==>
              StateAfter(StateAfter(seed, trace, pos), trace[pos..], m) == StateAfter(seed, trace, pos + m)
  {
    forall m | 0 <= m <= |trace| - pos
      ensures StateAfter(StateAfter(seed, trace, pos), trace[pos..], m) == StateAfter(seed, trace, pos + m)
    {
      if m > 0 {
        assert trace[pos..][m - 1] == trace[pos + m - 1];
      }
    }
  }

  /** One call of `probe_tv_switch_on_tcp` made at position `pos` of a
      trace, with `last_alive` holding the state reached there, returns at
      the next edge of the trace and finds exactly that edge; if it does not
      return, the rest of the trace has no edge. */
  lemma WaitFindsNextEdge(seed: bool, trace: seq<bool>, pos: nat, last: bool, w: Wait)
    requires pos <= |trace|
    requires last == StateAfter(seed, trace, pos)
    requires w == WaitSwitchOn(last, trace[pos..])
    ensures pos + w.consumed <= |trace|
    ensures w.last == StateAfter(seed, trace, pos + w.consumed)
    ensures w.on ==> EdgesBelow(seed, trace, pos + w.consumed)
                       == EdgesBelow(seed, trace, pos) + [pos + w.consumed - 1]
    ensures !w.on ==> pos + w.consumed == |trace|
    ensures !w.on ==> EdgesBelow(seed, trace, |trace|) == EdgesBelow(seed, trace, pos)
  {
    SuffixView(seed, trace, pos);
    if w.on {
      EdgesBelowSkip(seed, trace, pos, pos + w.consumed - 1);
    } else {
      EdgesBelowSkip(seed, trace, pos, |trace|);
    }
  }

  /** Counting rises in a sequence extended at the end. */
  lemma {:induction false} CountRisesSnoc(s: seq<bool>, x: bool)
    requires |s| > 0
    ensures CountRises(s + [x]) == CountRises(s) + (if !s[|s| - 1] && x then 1 else 0)
    decreases |s|
  {
    if |s| == 1 {
      assert (s + [x])[1..] == [x];
    } else {
      CountRisesSnoc(s[1..], x);
      assert (s + [x])[1..] == s[1..] + [x];
    }
  }

  /** The number of edges up to `n` is the number of rises in the seed
      followed by the first `n` outcomes. */
  lemma {:induction false} EdgesBelowCount(seed: bool, trace: seq<bool>, n: nat)
    requires n <= |trace|
    ensures |EdgesBelow(seed, trace, n)| == CountRises([seed] + trace[..n])
  {
    if n > 0 {
      EdgesBelowCount(seed, trace, n - 1);
      var s := [seed] + trace[..n - 1];
      assert [seed] + trace[..n] == s + [trace[n - 1]];
      CountRisesSnoc(s, trace[n - 1]);
      assert s[|s| - 1] == StateAfter(seed, trace, n - 1);
    }
  }

  /** One trigger per rise: the edge count equals the number of false-to-true
      changes in the seed followed by the whole trace. */
  lemma EdgeCount(seed: bool, trace: seq<bool>)
    ensures |Edges(seed, trace)| == CountRises([seed] + trace)
  {
    EdgesBelowCount(seed, trace, |trace|);
    assert trace[..|trace|] == trace;
  }

  /** A trace with no reachable outcome has no edge. */
  lemma {:induction false} NeverAliveNoEdge(seed: bool, trace: seq<bool>, n: nat)
    requires n <= |trace|
    requires forall i :: 0 <= i < |trace| ==> !trace[i]
    ensures EdgesBelow(seed, trace, n) == []
  {
    if n > 0 {
      NeverAliveNoEdge(seed, trace, n - 1);
    }
  }

  /** An address that neither parses nor resolves makes every probe fail,
      so no power-on edge is ever seen: the misconfiguration looks like a TV
      that is off. */
  lemma BadAddressNeverSwitchesOn(first: Connect, rest: seq<Connect>)
    requires first == BadAddress
    requires forall i :: 0 <= i < |rest| ==> rest[i] == BadAddress
    ensures !Alive(first)
    ensures Edges(Alive(first), Outcomes(rest)) == []
  {
    NeverAliveNoEdge(Alive(first), Outcomes(rest), |rest|);
  }

  /** Power-on edges seen through `.is_ok()`: position `i` is an edge
      exactly when the connect there succeeded and the one before it (the
      seed connect for `i == 0`) did not, whatever the error was. */
  lemma ConnectEdges(c0: Connect, cs: seq<Connect>)
    ensures forall i {:trigger i in Edges(Alive(c0), Outcomes(cs))} :: i in Edges(Alive(c0), Outcomes(cs)) <==>
              0 <= i < |cs| && cs[i] == Connected && (if i == 0 then c0 else cs[i - 1]) != Connected
    ensures 0 in Edges(Alive(c0), Outcomes(cs)) <==> 0 < |cs| && cs[0] == Connected && c0 != Connected
  {
    var bs := Outcomes(cs);
    EdgesBelowExact(Alive(c0), bs, |cs|);
    forall i {:trigger i in Edges(Alive(c0), bs)}
      ensures i in Edges(Alive(c0), bs) <==>
                0 <= i < |cs| && cs[i] == Connected && (if i == 0 then c0 else cs[i - 1]) != Connected
    {
      assert i in Edges(Alive(c0), bs) <==> i < |cs| && IsEdge(Alive(c0), bs, i);
      if 0 < i < |cs| {
        assert StateAfter(Alive(c0), bs, i) == bs[i - 1];
        assert bs[i - 1] <==> cs[i - 1] == Connected;
      }
    }
  }

  /** The device flips on and off `n` times. */
  function Flips(n: nat): (s: seq<bool>)
    ensures |s| == 2 * n
  {
    if n == 0 then [] else [true, false] + Flips(n - 1)
  }

  /** Starting off and switching on and off `n` times gives exactly `n`
      triggers: no missed and no extra one. */
  lemma {:induction false} FlipsGiveOneTriggerEach(n: nat)
    ensures CountRises([false] + Flips(n)) == n
    ensures |Edges(false, Flips(n))| == n
  {
    if n > 0 {
      FlipsGiveOneTriggerEach(n - 1);
      var s := [false] + Flips(n);
      assert s[1..] == [true, false] + Flips(n - 1);
      assert s[1..][1..] == [false] + Flips(n - 1);
    }
    EdgeCount(false, Flips(n));
  }
}
