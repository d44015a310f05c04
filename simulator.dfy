/**
 * main.py's command-line simulator. `NetworkSimulator` holds a node count
 * and the list of infected node ids, patient zero first; `spread` runs a
 * step loop in which each step, with the archetype's probability, infects
 * one node drawn at random from the uninfected ones, until every node is
 * infected or the step counter passes its safety limit.
 *
 * `random.random()` and `random.choice` become inputs: `draws(s)` is the
 * number drawn at step s and `picks(s)` the index the choice takes (reduced
 * modulo the number of candidates). Sleeping and printing are left out;
 * what step s prints after an infection is kept as a Report.
 */
module Spreader {
  import opened Wrappers
  import opened Counting
  import opened Integrity
  import opened Malware

  /** The loop breaks once the step counter exceeds this. */
  const StepLimit: nat := 50

  /**
   * The line printed when step `step` infects `victim`: `count` is
   * `len(self.infected)` right after the append, from which the line's
   * integrity figure is computed (see PrintedIntegrity).
   */
  datatype Report = Report(step: nat, victim: nat, count: nat)

  /** The integrity a report prints: `round((1 - count / nodes) * 100)` with Python's rounding. */
  function PrintedIntegrity(nodes: int, r: Report): (p: int)
    requires nodes > 0
  {
    PercentEven(r.count, nodes)
  }

  /** What a call of `spread` leaves behind: the infected list, the reports printed, the step count. */
  datatype Outcome = Outcome(infected: seq<nat>, reports: seq<Report>, steps: nat)

  /** `x in s` on a list, spelled out as Python's scan of it. */
  predicate Listed(x: int, s: seq<nat>)
    decreases |s|
  {
    s != [] && (s[0] == x || Listed(x, s[1..]))
  }

  lemma {:induction false} ListedIsIn(x: int, s: seq<nat>)
    ensures Listed(x, s) <==> x in s
    decreases |s|
  {
    if s != [] {
      ListedIsIn(x, s[1..]);
      assert s == [s[0]] + s[1..];
    }
  }

  /** `[n for n in range(nodes) if n not in infected]`. */
  function Available(nodes: int, infected: seq<nat>): (a: seq<nat>)
    decreases nodes
  {
    if nodes <= 0 then []
    else Available(nodes - 1, infected) + (if Listed(nodes - 1, infected) then [] else [nodes - 1])
  }

  /** The available nodes are exactly the uninfected nodes of the network. */
  lemma {:induction false} AvailableNodes(nodes: int, infected: seq<nat>)
    ensures forall x: int :: x in Available(nodes, infected) <==> 0 <= x < nodes && x !in infected
    decreases nodes
  {
    if nodes > 0 {
      AvailableNodes(nodes - 1, infected);
      ListedIsIn(nodes - 1, infected);
    }
  }

  /** They come in increasing order, as `range(nodes)` yields them. */
  lemma {:induction false} AvailableSorted(nodes: int, infected: seq<nat>)
    ensures forall i, j :: 0 <= i < j < |Available(nodes, infected)| ==> Available(nodes, infected)[i] < Available(nodes, infected)[j]
    decreases nodes
  {
    if nodes > 0 {
      var init := Available(nodes - 1, infected);
      AvailableSorted(nodes - 1, infected);
      AvailableNodes(nodes - 1, infected);
      assert forall k :: 0 <= k < |init| ==> init[k] in init;
    }
  }

  /**
   * One step's infection attempt: a victim exactly when some node is still
   * available and the draw falls below the probability, and then an
   * uninfected node of the network.
   */
  function Victim(nodes: int, prob: real, draw: real, pick: nat, infected: seq<nat>): (v: Option<nat>)
    ensures v.Some? <==> Available(nodes, infected) != [] && draw < prob
    ensures v.Some? ==> 0 <= v.value < nodes && v.value !in infected
  {
    var available := Available(nodes, infected);
    AvailableNodes(nodes, infected);
    if available != [] && draw < prob then
      assert available[pick % |available|] in available;
      Some(available[pick % |available|])
    else None
  }

  /** An outcome with reports printed earlier put in front of its own. */
  function Prepend(rs: seq<Report>, o: Outcome): (r: Outcome) {
    Outcome(o.infected, rs + o.reports, o.steps)
  }

  lemma PrependNone(o: Outcome)
    ensures Prepend([], o) == o
  {
    assert [] + o.reports == o.reports;
  }

  lemma PrependTwice(a: seq<Report>, b: seq<Report>, o: Outcome)
    ensures Prepend(a, Prepend(b, o)) == Prepend(a + b, o)
  {
    assert a + (b + o.reports) == (a + b) + o.reports;
  }

  /**
   * The loop of `spread` entered with step counter `step` and list
   * `infected`: it runs while fewer than `nodes` nodes are infected, and
   * stops after the step that takes the counter past StepLimit.
   */
  function Loop(nodes: int, prob: real, draws: nat -> real, picks: nat -> nat, infected: seq<nat>, step: nat): (o: Outcome)
    decreases StepLimit - step
  {
    if |infected| >= nodes then Outcome(infected, [], step)
    else
      var v := Victim(nodes, prob, draws(step), picks(step), infected);
      var next := if v.Some? then infected + [v.value] else infected;
      var printed := if v.Some? then [Report(step, v.value, |next|)] else [];
      if step + 1 > StepLimit then Outcome(next, printed, step + 1)
      else Prepend(printed, Loop(nodes, prob, draws, picks, next, step + 1))
  }

  /** The state a simulator keeps: patient zero first, no node twice, every id a node (or 0 on a network without nodes). */
  predicate Healthy(nodes: int, infected: seq<nat>) {
    |infected| > 0 && infected[0] == 0 && Distinct(infected) &&
    forall k :: 0 <= k < |infected| ==> infected[k] == 0 || infected[k] < nodes
  }

  /** A healthy list holds at most max(1, nodes) ids. */
  lemma HealthyBound(nodes: int, infected: seq<nat>)
    requires Healthy(nodes, infected)
    ensures |infected| <= if nodes < 1 then 1 else nodes
  {
    var bound := if nodes < 1 then 1 else nodes;
    var ids: seq<int> := infected;
    assert Below(ids, bound);
    Pigeonhole(ids, bound);
  }

  /** Inside the loop a victim can always be found: `if available` never fails there. */
  lemma AvailableWhileShort(nodes: int, infected: seq<nat>)
    requires Healthy(nodes, infected) && |infected| < nodes
    ensures Available(nodes, infected) != []
  {
    var ids: seq<int> := infected;
    assert Below(ids, nodes);
    Pigeonhole(ids, nodes);
    var x :| 0 <= x < nodes && x !in ids;
    AvailableNodes(nodes, infected);
    assert x in Available(nodes, infected);
  }

  /**
   * The step counter ends at most one past StepLimit (the loop runs at most
   * 51 times), and short of that only because every node is infected.
   */
  lemma {:induction false} LoopSteps(nodes: int, prob: real, draws: nat -> real, picks: nat -> nat, infected: seq<nat>, step: nat)
    requires step <= StepLimit
    ensures step <= Loop(nodes, prob, draws, picks, infected, step).steps <= StepLimit + 1
    ensures Loop(nodes, prob, draws, picks, infected, step).steps <= StepLimit ==> |Loop(nodes, prob, draws, picks, infected, step).infected| >= nodes
    decreases StepLimit - step
  {
    if |infected| < nodes && step + 1 <= StepLimit {
      var v := Victim(nodes, prob, draws(step), picks(step), infected);
      var next := if v.Some? then infected + [v.value] else infected;
      LoopSteps(nodes, prob, draws, picks, next, step + 1);
    }
  }

  /** The victims the reports name, in order. */
  function Victims(rs: seq<Report>): (r: seq<nat>)
    ensures |r| == |rs| && forall k :: 0 <= k < |rs| ==> r[k] == rs[k].victim
  {
    if rs == [] then [] else [rs[0].victim] + Victims(rs[1..])
  }

  lemma {:induction false} VictimsConcat(a: seq<Report>, b: seq<Report>)
    ensures Victims(a + b) == Victims(a) + Victims(b)
    decreases |a|
  {
    if a == [] {
      assert a + b == b;
    } else {
      assert (a + b)[1..] == a[1..] + b;
      VictimsConcat(a[1..], b);
    }
  }

  lemma Associate(a: seq<nat>, b: seq<nat>, c: seq<nat>)
    ensures (a + b) + c == a + (b + c)
  {
  }

  /** One step's growth followed by the growth of the rest of the run is growth by all their victims. */
  lemma GrowsThrough(infected: seq<nat>, printed: seq<Report>, next: seq<nat>, rest: Outcome)
    requires next == infected + Victims(printed)
    requires rest.infected == next + Victims(rest.reports)
    ensures rest.infected == infected + Victims(printed + rest.reports)
  {
    VictimsConcat(printed, rest.reports);
    Associate(infected, Victims(printed), Victims(rest.reports));
  }

  /**
   * The list only grows at its end, by the victims of the reports printed,
   * one node per report.
   */
  lemma {:induction false} LoopGrows(nodes: int, prob: real, draws: nat -> real, picks: nat -> nat, infected: seq<nat>, step: nat)
    requires step <= StepLimit
    ensures Loop(nodes, prob, draws, picks, infected, step).infected ==
      infected + Victims(Loop(nodes, prob, draws, picks, infected, step).reports)
    decreases StepLimit - step
  {
    if |infected| >= nodes {
      assert infected + [] == infected;
    } else {
      var v := Victim(nodes, prob, draws(step), picks(step), infected);
      var next := if v.Some? then infected + [v.value] else infected;
      var printed := if v.Some? then [Report(step, v.value, |next|)] else [];
      assert next == infected + Victims(printed);
      if step + 1 <= StepLimit {
        LoopGrows(nodes, prob, draws, picks, next, step + 1);
        GrowsThrough(infected, printed, next, Loop(nodes, prob, draws, picks, next, step + 1));
      }
    }
  }

  /** Report k counts `base` earlier nodes, k earlier victims and its own, and that count is at most the node count. */
  predicate CountsFrom(rs: seq<Report>, base: int, nodes: int) {
    forall k :: 0 <= k < |rs| ==> rs[k].count == base + k + 1 && rs[k].count <= nodes
  }

  lemma CountsThrough(printed: seq<Report>, rs: seq<Report>, base: int, nodes: int)
    requires |printed| <= 1
    requires printed != [] ==> base < nodes && printed[0].count == base + 1
    requires CountsFrom(rs, base + |printed|, nodes)
    ensures CountsFrom(printed + rs, base, nodes)
  {
    forall k | 0 <= k < |printed + rs|
      ensures (printed + rs)[k].count == base + k + 1 && (printed + rs)[k].count <= nodes
    {
      if k >= |printed| {
        var j := k - |printed|;
        assert (printed + rs)[k] == rs[j];
        assert rs[j].count == base + |printed| + j + 1 && rs[j].count <= nodes;
      }
    }
  }

  /**
   * Report k is printed with the k earlier victims of this run and its own
   * counted, one more than before its victim fell and so at most the node
   * count.
   */
  lemma {:induction false} LoopCounts(nodes: int, prob: real, draws: nat -> real, picks: nat -> nat, infected: seq<nat>, step: nat)
    requires step <= StepLimit
    ensures CountsFrom(Loop(nodes, prob, draws, picks, infected, step).reports, |infected|, nodes)
    decreases StepLimit - step
  {
    if |infected| < nodes {
      var v := Victim(nodes, prob, draws(step), picks(step), infected);
      var next := if v.Some? then infected + [v.value] else infected;
      var printed := if v.Some? then [Report(step, v.value, |next|)] else [];
      LoopStep(nodes, prob, draws, picks, infected, next, printed, step);
      if step + 1 <= StepLimit {
        LoopCounts(nodes, prob, draws, picks, next, step + 1);
        CountsThrough(printed, Loop(nodes, prob, draws, picks, next, step + 1).reports, |infected|, nodes);
      } else {
        CountsThrough(printed, [], |infected|, nodes);
        assert printed + [] == printed;
      }
    }
  }

  /**
   * The integrity every report prints is a percentage, and it never rises
   * from one report to the next.
   */
  lemma ReportedIntegrity(nodes: int, prob: real, draws: nat -> real, picks: nat -> nat, infected: seq<nat>, step: nat)
    requires step <= StepLimit
    ensures forall k :: 0 <= k < |Loop(nodes, prob, draws, picks, infected, step).reports| ==>
      nodes > 0 && 0 <= PrintedIntegrity(nodes, Loop(nodes, prob, draws, picks, infected, step).reports[k]) <= 100
    ensures forall i, j :: 0 <= i < j < |Loop(nodes, prob, draws, picks, infected, step).reports| ==>
      nodes > 0 &&
      PrintedIntegrity(nodes, Loop(nodes, prob, draws, picks, infected, step).reports[j]) <=
      PrintedIntegrity(nodes, Loop(nodes, prob, draws, picks, infected, step).reports[i])
  {
    var rs := Loop(nodes, prob, draws, picks, infected, step).reports;
    LoopCounts(nodes, prob, draws, picks, infected, step);
    forall k | 0 <= k < |rs|
      ensures 0 <= PrintedIntegrity(nodes, rs[k]) <= 100
    {
      PercentBounds(rs[k].count, nodes);
    }
    forall i, j | 0 <= i < j < |rs|
      ensures PrintedIntegrity(nodes, rs[j]) <= PrintedIntegrity(nodes, rs[i])
    {
      PercentAntitone(rs[i].count, rs[j].count, nodes);
    }
  }

  /** The reports were printed at distinct steps from `from` up to (not including) `to`, in order. */
  predicate StepsIn(rs: seq<Report>, from: int, to: int) {
    |rs| <= to - from &&
    (forall k :: 0 <= k < |rs| ==> from <= rs[k].step < to) &&
    (forall i, j :: 0 <= i < j < |rs| ==> rs[i].step < rs[j].step)
  }

  lemma StepsThrough(printed: seq<Report>, rs: seq<Report>, from: int, to: int)
    requires |printed| <= 1
    requires printed != [] ==> printed[0].step == from
    requires StepsIn(rs, from + 1, to)
    ensures StepsIn(printed + rs, from, to)
  {
    var all := printed + rs;
    forall k | |printed| <= k < |all|
      ensures all[k] == rs[k - |printed|]
    {
    }
    assert forall k :: 0 <= k < |all| ==> from <= all[k].step < to;
  }

  /**
   * The steps that print are distinct steps of this run, in order, so at
   * most one node falls per step.
   */
  lemma {:induction false} LoopReportSteps(nodes: int, prob: real, draws: nat -> real, picks: nat -> nat, infected: seq<nat>, step: nat)
    requires step <= StepLimit
    ensures StepsIn(Loop(nodes, prob, draws, picks, infected, step).reports, step, Loop(nodes, prob, draws, picks, infected, step).steps)
    decreases StepLimit - step
  {
    if |infected| < nodes {
      var v := Victim(nodes, prob, draws(step), picks(step), infected);
      var next := if v.Some? then infected + [v.value] else infected;
      var printed := if v.Some? then [Report(step, v.value, |next|)] else [];
      if step + 1 <= StepLimit {
        var rest := Loop(nodes, prob, draws, picks, next, step + 1);
        LoopReportSteps(nodes, prob, draws, picks, next, step + 1);
        StepsThrough(printed, rest.reports, step, rest.steps);
      }
    }
  }

  /** A new victim, a node not yet listed, keeps the list healthy. */
  lemma HealthyAppend(nodes: int, infected: seq<nat>, v: nat)
    requires Healthy(nodes, infected) && v < nodes && v !in infected
    ensures Healthy(nodes, infected + [v])
  {
    var next := infected + [v];
    assert forall k :: 0 <= k < |infected| ==> next[k] == infected[k];
    assert next[|infected|] == v;
  }

  /** The loop keeps the list healthy, so it never outgrows max(1, nodes). */
  lemma {:induction false} LoopHealthy(nodes: int, prob: real, draws: nat -> real, picks: nat -> nat, infected: seq<nat>, step: nat)
    requires step <= StepLimit
    requires Healthy(nodes, infected)
    ensures Healthy(nodes, Loop(nodes, prob, draws, picks, infected, step).infected)
    ensures |Loop(nodes, prob, draws, picks, infected, step).infected| <= if nodes < 1 then 1 else nodes
    decreases StepLimit - step
  {
    if |infected| < nodes {
      var v := Victim(nodes, prob, draws(step), picks(step), infected);
      var next := if v.Some? then infected + [v.value] else infected;
      if v.Some? {
        HealthyAppend(nodes, infected, v.value);
      }
      if step + 1 <= StepLimit {
        LoopHealthy(nodes, prob, draws, picks, next, step + 1);
      } else {
        HealthyBound(nodes, next);
      }
    } else {
      HealthyBound(nodes, infected);
    }
  }

  /**
   * When every draw falls below the probability and the step budget is
   * enough, each step infects one node: the loop ends with the whole
   * network infected, after one step per node that was still clean.
   */
  lemma {:induction false} LoopAllHit(nodes: int, prob: real, draws: nat -> real, picks: nat -> nat, infected: seq<nat>, step: nat)
    requires step <= StepLimit
    requires Healthy(nodes, infected) && |infected| <= nodes
    requires forall s :: draws(s) < prob
    requires step + (nodes - |infected|) <= StepLimit + 1
    ensures |Loop(nodes, prob, draws, picks, infected, step).infected| == nodes
    ensures |Loop(nodes, prob, draws, picks, infected, step).reports| == nodes - |infected|
    ensures Loop(nodes, prob, draws, picks, infected, step).steps == step + (nodes - |infected|)
    decreases StepLimit - step
  {
    if |infected| < nodes {
      AvailableWhileShort(nodes, infected);
      var v := Victim(nodes, prob, draws(step), picks(step), infected);
      assert v.Some?;
      HealthyAppend(nodes, infected, v.value);
      if step + 1 <= StepLimit {
        LoopAllHit(nodes, prob, draws, picks, infected + [v.value], step + 1);
      }
    }
  }

  /**
   * When no draw falls below the probability nothing is infected and
   * nothing printed; on a network not yet fully infected only the safety
   * limit ends the loop, after 51 steps.
   */
  lemma {:induction false} LoopAllMiss(nodes: int, prob: real, draws: nat -> real, picks: nat -> nat, infected: seq<nat>, step: nat)
    requires step <= StepLimit
    requires forall s :: draws(s) >= prob
    ensures Loop(nodes, prob, draws, picks, infected, step).infected == infected
    ensures Loop(nodes, prob, draws, picks, infected, step).reports == []
    ensures Loop(nodes, prob, draws, picks, infected, step).steps == if |infected| < nodes then StepLimit + 1 else step
    decreases StepLimit - step
  {
    if |infected| < nodes && step + 1 <= StepLimit {
      LoopAllMiss(nodes, prob, draws, picks, infected, step + 1);
    }
  }

  /** One pass of the loop body, taken from `before` to `after` with `printed` printed, leaves the rest of the loop to do. */
  lemma LoopStep(nodes: int, prob: real, draws: nat -> real, picks: nat -> nat, before: seq<nat>, after: seq<nat>, printed: seq<Report>, step: nat)
    requires |before| < nodes
    requires Victim(nodes, prob, draws(step), picks(step), before).None? ==> after == before && printed == []
    requires Victim(nodes, prob, draws(step), picks(step), before).Some? ==>
      after == before + [Victim(nodes, prob, draws(step), picks(step), before).value] &&
      printed == [Report(step, Victim(nodes, prob, draws(step), picks(step), before).value, |after|)]
    ensures Loop(nodes, prob, draws, picks, before, step) ==
      if step + 1 > StepLimit then Outcome(after, printed, step + 1)
      else Prepend(printed, Loop(nodes, prob, draws, picks, after, step + 1))
  {
  }

  class NetworkSimulator {
    var nodes: int
    var infected: seq<nat>

    predicate Valid()
      reads this
    {
      Healthy(nodes, infected)
    }

    /** `NetworkSimulator(nodes)`: patient zero, node 0, is the only infected node. */
    constructor(nodes: int := 10)
      ensures Valid() && this.nodes == nodes && infected == [0]
    {
      this.nodes := nodes;
      infected := [0];
    }

    /**
     * One pass of the loop body of `spread` at step `step`, entered with
     * fewer than `nodes` nodes infected: the `if available and
     * random.random() < prob` block appends a victim and prints its line,
     * or does nothing. What is left of the loop afterwards is what was left
     * before, less this pass.
     */
    method Attempt(prob: real, draws: nat -> real, picks: nat -> nat, step: nat) returns (printed: seq<Report>)
      requires |infected| < nodes
      modifies this`infected
      ensures Loop(nodes, prob, draws, picks, old(infected), step) ==
        if step + 1 > StepLimit then Outcome(infected, printed, step + 1)
        else Prepend(printed, Loop(nodes, prob, draws, picks, infected, step + 1))
    {
      var available := Available(nodes, infected);
      printed := [];
      if available != [] && draws(step) < prob {
        var victim := available[picks(step) % |available|];
        infected := infected + [victim];
        printed := [Report(step, victim, |infected|)];
      }
      LoopStep(nodes, prob, draws, picks, old(infected), infected, printed, step);
    }

    /**
     * One pass of the loop of `spread` at step `step`, entered with fewer
     * than `nodes` nodes infected and the run so far's reports: the run is
     * over when the counter passes StepLimit (the `break`) or the last node
     * fell (the `while` test), and otherwise what is left of the loop is left
     * to the next step.
     */
    method Pass(prob: real, draws: nat -> real, picks: nat -> nat, step: nat, reports: seq<Report>, ghost target: Outcome)
        returns (reports': seq<Report>, done: bool)
      requires |infected| < nodes && step <= StepLimit
      requires target == Prepend(reports, Loop(nodes, prob, draws, picks, infected, step))
      modifies this`infected
      ensures done <==> step + 1 > StepLimit || |infected| >= nodes
      ensures done ==> target == Outcome(infected, reports', step + 1)
      ensures !done ==> target == Prepend(reports', Loop(nodes, prob, draws, picks, infected, step + 1))
    {
      var printed := Attempt(prob, draws, picks, step);
      reports' := reports + printed;
      done := step + 1 > StepLimit || |infected| >= nodes;
      if step + 1 <= StepLimit {
        PrependTwice(reports, printed, Loop(nodes, prob, draws, picks, infected, step + 1));
        if |infected| >= nodes {
          assert reports' + [] == reports';
        }
      }
    }

    /**
     * The `while` loop of `spread` run with infection probability `prob`,
     * from step 0: it is the Loop function, on the list this simulator holds.
     */
    method Run(prob: real, draws: nat -> real, picks: nat -> nat) returns (reports: seq<Report>, steps: nat)
      modifies this`infected
      ensures Outcome(infected, reports, steps) == Loop(nodes, prob, draws, picks, old(infected), 0)
    {
      ghost var target := Loop(nodes, prob, draws, picks, infected, 0);
      reports := [];
      steps := 0;
      var done := |infected| >= nodes;
      PrependNone(target);
      while !done
        invariant steps <= StepLimit + 1
        invariant done ==> target == Outcome(infected, reports, steps)
        invariant !done ==> steps <= StepLimit && |infected| < nodes
        invariant !done ==> target == Prepend(reports, Loop(nodes, prob, draws, picks, infected, steps))
        decreases StepLimit + 1 - steps, !done
      {
        reports, done := Pass(prob, draws, picks, steps, reports, target);
        steps := steps + 1;
      }
    }

    /**
     * `spread(malware_type)`: an unknown archetype fails its profile
     * lookup before anything changes; a known one runs the loop with its
     * probability. `name` is the key classified by Keys.Classify, so
     * `Unknown` never carries one of the three keys.
     */
    method Spread(name: Name, draws: nat -> real, picks: nat -> nat) returns (ok: bool, reports: seq<Report>, steps: nat)
      requires Valid()
      modifies this`infected
      ensures Valid()
      ensures ok <==> name.Known?
      ensures !ok ==> infected == old(infected) && reports == [] && steps == 0
      ensures ok ==> Outcome(infected, reports, steps) == Loop(nodes, Probability(name.kind), draws, picks, old(infected), 0)
    {
      if name.Unknown? {
        return false, [], 0;
      }
      ok := true;
      reports, steps := Run(Probability(name.kind), draws, picks);
      LoopHealthy(nodes, Probability(name.kind), draws, picks, old(infected), 0);
    }
  }

  /** `NetworkSimulator(nodes=10).spread("worm")` with every draw a hit: all 10 nodes fall, one per step, in 9 steps. */
  method CertainWormInfectsAll(draws: nat -> real, picks: nat -> nat) returns (infectedCount: nat, steps: nat)
    requires forall s :: draws(s) < 0.9
    ensures infectedCount == 10 && steps == 9
  {
    var sim := new NetworkSimulator();
    var ok, reports;
    ok, reports, steps := sim.Spread(Known(Worm), draws, picks);
    LoopAllHit(10, 0.9, draws, picks, [0], 0);
    infectedCount := |sim.infected|;
  }

  /** `NetworkSimulator(nodes=10).spread("trojan")` with no draw a hit: only patient zero, and the safety limit stops the loop at step 51. */
  method HopelessTrojanHitsLimit(draws: nat -> real, picks: nat -> nat) returns (infectedCount: nat, steps: nat)
    requires forall s :: draws(s) >= 0.4
    ensures infectedCount == 1 && steps == 51
  {
    var sim := new NetworkSimulator();
    var ok, reports;
    ok, reports, steps := sim.Spread(Known(Trojan), draws, picks);
    LoopAllMiss(10, 0.4, draws, picks, [0], 0);
    infectedCount := |sim.infected|;
  }
}
