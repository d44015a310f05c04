/**
 * The simulation engine of script.js: the globals `currentMalware`,
 * `simulationRunning`, `nodes` and `infectedNodes`, the status log, and
 * the handlers `startSimulation`, `initializeNetwork`, `infectNode`,
 * `spreadInfection`, `toggleSimulation`, `resetSimulation` and
 * `logStatus`. Timers are the explicit queue `pending` (see Timeline);
 * every `Math.random()` choice is a parameter.
 *
 * The code never cancels a timer. A pause does not stop an infection
 * already scheduled, and a reset leaves earlier timers aimed at the new
 * network; the class keeps that behaviour and the scenarios at the end
 * of this module show it.
 */
module Engine {
  import opened Wrappers
  import opened Counting
  import opened Integrity
  import opened Malware
  import opened StatusLog
  import opened Timeline
  import opened Network

  /** `initializeNetwork` always builds this many nodes. */
  const NodeCount := 20
  /** Delay before patient zero, node 0, is infected. */
  const PatientZeroDelay := 800
  /** Delay between scanning a target and infecting it. */
  const ScanDelay := 500

  /** An event names only nodes that exist in a network of n nodes. */
  predicate Aimed(e: Event, n: nat) {
    match e
    case PatientZero => 0 < n
    case Spread => true
    case Infect(id) => id < n
  }

  /** An event aimed at a smaller network is aimed at a larger one too. */
  lemma AimedGrows(e: Event, m: nat, n: nat)
    requires Aimed(e, m) && m <= n
    ensures Aimed(e, n)
  {
  }

  class Simulation {
    var currentMalware: Option<Name>    // null until the first startSimulation
    var running: bool                   // simulationRunning
    var infected: seq<bool>             // nodes[i].infected, one entry per node
    var infectedList: seq<nat>          // infectedNodes
    var log: seq<Entry>                 // the children of #statusLog
    var pending: seq<Timer>             // callbacks registered with setTimeout, not yet run
    var clock: nat                      // the current time, in milliseconds
    ghost var edges: seq<(nat, nat)>    // the drawConnection calls of the last build

    /** The nodes: none before the first build, NodeCount after; the list names exactly the flagged ones. */
    ghost predicate NodesValid()
      reads this`infected, this`infectedList
    {
      (|infected| == 0 || |infected| == NodeCount) &&
      Tracks(infectedList, infected)
    }

    /** Every pending timer is due now or later and names only nodes that exist. */
    ghost predicate TimersValid()
      reads this`pending, this`clock, this`infected
    {
      forall k :: 0 <= k < |pending| ==> clock <= pending[k].due && Aimed(pending[k].event, |infected|)
    }

    ghost predicate Valid()
      reads this
    {
      NodesValid() && |log| <= MaxEntries && TimersValid()
    }

    /** `nodes.filter(n => !n.infected)`, as ids in node order. */
    function UninfectedNodes(): seq<nat>
      reads this`infected
    {
      Uninfected(infected)
    }

    /**
     * What `infectNode(id)` leaves behind, entered with flags `inf`, list
     * `list`, log `lg`, timers `pend` and running flag `run`. An infected
     * node is left alone. Otherwise the node is flagged and listed once and
     * the integrity after that is logged; then, while running and not full,
     * one Spread is scheduled after the profile's delay (the lookup throws
     * if `currentMalware` is no known kind); when full, the critical entry
     * is logged and the simulation stops.
     */
    ghost predicate InfectedFrom(id: nat, inf: seq<bool>, list: seq<nat>, lg: seq<Entry>, pend: seq<Timer>, run: bool, threw: bool)
      reads this`infected, this`infectedList, this`log, this`pending, this`running, this`clock, this`currentMalware
    {
      id < |inf| && |infected| == |inf| &&
      (!run ==> !threw && !running && pending == pend) &&
      (inf[id] ==>
         !threw && infected == inf && infectedList == list && log == lg && pending == pend && running == run) &&
      (!inf[id] ==> infected == inf[id := true] && infectedList == list + [id]) &&
      (!inf[id] && |infectedList| < |infected| ==>
         running == run && log == Append(lg, Compromised(id, Percent(|infectedList|, |infected|)))) &&
      (!inf[id] && run && |infectedList| < |infected| ==>
         match DelayFor(currentMalware)
         case Some(d) => !threw && pending == pend + [Timer(clock + d, Spread)]
         case None => threw && pending == pend) &&
      (!inf[id] && |infectedList| == |infected| ==>
         !threw && !running && pending == pend &&
         log == Append(Append(lg, Compromised(id, 0)), AllCompromised))
    }

    /**
     * What the patient-zero callback leaves behind, entered with flags
     * `inf`, list `list`, log `lg`, timers `pend` and running flag `run`:
     * `infectNode(0)`'s effect, followed by the "Patient zero identified"
     * entry unless the profile lookup threw.
     */
    ghost predicate PatientZeroFrom(inf: seq<bool>, list: seq<nat>, lg: seq<Entry>, pend: seq<Timer>, run: bool, threw: bool)
      reads this`infected, this`infectedList, this`log, this`pending, this`running, this`clock, this`currentMalware
    {
      0 < |inf| && |infected| == |inf| &&
      (!run ==> !threw && !running && pending == pend) &&
      (inf[0] ==>
         !threw && infected == inf && infectedList == list && pending == pend && running == run &&
         log == Append(lg, PatientZeroIdentified)) &&
      (!inf[0] ==> infected == inf[0 := true] && infectedList == list + [0]) &&
      (!inf[0] && |infectedList| < |infected| ==>
         running == run &&
         var hit := Append(lg, Compromised(0, Percent(|infectedList|, |infected|)));
         log == if threw then hit else Append(hit, PatientZeroIdentified)) &&
      (!inf[0] && run && |infectedList| < |infected| ==>
         match DelayFor(currentMalware)
         case Some(d) => !threw && pending == pend + [Timer(clock + d, Spread)]
         case None => threw && pending == pend) &&
      (!inf[0] && |infectedList| == |infected| ==>
         !threw && !running && pending == pend &&
         log == Append(Append(Append(lg, Compromised(0, 0)), AllCompromised), PatientZeroIdentified))
    }

    /**
     * What `spreadInfection()` leaves behind, entered with flags `inf`, log
     * `lg`, timers `pend` and running flag `run`: nothing when paused;
     * "complete" when no node is clear; otherwise the pick-th clear node is
     * scanned and its infection scheduled after ScanDelay.
     */
    ghost predicate SpreadFrom(pick: nat, inf: seq<bool>, lg: seq<Entry>, pend: seq<Timer>, run: bool)
      reads this`infected, this`log, this`pending, this`clock
    {
      (!run ==> log == lg && pending == pend) &&
      (run && Uninfected(inf) == [] ==> log == Append(lg, SimulationComplete) && pending == pend) &&
      (run && Uninfected(inf) != [] ==>
         pick < |Uninfected(inf)| &&
         var target := Uninfected(inf)[pick];
         target < |infected| && !infected[target] &&
         log == Append(lg, Scanning(target)) &&
         pending == pend + [Timer(clock + ScanDelay, Infect(target))])
    }

    /** The page before any simulation: no nodes, no timers, an empty log. */
    constructor ()
      ensures Valid()
      ensures currentMalware == None && !running && infected == []
      ensures infectedList == [] && log == [] && pending == [] && clock == 0 && edges == []
    {
      currentMalware := None;
      running := false;
      infected := [];
      infectedList := [];
      log := [];
      pending := [];
      clock := 0;
      edges := [];
    }

    /** `logStatus(e)`: append, then drop the oldest entry once there are more than MaxEntries. */
    method LogStatus(e: Entry)
      requires |log| <= MaxEntries
      modifies this`log
      ensures log == Append(old(log), e)
    {
      log := log + [e];
      if |log| > MaxEntries {
        log := log[1..];
      }
    }

    /** `setTimeout(callback, delay)`. */
    method Schedule(delay: nat, e: Event)
      modifies this`pending
      ensures pending == old(pending) + [Timer(clock + delay, e)]
    {
      pending := pending + [Timer(clock + delay, e)];
    }

    /** The connection loops of `initializeNetwork`: for each node, a drawConnection per drawn target other than itself. */
    method DrawConnections(wiring: seq<seq<nat>>)
      requires WellWired(wiring, NodeCount)
      modifies this`edges
      ensures edges == Drawn(wiring, NodeCount)
    {
      edges := [];
      for i := 0 to NodeCount
        invariant edges == Drawn(wiring, i)
      {
        for j := 0 to |wiring[i]|
          invariant edges == Drawn(wiring, i) + DrawnFrom(i, wiring[i][..j])
        {
          var target := wiring[i][j];
          assert wiring[i][..j + 1][..j] == wiring[i][..j];
          assert DrawnFrom(i, wiring[i][..j + 1]) ==
            DrawnFrom(i, wiring[i][..j]) + (if target != i then [(i, target)] else []);
          if target != i {
            edges := edges + [(i, target)];
          }
        }
        assert wiring[i][..|wiring[i]|] == wiring[i];
        assert Drawn(wiring, i + 1) == Drawn(wiring, i) + DrawnFrom(i, wiring[i]);
      }
    }

    /**
     * `initializeNetwork()`: twenty fresh uninfected nodes, no infected ids,
     * the connections drawn from `wiring`, and patient zero scheduled.
     * Timers already pending stay pending.
     */
    method InitializeNetwork(wiring: seq<seq<nat>>)
      requires Valid() && WellWired(wiring, NodeCount)
      modifies this`infected, this`infectedList, this`edges, this`pending
      ensures Valid()
      ensures infected == seq(NodeCount, _ => false)
      ensures infectedList == [] && edges == Drawn(wiring, NodeCount)
      ensures pending == old(pending) + [Timer(clock + PatientZeroDelay, PatientZero)]
      ensures currentMalware == old(currentMalware) && running == old(running)
      ensures log == old(log) && clock == old(clock)
    {
      forall k | 0 <= k < |pending|
        ensures Aimed(pending[k].event, NodeCount)
      {
        AimedGrows(pending[k].event, |infected|, NodeCount);
      }
      var built: seq<bool> := [];
      for i := 0 to NodeCount
        invariant built == seq(i, _ => false)
      {
        built := built + [false];
      }
      infected := built;
      infectedList := [];
      DrawConnections(wiring);
      Schedule(PatientZeroDelay, PatientZero);
    }

    /**
     * `startSimulation(kind)`: remembers the kind, then looks its profile up.
     * An unknown kind makes the lookup throw before the network is built.
     * `kind` is the key classified by Keys.Classify, so `Unknown` never
     * carries one of the three keys.
     */
    method StartSimulation(kind: Name, wiring: seq<seq<nat>>) returns (ok: bool)
      requires Valid() && WellWired(wiring, NodeCount)
      modifies this`currentMalware, this`infected, this`infectedList, this`edges, this`pending, this`log
      ensures Valid()
      ensures currentMalware == Some(kind) && running == old(running) && clock == old(clock)
      ensures ok <==> kind.Known?
      ensures !ok ==> infected == old(infected) && infectedList == old(infectedList)
      ensures !ok ==> log == old(log) && pending == old(pending) && edges == old(edges)
      ensures ok ==> infected == seq(NodeCount, _ => false) && infectedList == []
      ensures ok ==> edges == Drawn(wiring, NodeCount) && log == Append(old(log), Initializing(kind.kind))
      ensures ok ==> pending == old(pending) + [Timer(clock + PatientZeroDelay, PatientZero)]
    {
      currentMalware := Some(kind);
      ok := kind.Known?;
      if ok {
        InitializeNetwork(wiring);
        LogStatus(Initializing(kind.kind));
      }
    }

    /**
     * The part of `infectNode(id)` that marks a node not yet infected: the
     * node is flagged, listed once, and the integrity left is logged.
     */
    method Compromise(id: nat)
      requires Valid() && id < |infected| && !infected[id]
      modifies this`infected, this`infectedList, this`log
      ensures Valid()
      ensures infected == old(infected)[id := true] && infectedList == old(infectedList) + [id]
      ensures log == Append(old(log), Compromised(id, Percent(|infectedList|, |infected|)))
      ensures |infectedList| <= |infected|
    {
      MarkTracks(infectedList, infected, id);
      infected := infected[id := true];
      infectedList := infectedList + [id];
      LogStatus(Compromised(id, Percent(|infectedList|, |infected|)));
      TracksCount(infectedList, infected);
    }

    /**
     * `infectNode(id)`. An infected node is left alone. Otherwise the node
     * is flagged and listed once, the integrity after that is logged, and
     * then: while running and not full, one Spread is scheduled after the
     * profile's delay (the lookup throws if `currentMalware` is no known
     * kind); when full, the critical entry is logged and the simulation
     * stops; otherwise nothing more happens.
     */
    method InfectNode(id: nat) returns (threw: bool)
      requires Valid() && id < |infected|
      modifies this`infected, this`infectedList, this`log, this`pending, this`running
      ensures Valid()
      ensures currentMalware == old(currentMalware) && clock == old(clock) && edges == old(edges)
      ensures InfectedFrom(id, old(infected), old(infectedList), old(log), old(pending), old(running), threw)
    {
      if infected[id] {
        return false;
      }
      Compromise(id);
      if running && |infectedList| < |infected| {
        var delay := DelayFor(currentMalware);
        if delay.None? {
          return true;
        }
        Schedule(delay.value, Spread);
      } else if |infectedList| == |infected| {
        PercentEnds(|infected|);
        LogStatus(AllCompromised);
        running := false;
      }
      threw := false;
    }

    /**
     * `spreadInfection()`: nothing when paused; "complete" when no node is
     * left; otherwise the pick-th uninfected node is scanned and its
     * infection scheduled after ScanDelay.
     */
    method SpreadInfection(pick: nat)
      requires Valid()
      requires running && UninfectedNodes() != [] ==> pick < |UninfectedNodes()|
      modifies this`log, this`pending
      ensures Valid()
      ensures SpreadFrom(pick, old(infected), old(log), old(pending), old(running))
    {
      if !running {
        return;
      }
      var uninfected := UninfectedNodes();
      if |uninfected| == 0 {
        LogStatus(SimulationComplete);
        return;
      }
      var target := uninfected[pick];
      assert target in uninfected;
      LogStatus(Scanning(target));
      Schedule(ScanDelay, Infect(target));
    }

    /**
     * `toggleSimulation()`: flips running. A resume logs and, while some but
     * not all nodes are infected, scans at once; a pause only logs, and
     * leaves every pending timer in place.
     */
    method ToggleSimulation(pick: nat)
      requires Valid()
      requires !running && 0 < |infectedList| < |infected| ==> pick < |UninfectedNodes()|
      modifies this`running, this`log, this`pending
      ensures Valid()
      ensures running == !old(running)
      ensures old(running) ==> log == Append(old(log), Paused) && pending == old(pending)
      ensures !old(running) && !(0 < |infectedList| < |infected|) ==>
        log == Append(old(log), Resumed) && pending == old(pending)
      ensures !old(running) && 0 < |infectedList| < |infected| ==>
        var target := old(UninfectedNodes())[pick];
        target < |infected| && !infected[target] &&
        log == Append(Append(old(log), Resumed), Scanning(target)) &&
        pending == old(pending) + [Timer(clock + ScanDelay, Infect(target))]
    {
      running := !running;
      if running {
        LogStatus(Resumed);
        if 0 < |infectedList| < |infected| {
          TracksCount(infectedList, infected);
          SpreadInfection(pick);
        }
      } else {
        LogStatus(Paused);
      }
    }

    /**
     * `resetSimulation()`: stops, replaces the log with one entry and
     * rebuilds the network. Timers already pending stay pending.
     */
    method ResetSimulation(wiring: seq<seq<nat>>)
      requires Valid() && WellWired(wiring, NodeCount)
      modifies this`running, this`log, this`infected, this`infectedList, this`edges, this`pending
      ensures Valid()
      ensures !running && log == [ResetComplete]
      ensures infected == seq(NodeCount, _ => false)
      ensures infectedList == [] && edges == Drawn(wiring, NodeCount)
      ensures pending == old(pending) + [Timer(clock + PatientZeroDelay, PatientZero)]
      ensures currentMalware == old(currentMalware) && clock == old(clock)
    {
      running := false;
      log := [ResetComplete];
      InitializeNetwork(wiring);
    }

    /** Time passes up to `until` while no timer falls due. */
    method Wait(until: nat)
      requires Valid() && clock <= until
      requires forall k :: 0 <= k < |pending| ==> until <= pending[k].due
      modifies this`clock
      ensures Valid() && clock == until
    {
      clock := until;
    }

    /** The browser takes the next timer off the queue: the earliest due, first registered among equals. */
    method TakeNext() returns (t: Timer)
      requires Valid() && pending != []
      modifies this`pending, this`clock
      ensures Valid() && Aimed(t.event, |infected|)
      ensures t == old(pending)[NextDue(old(pending))] && clock == t.due
      ensures pending == AfterNext(old(pending))
    {
      var i := NextDue(pending);
      t := pending[i];
      pending := RemoveAt(pending, i);
      clock := t.due;
    }

    /** The callback `initializeNetwork` registers: infect node 0, then log that patient zero was found. */
    method InfectPatientZero() returns (threw: bool)
      requires Valid() && 0 < |infected|
      modifies this`infected, this`infectedList, this`log, this`pending, this`running
      ensures Valid()
      ensures currentMalware == old(currentMalware) && edges == old(edges) && clock == old(clock)
      ensures PatientZeroFrom(old(infected), old(infectedList), old(log), old(pending), old(running), threw)
    {
      threw := InfectNode(0);
      if !threw {
        LogStatus(PatientZeroIdentified);
      }
    }

    /** The callback of a timer that has fallen due, run with `pick` as the random choice a Spread callback makes. */
    method RunCallback(e: Event, pick: nat) returns (threw: bool)
      requires Valid() && Aimed(e, |infected|)
      requires e.Spread? && running && UninfectedNodes() != [] ==> pick < |UninfectedNodes()|
      modifies this`infected, this`infectedList, this`log, this`pending, this`running
      ensures Valid() && |infected| == old(|infected|)
      ensures currentMalware == old(currentMalware) && edges == old(edges) && clock == old(clock)
      ensures e.Spread? ==>
        !threw && running == old(running) && infected == old(infected) && infectedList == old(infectedList) &&
        SpreadFrom(pick, old(infected), old(log), old(pending), old(running))
      ensures e.PatientZero? ==>
        PatientZeroFrom(old(infected), old(infectedList), old(log), old(pending), old(running), threw)
      ensures e.Infect? ==>
        InfectedFrom(e.node, old(infected), old(infectedList), old(log), old(pending), old(running), threw)
    {
      match e {
        case PatientZero =>
          threw := InfectPatientZero();
        case Infect(id) =>
          threw := InfectNode(id);
        case Spread =>
          SpreadInfection(pick);
          threw := false;
      }
    }

    /**
     * The browser runs the next timer `t`: the clock moves to its due time,
     * the timer leaves the queue, and its callback runs on what is left;
     * `pick` is the random choice a Spread callback makes.
     */
    method Fire(pick: nat) returns (t: Timer, threw: bool)
      requires Valid() && pending != []
      requires pending[NextDue(pending)].event.Spread? && running && UninfectedNodes() != [] ==>
        pick < |UninfectedNodes()|
      modifies this`infected, this`infectedList, this`log, this`pending, this`running, this`clock
      ensures Valid() && |infected| == old(|infected|)
      ensures currentMalware == old(currentMalware) && edges == old(edges)
      ensures t == old(pending)[NextDue(old(pending))] && clock == t.due
      ensures t.event.Spread? ==>
        !threw && running == old(running) && infected == old(infected) && infectedList == old(infectedList) &&
        SpreadFrom(pick, old(infected), old(log), AfterNext(old(pending)), old(running))
      ensures t.event.PatientZero? ==>
        PatientZeroFrom(old(infected), old(infectedList), old(log), AfterNext(old(pending)), old(running), threw)
      ensures t.event.Infect? ==>
        InfectedFrom(t.event.node, old(infected), old(infectedList), old(log), AfterNext(old(pending)), old(running), threw)
    {
      t := TakeNext();
      assert UninfectedNodes() == old(UninfectedNodes());
      threw := RunCallback(t.event, pick);
    }
  }
  /** A fresh page with the worm loaded and the play button pressed: patient zero is due at 800 ms. */
  method StartPlaying(wiring: seq<seq<nat>>) returns (sim: Simulation)
    requires WellWired(wiring, NodeCount)
    ensures fresh(sim) && sim.Valid() && sim.running && sim.clock == 0
    ensures sim.currentMalware == Some(Known(Worm))
    ensures sim.infected == seq(NodeCount, _ => false) && sim.infectedList == []
    ensures sim.pending == [Timer(PatientZeroDelay, PatientZero)]
  {
    sim := new Simulation();
    var ok := sim.StartSimulation(Known(Worm), wiring);
    sim.ToggleSimulation(0);
  }

  /** From there, patient zero falls at 800 ms and, the worm being loaded, schedules a scan 800 ms later. */
  method PatientZeroFalls(sim: Simulation)
    requires sim.Valid() && sim.running && sim.clock == 0
    requires sim.currentMalware == Some(Known(Worm))
    requires sim.infected == seq(NodeCount, _ => false) && sim.infectedList == []
    requires sim.pending == [Timer(PatientZeroDelay, PatientZero)]
    modifies sim`infected, sim`infectedList, sim`log, sim`pending, sim`running, sim`clock
    ensures sim.Valid() && sim.running && sim.clock == 800
    ensures sim.currentMalware == Some(Known(Worm))
    ensures sim.infected == seq(NodeCount, _ => false)[0 := true] && sim.infectedList == [0]
    ensures sim.pending == [Timer(1600, Spread)]
  {
    NextOfOne(Timer(PatientZeroDelay, PatientZero));
    var t, threw := sim.Fire(0);
  }

  /**
   * Then the scan at 1600 ms picks the first clear node, node 1, and aims
   * an infection at it for 2100 ms.
   */
  method PatientZeroThenScan(sim: Simulation) returns (target: nat)
    requires sim.Valid() && sim.running && sim.clock == 0
    requires sim.currentMalware == Some(Known(Worm))
    requires sim.infected == seq(NodeCount, _ => false) && sim.infectedList == []
    requires sim.pending == [Timer(PatientZeroDelay, PatientZero)]
    modifies sim`infected, sim`infectedList, sim`log, sim`pending, sim`running, sim`clock
    ensures sim.Valid() && sim.running && sim.clock == 1600
    ensures sim.currentMalware == Some(Known(Worm))
    ensures sim.infected == seq(NodeCount, _ => false)[0 := true] && sim.infectedList == [0]
    ensures target == 1 && !sim.infected[target]
    ensures sim.pending == [Timer(2100, Infect(target))]
  {
    PatientZeroFalls(sim);
    FirstClear(sim.infected, 1);
    target := sim.UninfectedNodes()[0];
    NextOfOne(Timer(1600, Spread));
    var t, threw := sim.Fire(0);
  }

  /**
   * A pause does not stop an infection already on its way. With the worm
   * loaded and the simulation playing, patient zero falls at 800 ms and a
   * scan at 1600 ms aims an infection for 2100 ms; pausing in between
   * still lets that infection land, leaving two nodes infected while the
   * simulation is paused.
   */
  method PauseLetsScheduledInfectionLand(wiring: seq<seq<nat>>) returns (infectedCount: nat, playing: bool)
    requires WellWired(wiring, NodeCount)
    ensures infectedCount == 2 && !playing
  {
    var sim := StartPlaying(wiring);
    var target := PatientZeroThenScan(sim);
    sim.ToggleSimulation(0);
    assert !sim.running && sim.pending == [Timer(2100, Infect(target))];
    NextOfOne(Timer(2100, Infect(target)));
    var t, threw := sim.Fire(0);
    infectedCount := |sim.infectedList|;
    playing := sim.running;
  }

  /**
   * A reset does not cancel the timers of the run before it. A scan at
   * 1600 ms aims an infection for 2100 ms; a reset at that moment builds a
   * fresh network and schedules its patient zero for 2400 ms, but the old
   * infection fires first and strikes the new network, so its first
   * infected node is not node 0.
   */
  method ResetLeavesStaleInfection(wiring: seq<seq<nat>>) returns (first: nat, second: nat, count: nat)
    requires WellWired(wiring, NodeCount)
    ensures count == 2 && first != 0 && second == 0
  {
    var sim := StartPlaying(wiring);
    var target := PatientZeroThenScan(sim);
    sim.ResetSimulation(wiring);
    assert sim.pending == [Timer(2100, Infect(target)), Timer(2400, PatientZero)];
    assert sim.infectedList == [] && !sim.infected[target] && !sim.running;
    NextOfTwo(Timer(2100, Infect(target)), Timer(2400, PatientZero));
    var t, threw := sim.Fire(0);
    assert sim.infectedList == [target] && !sim.infected[0];
    assert sim.pending == [Timer(2400, PatientZero)];
    NextOfOne(Timer(2400, PatientZero));
    t, threw := sim.Fire(0);
    count := |sim.infectedList|;
    first := sim.infectedList[0];
    second := sim.infectedList[1];
  }
}
