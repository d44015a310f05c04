# Malware spread simulators, modelled in Dafny

The repository is an educational web page about malware. Its one piece of real logic is two small infection-spread simulators:

- **The browser engine in `script.js`.** It keeps a network of 20 nodes and the list of infected ids. A patient zero falls 800 ms after the network is built. From then on, each infection schedules a scan after the archetype's spread delay (virus 1500, worm 800, trojan 2000 ms). Each scan picks an uninfected node and infects it 500 ms later. Play, pause and reset buttons flip or clear the state, and a status log keeps the newest 50 messages.
- **The command-line `NetworkSimulator` in `main.py`.** It starts with node 0 infected. `spread` runs a loop in which each step infects one random uninfected node with the archetype's probability (virus 0.6, worm 0.9, trojan 0.4). The loop runs until every node is infected or the step counter passes 50.

The model has one module per concern:

| file | module | contents |
|---|---|---|
| `wrappers.dfy` | `Wrappers` | `Option` |
| `malware.dfy` | `Malware` | the three archetypes and their constants: spread delays and probabilities |
| `keys.dfy` | `Keys` | the string keys both programs look archetypes up by, classified into `Name` (a known archetype or unknown text) |
| `integrity.dfy` | `Integrity` | the printed integrity percentage: exact rational arithmetic, `Math.round` (half up) and Python's `round` (half to even) |
| `counting.dfy` | `Counting` | duplicate-free id lists and the pigeonhole bound |
| `statuslog.dfy` | `StatusLog` | log entries as message kinds and the 50-entry cap of `logStatus` |
| `timeline.dfy` | `Timeline` | the browser's timer queue made explicit: due time plus callback, earliest first, first registered among equals |
| `network.dfy` | `Network` | node flags, the infected-id list they must agree with, and the connections `initializeNetwork` draws |
| `engine.dfy` | `Engine` | `script.js` lines 190-358 as a class `Simulation` over the page's globals, with one method per handler, plus scenarios |
| `simulator.dfy` | `Spreader` | `main.py` as a class `NetworkSimulator` whose `spread` runs a `while` loop, proved equal to a recursive function `Loop`, with lemmas about `Loop` |

Randomness becomes input:

- **Engine:** each `Math.random()` choice is a parameter. The connection draws are a `wiring` table; the scan's choice is a `pick` index, required to be in range.
- **main.py:** `random.random()` at step s is `draws(s)`. `random.choice(available)` at step s takes index `picks(s) % len(available)`.

Timers form an explicit queue. `Fire` runs the next callback, and the code never cancels a timer. The scenarios at the end of `engine.dfy` exercise this:

- a pause still lets an infection already scheduled land;
- a reset lets a stale infection strike the new network before its own patient zero.

## Model

| member | source | states |
|---|---|---|
| `Malware.SpreadDelay` | script.js:196-218 | the `spreadDelay` of each entry of `malwareData`; it carries no contract of its own, and `DelayTable` states its values |
| `Malware.DelayFor` | script.js:298 | `malwareData[currentMalware].spreadDelay`, with no value when the lookup fails; it carries no contract of its own, and `DelayTable` and `KeyedDelays` state when it finds a delay and which |
| `Malware.DelayTable` | script.js:196-218 | the spread delay is found only for a known archetype: virus 1500, worm 800, trojan 2000 ms |
| `Malware.Probability` | main.py:10-14 | the archetype's infection probability (0.6, 0.9, 0.4) lies strictly between 0 and 1 |
| `Keys.Parse` | main.py:16 | the profile lookup by key, `configs[malware_type]` here and `malwareData[type]` at script.js:224; it carries no contract of its own, and `ParseKnown` and `ParseKey` state it |
| `Keys.ParseKnown` | main.py:10-16 | the profile lookup finds a profile exactly for "virus", "worm" and "trojan", and each key finds the archetype it names |
| `Keys.ParseKey` | script.js:196-218 | looking up an archetype's own key finds that archetype |
| `Keys.ClassifyRoundTrip` | script.js:220-224 | classifying a key string loses nothing: its spelling comes back, and every name a lookup can produce is reproduced |
| `Keys.KeyedDelays` | script.js:296-299 | from a key string, the three keys find their delays and any other text finds none |
| `Integrity.RoundHalfUp` | script.js:294 | the result is the integer nearest the quotient, with a half rounded up as `Math.round` does |
| `Integrity.RoundHalfEven` | main.py:33 | the result is the integer nearest the quotient, with a half rounded to the even neighbour as Python's `round` does |
| `Integrity.Percent` | script.js:294 | the integrity `infectNode` logs, `RoundHalfUp` applied to (1 - k/n) * 100; it carries no contract of its own, and `PercentBounds`, `PercentEnds`, `PercentExact`, `PercentAntitone` and `TwentyNodes` state it |
| `Integrity.PercentEven` | main.py:33 | the integrity `spread` prints, `RoundHalfEven` applied to (1 - k/n) * 100; it carries no contract of its own, and `PercentBounds`, `PercentEnds`, `PercentExact`, `PercentAntitone` and `TenNodes` state it |
| `Integrity.PercentBounds` | script.js:294 | with 0 <= k <= n infected, both roundings of the integrity lie in [0, 100] |
| `Integrity.PercentEnds` | script.js:294 | no infection reads 100 and a fully infected network reads 0, in both roundings |
| `Integrity.PercentExact` | main.py:33 | when the percentage is whole, both roundings report it exactly |
| `Integrity.PercentAntitone` | script.js:294 | one more infected node never raises the reported integrity, in either rounding |
| `Integrity.TwentyNodes` | script.js:294 | on the 20-node page, k infections report 100 - 5k, so the first reports 95 |
| `Integrity.TenNodes` | main.py:33 | on the default 10-node simulator, k infected nodes report 100 - 10k |
| `Integrity.RoundingsDifferOnTies` | main.py:33 | the two rounding rules differ on a tie: 3 of 8 infected is 62.5, which `Math.round` makes 63 and Python's `round` makes 62; main.py reaches such a tie (for example `NetworkSimulator(8)`), while script.js's 20 nodes never do (`TwentyNodes`) |
| `StatusLog.Append` | script.js:346-358 | a log of at most 50 entries stays at most 50 after `logStatus` |
| `StatusLog.AppendKeepsOrder` | script.js:352-357 | `logStatus` puts the entry last, and grows the log by one until it holds 50, after which its length stays put; the result is a suffix of the old log plus the entry |
| `StatusLog.AppendIsNewest` | script.js:352-357 | one `logStatus` keeps the newest 50 of the old entries followed by the new one |
| `StatusLog.AppendAllKeepsNewest` | script.js:346-358 | after any number of `logStatus` calls, the log is the newest 50 of everything it held and was sent |
| `Network.Uninfected` | script.js:310 | `nodes.filter(n => !n.infected)` yields exactly the unflagged node ids, in increasing order |
| `Network.FirstClear` | script.js:310 | when every node below c is flagged and node c is clear, c heads `nodes.filter(n => !n.infected)` |
| `Network.MarkTracks` | script.js:288-292 | flagging a clear node and pushing its id once keeps `infectedNodes` duplicate-free and equal to the flagged nodes |
| `Network.TracksCount` | script.js:297-314 | the infected count never exceeds the node count, and it equals it exactly when no clear node is left: the "full" tests of `infectNode` and `spreadInfection` agree |
| `Network.DrawnFrom` | script.js:253-256 | the connections the inner loop draws for node i from its draws; it carries no contract of its own, and `DrawnFromEdges`, `DrawnFromCount` and `SelfDrawsLeaveNodeUnconnected` state it |
| `Network.Drawn` | script.js:252-258 | the connections both loops draw for nodes 0 .. n-1; it carries no contract of its own, and `DrawnEdges` and `OutEdges` state it |
| `Network.DrawnFromEdges` | script.js:254-256 | every connection drawn for node i starts at i, is no self-edge, and ends at one of i's drawn targets |
| `Network.DrawnFromCount` | script.js:253-256 | node i gets at most one connection per draw, and one for every draw exactly when it never drew itself |
| `Network.DrawnEdges` | script.js:252-258 | every connection drawn starts at a node of the network, is no self-edge, and ends at one of that node's draws |
| `Network.OutEdges` | script.js:252-258 | the connections leaving node i are exactly those drawn for i itself, in draw order, so at most 4 |
| `Network.SelfDrawsLeaveNodeUnconnected` | script.js:253-256 | a node whose every draw hits itself gets no connection of its own, so out-degree 0 is possible |
| `Engine.Simulation.constructor` | script.js:191-194 | before any simulation: no archetype, not running, no nodes, no timers, an empty log |
| `Engine.Simulation.LogStatus` | script.js:346-358 | the log becomes `Append(old log, entry)` |
| `Engine.Simulation.Schedule` | script.js:299 | `setTimeout(callback, delay)`, here and at script.js:260 and 319: exactly one timer joins the queue, due `delay` ms from now, with every earlier timer kept |
| `Engine.Simulation.DrawConnections` | script.js:252-258 | the two connection loops record exactly `Drawn(wiring, 20)` |
| `Engine.Simulation.InitializeNetwork` | script.js:233-264 | 20 clear nodes, an empty `infectedNodes`, the drawn connections, and one new `PatientZero` timer due in 800 ms; earlier timers, the archetype, `running` and the log are untouched |
| `Engine.Simulation.StartSimulation` | script.js:220-231 | the archetype is remembered first; an unknown one throws before anything else changes; a known one rebuilds the network and logs "Initializing", with `running` unchanged |
| `Engine.Simulation.Compromise` | script.js:288-295 | the node is flagged and listed once, and the integrity logged is computed after the push |
| `Engine.Simulation.InfectNode` | script.js:287-305 | on an infected node, nothing changes; otherwise: flagged, listed, logged; when running and not full, exactly one Spread timer at the archetype's delay, or a throw without an archetype; when full, the critical entry and `running` false |
| `Engine.Simulation.SpreadInfection` | script.js:307-320 | paused: nothing; no clear node: "complete" and no timer; otherwise the target is a clear node, a scan is logged, and one Infect(target) is due in 500 ms |
| `Engine.Simulation.ToggleSimulation` | script.js:322-336 | `running` flips; a resume logs and, iff 0 < infected < nodes, scans at once; a pause only logs and keeps every timer |
| `Engine.Simulation.ResetSimulation` | script.js:338-344 | stopped, the log is exactly the reset entry, the network is rebuilt, and every earlier timer stays pending beside the new patient zero |
| `Engine.Simulation.InfectedFrom` | script.js:287-305 | the whole state `infectNode(id)` leaves, relative to the state it was entered in; it carries no contract of its own, and `InfectNode`, `RunCallback` and `Fire` ensure it |
| `Engine.Simulation.PatientZeroFrom` | script.js:260-263 | the whole state the patient-zero callback leaves: `infectNode(0)`'s effect, then the "Patient zero identified" entry unless the lookup threw; it carries no contract of its own, and `InfectPatientZero`, `RunCallback` and `Fire` ensure it |
| `Engine.Simulation.SpreadFrom` | script.js:307-320 | the whole state `spreadInfection()` leaves: nothing when paused, "complete" and no timer when no node is clear, else the scan entry and one `Infect(target)` at +500 ms; it carries no contract of its own, and `SpreadInfection`, `RunCallback` and `Fire` ensure it |
| `Engine.Simulation.Wait` | script.js:260-263 | time passes while a `setTimeout` callback such as this one waits: the clock moves to a moment no pending timer is due before, and nothing else changes |
| `Engine.Simulation.TakeNext` | script.js:319 | the browser takes the next callback registered with `setTimeout`, as here: the earliest due, first registered among equals; the clock moves to its due time and the rest of the queue stays in order |
| `Engine.Simulation.InfectPatientZero` | script.js:260-263 | the patient-zero callback leaves exactly the state of `infectNode(0)` followed by "Patient zero identified" unless the lookup threw, in every case: node 0 already infected, spreading, paused, thrown, or network full |
| `Engine.Simulation.RunCallback` | script.js:296-319 | a due Spread, PatientZero or Infect callback leaves exactly the state its handler leaves: log, flags, list, timers and `running` |
| `Engine.Simulation.Fire` | script.js:296-319 | the next timer comes off the queue, the clock moves to its due time, and its callback leaves exactly the state its handler leaves, starting from the queue without that timer |
| `Engine.StartPlaying` | script.js:220-231 | a fresh page, worm chosen and play pressed: running, 20 clear nodes, only patient zero pending at 800 ms |
| `Engine.PatientZeroFalls` | script.js:260-299 | from there, patient zero falls at 800 ms and, the simulation running with the worm loaded, one Spread is due 800 ms later |
| `Engine.PatientZeroThenScan` | script.js:296-320 | patient zero falls at 800 ms, a scan at 1600 ms targets the first clear node, node 1, and its infection is due at 2100 ms |
| `Engine.PauseLetsScheduledInfectionLand` | script.js:322-336 | pausing between a scan and its infection still lets the infection land: 2 nodes infected while paused |
| `Engine.ResetLeavesStaleInfection` | script.js:338-344 | after a reset, the old run's infection strikes the new network first, so its first infected node is not node 0 |
| `Spreader.ListedIsIn` | main.py:28 | the list scan `Listed` agrees with membership |
| `Spreader.Available` | main.py:28 | `available = [n for n in range(self.nodes) if n not in self.infected]`; it carries no contract of its own, and `AvailableNodes` and `AvailableSorted` state it |
| `Spreader.AvailableNodes` | main.py:28 | `available` holds exactly the nodes in `range(nodes)` not in `infected` |
| `Spreader.AvailableSorted` | main.py:28 | `available` is in increasing order, as `range` yields it |
| `Spreader.Victim` | main.py:29-30 | a victim is chosen exactly when `available` is non-empty and the draw is below the probability, and it is an uninfected node of the network |
| `Spreader.Loop` | main.py:23-39 | the loop of `spread`, entered at a step with a list, as a recursive function; it carries no contract of its own: `NetworkSimulator.Run` is proved equal to it, and `LoopSteps`, `LoopGrows`, `LoopCounts`, `ReportedIntegrity`, `LoopReportSteps`, `LoopHealthy`, `LoopAllHit` and `LoopAllMiss` state it |
| `Spreader.AvailableWhileShort` | main.py:24-29 | inside the loop, with the list healthy, `available` is never empty |
| `Spreader.LoopSteps` | main.py:24-39 | the loop ends with the step counter at most 51, and short of that only because every node is infected |
| `Spreader.LoopGrows` | main.py:29-31 | the list only grows at its end, by the printed victims in order, one per report |
| `Spreader.LoopCounts` | main.py:31-34 | report k counts the k earlier victims of the run and its own, and was printed while a node was still clean |
| `Spreader.ReportedIntegrity` | main.py:33-34 | each printed integrity lies in [0, 100], and it never rises from one report to the next |
| `Spreader.LoopReportSteps` | main.py:23-39 | reports are printed at distinct steps of the run, in increasing order, at most one node per step |
| `Spreader.LoopHealthy` | main.py:24-39 | the loop keeps the list healthy (patient zero first, no duplicates, every id a node), so it never outgrows max(1, nodes) |
| `Spreader.LoopAllHit` | main.py:24-39 | if every draw hits and the step budget allows, the whole network falls, one node per step |
| `Spreader.LoopAllMiss` | main.py:36-39 | if no draw hits, nothing is infected or printed, and on an unfinished network only the safety limit ends the loop, after 51 steps |
| `Spreader.NetworkSimulator.constructor` | main.py:5-7 | a new simulator holds its node count, and only node 0 is infected |
| `Spreader.NetworkSimulator.Attempt` | main.py:27-36 | one loop pass leaves what remains of `Loop` from the next step |
| `Spreader.NetworkSimulator.Pass` | main.py:24-39 | one iteration ends the run exactly when its `step > 50` check breaks or the last node fell, with the run's whole outcome in hand, and otherwise carries the loop invariant to the next step |
| `Spreader.NetworkSimulator.Run` | main.py:23-39 | the `while` loop yields exactly `Loop` from step 0 on the simulator's own list: final list, reports, step count |
| `Spreader.NetworkSimulator.Spread` | main.py:9-45 | an unknown archetype fails the lookup with nothing changed; a known one runs `Loop` with its probability and keeps the simulator healthy |
| `Spreader.CertainWormInfectsAll` | main.py:5-39 | `NetworkSimulator(10).spread("worm")` with every draw a hit infects all 10 nodes in 9 steps |
| `Spreader.HopelessTrojanHitsLimit` | main.py:36-39 | `NetworkSimulator(10).spread("trojan")` with no draw a hit leaves only patient zero and stops at step 51 |

## Left out

- Everything cosmetic in `script.js`: loading screen, particles, matrix rain, header, counters and section navigation. Also the node placement and `drawConnection` geometry, which use floating point and pixel positions. Only the (from, to) pair of each `drawConnection` call is kept, as the ghost field `edges`.
- Timestamps, the message text, CSS classes, button labels and scrolling in `logStatus` and the handlers. A log entry is its message kind plus the values it shows.
- Real timers and real randomness. Timers are the explicit `pending` queue on a logical millisecond clock. Random choices are parameters.
- Floating point. Integrity is computed in exact rational arithmetic, which can differ from IEEE-754 evaluation near a rounding boundary. With 20 nodes (script.js) and 10 nodes (main.py) the value is always whole, as `TwentyNodes` and `TenNodes` show.
- Keys inherited from `Object.prototype` (such as "constructor") in `malwareData[type]`. The model treats every string other than the three keys as an unknown archetype.
- `Engine`: the status log is assumed empty on page load. The page's static HTML is not part of this model.
- `Spreader.NetworkSimulator.Spread`: `time.sleep` and every `print` are left out. The lines step s prints are kept as `Report(step, victim, count)`, from which `PrintedIntegrity` computes the printed percentage. The `__main__` driver (main.py:48-59) is not modelled.
- `Spreader.NetworkSimulator.Spread`: the `KeyError` an unknown `malware_type` raises becomes `ok == false`. The default argument "virus" is the caller's choice of `Name`.
- `Spreader`: `random.random()` is called only when `available` is non-empty, so its place in Python's random stream is not modelled. The draws are indexed by step instead.
- `Spreader.Healthy`: on a network of zero or fewer nodes, the list holds node 0 although it is no node of that network. `Healthy` admits that one id, and `LoopHealthy` states the bound as max(1, nodes).
- `Engine.Simulation`: `nodes` is a `seq<bool>` field that the handlers reassign, rather than an array. `initializeNetwork` builds a fresh array each time, so no aliasing is lost.

## Where the code and its design description differ

The model follows the code in each case.

- **Timer cancellation.** The design asks pause and reset to cancel pending timers, for example by epoch tagging. The code cancels nothing. `PauseLetsScheduledInfectionLand` and `ResetLeavesStaleInfection` show the consequences.
- **Out-degree.** The design gives every node 1 to 4 connections. A node's draws can all hit itself, so the code can leave it with none (`SelfDrawsLeaveNodeUnconnected`).
- **Starting.** The design has `start` move straight to spreading. `startSimulation` leaves `simulationRunning` as it was (`StartSimulation`), and paused play only infects patient zero: `InfectNode` schedules no spread while not running. Spreading begins only once play is pressed (`StartPlaying`).
- **Unknown archetypes.** The design rejects an unknown archetype up front. `startSimulation` stores it in `currentMalware` first and only then throws. A later `infectNode` that reaches the delay lookup also throws (`InfectNode`'s `threw`).
- **Rounding.** The design says `round` for both programs. The browser rounds a half up and Python rounds it to even, so the two rules differ on a tie (`RoundingsDifferOnTies`). Only main.py can meet one, on a node count such as 8; script.js always builds 20 nodes, where every percentage is whole (`TwentyNodes`).
