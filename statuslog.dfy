/**
 * The on-page status log of script.js. An entry is kept as the kind of
 * message and the values it shows; the timestamp prefix and the CSS class
 * (severity) are presentation only.
 */
module StatusLog {
  import opened Malware

  /** `logStatus` removes the oldest entry once the log holds more than this many. */
  const MaxEntries := 50

  datatype Entry =
    | Initializing(kind: Kind)                // "Initializing <KIND> simulation..."
    | PatientZeroIdentified                   // "Patient zero identified. Infection initiated."
    | Compromised(node: nat, integrity: int)  // "Node <node + 1> compromised! System integrity: <integrity>%"
    | AllCompromised                          // "CRITICAL: All nodes compromised! Network fully infected."
    | SimulationComplete                      // "Network fully compromised. Simulation complete."
    | Scanning(node: nat)                     // "Scanning node <node + 1>... Vulnerability detected."
    | Resumed                                 // "Simulation resumed. Monitoring network activity..."
    | Paused                                  // "Simulation paused. Analysis mode active."
    | ResetComplete                           // "System reset complete. Ready for new simulation."

  /** The log after `logStatus(e)`; a log within the cap stays within it. */
  function Append(log: seq<Entry>, e: Entry): (r: seq<Entry>)
    ensures |log| <= MaxEntries ==> |r| <= MaxEntries
  {
    var grown := log + [e];
    if |grown| > MaxEntries then grown[1..] else grown
  }

  /**
   * `logStatus(e)` puts `e` at the end, drops the oldest entry when the log
   * then exceeds MaxEntries, and keeps every other entry in order.
   */
  lemma AppendKeepsOrder(log: seq<Entry>, e: Entry)
    ensures |Append(log, e)| > 0 && Append(log, e)[|Append(log, e)| - 1] == e
    ensures |Append(log, e)| == if |log| < MaxEntries then |log| + 1 else |log|
    ensures Append(log, e) == (log + [e])[|log| + 1 - |Append(log, e)|..]
  {
  }

  /** Logging a sequence of messages one after the other. */
  function AppendAll(log: seq<Entry>, es: seq<Entry>): (r: seq<Entry>)
    decreases |es|
  {
    if es == [] then log else AppendAll(Append(log, es[0]), es[1..])
  }

  /** The most recent MaxEntries entries of `s`, or all of them when there are fewer. */
  function Newest(s: seq<Entry>): (r: seq<Entry>)
    ensures |r| <= MaxEntries && |r| <= |s|
    ensures |s| <= MaxEntries ==> r == s
    ensures |s| > MaxEntries ==> |r| == MaxEntries
  {
    if |s| <= MaxEntries then s else s[|s| - MaxEntries..]
  }

  /** One `logStatus` keeps the newest entries of the log followed by the message. */
  lemma AppendIsNewest(log: seq<Entry>, e: Entry)
    requires |log| <= MaxEntries
    ensures Append(log, e) == Newest(log + [e])
  {
  }

  /** Trimming early and then adding entries ends where adding everything and trimming once does. */
  lemma NewestOfNewest(a: seq<Entry>, b: seq<Entry>)
    ensures Newest(Newest(a) + b) == Newest(a + b)
  {
    if |a| > MaxEntries {
      var d := |a| - MaxEntries;
      assert Newest(a) + b == (a + b)[d..];
      if b != [] {
        assert (a + b)[d..][|b|..] == (a + b)[d + |b|..];
      } else {
        assert a + b == a;
      }
    }
  }

  /** However many messages are logged, the log ends as the newest MaxEntries of everything it held and was sent. */
  lemma {:induction false} AppendAllKeepsNewest(log: seq<Entry>, es: seq<Entry>)
    requires |log| <= MaxEntries
    ensures AppendAll(log, es) == Newest(log + es)
    decreases |es|
  {
    if es == [] {
      assert log + es == log;
    } else {
      var next := Append(log, es[0]);
      AppendAllKeepsNewest(next, es[1..]);
      AppendIsNewest(log, es[0]);
      NewestOfNewest(log + [es[0]], es[1..]);
      assert (log + [es[0]]) + es[1..] == log + es;
    }
  }
}
