/**
 * The browser's timer queue, made explicit. Every `setTimeout` callback
 * script.js registers becomes a Timer: the time it is due (milliseconds
 * on one logical clock) and the callback it runs. The browser runs the
 * earliest-due timer first, and among timers due at the same time the one
 * registered first.
 */
module Timeline {

  datatype Event =
    | PatientZero        // initializeNetwork's callback: infectNode(0), then log
    | Spread             // infectNode's callback: spreadInfection()
    | Infect(node: nat)  // spreadInfection's callback: infectNode(node)

  datatype Timer = Timer(due: nat, event: Event)

  /** The position of the timer that fires next. */
  function NextDue(pending: seq<Timer>): (i: nat)
    requires pending != []
    ensures i < |pending|
    ensures forall k :: 0 <= k < |pending| ==> pending[i].due <= pending[k].due
    ensures forall k :: 0 <= k < i ==> pending[i].due < pending[k].due
  {
    if |pending| == 1 then 0
    else
      var j := NextDue(pending[..|pending| - 1]);
      if pending[|pending| - 1].due < pending[j].due then |pending| - 1 else j
  }

  /** The queue once the timer at position i has been taken out. */
  function RemoveAt(s: seq<Timer>, i: nat): (r: seq<Timer>)
    requires i < |s|
    ensures |r| == |s| - 1
    ensures forall k :: 0 <= k < i ==> r[k] == s[k]
    ensures forall k :: i <= k < |r| ==> r[k] == s[k + 1]
  {
    s[..i] + s[i + 1..]
  }

  /** The queue once the next timer to fire has been taken out. */
  function AfterNext(pending: seq<Timer>): (r: seq<Timer>)
    requires pending != []
  {
    RemoveAt(pending, NextDue(pending))
  }

  /** A queue of one timer fires that timer and is then empty. */
  lemma NextOfOne(t: Timer)
    ensures NextDue([t]) == 0 && AfterNext([t]) == []
  {
  }

  /** Of two timers the earlier-due one fires first, the other stays queued. */
  lemma NextOfTwo(a: Timer, b: Timer)
    requires a.due < b.due
    ensures NextDue([a, b]) == 0 && AfterNext([a, b]) == [b]
  {
    assert [a, b][..1] == [a];
  }
}
