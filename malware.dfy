/**
 * The three malware archetypes and the per-archetype constants the two
 * simulators look up by key: script.js's `malwareData[type].spreadDelay`
 * (milliseconds between an infection and the next scan) and main.py's
 * `configs[malware_type]["prob"]` (chance that one loop step infects).
 * Titles, descriptions, colours and main.py's sleep `speed` are display or
 * pacing only and are not part of the model.
 */
module Malware {
  import opened Wrappers

  datatype Kind = Virus | Worm | Trojan

  /**
   * A malware key as the profile lookup sees it: the key of one of the
   * archetypes, or any other text, for which the lookup finds nothing.
   * `Unknown(t)` is meant only for a text t that is none of the three
   * keys: Keys.Classify produces exactly such names from a key string,
   * and Keys.Classified states the condition.
   */
  datatype Name = Known(kind: Kind) | Unknown(text: string)

  /** script.js: `malwareData[k].spreadDelay`. */
  function SpreadDelay(k: Kind): (r: nat) {
    match k
    case Virus => 1500
    case Worm => 800
    case Trojan => 2000
  }

  /**
   * script.js: `malwareData[currentMalware].spreadDelay` with `currentMalware`
   * possibly still null or set to an unknown key, in which case the property
   * read fails.
   */
  function DelayFor(current: Option<Name>): (r: Option<nat>) {
    match current
    case Some(Known(k)) => Some(SpreadDelay(k))
    case _ => None
  }

  /** The delay table: virus 1500, worm 800, trojan 2000 milliseconds; nothing for a missing or unknown key. */
  lemma DelayTable(current: Option<Name>)
    ensures DelayFor(current).Some? <==> current.Some? && current.value.Known?
    ensures current == Some(Known(Virus)) ==> DelayFor(current) == Some(1500)
    ensures current == Some(Known(Worm)) ==> DelayFor(current) == Some(800)
    ensures current == Some(Known(Trojan)) ==> DelayFor(current) == Some(2000)
  {
  }

  /** main.py: `configs[k]["prob"]`, a probability strictly between 0 and 1. */
  function Probability(k: Kind): (r: real)
    ensures 0.0 < r < 1.0
  {
    match k
    case Virus => 0.6
    case Worm => 0.9
    case Trojan => 0.4
  }
}
