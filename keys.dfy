/**
 * The string keys both sources look the archetypes up by: script.js's
 * `malwareData` and `startSimulation(type)`, main.py's `configs`. Only
 * this module compares strings; the simulators work on the classified
 * Name.
 */
module Keys {
  import opened Wrappers
  import opened Malware

  /** The lookup key both sources use for an archetype. */
  function Key(k: Kind): (r: string) {
    match k
    case Virus => "virus"
    case Worm => "worm"
    case Trojan => "trojan"
  }

  /** Looks a key up in the profile table. */
  function Parse(name: string): (r: Option<Kind>) {
    if name == "virus" then Some(Virus)
    else if name == "worm" then Some(Worm)
    else if name == "trojan" then Some(Trojan)
    else None
  }

  /** Only the three keys are in the table, and each finds the archetype it names. */
  lemma ParseKnown(name: string)
    ensures Parse(name).Some? <==> name == "virus" || name == "worm" || name == "trojan"
    ensures Parse(name).Some? ==> Key(Parse(name).value) == name
  {
  }

  /** Looking up an archetype's own key finds that archetype. */
  lemma ParseKey(k: Kind)
    ensures Parse(Key(k)) == Some(k)
  {
  }

  /** A key string, classified by the lookup. */
  function Classify(s: string): (r: Name) {
    match Parse(s)
    case Some(k) => Known(k)
    case None => Unknown(s)
  }

  /** The string a name stands for. */
  function Spelling(n: Name): (r: string) {
    match n
    case Known(k) => Key(k)
    case Unknown(t) => t
  }

  /** A name that a lookup can produce: unknown text is never one of the keys. */
  predicate Classified(n: Name) {
    n.Unknown? ==> Parse(n.text).None?
  }

  /** Classifying loses nothing: the string comes back, and so does every name the lookup can produce. */
  lemma ClassifyRoundTrip(s: string, n: Name)
    ensures Classified(Classify(s)) && Spelling(Classify(s)) == s
    ensures Classified(n) ==> Classify(Spelling(n)) == n
  {
    ParseKnown(s);
    if n.Known? {
      ParseKey(n.kind);
    }
  }

  /** Starting with a key string: the three keys find their delays, any other text finds none. */
  lemma KeyedDelays(s: string)
    ensures DelayFor(Some(Classify(s))).Some? <==> s == "virus" || s == "worm" || s == "trojan"
    ensures s == "virus" ==> DelayFor(Some(Classify(s))) == Some(1500)
    ensures s == "worm" ==> DelayFor(Some(Classify(s))) == Some(800)
    ensures s == "trojan" ==> DelayFor(Some(Classify(s))) == Some(2000)
  {
    ParseKnown(s);
  }
}
