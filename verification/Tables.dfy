/** Tables of buckets, the maps they stand for, and what a failed insertion leaves behind. */
module Tables {

  /** The table with one slot overwritten. */
  function Write<S>(t: seq<seq<S>>, b: nat, i: nat, s: S): seq<seq<S>>
    requires b < |t| && i < |t[b]|
  {
    t[b := t[b][i := s]]
  }

  /** A thrown insertion keeps the old map with the new key, except for one entry. */
  ghost predicate LostOne<P>(m: map<nat, P>, before: map<nat, P>, k: nat, p: P, lost: nat) {
    k !in before && lost in before[k := p] && lost !in m && m == before[k := p] - {lost}
  }

  /** A map with the same payloads except for one old and one new key. */
  lemma OneForAnother<P>(m: map<nat, P>, m': map<nat, P>, gone: nat, key: nat, payload: P)
    requires m'.Keys == m.Keys - {gone} + {key}
    requires forall k :: k in m' ==> m'[k] == if k == key then payload else m[k]
    ensures m' == (m - {gone})[key := payload]
  {
  }

  /** Taking the victim out, putting the key in and adding the victim is adding the key. */
  lemma Exchange<P>(m: map<nat, P>, victim: nat, v: P, key: nat, payload: P)
    requires victim in m && m[victim] == v && key != victim
    ensures (m - {victim})[key := payload][victim := v] == m[key := payload]
  {
  }
}
