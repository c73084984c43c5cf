/** What the models share about collections: maps of sets, and removing one element. */
module Collections {

  /** The set under a key, empty if there is none. */
  function Get<K, V>(m: map<K, set<V>>, key: K): set<V> {
    if key in m then m[key] else {}
  }

  lemma WithoutOne<T>(s: seq<T>, i: nat)
    requires i < |s|
    ensures multiset(s[..i] + s[i + 1..]) == multiset(s) - multiset{s[i]}
  {
    assert s == s[..i] + [s[i]] + s[i + 1..];
  }
}
