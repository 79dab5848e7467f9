/** Shared helpers: the absence marker the Kotlin code expresses with a nullable result (`V?`), and maps built from pairs. */
module Options {

  datatype Option<+T> = None | Some(value: T)

  /** Kotlin's `map[key]` on a map value: the entry, or null. */
  function Lookup<K, V>(m: map<K, V>, k: K): (r: Option<V>)
    ensures r.Some? <==> k in m
    ensures r.Some? ==> r.value == m[k]
  {
    if k in m then Some(m[k]) else None
  }

  /** Maps that answer every lookup alike are equal. */
  lemma LookupEqual<K, V>(m: map<K, V>, m': map<K, V>)
    requires forall k :: Lookup(m, k) == Lookup(m', k)
    ensures m == m'
  {
    forall k | k in m ensures k in m' && m[k] == m'[k] {
      assert Lookup(m, k) == Lookup(m', k);
    }
    forall k | k in m' ensures k in m {
      assert Lookup(m, k) == Lookup(m', k);
    }
  }

  /** The map a sequence of pairs denotes when put one after the other (Kotlin's `toMap`). */
  ghost function PairsToMap<K, V>(pairs: seq<(K, V)>): map<K, V>
    decreases |pairs|
  {
    if pairs == [] then map[]
    else PairsToMap(pairs[..|pairs| - 1])[pairs[|pairs| - 1].0 := pairs[|pairs| - 1].1]
  }

  /** Putting the pairs one more step: the next pair overrides what came before. */
  lemma MergeStep<K, V>(m: map<K, V>, from: seq<(K, V)>, i: int)
    requires 0 <= i < |from|
    ensures m + PairsToMap(from[..i + 1]) == (m + PairsToMap(from[..i]))[from[i].0 := from[i].1]
  {
    assert from[..i + 1][..i] == from[..i];
  }
}
