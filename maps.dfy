/** Facts about Dafny maps that the registry proofs lean on. */
module Maps {
  /** Storing twice under one key keeps only the second value. */
  lemma StoreTwice<K, V>(m: map<K, V>, k: K, a: V, b: V)
    ensures m[k := a][k := b] == m[k := b]
  {
  }
}
