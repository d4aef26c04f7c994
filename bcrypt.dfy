/**
 * The password and answer hashes. The salt and the cost factor are left out:
 * a digest records the part of the input bcrypt actually uses, which is its
 * first 72 bytes (characters are taken as single bytes here).
 */
module Bcrypt {

  const MaxKeyBytes: nat := 72

  datatype Digest = Digest(key: string)

  /** The part of `plain` a bcrypt digest depends on. */
  function Key(plain: string): (k: string)
    ensures |k| <= MaxKeyBytes && |k| <= |plain| && k == plain[..|k|]
    ensures |plain| <= MaxKeyBytes ==> k == plain
  {
    if |plain| <= MaxKeyBytes then plain else plain[..MaxKeyBytes]
  }

  function Hash(plain: string): Digest {
    Digest(Key(plain))
  }

  predicate Compare(plain: string, d: Digest) {
    Hash(plain) == d
  }

  /** A candidate matches a stored hash exactly when the two agree on the first 72 bytes. */
  lemma CompareHash(candidate: string, original: string)
    ensures Compare(candidate, Hash(original)) <==> Key(candidate) == Key(original)
    ensures |candidate| <= MaxKeyBytes && |original| <= MaxKeyBytes ==>
      (Compare(candidate, Hash(original)) <==> candidate == original)
  {
  }

  /** Characters after the 72nd do not affect the hash. */
  lemma HashIgnoresTail(plain: string, tail: string)
    requires |plain| >= MaxKeyBytes
    ensures Compare(plain + tail, Hash(plain))
  {
    assert (plain + tail)[..MaxKeyBytes] == plain[..MaxKeyBytes];
  }
}
