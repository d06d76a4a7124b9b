/**
 * The password hasher the service calls (golang.org/x/crypto/bcrypt), as far as
 * the service relies on it. A bcrypt hash is the version and cost prefix, a
 * 22-character salt and a digest; the model keeps the prefix and the salt and
 * stands the password itself in for the digest, which makes the digest
 * collision-free (the property the service relies on) without modelling its
 * one-wayness. The salt is drawn from a random source, which here is a parameter.
 */
module Bcrypt {
  import opened Wrappers

  /** Version "2a" at bcrypt.DefaultCost (10). */
  const Prefix: string := "$2a$10$"

  const SaltLength: nat := 22

  type Salt = s: string | |s| == SaltLength witness "abcdefghijklmnopqrstuv"

  /** The salt embedded in a hash that is long enough to hold one. */
  function SaltOf(hash: string): string
    requires |hash| >= |Prefix| + SaltLength
  {
    hash[|Prefix|..|Prefix| + SaltLength]
  }

  /**
   * bcrypt.GenerateFromPassword at the default cost. `random` is the salt the
   * random source produced, or None when reading it failed (the library's
   * only error at the default cost in this model).
   */
  function GenerateFromPassword(password: string, random: Option<Salt>): (r: Option<string>)
    ensures r.None? <==> random.None?
    ensures r.Some? ==> |r.value| >= |Prefix| + SaltLength && SaltOf(r.value) == random.value
    ensures r.Some? ==> CompareHashAndPassword(r.value, password)
  {
    match random
    case None => None
    case Some(salt) =>
      var hash := Prefix + salt + password;
      assert hash[..|Prefix|] == Prefix;
      assert SaltOf(hash) == salt;
      Some(hash)
  }

  /**
   * bcrypt.CompareHashAndPassword returning no error: the hash is well formed
   * and recomputing it with its own salt and the candidate gives it back.
   * A malformed hash matches no candidate.
   */
  function CompareHashAndPassword(hash: string, password: string): (r: bool)
    ensures r ==> |hash| >= |Prefix| + SaltLength && hash[..|Prefix|] == Prefix
    ensures r ==> hash[|Prefix| + SaltLength..] == password
  {
    && |hash| >= |Prefix| + SaltLength
    && hash == Prefix + SaltOf(hash) + password
  }

  /** A fresh hash verifies exactly the password it was made from. */
  lemma HashMatchesOnlyItsPassword(password: string, salt: Salt, candidate: string)
    ensures CompareHashAndPassword(GenerateFromPassword(password, Some(salt)).value, candidate)
            <==> candidate == password
  {
  }

  /** Hashing the same password under two different salts gives two different strings. */
  lemma SaltsSeparateHashes(password: string, s1: Salt, s2: Salt)
    requires s1 != s2
    ensures GenerateFromPassword(password, Some(s1)) != GenerateFromPassword(password, Some(s2))
  {
  }
}
