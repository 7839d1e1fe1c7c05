/**
 * Salted password hashing. The digest function of the hashing library is not part of
 * this model: it is a parameter `digestOf(salt, password)`, and the salt is supplied
 * by the caller in place of the library's random source.
 */
module Passwords {

  /** A stored hash: the salt it was made with and the digest of the salted password. */
  datatype PasswordHash = PasswordHash(salt: string, digest: string)

  /** `generate_password_hash(password)`, for a given salt. */
  function GeneratePasswordHash(digestOf: (string, string) -> string, password: string, salt: string): (h: PasswordHash)
    ensures h.salt == salt
    ensures h.digest == digestOf(salt, password)
  {
    PasswordHash(salt, digestOf(salt, password))
  }

  /** `check_password_hash(stored, password)`: re-digest with the stored salt and compare. */
  predicate CheckPasswordHash(digestOf: (string, string) -> string, stored: PasswordHash, password: string) {
    digestOf(stored.salt, password) == stored.digest
  }

  /** No two passwords share a digest under the same salt. */
  ghost predicate CollisionFree(digestOf: (string, string) -> string) {
    forall salt, p, q :: digestOf(salt, p) == digestOf(salt, q) ==> p == q
  }

  /** A hash made from a password accepts that password, and, when the digest has no
      collisions, no other. */
  lemma CheckGenerated(digestOf: (string, string) -> string, password: string, salt: string, attempt: string)
    ensures CheckPasswordHash(digestOf, GeneratePasswordHash(digestOf, password, salt), password)
    ensures CollisionFree(digestOf) && attempt != password ==>
              !CheckPasswordHash(digestOf, GeneratePasswordHash(digestOf, password, salt), attempt)
  {
  }
}
