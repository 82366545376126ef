/**
 * bcrypt, as the registration and login routes use it: `genSalt(10)`,
 * `hash(password, salt)` and `compare(password, hash)`.  The key-derivation
 * function is uninterpreted: a `Hasher` carries an arbitrary one, and the
 * random salt is supplied by the caller.
 */
module Bcrypt {

  /** The cost factor passed to genSalt. */
  const SALT_ROUNDS: nat := 10

  type Salt = string
  type Digest = string

  datatype Hasher = Hasher(kdf: (string, Salt, nat) -> Digest)

  /** The stored hash string: it records the cost and salt next to the digest, never the password. */
  datatype PasswordHash = PasswordHash(rounds: nat, salt: Salt, digest: Digest)

  function Hash(h: Hasher, password: string, salt: Salt): PasswordHash
  {
    PasswordHash(SALT_ROUNDS, salt, h.kdf(password, salt, SALT_ROUNDS))
  }

  /** Re-derive with the stored salt and cost, and compare the digests. */
  predicate Compare(h: Hasher, password: string, stored: PasswordHash)
  {
    h.kdf(password, stored.salt, stored.rounds) == stored.digest
  }

  /** A password always matches its own hash, whatever the salt. */
  lemma CompareOwnHash(h: Hasher, password: string, salt: Salt)
    ensures Compare(h, password, Hash(h, password, salt))
    ensures Hash(h, password, salt).rounds == SALT_ROUNDS && Hash(h, password, salt).salt == salt
  {
  }
}
