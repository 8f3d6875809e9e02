/** Salted password hashing as the account endpoints use it: `hash` stores the
    salt beside the derived key, `check` re-derives the key from the stored
    salt and compares. The key derivation itself (PBKDF2 or scrypt in the
    hashing library) is a parameter of the model. */
module PasswordHashing {

  /** The library's one-way key derivation, from a salt and a password. */
  type KeyDerivation = (string, string) -> string

  /** A stored digest: the random salt and the key derived with it. */
  datatype Digest = Digest(salt: string, key: string)

  /** `check_password_hash(digest, password)`: a digest verifies a password
      exactly when it is the digest that its own salt yields for that password,
      so only the salt and the password decide, never anything else stored. */
  predicate Check(kdf: KeyDerivation, d: Digest, password: string): (r: bool)
    ensures r <==> d == Digest(d.salt, kdf(d.salt, password))
  {
    kdf(d.salt, password) == d.key
  }

  /** `generate_password_hash(password)` with its random salt given as a
      parameter: the digest keeps that salt and verifies against the password. */
  function Hash(kdf: KeyDerivation, password: string, salt: string): (d: Digest)
    ensures d.salt == salt
    ensures Check(kdf, d, password)
  {
    Digest(salt, kdf(salt, password))
  }

  /** A derivation that never maps two passwords to one key under one salt. */
  ghost predicate CollisionFree(kdf: KeyDerivation) {
    forall salt, p, q :: kdf(salt, p) == kdf(salt, q) ==> p == q
  }

  /** With a collision-free derivation a digest verifies its own password and
      no other. */
  lemma CheckOnlyOwnPassword(kdf: KeyDerivation, p: string, q: string, salt: string)
    requires CollisionFree(kdf)
    ensures Check(kdf, Hash(kdf, p, salt), q) <==> p == q
  {
  }

  /** Two hashes of one password with different salts are different digests. */
  lemma SaltedDigestsDiffer(kdf: KeyDerivation, p: string, salt1: string, salt2: string)
    requires salt1 != salt2
    ensures Hash(kdf, p, salt1) != Hash(kdf, p, salt2)
  {
  }
}
