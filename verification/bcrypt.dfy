/** An abstract model of `bcrypt.hash(password, 10)`: the result is a
    modular-crypt string with version `2b` and cost factor 10, followed by the
    salt and digest, which come from an opaque key-derivation parameter. */
module Bcrypt {

  /** (salt, password) to the encoded salt and digest. */
  type Kdf = (string, string) -> string

  /** Version and cost factor, as `bcrypt.hash(password, 10)` writes them. */
  const Prefix := "$2b$10$"

  function Hash(password: string, salt: string, kdf: Kdf): (r: string)
    ensures Prefix <= r
  {
    Prefix + kdf(salt, password)
  }

  /** The stored hash is never the plaintext, unless the plaintext itself
      already looks like a cost-10 bcrypt hash. */
  lemma HashIsNotPlaintext(password: string, salt: string, kdf: Kdf)
    requires !(Prefix <= password)
    ensures Hash(password, salt, kdf) != password
  {
  }
}
