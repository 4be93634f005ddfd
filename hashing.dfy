/** The secret hasher consumed by the user service (BCrypt's HashPassword and
    Verify). Hashing is a foreign, salted, one-way computation, so the model
    does not define it: the service receives a `Hasher` value and relies only
    on the properties stated by the predicates below. */
module Hashing {

  /** The random salt a hashing call draws; passing it in makes each call
      deterministic for a given draw. */
  type Salt = seq<bv8>

  /** A stored password hash. It is its own type so that a stored digest is
      explicit; that the stored digest is the hasher's output is stated by the
      operations' contracts. */
  datatype Digest = Digest(text: string)

  /** `hash(password, salt)` is BCrypt's HashPassword with the salt it drew;
      `verify(password, digest)` is BCrypt's Verify. Both are taken to be
      total: the exception Verify throws on a digest it cannot parse is not
      modelled. */
  datatype Hasher = Hasher(hash: (string, Salt) -> Digest, verify: (string, Digest) -> bool)

  /** A digest made from a password always verifies that password, whatever
      salt was drawn. */
  ghost predicate Sound(h: Hasher)
  {
    forall password, salt :: h.verify(password, h.hash(password, salt))
  }

  /** Idealisation: a digest made from one password verifies no other
      password. Real BCrypt does not meet it: besides collisions, it reads only
      the first 72 bytes of the password's UTF-8 encoding, so passwords that
      agree on those bytes verify against each other's digest. */
  ghost predicate Binding(h: Hasher)
  {
    forall password, other, salt :: h.verify(other, h.hash(password, salt)) ==> other == password
  }

  lemma VerifyAfterHash(h: Hasher, password: string, salt: Salt)
    requires Sound(h)
    ensures h.verify(password, h.hash(password, salt))
  {
  }

  lemma VerifyRejectsOther(h: Hasher, password: string, other: string, salt: Salt)
    requires Binding(h)
    requires other != password
    ensures !h.verify(other, h.hash(password, salt))
  {
  }
}
