/** A stand-in for `bcrypt.hashpw` and `bcrypt.checkpw`: a stored hash
    records the salt it was made with and is determined by the password's
    octets, and checking a password against it succeeds exactly for the
    octets it was made from. */
module Bcrypt {
  import opened Bytes

  datatype Hash = Hash(salt: nat, digest: seq<Byte>)

  /** `bcrypt.hashpw(password, salt)`. */
  function HashPw(password: seq<Byte>, salt: nat): (h: Hash)
    ensures h.salt == salt
  {
    Hash(salt, password)
  }

  /** `bcrypt.checkpw(password, hashed)`: hash the candidate again under the
      salt recorded in the stored hash and compare. */
  function CheckPw(password: seq<Byte>, hashed: Hash): (r: bool)
    ensures r <==> HashPw(password, hashed.salt) == hashed
  {
    hashed.digest == password
  }

  /** The one property the callers rely on: a hash accepts the password it
      was made from, whatever the salt, and no other. */
  lemma CheckPwExactly(password: seq<Byte>, candidate: seq<Byte>, salt: nat)
    ensures CheckPw(candidate, HashPw(password, salt)) <==> candidate == password
  {
  }

  /** Hashing the same password under two salts gives two different hashes. */
  lemma DistinctSaltsDistinctHashes(password: seq<Byte>, salt1: nat, salt2: nat)
    requires salt1 != salt2
    ensures HashPw(password, salt1) != HashPw(password, salt2)
  {
  }
}
