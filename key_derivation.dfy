/** Password-based key derivation: PBKDF2 (section 5.2 of RFC 8018) with
    HMAC-SHA256 as its pseudorandom function. */
module KeyDerivation {

  /** The hash underlying HMAC; the code fixes SHA-256. */
  datatype Hash = Sha256

  /** Iteration count and derived-key length: fixed, part of the container
      format, since a change would make old containers undecryptable. */
  const Iterations: nat := 100000
  const KeyLength: nat := 32

  /** PBKDF2 as a function of (hash, password, salt, iteration count,
      derived-key length). Its internals are not modelled. */
  type Pbkdf2 = (Hash, string, seq<bv8>, nat, nat) -> seq<bv8>

  /** What the model assumes of PBKDF2: it returns as many bytes as asked
      for. Being a function, it is deterministic. */
  ghost predicate IsPbkdf2(kdf: Pbkdf2) {
    forall h, password, salt, c, dkLen :: |kdf(h, password, salt, c, dkLen)| == dkLen
  }

  /** `derive_key`: a 32-byte AES-256 key from the password and the salt, which
      may be of any length (on decryption it is whatever the container holds). */
  function DeriveKey(kdf: Pbkdf2, password: string, salt: seq<bv8>): (key: seq<bv8>)
    requires IsPbkdf2(kdf)
    ensures |key| == KeyLength
  {
    kdf(Sha256, password, salt, Iterations, KeyLength)
  }
}
