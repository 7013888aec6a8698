/** `PasswordHasher.HashPassword`: a fresh random salt and a PBKDF2 key derived from it.
    The random source and the key derivation are library code; both enter as parameters. */
module PasswordHashing {
  import opened Users

  /** `RandomNumberGenerator.GetBytes(128 / 8)`. */
  const SaltSize: nat := 128 / 8
  /** `numBytesRequested: 256 / 8`. */
  const KeySize: nat := 256 / 8
  /** `iterationCount: 100000`. */
  const Iterations: nat := 100000

  /** The bytes a call to the random number generator returns. */
  type Salt = s: seq<byte> | |s| == SaltSize witness seq(16, _ => 0)

  /** `Convert.ToBase64String(KeyDerivation.Pbkdf2(password, salt, HMACSHA256, Iterations, KeySize))`. */
  type Derivation = (string, Salt) -> string

  datatype Hashed = Hashed(salt: Salt, hash: string)

  /** The drawn salt together with the key derived from the password and that same salt. */
  function HashPassword(password: string, drawn: Salt, derive: Derivation): Hashed
  {
    Hashed(drawn, derive(password, drawn))
  }
}
