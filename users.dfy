/** The stored user record (`UserModel`) and the values it is built from. */
module Users {

  /** One element of a C# `byte[]`. */
  newtype byte = b: int | 0 <= b < 256

  /** A `System.Guid`: a 128-bit value. */
  newtype Guid = g: int | 0 <= g < 0x1_0000_0000_0000_0000_0000_0000_0000_0000

  /** One row of the user table. `password` holds whatever the service stores there:
      the Base64 PBKDF2 hash in the current service, the plaintext in the older one. */
  datatype User = User(id: Guid, username: string, email: string, password: string, salt: seq<byte>)
}
