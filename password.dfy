/** The password hashing the server relies on (Argon2 with a random salt), reduced to
    what the handlers use of it: hashing a password with a salt, parsing the stored
    hash string back, and verifying a password against a parsed hash. */
module Password {
  import opened Wrappers

  /** A parsed PHC hash string: the salt it was made with and the derived key. */
  datatype PasswordHash = PasswordHash(salt: string, key: int)

  /** What the `Users.password` column holds: a hash string that parses, or text that
      does not (which the login handler turns into an internal error). */
  datatype Stored = Phc(hash: PasswordHash) | Unparsable(text: string)

  /** Stand-in for Argon2's key derivation: a fixed 64-bit polynomial digest of the salt
      and the password. The handlers rely only on hashing and verification using the
      same derivation. */
  function DeriveKey(password: string, salt: string): int {
    Digest(salt + ['$'] + password)
  }

  function Digest(s: string): int {
    if s == [] then 7 else (Digest(s[..|s| - 1]) * 131 + s[|s| - 1] as int) % 0x1_0000_0000_0000_0000
  }

  /** Hashes `password` with `salt`; the result always verifies against that password. */
  function Hash(password: string, salt: string): (h: PasswordHash)
    ensures h.salt == salt
    ensures Verify(password, h)
  {
    PasswordHash(salt, DeriveKey(password, salt))
  }

  /** Parses the stored column; only a well-formed hash string parses. */
  function Parse(column: Stored): (r: Option<PasswordHash>)
    ensures r.Some? <==> column.Phc?
    ensures r.Some? ==> column == Phc(r.value)
  {
    match column
    case Phc(h) => Some(h)
    case Unparsable(_) => None
  }

  /** Whether `password` derives the key recorded in `h` under `h`'s salt. */
  predicate Verify(password: string, h: PasswordHash) {
    DeriveKey(password, h.salt) == h.key
  }

  /** A password verifies against a hash exactly when hashing it again with the hash's
      salt reproduces that hash. */
  lemma VerifyIffRehash(password: string, h: PasswordHash)
    ensures Verify(password, h) <==> Hash(password, h.salt) == h
  {
  }
}
