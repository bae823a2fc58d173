/** Password hashing (bcrypt) and session tokens (JWT), which the application
    takes from libraries. Both are kept symbolic: a digest records which
    password it was made from and a token records its payload. The
    application relies on `compare(pw, hash(pw))` holding, on a digest not
    being the plaintext, and on verifying a signed token giving back its
    payload; these definitions give that. They also make a digest match only
    the exact password it was made from, which is an idealisation: bcrypt
    reads at most the first 72 bytes of a password, so longer passwords
    sharing those bytes match each other too. Salting, the one-way property,
    collisions, signatures, secrets and the seven-day expiry are not
    modelled. */
module Security {
  import opened Common

  /** A bcrypt digest. It has its own type, so a stored password can never be
      a plaintext string. */
  datatype PasswordHash = Bcrypt(digestOf: string)

  function Hash(password: string): PasswordHash {
    Bcrypt(password)
  }

  /** `bcrypt.compare`, idealised: a password matches exactly the digests
      made from it. */
  function Compare(password: string, digest: PasswordHash): (matches: bool)
    ensures matches <==> digest == Hash(password)
  {
    digest.digestOf == password
  }

  /** The claims the application signs: the user's id and role name. */
  datatype TokenPayload = TokenPayload(id: Id, role: string)

  datatype Token = Jwt(payload: TokenPayload)

  function Sign(payload: TokenPayload): Token {
    Jwt(payload)
  }

  /** `jwt.verify`: gives back the signed payload. */
  function Verify(token: Token): (payload: Option<TokenPayload>)
    ensures payload.Some? && Sign(payload.value) == token
  {
    Some(token.payload)
  }
}
