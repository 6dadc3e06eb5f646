/** The authentication rules: what a registration must satisfy, the order of
    the checks the request guard makes on a bearer token, and the claims a
    freshly issued token carries. Token signing and decoding, password hashing
    and the clock are outside the model: the decoded claims (if the token
    decodes), the user lookup and the current time are parameters. */
module Auth {
  import opened Wrappers
  import opened Text
  import opened Externals

  // ---------------------------------------------------------------------
  // Registration.
  // ---------------------------------------------------------------------

  const MinPasswordLen: nat := 8
  const UsernameMessage := "Username must be alphanumeric (a-z, A-Z, 0-9)."

  /** `format!("Password must be at least {} characters long.", MIN_PASSWORD_LEN)`. */
  function PasswordMessage(): string {
    "Password must be at least " + NatToString(MinPasswordLen) + " characters long."
  }

  predicate IsAsciiAlphanumeric(c: char) {
    ('a' <= c <= 'z') || ('A' <= c <= 'Z') || ('0' <= c <= '9')
  }

  /** `^[a-zA-Z0-9]+$` matched against the whole text, written as a scan. */
  function MatchesUsername(s: string): (b: bool)
    ensures b <==> s != [] && forall k :: 0 <= k < |s| ==> IsAsciiAlphanumeric(s[k])
    decreases |s|
  {
    if s == [] then false
    else if !IsAsciiAlphanumeric(s[0]) then false
    else if |s| == 1 then true
    else
      var b := MatchesUsername(s[1..]);
      assert forall k :: 1 <= k < |s| ==> s[k] == s[1..][k - 1];
      b
  }

  /** Bytes of one character in UTF-8. */
  function Utf8Width(c: char): (n: nat)
    ensures 1 <= n <= 4
  {
    if c < '\U{80}' then 1
    else if c < '\U{800}' then 2
    else if c < '\U{10000}' then 3
    else 4
  }

  /** `str::len`: the length of the text in UTF-8 bytes. */
  function Utf8Length(s: string): nat
    decreases |s|
  {
    if s == [] then 0 else Utf8Width(s[0]) + Utf8Length(s[1..])
  }

  /** A text has at least one byte per character and at most four. */
  lemma {:induction false} Utf8LengthBounds(s: string)
    ensures |s| <= Utf8Length(s) <= 4 * |s|
    decreases |s|
  {
    if s != [] {
      Utf8LengthBounds(s[1..]);
    }
  }

  /** `validate_registration`: the username first, then the password's length
      in bytes. */
  function ValidateRegistration(username: string, password: string): Result<(), string> {
    if !MatchesUsername(username) then Failure(UsernameMessage)
    else if Utf8Length(password) < MinPasswordLen then Failure(PasswordMessage())
    else Success(())
  }

  /** Registration is accepted exactly for a non-empty ASCII letters-and-digits
      username and a password of at least 8 bytes; a bad username is reported
      even when the password is also too short. */
  lemma ValidateRegistrationIff(username: string, password: string)
    ensures ValidateRegistration(username, password).Success? <==>
      && username != [] && (forall k :: 0 <= k < |username| ==> IsAsciiAlphanumeric(username[k]))
      && Utf8Length(password) >= 8
    ensures (username == [] || exists k :: 0 <= k < |username| && !IsAsciiAlphanumeric(username[k])) ==>
      ValidateRegistration(username, password) == Failure(UsernameMessage)
    ensures MatchesUsername(username) && Utf8Length(password) < 8 ==>
      ValidateRegistration(username, password) == Failure(PasswordMessage())
  {
  }

  /** The length is counted in bytes, not characters: eight characters always
      suffice, and fewer can, when some of them take several bytes. */
  lemma PasswordLengthInBytes(username: string, password: string)
    requires MatchesUsername(username)
    ensures |password| >= 8 ==> ValidateRegistration(username, password).Success?
    ensures |password| < 2 ==> ValidateRegistration(username, password) == Failure(PasswordMessage())
  {
    Utf8LengthBounds(password);
  }

  /** A four-character password of two-byte characters is accepted, although
      the message speaks of eight characters. */
  lemma FourCharacterPasswordAccepted()
    ensures ValidateRegistration("alice", "éééé") == Success(())
    ensures |"éééé"| == 4
  {
  }

  /** The password message names the limit: 8. */
  lemma PasswordMessageText()
    ensures PasswordMessage() == "Password must be at least 8 characters long."
  {
  }

  // ---------------------------------------------------------------------
  // The request guard.
  // ---------------------------------------------------------------------

  /** The token's claims: subject (the user id), expiry and issue time, in
      seconds since the epoch. */
  datatype Claims = Claims(sub: int, exp: int, iat: int)

  /** What the guard attaches to an admitted request. */
  datatype AuthUser = AuthUser(userId: int)

  /** A refused request: the HTTP status and the message. */
  datatype Rejection = Rejection(status: nat, message: string)

  const Unauthorized: nat := 401
  const InternalServerError: nat := 500

  /** `auth_middleware`. `decoded` is the outcome of decoding and validating
      the bearer token (`None` when the library rejects it); `userExists` is
      the outcome of looking a user id up. */
  function AuthDecide(decoded: Option<Claims>, now: int, userExists: int -> Result<bool, DbError>): Result<AuthUser, Rejection> {
    match decoded
    case None => Failure(Rejection(Unauthorized, "Invalid token"))
    case Some(claims) =>
      if claims.exp < now then Failure(Rejection(Unauthorized, "Token has expired"))
      else match userExists(claims.sub)
        case Failure(_) => Failure(Rejection(InternalServerError, "Internal server error"))
        case Success(false) => Failure(Rejection(Unauthorized, "User does not exist"))
        case Success(true) => Success(AuthUser(claims.sub))
  }

  /** A request is admitted exactly when its token decodes, has not expired
      (a token expiring this very second still passes) and names an existing
      user; it is then attributed to the token's subject. */
  lemma AuthAdmitsIff(decoded: Option<Claims>, now: int, userExists: int -> Result<bool, DbError>)
    ensures AuthDecide(decoded, now, userExists).Success? <==>
      decoded.Some? && now <= decoded.value.exp && userExists(decoded.value.sub) == Success(true)
    ensures AuthDecide(decoded, now, userExists).Success? ==>
      AuthDecide(decoded, now, userExists).value == AuthUser(decoded.value.sub)
  {
  }

  /** The checks run in order (decoding, expiry, lookup, existence) and the
      first that fails decides the answer; the user table is not consulted
      for a token that is invalid or expired. */
  lemma AuthCheckOrder(decoded: Option<Claims>, now: int, userExists: int -> Result<bool, DbError>, other: int -> Result<bool, DbError>)
    ensures decoded.None? ==>
      AuthDecide(decoded, now, userExists) == Failure(Rejection(Unauthorized, "Invalid token"))
    ensures decoded.Some? && decoded.value.exp < now ==>
      AuthDecide(decoded, now, userExists) == Failure(Rejection(Unauthorized, "Token has expired"))
    ensures (decoded.None? || decoded.value.exp < now) ==>
      AuthDecide(decoded, now, userExists) == AuthDecide(decoded, now, other)
    ensures decoded.Some? && now <= decoded.value.exp && userExists(decoded.value.sub).Failure? ==>
      AuthDecide(decoded, now, userExists) == Failure(Rejection(InternalServerError, "Internal server error"))
    ensures decoded.Some? && now <= decoded.value.exp && userExists(decoded.value.sub) == Success(false) ==>
      AuthDecide(decoded, now, userExists) == Failure(Rejection(Unauthorized, "User does not exist"))
  {
  }

  // ---------------------------------------------------------------------
  // Issuing a token.
  // ---------------------------------------------------------------------

  /** Seven days, in seconds. */
  const TokenLifetime: int := 7 * 86400

  /** The claims `create_jwt` signs for `userId` at time `now`. */
  function IssueClaims(userId: int, now: int): Claims {
    Claims(userId, now + TokenLifetime, now)
  }

  /** An issued token names its user and expires 604800 seconds (seven days)
      after it was issued. */
  lemma IssueClaimsFields(userId: int, now: int)
    ensures var c := IssueClaims(userId, now);
      c.sub == userId && c.iat == now && c.exp == c.iat + 604800 && c.exp > c.iat
  {
  }

  /** Once decoded, an issued token admits its user up to and including the
      second it expires, and is refused as expired after that. */
  lemma IssuedTokenLifetime(userId: int, issuedAt: int, now: int, userExists: int -> Result<bool, DbError>)
    requires userExists(userId) == Success(true)
    ensures issuedAt <= now <= issuedAt + 604800 ==>
      AuthDecide(Some(IssueClaims(userId, issuedAt)), now, userExists) == Success(AuthUser(userId))
    ensures now > issuedAt + 604800 ==>
      AuthDecide(Some(IssueClaims(userId, issuedAt)), now, userExists) == Failure(Rejection(Unauthorized, "Token has expired"))
  {
  }
}
