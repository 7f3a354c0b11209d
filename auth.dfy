/**
 * Password hashing, token issuance and credential checking (app/users/auth.py).
 * bcrypt and the JWT codec are not implemented here: each is a pair of
 * functions the model is parameterised by, together with the one law the
 * service relies on. python-jose's checks of the registered claims, which
 * run inside `jwt.decode`, are modelled explicitly, since they depend on
 * the clock.
 */
module Auth {
  import opened Wrappers
  import opened Models
  import opened BaseDao
  import Utf8
  import Numerals

  /** bcrypt: `hashpw(password, salt)` and `checkpw(password, hashed)`. */
  datatype Hasher = Hasher(hashpw: (Bytes, Bytes) -> Bytes, checkpw: (Bytes, Bytes) -> bool)

  /** The hasher's law: a password checks against any hash made from it, whatever the salt. */
  ghost predicate HasherSound(h: Hasher)
  {
    forall p, s :: h.checkpw(p, h.hashpw(p, s))
  }

  /** `get_password_hash(password)`, where `salt` is what `bcrypt.gensalt()` returned for this call. */
  function GetPasswordHash(h: Hasher, password: Bytes, salt: Bytes): (r: Bytes)
    ensures HasherSound(h) ==> h.checkpw(password, r)
  {
    h.hashpw(password, salt)
  }

  /** A candidate password as the caller supplies it: text or raw bytes. */
  datatype Plain = Text(text: string) | Raw(raw: Bytes)

  /** Text is encoded as UTF-8; bytes are passed through unchanged. */
  function PasswordBytes(p: Plain): (b: Bytes)
    ensures p.Raw? ==> b == p.raw
    ensures p.Text? ==> Utf8.Decode(b) == Some(p.text)
  {
    match p
    case Text(s) => Utf8.DecodeEncode(s); Utf8.Encode(s)
    case Raw(b) => b
  }

  /** `verify_password(plain_password, hashed_password)`: text is checked as its UTF-8 bytes, bytes as they are. */
  function VerifyPassword(h: Hasher, plain: Plain, hashed: Bytes): (r: bool)
    ensures plain.Raw? ==> r == h.checkpw(plain.raw, hashed)
    ensures plain.Text? ==> r == h.checkpw(Utf8.Encode(plain.text), hashed)
  {
    h.checkpw(PasswordBytes(plain), hashed)
  }

  /** A password verifies against its own hash, given as bytes or as the text it encodes. */
  lemma VerifyOwnHash(h: Hasher, password: string, salt: Bytes)
    requires HasherSound(h)
    ensures VerifyPassword(h, Raw(Utf8.Encode(password)), GetPasswordHash(h, Utf8.Encode(password), salt))
    ensures VerifyPassword(h, Text(password), GetPasswordHash(h, Utf8.Encode(password), salt))
  {
  }

  /** Checking text is checking its UTF-8 bytes. */
  lemma VerifyTextAsBytes(h: Hasher, password: string, hashed: Bytes)
    ensures VerifyPassword(h, Text(password), hashed) == VerifyPassword(h, Raw(Utf8.Encode(password)), hashed)
  {
  }

  /** A claim value in a token payload: a number or a string. */
  datatype Claim = NumClaim(n: int) | StrClaim(s: string)

  type Claims = map<string, Claim>

  /** `int(claim)`: a number as it is, a string through the numeral parser; None is a ValueError. */
  function ClaimToInt(c: Claim): (r: Option<int>)
    ensures c.NumClaim? ==> r == Some(c.n)
    ensures c.StrClaim? && r.Some? ==> c.s != ""
  {
    match c
    case NumClaim(n) => Some(n)
    case StrClaim(s) => Numerals.ParseInt(s)
  }

  /** A reading of `datetime.now(UTC)`: microseconds since the epoch, the resolution of `datetime`. */
  type Instant = int

  const MicrosPerSecond: int := 1000000

  /** The whole seconds of an instant, as `timegm(t.utctimetuple())` gives them: the microseconds are dropped. */
  function WholeSeconds(t: Instant): (s: int)
    ensures s * MicrosPerSecond <= t < (s + 1) * MicrosPerSecond
  {
    t / MicrosPerSecond
  }

  /**
   * The signing layer of the JWT library for the configured key and
   * algorithm: `encode` signs a payload and `decode` returns the payload of
   * a token whose signature verifies. The model states only that the tokens
   * the codec signs decode to their payloads (`CodecSound`); what `decode`
   * gives for any other string is left open.
   */
  datatype JwtCodec = JwtCodec(encode: Claims -> string, decode: string -> Option<Claims>)

  /** The codec's law: every payload it signs is a non-empty token whose signature verifies, giving that payload back. */
  ghost predicate CodecSound(codec: JwtCodec)
  {
    forall p :: codec.encode(p) != "" && codec.decode(codec.encode(p)) == Some(p)
  }

  /**
   * python-jose's checks of the registered claims in `jwt.decode`, at `now`
   * whole seconds with leeway 0 and no audience, issuer or access token
   * given: `iat`, `nbf` and `exp` must be integers, `nbf` not in the future,
   * `exp` not in the past (unless `verifyExp` is off); any `aud` or
   * `at_hash` is refused; `sub` and `jti` must be strings.
   */
  predicate ClaimsAccepted(p: Claims, now: int, verifyExp: bool)
  {
    && ("iat" in p ==> ClaimToInt(p["iat"]).Some?)
    && ("nbf" in p ==> ClaimToInt(p["nbf"]).Some? && ClaimToInt(p["nbf"]).value <= now)
    && (verifyExp && "exp" in p ==> ClaimToInt(p["exp"]).Some? && ClaimToInt(p["exp"]).value >= now)
    && "aud" !in p
    && ("sub" in p ==> p["sub"].StrClaim?)
    && ("jti" in p ==> p["jti"].StrClaim?)
    && "at_hash" !in p
  }

  /**
   * `jwt.decode(token, key, algorithms)` at instant `now`, with `verify_exp`
   * as given (on by default): the payload, or None for the JWTError raised
   * by a bad signature (JWSError), an expired token (ExpiredSignatureError)
   * or a refused claim (JWTClaimsError).
   */
  function JwtDecode(codec: JwtCodec, token: string, now: Instant, verifyExp: bool): (r: Option<Claims>)
    ensures r.Some? <==> codec.decode(token).Some? && ClaimsAccepted(codec.decode(token).value, WholeSeconds(now), verifyExp)
    ensures r.Some? ==> r == codec.decode(token)
  {
    match codec.decode(token)
    case None => None
    case Some(p) => if ClaimsAccepted(p, WholeSeconds(now), verifyExp) then Some(p) else None
  }

  /** Twenty-four hours, in seconds. */
  const TokenLifetime: int := 24 * 60 * 60

  /**
   * The payload `create_access_token` signs at instant `now`: a copy of the
   * caller's claims with `exp` set 24 hours later, in whole seconds, as jose
   * converts a datetime claim.
   */
  function AccessTokenClaims(data: Claims, now: Instant): (r: Claims)
    ensures "exp" in r && r["exp"] == NumClaim(WholeSeconds(now) + TokenLifetime)
    ensures r.Keys == data.Keys + {"exp"}
    ensures forall k :: k in data && k != "exp" ==> r[k] == data[k]
  {
    data["exp" := NumClaim((now + TokenLifetime * MicrosPerSecond) / MicrosPerSecond)]
  }

  /** `create_access_token(data)` at instant `now`. */
  function CreateAccessToken(codec: JwtCodec, data: Claims, now: Instant): (token: string)
    ensures CodecSound(codec) ==> token != "" && codec.decode(token) == Some(AccessTokenClaims(data, now))
  {
    codec.encode(AccessTokenClaims(data, now))
  }

  /**
   * `authenticate_user(email, password)`: the row with that email if it is
   * the only one, the password checks against its hash and it is verified.
   */
  function AuthenticateUser(h: Hasher, rows: map<nat, Account>, email: string, password: Bytes): (r: Option<Account>)
    ensures r.Some? <==>
      && |MatchIds(rows, EmailFilter(email))| == 1
      && forall k :: k in MatchIds(rows, EmailFilter(email)) ==>
           VerifyPassword(h, Raw(password), rows[k].passwordHashed) && rows[k].isVerified
    ensures r.Some? ==> r.value in rows.Values && r.value.email == email && r.value.isVerified
  {
    var user := FindUnique(rows, EmailFilter(email));
    if user.Some? && VerifyPassword(h, Raw(password), user.value.passwordHashed) && user.value.isVerified then
      user
    else
      None
  }

  /** The credential check without the verified flag. */
  function CheckCredentials(h: Hasher, rows: map<nat, Account>, email: string, password: Bytes): (r: Option<Account>)
    ensures r.Some? <==>
      && |MatchIds(rows, EmailFilter(email))| == 1
      && forall k :: k in MatchIds(rows, EmailFilter(email)) ==> VerifyPassword(h, Raw(password), rows[k].passwordHashed)
    ensures r.Some? ==> r.value in rows.Values && r.value.email == email
  {
    var user := FindUnique(rows, EmailFilter(email));
    if user.Some? && VerifyPassword(h, Raw(password), user.value.passwordHashed) then user else None
  }

  /** `authenticate_user` is the credential check followed by the verified flag. */
  lemma AuthenticateIsCredentialsAndVerified(h: Hasher, rows: map<nat, Account>, email: string, password: Bytes)
    ensures AuthenticateUser(h, rows, email, password)
         == match CheckCredentials(h, rows, email, password)
            case Some(u) => if u.isVerified then Some(u) else None
            case None => None
  {
  }
}
