/**
 * The access guard (app/users/dependencies.py): the cookie, the token
 * payload and the row it names, checked in a fixed order, each failure
 * with its own error. The clock `now` is an `Instant`, in microseconds.
 */
module Dependencies {
  import opened Wrappers
  import opened Models
  import opened BaseDao
  import opened Auth
  import Numerals

  /**
   * The errors the guard raises. `Unhandled` is an exception the guard does
   * not catch: the `ValueError` of `int()` on a claim that is not a numeral,
   * or the `AttributeError` of reading an attribute the row does not have.
   */
  datatype GuardError =
    | TokenAbsent
    | IncorrectTokenFormat
    | TokenExpired
    | UserIsNotPresent
    | Unhandled(exception: string)

  const CookieName: string := "access_token"

  /** `get_token(request)`: the `access_token` cookie, which must be present and non-empty. */
  function GetToken(cookies: map<string, string>): (r: Result<string, GuardError>)
    ensures r.Ok? <==> CookieName in cookies && cookies[CookieName] != ""
    ensures r.Ok? ==> r.value == cookies[CookieName]
    ensures r.Err? ==> r.error == TokenAbsent
  {
    if CookieName in cookies && cookies[CookieName] != "" then Ok(cookies[CookieName]) else Err(TokenAbsent)
  }

  /** Python truthiness of a claim: zero and the empty string are false. */
  predicate Truthy(c: Claim)
  {
    match c
    case NumClaim(n) => n != 0
    case StrClaim(s) => s != ""
  }

  /**
   * The guard's own expiry test passes: `exp` is present, truthy and a
   * numeral, and not before `now`. The source compares the integer with the
   * float `timestamp()`, which is exact in microseconds.
   */
  predicate Unexpired(p: Claims, now: Instant)
  {
    "exp" in p && Truthy(p["exp"]) && ClaimToInt(p["exp"]).Some? && ClaimToInt(p["exp"]).value * MicrosPerSecond >= now
  }

  /** The checks on `sub`, once `exp` has passed: the id it names, or the error. */
  function Subject(p: Claims): (r: Result<int, GuardError>)
    ensures r.Ok? <==> "sub" in p && Truthy(p["sub"]) && ClaimToInt(p["sub"]).Some?
    ensures r.Ok? ==> r.value == ClaimToInt(p["sub"]).value
    ensures "sub" !in p || !Truthy(p["sub"]) ==> r == Err(UserIsNotPresent)
    ensures "sub" in p && Truthy(p["sub"]) && ClaimToInt(p["sub"]).None? ==> r == Err(Unhandled("ValueError"))
  {
    if "sub" !in p || !Truthy(p["sub"]) then Err(UserIsNotPresent)
    else match ClaimToInt(p["sub"])
      case None => Err(Unhandled("ValueError"))
      case Some(id) => Ok(id)
  }

  /** What `get_current_user` does with a decoded payload, in order: `exp`, then `sub`, then the row. */
  function GuardPayload(p: Claims, now: Instant, rows: map<nat, Account>): (r: Result<Account, GuardError>)
    ensures ("exp" !in p || !Truthy(p["exp"])) ==> r == Err(TokenExpired)
    ensures "exp" in p && Truthy(p["exp"]) && ClaimToInt(p["exp"]).None? ==> r == Err(Unhandled("ValueError"))
    ensures "exp" in p && ClaimToInt(p["exp"]).Some? && ClaimToInt(p["exp"]).value * MicrosPerSecond < now ==> r == Err(TokenExpired)
    ensures Unexpired(p, now) && Subject(p).Err? ==> r == Err(Subject(p).error)
    ensures r.Ok? <==> Unexpired(p, now) && Subject(p).Ok? && Subject(p).value >= 0 && Subject(p).value in rows
    ensures r.Ok? ==> r.value == rows[Subject(p).value]
    ensures r.Ok? && KeyedById(rows) ==> r.value.id == Subject(p).value
    ensures r.Err? && Unexpired(p, now) && Subject(p).Ok? ==> r == Err(UserIsNotPresent)
  {
    if "exp" !in p || !Truthy(p["exp"]) then Err(TokenExpired)
    else match ClaimToInt(p["exp"])
      case None => Err(Unhandled("ValueError"))
      case Some(exp) =>
        if exp * MicrosPerSecond < now then Err(TokenExpired)
        else match Subject(p)
          case Err(e) => Err(e)
          case Ok(id) => if id >= 0 && id in rows then Ok(rows[id]) else Err(UserIsNotPresent)
  }

  /** `get_current_user(token)` at instant `now`: `jwt.decode` with its default options, then the payload checks. */
  function GetCurrentUser(codec: JwtCodec, token: string, now: Instant, rows: map<nat, Account>): (r: Result<Account, GuardError>)
    ensures JwtDecode(codec, token, now, true).None? ==> r == Err(IncorrectTokenFormat)
    ensures JwtDecode(codec, token, now, true).Some? ==> r == GuardPayload(JwtDecode(codec, token, now, true).value, now, rows)
    ensures r.Ok? <==>
      && JwtDecode(codec, token, now, true).Some?
      && Unexpired(JwtDecode(codec, token, now, true).value, now)
      && Subject(JwtDecode(codec, token, now, true).value).Ok?
      && var id := Subject(JwtDecode(codec, token, now, true).value).value; id >= 0 && id in rows
  {
    match JwtDecode(codec, token, now, true)
    case None => Err(IncorrectTokenFormat)
    case Some(p) => GuardPayload(p, now, rows)
  }

  /**
   * `get_current_user` as intended: jose's own expiry check is switched off
   * (`options={"verify_exp": False}`), so the guard's test decides and an
   * expired token is answered with TokenExpired.
   */
  function GetCurrentUserCorrected(codec: JwtCodec, token: string, now: Instant, rows: map<nat, Account>): (r: Result<Account, GuardError>)
    ensures JwtDecode(codec, token, now, false).None? ==> r == Err(IncorrectTokenFormat)
    ensures JwtDecode(codec, token, now, false).Some? ==> r == GuardPayload(JwtDecode(codec, token, now, false).value, now, rows)
  {
    match JwtDecode(codec, token, now, false)
    case None => Err(IncorrectTokenFormat)
    case Some(p) => GuardPayload(p, now, rows)
  }

  /** The guard from the request's cookies: `get_token` feeding `get_current_user`. */
  function CurrentUser(codec: JwtCodec, cookies: map<string, string>, now: int, rows: map<nat, Account>): (r: Result<Account, GuardError>)
    ensures GetToken(cookies).Err? ==> r == Err(TokenAbsent)
    ensures GetToken(cookies).Ok? ==> r == GetCurrentUser(codec, GetToken(cookies).value, now, rows)
  {
    match GetToken(cookies)
    case Err(e) => Err(e)
    case Ok(token) => GetCurrentUser(codec, token, now, rows)
  }

  /**
   * `get_current_admin_user(user)` as written: it compares the row's `role`
   * attribute with "admin", but a User row has no such attribute.
   */
  function GetCurrentAdminUserAsWritten(u: Account): (r: Result<Account, GuardError>)
    ensures r == Err(Unhandled("AttributeError"))
  {
    match GetAttr(u, "role")
    case None => Err(Unhandled("AttributeError"))
    case Some(role) => if role == StrVal("admin") then Ok(u) else Err(UserIsNotPresent)
  }

  /** The admin guard as intended: the row's `is_admin` flag decides, and a refusal reuses UserIsNotPresent. */
  function GetCurrentAdminUser(u: Account): (r: Result<Account, GuardError>)
    ensures r.Ok? <==> u.isAdmin
    ensures r.Ok? ==> r.value == u
    ensures r.Err? ==> r.error == UserIsNotPresent
  {
    if u.isAdmin then Ok(u) else Err(UserIsNotPresent)
  }

  /** The claims a login signs: `{"sub": str(id)}`. */
  function SubjectClaims(id: int): (c: Claims)
    ensures "sub" in c && "exp" !in c && c["sub"] == StrClaim(Numerals.IntToString(id))
  {
    map["sub" := StrClaim(Numerals.IntToString(id))]
  }

  /** The `exp` a token issued at `issuedAt` carries, in whole seconds. */
  function IssuedExpiry(issuedAt: Instant): (e: int)
    ensures e == WholeSeconds(issuedAt) + TokenLifetime
  {
    AccessTokenClaims(SubjectClaims(0), issuedAt)["exp"].n
  }

  /** The payload of a login token issued for `id` passes the guard's `sub` check with that id, and every jose check but the expiry. */
  lemma IssuedPayload(id: nat, issuedAt: Instant, now: Instant)
    requires issuedAt >= 0
    ensures var p := AccessTokenClaims(SubjectClaims(id), issuedAt);
      && Subject(p) == Ok(id)
      && ClaimsAccepted(p, WholeSeconds(now), false)
      && (ClaimsAccepted(p, WholeSeconds(now), true) <==> WholeSeconds(now) <= IssuedExpiry(issuedAt))
      && (Unexpired(p, now) <==> now <= IssuedExpiry(issuedAt) * MicrosPerSecond)
  {
    var p := AccessTokenClaims(SubjectClaims(id), issuedAt);
    assert p["exp"] == NumClaim(IssuedExpiry(issuedAt));
    assert Truthy(p["exp"]) && ClaimToInt(p["exp"]) == Some(IssuedExpiry(issuedAt));
    Numerals.ParseIntRoundTrip(id);
    assert p["sub"] == StrClaim(Numerals.IntToString(id));
    assert Truthy(p["sub"]) && ClaimToInt(p["sub"]) == Some(id);
    assert p.Keys == {"sub", "exp"};
  }

  /**
   * A token issued for a stored id, presented at `now`: it resolves to that
   * row up to its `exp` second. After that second jose refuses it, and the
   * guard answers IncorrectTokenFormat. TokenExpired is given only within
   * the `exp` second itself, past its first microsecond.
   */
  lemma {:induction false} IssuedTokenResolves(codec: JwtCodec, rows: map<nat, Account>, id: nat, issuedAt: Instant, now: Instant)
    requires CodecSound(codec)
    requires id in rows
    requires issuedAt >= 0
    ensures var t := CreateAccessToken(codec, SubjectClaims(id), issuedAt);
      var e := IssuedExpiry(issuedAt);
      GetCurrentUser(codec, t, now, rows)
        == if WholeSeconds(now) > e then Err(IncorrectTokenFormat)
           else if now > e * MicrosPerSecond then Err(TokenExpired)
           else Ok(rows[id])
  {
    var t := CreateAccessToken(codec, SubjectClaims(id), issuedAt);
    var p := AccessTokenClaims(SubjectClaims(id), issuedAt);
    assert codec.decode(t) == Some(p);
    IssuedPayload(id, issuedAt, now);
  }

  /** With the corrected guard, the same token resolves to its row up to its `exp` and is TokenExpired after it. */
  lemma {:induction false} IssuedTokenResolvesCorrected(codec: JwtCodec, rows: map<nat, Account>, id: nat, issuedAt: Instant, now: Instant)
    requires CodecSound(codec)
    requires id in rows
    requires issuedAt >= 0
    ensures var t := CreateAccessToken(codec, SubjectClaims(id), issuedAt);
      GetCurrentUserCorrected(codec, t, now, rows)
        == if now > IssuedExpiry(issuedAt) * MicrosPerSecond then Err(TokenExpired) else Ok(rows[id])
  {
    var t := CreateAccessToken(codec, SubjectClaims(id), issuedAt);
    var p := AccessTokenClaims(SubjectClaims(id), issuedAt);
    assert codec.decode(t) == Some(p);
    IssuedPayload(id, issuedAt, now);
  }

  /**
   * As written, the guard's TokenExpired is nearly dead: once jose has
   * accepted the payload, it is given only when the payload has no `exp`, or
   * when `exp` is the current second and the clock is past its first
   * microsecond. (Any clock reading after the first second of 1970.)
   */
  lemma TokenExpiredNearlyDead(codec: JwtCodec, token: string, now: Instant, rows: map<nat, Account>)
    requires now >= MicrosPerSecond
    ensures GetCurrentUser(codec, token, now, rows) == Err(TokenExpired) ==>
      var p := codec.decode(token).value;
      "exp" !in p || (ClaimToInt(p["exp"]) == Some(WholeSeconds(now)) && now % MicrosPerSecond != 0)
  {
    if GetCurrentUser(codec, token, now, rows) == Err(TokenExpired) {
      var p := codec.decode(token).value;
      assert ClaimsAccepted(p, WholeSeconds(now), true);
      if "exp" in p {
        var e := ClaimToInt(p["exp"]).value;
        assert e >= WholeSeconds(now) >= 1;
        assert Truthy(p["exp"]);
        assert e * MicrosPerSecond < now;
      }
    }
  }

  /** A token without `sub` that fails the guard's expiry test is refused for its `exp`, never as UserIsNotPresent. */
  lemma ExpiryBeforeSubject(codec: JwtCodec, token: string, now: Instant, rows: map<nat, Account>)
    requires JwtDecode(codec, token, now, true).Some?
    requires "sub" !in JwtDecode(codec, token, now, true).value
    requires !Unexpired(JwtDecode(codec, token, now, true).value, now)
    ensures GetCurrentUser(codec, token, now, rows) == Err(TokenExpired)
  {
  }
}
