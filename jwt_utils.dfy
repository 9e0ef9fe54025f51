/**
 * Token claims. An access token carries `{sub, type: "access", exp}` with
 * `exp` a number of minutes ahead, a refresh token `{sub, type: "refresh",
 * exp}` with `exp` a number of days ahead. Signing is done by the JWT library
 * with the configured secret and algorithm: here it is the parameter `encode`,
 * and verifying-and-decoding (`decode_token`) is a parameter of its callers.
 * Instants are whole seconds since the epoch.
 *
 * The expiry is a `datetime`, which holds the years 1 to 9999 only: an
 * addition that leaves that range raises `OverflowError`, so both creators
 * are partial and come back `None` there.
 */
module JwtUtils {
  import opened Wrappers
  import opened Rows
  import Settings

  const SecondsPerMinute := 60
  const SecondsPerDay := 86400

  /** 0001-01-01T00:00:00Z and 9999-12-31T23:59:59Z, the first and the last
      whole second a `datetime` can hold. */
  const MinInstant := -62135596800
  const MaxInstant := 253402300799

  /** An instant `datetime` arithmetic can produce without overflowing. */
  predicate Representable(t: int) {
    MinInstant <= t <= MaxInstant
  }

  datatype TokenType = Access | Refresh {
    /** The value of the `type` claim. */
    function Name(): string {
      match this
      case Access => "access"
      case Refresh => "refresh"
    }
  }

  datatype Claims = Claims(sub: string, typ: TokenType, exp: int) {
    /** The payload handed to the signer. */
    function Payload(): (p: Row)
      ensures p.Keys == {"sub", "type", "exp"}
      ensures p["sub"] == JStr(sub) && p["type"] == JStr(typ.Name()) && p["exp"] == JNum(exp)
    {
      map["sub" := JStr(sub), "type" := JStr(typ.Name()), "exp" := JNum(exp)]
    }
  }

  /** The claims of `create_access_token(sub)` at instant `now`, or `None`
      when the expiry would leave the range of `datetime`. */
  function AccessClaims(sub: string, now: int, minutes: int): (c: Option<Claims>)
    ensures c.Some? <==> Representable(now + minutes * SecondsPerMinute)
    ensures c.Some? ==> c.value.typ == Access && c.value.sub == sub
    ensures c.Some? ==> c.value.exp - now == minutes * SecondsPerMinute
  {
    var exp := now + minutes * SecondsPerMinute;
    if Representable(exp) then Some(Claims(sub, Access, exp)) else None
  }

  /** The claims of `create_refresh_token(sub)` at instant `now`, or `None`
      when the expiry would leave the range of `datetime`. */
  function RefreshClaims(sub: string, now: int, days: int): (c: Option<Claims>)
    ensures c.Some? <==> Representable(now + days * SecondsPerDay)
    ensures c.Some? ==> c.value.typ == Refresh && c.value.sub == sub
    ensures c.Some? ==> c.value.exp - now == days * SecondsPerDay
  {
    var exp := now + days * SecondsPerDay;
    if Representable(exp) then Some(Claims(sub, Refresh, exp)) else None
  }

  /** `create_access_token`: the signed access payload; `None` where the
      expiry overflows. */
  function CreateAccessToken(encode: Row -> string, s: Settings.Settings, sub: string, now: int)
    : (t: Option<string>)
    ensures t.Some? <==> Representable(now + s.accessTokenExpiresMin * SecondsPerMinute)
    ensures t.Some? ==> exists c :: AccessClaims(sub, now, s.accessTokenExpiresMin) == Some(c)
                                 && t.value == encode(c.Payload())
  {
    match AccessClaims(sub, now, s.accessTokenExpiresMin)
    case Some(c) => Some(encode(c.Payload()))
    case None => None
  }

  /** `create_refresh_token`: the signed refresh payload; `None` where the
      expiry overflows. */
  function CreateRefreshToken(encode: Row -> string, s: Settings.Settings, sub: string, now: int)
    : (t: Option<string>)
    ensures t.Some? <==> Representable(now + s.refreshTokenExpiresDays * SecondsPerDay)
    ensures t.Some? ==> exists c :: RefreshClaims(sub, now, s.refreshTokenExpiresDays) == Some(c)
                                 && t.value == encode(c.Payload())
  {
    match RefreshClaims(sub, now, s.refreshTokenExpiresDays)
    case Some(c) => Some(encode(c.Payload()))
    case None => None
  }

  /** The two payloads issued for one subject agree on `sub` and differ in
      `type`, and in `exp` unless the two lifetimes happen to coincide. */
  lemma AccessRefreshDiffer(sub: string, now: int, minutes: int, days: int)
    requires Representable(now + minutes * SecondsPerMinute) && Representable(now + days * SecondsPerDay)
    ensures var a := AccessClaims(sub, now, minutes).value.Payload();
            var r := RefreshClaims(sub, now, days).value.Payload();
            a.Keys == r.Keys && a["sub"] == r["sub"] && a["type"] != r["type"]
            && (a["exp"] == r["exp"] <==> minutes * SecondsPerMinute == days * SecondsPerDay)
  {
  }
}
