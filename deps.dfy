/**
 * The session resolver every protected route depends on: from an optional
 * bearer credential to the public columns of the authenticated user, or a
 * 401. Verifying and decoding the token (signature and expiry) is the
 * parameter `decode`; `None` stands for any exception it raises.
 */
module Deps {
  import opened Wrappers
  import opened Rows
  import opened Store
  import opened JwtUtils
  import Settings

  datatype AuthError = NotAuthenticated | InvalidToken | UserNotFound {
    function Status(): int {
      401
    }

    function Detail(): string {
      match this
      case NotAuthenticated => "Not authenticated"
      case InvalidToken => "Invalid token"
      case UserNotFound => "User not found"
    }
  }

  /** The columns the resolver selects. */
  const PublicColumns: set<string> := {"id", "email", "full_name", "currency", "role"}

  /** A user row as `select("id,email,full_name,currency,role")` returns it:
      every selected column is present, a NULL column as JSON null. */
  function PublicRow(u: UserRow): (r: Row)
    ensures r.Keys == PublicColumns && "password_hash" !in r
    ensures r["id"] == JStr(u.id) && r["email"] == JStr(u.email)
    ensures r["full_name"] == OptionalText(u.fullName)
    ensures r["currency"] == OptionalText(u.currency) && r["role"] == OptionalText(u.role)
  {
    map["id" := JStr(u.id), "email" := JStr(u.email), "full_name" := OptionalText(u.fullName),
        "currency" := OptionalText(u.currency), "role" := OptionalText(u.role)]
  }

  /** `users.select(...).eq("id", sub).limit(1)`: the first user whose id is
      the subject claim. A missing or non-text subject matches no row. */
  function UserById(users: seq<UserRow>, sub: Option<Json>): (r: Option<UserRow>)
    ensures r.None? <==> forall u :: u in users ==> sub != Some(JStr(u.id))
    ensures r.Some? ==> r.value in users && sub == Some(JStr(r.value.id))
  {
    if users == [] then None
    else if sub == Some(JStr(users[0].id)) then Some(users[0])
    else UserById(users[1..], sub)
  }

  /** `payload.get("type") == "access"`. */
  predicate IsAccessPayload(p: Row)
    ensures IsAccessPayload(p) <==> "type" in p && p["type"] == JStr("access")
  {
    Lookup(p, "type") == Some(JStr(Access.Name()))
  }

  /** `get_current_user`. */
  function CurrentUser(creds: Option<string>, decode: string -> Option<Row>, users: seq<UserRow>)
    : (r: Result<Row, AuthError>)
    ensures r == Err(NotAuthenticated) <==> creds.None?
    ensures r == Err(InvalidToken) <==>
      creds.Some? && (decode(creds.value).None? || !IsAccessPayload(decode(creds.value).value))
    ensures r == Err(UserNotFound) <==>
      creds.Some? && decode(creds.value).Some? && IsAccessPayload(decode(creds.value).value)
      && forall u :: u in users ==> Lookup(decode(creds.value).value, "sub") != Some(JStr(u.id))
    ensures r.Ok? ==>
      creds.Some? && decode(creds.value).Some? && IsAccessPayload(decode(creds.value).value)
      && exists u :: u in users && r.value == PublicRow(u)
                  && Lookup(decode(creds.value).value, "sub") == Some(JStr(u.id))
    ensures r.Ok? ==> r.value.Keys == PublicColumns && "password_hash" !in r.value
    ensures r.Err? ==> r.error.Status() == 401
  {
    match creds
    case None => Err(NotAuthenticated)
    case Some(token) =>
      match decode(token)
      case None => Err(InvalidToken)
      case Some(payload) =>
        if !IsAccessPayload(payload) then Err(InvalidToken)
        else
          match UserById(users, Lookup(payload, "sub"))
          case None => Err(UserNotFound)
          case Some(u) => Ok(PublicRow(u))
  }

  /** A token issued by `create_access_token` that the codec reads back
      resolves to its subject's row, or to "User not found". */
  lemma IssuedAccessTokenResolves(encode: Row -> string, decode: string -> Option<Row>,
                                  s: Settings.Settings, sub: string, now: int, users: seq<UserRow>)
    requires CreateAccessToken(encode, s, sub, now).Some?
    requires decode(CreateAccessToken(encode, s, sub, now).value)
          == Some(AccessClaims(sub, now, s.accessTokenExpiresMin).value.Payload())
    ensures CurrentUser(Some(CreateAccessToken(encode, s, sub, now).value), decode, users)
         == match UserById(users, Some(JStr(sub)))
            case Some(u) => Ok(PublicRow(u))
            case None => Err(UserNotFound)
  {
  }

  /** A refresh token is refused as a bearer credential even though its
      signature and expiry are good. */
  lemma RefreshTokenRejected(encode: Row -> string, decode: string -> Option<Row>,
                             s: Settings.Settings, sub: string, now: int, users: seq<UserRow>)
    requires CreateRefreshToken(encode, s, sub, now).Some?
    requires decode(CreateRefreshToken(encode, s, sub, now).value)
          == Some(RefreshClaims(sub, now, s.refreshTokenExpiresDays).value.Payload())
    ensures CurrentUser(Some(CreateRefreshToken(encode, s, sub, now).value), decode, users) == Err(InvalidToken)
  {
  }
}
