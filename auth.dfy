/**
 * `POST /auth/signup` and `POST /auth/login`. Both end by issuing an access
 * and a refresh token and appending one record to `refresh_tokens` that holds
 * the hash of the refresh token and an expiry fourteen days ahead.
 *
 * `hash_password` and `verify_password` are the parameters `hash` and
 * `verify`, the JWT signer is `encode`, the clock is `now` (one instant for
 * the request), and the id the store gives a new user row is `newId`.
 */
module Auth {
  import opened Wrappers
  import opened Rows
  import opened Schemas
  import opened Store
  import opened JwtUtils
  import Settings

  /** The ways the two handlers fail. `ExpiryOverflow` is the uncaught
      `OverflowError` of an expiry past the range of `datetime`, which the
      framework answers with a bare 500. */
  datatype AuthFailure = EmailAlreadyRegistered | FailedToCreateUser | InvalidCredentials | ExpiryOverflow {
    function Status(): int {
      match this
      case EmailAlreadyRegistered => 400
      case FailedToCreateUser => 500
      case InvalidCredentials => 401
      case ExpiryOverflow => 500
    }

    function Detail(): string {
      match this
      case EmailAlreadyRegistered => "Email already registered"
      case FailedToCreateUser => "Failed to create user"
      case InvalidCredentials => "Invalid credentials"
      case ExpiryOverflow => "Internal Server Error"
    }
  }

  /** What the store answers to the insert of a new user row. */
  datatype InsertReply =
    | Stored(returnsId: bool)  // the row is written; the reply carries its id or not
    | NotVisible               // the reply is empty and the row is not visible to a select

  /** The lifetime of a refresh-token record, fixed in both handlers
      whatever lifetime the configuration gives refresh tokens. */
  const RefreshRecordDays := 14

  /** The row signup inserts: the email, the password's hash and the name;
      the store adds the id and its column defaults. */
  function NewUserRow(db: Database, payload: SignupIn, hash: string -> string, newId: string): (r: UserRow)
    ensures r.id == newId && r.email == payload.email && r.fullName == payload.fullName
    ensures r.passwordHash == hash(payload.password)
    ensures r.currency == db.currencyDefault && r.role == db.roleDefault
  {
    UserRow(newId, payload.email, hash(payload.password), payload.fullName, db.currencyDefault, db.roleDefault)
  }

  function UsersAfterInsert(users: seq<UserRow>, row: UserRow, reply: InsertReply): seq<UserRow> {
    if reply.Stored? then users + [row] else users
  }

  /** Signup's decision, from the users table before the insert: the
      duplicate check, then the id from the insert reply or, failing that,
      from a select by email after the insert. */
  function SignupUserId(users: seq<UserRow>, row: UserRow, reply: InsertReply): (r: Result<string, AuthFailure>)
    ensures r == Err(EmailAlreadyRegistered) <==> exists u :: u in users && u.email == row.email
    ensures r == Err(FailedToCreateUser) <==>
      (forall u :: u in users ==> u.email != row.email) && reply == NotVisible
    ensures r.Ok? <==> (forall u :: u in users ==> u.email != row.email) && reply.Stored?
    ensures r.Ok? ==> r.value == row.id
  {
    if UserByEmail(users, row.email).Some? then Err(EmailAlreadyRegistered)
    else if reply == Stored(true) then Ok(row.id)
    else
      UserByEmailAppend(users, row, row.email);
      match UserByEmail(UsersAfterInsert(users, row, reply), row.email)
      case Some(u) => Ok(u.id)
      case None => Err(FailedToCreateUser)
  }

  /** Login's decision: the row with the email, if its stored hash verifies.
      An unknown email and a wrong password fail alike. */
  function LoginUserId(users: seq<UserRow>, payload: LoginIn, verify: (string, string) -> bool)
    : (r: Result<string, AuthFailure>)
    ensures r.Err? ==> r.error == InvalidCredentials
    ensures (forall u :: u in users ==> u.email != payload.email) ==> r == Err(InvalidCredentials)
    ensures r.Ok? ==> exists u :: u in users && u.email == payload.email && u.id == r.value
  {
    match UserByEmail(users, payload.email)
    case None => Err(InvalidCredentials)
    case Some(u) =>
      if !verify(payload.password, u.passwordHash) then Err(InvalidCredentials)
      else Ok(u.id)
  }

  /** In a table with unique emails, login succeeds exactly for the password
      that verifies against the one row with the email, and yields its id. */
  lemma LoginFindsTheUser(users: seq<UserRow>, u: UserRow, password: string, verify: (string, string) -> bool)
    requires UniqueEmails(users) && u in users
    ensures LoginUserId(users, LoginIn(u.email, password), verify)
         == if verify(password, u.passwordHash) then Ok(u.id) else Err(InvalidCredentials)
  {
    UserByEmailUnique(users, u);
  }

  /** The response of a successful signup or login for `userId`: both
      tokens are created, the access token first; `None` when either
      expiry overflows. */
  function TokensFor(encode: Row -> string, s: Settings.Settings, userId: string, now: int)
    : (r: Option<TokenPair>)
    ensures r.Some? <==> CreateAccessToken(encode, s, userId, now).Some?
                         && CreateRefreshToken(encode, s, userId, now).Some?
    ensures r.Some? ==> && r.value.tokenType == BearerTokenType
                        && Some(r.value.accessToken) == CreateAccessToken(encode, s, userId, now)
                        && Some(r.value.refreshToken) == CreateRefreshToken(encode, s, userId, now)
  {
    var access :- CreateAccessToken(encode, s, userId, now);
    var refresh :- CreateRefreshToken(encode, s, userId, now);
    Some(TokenPair(access, refresh, BearerTokenType))
  }

  /** The record stored for an issued refresh token: its hash, never the
      token, unrevoked, expiring fourteen days after `now`. */
  function IssuedRecord(userId: string, refreshToken: string, hash: string -> string, now: int)
    : (r: RefreshRecord)
    ensures r.userId == userId && r.tokenHash == hash(refreshToken) && !r.revoked
    ensures r.expiresAt - now == RefreshRecordDays * SecondsPerDay
  {
    RefreshRecord(userId, hash(refreshToken), false, now + RefreshRecordDays * SecondsPerDay)
  }

  /** The tokens and the record issued for `userId`, or the overflow raised
      by either token's expiry or by the record's. */
  function Issue(encode: Row -> string, hash: string -> string, s: Settings.Settings, userId: string, now: int)
    : (r: Result<(TokenPair, RefreshRecord), AuthFailure>)
    ensures r.Ok? <==> && Representable(now + s.accessTokenExpiresMin * SecondsPerMinute)
                       && Representable(now + s.refreshTokenExpiresDays * SecondsPerDay)
                       && Representable(now + RefreshRecordDays * SecondsPerDay)
    ensures r.Err? ==> r.error == ExpiryOverflow
    ensures r.Ok? ==> && TokensFor(encode, s, userId, now) == Some(r.value.0)
                      && r.value.1 == IssuedRecord(userId, r.value.0.refreshToken, hash, now)
  {
    match TokensFor(encode, s, userId, now)
    case None => Err(ExpiryOverflow)
    case Some(pair) =>
      if Representable(now + RefreshRecordDays * SecondsPerDay) then Ok((pair, IssuedRecord(userId, pair.refreshToken, hash, now)))
      else Err(ExpiryOverflow)
  }

  /** The stored expiry matches the refresh token's own only when the
      configured refresh lifetime is the hardcoded fourteen days. */
  lemma RecordExpiryIgnoresSettings(hash: string -> string, userId: string, refreshToken: string,
                                    days: int, now: int)
    requires RefreshClaims(userId, now, days).Some?
    ensures (IssuedRecord(userId, refreshToken, hash, now).expiresAt
               == RefreshClaims(userId, now, days).value.exp)
            <==> days == RefreshRecordDays
  {
  }

  /** Token issuance and refresh-token storage, common to both handlers. */
  method IssueTokens(db: Database, encode: Row -> string, hash: string -> string,
                     s: Settings.Settings, userId: string, now: int) returns (r: Result<TokenPair, AuthFailure>)
    modifies db`refreshTokens
    ensures match Issue(encode, hash, s, userId, now)
      case Err(e) => r == Err(e) && db.refreshTokens == old(db.refreshTokens)
      case Ok((pair, record)) => r == Ok(pair) && db.refreshTokens == old(db.refreshTokens) + [record]
  {
    var access := CreateAccessToken(encode, s, userId, now);
    if access.None? {
      return Err(ExpiryOverflow);
    }
    var refresh := CreateRefreshToken(encode, s, userId, now);
    if refresh.None? {
      return Err(ExpiryOverflow);
    }
    if !Representable(now + RefreshRecordDays * SecondsPerDay) {
      return Err(ExpiryOverflow);
    }
    db.refreshTokens := db.refreshTokens + [IssuedRecord(userId, refresh.value, hash, now)];
    r := Ok(TokenPair(access.value, refresh.value, BearerTokenType));
  }

  /** `signup`. */
  method Signup(db: Database, payload: SignupIn, encode: Row -> string, hash: string -> string,
                s: Settings.Settings, now: int, newId: string, reply: InsertReply)
    returns (r: Result<TokenPair, AuthFailure>)
    requires db.Valid()
    requires forall u :: u in db.users ==> u.id != newId  // the store's id for the new row is fresh
    modifies db`users, db`refreshTokens
    ensures db.Valid()
    ensures var row := NewUserRow(db, payload, hash, newId);
      var outcome := SignupUserId(old(db.users), row, reply);
      && db.users == (if outcome == Err(EmailAlreadyRegistered) then old(db.users)
                      else UsersAfterInsert(old(db.users), row, reply))
      && match outcome
         case Err(e) => r == Err(e) && db.refreshTokens == old(db.refreshTokens)
         case Ok(id) =>
           // an overflow leaves the new user row in place, with no record
           match Issue(encode, hash, s, id, now)
           case Err(e) => r == Err(e) && db.refreshTokens == old(db.refreshTokens)
           case Ok((pair, record)) => r == Ok(pair) && db.refreshTokens == old(db.refreshTokens) + [record]
  {
    if UserByEmail(db.users, payload.email).Some? {
      return Err(EmailAlreadyRegistered);
    }
    var row := NewUserRow(db, payload, hash, newId);
    if reply.Stored? {
      db.users := db.users + [row];
    }
    var userId;
    if reply == Stored(true) {
      userId := newId;
    } else {
      var selected := UserByEmail(db.users, payload.email);
      if selected.None? {
        return Err(FailedToCreateUser);
      }
      userId := selected.value.id;
    }
    r := IssueTokens(db, encode, hash, s, userId, now);
  }

  /** `login`. The users table is only read. */
  method Login(db: Database, payload: LoginIn, encode: Row -> string, hash: string -> string,
               verify: (string, string) -> bool, s: Settings.Settings, now: int)
    returns (r: Result<TokenPair, AuthFailure>)
    modifies db`refreshTokens
    ensures db.users == old(db.users)
    ensures match LoginUserId(db.users, payload, verify)
      case Err(e) => r == Err(e) && db.refreshTokens == old(db.refreshTokens)
      case Ok(id) =>
        match Issue(encode, hash, s, id, now)
        case Err(e) => r == Err(e) && db.refreshTokens == old(db.refreshTokens)
        case Ok((pair, record)) => r == Ok(pair) && db.refreshTokens == old(db.refreshTokens) + [record]
  {
    var found := UserByEmail(db.users, payload.email);
    if found.None? || !verify(payload.password, found.value.passwordHash) {
      return Err(InvalidCredentials);
    }
    r := IssueTokens(db, encode, hash, s, found.value.id, now);
  }

  /** Signing up with a new email and then logging in with the same password
      authenticates the new user, provided the hash verifies its password. */
  lemma SignupThenLogin(db: Database, users: seq<UserRow>, payload: SignupIn, hash: string -> string,
                        verify: (string, string) -> bool, newId: string, returnsId: bool)
    requires forall u :: u in users ==> u.email != payload.email
    requires verify(payload.password, hash(payload.password))
    ensures var row := NewUserRow(db, payload, hash, newId);
      && SignupUserId(users, row, Stored(returnsId)) == Ok(newId)
      && LoginUserId(UsersAfterInsert(users, row, Stored(returnsId)), LoginIn(payload.email, payload.password), verify)
         == Ok(newId)
  {
    var row := NewUserRow(db, payload, hash, newId);
    UserByEmailAppend(users, row, payload.email);
  }
}
