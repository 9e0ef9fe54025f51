/**
 * Configuration resolution. Each setting is looked up in the process
 * environment, then in the INI file, then falls back to a default; integer
 * settings are parsed, comma lists are split and trimmed, and loading fails
 * when the database URL or a usable JWT secret is missing.
 *
 * Reading the environment and the file is I/O: both arrive here as maps.
 */
module Settings {
  import opened Wrappers
  import opened Text

  /** The process environment: variable name to value. */
  type Env = map<string, string>

  /** A parsed INI file: section name to (option name to value). Option names
      are case-sensitive, as the loader configures. */
  type IniFile = map<string, map<string, string>>

  predicate HasOption(cfg: IniFile, section: string, key: string) {
    section in cfg && key in cfg[section]
  }

  /** The environment variable consulted for `key`: `envName`, or the key itself. */
  function EnvName(key: string, envName: Option<string>): string {
    envName.GetOr(key)
  }

  /** `_get`: a non-empty environment variable wins; otherwise the file
      option, where an empty value yields the fallback; otherwise the fallback. */
  function Get(env: Env, cfg: IniFile, section: string, key: string,
               envName: Option<string>, fallback: Option<string>): (r: Option<string>)
    // the result is the fallback, or a non-empty value from one of the two sources
    ensures r == fallback
         || (r.Some? && r.value != "" &&
             ((EnvName(key, envName) in env && r.value == env[EnvName(key, envName)])
              || (HasOption(cfg, section, key) && r.value == cfg[section][key])))
  {
    var name := EnvName(key, envName);
    if name in env && env[name] != "" then Some(env[name])
    else if HasOption(cfg, section, key) then
      var v := cfg[section][key];
      if v != "" then Some(v) else fallback
    else fallback
  }

  lemma EnvWins(env: Env, cfg: IniFile, section: string, key: string,
                envName: Option<string>, fallback: Option<string>)
    requires EnvName(key, envName) in env && env[EnvName(key, envName)] != ""
    ensures Get(env, cfg, section, key, envName, fallback) == Some(env[EnvName(key, envName)])
  {
  }

  /** An empty environment variable counts as unset. */
  lemma EmptyEnvIsUnset(env: Env, cfg: IniFile, section: string, key: string,
                        envName: Option<string>, fallback: Option<string>)
    requires EnvName(key, envName) in env && env[EnvName(key, envName)] == ""
    ensures Get(env, cfg, section, key, envName, fallback)
         == Get(env - {EnvName(key, envName)}, cfg, section, key, envName, fallback)
  {
  }

  lemma FileValueUsed(env: Env, cfg: IniFile, section: string, key: string,
                      envName: Option<string>, fallback: Option<string>)
    requires EnvName(key, envName) !in env || env[EnvName(key, envName)] == ""
    requires HasOption(cfg, section, key)
    ensures Get(env, cfg, section, key, envName, fallback)
         == if cfg[section][key] != "" then Some(cfg[section][key]) else fallback
  {
  }

  lemma AbsentGivesFallback(env: Env, cfg: IniFile, section: string, key: string,
                            envName: Option<string>, fallback: Option<string>)
    requires EnvName(key, envName) !in env || env[EnvName(key, envName)] == ""
    requires !HasOption(cfg, section, key)
    ensures Get(env, cfg, section, key, envName, fallback) == fallback
  {
  }

  /** Without an explicit environment name, the variable named like the key is read. */
  lemma EnvNameDefaultsToKey(env: Env, cfg: IniFile, section: string, key: string,
                             fallback: Option<string>)
    ensures Get(env, cfg, section, key, None, fallback) == Get(env, cfg, section, key, Some(key), fallback)
  {
  }

  /* ------------------------------------------------------------ integers */

  datatype SettingsError =
    | MissingDatabaseUrl
    | InsecureJwtSecret
    | MissingInteger(section: string, key: string)
    | InvalidInteger(section: string, key: string, value: string)

  /** `_get_int`: the value is looked up without a fallback; when there is
      none, the integer fallback is used or the lookup raises; otherwise the
      text must parse as a Python integer. */
  function GetInt(env: Env, cfg: IniFile, section: string, key: string,
                  envName: Option<string>, fallback: Option<int>): (r: Result<int, SettingsError>)
    ensures r.Ok? ==>
      Some(r.value) == fallback
      || (var v := Get(env, cfg, section, key, envName, None); v.Some? && ParseInt(v.value) == Some(r.value))
    ensures r.Err? ==> r.error.MissingInteger? || r.error.InvalidInteger?
    ensures r.Err? ==> r.error.section == section && r.error.key == key
  {
    var val := Get(env, cfg, section, key, envName, None);
    if val.None? || val.value == "" then
      if fallback.None? then Err(MissingInteger(section, key)) else Ok(fallback.value)
    else
      match ParseInt(val.value)
      case Some(n) => Ok(n)
      case None => Err(InvalidInteger(section, key, val.value))
  }

  lemma GetIntMissing(env: Env, cfg: IniFile, section: string, key: string,
                      envName: Option<string>, fallback: Option<int>)
    requires Get(env, cfg, section, key, envName, None).None?
    ensures fallback.None? ==> GetInt(env, cfg, section, key, envName, fallback) == Err(MissingInteger(section, key))
    ensures fallback.Some? ==> GetInt(env, cfg, section, key, envName, fallback) == Ok(fallback.value)
  {
  }

  /** A present value decides the result: the fallback is not consulted. */
  lemma GetIntPresent(env: Env, cfg: IniFile, section: string, key: string,
                      envName: Option<string>, fallback: Option<int>)
    requires Get(env, cfg, section, key, envName, None).Some?
    ensures var v := Get(env, cfg, section, key, envName, None).value;
      GetInt(env, cfg, section, key, envName, fallback)
        == if ParseInt(v).Some? then Ok(ParseInt(v).value) else Err(InvalidInteger(section, key, v))
  {
    assert Get(env, cfg, section, key, envName, None).value != "";
  }

  /** An integer written out in the environment is read back exactly. */
  lemma GetIntReadsFormatted(env: Env, cfg: IniFile, section: string, key: string,
                             envName: Option<string>, fallback: Option<int>, n: int)
    requires Printable(n)
    requires EnvName(key, envName) in env && env[EnvName(key, envName)] == FormatInt(n)
    ensures GetInt(env, cfg, section, key, envName, fallback) == Ok(n)
  {
    ParseFormat(n);
    assert FormatInt(n) != "";
  }

  /* --------------------------------------------------------------- lists */

  /** A list element as `_get_list` keeps it. */
  predicate CleanItem(e: string) {
    e != [] && !IsSpace(e[0]) && !IsSpace(e[|e| - 1]) && ',' !in e
  }

  /** The stripped, non-blank pieces, in order. */
  function CleanItems(pieces: seq<string>): (r: seq<string>)
    requires forall i :: 0 <= i < |pieces| ==> ',' !in pieces[i]
    ensures |r| <= |pieces|
    ensures forall i :: 0 <= i < |r| ==> CleanItem(r[i])
    ensures StrippedPieces(pieces, r)
  {
    if pieces == [] then []
    else
      var t := Strip(pieces[0]);
      StrippedPiece(pieces[0]);
      var rest := CleanItems(pieces[1..]);
      assert forall i :: 1 <= i < |pieces| ==> pieces[i] == pieces[1..][i - 1];
      (if t != "" then [t] else []) + rest
  }

  /** Every non-blank piece comes back stripped in `items`, and nothing else does. */
  predicate StrippedPieces(pieces: seq<string>, items: seq<string>) {
    && (forall i :: 0 <= i < |pieces| && Strip(pieces[i]) != "" ==> Strip(pieces[i]) in items)
    && (forall e :: e in items ==> exists i :: 0 <= i < |pieces| && Strip(pieces[i]) == e)
  }

  /** A comma-free piece, stripped, is empty or clean. */
  lemma StrippedPiece(p: string)
    requires ',' !in p
    ensures Strip(p) == [] || CleanItem(Strip(p))
  {
    var t := Strip(p);
    var a := StripStart(p);
    forall k | 0 <= k < |t| ensures t[k] != ',' {
      assert t[k] == p[a + k];
    }
  }

  /** `_get_list`: without a value, the fallback (or the empty list); with
      one, its comma-separated pieces, stripped, blank ones dropped. */
  function GetList(env: Env, cfg: IniFile, section: string, key: string,
                   envName: Option<string>, fallback: Option<seq<string>>): (r: seq<string>)
    ensures Get(env, cfg, section, key, envName, None).None? ==> r == fallback.GetOr([])
    ensures Get(env, cfg, section, key, envName, None).Some? ==>
      forall i :: 0 <= i < |r| ==> CleanItem(r[i])
    // with a value: exactly its non-blank comma-separated pieces, stripped
    ensures var v := Get(env, cfg, section, key, envName, None);
      v.Some? ==> StrippedPieces(Split(v.value, ','), r)
  {
    match Get(env, cfg, section, key, envName, None)
    case None => fallback.GetOr([])
    case Some(v) => CleanItems(Split(v, ','))
  }

  lemma {:induction false} CleanItemsKeepsClean(items: seq<string>)
    requires forall i :: 0 <= i < |items| ==> CleanItem(items[i])
    ensures (forall i :: 0 <= i < |items| ==> ',' !in items[i]) && CleanItems(items) == items
  {
    if items != [] {
      StripKeeps(items[0]);
      CleanItemsKeepsClean(items[1..]);
      assert [items[0]] + items[1..] == items;
    }
  }

  /** Writing a list of clean items comma-separated into the environment and
      reading it back gives the same list. */
  lemma GetListRoundTrip(env: Env, cfg: IniFile, section: string, key: string,
                         envName: Option<string>, fallback: Option<seq<string>>, items: seq<string>)
    requires |items| >= 1 && forall i :: 0 <= i < |items| ==> CleanItem(items[i])
    requires EnvName(key, envName) in env && env[EnvName(key, envName)] == Join(items, ',')
    ensures GetList(env, cfg, section, key, envName, fallback) == items
  {
    assert items[0] != [] && |Join(items, ',')| > 0 by { JoinLength(items); }
    SplitJoin(items, ',');
    CleanItemsKeepsClean(items);
  }

  lemma {:induction false} JoinLength(parts: seq<string>)
    requires |parts| >= 1
    ensures |Join(parts, ',')| >= |parts[0]|
  {
    if |parts| > 1 {
      JoinLength(parts[1..]);
    }
  }

  /* ------------------------------------------------------------- loading */

  const InsecureDefaultSecret := "change_me_super_secret"
  const DefaultJwtAlg := "HS256"
  const DefaultAccessTokenExpiresMin := 15
  const DefaultRefreshTokenExpiresDays := 14
  const DefaultCorsOrigins := ["http://localhost:5173", "http://localhost:3000"]

  datatype Settings = Settings(
    databaseUrl: string,
    databaseKey: Option<string>,
    jwtSecret: string,
    jwtAlg: string,
    accessTokenExpiresMin: int,
    refreshTokenExpiresDays: int,
    corsOrigins: seq<string>,
    stripeSecretKey: Option<string>,
    stripeWebhookSecret: Option<string>)

  /** Python's falsiness of an optional string: `None` or `""`. */
  predicate Blank(v: Option<string>) {
    v.None? || v.value == ""
  }

  /** Neither source gives `key` a non-empty value (the environment
      variable is named like the key). */
  predicate Unset(env: Env, cfg: IniFile, section: string, key: string) {
    (key !in env || env[key] == "") && (!HasOption(cfg, section, key) || cfg[section][key] == "")
  }

  /** The database URL: no default, so it is missing exactly when unset. */
  function DatabaseUrl(env: Env, cfg: IniFile): (r: Option<string>)
    ensures r.None? <==> Unset(env, cfg, "DB", "DATABASE_URL")
    ensures r.Some? ==> r.value != ""
    ensures "DATABASE_URL" in env && env["DATABASE_URL"] != "" ==> r == Some(env["DATABASE_URL"])
  {
    Get(env, cfg, "DB", "DATABASE_URL", Some("DATABASE_URL"), None)
  }

  /** The JWT secret: no default, so it is missing exactly when unset. */
  function JwtSecret(env: Env, cfg: IniFile): (r: Option<string>)
    ensures r.None? <==> Unset(env, cfg, "JWT", "JWT_SECRET")
    ensures r.Some? ==> r.value != ""
    ensures "JWT_SECRET" in env && env["JWT_SECRET"] != "" ==> r == Some(env["JWT_SECRET"])
  {
    Get(env, cfg, "JWT", "JWT_SECRET", Some("JWT_SECRET"), None)
  }

  /** The access-token lifetime in minutes: fifteen when unset; it can only
      fail on a value that is not an integer. */
  function AccessMinutes(env: Env, cfg: IniFile): (r: Result<int, SettingsError>)
    ensures Unset(env, cfg, "JWT", "ACCESS_TOKEN_EXPIRES_MIN") ==> r == Ok(DefaultAccessTokenExpiresMin)
    ensures r.Err? ==> r.error.InvalidInteger? && r.error.key == "ACCESS_TOKEN_EXPIRES_MIN"
  {
    GetInt(env, cfg, "JWT", "ACCESS_TOKEN_EXPIRES_MIN", Some("ACCESS_TOKEN_EXPIRES_MIN"), Some(DefaultAccessTokenExpiresMin))
  }

  /** The refresh-token lifetime in days: fourteen when unset; it can only
      fail on a value that is not an integer. */
  function RefreshDays(env: Env, cfg: IniFile): (r: Result<int, SettingsError>)
    ensures Unset(env, cfg, "JWT", "REFRESH_TOKEN_EXPIRES_DAYS") ==> r == Ok(DefaultRefreshTokenExpiresDays)
    ensures r.Err? ==> r.error.InvalidInteger? && r.error.key == "REFRESH_TOKEN_EXPIRES_DAYS"
  {
    GetInt(env, cfg, "JWT", "REFRESH_TOKEN_EXPIRES_DAYS", Some("REFRESH_TOKEN_EXPIRES_DAYS"), Some(DefaultRefreshTokenExpiresDays))
  }

  /** `load_settings`, checks in the order the loader makes them. */
  function LoadSettings(env: Env, cfg: IniFile): (r: Result<Settings, SettingsError>)
    ensures r.Ok? ==> r.value.databaseUrl != "" && Some(r.value.databaseUrl) == DatabaseUrl(env, cfg)
    ensures r.Ok? ==> r.value.jwtSecret != "" && r.value.jwtSecret != InsecureDefaultSecret
    ensures r.Ok? ==> Some(r.value.jwtSecret) == JwtSecret(env, cfg)
    ensures r.Ok? ==> Some(r.value.databaseUrl) == DatabaseUrl(env, cfg)
    ensures r.Ok? ==> r.value.databaseKey == Get(env, cfg, "DB", "DATABASE_KEY", Some("DATABASE_KEY"), None)
    // the `or "HS256"` never applies: the lookup already falls back to HS256
    ensures r.Ok? ==>
      && r.value.jwtAlg != ""
      && Some(r.value.jwtAlg) == Get(env, cfg, "JWT", "JWT_ALG", Some("JWT_ALG"), Some(DefaultJwtAlg))
    ensures r.Ok? ==> (Ok(r.value.accessTokenExpiresMin) == AccessMinutes(env, cfg)
                       && Ok(r.value.refreshTokenExpiresDays) == RefreshDays(env, cfg))
    ensures r.Ok? ==>
      r.value.corsOrigins == GetList(env, cfg, "CORS", "CORS_ORIGINS", Some("CORS_ORIGINS"), Some(DefaultCorsOrigins))
    ensures r.Ok? ==>
      && r.value.stripeSecretKey == Get(env, cfg, "Stripe", "STRIPE_SECRET_KEY", Some("STRIPE_SECRET_KEY"), None)
      && r.value.stripeWebhookSecret == Get(env, cfg, "Stripe", "STRIPE_WEBHOOK_SECRET", Some("STRIPE_WEBHOOK_SECRET"), None)
    ensures Blank(DatabaseUrl(env, cfg)) ==> r == Err(MissingDatabaseUrl)
  {
    var databaseUrl := DatabaseUrl(env, cfg);
    var databaseKey := Get(env, cfg, "DB", "DATABASE_KEY", Some("DATABASE_KEY"), None);
    if Blank(databaseUrl) then Err(MissingDatabaseUrl)
    else
      var jwtSecret := JwtSecret(env, cfg);
      if Blank(jwtSecret) || jwtSecret.value == InsecureDefaultSecret then Err(InsecureJwtSecret)
      else
        var alg := Get(env, cfg, "JWT", "JWT_ALG", Some("JWT_ALG"), Some(DefaultJwtAlg));
        var jwtAlg := if Blank(alg) then DefaultJwtAlg else alg.value;
        match AccessMinutes(env, cfg)
        case Err(e) => Err(e)
        case Ok(accessMin) =>
          match RefreshDays(env, cfg)
          case Err(e) => Err(e)
          case Ok(refreshDays) =>
            var cors := GetList(env, cfg, "CORS", "CORS_ORIGINS", Some("CORS_ORIGINS"), Some(DefaultCorsOrigins));
            var stripeSecret := Get(env, cfg, "Stripe", "STRIPE_SECRET_KEY", Some("STRIPE_SECRET_KEY"), None);
            var stripeWebhook := Get(env, cfg, "Stripe", "STRIPE_WEBHOOK_SECRET", Some("STRIPE_WEBHOOK_SECRET"), None);
            Ok(Settings(databaseUrl.value, databaseKey, jwtSecret.value, jwtAlg,
                        accessMin, refreshDays, cors, stripeSecret, stripeWebhook))
  }

  /** Loading succeeds exactly when a database URL and a usable secret are set
      and both token lifetimes are well-formed integers. */
  lemma LoadSucceedsIff(env: Env, cfg: IniFile)
    ensures LoadSettings(env, cfg).Ok? <==>
      !Blank(DatabaseUrl(env, cfg))
      && !Blank(JwtSecret(env, cfg)) && JwtSecret(env, cfg).value != InsecureDefaultSecret
      && AccessMinutes(env, cfg).Ok? && RefreshDays(env, cfg).Ok?
  {
  }

  /** A missing or default secret is refused once a database URL is set. */
  lemma LoadRefusesInsecureSecret(env: Env, cfg: IniFile)
    requires !Blank(DatabaseUrl(env, cfg))
    requires Blank(JwtSecret(env, cfg)) || JwtSecret(env, cfg).value == InsecureDefaultSecret
    ensures LoadSettings(env, cfg) == Err(InsecureJwtSecret)
  {
  }

  /** Unset lifetimes, algorithm and origins take their defaults. */
  lemma LoadDefaults(env: Env, cfg: IniFile)
    requires LoadSettings(env, cfg).Ok?
    requires forall k :: k in ["JWT_ALG", "ACCESS_TOKEN_EXPIRES_MIN", "REFRESH_TOKEN_EXPIRES_DAYS"] ==>
      k !in env && !HasOption(cfg, "JWT", k)
    requires "CORS_ORIGINS" !in env && !HasOption(cfg, "CORS", "CORS_ORIGINS")
    ensures LoadSettings(env, cfg).value.jwtAlg == DefaultJwtAlg
    ensures LoadSettings(env, cfg).value.accessTokenExpiresMin == DefaultAccessTokenExpiresMin
    ensures LoadSettings(env, cfg).value.refreshTokenExpiresDays == DefaultRefreshTokenExpiresDays
    ensures LoadSettings(env, cfg).value.corsOrigins == DefaultCorsOrigins
  {
    assert "JWT_ALG" in ["JWT_ALG", "ACCESS_TOKEN_EXPIRES_MIN", "REFRESH_TOKEN_EXPIRES_DAYS"];
    assert "ACCESS_TOKEN_EXPIRES_MIN" in ["JWT_ALG", "ACCESS_TOKEN_EXPIRES_MIN", "REFRESH_TOKEN_EXPIRES_DAYS"];
    assert "REFRESH_TOKEN_EXPIRES_DAYS" in ["JWT_ALG", "ACCESS_TOKEN_EXPIRES_MIN", "REFRESH_TOKEN_EXPIRES_DAYS"];
  }
}
