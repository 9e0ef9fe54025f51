# Personal finance tracker backend: a verified model of its core rules

The backend keeps users, refresh-token records and financial transactions
in a hosted data store. It serves signup and login, token-protected routes
(`/me`, `/transactions`) and reads its configuration from the environment
and an INI file. This project models the rule-bearing parts of that
backend in Dafny and proves what each part promises:

- **Configuration** (`Settings`). A setting is looked up in the
  environment, then the INI file, then a fallback. Integer settings go
  through Python's `int()`, which is modelled in `Text`. Comma lists are
  split and stripped. `LoadSettings` refuses a missing database URL and
  a missing or default JWT secret.
- **Token claims** (`JwtUtils`). This module builds the claim sets of
  access and refresh tokens. The signer is the function parameter
  `encode`. An expiry outside years 1 to 9999 makes `datetime` raise
  `OverflowError`. The creators then return `None`, and signup and login
  answer 500.
- **Session resolver** (`Deps.CurrentUser`). It maps a bearer credential
  to the public columns of a user row, or to one of three 401 errors. The
  token decoder is the parameter `decode`, and `None` stands for any
  failure to decode.
- **Signup and login** (`Auth`). These are methods on the in-memory
  `Store.Database`, whose tables are `seq` fields. Each method is
  specified by a pure decision function: `SignupUserId` or `LoginUserId`.
  Password hashing and verification are the parameters `hash` and
  `verify`.
- **Transactions** (`Transactions`):
  - listing is a pure filter, sort and limit followed by the mapping onto
    the response model;
  - creating checks the subcategory's owner, then inserts;
  - deleting checks the transaction's owner, then removes the row.
- **`/me`** (`Me.Me`). This maps the resolved row onto the `MeOut`
  response model, with the `.get` defaults.

Helper modules:

- `Wrappers`: `Option` and `Result`.
- `Rows`: store rows as maps from column names to JSON values, with
  Python's `r[k]`, `r.get(k, d)`, truthiness and `str()`.
- `Schemas`: the request and response models, and the field checks the
  response models apply.

Time is an integer number of seconds. One `now` stands for every clock
read of a request. The store's id for a new row is a parameter (`newId`),
and so is the shape of its reply to an insert (`reply`, `returned`).

## Model

| member | source | states |
|---|---|---|
| Settings.Get | backend/app/settings.py:18-29 | the result is the fallback, or a non-empty value taken from the environment variable or from the file option |
| Settings.EnvWins | backend/app/settings.py:24-25 | a non-empty environment variable wins over the file and the fallback |
| Settings.EmptyEnvIsUnset | backend/app/settings.py:24 | an environment variable set to "" gives the same result as an unset one |
| Settings.FileValueUsed | backend/app/settings.py:26-28 | without a usable environment value, a present file option is returned when non-empty; an empty one gives the fallback |
| Settings.AbsentGivesFallback | backend/app/settings.py:26-29 | a key absent from both sources gives the fallback |
| Settings.EnvNameDefaultsToKey | backend/app/settings.py:22-23 | with no environment name given, the variable named like the key is read |
| Settings.GetInt | backend/app/settings.py:31-40 | a success is the integer fallback or the parse of the looked-up text; every error names the section and key and is "missing" or "invalid" |
| Settings.GetIntMissing | backend/app/settings.py:32-36 | with no value, the result is "missing" when there is no fallback, and the fallback otherwise |
| Settings.GetIntPresent | backend/app/settings.py:37-40 | a present value decides the result: its parse, or "invalid" carrying the text; the fallback is ignored |
| Settings.GetIntReadsFormatted | backend/app/settings.py:37-38 | an integer that `str()` can print (at most 4300 digits), written in decimal into the environment, is read back exactly |
| Settings.CleanItems | backend/app/settings.py:46 | every non-blank piece comes back stripped, and every kept item is the strip of some piece; each item is non-empty, has no whitespace at either end and contains no comma |
| Settings.GetList | backend/app/settings.py:42-46 | with no value, the result is the fallback or []; otherwise it holds exactly the non-blank comma-separated pieces of the value, stripped, each non-empty and comma-free |
| Settings.StrippedPiece | backend/app/settings.py:46 | a comma-free piece, once stripped, is empty or a clean item |
| Settings.CleanItemsKeepsClean | backend/app/settings.py:46 | clean items pass the strip-and-drop step unchanged |
| Settings.GetListRoundTrip | backend/app/settings.py:42-46 | a comma-joined list of clean items, set in the environment, is read back as the same list |
| Settings.LoadSettings | backend/app/settings.py:67-113 | a loaded configuration has a non-empty database URL and a secret that is neither empty nor the insecure default; every field is its own lookup: the URL, the key, the secret, the algorithm (never blank, HS256 when unset), both integer lifetimes, the CORS list and the two Stripe secrets; a blank URL fails with "missing database URL" |
| Settings.DatabaseUrl | backend/app/settings.py:76 | the URL has no default: it is missing exactly when neither source sets it, a present URL is non-empty, and a non-empty environment variable gives it |
| Settings.JwtSecret | backend/app/settings.py:87 | the secret has no default: it is missing exactly when neither source sets it, a present secret is non-empty, and a non-empty environment variable gives it |
| Settings.AccessMinutes | backend/app/settings.py:93 | unset, the access lifetime is 15 minutes; it fails only on a value that is not an integer, naming ACCESS_TOKEN_EXPIRES_MIN |
| Settings.RefreshDays | backend/app/settings.py:94 | unset, the refresh lifetime is 14 days; it fails only on a value that is not an integer, naming REFRESH_TOKEN_EXPIRES_DAYS |
| Settings.LoadSucceedsIff | backend/app/settings.py:76-94 | loading succeeds if and only if the URL is set, the secret is set and not the default, and both lifetimes parse |
| Settings.LoadRefusesInsecureSecret | backend/app/settings.py:87-90 | once a URL is set, a missing or default secret is refused |
| Settings.LoadDefaults | backend/app/settings.py:92-97 | unset, the algorithm is HS256, the lifetimes are 15 minutes and 14 days, and the origins are the two localhost URLs |
| Text.Strip | backend/app/settings.py:46 | `strip()` returns a slice of its input with only whitespace cut from both ends, and the slice neither starts nor ends with whitespace |
| Text.StripKeeps | backend/app/settings.py:46 | a text that starts and ends with a non-space is its own strip |
| Text.StripCharacters | backend/app/settings.py:46 | every character of the input is whitespace or survives in the stripped text |
| Text.Split | backend/app/settings.py:46 | `split(",")` yields at least one piece, and no piece contains the separator |
| Text.JoinSplit | backend/app/settings.py:46 | joining the pieces of a split with the separator gives back the input |
| Text.SplitJoin | backend/app/settings.py:46 | splitting a join of separator-free pieces gives back the pieces |
| Text.ParseInt | backend/app/settings.py:38 | `int()` refuses any text holding U+001C to U+001F; otherwise it succeeds exactly on a stripped text that is a digit body of at most 4300 digits (underscores only between digits, not counted), optionally after one sign; an unsigned or `+` body gives its value and a `-` body its negation |
| Text.FormatInt | backend/app/routers/transactions.py:30 | `str(n)` starts with `-` exactly for a negative n, followed by the decimal digits of its magnitude with no leading zero |
| Text.ParseUnsigned | backend/app/settings.py:38 | an unsigned digit body within the limit parses to its value |
| Text.ParseNegative | backend/app/settings.py:38 | a minus-signed digit body within the limit parses to its negated value |
| Text.LongBodyRefused | backend/app/settings.py:38-40 | a well-formed digit body of more than 4300 digits is refused, with or without a minus sign |
| Text.SeparatorNotSkipped | backend/app/settings.py:38-40 | a leading U+001C, which `strip()` removes, makes `int()` refuse the text |
| Text.ParseFormat | backend/app/settings.py:38 | `int(str(n)) == n` for every integer that `str()` prints within the 4300-digit limit |
| Text.ParseIntCharacters | backend/app/settings.py:37-40 | text that `int()` accepts holds only whitespace, digits, signs and underscores |
| JwtUtils.Claims.Payload | backend/app/jwt_utils.py:13 | the payload has exactly the keys sub, type and exp, holding the claim values |
| JwtUtils.AccessClaims | backend/app/jwt_utils.py:11-13 | the claims exist exactly when now + minutes·60 s lies within years 1 to 9999 (otherwise `datetime` raises); they have type "access", carry sub unchanged, and have exp = now + minutes·60 s |
| JwtUtils.RefreshClaims | backend/app/jwt_utils.py:17-19 | the claims exist exactly when now + days·86400 s lies within years 1 to 9999 (otherwise `datetime` raises); they have type "refresh", carry sub unchanged, and have exp = now + days·86400 s |
| JwtUtils.CreateAccessToken | backend/app/jwt_utils.py:11-14 | a token is created exactly when the access expiry is representable, and it is the signature of the access claims for sub |
| JwtUtils.CreateRefreshToken | backend/app/jwt_utils.py:17-20 | a token is created exactly when the refresh expiry is representable, and it is the signature of the refresh claims for sub |
| JwtUtils.AccessRefreshDiffer | backend/app/jwt_utils.py:11-19 | when both expiries are representable, the two payloads for one subject have the same keys and sub, differ in type, and have equal exp exactly when the two lifetimes coincide |
| Deps.PublicRow | backend/app/deps.py:24 | the selected row has exactly id, email, full_name, currency and role, with no password_hash |
| Deps.UserById | backend/app/deps.py:24-27 | no row is found if and only if no user's id equals the subject claim; a found row is in the table and has that id |
| Deps.IsAccessPayload | backend/app/deps.py:18 | the payload is an access payload exactly when it has a `type` claim equal to "access" |
| Deps.CurrentUser | backend/app/deps.py:10-28 | no credential gives "Not authenticated"; a decode failure or a type other than "access" (a missing type included) gives "Invalid token"; an unmatched subject gives "User not found"; each holds in both directions; otherwise the result is the public row of the matching user; every error is a 401 |
| Deps.IssuedAccessTokenResolves | backend/app/deps.py:16-28 | an access token that decodes to its issued claims resolves to its subject's public row, or to "User not found" |
| Deps.RefreshTokenRejected | backend/app/deps.py:18-22 | a refresh token that decodes to its issued claims is refused with "Invalid token" |
| Store.UserByEmail | backend/app/routers/auth.py:14 | the lookup finds nothing if and only if no row has the email; a found row is in the table and has it |
| Store.UserByEmailAppend | backend/app/routers/auth.py:29-30 | a row appended after an existing match does not change the match, and it becomes the match when there was none |
| Store.UserByEmailUnique | backend/app/routers/auth.py:50 | with unique emails, the lookup by a row's email finds that row |
| Store.SubcategoryById | backend/app/routers/transactions.py:41 | nothing is found if and only if no subcategory has the id; a found one has it |
| Store.SubcategoryByIdUnique | backend/app/routers/transactions.py:41 | with unique ids, the lookup by a subcategory's id finds that subcategory |
| Store.TransactionById | backend/app/routers/transactions.py:66 | nothing is found if and only if no transaction has the id; a found one has it |
| Auth.SignupUserId | backend/app/routers/auth.py:14-32 | "Email already registered" if and only if the email is taken; "Failed to create user" if and only if the email is free and the new row is not visible; success if and only if the email is free and the row was stored; a success is the new row's id |
| Auth.NewUserRow | backend/app/routers/auth.py:20-25 | the inserted row has the new id, the email, the name and the store's defaults, and holds `hash(password)`, not the password |
| Auth.LoginUserId | backend/app/routers/auth.py:50-54 | every failure is the same "Invalid credentials"; an unknown email fails; a success is the id of a row with that email |
| Auth.LoginFindsTheUser | backend/app/routers/auth.py:50-54 | with unique emails, login for a user succeeds exactly when the password verifies against that user's stored hash, and yields that user's id |
| Auth.RecordExpiryIgnoresSettings | backend/app/routers/auth.py:37-41 | the stored expiry equals the refresh token's own exp only when the configured refresh lifetime is 14 days |
| Auth.TokensFor | backend/app/routers/auth.py:36-45 | the response exists exactly when both tokens are created; it has type "bearer" and the two created tokens for the user |
| Auth.IssuedRecord | backend/app/routers/auth.py:38-42 | the record is for the user, holds the hash of the refresh token, is not revoked, and expires 14 days after now |
| Auth.Issue | backend/app/routers/auth.py:36-42 | issuance succeeds exactly when the access expiry, the refresh expiry and the record's expiry are all representable; otherwise it is the overflow (a 500); a success is the response and its record |
| Auth.IssueTokens | backend/app/routers/auth.py:36-42 | on an overflow, fails with a 500 and adds no record; otherwise returns both tokens for the user and appends exactly the one record of `Auth.Issue` |
| Auth.Signup | backend/app/routers/auth.py:12-45 | keeps emails and user ids unique, given a fresh id from the store; a duplicate changes no table; the inserted row holds `hash(password)`; on every error no refresh record is added; an expiry overflow after the insert fails with a 500 and leaves the new user row stored; on success the tokens are for the decided id and exactly one record is appended |
| Auth.Login | backend/app/routers/auth.py:49-63 | never changes the users table; on failure, including an expiry overflow, no record is added; on success the tokens are for the authenticated id and exactly one record is appended |
| Auth.SignupThenLogin | backend/app/routers/auth.py:20-32 | after signup with a free email, login with the same password authenticates the new id, provided the hash verifies its password |
| Schemas.RequiredText | backend/app/schemas.py:25-30 | a required `str` field accepts exactly the JSON strings and keeps their text |
| Schemas.OptionalTextField | backend/app/schemas.py:25-30 | an optional text field maps null to None and keeps a string; only a number is rejected |
| Schemas.InstantField | backend/app/schemas.py:60-63 | a date or datetime field accepts exactly the numeric instants |
| Rows.Get | backend/app/routers/transactions.py:31 | `r.get(k, d)` is the value of a present key and d for a missing one |
| Rows.Lookup | backend/app/deps.py:18 | `r.get(k)` is None exactly for a missing key, otherwise the value |
| Rows.Truthy | backend/app/routers/transactions.py:30 | a value is falsy exactly when it is null, the empty string or 0 |
| Rows.PyStr | backend/app/routers/transactions.py:30 | `str()` keeps a string, gives "None" for null, and prints a number so that `int()` reads it back |
| Me.Me | backend/app/routers/me.py:10-17 | a missing id or email raises; success holds if and only if the email is text, full_name is not a number, and currency and role (defaulting to "EUR" and "user" when absent) are text; the id is `str(id)` and the other fields are copied |
| Me.MeDefaults | backend/app/routers/me.py:14-16 | absent columns give no name, "EUR" and "user" |
| Me.MeOfCurrentUser | backend/app/routers/me.py:10-17 | on the resolver's row, `/me` succeeds if and only if currency and role are non-null, and then returns the row's fields |
| Transactions.Filter | backend/app/routers/transactions.py:20-26 | keeps each row as often as it occurs when it is the user's, dated in [frm, to) and, when one is given, in the subcategory; no other row |
| Transactions.Matches | backend/app/routers/transactions.py:20-26 | without filters exactly the user's rows match; an empty date range matches no row |
| Transactions.Insert | backend/app/routers/transactions.py:20 | insertion adds exactly the one row (as a multiset) |
| Transactions.Sort | backend/app/routers/transactions.py:20 | the ordering is a permutation of the rows |
| Transactions.InsertSorted | backend/app/routers/transactions.py:20 | inserting into a list sorted by date and then created_at, both descending, keeps it sorted |
| Transactions.SortSorted | backend/app/routers/transactions.py:20 | the ordering is by date descending, ties by created_at descending |
| Transactions.Take | backend/app/routers/transactions.py:20 | the limit keeps a prefix of min(limit, length) rows, and none for a limit of 0 or less |
| Transactions.TakeTopK | backend/app/routers/transactions.py:20 | every occurrence of a row cut by the limit comes after every row kept |
| Transactions.TakeBound | backend/app/routers/transactions.py:20 | the limit adds no row and no copy of one |
| Transactions.ListRows | backend/app/routers/transactions.py:18-27 | every listed row is the user's, within [frm, to) and in the subcategory; the list is sorted; it has min(limit, matches) rows; it repeats no row beyond the table; no occurrence of a matching row left out, repeated rows included, precedes a listed one |
| Transactions.SelectedColumns | backend/app/routers/transactions.py:20-53 | the selected row has each of the ten columns, holding the stored field, a missing optional text as null |
| Transactions.Field | backend/app/routers/transactions.py:30-31 | `r[k]` yields the value when the key is present and raises otherwise |
| Transactions.TransactionOutOf | backend/app/routers/transactions.py:28-33 | the mapping succeeds if and only if id, account_id, amount (non-null), date, created_at and updated_at are present, the dates are dates, description and notes are text or null, and the currency ("EUR" when absent) is text; the ids are `str()` of the columns; a falsy subcategory becomes None and a truthy one its text; description, notes, amount, date and both timestamps are copied |
| Transactions.RowOut | backend/app/routers/transactions.py:44-62 | a stored row's response record copies every field, with the subcategory None exactly when it is empty or missing |
| Transactions.SelectedRowConverts | backend/app/routers/transactions.py:30-32 | every row the store returns for the selected columns converts, with its fields unchanged and an empty subcategory as None |
| Transactions.OutputAll | backend/app/routers/transactions.py:28-34 | the list converts if and only if every row does, then element by element |
| Transactions.ConvertSelected | backend/app/routers/transactions.py:27-34 | the listed rows always convert, each to its response record |
| Transactions.ListTransactions | backend/app/routers/transactions.py:11-34 | fails with 422 if and only if limit > 500; otherwise returns the response records of the listed rows, in order |
| Transactions.CheckSubcategoryAsWritten | backend/app/routers/transactions.py:40-43 | as written, a missing or empty subcategory id always fails; given an id, the check agrees with the intended one |
| Transactions.CheckSubcategory | backend/app/routers/transactions.py:40-43 | no subcategory passes; a named one passes only if it exists and belongs to the user; one owned only by others, or absent, fails with 400 |
| Transactions.CheckSubcategoryExact | backend/app/routers/transactions.py:40-43 | with unique subcategory ids, a named subcategory passes if and only if it exists and belongs to the user |
| Transactions.NoSubcategoryFinding | backend/app/routers/transactions.py:40-43 | a payload without a subcategory fails as written and passes the intended check |
| Transactions.NewTransactionRow | backend/app/routers/transactions.py:44-53 | the inserted row has the new id, the current user as owner, the payload's fields and both timestamps at now |
| Transactions.CreateTransaction | backend/app/routers/transactions.py:37-62 | applies the intended ownership check (`Transactions.CheckSubcategory`), not the one as written: it refuses with 400, inserting nothing, exactly when a subcategory is named and the user owns none with that id; otherwise exactly one row is appended, owned by the current user, holding the payload; the reply is its response record, or 500 when the store returns no row; ids stay unique |
| Transactions.RemoveId | backend/app/routers/transactions.py:69 | removes every row with the id and keeps every other row as often as it occurs |
| Transactions.RemoveAbsentId | backend/app/routers/transactions.py:69 | deleting an id no row has changes nothing |
| Transactions.UniqueTail | backend/app/routers/transactions.py:66 | the tail of a table with unique ids has unique ids, none of them the head's |
| Transactions.UniqueOccursOnce | backend/app/routers/transactions.py:66 | with unique ids, a row occurs once and is the only row with its id |
| Transactions.RemoveIdFrom | backend/app/routers/transactions.py:69 | every row left after a delete was in the table and has another id |
| Transactions.RemoveIdKeepsUnique | backend/app/routers/transactions.py:69 | deleting keeps the ids unique |
| Transactions.RemoveUniqueId | backend/app/routers/transactions.py:69 | with unique ids, deleting a row's id removes exactly that row: the length drops by one and the rest is unchanged |
| Transactions.DeleteTransaction | backend/app/routers/transactions.py:64-70 | a missing transaction or one owned by another user gives 404 and changes nothing; otherwise exactly that row is removed and all others stay |

## Left out

- Reading the `.env` file and the process environment (`_load_config`, `os.getenv`) is I/O. Both are input maps. The INI parser's `DEFAULT` section and value interpolation are not modelled.
- The `settings` singleton is built at import time. Here the configuration is passed explicitly.
- `int()` accepting non-ASCII Unicode digits is not modelled. Only ASCII digits are accepted.
- `int()`'s whitespace is modelled from CPython's conversion of a string to an integer, which is not part of this repository: other Unicode whitespace is mapped to a space, then only ASCII whitespace is skipped, so U+001C to U+001F are refused.
- Text.ParseInt: the 4300-digit limit is CPython's default. A limit changed with `PYTHONINTMAXSTRDIGITS` or `sys.set_int_max_str_digits` is not modelled.
- Rows.PyStr: `str()` of a number with more than 4300 digits raises in CPython. The model prints it.
- The `database_key` field is declared `str` but may be None. The model keeps it as `Option<string>`, which is what the loader can produce.
- JWT signing and verification (HMAC, the algorithm, expiry checking) belong to a foreign library. These are the parameters `encode` and `decode`.
- `hash_password`/`verify_password` are in a module that is not part of this model. They are the parameters `hash` and `verify`.
- The data store and its query builder are remote I/O. Tables are in-memory sequences. Store-side failures, such as an unreachable store or a rejected insert, are not modelled.
- Filters, ordering and limit are applied by the store regardless of the order in which the handler chains them.
- Two rows equal in both date and created_at are listed in table order. The store leaves that order unspecified.
- Transactions.ListRows: a negative `limit` passes validation. How the store treats it is unknown, and the model returns no rows.
- Dates and timestamps are ordered integers. `date.fromisoformat` and the ISO formatting of `expires_at` are not modelled.
- Transactions.TransactionOutOf: an amount is accepted whenever it is non-null. The Decimal syntax check of the response model is not modelled.
- Me.Me: the `EmailStr` format check is not modelled. Any text is accepted as an email, and the same holds for signup and login.
- Deps.UserById: a subject that is not a string matches no row. The store's comparison of other JSON types is not modelled.
- The clock is read up to three times in a request. The model uses one `now`, taken to lie within years 1 to 9999 as the clock's does. Its microseconds are dropped, which does not change which expiries overflow.
- Concurrency between requests is not modelled. Each handler runs to completion on the tables.
- Not part of this model: `main.py` (app wiring and CORS middleware), `utils.py` and `routers/user.py` (database wrappers), `routers/categories.py` (an empty router) and `models.py`.

## Findings

| source | as written | input that shows it | evidently intended | confidence | as-written member | corrected member |
|---|---|---|---|---|---|---|
| backend/app/routers/transactions.py:40-43 | `sc` is bound only when the payload names a subcategory, but the next line reads it unconditionally. A payload without one raises `UnboundLocalError` (a 500) before the insert. | a `POST /transactions` body with no `subcategory_id` (None) or with `""` | skip the ownership check when no subcategory is named, since the field is optional; otherwise require it to exist and belong to the user | not executed | Transactions.CheckSubcategoryAsWritten | Transactions.CheckSubcategory |
