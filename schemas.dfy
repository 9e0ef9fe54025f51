/**
 * The request and response models of the HTTP layer, and the field checks the
 * response models apply to what a handler hands them.
 */
module Schemas {
  import opened Wrappers
  import opened Rows

  /** Body of `POST /auth/signup`. */
  datatype SignupIn = SignupIn(email: string, password: string, fullName: Option<string>)

  /** Body of `POST /auth/login`. */
  datatype LoginIn = LoginIn(email: string, password: string)

  const BearerTokenType := "bearer"

  /** Response of signup and login; the handlers never set `token_type`, so it
      always takes its declared default `"bearer"`. */
  datatype TokenPair = TokenPair(accessToken: string, refreshToken: string, tokenType: string)

  /** Response of `GET /me`. */
  datatype MeOut = MeOut(id: string, email: string, fullName: Option<string>, currency: string, role: string)

  const DefaultCurrency := "EUR"

  /** Body of `POST /transactions`. The amount is a decimal handed through as
      its text; the date is an ordinal day number. */
  datatype TransactionIn = TransactionIn(
    accountId: string,
    subcategoryId: Option<string>,
    description: Option<string>,
    amount: string,
    currency: string,
    date: int,
    notes: Option<string>)

  /** One element of the response of `GET /transactions`. The amount stays the
      JSON value the store returned. */
  datatype TransactionOut = TransactionOut(
    id: string,
    accountId: string,
    subcategoryId: Option<string>,
    description: Option<string>,
    amount: Json,
    currency: string,
    date: int,
    notes: Option<string>,
    createdAt: int,
    updatedAt: int)

  /** Why building a response model fails: `r[k]` on a missing key, or a field
      value the model's type rejects. Either ends the request with a 500. */
  datatype ResponseError = MissingKey(key: string) | InvalidField(field: string)

  /** A required `str` field: only a JSON string is accepted. */
  function RequiredText(field: string, v: Json): (r: Result<string, ResponseError>)
    ensures r.Ok? <==> v.JStr?
    ensures r.Ok? ==> r.value == v.str
    ensures r.Err? ==> r.error == InvalidField(field)
  {
    if v.JStr? then Ok(v.str) else Err(InvalidField(field))
  }

  /** An `Optional[str]` field: null becomes `None`, a string is kept. */
  function OptionalTextField(field: string, v: Json): (r: Result<Option<string>, ResponseError>)
    ensures r.Ok? <==> !v.JNum?
    ensures r == Ok(None) <==> v == JNull
    ensures v.JStr? ==> r == Ok(Some(v.str))
    ensures r.Err? ==> r.error == InvalidField(field)
  {
    match v
    case JNull => Ok(None)
    case JStr(s) => Ok(Some(s))
    case JNum(_) => Err(InvalidField(field))
  }

  /** A `date` or `datetime` field, carried as an ordered integer. */
  function InstantField(field: string, v: Json): (r: Result<int, ResponseError>)
    ensures r.Ok? <==> v.JNum?
    ensures r.Ok? ==> r.value == v.num
    ensures r.Err? ==> r.error == InvalidField(field)
  {
    if v.JNum? then Ok(v.num) else Err(InvalidField(field))
  }
}
