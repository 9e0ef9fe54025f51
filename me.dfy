/**
 * `GET /me`: the resolved user's row mapped onto the `MeOut` response model,
 * with `.get` defaults for the optional columns.
 */
module Me {
  import opened Wrappers
  import opened Rows
  import opened Schemas
  import opened Store
  import Deps

  const DefaultRole := "user"

  /** `me(user)` followed by validation of the `MeOut` model. Indexing a
      missing `id` or `email` raises first; then the field types are checked
      in declaration order. The email format check is not modelled. */
  function Me(user: Row): (r: Result<MeOut, ResponseError>)
    ensures "id" !in user ==> r == Err(MissingKey("id"))
    ensures "id" in user && "email" !in user ==> r == Err(MissingKey("email"))
    ensures r.Ok? <==>
      "id" in user && "email" in user && user["email"].JStr?
      && !Get(user, "full_name", JNull).JNum?
      && Get(user, "currency", JStr(DefaultCurrency)).JStr?
      && Get(user, "role", JStr(DefaultRole)).JStr?
    ensures r.Ok? ==>
      r.value.id == PyStr(user["id"]) && user["email"] == JStr(r.value.email)
      && OptionalText(r.value.fullName) == Get(user, "full_name", JNull)
      && JStr(r.value.currency) == Get(user, "currency", JStr(DefaultCurrency))
      && JStr(r.value.role) == Get(user, "role", JStr(DefaultRole))
  {
    if "id" !in user then Err(MissingKey("id"))
    else if "email" !in user then Err(MissingKey("email"))
    else
      var id := PyStr(user["id"]);
      match RequiredText("email", user["email"])
      case Err(e) => Err(e)
      case Ok(email) =>
        match OptionalTextField("full_name", Get(user, "full_name", JNull))
        case Err(e) => Err(e)
        case Ok(fullName) =>
          match RequiredText("currency", Get(user, "currency", JStr(DefaultCurrency)))
          case Err(e) => Err(e)
          case Ok(currency) =>
            match RequiredText("role", Get(user, "role", JStr(DefaultRole)))
            case Err(e) => Err(e)
            case Ok(role) => Ok(MeOut(id, email, fullName, currency, role))
  }

  /** Columns missing from the row take their defaults: no name, "EUR", "user". */
  lemma MeDefaults(user: Row)
    requires "id" in user && "email" in user && user["email"].JStr?
    requires "full_name" !in user && "currency" !in user && "role" !in user
    ensures Me(user) == Ok(MeOut(PyStr(user["id"]), user["email"].str, None, DefaultCurrency, DefaultRole))
  {
  }

  /** On the row the resolver hands over every column is present, so the
      defaults never apply: a NULL currency or role fails the response model
      instead of becoming "EUR" or "user". */
  lemma MeOfCurrentUser(u: UserRow)
    ensures Me(Deps.PublicRow(u)).Ok? <==> u.currency.Some? && u.role.Some?
    ensures u.currency.Some? && u.role.Some? ==>
      Me(Deps.PublicRow(u)) == Ok(MeOut(u.id, u.email, u.fullName, u.currency.value, u.role.value))
  {
  }
}
