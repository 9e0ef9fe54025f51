/**
 * Rows as the data store hands them back: loosely typed dictionaries from
 * column name to a JSON value. Handlers read them with `r[k]` (which raises
 * when the key is missing) and `r.get(k, default)` (whose default applies only
 * when the key is missing, not when it maps to null).
 */
module Rows {
  import opened Wrappers
  import Text

  /** The JSON values that occur in this backend's rows. Dates and
      timestamps are carried as ordered integers. */
  datatype Json = JNull | JStr(str: string) | JNum(num: int)

  type Row = map<string, Json>

  /** Python's `r.get(key, default)`. */
  function Get(r: Row, key: string, default: Json): (v: Json)
    ensures key in r ==> v == r[key]
    ensures key !in r ==> v == default
  {
    if key in r then r[key] else default
  }

  /** Python's `r.get(key)`: `None` for a missing key. */
  function Lookup(r: Row, key: string): (v: Option<Json>)
    ensures v.Some? <==> key in r
    ensures v.Some? ==> v.value == r[key]
  {
    if key in r then Some(r[key]) else None
  }

  /** Python truthiness: null, `""` and `0` are false. */
  predicate Truthy(v: Json)
    ensures Truthy(v) <==> v != JNull && v != JStr("") && v != JNum(0)
  {
    match v
    case JNull => false
    case JStr(s) => s != ""
    case JNum(n) => n != 0
  }

  /** Python's `str(v)`: a string is itself, null is `"None"`, a number is
      printed in decimal, which `int()` reads back. */
  function PyStr(v: Json): (r: string)
    ensures v.JStr? ==> r == v.str
    ensures v == JNull ==> r == "None"
    ensures v.JNum? && Text.Printable(v.num) ==> Text.ParseInt(r) == Some(v.num)
  {
    match v
    case JNull => "None"
    case JStr(s) => s
    case JNum(n) =>
      assert Text.Printable(n) ==> Text.ParseInt(Text.FormatInt(n)) == Some(n) by {
        if Text.Printable(n) {
          Text.ParseFormat(n);
        }
      }
      Text.FormatInt(n)
  }

  /** A nullable text column as its JSON value. */
  function OptionalText(v: Option<string>): (j: Json)
    ensures v.None? <==> j == JNull
    ensures v.Some? ==> j == JStr(v.value)
  {
    match v
    case None => JNull
    case Some(s) => JStr(s)
  }
}
