/**
 * `/transactions`: listing the current user's transactions (filter, order,
 * limit, then mapping each row onto the response model), creating one after
 * checking the subcategory's owner, and deleting one after checking its owner.
 * The current user is the id from the resolver's row; the id and timestamps
 * the store gives a new row are `newId` and `now`.
 */
module Transactions {
  import opened Wrappers
  import opened Rows
  import opened Schemas
  import opened Store

  const DefaultLimit := 100
  const MaxLimit := 500

  datatype TxError =
    | LimitTooLarge           // the query validation of `limit`
    | InvalidSubcategory      // 400 "Invalid subcategory"
    | UnboundSubcategory      // the UnboundLocalError of the ownership check as written
    | InsertFailed            // 500 "Insert failed"
    | NotFound                // 404 "Not found"
    | Response(e: ResponseError)
  {
    function Status(): int {
      match this
      case LimitTooLarge => 422
      case InvalidSubcategory => 400
      case NotFound => 404
      case _ => 500
    }
  }

  /** The query parameters of the listing, with the defaults of the route. */
  datatype Query = Query(frm: Option<int> := None, to: Option<int> := None,
                         subcategoryId: Option<string> := None, limit: int := DefaultLimit)

  /** Python truthiness of an optional string (`if subcategory_id:`). */
  predicate Given(v: Option<string>) {
    v.Some? && v.value != ""
  }

  /* ------------------------------------------------------------ listing */

  /** The filters the listing applies: owner, `date >= frm`, `date < to` and,
      when one is given, the subcategory. */
  predicate Matches(t: TransactionRow, userId: string, q: Query)
    // without filters, exactly the user's rows match
    ensures q.frm.None? && q.to.None? && !Given(q.subcategoryId) ==> (Matches(t, userId, q) <==> t.userId == userId)
    // an empty date range matches nothing
    ensures q.frm.Some? && q.to.Some? && q.to.value <= q.frm.value ==> !Matches(t, userId, q)
  {
    && t.userId == userId
    && (q.frm.Some? ==> t.date >= q.frm.value)
    && (q.to.Some? ==> t.date < q.to.value)
    && (Given(q.subcategoryId) ==> t.subcategoryId == q.subcategoryId)
  }

  /** The matching rows, each as often as it occurs in the table. */
  function Filter(rows: seq<TransactionRow>, userId: string, q: Query): (r: seq<TransactionRow>)
    ensures forall t :: multiset(r)[t] == if Matches(t, userId, q) then multiset(rows)[t] else 0
    ensures forall t :: t in r ==> Matches(t, userId, q)
  {
    if rows == [] then []
    else
      assert rows == [rows[0]] + rows[1..];
      (if Matches(rows[0], userId, q) then [rows[0]] else []) + Filter(rows[1..], userId, q)
  }

  /** `order("date", desc=True).order("created_at", desc=True)`: `a` may come before `b`. */
  predicate Before(a: TransactionRow, b: TransactionRow) {
    a.date > b.date || (a.date == b.date && a.createdAt >= b.createdAt)
  }

  predicate SortedDesc(s: seq<TransactionRow>) {
    forall i, j :: 0 <= i < j < |s| ==> Before(s[i], s[j])
  }

  /** `x` placed before the first row it may precede. */
  function Insert(x: TransactionRow, s: seq<TransactionRow>): (r: seq<TransactionRow>)
    ensures multiset(r) == multiset(s) + multiset{x}
  {
    if s == [] || Before(x, s[0]) then [x] + s
    else
      assert s == [s[0]] + s[1..];
      [s[0]] + Insert(x, s[1..])
  }

  /** Insertion sort by date, then creation time, both descending. Rows that
      tie on both keep their table order. */
  function Sort(s: seq<TransactionRow>): (r: seq<TransactionRow>)
    ensures multiset(r) == multiset(s)
  {
    if s == [] then []
    else
      assert s == [s[0]] + s[1..];
      Insert(s[0], Sort(s[1..]))
  }

  lemma {:induction false} InsertSorted(x: TransactionRow, s: seq<TransactionRow>)
    requires SortedDesc(s)
    ensures SortedDesc(Insert(x, s))
  {
    if s != [] && !Before(x, s[0]) {
      var t := Insert(x, s[1..]);
      InsertSorted(x, s[1..]);
      forall k | 0 <= k < |t| ensures Before(s[0], t[k]) {
        assert t[k] in multiset(t);
        if t[k] != x {
          assert t[k] in multiset(s[1..]);
          var j :| 0 <= j < |s[1..]| && s[1..][j] == t[k];
          assert s[j + 1] == t[k];
        }
      }
    }
  }

  lemma {:induction false} SortSorted(s: seq<TransactionRow>)
    ensures SortedDesc(Sort(s))
  {
    if s != [] {
      SortSorted(s[1..]);
      InsertSorted(s[0], Sort(s[1..]));
    }
  }

  /** `.limit(n)`; a negative limit is taken to select nothing. */
  function Take(s: seq<TransactionRow>, n: int): (r: seq<TransactionRow>)
    ensures |r| == if n <= 0 then 0 else if n < |s| then n else |s|
    ensures r == s[..|r|]
  {
    if n <= 0 then [] else if n < |s| then s[..n] else s
  }

  /** A top slice of a sorted sequence: every occurrence cut off comes
      after every row kept. */
  lemma TakeTopK(sorted: seq<TransactionRow>, n: int)
    requires SortedDesc(sorted)
    ensures var r := Take(sorted, n);
      forall t, k :: multiset(r)[t] < multiset(sorted)[t] && 0 <= k < |r| ==> Before(r[k], t)
  {
    var r := Take(sorted, n);
    var rest := sorted[|r|..];
    assert sorted == r + rest;
    forall t, k | multiset(r)[t] < multiset(sorted)[t] && 0 <= k < |r| ensures Before(r[k], t) {
      assert multiset(sorted) == multiset(r) + multiset(rest);
      assert t in rest;
      var j :| 0 <= j < |rest| && rest[j] == t;
      assert sorted[|r| + j] == t;
      assert sorted[k] == r[k];
    }
  }

  /** A slice taken off the top holds no more of any row than the whole. */
  lemma TakeBound(s: seq<TransactionRow>, n: int)
    ensures forall t :: multiset(Take(s, n))[t] <= multiset(s)[t]
    ensures forall t :: t in Take(s, n) ==> t in s
  {
    var r := Take(s, n);
    assert s == r + s[|r|..];
    assert multiset(s) == multiset(r) + multiset(s[|r|..]);
  }

  /** The rows the listing query returns. */
  function ListRows(table: seq<TransactionRow>, userId: string, q: Query): (r: seq<TransactionRow>)
    ensures forall t :: t in r ==> Matches(t, userId, q)
    ensures SortedDesc(r)
    ensures var n := |Filter(table, userId, q)|;
      q.limit >= 0 ==> |r| == if q.limit < n then q.limit else n
    ensures q.limit <= 0 ==> r == []
    ensures forall t :: multiset(r)[t] <= if Matches(t, userId, q) then multiset(table)[t] else 0
    // no occurrence of a matching row that was left out may come before a
    // row that was kept
    ensures forall t, k :: Matches(t, userId, q) && multiset(r)[t] < multiset(table)[t] && 0 <= k < |r|
                        ==> Before(r[k], t)
  {
    var f := Filter(table, userId, q);
    var sorted := Sort(f);
    SortSorted(f);
    TakeTopK(sorted, q.limit);
    TakeBound(sorted, q.limit);
    Take(sorted, q.limit)
  }

  /** The columns the listing and the insert select, as the store returns them. */
  function SelectedColumns(t: TransactionRow): (r: Row)
    ensures "id" in r && r["id"] == JStr(t.id)
    ensures "account_id" in r && r["account_id"] == JStr(t.accountId)
    ensures "subcategory_id" in r && r["subcategory_id"] == OptionalText(t.subcategoryId)
    ensures "description" in r && r["description"] == OptionalText(t.description)
    ensures "amount" in r && r["amount"] == JStr(t.amount)
    ensures "currency" in r && r["currency"] == JStr(t.currency)
    ensures "date" in r && r["date"] == JNum(t.date)
    ensures "notes" in r && r["notes"] == OptionalText(t.notes)
    ensures "created_at" in r && r["created_at"] == JNum(t.createdAt)
    ensures "updated_at" in r && r["updated_at"] == JNum(t.updatedAt)
  {
    map["id" := JStr(t.id), "account_id" := JStr(t.accountId),
        "subcategory_id" := OptionalText(t.subcategoryId),
        "description" := OptionalText(t.description), "amount" := JStr(t.amount),
        "currency" := JStr(t.currency), "date" := JNum(t.date),
        "notes" := OptionalText(t.notes),
        "created_at" := JNum(t.createdAt), "updated_at" := JNum(t.updatedAt)]
  }

  /** `r[key]`, which raises on a missing key. */
  function Field(r: Row, key: string): (v: Result<Json, ResponseError>)
    ensures v.Ok? <==> key in r
    ensures v.Ok? ==> v.value == r[key]
    ensures v.Err? ==> v.error == MissingKey(key)
  {
    if key in r then Ok(r[key]) else Err(MissingKey(key))
  }

  /** The mapping of a row onto the listing's response model succeeds: the
      five required columns are present, the amount is not null, dates and
      timestamps are dates, and the optional texts are texts or null. */
  predicate Convertible(r: Row) {
    && "id" in r && "account_id" in r
    && !Get(r, "description", JNull).JNum?
    && "amount" in r && r["amount"] != JNull
    && Get(r, "currency", JStr(DefaultCurrency)).JStr?
    && "date" in r && r["date"].JNum?
    && !Get(r, "notes", JNull).JNum?
    && "created_at" in r && r["created_at"].JNum?
    && "updated_at" in r && r["updated_at"].JNum?
  }

  /** The row-to-`TransactionOut` mapping of the listing and of creation,
      with response-model validation. */
  function TransactionOutOf(r: Row): (o: Result<TransactionOut, ResponseError>)
    ensures o.Ok? <==> Convertible(r)
    ensures o.Ok? ==> "id" in r && o.value.id == PyStr(r["id"])
    ensures o.Ok? ==> "account_id" in r && o.value.accountId == PyStr(r["account_id"])
    // a falsy subcategory (missing, null or empty) comes out as None
    ensures o.Ok? ==>
      (o.value.subcategoryId.None? <==> !Truthy(Get(r, "subcategory_id", JNull)))
      && (o.value.subcategoryId.Some? ==> o.value.subcategoryId.value == PyStr(r["subcategory_id"]))
    ensures o.Ok? ==> JStr(o.value.currency) == Get(r, "currency", JStr(DefaultCurrency))
    ensures o.Ok? && "currency" !in r ==> o.value.currency == DefaultCurrency
    ensures o.Ok? ==> "amount" in r && o.value.amount == r["amount"] != JNull
    ensures o.Ok? ==> "date" in r && r["date"] == JNum(o.value.date)
    ensures o.Ok? ==> OptionalText(o.value.description) == Get(r, "description", JNull)
    ensures o.Ok? ==> OptionalText(o.value.notes) == Get(r, "notes", JNull)
    ensures o.Ok? ==> r["created_at"] == JNum(o.value.createdAt) && r["updated_at"] == JNum(o.value.updatedAt)
  {
    var id :- Field(r, "id");
    var accountId :- Field(r, "account_id");
    var sub := Get(r, "subcategory_id", JNull);
    var subcategoryId := if Truthy(sub) then Some(PyStr(sub)) else None;
    var description :- OptionalTextField("description", Get(r, "description", JNull));
    var amount :- Field(r, "amount");
    var _ :- if amount == JNull then Err(InvalidField("amount")) else Ok(amount);
    var currency :- RequiredText("currency", Get(r, "currency", JStr(DefaultCurrency)));
    var dateValue :- Field(r, "date");
    var date :- InstantField("date", dateValue);
    var notes :- OptionalTextField("notes", Get(r, "notes", JNull));
    var createdValue :- Field(r, "created_at");
    var createdAt :- InstantField("created_at", createdValue);
    var updatedValue :- Field(r, "updated_at");
    var updatedAt :- InstantField("updated_at", updatedValue);
    Ok(TransactionOut(PyStr(id), PyStr(accountId), subcategoryId, description, amount,
                      currency, date, notes, createdAt, updatedAt))
  }

  /** What a stored row looks like in a response. */
  function RowOut(t: TransactionRow): (o: TransactionOut)
    ensures o.subcategoryId.None? <==> !Given(t.subcategoryId)
    ensures o.subcategoryId.Some? ==> o.subcategoryId == t.subcategoryId
    ensures o.id == t.id && o.accountId == t.accountId && o.amount == JStr(t.amount)
    ensures o.description == t.description && o.notes == t.notes && o.currency == t.currency
    ensures o.date == t.date && o.createdAt == t.createdAt && o.updatedAt == t.updatedAt
  {
    TransactionOut(t.id, t.accountId, if Given(t.subcategoryId) then t.subcategoryId else None,
                   t.description, JStr(t.amount), t.currency, t.date, t.notes, t.createdAt, t.updatedAt)
  }

  /** A row selected from the table always maps onto the response model:
      its fields come out unchanged, an empty subcategory as None. */
  lemma SelectedRowConverts(t: TransactionRow)
    ensures TransactionOutOf(SelectedColumns(t)) == Ok(RowOut(t))
  {
  }

  /** The list comprehension over the returned rows; one failing row fails the request. */
  function OutputAll(rows: seq<Row>): (r: Result<seq<TransactionOut>, ResponseError>)
    ensures r.Ok? <==> forall i :: 0 <= i < |rows| ==> TransactionOutOf(rows[i]).Ok?
    ensures r.Ok? ==> |r.value| == |rows| && forall i :: 0 <= i < |rows| ==> Ok(r.value[i]) == TransactionOutOf(rows[i])
  {
    if rows == [] then Ok([])
    else
      var rest := rows[1..];
      assert forall i :: 1 <= i < |rows| ==> rows[i] == rest[i - 1];
      match TransactionOutOf(rows[0])
      case Err(e) => Err(e)
      case Ok(head) =>
        match OutputAll(rest)
        case Err(e) => Err(e)
        case Ok(tail) => Ok([head] + tail)
  }

  function SelectAll(rows: seq<TransactionRow>): (r: seq<Row>)
    ensures |r| == |rows| && forall i :: 0 <= i < |rows| ==> r[i] == SelectedColumns(rows[i])
  {
    seq(|rows|, i requires 0 <= i < |rows| => SelectedColumns(rows[i]))
  }

  /** Rows selected from the table all convert, each onto its `RowOut`. */
  lemma ConvertSelected(rows: seq<TransactionRow>)
    ensures var out := OutputAll(SelectAll(rows));
      out.Ok? && |out.value| == |rows| && forall i :: 0 <= i < |rows| ==> out.value[i] == RowOut(rows[i])
  {
    var selected := SelectAll(rows);
    forall i | 0 <= i < |rows| ensures TransactionOutOf(selected[i]) == Ok(RowOut(rows[i])) {
      SelectedRowConverts(rows[i]);
    }
  }

  /** `list_transactions`. */
  function ListTransactions(table: seq<TransactionRow>, userId: string, q: Query)
    : (r: Result<seq<TransactionOut>, TxError>)
    ensures r.Err? <==> q.limit > MaxLimit
    ensures r.Err? ==> r.error == LimitTooLarge
    ensures r.Ok? ==> var rows := ListRows(table, userId, q);
      |r.value| == |rows| && forall i :: 0 <= i < |rows| ==> r.value[i] == RowOut(rows[i])
  {
    if q.limit > MaxLimit then Err(LimitTooLarge)
    else
      var rows := ListRows(table, userId, q);
      ConvertSelected(rows);
      match OutputAll(SelectAll(rows))
      case Ok(out) => Ok(out)
      case Err(e) => Err(Response(e))
  }

  /* ----------------------------------------------------------- creation */

  /** The ownership check of `create_transaction` as written: when the body
      names no subcategory, `sc` is never bound and reading it raises. */
  function CheckSubcategoryAsWritten(subId: Option<string>, subs: seq<SubcategoryRow>, userId: string)
    : (r: Result<(), TxError>)
    ensures !Given(subId) ==> r == Err(UnboundSubcategory)
    ensures Given(subId) ==> r == CheckSubcategory(subId, subs, userId)
  {
    if Given(subId) then
      match SubcategoryById(subs, subId.value)
      case None => Err(InvalidSubcategory)
      case Some(sc) => if sc.userId != userId then Err(InvalidSubcategory) else Ok(())
    else Err(UnboundSubcategory)
  }

  /** The check as intended: without a subcategory there is nothing to
      check; with one, it must exist and belong to the current user. */
  function CheckSubcategory(subId: Option<string>, subs: seq<SubcategoryRow>, userId: string)
    : (r: Result<(), TxError>)
    ensures !Given(subId) ==> r.Ok?
    ensures r.Err? ==> r.error == InvalidSubcategory
    ensures Given(subId) && r.Ok? ==> exists sc :: sc in subs && sc.id == subId.value && sc.userId == userId
    ensures Given(subId) && (forall sc :: sc in subs && sc.id == subId.value ==> sc.userId != userId)
            ==> r.Err?
  {
    if Given(subId) then
      match SubcategoryById(subs, subId.value)
      case None => Err(InvalidSubcategory)
      case Some(sc) => if sc.userId != userId then Err(InvalidSubcategory) else Ok(())
    else Ok(())
  }

  /** With unique subcategory ids the intended check is exact: a named
      subcategory passes if and only if it exists and belongs to the user. */
  lemma CheckSubcategoryExact(subId: Option<string>, subs: seq<SubcategoryRow>, userId: string)
    requires UniqueSubcategoryIds(subs)
    ensures Given(subId) ==>
      (CheckSubcategory(subId, subs, userId).Ok? <==>
       exists sc :: sc in subs && sc.id == subId.value && sc.userId == userId)
  {
    if Given(subId) && exists sc :: sc in subs && sc.id == subId.value && sc.userId == userId {
      var sc :| sc in subs && sc.id == subId.value && sc.userId == userId;
      SubcategoryByIdUnique(subs, sc);
    }
  }

  /** The defect above, on the smallest input: a payload without a
      subcategory fails as written and passes the intended check. */
  lemma NoSubcategoryFinding(subs: seq<SubcategoryRow>, userId: string)
    ensures CheckSubcategoryAsWritten(None, subs, userId) == Err(UnboundSubcategory)
    ensures CheckSubcategoryAsWritten(Some(""), subs, userId) == Err(UnboundSubcategory)
    ensures CheckSubcategory(None, subs, userId) == Ok(())
  {
  }

  /** The row inserted for `payload`, owned by the current user. */
  function NewTransactionRow(payload: TransactionIn, userId: string, newId: string, now: int): (t: TransactionRow)
    ensures t.id == newId && t.userId == userId && t.createdAt == now && t.updatedAt == now
    ensures t.accountId == payload.accountId && t.subcategoryId == payload.subcategoryId
    ensures t.description == payload.description && t.notes == payload.notes
    ensures t.amount == payload.amount && t.currency == payload.currency && t.date == payload.date
  {
    TransactionRow(newId, userId, payload.accountId, payload.subcategoryId, payload.description,
                   payload.amount, payload.currency, payload.date, payload.notes, now, now)
  }

  /** `create_transaction`, with the ownership check as intended. `returned`
      says whether the store's reply carries the inserted row. */
  method CreateTransaction(db: Database, userId: string, payload: TransactionIn,
                           newId: string, now: int, returned: bool)
    returns (r: Result<TransactionOut, TxError>)
    requires db.Valid()
    requires forall t :: t in db.transactions ==> t.id != newId
    modifies db`transactions
    ensures db.Valid()
    ensures forall t :: t in db.transactions && t !in old(db.transactions) ==> t.userId == userId && t.id == newId
    // refused exactly when a subcategory is named and the user owns none with that id
    ensures r == Err(InvalidSubcategory) <==>
      Given(payload.subcategoryId)
      && forall sc :: sc in db.subcategories && sc.id == payload.subcategoryId.value ==> sc.userId != userId
    ensures var check := CheckSubcategory(payload.subcategoryId, db.subcategories, userId);
      if check.Err? then
        r == Err(check.error) && db.transactions == old(db.transactions)
      else
        var row := NewTransactionRow(payload, userId, newId, now);
        && db.transactions == old(db.transactions) + [row]
        && r == if returned then Ok(RowOut(row)) else Err(InsertFailed)
  {
    var check := CheckSubcategory(payload.subcategoryId, db.subcategories, userId);
    CheckSubcategoryExact(payload.subcategoryId, db.subcategories, userId);
    if check.Err? {
      return Err(check.error);
    }
    var row := NewTransactionRow(payload, userId, newId, now);
    db.transactions := db.transactions + [row];
    if !returned {
      return Err(InsertFailed);
    }
    SelectedRowConverts(row);
    var out := TransactionOutOf(SelectedColumns(row));
    r := Ok(out.value);
  }

  /* ----------------------------------------------------------- deletion */

  /** `delete().eq("id", id)`: every row with that id goes, the others stay. */
  function RemoveId(txs: seq<TransactionRow>, id: string): (r: seq<TransactionRow>)
    ensures forall t :: multiset(r)[t] == if t.id == id then 0 else multiset(txs)[t]
  {
    if txs == [] then []
    else
      assert txs == [txs[0]] + txs[1..];
      (if txs[0].id == id then [] else [txs[0]]) + RemoveId(txs[1..], id)
  }

  lemma {:induction false} RemoveAbsentId(txs: seq<TransactionRow>, id: string)
    requires forall t :: t in txs ==> t.id != id
    ensures RemoveId(txs, id) == txs
  {
    if txs != [] {
      assert txs[0] in txs && txs[0].id != id;
      RemoveAbsentId(txs[1..], id);
      assert RemoveId(txs, id) == [txs[0]] + RemoveId(txs[1..], id);
      assert [txs[0]] + txs[1..] == txs;
    }
  }

  /** The tail of a table with unique ids has unique ids, none of them the head's. */
  lemma {:induction false} UniqueTail(txs: seq<TransactionRow>)
    requires UniqueIds(txs) && txs != []
    ensures UniqueIds(txs[1..])
    ensures forall u :: u in txs[1..] ==> u.id != txs[0].id
  {
    forall i, j | 0 <= i < j < |txs[1..]| ensures txs[1..][i].id != txs[1..][j].id {
      assert txs[1..][i] == txs[i + 1] && txs[1..][j] == txs[j + 1];
    }
    forall u | u in txs[1..] ensures u.id != txs[0].id {
      var j :| 0 <= j < |txs[1..]| && txs[1..][j] == u;
      assert txs[j + 1] == u;
    }
  }

  /** With unique ids, a row occurs once and is the only row with its id. */
  lemma {:induction false} UniqueOccursOnce(txs: seq<TransactionRow>, t: TransactionRow)
    requires UniqueIds(txs) && t in txs
    ensures multiset(txs)[t] == 1
    ensures forall u :: u in txs && u.id == t.id ==> u == t
  {
    UniqueTail(txs);
    assert txs == [txs[0]] + txs[1..];
    if txs[0] == t {
      assert t !in txs[1..];
    } else {
      assert t in txs[1..];
      UniqueOccursOnce(txs[1..], t);
    }
  }

  /** Deleting keeps only rows of the table, none with the deleted id. */
  lemma {:induction false} RemoveIdFrom(txs: seq<TransactionRow>, id: string)
    ensures forall u :: u in RemoveId(txs, id) ==> u in txs && u.id != id
  {
    var r := RemoveId(txs, id);
    forall u | u in r ensures u in txs && u.id != id {
      assert multiset(r)[u] > 0;
    }
  }

  /** A row put in front of rows with other ids keeps the ids unique. */
  lemma ConsUnique(x: TransactionRow, rest: seq<TransactionRow>)
    requires UniqueIds(rest) && forall u :: u in rest ==> u.id != x.id
    ensures UniqueIds([x] + rest)
  {
    var r := [x] + rest;
    forall i, j | 0 <= i < j < |r| ensures r[i].id != r[j].id {
      assert r[j] == rest[j - 1];
      if i > 0 {
        assert r[i] == rest[i - 1];
      }
    }
  }

  /** Deleting keeps the ids unique. */
  lemma {:induction false} RemoveIdKeepsUnique(txs: seq<TransactionRow>, id: string)
    requires UniqueIds(txs)
    ensures UniqueIds(RemoveId(txs, id))
  {
    if txs != [] {
      UniqueTail(txs);
      RemoveIdKeepsUnique(txs[1..], id);
      var rest := RemoveId(txs[1..], id);
      RemoveIdFrom(txs[1..], id);
      if txs[0].id != id {
        ConsUnique(txs[0], rest);
        assert RemoveId(txs, id) == [txs[0]] + rest;
      } else {
        assert RemoveId(txs, id) == rest;
      }
    }
  }

  /** With unique ids, deleting an existing row's id removes that row and no other. */
  lemma RemoveUniqueId(txs: seq<TransactionRow>, t: TransactionRow)
    requires UniqueIds(txs) && t in txs
    ensures |RemoveId(txs, t.id)| == |txs| - 1
    ensures multiset(RemoveId(txs, t.id)) + multiset{t} == multiset(txs)
    ensures UniqueIds(RemoveId(txs, t.id))
  {
    UniqueOccursOnce(txs, t);
    RemoveIdKeepsUnique(txs, t.id);
    var r := RemoveId(txs, t.id);
    assert multiset(r) + multiset{t} == multiset(txs) by {
      forall u ensures (multiset(r) + multiset{t})[u] == multiset(txs)[u] {
        if u.id == t.id && u in txs {
          assert u == t;
        }
      }
    }
    assert |multiset(r)| + 1 == |multiset(txs)|;
  }

  /** `delete_transaction`. */
  method DeleteTransaction(db: Database, userId: string, txId: string) returns (r: Result<(), TxError>)
    requires db.Valid()
    modifies db`transactions
    ensures db.Valid()
    ensures var t := TransactionById(old(db.transactions), txId);
      if t.Some? && t.value.userId == userId then
        && r == Ok(())
        && db.transactions == RemoveId(old(db.transactions), txId)
        && |db.transactions| == |old(db.transactions)| - 1
        && multiset(db.transactions) + multiset{t.value} == multiset(old(db.transactions))
      else
        r == Err(NotFound) && db.transactions == old(db.transactions)
  {
    var t := TransactionById(db.transactions, txId);
    if t.None? || t.value.userId != userId {
      return Err(NotFound);
    }
    RemoveUniqueId(db.transactions, t.value);
    db.transactions := RemoveId(db.transactions, txId);
    r := Ok(());
  }
}
