/**
 * The hosted data store, as the handlers see it: four tables held in memory.
 * A select with `.eq(column, value).limit(1)` is the first row, in table
 * order, that has that value.
 */
module Store {
  import opened Wrappers

  datatype UserRow = UserRow(
    id: string,
    email: string,
    passwordHash: string,
    fullName: Option<string>,
    currency: Option<string>,
    role: Option<string>)

  datatype RefreshRecord = RefreshRecord(userId: string, tokenHash: string, revoked: bool, expiresAt: int)

  datatype SubcategoryRow = SubcategoryRow(id: string, userId: string)

  datatype TransactionRow = TransactionRow(
    id: string,
    userId: string,
    accountId: string,
    subcategoryId: Option<string>,
    description: Option<string>,
    amount: string,
    currency: string,
    date: int,
    notes: Option<string>,
    createdAt: int,
    updatedAt: int)

  /** No two users share an email (what signup's duplicate check keeps). */
  ghost predicate UniqueEmails(users: seq<UserRow>) {
    forall i, j :: 0 <= i < j < |users| ==> users[i].email != users[j].email
  }

  /** User ids are a primary key. */
  ghost predicate UniqueUserIds(users: seq<UserRow>) {
    forall i, j :: 0 <= i < j < |users| ==> users[i].id != users[j].id
  }

  /** Subcategory ids are a primary key. */
  ghost predicate UniqueSubcategoryIds(subs: seq<SubcategoryRow>) {
    forall i, j :: 0 <= i < j < |subs| ==> subs[i].id != subs[j].id
  }

  /** Transaction ids are a primary key. */
  ghost predicate UniqueIds(txs: seq<TransactionRow>) {
    forall i, j :: 0 <= i < j < |txs| ==> txs[i].id != txs[j].id
  }

  /** `users.select(...).eq("email", email).limit(1)`. */
  function UserByEmail(users: seq<UserRow>, email: string): (r: Option<UserRow>)
    ensures r.None? <==> forall u :: u in users ==> u.email != email
    ensures r.Some? ==> r.value in users && r.value.email == email
  {
    if users == [] then None
    else if users[0].email == email then Some(users[0])
    else UserByEmail(users[1..], email)
  }

  /** The first match is unaffected by rows appended after it, and a row
      appended to a table without a match is the match. */
  lemma {:induction false} UserByEmailAppend(users: seq<UserRow>, u: UserRow, email: string)
    ensures UserByEmail(users + [u], email)
         == if UserByEmail(users, email).Some? then UserByEmail(users, email)
            else if u.email == email then Some(u) else None
  {
    if users != [] {
      assert (users + [u])[1..] == users[1..] + [u];
      UserByEmailAppend(users[1..], u, email);
    }
  }

  /** With unique emails, the email lookup finds the one row that has it. */
  lemma {:induction false} UserByEmailUnique(users: seq<UserRow>, u: UserRow)
    requires UniqueEmails(users) && u in users
    ensures UserByEmail(users, u.email) == Some(u)
  {
    if users[0] != u {
      assert users[0].email != u.email by {
        var k :| 0 <= k < |users| && users[k] == u;
      }
      assert UniqueEmails(users[1..]) by {
        forall i, j | 0 <= i < j < |users[1..]| ensures users[1..][i].email != users[1..][j].email {
          assert users[1..][i] == users[i + 1] && users[1..][j] == users[j + 1];
        }
      }
      UserByEmailUnique(users[1..], u);
    }
  }

  /** `subcategories.select("id,user_id").eq("id", id).limit(1)`. */
  function SubcategoryById(subs: seq<SubcategoryRow>, id: string): (r: Option<SubcategoryRow>)
    ensures r.None? <==> forall s :: s in subs ==> s.id != id
    ensures r.Some? ==> r.value in subs && r.value.id == id
  {
    if subs == [] then None
    else if subs[0].id == id then Some(subs[0])
    else SubcategoryById(subs[1..], id)
  }

  /** With unique ids, the lookup by a subcategory's id finds that subcategory. */
  lemma {:induction false} SubcategoryByIdUnique(subs: seq<SubcategoryRow>, sc: SubcategoryRow)
    requires UniqueSubcategoryIds(subs) && sc in subs
    ensures SubcategoryById(subs, sc.id) == Some(sc)
  {
    if subs[0] != sc {
      assert subs[0].id != sc.id by {
        var k :| 0 <= k < |subs| && subs[k] == sc;
      }
      assert UniqueSubcategoryIds(subs[1..]) by {
        forall i, j | 0 <= i < j < |subs[1..]| ensures subs[1..][i].id != subs[1..][j].id {
          assert subs[1..][i] == subs[i + 1] && subs[1..][j] == subs[j + 1];
        }
      }
      SubcategoryByIdUnique(subs[1..], sc);
    }
  }

  /** `transactions.select("id,user_id").eq("id", id).limit(1)`. */
  function TransactionById(txs: seq<TransactionRow>, id: string): (r: Option<TransactionRow>)
    ensures r.None? <==> forall t :: t in txs ==> t.id != id
    ensures r.Some? ==> r.value in txs && r.value.id == id
  {
    if txs == [] then None
    else if txs[0].id == id then Some(txs[0])
    else TransactionById(txs[1..], id)
  }

  /** The tables. Column defaults the store applies to a new user row are
      fixed per store. */
  class Database {
    var users: seq<UserRow>
    var refreshTokens: seq<RefreshRecord>
    var subcategories: seq<SubcategoryRow>
    var transactions: seq<TransactionRow>
    const currencyDefault: Option<string>
    const roleDefault: Option<string>

    ghost predicate Valid()
      reads this
    {
      && UniqueEmails(users) && UniqueUserIds(users)
      && UniqueSubcategoryIds(subcategories) && UniqueIds(transactions)
    }

    constructor (currencyDefault: Option<string>, roleDefault: Option<string>,
                 subcategories: seq<SubcategoryRow>)
      requires UniqueSubcategoryIds(subcategories)
      ensures Valid()
      ensures users == [] && refreshTokens == [] && transactions == []
      ensures this.subcategories == subcategories
      ensures this.currencyDefault == currencyDefault && this.roleDefault == roleDefault
    {
      this.currencyDefault := currencyDefault;
      this.roleDefault := roleDefault;
      this.subcategories := subcategories;
      users, refreshTokens, transactions := [], [], [];
    }
  }
}
