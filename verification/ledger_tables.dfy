/**
 * The rows of the ledger (accounts, categories, transactions), the database
 * lookups the finance controller performs on them, the running sum that an
 * account's cached `balance` must equal, and the consistency invariant of the
 * three tables together.
 */
module LedgerTables {
  import opened Common

  /** Derived from the sign of the amount, never chosen by the client. */
  datatype TransactionType = Income | Expense

  /** A descriptive label on a category; it does not constrain transaction signs. */
  datatype CategoryDomain = Income | Expense

  datatype Account = Account(id: Id, userId: Id, name: string, currency: string, balance: real)

  datatype Category = Category(id: Id, accountId: Id, name: string, domain: CategoryDomain, description: string)

  /** `kind` is the row's `type` column. */
  datatype Transaction = Transaction(
    id: Id,
    accountId: Id,
    amount: real,
    kind: TransactionType,
    description: Option<string>,
    categoryId: Option<Id>)

  /** The three tables, plus the source of fresh primary keys. */
  datatype Db = Db(accounts: seq<Account>, categories: seq<Category>, transactions: seq<Transaction>, nextId: Id)

  /** `amount >= 0 ? INCOME : EXPENSE` */
  function TypeOf(amount: real): (t: TransactionType)
    ensures t == TransactionType.Income <==> amount >= 0.0
  {
    if amount >= 0.0 then TransactionType.Income else TransactionType.Expense
  }

  /** The enum check `Object.values(CategoryDomain).includes(domain)`, returning the member. */
  function ParseDomain(s: string): (d: Option<CategoryDomain>)
    ensures d == Some(CategoryDomain.Income) <==> s == "INCOME"
    ensures d == Some(CategoryDomain.Expense) <==> s == "EXPENSE"
    ensures d.None? <==> s != "INCOME" && s != "EXPENSE"
  {
    if s == "INCOME" then Some(CategoryDomain.Income)
    else if s == "EXPENSE" then Some(CategoryDomain.Expense)
    else None
  }

  // ----- Lookups: `findFirst({ where: ... })` -----

  /** The account row with this id owned by this user. */
  function FindAccount(accounts: seq<Account>, id: Id, userId: Id): (r: Option<nat>)
    ensures r.Some? ==> r.value < |accounts| && accounts[r.value].id == id && accounts[r.value].userId == userId
    ensures r.None? <==> forall k :: 0 <= k < |accounts| ==> !(accounts[k].id == id && accounts[k].userId == userId)
  {
    FirstIndex(accounts, (a: Account) => a.id == id && a.userId == userId)
  }

  /** The category row with this id that belongs to this account. */
  function FindCategory(categories: seq<Category>, id: Id, accountId: Id): (r: Option<nat>)
    ensures r.Some? ==> r.value < |categories| && categories[r.value].id == id && categories[r.value].accountId == accountId
    ensures r.None? <==> forall k :: 0 <= k < |categories| ==> !(categories[k].id == id && categories[k].accountId == accountId)
  {
    FirstIndex(categories, (c: Category) => c.id == id && c.accountId == accountId)
  }

  /** The transaction row with this id that belongs to this account. */
  function FindTransaction(transactions: seq<Transaction>, id: Id, accountId: Id): (r: Option<nat>)
    ensures r.Some? ==> r.value < |transactions| && transactions[r.value].id == id && transactions[r.value].accountId == accountId
    ensures r.None? <==> forall k :: 0 <= k < |transactions| ==> !(transactions[k].id == id && transactions[k].accountId == accountId)
  {
    FirstIndex(transactions, (t: Transaction) => t.id == id && t.accountId == accountId)
  }

  /** Some account of `userId` is called `name`, other than the account `except` (when given). */
  predicate AccountNamed(accounts: seq<Account>, userId: Id, name: string, except: Option<Id>)
  {
    exists k :: 0 <= k < |accounts| && accounts[k].userId == userId && accounts[k].name == name
                && (except.Some? ==> accounts[k].id != except.value)
  }

  /** Some category of `accountId` is called `name`. */
  predicate CategoryNamed(categories: seq<Category>, accountId: Id, name: string)
  {
    exists k :: 0 <= k < |categories| && categories[k].accountId == accountId && categories[k].name == name
  }

  /** Some category, of any account, has this id: the check the foreign key on `categoryId` makes. */
  predicate CategoryExists(categories: seq<Category>, id: Id)
  {
    exists k :: 0 <= k < |categories| && categories[k].id == id
  }

  /** The ids of the categories of `accountId`, which the cascade of an account delete removes. */
  function CategoryIdsOf(categories: seq<Category>, accountId: Id): (ids: set<Id>)
    ensures forall id :: id in ids <==> exists c :: c in categories && c.accountId == accountId && c.id == id
  {
    set c | c in categories && c.accountId == accountId :: c.id
  }

  // ----- Deleting a category: the foreign key's `ON DELETE SET NULL` -----

  /** Row `t` once the categories with ids in `gone` are deleted. */
  function Detach(t: Transaction, gone: set<Id>): (r: Transaction)
    ensures r.categoryId.Some? ==> r.categoryId.value !in gone
    ensures r.categoryId.None? ==> t.categoryId.None? || t.categoryId.value in gone
    ensures r == t.(categoryId := r.categoryId)
  {
    if t.categoryId.Some? && t.categoryId.value in gone then t.(categoryId := None) else t
  }

  /** The transaction table once the categories with ids in `gone` are deleted: their references become null. */
  function Unlink(transactions: seq<Transaction>, gone: set<Id>): (r: seq<Transaction>)
    ensures |r| == |transactions|
    ensures forall k :: 0 <= k < |r| ==> r[k] == Detach(transactions[k], gone)
  {
    if transactions == [] then []
    else [Detach(transactions[0], gone)] + Unlink(transactions[1..], gone)
  }

  /** The rows after the unlinking are exactly the unlinked old rows. */
  lemma UnlinkMembers(s: seq<Transaction>, gone: set<Id>)
    ensures forall t :: t in Unlink(s, gone) <==> exists u :: u in s && t == Detach(u, gone)
  {
    var r := Unlink(s, gone);
    forall t ensures t in r <==> exists u :: u in s && t == Detach(u, gone) {
      if t in r {
        var k :| 0 <= k < |r| && r[k] == t;
        assert s[k] in s;
      }
      if exists u :: u in s && t == Detach(u, gone) {
        var u :| u in s && t == Detach(u, gone);
        var k :| 0 <= k < |s| && s[k] == u;
        assert r[k] == t;
      }
    }
  }

  // ----- The cached balance -----

  /** What transaction `t` contributes to the balance of `accountId`. */
  function Share(t: Transaction, accountId: Id): real
  {
    if t.accountId == accountId then t.amount else 0.0
  }

  /** The sum of the amounts of the transactions of `accountId`. */
  function Balance(transactions: seq<Transaction>, accountId: Id): real
  {
    if transactions == [] then 0.0
    else Share(transactions[0], accountId) + Balance(transactions[1..], accountId)
  }

  lemma {:induction false} BalanceConcat(s: seq<Transaction>, t: seq<Transaction>, accountId: Id)
    ensures Balance(s + t, accountId) == Balance(s, accountId) + Balance(t, accountId)
  {
    if s == [] {
      assert s + t == t;
    } else {
      assert (s + t)[1..] == s[1..] + t;
      BalanceConcat(s[1..], t, accountId);
    }
  }

  /** Inserting a row adds its amount to its own account's sum and nothing to any other. */
  lemma BalanceAppend(s: seq<Transaction>, t: Transaction, accountId: Id)
    ensures Balance(s + [t], accountId) == Balance(s, accountId) + Share(t, accountId)
  {
    BalanceConcat(s, [t], accountId);
    assert [t][1..] == [];
  }

  /** Deleting row `i` subtracts its amount from its own account's sum. */
  lemma BalanceRemoveAt(s: seq<Transaction>, i: nat, accountId: Id)
    requires i < |s|
    ensures Balance(RemoveAt(s, i), accountId) == Balance(s, accountId) - Share(s[i], accountId)
  {
    var tail := [s[i]] + s[i + 1..];
    assert s == s[..i] + tail;
    BalanceConcat(s[..i], tail, accountId);
    assert tail[1..] == s[i + 1..];
    BalanceConcat(s[..i], s[i + 1..], accountId);
  }

  /** Overwriting row `i` with `t` swaps the old row's contribution for the new one's. */
  lemma BalanceReplace(s: seq<Transaction>, i: nat, t: Transaction, accountId: Id)
    requires i < |s|
    ensures Balance(s[i := t], accountId) == Balance(s, accountId) - Share(s[i], accountId) + Share(t, accountId)
  {
    var tail := [t] + s[i + 1..];
    assert s[i := t] == s[..i] + tail;
    BalanceConcat(s[..i], tail, accountId);
    assert tail[1..] == s[i + 1..];
    BalanceRemoveAt(s, i, accountId);
    BalanceConcat(s[..i], s[i + 1..], accountId);
  }

  /** An account no transaction points at has a sum of zero. */
  lemma {:induction false} BalanceOfUnused(s: seq<Transaction>, accountId: Id)
    requires forall k :: 0 <= k < |s| ==> s[k].accountId != accountId
    ensures Balance(s, accountId) == 0.0
  {
    if s != [] {
      BalanceOfUnused(s[1..], accountId);
    }
  }

  /** Filtering away rows that never belong to `accountId` leaves its sum unchanged. */
  lemma {:induction false} BalanceFilter(s: seq<Transaction>, p: Transaction -> bool, accountId: Id)
    requires forall k :: 0 <= k < |s| && s[k].accountId == accountId ==> p(s[k])
    ensures Balance(Filter(s, p), accountId) == Balance(s, accountId)
  {
    if s != [] {
      BalanceFilter(s[1..], p, accountId);
      var head := if p(s[0]) then [s[0]] else [];
      BalanceConcat(head, Filter(s[1..], p), accountId);
      if p(s[0]) {
        assert head[1..] == [];
      }
    }
  }

  /** Clearing category references moves no account's sum. */
  lemma {:induction false} BalanceUnlink(s: seq<Transaction>, gone: set<Id>, accountId: Id)
    ensures Balance(Unlink(s, gone), accountId) == Balance(s, accountId)
  {
    if s != [] {
      BalanceUnlink(s[1..], gone, accountId);
      assert Unlink(s, gone)[1..] == Unlink(s[1..], gone);
    }
  }

  // ----- The invariant of the three tables -----

  /** Every key, and every reference to an account, was drawn from the counter. */
  ghost predicate KeysFresh(db: Db)
  {
    && (forall a :: a in db.accounts ==> a.id < db.nextId)
    && (forall c :: c in db.categories ==> c.id < db.nextId && c.accountId < db.nextId)
    && (forall t :: t in db.transactions ==> t.id < db.nextId && t.accountId < db.nextId)
  }

  /** Primary keys are unique within each table. */
  ghost predicate KeysUnique(db: Db)
  {
    Distinct(db.accounts, AccountKey) && Distinct(db.categories, CategoryKey) && Distinct(db.transactions, TransactionKey)
  }

  /** The only row of `accounts` whose id is that of row `i`. */
  lemma KeyIsUnique(accounts: seq<Account>, i: nat)
    requires Distinct(accounts, AccountKey) && i < |accounts|
    ensures forall k :: 0 <= k < |accounts| && k != i ==> accounts[k].id != accounts[i].id
  {
    forall k | 0 <= k < |accounts| && k != i ensures accounts[k].id != accounts[i].id {
      if k < i { assert AccountKey(accounts[k]) != AccountKey(accounts[i]); }
      else { assert AccountKey(accounts[i]) != AccountKey(accounts[k]); }
    }
  }

  function AccountKey(a: Account): Id { a.id }
  function CategoryKey(c: Category): Id { c.id }
  function TransactionKey(t: Transaction): Id { t.id }

  /** Every account's cached balance equals the sum of its transactions' amounts. */
  ghost predicate BalancesMatch(db: Db)
  {
    forall k :: 0 <= k < |db.accounts| ==> db.accounts[k].balance == Balance(db.transactions, db.accounts[k].id)
  }

  /** Every transaction's type agrees with the sign of its amount. */
  ghost predicate TypesDerived(db: Db)
  {
    forall t :: t in db.transactions ==> t.kind == TypeOf(t.amount)
  }

  /** Every category a transaction refers to exists: the foreign key on `categoryId`. */
  ghost predicate CategoriesReferenced(db: Db)
  {
    forall t :: t in db.transactions && t.categoryId.Some? ==> CategoryExists(db.categories, t.categoryId.value)
  }

  ghost predicate Consistent(db: Db)
  {
    KeysFresh(db) && KeysUnique(db) && BalancesMatch(db) && TypesDerived(db) && CategoriesReferenced(db)
  }

  /** No two accounts of one user share a non-empty name. */
  ghost predicate AccountNamesUnique(db: Db)
  {
    forall j, k ::
      0 <= j < k < |db.accounts| && db.accounts[j].userId == db.accounts[k].userId && db.accounts[j].name == db.accounts[k].name
      ==> db.accounts[j].name == ""
  }

  /** No two categories of one account share a name. */
  ghost predicate CategoryNamesUnique(db: Db)
  {
    forall j, k ::
      0 <= j < k < |db.categories| && db.categories[j].accountId == db.categories[k].accountId
      ==> db.categories[j].name != db.categories[k].name
  }
}
