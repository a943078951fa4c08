/**
 * What the finance handlers promise about the tables: every handler keeps
 * the consistency invariant (each account's cached balance is the sum of its
 * transactions' amounts, every transaction's type matches the sign of its
 * amount, keys are fresh and unique, every referenced category exists), and
 * each handler changes exactly the rows and the balance it should.
 */
module LedgerInvariants {
  import opened Common
  import opened LedgerTables
  import opened Finance

  // ----- Accounts -----

  lemma CreateAccountKeepsConsistent(db: Db, currencies: set<string>, userId: Id, body: AccountBody)
    requires Consistent(db)
    ensures Consistent(CreateAccount(db, currencies, userId, body).db)
  {
    var o := CreateAccount(db, currencies, userId, body);
    if o.status == Created {
      var added := o.db.accounts[|db.accounts|];
      assert o.db.accounts == db.accounts + [added];
      forall j, k | 0 <= j < k < |o.db.accounts| ensures AccountKey(o.db.accounts[j]) != AccountKey(o.db.accounts[k]) {
        if k == |db.accounts| {
          assert db.accounts[j] in db.accounts;
        } else {
          assert AccountKey(db.accounts[j]) != AccountKey(db.accounts[k]);
        }
      }
      forall t | t in db.transactions ensures t.accountId != added.id { }
      BalanceOfUnused(db.transactions, added.id);
    }
  }

  lemma UpdateAccountKeepsConsistent(db: Db, currencies: set<string>, userId: Id, accountId: Id, body: AccountBody)
    requires Consistent(db)
    ensures Consistent(UpdateAccount(db, currencies, userId, accountId, body).db)
  {
    var o := UpdateAccount(db, currencies, userId, accountId, body);
    if o.db != db {
      var i := FindAccount(db.accounts, accountId, userId).value;
      forall j, k | 0 <= j < k < |o.db.accounts| ensures AccountKey(o.db.accounts[j]) != AccountKey(o.db.accounts[k]) {
        assert AccountKey(db.accounts[j]) != AccountKey(db.accounts[k]);
      }
      forall a | a in o.db.accounts ensures a.id < o.db.nextId {
        var k :| 0 <= k < |o.db.accounts| && o.db.accounts[k] == a;
        assert db.accounts[k] in db.accounts;
      }
    }
  }

  /** Deleting an account (with its cascade) leaves every remaining account consistent. */
  lemma DeleteAccountKeepsConsistent(db: Db, userId: Id, accountId: Id)
    requires Consistent(db)
    ensures Consistent(DeleteAccount(db, userId, accountId).db)
  {
    var o := DeleteAccount(db, userId, accountId);
    if o.status == NoContent {
      var i := FindAccount(db.accounts, accountId, userId).value;
      var gone := CategoryIdsOf(db.categories, accountId);
      var mid := Db(RemoveAt(db.accounts, i), CategoriesOutside(db.categories, accountId),
                    TransactionsOutside(db.transactions, accountId), db.nextId);
      CascadeKeepsLedger(db, i, accountId);
      UnlinkKeepsLedger(mid, gone);
      CascadeKeepsReferences(db, accountId);
    }
  }

  /** Removing the account's row with its categories and transactions keeps keys, balances and types. */
  lemma CascadeKeepsLedger(db: Db, i: nat, accountId: Id)
    requires Consistent(db) && i < |db.accounts| && db.accounts[i].id == accountId
    ensures var mid := Db(RemoveAt(db.accounts, i), CategoriesOutside(db.categories, accountId),
                          TransactionsOutside(db.transactions, accountId), db.nextId);
      KeysFresh(mid) && KeysUnique(mid) && BalancesMatch(mid) && TypesDerived(mid)
  {
    var mid := Db(RemoveAt(db.accounts, i), CategoriesOutside(db.categories, accountId),
                  TransactionsOutside(db.transactions, accountId), db.nextId);
    RemoveAtDistinct(db.accounts, i, AccountKey);
    RemoveAtSubset(db.accounts, i);
    FilterDistinct(db.categories, (c: Category) => c.accountId != accountId, CategoryKey);
    FilterDistinct(db.transactions, (t: Transaction) => t.accountId != accountId, TransactionKey);
    KeyIsUnique(db.accounts, i);
    forall k | 0 <= k < |mid.accounts|
      ensures mid.accounts[k].balance == Balance(mid.transactions, mid.accounts[k].id)
    {
      var k' := if k < i then k else k + 1;
      assert mid.accounts[k] == db.accounts[k'];
      BalanceFilter(db.transactions, (t: Transaction) => t.accountId != accountId, db.accounts[k'].id);
    }
  }

  /**
   * After the cascade, every category a surviving transaction still points at
   * survives too: the references to the deleted ones are exactly those cleared.
   */
  lemma CascadeKeepsReferences(db: Db, accountId: Id)
    requires CategoriesReferenced(db)
    ensures var gone := CategoryIdsOf(db.categories, accountId);
      CategoriesReferenced(Db([], CategoriesOutside(db.categories, accountId),
                              Unlink(TransactionsOutside(db.transactions, accountId), gone), 0))
  {
    var gone := CategoryIdsOf(db.categories, accountId);
    var survivors := TransactionsOutside(db.transactions, accountId);
    var categories := CategoriesOutside(db.categories, accountId);
    UnlinkMembers(survivors, gone);
    forall t | t in Unlink(survivors, gone) && t.categoryId.Some?
      ensures CategoryExists(categories, t.categoryId.value)
    {
      var u :| u in survivors && t == Detach(u, gone);
      assert u.categoryId == t.categoryId;
      var k :| 0 <= k < |db.categories| && db.categories[k].id == t.categoryId.value;
      var c := db.categories[k];
      assert c.accountId != accountId;
      assert c in categories;
      var m :| 0 <= m < |categories| && categories[m] == c;
    }
  }

  /** Clearing category references changes no key, amount, type or balance. */
  lemma UnlinkKeepsLedger(db: Db, gone: set<Id>)
    requires KeysFresh(db) && KeysUnique(db) && BalancesMatch(db) && TypesDerived(db)
    ensures var after := db.(transactions := Unlink(db.transactions, gone));
      KeysFresh(after) && KeysUnique(after) && BalancesMatch(after) && TypesDerived(after)
  {
    var after := db.(transactions := Unlink(db.transactions, gone));
    UnlinkMembers(db.transactions, gone);
    forall j, k | 0 <= j < k < |after.transactions|
      ensures TransactionKey(after.transactions[j]) != TransactionKey(after.transactions[k])
    {
      assert TransactionKey(db.transactions[j]) != TransactionKey(db.transactions[k]);
    }
    forall k | 0 <= k < |after.accounts|
      ensures after.accounts[k].balance == Balance(after.transactions, after.accounts[k].id)
    {
      BalanceUnlink(db.transactions, gone, db.accounts[k].id);
    }
  }

  /** Overwriting one account's balance changes no key. */
  lemma BalanceWriteKeepsKeys(accounts: seq<Account>, i: nat, balance: real, nextId: Id)
    requires i < |accounts| && Distinct(accounts, AccountKey)
    requires forall a :: a in accounts ==> a.id < nextId
    ensures var after := accounts[i := accounts[i].(balance := balance)];
      Distinct(after, AccountKey) && forall a :: a in after ==> a.id < nextId
  {
    var after := accounts[i := accounts[i].(balance := balance)];
    forall a | a in after ensures a.id < nextId {
      var k :| 0 <= k < |after| && after[k] == a;
      assert accounts[k] in accounts;
    }
    forall j, k | 0 <= j < k < |after| ensures AccountKey(after[j]) != AccountKey(after[k]) {
      assert AccountKey(accounts[j]) != AccountKey(accounts[k]);
    }
  }

  // ----- Transactions -----

  /** The owning account's balance grows by the amount; every other account keeps its sum. */
  lemma CreateTransactionKeepsConsistent(db: Db, userId: Id, accountId: Id, body: TransactionBody)
    requires Consistent(db)
    ensures Consistent(CreateTransaction(db, userId, accountId, body).db)
  {
    var o := CreateTransaction(db, userId, accountId, body);
    if o.status == Created {
      var i := FindAccount(db.accounts, accountId, userId).value;
      var t := o.db.transactions[|db.transactions|];
      assert o.db.transactions == db.transactions + [t];
      assert db.accounts[i] in db.accounts;
      KeyIsUnique(db.accounts, i);
      forall k | 0 <= k < |o.db.accounts|
        ensures o.db.accounts[k].balance == Balance(o.db.transactions, o.db.accounts[k].id)
      {
        BalanceAppend(db.transactions, t, db.accounts[k].id);
      }
      forall j, k | 0 <= j < k < |o.db.transactions|
        ensures TransactionKey(o.db.transactions[j]) != TransactionKey(o.db.transactions[k])
      {
        if k == |db.transactions| {
          assert db.transactions[j] in db.transactions;
        } else {
          assert TransactionKey(db.transactions[j]) != TransactionKey(db.transactions[k]);
        }
      }
      BalanceWriteKeepsKeys(db.accounts, i, db.accounts[i].balance + t.amount, db.nextId);
      if body.categoryId.Some? {
        var c := FindCategory(db.categories, body.categoryId.value, accountId).value;
        assert db.categories[c].id == t.categoryId.value;
      }
    }
  }

  /** The owning account's balance shrinks by the deleted amount; every other account keeps its sum. */
  lemma DeleteTransactionKeepsConsistent(db: Db, userId: Id, accountId: Id, transactionId: Id)
    requires Consistent(db)
    ensures Consistent(DeleteTransaction(db, userId, accountId, transactionId).db)
  {
    var o := DeleteTransaction(db, userId, accountId, transactionId);
    if o.status == NoContent {
      var i := FindAccount(db.accounts, accountId, userId).value;
      var j := FindTransaction(db.transactions, transactionId, accountId).value;
      assert o.db.transactions == RemoveAt(db.transactions, j);
      RemoveAtDistinct(db.transactions, j, TransactionKey);
      RemoveAtSubset(db.transactions, j);
      BalanceWriteKeepsKeys(db.accounts, i, db.accounts[i].balance - db.transactions[j].amount, db.nextId);
      KeyIsUnique(db.accounts, i);
      forall k | 0 <= k < |o.db.accounts|
        ensures o.db.accounts[k].balance == Balance(o.db.transactions, o.db.accounts[k].id)
      {
        BalanceRemoveAt(db.transactions, j, db.accounts[k].id);
      }
    }
  }

  /**
   * An update that carries `amount` moves the owning balance by `new - old`;
   * one without it leaves every balance alone.
   */
  lemma UpdateTransactionKeepsConsistent(db: Db, userId: Id, accountId: Id, transactionId: Id, body: TransactionBody)
    requires Consistent(db)
    ensures Consistent(UpdateTransaction(db, userId, accountId, transactionId, body).db)
  {
    var o := UpdateTransaction(db, userId, accountId, transactionId, body);
    if o.status == Ok {
      var i := FindAccount(db.accounts, accountId, userId).value;
      var j := FindTransaction(db.transactions, transactionId, accountId).value;
      var updated := o.db.transactions[j];
      assert o.db.transactions == db.transactions[j := updated];
      assert db.transactions[j] in db.transactions;
      KeyIsUnique(db.accounts, i);
      forall k | 0 <= k < |o.db.accounts|
        ensures o.db.accounts[k].balance == Balance(o.db.transactions, o.db.accounts[k].id)
      {
        BalanceReplace(db.transactions, j, updated, db.accounts[k].id);
      }
      forall t | t in o.db.transactions ensures t == updated || t in db.transactions {
        var k :| 0 <= k < |o.db.transactions| && o.db.transactions[k] == t;
        if k != j { assert t == db.transactions[k]; }
      }
      forall j1, k | 0 <= j1 < k < |o.db.transactions|
        ensures TransactionKey(o.db.transactions[j1]) != TransactionKey(o.db.transactions[k])
      {
        assert TransactionKey(db.transactions[j1]) != TransactionKey(db.transactions[k]);
      }
      if body.amount.Some? {
        BalanceWriteKeepsKeys(db.accounts, i, db.accounts[i].balance + (updated.amount - db.transactions[j].amount), db.nextId);
      }
      assert CategoriesReferenced(o.db);
    }
  }

  // ----- Categories -----

  lemma CreateCategoryKeepsConsistent(db: Db, userId: Id, accountId: Id, body: CategoryBody)
    requires Consistent(db)
    ensures Consistent(CreateCategory(db, userId, accountId, body).db)
  {
    var o := CreateCategory(db, userId, accountId, body);
    if o.status == Created {
      var i := FindAccount(db.accounts, accountId, userId).value;
      assert db.accounts[i] in db.accounts;
      var added := o.db.categories[|db.categories|];
      assert o.db.categories == db.categories + [added];
      forall j, k | 0 <= j < k < |o.db.categories| ensures CategoryKey(o.db.categories[j]) != CategoryKey(o.db.categories[k]) {
        if k == |db.categories| {
          assert db.categories[j] in db.categories;
        } else {
          assert CategoryKey(db.categories[j]) != CategoryKey(db.categories[k]);
        }
      }
      forall t | t in o.db.transactions && t.categoryId.Some? ensures CategoryExists(o.db.categories, t.categoryId.value) {
        var k :| 0 <= k < |db.categories| && db.categories[k].id == t.categoryId.value;
        assert o.db.categories[k] == db.categories[k];
      }
    }
  }

  lemma DeleteCategoryKeepsConsistent(db: Db, userId: Id, accountId: Id, categoryId: Id)
    requires Consistent(db)
    ensures Consistent(DeleteCategory(db, userId, accountId, categoryId).db)
  {
    var o := DeleteCategory(db, userId, accountId, categoryId);
    if o.status == NoContent {
      var j := FindCategory(db.categories, categoryId, accountId).value;
      var mid := db.(categories := RemoveAt(db.categories, j));
      RemoveAtDistinct(db.categories, j, CategoryKey);
      RemoveAtSubset(db.categories, j);
      UnlinkKeepsLedger(mid, {categoryId});
      CategoryDeleteKeepsReferences(db, j, categoryId);
    }
  }

  /** Once category `j` is gone and the references to it are cleared, every remaining reference still names a category. */
  lemma CategoryDeleteKeepsReferences(db: Db, j: nat, categoryId: Id)
    requires CategoriesReferenced(db) && j < |db.categories| && db.categories[j].id == categoryId
    ensures CategoriesReferenced(db.(categories := RemoveAt(db.categories, j), transactions := Unlink(db.transactions, {categoryId})))
  {
    var categories := RemoveAt(db.categories, j);
    UnlinkMembers(db.transactions, {categoryId});
    forall t | t in Unlink(db.transactions, {categoryId}) && t.categoryId.Some?
      ensures CategoryExists(categories, t.categoryId.value)
    {
      var u :| u in db.transactions && t == Detach(u, {categoryId});
      var k :| 0 <= k < |db.categories| && db.categories[k].id == t.categoryId.value;
      assert k != j;
      assert categories[if k < j then k else k - 1] == db.categories[k];
    }
  }

  lemma UpdateCategoryKeepsConsistent(db: Db, userId: Id, accountId: Id, categoryId: Id, body: CategoryBody)
    requires Consistent(db)
    ensures Consistent(UpdateCategory(db, userId, accountId, categoryId, body).db)
  {
    var o := UpdateCategory(db, userId, accountId, categoryId, body);
    if o.status == Ok {
      var j := FindCategory(db.categories, categoryId, accountId).value;
      assert db.categories[j] in db.categories;
      forall c | c in o.db.categories ensures c == o.db.categories[j] || c in db.categories {
        var k :| 0 <= k < |o.db.categories| && o.db.categories[k] == c;
        if k != j { assert c == db.categories[k]; }
      }
      forall j1, k | 0 <= j1 < k < |o.db.categories|
        ensures CategoryKey(o.db.categories[j1]) != CategoryKey(o.db.categories[k])
      {
        assert CategoryKey(db.categories[j1]) != CategoryKey(db.categories[k]);
      }
      forall t | t in o.db.transactions && t.categoryId.Some? ensures CategoryExists(o.db.categories, t.categoryId.value) {
        var k :| 0 <= k < |db.categories| && db.categories[k].id == t.categoryId.value;
        assert o.db.categories[k].id == db.categories[k].id;
      }
    }
  }

  // ----- What each transaction handler writes -----

  /**
   * A created transaction is one new row at the end of the table, carrying
   * the request's amount, description and category, with the type given by
   * the amount's sign; the owning account's balance grows by the amount and
   * no other account changes.
   */
  lemma CreateTransactionEffect(db: Db, userId: Id, accountId: Id, body: TransactionBody)
    requires CreateTransaction(db, userId, accountId, body).status == Created
    ensures var o := CreateTransaction(db, userId, accountId, body);
      && |o.db.transactions| == |db.transactions| + 1
      && o.db.transactions[..|db.transactions|] == db.transactions
    ensures var t := CreateTransaction(db, userId, accountId, body).db.transactions[|db.transactions|];
      && t.id == db.nextId && t.accountId == accountId
      && t.amount == body.amount.value && t.amount != 0.0
      && (t.kind == TransactionType.Income <==> t.amount >= 0.0)
      && t.description == body.description && t.categoryId == body.categoryId
      && (t.categoryId.Some? ==> exists c :: c in db.categories && c.id == t.categoryId.value && c.accountId == accountId)
    ensures var o := CreateTransaction(db, userId, accountId, body);
      var i := FindAccount(db.accounts, accountId, userId).value;
      && |o.db.accounts| == |db.accounts|
      && o.db.accounts[i] == db.accounts[i].(balance := db.accounts[i].balance + body.amount.value)
      && (forall k :: 0 <= k < |db.accounts| && k != i ==> o.db.accounts[k] == db.accounts[k])
    ensures CreateTransaction(db, userId, accountId, body).db.categories == db.categories
  {
    if body.categoryId.Some? {
      var c := FindCategory(db.categories, body.categoryId.value, accountId).value;
      assert db.categories[c] in db.categories;
    }
  }

  /**
   * A deletion removes exactly the requested row of the account, and the
   * owning account's balance shrinks by that row's amount; no other account
   * changes.
   */
  lemma DeleteTransactionEffect(db: Db, userId: Id, accountId: Id, transactionId: Id)
    requires KeysUnique(db)
    requires DeleteTransaction(db, userId, accountId, transactionId).status == NoContent
    ensures var o := DeleteTransaction(db, userId, accountId, transactionId);
      var j := FindTransaction(db.transactions, transactionId, accountId).value;
      && |o.db.transactions| == |db.transactions| - 1
      && (forall t :: t in o.db.transactions <==> t in db.transactions && t.id != transactionId)
      && var i := FindAccount(db.accounts, accountId, userId).value;
      && o.db.accounts[i] == db.accounts[i].(balance := db.accounts[i].balance - db.transactions[j].amount)
      && (forall k :: 0 <= k < |db.accounts| && k != i ==> o.db.accounts[k] == db.accounts[k])
    ensures DeleteTransaction(db, userId, accountId, transactionId).db.categories == db.categories
  {
    var o := DeleteTransaction(db, userId, accountId, transactionId);
    var j := FindTransaction(db.transactions, transactionId, accountId).value;
    var s := db.transactions;
    forall t ensures t in o.db.transactions <==> t in s && t.id != transactionId {
      if t in o.db.transactions {
        var k :| 0 <= k < |o.db.transactions| && o.db.transactions[k] == t;
        var k' := if k < j then k else k + 1;
        assert t == s[k'];
        if k' < j { assert TransactionKey(s[k']) != TransactionKey(s[j]); }
        else { assert TransactionKey(s[j]) != TransactionKey(s[k']); }
      }
      if t in s && t.id != transactionId {
        var k :| 0 <= k < |s| && s[k] == t;
        assert o.db.transactions[if k < j then k else k - 1] == t;
      }
    }
  }

  /**
   * An update that carries `amount` (zero included) replaces the amount,
   * re-derives the type from its sign and moves the owning balance by
   * `new - old`. Without `amount`, the row keeps its amount and type and no
   * balance changes. Description and category are replaced exactly when sent.
   */
  lemma UpdateTransactionEffect(db: Db, userId: Id, accountId: Id, transactionId: Id, body: TransactionBody)
    requires UpdateTransaction(db, userId, accountId, transactionId, body).status == Ok
    ensures var o := UpdateTransaction(db, userId, accountId, transactionId, body);
      var j := FindTransaction(db.transactions, transactionId, accountId).value;
      var before := db.transactions[j];
      var after := o.db.transactions[j];
      && (forall k :: 0 <= k < |db.transactions| && k != j ==> o.db.transactions[k] == db.transactions[k])
      && after.id == before.id && after.accountId == before.accountId
      && after.description == (if body.description.Some? then body.description else before.description)
      && after.categoryId == (if body.categoryId.Some? then body.categoryId else before.categoryId)
      && (body.categoryId.Some? ==> exists c :: c in db.categories && c.id == body.categoryId.value)
      && (body.amount.Some? ==> after.amount == body.amount.value && (after.kind == TransactionType.Income <==> after.amount >= 0.0))
      && (body.amount.None? ==> after.amount == before.amount && after.kind == before.kind && o.db.accounts == db.accounts)
    ensures var o := UpdateTransaction(db, userId, accountId, transactionId, body);
      var i := FindAccount(db.accounts, accountId, userId).value;
      var j := FindTransaction(db.transactions, transactionId, accountId).value;
      && |o.db.accounts| == |db.accounts|
      && o.db.accounts[i].balance == db.accounts[i].balance + (o.db.transactions[j].amount - db.transactions[j].amount)
      && (forall k :: 0 <= k < |db.accounts| && k != i ==> o.db.accounts[k] == db.accounts[k])
    ensures UpdateTransaction(db, userId, accountId, transactionId, body).db.categories == db.categories
  {
  }

  // ----- What each account and category handler writes -----

  /** A created account is one new row at the end, owned by the caller, with the request's name and currency and balance 0. */
  lemma CreateAccountEffect(db: Db, currencies: set<string>, userId: Id, body: AccountBody)
    requires CreateAccount(db, currencies, userId, body).status == Created
    ensures var o := CreateAccount(db, currencies, userId, body);
      && |o.db.accounts| == |db.accounts| + 1
      && o.db.accounts[..|db.accounts|] == db.accounts
      && o.db.categories == db.categories && o.db.transactions == db.transactions
    ensures var a := CreateAccount(db, currencies, userId, body).db.accounts[|db.accounts|];
      && a.id == db.nextId && a.userId == userId && a.balance == 0.0
      && a.name == body.name.value && a.name != ""
      && a.currency == body.currency.value && a.currency in currencies
      && (forall b :: b in db.accounts && b.userId == userId ==> b.name != a.name)
  {
    var a := CreateAccount(db, currencies, userId, body).db.accounts[|db.accounts|];
    forall b | b in db.accounts && b.userId == userId ensures b.name != a.name {
      var k :| 0 <= k < |db.accounts| && db.accounts[k] == b;
    }
  }

  /**
   * An accepted account update that carries a currency writes it, and the
   * name when one was sent (even an empty one); the balance, owner and every
   * other row stay as they were.
   */
  lemma UpdateAccountEffect(db: Db, currencies: set<string>, userId: Id, accountId: Id, body: AccountBody)
    requires UpdateAccount(db, currencies, userId, accountId, body).status == Ok && Given(body.currency)
    ensures var o := UpdateAccount(db, currencies, userId, accountId, body);
      var i := FindAccount(db.accounts, accountId, userId).value;
      && |o.db.accounts| == |db.accounts|
      && (forall k :: 0 <= k < |db.accounts| && k != i ==> o.db.accounts[k] == db.accounts[k])
      && o.db.accounts[i].id == accountId && o.db.accounts[i].userId == userId
      && o.db.accounts[i].balance == db.accounts[i].balance
      && o.db.accounts[i].currency == body.currency.value && body.currency.value in currencies
      && o.db.accounts[i].name == (if body.name.Some? then body.name.value else db.accounts[i].name)
      && o.db.categories == db.categories && o.db.transactions == db.transactions && o.db.nextId == db.nextId
  {
  }

  /**
   * A created category is one new row at the end, in the account, with the
   * parsed domain and the description defaulting to the empty string.
   */
  lemma CreateCategoryEffect(db: Db, userId: Id, accountId: Id, body: CategoryBody)
    requires CreateCategory(db, userId, accountId, body).status == Created
    ensures var o := CreateCategory(db, userId, accountId, body);
      && |o.db.categories| == |db.categories| + 1
      && o.db.categories[..|db.categories|] == db.categories
      && o.db.accounts == db.accounts && o.db.transactions == db.transactions
    ensures var c := CreateCategory(db, userId, accountId, body).db.categories[|db.categories|];
      && c.id == db.nextId && c.accountId == accountId && c.name == body.name.value
      && Some(c.domain) == ParseDomain(body.domain.value)
      && c.description == (if Given(body.description) then body.description.value else "")
  {
  }

  /**
   * An accepted category update keeps each field that was not supplied: the
   * name and domain when absent or empty, the description when absent.
   */
  lemma UpdateCategoryEffect(db: Db, userId: Id, accountId: Id, categoryId: Id, body: CategoryBody)
    requires UpdateCategory(db, userId, accountId, categoryId, body).status == Ok
    ensures var o := UpdateCategory(db, userId, accountId, categoryId, body);
      var j := FindCategory(db.categories, categoryId, accountId).value;
      var before := db.categories[j];
      var after := o.db.categories[j];
      && |o.db.categories| == |db.categories|
      && (forall k :: 0 <= k < |db.categories| && k != j ==> o.db.categories[k] == db.categories[k])
      && after.id == categoryId && after.accountId == accountId
      && after.name == (if Given(body.name) then body.name.value else before.name)
      && after.description == (if body.description.Some? then body.description.value else before.description)
      && (if Given(body.domain) then Some(after.domain) == ParseDomain(body.domain.value) else after.domain == before.domain)
  {
  }

  /**
   * A category deletion removes exactly the requested category of the
   * account; a transaction that pointed at it keeps every field but loses
   * its category, and every other transaction is unchanged.
   */
  lemma DeleteCategoryEffect(db: Db, userId: Id, accountId: Id, categoryId: Id)
    requires KeysUnique(db)
    requires DeleteCategory(db, userId, accountId, categoryId).status == NoContent
    ensures var o := DeleteCategory(db, userId, accountId, categoryId);
      && |o.db.categories| == |db.categories| - 1
      && (forall c :: c in o.db.categories <==> c in db.categories && c.id != categoryId)
    ensures var o := DeleteCategory(db, userId, accountId, categoryId);
      && |o.db.transactions| == |db.transactions|
      && forall k :: 0 <= k < |db.transactions| ==>
           if db.transactions[k].categoryId == Some(categoryId) then o.db.transactions[k] == db.transactions[k].(categoryId := None)
           else o.db.transactions[k] == db.transactions[k]
  {
    var o := DeleteCategory(db, userId, accountId, categoryId);
    var j := FindCategory(db.categories, categoryId, accountId).value;
    var s := db.categories;
    forall c ensures c in o.db.categories <==> c in s && c.id != categoryId {
      if c in o.db.categories {
        var k :| 0 <= k < |o.db.categories| && o.db.categories[k] == c;
        var k' := if k < j then k else k + 1;
        assert c == s[k'];
        if k' < j { assert CategoryKey(s[k']) != CategoryKey(s[j]); }
        else { assert CategoryKey(s[j]) != CategoryKey(s[k']); }
      }
      if c in s && c.id != categoryId {
        var k :| 0 <= k < |s| && s[k] == c;
        assert o.db.categories[if k < j then k else k - 1] == c;
      }
    }
  }

  // ----- Name uniqueness -----

  lemma CreateAccountKeepsNamesUnique(db: Db, currencies: set<string>, userId: Id, body: AccountBody)
    requires AccountNamesUnique(db)
    ensures AccountNamesUnique(CreateAccount(db, currencies, userId, body).db)
  {
    var o := CreateAccount(db, currencies, userId, body);
    if o.status == Created {
      assert forall k :: 0 <= k < |db.accounts| && db.accounts[k].userId == userId ==> db.accounts[k].name != body.name.value;
    }
  }

  /** A rename reaches the table only together with a currency, and only if no other account of the user has the name. */
  lemma UpdateAccountKeepsNamesUnique(db: Db, currencies: set<string>, userId: Id, accountId: Id, body: AccountBody)
    requires KeysUnique(db) && AccountNamesUnique(db)
    ensures AccountNamesUnique(UpdateAccount(db, currencies, userId, accountId, body).db)
  {
    var o := UpdateAccount(db, currencies, userId, accountId, body);
    if o.db != db {
      var i := FindAccount(db.accounts, accountId, userId).value;
      KeyIsUnique(db.accounts, i);
      if Given(body.name) {
        assert forall k ::
            0 <= k < |db.accounts| && k != i && db.accounts[k].userId == userId ==> db.accounts[k].name != body.name.value;
      }
    }
  }

  lemma CreateCategoryKeepsNamesUnique(db: Db, userId: Id, accountId: Id, body: CategoryBody)
    requires CategoryNamesUnique(db)
    ensures CategoryNamesUnique(CreateCategory(db, userId, accountId, body).db)
  {
    var o := CreateCategory(db, userId, accountId, body);
    if o.status == Created {
      assert forall k ::
          0 <= k < |db.categories| && db.categories[k].accountId == accountId ==> db.categories[k].name != body.name.value;
    }
  }
}
