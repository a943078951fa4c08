/**
 * Properties of the finance handlers taken one request at a time: the
 * ownership guard runs before anything else, and several behaviours of the
 * controller that a reader might not expect, each stated as the code has it.
 */
module FinanceBehaviour {
  import opened Common
  import opened LedgerTables
  import opened Finance

  /**
   * A user who does not own `accountId` (or an id that does not exist) gets
   * the same "Account not found." from every account-scoped handler, whatever
   * the body, and nothing is written.
   */
  lemma ForeignAccountIsNotFound(
    db: Db, currencies: set<string>, userId: Id, accountId: Id, rowId: Id,
    accountBody: AccountBody, transactionBody: TransactionBody, categoryBody: CategoryBody)
    requires forall a :: a in db.accounts && a.id == accountId ==> a.userId != userId
    ensures DeleteAccount(db, userId, accountId) == Outcome(AccountNotFound, db)
    ensures UpdateAccount(db, currencies, userId, accountId, accountBody) == Outcome(AccountNotFound, db)
    ensures CreateTransaction(db, userId, accountId, transactionBody) == Outcome(AccountNotFound, db)
    ensures DeleteTransaction(db, userId, accountId, rowId) == Outcome(AccountNotFound, db)
    ensures UpdateTransaction(db, userId, accountId, rowId, transactionBody) == Outcome(AccountNotFound, db)
    ensures CreateCategory(db, userId, accountId, categoryBody) == Outcome(AccountNotFound, db)
    ensures DeleteCategory(db, userId, accountId, rowId) == Outcome(AccountNotFound, db)
    ensures UpdateCategory(db, userId, accountId, rowId, categoryBody) == Outcome(AccountNotFound, db)
  {
    assert FindAccount(db.accounts, accountId, userId).None? by {
      forall k | 0 <= k < |db.accounts| ensures !(db.accounts[k].id == accountId && db.accounts[k].userId == userId) {
        assert db.accounts[k] in db.accounts;
      }
    }
  }

  /**
   * A transaction or category of another account is not found through this
   * account, before the body is looked at, and nothing is written.
   */
  lemma ForeignRowIsNotFound(
    db: Db, userId: Id, accountId: Id, rowId: Id, transactionBody: TransactionBody, categoryBody: CategoryBody)
    requires exists a :: a in db.accounts && a.id == accountId && a.userId == userId
    requires forall t :: t in db.transactions && t.id == rowId ==> t.accountId != accountId
    requires forall c :: c in db.categories && c.id == rowId ==> c.accountId != accountId
    ensures DeleteTransaction(db, userId, accountId, rowId) == Outcome(TransactionNotFound, db)
    ensures UpdateTransaction(db, userId, accountId, rowId, transactionBody) == Outcome(TransactionNotFound, db)
    ensures DeleteCategory(db, userId, accountId, rowId) == Outcome(CategoryNotFound, db)
    ensures UpdateCategory(db, userId, accountId, rowId, categoryBody) == Outcome(CategoryNotFound, db)
  {
    var a :| a in db.accounts && a.id == accountId && a.userId == userId;
    var k :| 0 <= k < |db.accounts| && db.accounts[k] == a;
    assert FindAccount(db.accounts, accountId, userId).Some?;
    assert FindTransaction(db.transactions, rowId, accountId).None? by {
      forall k | 0 <= k < |db.transactions| ensures !(db.transactions[k].id == rowId && db.transactions[k].accountId == accountId) {
        assert db.transactions[k] in db.transactions;
      }
    }
    assert FindCategory(db.categories, rowId, accountId).None? by {
      forall k | 0 <= k < |db.categories| ensures !(db.categories[k].id == rowId && db.categories[k].accountId == accountId) {
        assert db.categories[k] in db.categories;
      }
    }
  }

  // ----- Behaviour kept as the code has it -----

  /** `!amount` is true of 0, so a zero-amount transaction cannot be created. */
  lemma ZeroAmountIsRejectedOnCreate(db: Db, userId: Id, accountId: Id, description: Option<string>, categoryId: Option<Id>)
    requires FindAccount(db.accounts, accountId, userId).Some?
    ensures CreateTransaction(db, userId, accountId, TransactionBody(Some(0.0), description, categoryId)) == Outcome(FieldsRequired, db)
  {
  }

  /**
   * An update whose only field is `amount: 0` is rejected as empty, yet the
   * same amount sent with a description sets the amount to zero and moves
   * the balance by minus the old amount.
   */
  lemma ZeroAmountAloneIsAnEmptyUpdate(db: Db, userId: Id, accountId: Id, transactionId: Id, description: string)
    requires FindAccount(db.accounts, accountId, userId).Some?
    requires FindTransaction(db.transactions, transactionId, accountId).Some?
    requires description != ""
    ensures UpdateTransaction(db, userId, accountId, transactionId, TransactionBody(Some(0.0), None, None))
         == Outcome(NothingToUpdate, db)
    ensures var o := UpdateTransaction(db, userId, accountId, transactionId, TransactionBody(Some(0.0), Some(description), None));
      var i := FindAccount(db.accounts, accountId, userId).value;
      var j := FindTransaction(db.transactions, transactionId, accountId).value;
      && o.status == Ok
      && o.db.transactions[j].amount == 0.0 && o.db.transactions[j].kind == TransactionType.Income
      && o.db.accounts[i].balance == db.accounts[i].balance - db.transactions[j].amount
  {
  }

  /**
   * Create checks that a category belongs to the account; update only
   * needs the category to exist: a category of another account is refused
   * on create and accepted and stored on update.
   */
  lemma UpdateAcceptsForeignCategory(db: Db, userId: Id, accountId: Id, transactionId: Id, c: Category, amount: real)
    requires Distinct(db.categories, CategoryKey)
    requires FindAccount(db.accounts, accountId, userId).Some?
    requires FindTransaction(db.transactions, transactionId, accountId).Some?
    requires c in db.categories && c.accountId != accountId && amount != 0.0
    ensures CreateTransaction(db, userId, accountId, TransactionBody(Some(amount), None, Some(c.id))) == Outcome(CategoryNotFound, db)
    ensures var o := UpdateTransaction(db, userId, accountId, transactionId, TransactionBody(None, None, Some(c.id)));
      o.status == Ok && o.db.transactions[FindTransaction(db.transactions, transactionId, accountId).value].categoryId == Some(c.id)
  {
    var m :| 0 <= m < |db.categories| && db.categories[m] == c;
    assert CategoryExists(db.categories, c.id);
    forall k | 0 <= k < |db.categories| ensures !(db.categories[k].id == c.id && db.categories[k].accountId == accountId) {
      if k < m { assert CategoryKey(db.categories[k]) != CategoryKey(db.categories[m]); }
      if k > m { assert CategoryKey(db.categories[m]) != CategoryKey(db.categories[k]); }
    }
  }

  /**
   * An update naming a category that no account has is refused by the
   * foreign key at the write: the handler sends nothing and no row or
   * balance changes, even when the body also carries an amount.
   */
  lemma UnknownCategoryOnUpdateIsUnanswered(
    db: Db, userId: Id, accountId: Id, transactionId: Id, amount: Option<real>, description: Option<string>, categoryId: Id)
    requires FindAccount(db.accounts, accountId, userId).Some?
    requires FindTransaction(db.transactions, transactionId, accountId).Some?
    requires forall c :: c in db.categories ==> c.id != categoryId
    ensures UpdateTransaction(db, userId, accountId, transactionId, TransactionBody(amount, description, Some(categoryId)))
         == Outcome(Unanswered, db)
  {
    assert !CategoryExists(db.categories, categoryId) by {
      forall k | 0 <= k < |db.categories| ensures db.categories[k].id != categoryId {
        assert db.categories[k] in db.categories;
      }
    }
  }

  /**
   * Deleting a category keeps the transactions that used it, with no
   * category; a consistent ledger stays consistent.
   */
  lemma DeletedCategoryLeavesTransactionsUncategorised()
    ensures var db := Db([Account(0, 9, "Cash", "USD", 25.0)],
                         [Category(1, 0, "Food", CategoryDomain.Expense, "")],
                         [Transaction(2, 0, 25.0, TransactionType.Income, None, Some(1))], 3);
      var o := DeleteCategory(db, 9, 0, 1);
      && Consistent(db)
      && o.status == NoContent && o.db.categories == []
      && o.db.transactions == [Transaction(2, 0, 25.0, TransactionType.Income, None, None)]
      && Consistent(o.db)
  {
    var db := Db([Account(0, 9, "Cash", "USD", 25.0)],
                 [Category(1, 0, "Food", CategoryDomain.Expense, "")],
                 [Transaction(2, 0, 25.0, TransactionType.Income, None, Some(1))], 3);
    assert FindAccount(db.accounts, 0, 9) == Some(0);
    assert FindCategory(db.categories, 1, 0) == Some(0);
    assert Balance(db.transactions, 0) == 25.0;
    assert CategoryExists(db.categories, 1);
    var o := DeleteCategory(db, 9, 0, 1);
    assert o.db.transactions == [Transaction(2, 0, 25.0, TransactionType.Income, None, None)];
    assert Balance(o.db.transactions, 0) == 25.0;
  }

  /**
   * The name-only write of an account update is never awaited: a rename sent
   * without a currency answers 200 (or 409) and changes nothing.
   */
  lemma RenameWithoutCurrencyIsLost(db: Db, currencies: set<string>, userId: Id, accountId: Id, name: string)
    requires FindAccount(db.accounts, accountId, userId).Some? && name != ""
    ensures var o := UpdateAccount(db, currencies, userId, accountId, AccountBody(Some(name), None));
      && o.db == db
      && (o.status == Ok <==> !AccountNamed(db.accounts, userId, name, Some(accountId)))
      && (o.status == NameTaken <==> AccountNamed(db.accounts, userId, name, Some(accountId)))
  {
  }

  /** With a currency, an empty name passes the truthiness checks and is written. */
  lemma EmptyNameWithCurrencyIsWritten(db: Db, currencies: set<string>, userId: Id, accountId: Id, currency: string)
    requires FindAccount(db.accounts, accountId, userId).Some? && currency in currencies && currency != ""
    ensures var o := UpdateAccount(db, currencies, userId, accountId, AccountBody(Some(""), Some(currency)));
      && o.status == Ok
      && o.db.accounts[FindAccount(db.accounts, accountId, userId).value].name == ""
  {
  }

  /** A category update with no fields is accepted and rewrites the row unchanged. */
  lemma EmptyCategoryUpdateIsAccepted(db: Db, userId: Id, accountId: Id, categoryId: Id)
    requires FindAccount(db.accounts, accountId, userId).Some?
    requires FindCategory(db.categories, categoryId, accountId).Some?
    ensures UpdateCategory(db, userId, accountId, categoryId, CategoryBody(None, None, None)) == Outcome(Ok, db)
  {
    var j := FindCategory(db.categories, categoryId, accountId).value;
    assert db.categories[j := db.categories[j]] == db.categories;
  }

  /** Category update does not check names: two categories of one account can end up sharing one. */
  lemma CategoryUpdateCanDuplicateName()
    ensures var db := Db([Account(0, 9, "Cash", "USD", 0.0)],
                         [Category(1, 0, "Food", CategoryDomain.Expense, ""), Category(2, 0, "Rent", CategoryDomain.Expense, "")],
                         [], 3);
      var o := UpdateCategory(db, 9, 0, 2, CategoryBody(Some("Food"), None, None));
      && CategoryNamesUnique(db)
      && o.status == Ok
      && !CategoryNamesUnique(o.db)
  {
    var db := Db([Account(0, 9, "Cash", "USD", 0.0)],
                 [Category(1, 0, "Food", CategoryDomain.Expense, ""), Category(2, 0, "Rent", CategoryDomain.Expense, "")],
                 [], 3);
    assert FindAccount(db.accounts, 0, 9) == Some(0);
    assert FindCategory(db.categories, 2, 0) == Some(1);
    var o := UpdateCategory(db, 9, 0, 2, CategoryBody(Some("Food"), None, None));
    assert o.db.categories[0].name == o.db.categories[1].name;
  }

  /**
   * The lifecycle of one account: opened at balance 0, a deposit of 100 makes
   * it 100 (INCOME), changing that amount to -30 makes it -30 (EXPENSE), and
   * deleting the transaction brings it back to 0.
   */
  lemma CashAccountScenario()
    ensures
      var o1 := CreateAccount(Db([], [], [], 0), {"USD", "EUR"}, 9, AccountBody(Some("Cash"), Some("USD")));
      var o2 := CreateTransaction(o1.db, 9, 0, TransactionBody(Some(100.0), None, None));
      var o3 := UpdateTransaction(o2.db, 9, 0, 1, TransactionBody(Some(-30.0), None, None));
      var o4 := DeleteTransaction(o3.db, 9, 0, 1);
      && o1.status == Created && o1.db.accounts == [Account(0, 9, "Cash", "USD", 0.0)]
      && o2.status == Created && o2.db.accounts[0].balance == 100.0 && o2.db.transactions[0].kind == TransactionType.Income
      && o3.status == Ok && o3.db.accounts[0].balance == -30.0 && o3.db.transactions[0].kind == TransactionType.Expense
      && o4.status == NoContent && o4.db.accounts[0].balance == 0.0 && o4.db.transactions == []
  {
    var o1 := CreateAccount(Db([], [], [], 0), {"USD", "EUR"}, 9, AccountBody(Some("Cash"), Some("USD")));
    assert !AccountNamed([], 9, "Cash", None);
    assert FindAccount(o1.db.accounts, 0, 9) == Some(0);
    var o2 := CreateTransaction(o1.db, 9, 0, TransactionBody(Some(100.0), None, None));
    assert FindAccount(o2.db.accounts, 0, 9) == Some(0);
    assert FindTransaction(o2.db.transactions, 1, 0) == Some(0);
    var o3 := UpdateTransaction(o2.db, 9, 0, 1, TransactionBody(Some(-30.0), None, None));
    assert FindAccount(o3.db.accounts, 0, 9) == Some(0);
    assert FindTransaction(o3.db.transactions, 1, 0) == Some(0);
  }
}
