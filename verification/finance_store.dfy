/**
 * The finance controller over an in-memory store. Each handler is a method
 * that performs the controller's steps in order (look up the account, look up
 * the nested row, validate, write the row, write the balance) on the store's
 * tables, and returns the response status.
 *
 * Every mutating handler is proved equal to its reference function in
 * `Finance`, and to keep the consistency invariant, so all the lemmas about
 * those functions hold of these methods.
 */
module FinanceStore {
  import opened Common
  import opened LedgerTables
  import opened Finance
  import LedgerInvariants

  class Store {
    /** The members of the `Currency` enum. */
    const currencies: set<string>
    var accounts: seq<Account>
    var categories: seq<Category>
    var transactions: seq<Transaction>
    var nextId: Id

    function State(): Db
      reads this
    {
      Db(accounts, categories, transactions, nextId)
    }

    ghost predicate Valid()
      reads this
    {
      Consistent(State())
    }

    constructor (currencies: set<string>)
      ensures this.currencies == currencies
      ensures State() == Db([], [], [], 0) && Valid()
    {
      this.currencies := currencies;
      accounts, categories, transactions, nextId := [], [], [], 0;
    }

    // ----- Accounts -----

    /** GET /accounts: 404 when the user has no account, else all of them. */
    method GetUserAccounts(userId: Id) returns (code: int, rows: seq<Account>)
      ensures code in {OK, NOT_FOUND}
      ensures code == NOT_FOUND <==> forall a :: a in accounts ==> a.userId != userId
      ensures forall a :: a in rows <==> a in accounts && a.userId == userId
    {
      rows := Filter(accounts, (a: Account) => a.userId == userId);
      if |rows| == 0 {
        code := NOT_FOUND;
      } else {
        assert rows[0] in rows;
        code := OK;
      }
    }

    /** GET /accounts/:accountId: the account with its transactions. */
    method GetUserAccount(userId: Id, accountId: Id) returns (code: int, account: Option<Account>, recent: seq<Transaction>)
      ensures code in {OK, NOT_FOUND}
      ensures code == NOT_FOUND <==> forall a :: a in accounts ==> !(a.id == accountId && a.userId == userId)
      ensures code == NOT_FOUND ==> account.None? && recent == []
      ensures code == OK ==> account.Some? && account.value in accounts
                             && account.value.id == accountId && account.value.userId == userId
      ensures code == OK ==> forall t :: t in recent <==> t in transactions && t.accountId == accountId
    {
      var found := FindAccount(accounts, accountId, userId);
      if found.None? {
        forall a | a in accounts ensures !(a.id == accountId && a.userId == userId) {
          var k :| 0 <= k < |accounts| && accounts[k] == a;
        }
        return NOT_FOUND, None, [];
      }
      account := Some(accounts[found.value]);
      recent := Filter(transactions, (t: Transaction) => t.accountId == accountId);
      code := OK;
    }

    /** POST /accounts */
    method CreateUserAccount(userId: Id, body: AccountBody) returns (status: Status)
      modifies this
      ensures Outcome(status, State()) == CreateAccount(old(State()), currencies, userId, body)
      ensures old(Valid()) ==> Valid()
    {
      ghost var before := State();
      if !Given(body.name) || !Given(body.currency) {
        return FieldsRequired;
      }
      if body.currency.value !in currencies {
        return InvalidCurrency;
      }
      if AccountNamed(accounts, userId, body.name.value, None) {
        return NameTaken;
      }
      accounts := accounts + [Account(nextId, userId, body.name.value, body.currency.value, 0.0)];
      nextId := nextId + 1;
      status := Created;
      if Consistent(before) {
        LedgerInvariants.CreateAccountKeepsConsistent(before, currencies, userId, body);
      }
    }

    /**
     * DELETE /accounts/:accountId; the schema cascades to the account's
     * categories and transactions, and clears other transactions' references
     * to those categories.
     */
    method DeleteUserAccount(userId: Id, accountId: Id) returns (status: Status)
      modifies this
      ensures Outcome(status, State()) == DeleteAccount(old(State()), userId, accountId)
      ensures old(Valid()) ==> Valid()
    {
      ghost var before := State();
      var found := FindAccount(accounts, accountId, userId);
      if found.None? {
        return AccountNotFound;
      }
      var gone := CategoryIdsOf(categories, accountId);
      accounts := RemoveAt(accounts, found.value);
      categories := CategoriesOutside(categories, accountId);
      transactions := Unlink(TransactionsOutside(transactions, accountId), gone);
      status := NoContent;
      if Consistent(before) {
        LedgerInvariants.DeleteAccountKeepsConsistent(before, userId, accountId);
      }
    }

    /** PUT /accounts/:accountId */
    method UpdateUserAccount(userId: Id, accountId: Id, body: AccountBody) returns (status: Status)
      modifies this
      ensures Outcome(status, State()) == UpdateAccount(old(State()), currencies, userId, accountId, body)
      ensures old(Valid()) ==> Valid()
    {
      ghost var before := State();
      var found := FindAccount(accounts, accountId, userId);
      if found.None? {
        return AccountNotFound;
      }
      if Given(body.currency) && body.currency.value !in currencies {
        return InvalidCurrency;
      }
      if !Given(body.name) && !Given(body.currency) {
        return NothingToUpdate;
      }
      if Given(body.name) {
        if AccountNamed(accounts, userId, body.name.value, Some(accountId)) {
          return NameTaken;
        }
        // The name-only update is built here but never awaited, so it never runs.
      }
      if Given(body.currency) {
        var account := accounts[found.value];
        var name := if body.name.Some? then body.name.value else account.name;
        accounts := accounts[found.value := account.(name := name, currency := body.currency.value)];
      }
      status := Ok;
      if Consistent(before) {
        LedgerInvariants.UpdateAccountKeepsConsistent(before, currencies, userId, accountId, body);
      }
    }

    /** GET /currencies */
    method GetSupportedCurrencies() returns (code: int, supported: set<string>)
      ensures code == OK && supported == currencies
    {
      code, supported := OK, currencies;
    }

    // ----- Transactions -----

    /**
     * GET /accounts/:accountId/transactions/:transactionId. After the account
     * is found the handler queries the transaction but sends no response:
     * `None` is a request left without an answer.
     */
    method GetAccountTransaction(userId: Id, accountId: Id, transactionId: Id) returns (reply: Option<int>)
      ensures reply == Some(NOT_FOUND) <==> FindAccount(accounts, accountId, userId).None?
      ensures reply.None? <==> FindAccount(accounts, accountId, userId).Some?
    {
      var found := FindAccount(accounts, accountId, userId);
      if found.None? {
        return Some(NOT_FOUND);
      }
      var row := FindTransaction(transactions, transactionId, accountId);
      reply := None;
    }

    /** GET /accounts/:accountId/transactions */
    method GetAccountTransactions(userId: Id, accountId: Id) returns (code: int, rows: seq<Transaction>)
      ensures code in {OK, NOT_FOUND}
      ensures code == NOT_FOUND <==> FindAccount(accounts, accountId, userId).None?
      ensures code == NOT_FOUND ==> rows == []
      ensures code == OK ==> forall t :: t in rows <==> t in transactions && t.accountId == accountId
    {
      var found := FindAccount(accounts, accountId, userId);
      if found.None? {
        return NOT_FOUND, [];
      }
      rows := Filter(transactions, (t: Transaction) => t.accountId == accountId);
      code := OK;
    }

    /** POST /accounts/:accountId/transactions */
    method CreateAccountTransaction(userId: Id, accountId: Id, body: TransactionBody) returns (status: Status)
      modifies this
      ensures Outcome(status, State()) == CreateTransaction(old(State()), userId, accountId, body)
      ensures old(Valid()) ==> Valid()
    {
      ghost var before := State();
      var found := FindAccount(accounts, accountId, userId);
      if found.None? {
        return AccountNotFound;
      }
      var account := accounts[found.value];
      if !GivenAmount(body.amount) {
        return FieldsRequired;
      }
      if body.categoryId.Some? {
        var category := FindCategory(categories, body.categoryId.value, accountId);
        if category.None? {
          return CategoryNotFound;
        }
      }
      var amount := body.amount.value;
      transactions := transactions + [Transaction(nextId, accountId, amount, TypeOf(amount), body.description, body.categoryId)];
      nextId := nextId + 1;
      var total := account.balance + amount;
      accounts := accounts[found.value := account.(balance := total)];
      status := Created;
      if Consistent(before) {
        LedgerInvariants.CreateTransactionKeepsConsistent(before, userId, accountId, body);
      }
    }

    /** DELETE /accounts/:accountId/transactions/:transactionId */
    method DeleteAccountTransaction(userId: Id, accountId: Id, transactionId: Id) returns (status: Status)
      modifies this
      ensures Outcome(status, State()) == DeleteTransaction(old(State()), userId, accountId, transactionId)
      ensures old(Valid()) ==> Valid()
    {
      ghost var before := State();
      var found := FindAccount(accounts, accountId, userId);
      if found.None? {
        return AccountNotFound;
      }
      var account := accounts[found.value];
      var row := FindTransaction(transactions, transactionId, accountId);
      if row.None? {
        return TransactionNotFound;
      }
      var transaction := transactions[row.value];
      transactions := RemoveAt(transactions, row.value);
      var total := account.balance - transaction.amount;
      accounts := accounts[found.value := account.(balance := total)];
      status := NoContent;
      if Consistent(before) {
        LedgerInvariants.DeleteTransactionKeepsConsistent(before, userId, accountId, transactionId);
      }
    }

    /** PUT /accounts/:accountId/transactions/:transactionId */
    method UpdateAccountTransaction(userId: Id, accountId: Id, transactionId: Id, body: TransactionBody) returns (status: Status)
      modifies this
      ensures Outcome(status, State()) == UpdateTransaction(old(State()), userId, accountId, transactionId, body)
      ensures old(Valid()) ==> Valid()
    {
      ghost var before := State();
      var found := FindAccount(accounts, accountId, userId);
      if found.None? {
        return AccountNotFound;
      }
      var account := accounts[found.value];
      var row := FindTransaction(transactions, transactionId, accountId);
      if row.None? {
        return TransactionNotFound;
      }
      var transaction := transactions[row.value];
      if !GivenAmount(body.amount) && !Given(body.description) && body.categoryId.None? {
        return NothingToUpdate;
      }
      if body.categoryId.Some? && !CategoryExists(categories, body.categoryId.value) {
        // The update below violates the foreign key and throws; no response is sent.
        return Unanswered;
      }
      var updatedAmount := transaction.amount;
      var kind := transaction.kind;
      if body.amount.Some? {
        updatedAmount := body.amount.value;
        kind := TypeOf(updatedAmount);
      }
      var description := if body.description.Some? then body.description else transaction.description;
      var categoryId := if body.categoryId.Some? then body.categoryId else transaction.categoryId;
      transactions := transactions[row.value := transaction.(amount := updatedAmount, description := description,
                                                             categoryId := categoryId, kind := kind)];
      if body.amount.Some? {
        var adjustment := updatedAmount - transaction.amount;
        accounts := accounts[found.value := account.(balance := account.balance + adjustment)];
      }
      status := Ok;
      if Consistent(before) {
        LedgerInvariants.UpdateTransactionKeepsConsistent(before, userId, accountId, transactionId, body);
      }
    }

    // ----- Categories -----

    /** GET /accounts/:accountId/categories */
    method GetAccountCategories(userId: Id, accountId: Id) returns (code: int, rows: seq<Category>)
      ensures code in {OK, NOT_FOUND}
      ensures code == NOT_FOUND <==> FindAccount(accounts, accountId, userId).None?
      ensures code == NOT_FOUND ==> rows == []
      ensures code == OK ==> forall c :: c in rows <==> c in categories && c.accountId == accountId
    {
      var found := FindAccount(accounts, accountId, userId);
      if found.None? {
        return NOT_FOUND, [];
      }
      rows := Filter(categories, (c: Category) => c.accountId == accountId);
      code := OK;
    }

    /** GET /accounts/:accountId/categories/:categoryId */
    method GetAccountCategory(userId: Id, accountId: Id, categoryId: Id) returns (status: Status, row: Option<Category>)
      ensures status in {Ok, AccountNotFound, CategoryNotFound}
      ensures status == AccountNotFound <==> FindAccount(accounts, accountId, userId).None?
      ensures status == CategoryNotFound <==>
        FindAccount(accounts, accountId, userId).Some? && forall c :: c in categories ==> !(c.id == categoryId && c.accountId == accountId)
      ensures status == Ok <==> row.Some?
      ensures row.Some? ==> row.value in categories && row.value.id == categoryId && row.value.accountId == accountId
    {
      var found := FindAccount(accounts, accountId, userId);
      if found.None? {
        return AccountNotFound, None;
      }
      var index := FindCategory(categories, categoryId, accountId);
      if index.None? {
        forall c | c in categories ensures !(c.id == categoryId && c.accountId == accountId) {
          var k :| 0 <= k < |categories| && categories[k] == c;
        }
        return CategoryNotFound, None;
      }
      status, row := Ok, Some(categories[index.value]);
    }

    /** POST /accounts/:accountId/categories */
    method CreateAccountCategory(userId: Id, accountId: Id, body: CategoryBody) returns (status: Status)
      modifies this
      ensures Outcome(status, State()) == CreateCategory(old(State()), userId, accountId, body)
      ensures old(Valid()) ==> Valid()
    {
      ghost var before := State();
      var found := FindAccount(accounts, accountId, userId);
      if found.None? {
        return AccountNotFound;
      }
      if !Given(body.name) || !Given(body.domain) {
        return FieldsRequired;
      }
      var domain := ParseDomain(body.domain.value);
      if domain.None? {
        return InvalidDomain;
      }
      if CategoryNamed(categories, accountId, body.name.value) {
        return NameTaken;
      }
      var description := if Given(body.description) then body.description.value else "";
      categories := categories + [Category(nextId, accountId, body.name.value, domain.value, description)];
      nextId := nextId + 1;
      status := Created;
      if Consistent(before) {
        LedgerInvariants.CreateCategoryKeepsConsistent(before, userId, accountId, body);
      }
    }

    /** DELETE /accounts/:accountId/categories/:categoryId; the database clears the references to the category. */
    method DeleteAccountCategory(userId: Id, accountId: Id, categoryId: Id) returns (status: Status)
      modifies this
      ensures Outcome(status, State()) == DeleteCategory(old(State()), userId, accountId, categoryId)
      ensures old(Valid()) ==> Valid()
    {
      ghost var before := State();
      var found := FindAccount(accounts, accountId, userId);
      if found.None? {
        return AccountNotFound;
      }
      var index := FindCategory(categories, categoryId, accountId);
      if index.None? {
        return CategoryNotFound;
      }
      categories := RemoveAt(categories, index.value);
      transactions := Unlink(transactions, {categoryId});
      status := NoContent;
      if Consistent(before) {
        LedgerInvariants.DeleteCategoryKeepsConsistent(before, userId, accountId, categoryId);
      }
    }

    /** PUT /accounts/:accountId/categories/:categoryId */
    method UpdateAccountCategory(userId: Id, accountId: Id, categoryId: Id, body: CategoryBody) returns (status: Status)
      modifies this
      ensures Outcome(status, State()) == UpdateCategory(old(State()), userId, accountId, categoryId, body)
      ensures old(Valid()) ==> Valid()
    {
      ghost var before := State();
      var found := FindAccount(accounts, accountId, userId);
      if found.None? {
        return AccountNotFound;
      }
      var index := FindCategory(categories, categoryId, accountId);
      if index.None? {
        return CategoryNotFound;
      }
      if Given(body.domain) && ParseDomain(body.domain.value).None? {
        return InvalidDomain;
      }
      var category := categories[index.value];
      var name := if Given(body.name) then body.name.value else category.name;
      var description := if body.description.Some? then body.description.value else category.description;
      var domain := if Given(body.domain) then ParseDomain(body.domain.value).value else category.domain;
      categories := categories[index.value := category.(name := name, description := description, domain := domain)];
      status := Ok;
      if Consistent(before) {
        LedgerInvariants.UpdateCategoryKeepsConsistent(before, userId, accountId, categoryId, body);
      }
    }
  }
}
