/**
 * The finance controller as reference functions: one function per request
 * handler, from the tables before the request to the response status and the
 * tables after it. Every account-scoped handler resolves the account by
 * `(id, userId)` first and any nested row by `(id, accountId)` before it
 * validates the body, except that create-transaction checks the amount before
 * the category it names; a handler writes only when every check has passed.
 *
 * Request bodies hold each JSON field as an `Option`; `None` is a field that
 * was not sent (`undefined`).
 */
module Finance {
  import opened Common
  import opened LedgerTables

  /** The response a handler sends, named after its message, with its HTTP status. */
  datatype Status =
    | Ok               // 200
    | Created          // 201
    | NoContent        // 204
    | FieldsRequired   // 400
    | InvalidCurrency  // 400
    | InvalidDomain    // 400
    | NothingToUpdate  // 400
    | AccountNotFound  // 404
    | TransactionNotFound  // 404
    | CategoryNotFound     // 404
    | NameTaken        // 409
    /** The database refuses the write (a foreign-key violation), the handler throws and sends nothing. */
    | Unanswered

  datatype AccountBody = AccountBody(name: Option<string>, currency: Option<string>)

  datatype TransactionBody = TransactionBody(amount: Option<real>, description: Option<string>, categoryId: Option<Id>)

  datatype CategoryBody = CategoryBody(name: Option<string>, description: Option<string>, domain: Option<string>)

  datatype Outcome = Outcome(status: Status, db: Db)

  /** The rows that survive the deletion of account `accountId` (the schema's cascade). */
  function CategoriesOutside(categories: seq<Category>, accountId: Id): seq<Category>
  {
    Filter(categories, (c: Category) => c.accountId != accountId)
  }

  function TransactionsOutside(transactions: seq<Transaction>, accountId: Id): seq<Transaction>
  {
    Filter(transactions, (t: Transaction) => t.accountId != accountId)
  }

  // ----- Accounts -----

  /** POST /accounts */
  function CreateAccount(db: Db, currencies: set<string>, userId: Id, body: AccountBody): (o: Outcome)
    ensures o.status in {Created, FieldsRequired, InvalidCurrency, NameTaken}
    ensures o.status == FieldsRequired <==> !Given(body.name) || !Given(body.currency)
    ensures o.status == InvalidCurrency <==> Given(body.name) && Given(body.currency) && body.currency.value !in currencies
    ensures o.status == NameTaken <==>
      Given(body.name) && Given(body.currency) && body.currency.value in currencies
      && AccountNamed(db.accounts, userId, body.name.value, None)
    ensures o.status != Created ==> o.db == db
  {
    if !Given(body.name) || !Given(body.currency) then Outcome(FieldsRequired, db)
    else if body.currency.value !in currencies then Outcome(InvalidCurrency, db)
    else if AccountNamed(db.accounts, userId, body.name.value, None) then Outcome(NameTaken, db)
    else
      var account := Account(db.nextId, userId, body.name.value, body.currency.value, 0.0);
      Outcome(Created, db.(accounts := db.accounts + [account], nextId := db.nextId + 1))
  }

  /**
   * DELETE /accounts/:accountId, with the schema's cascade to the account's
   * categories and transactions; transactions of other accounts that point at
   * one of the deleted categories lose their category.
   */
  function DeleteAccount(db: Db, userId: Id, accountId: Id): (o: Outcome)
    ensures o.status in {NoContent, AccountNotFound}
    ensures o.status == AccountNotFound <==> FindAccount(db.accounts, accountId, userId).None?
    ensures o.status == AccountNotFound ==> o.db == db
    ensures o.status == NoContent ==>
      && |o.db.accounts| == |db.accounts| - 1
      && (forall a :: a in o.db.accounts ==> a in db.accounts)
      && (forall a :: a in db.accounts && a.id != accountId ==> a in o.db.accounts)
      && (forall c :: c in o.db.categories <==> c in db.categories && c.accountId != accountId)
      && (forall t :: t in o.db.transactions <==>
            exists u :: u in db.transactions && u.accountId != accountId && t == Detach(u, CategoryIdsOf(db.categories, accountId)))
      && (forall t :: t in o.db.transactions && t.categoryId.Some? ==>
            forall c :: c in db.categories && c.id == t.categoryId.value ==> c.accountId != accountId)
  {
    match FindAccount(db.accounts, accountId, userId)
    case None => Outcome(AccountNotFound, db)
    case Some(i) =>
      var rest := RemoveAt(db.accounts, i);
      assert forall k :: 0 <= k < |db.accounts| && k != i ==> db.accounts[k] == rest[if k < i then k else k - 1];
      var survivors := TransactionsOutside(db.transactions, accountId);
      UnlinkMembers(survivors, CategoryIdsOf(db.categories, accountId));
      Outcome(NoContent, Db(RemoveAt(db.accounts, i),
                            CategoriesOutside(db.categories, accountId),
                            Unlink(survivors, CategoryIdsOf(db.categories, accountId)),
                            db.nextId))
  }

  /**
   * PUT /accounts/:accountId. The name-only write is never awaited, so the
   * name reaches the table only through the write that also sets the currency.
   */
  function UpdateAccount(db: Db, currencies: set<string>, userId: Id, accountId: Id, body: AccountBody): (o: Outcome)
    ensures o.status in {Ok, AccountNotFound, InvalidCurrency, NothingToUpdate, NameTaken}
    ensures o.status == AccountNotFound <==> FindAccount(db.accounts, accountId, userId).None?
    ensures o.status == InvalidCurrency <==>
      FindAccount(db.accounts, accountId, userId).Some? && Given(body.currency) && body.currency.value !in currencies
    ensures o.status == NothingToUpdate <==>
      FindAccount(db.accounts, accountId, userId).Some? && !Given(body.name) && !Given(body.currency)
    ensures o.status == NameTaken <==>
      && FindAccount(db.accounts, accountId, userId).Some?
      && (Given(body.currency) ==> body.currency.value in currencies)
      && Given(body.name) && AccountNamed(db.accounts, userId, body.name.value, Some(accountId))
    ensures o.status != Ok || !Given(body.currency) ==> o.db == db
  {
    match FindAccount(db.accounts, accountId, userId)
    case None => Outcome(AccountNotFound, db)
    case Some(i) =>
      if Given(body.currency) && body.currency.value !in currencies then Outcome(InvalidCurrency, db)
      else if !Given(body.name) && !Given(body.currency) then Outcome(NothingToUpdate, db)
      else if Given(body.name) && AccountNamed(db.accounts, userId, body.name.value, Some(accountId)) then Outcome(NameTaken, db)
      else if Given(body.currency) then
        var account := db.accounts[i];
        var name := if body.name.Some? then body.name.value else account.name;
        Outcome(Ok, db.(accounts := db.accounts[i := account.(name := name, currency := body.currency.value)]))
      else
        Outcome(Ok, db)
  }

  // ----- Transactions -----

  /** POST /accounts/:accountId/transactions */
  function CreateTransaction(db: Db, userId: Id, accountId: Id, body: TransactionBody): (o: Outcome)
    ensures o.status in {Created, AccountNotFound, FieldsRequired, CategoryNotFound}
    ensures o.status == AccountNotFound <==> FindAccount(db.accounts, accountId, userId).None?
    ensures o.status == FieldsRequired <==> FindAccount(db.accounts, accountId, userId).Some? && !GivenAmount(body.amount)
    ensures o.status == CategoryNotFound <==>
      && FindAccount(db.accounts, accountId, userId).Some? && GivenAmount(body.amount)
      && body.categoryId.Some? && FindCategory(db.categories, body.categoryId.value, accountId).None?
    ensures o.status != Created ==> o.db == db
  {
    match FindAccount(db.accounts, accountId, userId)
    case None => Outcome(AccountNotFound, db)
    case Some(i) =>
      if !GivenAmount(body.amount) then Outcome(FieldsRequired, db)
      else if body.categoryId.Some? && FindCategory(db.categories, body.categoryId.value, accountId).None? then
        Outcome(CategoryNotFound, db)
      else
        var amount := body.amount.value;
        var t := Transaction(db.nextId, accountId, amount, TypeOf(amount), body.description, body.categoryId);
        var account := db.accounts[i];
        Outcome(Created, db.(transactions := db.transactions + [t],
                             accounts := db.accounts[i := account.(balance := account.balance + amount)],
                             nextId := db.nextId + 1))
  }

  /** DELETE /accounts/:accountId/transactions/:transactionId */
  function DeleteTransaction(db: Db, userId: Id, accountId: Id, transactionId: Id): (o: Outcome)
    ensures o.status in {NoContent, AccountNotFound, TransactionNotFound}
    ensures o.status == AccountNotFound <==> FindAccount(db.accounts, accountId, userId).None?
    ensures o.status == TransactionNotFound <==>
      FindAccount(db.accounts, accountId, userId).Some? && FindTransaction(db.transactions, transactionId, accountId).None?
    ensures o.status != NoContent ==> o.db == db
  {
    match FindAccount(db.accounts, accountId, userId)
    case None => Outcome(AccountNotFound, db)
    case Some(i) =>
      match FindTransaction(db.transactions, transactionId, accountId)
      case None => Outcome(TransactionNotFound, db)
      case Some(j) =>
        var account := db.accounts[i];
        var total := account.balance - db.transactions[j].amount;
        Outcome(NoContent, db.(transactions := RemoveAt(db.transactions, j),
                               accounts := db.accounts[i := account.(balance := total)]))
  }

  /**
   * PUT /accounts/:accountId/transactions/:transactionId. The empty-body test
   * uses truthiness, the field updates use `!== undefined`. A `categoryId` is
   * not checked against the account, but the foreign key refuses one that no
   * category has, and the handler then answers nothing.
   */
  function UpdateTransaction(db: Db, userId: Id, accountId: Id, transactionId: Id, body: TransactionBody): (o: Outcome)
    ensures o.status in {Ok, AccountNotFound, TransactionNotFound, NothingToUpdate, Unanswered}
    ensures o.status == AccountNotFound <==> FindAccount(db.accounts, accountId, userId).None?
    ensures o.status == TransactionNotFound <==>
      FindAccount(db.accounts, accountId, userId).Some? && FindTransaction(db.transactions, transactionId, accountId).None?
    ensures o.status == NothingToUpdate <==>
      && FindAccount(db.accounts, accountId, userId).Some? && FindTransaction(db.transactions, transactionId, accountId).Some?
      && !GivenAmount(body.amount) && !Given(body.description) && body.categoryId.None?
    ensures o.status == Unanswered <==>
      && FindAccount(db.accounts, accountId, userId).Some? && FindTransaction(db.transactions, transactionId, accountId).Some?
      && body.categoryId.Some? && !CategoryExists(db.categories, body.categoryId.value)
    ensures o.status != Ok ==> o.db == db
    ensures o.db.nextId == db.nextId && |o.db.transactions| == |db.transactions|
  {
    match FindAccount(db.accounts, accountId, userId)
    case None => Outcome(AccountNotFound, db)
    case Some(i) =>
      match FindTransaction(db.transactions, transactionId, accountId)
      case None => Outcome(TransactionNotFound, db)
      case Some(j) =>
        if !GivenAmount(body.amount) && !Given(body.description) && body.categoryId.None? then
          Outcome(NothingToUpdate, db)
        else if body.categoryId.Some? && !CategoryExists(db.categories, body.categoryId.value) then
          Outcome(Unanswered, db)
        else
          var t := db.transactions[j];
          var amount := if body.amount.Some? then body.amount.value else t.amount;
          var kind := if body.amount.Some? then TypeOf(amount) else t.kind;
          var updated := t.(amount := amount,
                            description := if body.description.Some? then body.description else t.description,
                            categoryId := if body.categoryId.Some? then body.categoryId else t.categoryId,
                            kind := kind);
          var transactions := db.transactions[j := updated];
          if body.amount.Some? then
            var account := db.accounts[i];
            var balance := account.balance + (amount - t.amount);
            Outcome(Ok, db.(transactions := transactions, accounts := db.accounts[i := account.(balance := balance)]))
          else
            Outcome(Ok, db.(transactions := transactions))
  }

  // ----- Categories -----

  /** POST /accounts/:accountId/categories */
  function CreateCategory(db: Db, userId: Id, accountId: Id, body: CategoryBody): (o: Outcome)
    ensures o.status in {Created, AccountNotFound, FieldsRequired, InvalidDomain, NameTaken}
    ensures o.status == AccountNotFound <==> FindAccount(db.accounts, accountId, userId).None?
    ensures o.status == FieldsRequired <==>
      FindAccount(db.accounts, accountId, userId).Some? && (!Given(body.name) || !Given(body.domain))
    ensures o.status == InvalidDomain <==>
      && FindAccount(db.accounts, accountId, userId).Some? && Given(body.name) && Given(body.domain)
      && body.domain.value != "INCOME" && body.domain.value != "EXPENSE"
    ensures o.status == NameTaken <==>
      && FindAccount(db.accounts, accountId, userId).Some? && Given(body.name) && Given(body.domain)
      && (body.domain.value == "INCOME" || body.domain.value == "EXPENSE")
      && CategoryNamed(db.categories, accountId, body.name.value)
    ensures o.status != Created ==> o.db == db
  {
    match FindAccount(db.accounts, accountId, userId)
    case None => Outcome(AccountNotFound, db)
    case Some(_) =>
      if !Given(body.name) || !Given(body.domain) then Outcome(FieldsRequired, db)
      else if ParseDomain(body.domain.value).None? then Outcome(InvalidDomain, db)
      else if CategoryNamed(db.categories, accountId, body.name.value) then Outcome(NameTaken, db)
      else
        var description := if Given(body.description) then body.description.value else "";
        var category := Category(db.nextId, accountId, body.name.value, ParseDomain(body.domain.value).value, description);
        Outcome(Created, db.(categories := db.categories + [category], nextId := db.nextId + 1))
  }

  /**
   * DELETE /accounts/:accountId/categories/:categoryId. The transactions that
   * pointed at the category lose it (the relation is optional, so the
   * database sets the reference to null).
   */
  function DeleteCategory(db: Db, userId: Id, accountId: Id, categoryId: Id): (o: Outcome)
    ensures o.status in {NoContent, AccountNotFound, CategoryNotFound}
    ensures o.status == AccountNotFound <==> FindAccount(db.accounts, accountId, userId).None?
    ensures o.status == CategoryNotFound <==>
      FindAccount(db.accounts, accountId, userId).Some? && FindCategory(db.categories, categoryId, accountId).None?
    ensures o.status != NoContent ==> o.db == db
    ensures o.db.accounts == db.accounts && o.db.nextId == db.nextId && |o.db.transactions| == |db.transactions|
    ensures o.status == NoContent ==> forall t :: t in o.db.transactions ==> t.categoryId != Some(categoryId)
  {
    match FindAccount(db.accounts, accountId, userId)
    case None => Outcome(AccountNotFound, db)
    case Some(_) =>
      match FindCategory(db.categories, categoryId, accountId)
      case None => Outcome(CategoryNotFound, db)
      case Some(j) =>
        Outcome(NoContent, db.(categories := RemoveAt(db.categories, j), transactions := Unlink(db.transactions, {categoryId})))
  }

  /**
   * PUT /accounts/:accountId/categories/:categoryId. There is no empty-body
   * check and no name-uniqueness check.
   */
  function UpdateCategory(db: Db, userId: Id, accountId: Id, categoryId: Id, body: CategoryBody): (o: Outcome)
    ensures o.status in {Ok, AccountNotFound, CategoryNotFound, InvalidDomain}
    ensures o.status == AccountNotFound <==> FindAccount(db.accounts, accountId, userId).None?
    ensures o.status == CategoryNotFound <==>
      FindAccount(db.accounts, accountId, userId).Some? && FindCategory(db.categories, categoryId, accountId).None?
    ensures o.status == InvalidDomain <==>
      && FindAccount(db.accounts, accountId, userId).Some? && FindCategory(db.categories, categoryId, accountId).Some?
      && Given(body.domain) && body.domain.value != "INCOME" && body.domain.value != "EXPENSE"
    ensures o.status != Ok ==> o.db == db
    ensures o.db.accounts == db.accounts && o.db.transactions == db.transactions
  {
    match FindAccount(db.accounts, accountId, userId)
    case None => Outcome(AccountNotFound, db)
    case Some(_) =>
      match FindCategory(db.categories, categoryId, accountId)
      case None => Outcome(CategoryNotFound, db)
      case Some(j) =>
        if Given(body.domain) && ParseDomain(body.domain.value).None? then Outcome(InvalidDomain, db)
        else
          var c := db.categories[j];
          var updated := c.(name := if Given(body.name) then body.name.value else c.name,
                            description := if body.description.Some? then body.description.value else c.description,
                            domain := if Given(body.domain) then ParseDomain(body.domain.value).value else c.domain);
          Outcome(Ok, db.(categories := db.categories[j := updated]))
  }
}
