# AdmRef backend: ledger, authentication and JWT middleware in Dafny

This project models three parts of a personal-finance backend.

- **Ledger controller** (`src/controlers/finance.ts`). Users own accounts. Each account holds categories and transactions. The account keeps a cached `balance` that every transaction create, update and delete must keep equal to the sum of the account's transaction amounts. Every account-scoped handler looks the account up by `(accountId, userId)` and any nested row by `(id, accountId)` before it validates the body, except that create-transaction checks the amount before the category it names. A handler writes only when every check has passed.
- **Authentication controller** (`src/controlers/auth.ts`). It covers `register`, `login` and `me` over the user table.
- **JWT middleware** (`src/middlewares/auth.ts`). It lets the unprotected routes through. Other requests must carry `Authorization: Bearer <token>` and a token that verifies; the token's user id is then attached to the request.

## How the model is built

- `common.dfy` (`Common`) holds shared definitions:
  - `Option`, for a JSON field that may be absent;
  - the HTTP status codes;
  - JavaScript truthiness of request fields. `Given` means present and not `""`. `GivenAmount` means present and not `0`.
  - the "first row matching a filter" lookup every query performs.
- `strings.dfy` (`Strings`) holds JavaScript's `split` on a one-character separator and its inverse `join`.
- `ledger_tables.dfy` (`LedgerTables`) defines:
  - the rows;
  - the `Db` value holding the three tables and a key counter;
  - the lookups;
  - `Balance`, the sum of an account's amounts, with the lemmas that move it through an append, removal or replacement;
  - the invariant `Consistent`, which requires keys to be fresh and unique, every cached balance to equal `Balance`, every transaction type to follow its amount's sign, and every category a transaction refers to to exist (the foreign key on `categoryId`);
  - `Unlink`, which clears the references to deleted categories, as the database does for an optional relation.
- `finance.dfy` (`Finance`) gives one reference function per mutating handler. Each maps the tables before a request to the response status and the tables after it. Its contract says which status each combination of lookups and body fields produces, in the handler's check order, and that every error leaves the tables unchanged.
- `ledger_invariants.dfy` (`LedgerInvariants`) proves that every handler preserves `Consistent`. It also states what each handler writes, and that account creation and rename, and category creation, keep names unique.
- `finance_behaviour.dfy` (`FinanceBehaviour`) holds the ownership-scoping lemmas, the behaviours of the code listed below, and a complete account lifecycle.
- `finance_store.dfy` (`FinanceStore`) is the controller as it runs. `Store` is a class whose fields are the three tables, and each handler is a method.
  - The mutating methods change the tables step by step, in the order the handler does. Each is proved to produce exactly what the reference function gives for the old tables, and to preserve `Valid()`.
  - The read handlers are methods that change nothing.
- `auth.dfy` (`Auth`) holds `register`, `login` and `me` as functions over the user table, with the username derivation and the lemmas about them. `auth_store.dfy` (`AuthStore`) holds `UserStore`, whose `Register` inserts the user into its table.
- `middleware.dfy` (`AuthMiddleware`) holds the header parsing, the decision function `Authenticate`, and `JwtValidator`, which writes `userId` into a `Request` object.

Modelling choices:

- Amounts are `real`. The code uses a Decimal library, so sums are exact.
- Primary keys are naturals drawn from one counter. They stand in for the database's generated uuids.
- `bcrypt.hashSync`, `bcrypt.compareSync`, `jwt.sign` and `jwt.verify` are function parameters, and nothing is assumed about them. A verification that throws is `None`.
- The members of the `Currency` enum come from the database schema, which is not part of this model. `Store` takes the set of supported currencies as a constant.

Where the repository's own tests expect something other than what the code does, the model follows the code:

- **Account rename.** `src/tests/finance/accounts.test.ts:195-206` expects a name-only update to persist. In the code the name-only write is never awaited, so a rename reaches the table only together with a currency (`FinanceBehaviour.RenameWithoutCurrencyIsLost`).
- **Verification at registration.** `src/tests/auth/register.test.ts:47` expects a new user to have `isVerified` false. In the code, `register` stores `isVerified: true`, and the verification handlers do not exist, so a registered user can log in at once (`Auth.RegisteredUserCanLogIn`).

### Behaviour of the code, kept as written

- **Zero amount on create.** `!amount` rejects an amount of 0 on create (`ZeroAmountIsRejectedOnCreate`).
- **Zero amount on update.** An update whose only field is `amount: 0` is rejected as empty, but the same zero sent with a description is written (`ZeroAmountAloneIsAnEmptyUpdate`).
- **Foreign category on update.** Create checks that `categoryId` belongs to the account; update does not (`UpdateAcceptsForeignCategory`).
- **Unknown category on update.** A `categoryId` that no category has passes the handler's own checks, and the write at finance.ts:418 then violates the foreign key and throws. No response is sent and nothing is written, the balance included (`UnknownCategoryOnUpdateIsUnanswered`).
- **Empty account name.** An empty name sent with a currency is written (`EmptyNameWithCurrencyIsWritten`).
- **Category update checks.** It has no empty-body check (`EmptyCategoryUpdateIsAccepted`) and no name-uniqueness check (`CategoryUpdateCanDuplicateName`).
- **Fetching one transaction.** `getAccountTransaction` never answers once the account is found (`Store.GetAccountTransaction` returns `None`).
- **Empty bearer token.** `"Bearer "` with an empty token reaches the verifier (`EmptyTokenIsPassedOn`).

## Model

| member | source | states |
|---|---|---|
| LedgerTables.TypeOf | src/controlers/finance.ts:325 | a transaction is INCOME exactly when its amount is >= 0, EXPENSE otherwise |
| LedgerTables.ParseDomain | src/controlers/finance.ts:534 | a domain is accepted exactly when it is "INCOME" or "EXPENSE", and maps to that member |
| LedgerTables.FindAccount | src/controlers/finance.ts:298-301 | the found row has the requested id and is owned by the caller; none is found exactly when no such row exists |
| LedgerTables.FindCategory | src/controlers/finance.ts:311-314 | the found row has the requested id and belongs to the account; none exactly when no such row exists |
| LedgerTables.FindTransaction | src/controlers/finance.ts:358-361 | the found row has the requested id and belongs to the account; none exactly when no such row exists |
| LedgerTables.BalanceAppend | src/controlers/finance.ts:320-335 | inserting a transaction adds its amount to its own account's sum and nothing to any other account's |
| LedgerTables.BalanceRemoveAt | src/controlers/finance.ts:366-375 | deleting a transaction subtracts its amount from its own account's sum |
| LedgerTables.BalanceReplace | src/controlers/finance.ts:418-435 | replacing a transaction swaps the old row's contribution to the sum for the new row's |
| LedgerTables.BalanceFilter | src/controlers/finance.ts:140-142 | removing the rows of other accounts leaves an account's sum unchanged |
| Finance.CreateAccount | src/controlers/finance.ts:91-120 | 400 when name or currency is falsy, then 400 for an unsupported currency, then 409 when the user has an account of that name, else 201; only 201 writes |
| Finance.DeleteAccount | src/controlers/finance.ts:128-145 | 404 exactly when the caller owns no such account, writing nothing; otherwise 204, and the account, its categories and its transactions are gone while every other row remains, except that references to the deleted categories are cleared |
| Finance.UpdateAccount | src/controlers/finance.ts:154-193 | 404 for a foreign account; then 400 for an unsupported currency, before 400 for a body with neither field; then 409 for a name used by another account of the user; the tables change only on 200 with a currency |
| Finance.CreateTransaction | src/controlers/finance.ts:293-338 | 404 for a foreign account; 400 for a missing or zero amount; 404 for a category that is not the account's; else 201; only 201 writes |
| Finance.DeleteTransaction | src/controlers/finance.ts:346-378 | 404 for a foreign account, then 404 for a transaction not in the account; else 204; only 204 writes |
| Finance.UpdateTransaction | src/controlers/finance.ts:386-439 | 404 and 404 as for delete; 400 when amount, description and category are all falsy; no response exactly when the sent category id names no category, which the foreign key refuses at the write; only 200 writes, and no row is added or removed |
| Finance.CreateCategory | src/controlers/finance.ts:519-555 | 404 for a foreign account; 400 for a falsy name or domain; 400 for a domain other than INCOME/EXPENSE; 409 for a name the account already uses; else 201; only 201 writes |
| Finance.DeleteCategory | src/controlers/finance.ts:564-589 | 404 for a foreign account, then for a category not in the account; else 204, after which no transaction refers to the category; accounts are never touched and no transaction is removed |
| Finance.UpdateCategory | src/controlers/finance.ts:597-632 | 404, 404, then 400 for a given invalid domain, else 200; accounts and transactions are never touched |
| LedgerInvariants.CreateAccountKeepsConsistent | src/controlers/finance.ts:111-117 | account creation keeps the tables consistent: a new account starts at balance 0 with no transactions |
| LedgerInvariants.UpdateAccountKeepsConsistent | src/controlers/finance.ts:181-191 | an account update keeps the tables consistent: it never touches the balance |
| LedgerInvariants.DeleteAccountKeepsConsistent | src/controlers/finance.ts:140-142 | the cascading account delete keeps every remaining balance equal to its sum, keys unique and fresh, and every referenced category present |
| LedgerInvariants.CascadeKeepsReferences | src/controlers/finance.ts:140-142 | after the cascade, every category a surviving transaction still refers to survives too |
| LedgerInvariants.CreateTransactionKeepsConsistent | src/controlers/finance.ts:320-335 | after a create, every balance still equals the sum of its account's amounts, and types and keys stay valid |
| LedgerInvariants.DeleteTransactionKeepsConsistent | src/controlers/finance.ts:366-375 | after a delete, every balance still equals the sum of its account's amounts |
| LedgerInvariants.UpdateTransactionKeepsConsistent | src/controlers/finance.ts:411-436 | after an update, every balance still equals the sum of its account's amounts, and the type follows the new amount |
| LedgerInvariants.CreateCategoryKeepsConsistent | src/controlers/finance.ts:545-552 | category creation keeps the tables consistent |
| LedgerInvariants.DeleteCategoryKeepsConsistent | src/controlers/finance.ts:584-586 | category deletion keeps the tables consistent: clearing the references leaves keys, balances and types as they were, and no reference dangles |
| LedgerInvariants.CategoryDeleteKeepsReferences | src/controlers/finance.ts:584-586 | after a category delete with its references cleared, every remaining reference names a category |
| LedgerInvariants.UnlinkKeepsLedger | src/controlers/finance.ts:584-586 | clearing category references changes no key, amount, type or balance |
| LedgerInvariants.UpdateCategoryKeepsConsistent | src/controlers/finance.ts:622-629 | category update keeps the tables consistent |
| LedgerInvariants.CreateTransactionEffect | src/controlers/finance.ts:310-335 | one new row carries the sent amount (non-zero), description and category; the category is one of the account's; the type follows the sign; the owner's balance grows by the amount; nothing else changes |
| LedgerInvariants.DeleteTransactionEffect | src/controlers/finance.ts:366-375 | exactly the requested row is removed; the owner's balance drops by its amount; no other account changes |
| LedgerInvariants.UpdateTransactionEffect | src/controlers/finance.ts:411-436 | with `amount`, the row takes it, the type is re-derived and the balance moves by new - old; without it, amount, type and balances stay; description and category change exactly when sent; a sent category exists |
| LedgerInvariants.CreateAccountEffect | src/controlers/finance.ts:111-117 | one new account owned by the caller, with the sent name and a supported currency, balance 0, and a name no other account of the caller has |
| LedgerInvariants.UpdateAccountEffect | src/controlers/finance.ts:187-190 | with a currency, the account takes it and takes the name when one is sent; owner, balance and other rows stay |
| LedgerInvariants.CreateCategoryEffect | src/controlers/finance.ts:545-552 | one new category in the account, with the parsed domain and the description defaulting to "" |
| LedgerInvariants.UpdateCategoryEffect | src/controlers/finance.ts:622-629 | name and domain are kept when absent or empty; description is kept when absent; other rows stay |
| LedgerInvariants.DeleteCategoryEffect | src/controlers/finance.ts:584-586 | exactly the requested category is removed; the transactions that used it keep every other field and lose the category; all other transactions are unchanged |
| LedgerInvariants.CreateAccountKeepsNamesUnique | src/controlers/finance.ts:103-109 | creation never gives a user two accounts with the same non-empty name |
| LedgerInvariants.UpdateAccountKeepsNamesUnique | src/controlers/finance.ts:174-180 | a rename never gives a user two accounts with the same non-empty name |
| LedgerInvariants.CreateCategoryKeepsNamesUnique | src/controlers/finance.ts:538-543 | creation never gives an account two categories with the same name |
| FinanceBehaviour.ForeignAccountIsNotFound | src/controlers/finance.ts:298-304 | for an account the caller does not own, every account-scoped handler answers 404 and writes nothing, whatever the body |
| FinanceBehaviour.ForeignRowIsNotFound | src/controlers/finance.ts:358-364 | a transaction or category of another account is 404 through this account, before the body is read, and nothing is written |
| FinanceBehaviour.ZeroAmountIsRejectedOnCreate | src/controlers/finance.ts:306-308 | creating a transaction with amount 0 answers 400 |
| FinanceBehaviour.ZeroAmountAloneIsAnEmptyUpdate | src/controlers/finance.ts:407-416 | `{amount: 0}` alone is 400, while the same with a description sets the amount to 0 and moves the balance by minus the old amount |
| FinanceBehaviour.UpdateAcceptsForeignCategory | src/controlers/finance.ts:418-426 | a category of another account is refused on create but stored on update |
| FinanceBehaviour.UnknownCategoryOnUpdateIsUnanswered | src/controlers/finance.ts:418-426 | an update naming a category id that no category has gets no response and writes nothing, whatever else the body carries |
| FinanceBehaviour.DeletedCategoryLeavesTransactionsUncategorised | src/controlers/finance.ts:584-586 | deleting a category keeps the transaction that used it, now without a category, and the ledger stays consistent |
| FinanceBehaviour.RenameWithoutCurrencyIsLost | src/controlers/finance.ts:174-185 | a rename without a currency answers 200 or 409 and changes nothing |
| FinanceBehaviour.EmptyNameWithCurrencyIsWritten | src/controlers/finance.ts:187-190 | an empty name sent with a currency is written |
| FinanceBehaviour.EmptyCategoryUpdateIsAccepted | src/controlers/finance.ts:618-631 | a category update with no fields answers 200 and leaves the tables as they were |
| FinanceBehaviour.CategoryUpdateCanDuplicateName | src/controlers/finance.ts:622-629 | a category update can give two categories of one account the same name |
| FinanceBehaviour.CashAccountScenario | src/controlers/finance.ts:320-435 | open an account (finance.ts:111-117), deposit 100 (320-335), change it to -30 (411-435), delete it (366-375): balances 0, 100, -30, 0, with types INCOME then EXPENSE; an instance of the balance-equals-sum property that src/tests/finance/integration.test.ts:137-144 checks |
| FinanceStore.Store.GetUserAccounts | src/controlers/finance.ts:17-33 | 404 exactly when the user has no account; otherwise the user's accounts and no others |
| FinanceStore.Store.GetUserAccount | src/controlers/finance.ts:43-83 | 404 exactly when the caller owns no such account; otherwise that account and its transactions |
| FinanceStore.Store.CreateUserAccount | src/controlers/finance.ts:91-120 | the new tables and status are those of `Finance.CreateAccount` on the old ones, and consistency is preserved |
| FinanceStore.Store.DeleteUserAccount | src/controlers/finance.ts:128-145 | as `Finance.DeleteAccount`, preserving consistency |
| FinanceStore.Store.UpdateUserAccount | src/controlers/finance.ts:154-193 | as `Finance.UpdateAccount`, preserving consistency |
| FinanceStore.Store.GetSupportedCurrencies | src/controlers/finance.ts:202-204 | 200 with the supported currencies |
| FinanceStore.Store.GetAccountTransaction | src/controlers/finance.ts:213-243 | 404 for a foreign account; otherwise no response at all |
| FinanceStore.Store.GetAccountTransactions | src/controlers/finance.ts:252-285 | 404 for a foreign account; otherwise exactly the account's transactions |
| FinanceStore.Store.CreateAccountTransaction | src/controlers/finance.ts:293-338 | as `Finance.CreateTransaction`: row inserted, then balance written; consistency preserved |
| FinanceStore.Store.DeleteAccountTransaction | src/controlers/finance.ts:346-378 | as `Finance.DeleteTransaction`: row deleted, then balance written; consistency preserved |
| FinanceStore.Store.UpdateAccountTransaction | src/controlers/finance.ts:386-439 | as `Finance.UpdateTransaction`, with amount and type reassigned only when `amount` is sent and nothing written when the category id is unknown; consistency preserved |
| FinanceStore.Store.GetAccountCategories | src/controlers/finance.ts:447-473 | 404 for a foreign account; otherwise exactly the account's categories |
| FinanceStore.Store.GetAccountCategory | src/controlers/finance.ts:481-511 | 404 for a foreign account, 404 when the account has no such category, otherwise that category |
| FinanceStore.Store.CreateAccountCategory | src/controlers/finance.ts:519-555 | as `Finance.CreateCategory`, preserving consistency |
| FinanceStore.Store.DeleteAccountCategory | src/controlers/finance.ts:564-589 | as `Finance.DeleteCategory`, with the references to the category cleared; consistency preserved |
| FinanceStore.Store.UpdateAccountCategory | src/controlers/finance.ts:597-632 | as `Finance.UpdateCategory`, preserving consistency |
| Strings.Split | src/controlers/auth.ts:19 | at least one piece, none containing the separator; the first piece is the prefix up to the first separator; one piece exactly when there is no separator |
| Strings.JoinSplit | src/middlewares/auth.ts:26 | joining the pieces with the separator gives back the string |
| Strings.SplitJoin | src/middlewares/auth.ts:26 | splitting separator-free pieces joined by the separator gives back the pieces |
| Auth.UsernameOf | src/controlers/auth.ts:19 | the username is a prefix of the email without '@', ends just before the first '@', and is the whole email when it has no '@' |
| Auth.UsernameOfAddress | src/controlers/auth.ts:19 | the username of `local@domain` is `local` |
| Auth.FindUserByEmail | src/controlers/auth.ts:12 | the found user has the email; none exactly when no user has it |
| Auth.Register | src/controlers/auth.ts:6-31 | 400 exactly when email or password is falsy; 409 exactly when the email is taken, leaving the table unchanged; else 201 and exactly one user appended with the hashed password, the derived username and isVerified true |
| Auth.RegisterKeepsValid | src/controlers/auth.ts:12-28 | registration keeps emails and ids unique |
| Auth.Login | src/controlers/auth.ts:33-55 | 400 exactly on missing fields; 401 "Invalid credentials" exactly when no user of that email accepts the password; 403 only for a matched but unverified user; 200 with a token for the user's id only for a matched verified user |
| Auth.UnknownEmailAndWrongPasswordLookAlike | src/controlers/auth.ts:40-47 | an unknown email and a wrong password get identical replies |
| Auth.RegisteredUserCanLogIn | src/controlers/auth.ts:26 | right after registering, login with the same credentials succeeds with a token for the new id |
| Auth.Me | src/controlers/auth.ts:57-61 | always 200; the user's email and username when a user has the id, null exactly when none does |
| AuthStore.UserStore.Register | src/controlers/auth.ts:6-31 | status, message and new table are those of `Auth.Register` on the old table; uniqueness preserved |
| AuthMiddleware.BearerToken | src/middlewares/auth.ts:26-31 | an accepted header is exactly "Bearer " followed by the space-free token |
| AuthMiddleware.BearerTokenOfWellFormed | src/middlewares/auth.ts:26-31 | every "Bearer " + space-free token is accepted with that token |
| AuthMiddleware.BearerTokenExactly | src/middlewares/auth.ts:26-31 | a header is accepted if and only if it starts with "Bearer " and the rest has no space; the token is that rest |
| AuthMiddleware.Authenticate | src/middlewares/auth.ts:15-40 | unprotected paths pass without a user; otherwise 401 "Authorization header missing" exactly for a falsy header, 401 "Invalid authorization format" exactly for a malformed one, 401 "Invalid or expired token" exactly when verification fails, and a pass carries the verified user id |
| AuthMiddleware.UnprotectedRouteIgnoresHeader | src/core/utils.ts:18-24 | on the five unprotected routes neither header nor verifier matters |
| AuthMiddleware.WellFormedHeaderIsAccepted | src/middlewares/auth.ts:31-36 | a well-formed header whose token verifies passes as the token's user |
| AuthMiddleware.OnlyTheTokenIsVerified | src/middlewares/auth.ts:31-34 | only the second header piece reaches the verifier |
| AuthMiddleware.MalformedHeaderIsRefused | src/middlewares/auth.ts:27-29 | on a protected route, every header not of the form "Bearer " + space-free token is 401 "Invalid authorization format" |
| AuthMiddleware.SchemeIsCaseSensitive | src/middlewares/auth.ts:27 | "bearer <token>" is malformed |
| AuthMiddleware.SpaceInTokenIsRefused | src/middlewares/auth.ts:26-27 | a header with a second space is malformed |
| AuthMiddleware.EmptyTokenIsPassedOn | src/middlewares/auth.ts:26-34 | "Bearer " passes the format check and the empty token goes to the verifier |
| AuthMiddleware.JwtValidator | src/middlewares/auth.ts:15-40 | decides as `Authenticate`; writes the verified user id into the request exactly when it passes with one, otherwise leaves it |

## Left out

- HTTP wiring is not modelled: routes, Express, JSON bodies and the message texts of the finance controller. Statuses are the `Finance.Status` values, each commented with its HTTP code. The finance router is never mounted (`src/routes/index.ts`), which the model ignores.
- Persistence is modelled as in-memory tables, not the Prisma client. The database schema is not part of this model; the model assumes these relations:
  - `DeleteUserAccount` assumes that the schema cascades the delete to the account's categories and transactions.
  - A transaction's `categoryId` is a foreign key on an optional relation with Prisma's default actions. A write naming a missing category is refused, and deleting a category sets the references to it to null (`DeleteAccountCategory`, and the cascade of `DeleteUserAccount`). A schema declaring `Restrict` instead would make those deletes fail; that variant is not modelled.
- `Finance.UpdateTransaction`: when the foreign key refuses the write, the model records only that no response is sent and nothing is written (`Unanswered`). What follows the thrown error is not modelled: a request left hanging, an error response from a later Express version, or the process exit that Node's default handling of an unhandled rejection causes.
- Each handler runs as one sequential step, without concurrency. The model does not capture the read-modify-write race on `balance`, or a failure between the row write and the balance write.
- Password hashing, hash comparison, and JWT signing and verification are parameters. Token expiry, the secret and the payload format are not modelled.
- `sendEmail` (SMTP, templates, file I/O) is not part of this model.
- `verifyEmail` and `resendVerification` are referenced by the auth router but do not exist in the controller, so there is nothing to model.
- The members of the `Currency` enum are not part of this model. `Store` takes the supported set as a constant.
- The currency check differs between handlers. Create tests the enum's keys (`Currency.hasOwnProperty`, finance.ts:99) and update tests its values (finance.ts:167). A Prisma enum maps each member to its own name, so both are modelled as membership in the one `currencies` set.
- A request body field is either absent or a value of the expected type. JSON `null`, and numbers or ids sent as strings, are not modelled.
- Read handlers model which rows they return. Field selection, the `take: 50` limit, and ordering are not modelled: transactions by creation date descending, categories by name.
- Users are identified by a natural-number id rather than a uuid string, and `jwt.verify`'s payload is modelled as that id.
- `Finance.DeleteAccount`: its contract states, one direction each, that the surviving accounts are among the old ones and that every other account survives. Their equivalence with "the old accounts minus this id" needs unique keys; the invariant `Consistent` supplies those, and `DeleteAccountKeepsConsistent` uses them.
- `FinanceStore.Store.GetUserAccount`: it returns all of the account's transactions, not the latest fifty, because ordering by creation time is not modelled.
- `AuthMiddleware.JwtValidator`: the `next` callback and the response object are represented by the returned `Verdict`.
- `src/core/types.ts` holds type declarations that disagree with the code. The field sets come from the controller instead.
