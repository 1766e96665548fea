# Sweet Shop inventory service — a Dafny model

This project models the core of the Sweet Shop Management System, a small inventory service.
Users register and log in and receive bearer tokens. The first account, and any account
registered with the admin key, is an admin. Signed-in users list, search, add, edit and buy
sweets. Only admins delete or restock them.

What is modelled, file by file:

- `models.dfy` (module `Models`, from models.py): the request and response schemas as
  datatypes. The all-optional `SweetUpdate` patch uses `Option` fields. The defaults are
  written out: `admin_key` is `None` when omitted and `token_type` is `"bearer"`.
- `inventory.dfy` (module `Inventory`, from database.py): the rules of the `sweets` table,
  stated on values. This covers what a listing in ascending id order is, and which rows a
  search keeps. It also covers what a partial update writes and how `purchase_sweet` and
  `restock_sweet` change a row. Lemmas about these definitions include:
  - a table has exactly one ordered listing;
  - restock followed by purchase restores the stock;
  - two purchases in a row succeed only while stock remains;
  - no sequence of purchases and non-negative restocks ever drives stock below zero;
  - on stored stock, only a negative purchase amount can push a quantity past the 64-bit range.
- `database.dfy` (module `Database`, from database.py): the store as a class `Store`. It holds
  the `users` and `sweets` tables as maps, plus the two AUTOINCREMENT counters. There is one
  method per data-access function. Each method states the new table contents and what stayed
  the same. A method either returns its value or raises one of the exceptions the sqlite3
  driver raises there, and a raising call writes nothing. The listing and search methods scan ids
  in order and are proved to return the ordered listing.
- `access.dfy` (module `Access`, from main.py): the admin designation rule and the access gate
  (`get_current_user`, `get_admin_user`). Both are pure functions over the outcome of token
  verification and the `users` table.
- `endpoints.dfy` (module `Endpoints`, from main.py): the HTTP handlers as methods over a
  `Store`. Each one returns a status code and a body, and fixes the order of its checks.
  Authentication comes first, then the admin check, then existence (404), then stock (400).
- `scenarios.dfy` (module `Scenarios`): client request sequences checked against the handler
  contracts alone. They cover the order of registrations and a duplicate registration. They
  also cover a stock of ten units bought seven and then five at a time, and a delete attempted
  by a non-admin and then by an admin. Finally they cover an empty update and a restock that
  overflows 64 bits.

Purchase and restock amounts are meant to be positive, but the code does not enforce this.
Where the code departs from such an intended rule, the model follows the code:

- The purchase and restock handlers take any integer amount. Neither the schema nor the
  handler rejects zero or a negative amount. A negative purchase raises stock
  (`Inventory.NegativePurchaseRaisesStock`). A negative restock can make stock negative
  (`Inventory.NegativeRestockCanOverdraw`).
- Stock is only guaranteed to stay non-negative under purchases and non-negative restocks
  (`Inventory.LedgerKeepsStockNonNegative`). Creating an item or updating its quantity stores
  whatever value is given.
- The update handler answers 200 with the unchanged item when the patch is empty, although
  `update_sweet` reports false.
- The search treats an empty category like an absent one, because both filters test Python
  truthiness. Price bounds apply whenever they are present, zero included.
- Request integers are unbounded, but SQLite's INTEGER is 64 bits wide. The driver raises
  `OverflowError` when it binds an integer outside that range, and no handler catches it, so
  the reply is 500 and nothing is written. This happens for a path id, a created or updated
  quantity, or a new stock after a purchase or restock that leaves the range.

## Model

| member | source | states |
|---|---|---|
| `Models.RegisterWithoutKey` | models.py:5-8 | a registration body that omits `admin_key` carries `None` there |
| `Models.BearerToken` | models.py:14-16 | a token reply carries the given token, and its type defaults to "bearer" |
| `Models.NoChanges` | models.py:25-29 | an update body with every field omitted sets no field |
| `Inventory.OrderedListingUnique` | database.py:77-84 | two listings of one table in ascending id order are equal, so a listing or search result is determined by the table |
| `Inventory.SearchWithoutFiltersListsAll` | database.py:142-168 | a search whose name and category are absent or empty and with no price bounds returns exactly the full ordered listing |
| `Inventory.ZeroPriceBoundApplies` | database.py:157-162 | a minimum or maximum price of 0 still filters, inclusively |
| `Inventory.PatchedFields` | database.py:108-130 | an update writes every supplied field, keeps every other one, never touches id or created_at, and applying it twice equals applying it once |
| `Inventory.EmptyPatchIsIdentity` | database.py:108-123 | a patch with no field leaves the row unchanged |
| `Inventory.PurchaseOutcome` | database.py:170-189 | a purchase that passes the stock check and whose new quantity fits in 64 bits writes `current - q` (never negative) to that row's quantity only; a refused or raising one changes nothing; no row appears or disappears, and stored quantities keep fitting in 64 bits |
| `Inventory.RestockOutcome` | database.py:191-206 | a restock adds exactly q to an existing row's quantity when the sum fits in 64 bits and changes nothing else; when the sum does not fit it changes nothing at all |
| `Inventory.RestockThenPurchaseRestores` | database.py:170-206 | restocking q and then buying q of an item with non-negative stock succeeds and restores the table when the restocked amount fits in 64 bits; otherwise the restock changes nothing |
| `Inventory.SuccessivePurchases` | database.py:180-186 | after a purchase of q1 has gone through, buying q2 passes the stock check iff q2 is at most the stock minus q1, and when it fits it leaves stock minus q1 minus q2 |
| `Inventory.DeletedItemIsOutOfReach` | database.py:174-178 | after a delete, purchase is refused and restock changes nothing for that id |
| `Inventory.NegativePurchaseRaisesStock` | database.py:180-186 | a purchase of a negative amount always passes the stock check; it raises the stock, unless the new quantity leaves the 64-bit range, in which case it changes nothing |
| `Inventory.NegativeRestockCanOverdraw` | database.py:201-203 | a restock of a negative amount larger than the stock, with a sum still inside the 64-bit range, leaves a negative quantity |
| `Inventory.PurchaseOverflowNeedsNegativeAmount` | database.py:180-186 | on stock that fits in 64 bits, a purchase that passes the stock check overflows exactly when `current - q` exceeds the largest INTEGER, which takes a negative amount |
| `Inventory.LedgerKeepsStockNonNegative` | database.py:170-206 | any sequence of purchases and non-negative restocks, applied one by one, keeps every quantity non-negative |
| `Database.Store.constructor` | database.py:14-43 | the initialised store has empty `users` and `sweets` tables and both id counters at 1 |
| `Database.Store.GetUserByUsername` | database.py:46-53 | returns the stored row for that username, or `None` when there is none; a stored `is_admin` is 0 or 1 |
| `Database.Store.CreateUser` | database.py:55-66 | inserts the user under a fresh id with the given hash and `is_admin` stored as 1 or 0, and returns that id; a taken username raises `IntegrityError` (UNIQUE) and an exhausted id range raises `DatabaseFull`, both writing nothing |
| `Database.Store.CreateSweet` | database.py:86-97 | inserts exactly the given name, category, price and quantity under an id greater than every id so far, and leaves every other row unchanged; a quantity outside 64 bits raises `OverflowError` and an exhausted id range `DatabaseFull`, both writing nothing |
| `Database.Store.GetSweetById` | database.py:68-75 | returns the row stored under that id, or `None` when there is none; an id outside 64 bits raises `OverflowError` |
| `Database.Store.GetAllSweets` | database.py:77-84 | returns every row once, in strictly ascending id order |
| `Database.Store.SearchSweets` | database.py:142-168 | returns exactly the rows that pass every supplied filter (name substring, category equality, inclusive price bounds), in ascending id order |
| `Database.Store.UpdateSweet` | database.py:99-130 | returns false and writes nothing when no field is supplied; otherwise an id or quantity outside 64 bits raises `OverflowError` with nothing written, and else it overwrites only the supplied fields of that row and returns true iff the row exists |
| `Database.Store.DeleteSweet` | database.py:132-140 | returns true iff the id existed, and raises `OverflowError` for an id outside 64 bits; afterwards the id is absent and every other row is unchanged |
| `Database.Store.PurchaseSweet` | database.py:170-189 | returns true iff the row exists and holds at least the requested amount; then the quantity becomes `current - quantity` (not negative); an id or new quantity outside 64 bits raises `OverflowError`; any outcome but true leaves the store untouched |
| `Database.Store.RestockSweet` | database.py:191-206 | returns true iff the row exists; then the quantity becomes `current + quantity` and nothing else changes; an id or new quantity outside 64 bits raises `OverflowError` and writes nothing |
| `Access.IsAdminDesignation` | main.py:116-125 | a new account is admin iff no account exists yet or the submitted key equals "aswd" exactly |
| `Access.CliKeyAgreesWithApi` | main.py:503-523 | the terminal's empty key grants what an omitted key grants, and any key other than "aswd" grants admin only to the first account |
| `Access.GetCurrentUser` | main.py:36-56 | an unverifiable token gives 401 before any lookup; an unknown subject gives 401; otherwise the identity is the stored user's id, username and is_admin |
| `Access.GetAdminUser` | main.py:59-66 | passes an admin through, turns a signed-in non-admin into 403, and keeps a 401 unchanged |
| `Access.AdminClaimIsIgnored` | main.py:45-56 | the gate's answer does not depend on the admin claim inside the token |
| `Access.AdminGateDecision` | main.py:36-66 | the admin gate passes iff the token verifies, names a stored user and that user's stored flag is set; a bad token or user gives 401, a missing privilege 403 |
| `Endpoints.Register` | main.py:106-132 | a taken username gives 400 and creates no user; otherwise the user is stored with the admin bit of the designation rule and a token with that bit is returned (500 with no change only once every 64-bit id is used); the first user is admin, and once anyone has registered some admin exists |
| `Endpoints.Login` | main.py:134-147 | every failed authentication gives the same 401 "Incorrect username or password"; a success returns a bearer token for the submitted username with the stored admin bit |
| `Endpoints.AddSweet` | main.py:151-156 | a signed-in user's item is stored under the next id, that counter advances by one, and the item is returned with 201; a quantity outside 64 bits or an exhausted id range gives 500; a refused token or a 500 changes nothing; the users and their id counter never change |
| `Endpoints.GetSweets` | main.py:158-162 | a signed-in user gets every item in ascending id order |
| `Endpoints.SearchSweetsEndpoint` | main.py:164-174 | a signed-in user gets exactly the matching items in ascending id order |
| `Endpoints.UpdateSweetEndpoint` | main.py:176-197 | an id outside 64 bits gives 500 and a missing item 404, both with no change; a new quantity outside 64 bits gives 500 with no change; otherwise the supplied fields are replaced, the rest kept, and the item is returned with 200, also for an empty patch; users and both id counters never change |
| `Endpoints.DeleteSweetEndpoint` | main.py:199-208 | 401 or 403 come before the existence check and change nothing; then an id outside 64 bits gives 500 and a missing item 404; otherwise the row is removed and 204 returned; users and both id counters never change |
| `Endpoints.PurchaseSweetEndpoint` | main.py:212-233 | an id outside 64 bits gives 500, a missing item 404 and short stock 400, all with no change; a new quantity outside 64 bits gives 500 with no change; otherwise stock drops by exactly the amount, stays non-negative, and the item is returned; users and both id counters never change |
| `Endpoints.RestockSweetEndpoint` | main.py:235-251 | 401 or 403 come first and change nothing; then an id outside 64 bits gives 500 and a missing item 404; a new quantity outside 64 bits gives 500 with no change; otherwise stock rises by exactly the amount and the item is returned; users and both id counters never change |

## Left out

- Password hashing, token signing and token verification: auth.py (`hash_password`, `create_access_token`, `verify_token`, `authenticate_user`) is not part of this model. The handlers receive the result of `verify_token`, the computed hash and a signing function as parameters, and a token's expiry is not modelled.
- Endpoints.Login: models only the control flow after `authenticate_user` has answered. Whether an unknown user and a wrong password both produce that single failure is up to auth.py, which is not part of this model.
- SQLite plumbing (connections, commit, close): the tables are in-memory maps. A statement that raises writes nothing, and no commit follows it. The user count at registration is the size of the `users` map.
- Concurrency: every store method and every handler runs atomically, one after another. The unguarded count-then-insert of registration and the read-check-write of purchase and restock are therefore not modelled as races. The background server thread is also out of scope.
- Floating point: prices are exact `real` numbers, so rounding in comparisons is not captured. A NaN price, which SQLite binds as NULL so that the `NOT NULL` price column makes the insert or update fail with 500, is not captured either.
- SQLite `LIKE`: the name filter is plain, case-sensitive substring containment. ASCII case folding and `%` or `_` acting as wildcards inside the search term are not modelled.
- Timestamps: `created_at` is a string passed in by the caller and written once at insert.
- The `users` table is keyed by username, since usernames are UNIQUE. Its integer id is kept as a column with distinct values.
- The terminal menus (`display_sweets`, `sweet_management_menu`, `cli_interface`) are interactive I/O loops. Only their admin-key rule is modelled, via `Access.CliKeyAgreesWithApi`. Their input guards (positive amounts, non-negative price and quantity, non-empty username and password) are not modelled.
- The Streamlit frontend, CORS setup and the constant `root` and `api_info` endpoints are not modelled.
- Request validation by the web framework is not modelled. This covers 422 replies for malformed bodies and the framework's own reply when the Authorization header is missing. `SearchParams` is declared as a datatype, while the search handler takes its four query parameters separately, as the source does.
