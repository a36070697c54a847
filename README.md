# Inventory and account store of the Flask shop

This project models the store behind a small Flask shop:

- **Users.** Accounts with a unique username and a unique email. Registration goes through two duplicate checks: the route's own query, then a `before_insert` hook on the user table. Login and logout open and close a session.
- **Products.** Each product has a stock count; a product added through the shop starts at 10. A restock adds units. An order removes units only when enough are left.
- **Orders.** An order is recorded together with its stock reduction, or not at all. A user can list their own orders.

Every request handler is one atomic step on an in-memory store (`Routes.Store`). That store holds:

- the user, product and order tables as sequences, in insertion order;
- the session of the one client making requests.

Row ids are assigned 1, 2, 3, … as the database does, and nothing is ever deleted. So the row with id `k` sits at index `k - 1`. Products are `Models.Product` objects whose `stock` field `restock` and `reduce_stock` update in place.

The store's invariant `Routes.Store.Valid` is preserved by every handler. It says:

- user ids follow the row order, and usernames and emails are pairwise distinct;
- every product's stock is non-negative;
- every order names a registered user, an existing product and a quantity of at least 1;
- every product's stock plus the units ordered of it equals 10 plus the units it has been restocked by, so no stock is ever lost or gained without an order or a restock;
- a logged-in session names a registered user.

Two behaviours of the code worth knowing:

- **Collisions on registration.** The route check looks up one user whose username or email matches. It reports only the fields of *that* user that collide. A username taken by one user and an email taken by another therefore yield a single user's errors, never both (`Routes.LaterCollisionUnreported`, where the model takes the earliest-inserted match).
- **Form validation.** Each handler validates its form after its session and product checks. `DataRequired` tests the submitted value for truth, so a price of 0 is refused, not just a negative one (`Forms.ProductPriceIsPositive`). The order form's product field only offers products with some stock left. So an order for a missing or sold-out product is refused by the form (`FormRejected`), not by the "not enough stock" path. Either way nothing changes.

The password hash and the password check (werkzeug) are foreign one-way functions. They are parameters of `Register` (`hash`) and `Login` (`checkPassword`).

Files:

- `wrappers.dfy`: `Option`.
- `queries.dfy`: `FirstWhere`, the `query.filter(p).first()` lookup.
- `models.dfy`: the records, the `Product` class with its stock operations, stock operations as values, and the duplicate-account hook.
- `forms.dfy`: what each form accepts.
- `routes.dfy`: the handlers, the store and its invariants.

## Model

| member | source | states |
|---|---|---|
| Queries.FirstWhere | app/routes.py:33-38 | `first()` read as the earliest-inserted match: the result is the index of the first row satisfying the filter, or nothing exactly when no row satisfies it |
| Models.Product.constructor | app/models.py:28-32 | A new product keeps its id, name and price, and its stock takes the column default 10 |
| Models.Product.Restock | app/models.py:35-36 | Stock grows by exactly `amount`; no other field changes |
| Models.Product.ReduceStock | app/models.py:38-42 | Returns true iff the old stock was at least `amount`. On success stock drops by exactly `amount`; on failure it is unchanged |
| Models.ReduceKeepsNonNegative | app/models.py:39-40 | For any integer amount, a reduction keeps a non-negative stock non-negative and never raises it unless the amount is negative |
| Models.RunKeepsNonNegative | app/models.py:35-42 | Stock that starts non-negative stays non-negative across any sequence of restocks (amount at least 1) and reductions |
| Models.RunConcat | app/models.py:35-42 | Running two sequences of stock operations one after the other is running their concatenation |
| Models.RestockCommutesWithCoveredReduce | app/models.py:35-42 | A restock and a reduction that succeeds either way give the same final stock in either order |
| Models.OrderThenOversizedOrder | app/models.py:38-42 | From 10 units, taking 3 leaves 7; a following request for 8 is refused and 7 remain |
| Models.SecondOverlappingReduceRefused | app/models.py:38-42 | Of two requests for 8 units on a stock of 10, the second is refused and 2 remain |
| Models.CheckDuplicateUser | app/models.py:21-26 | The hook accepts iff no existing user shares the username or the email. It rejects for the username iff one shares it, and for the email iff none shares the username but one shares the email |
| Models.HookGuardsUniqueness | app/models.py:9-26 | Over a table with unique usernames and emails, appending a user keeps both unique iff the hook accepts that user |
| Forms.ProductPriceIsPositive | app/forms.py:16-19 | The product form accepts a price iff it is strictly positive and a name is given |
| Models.UniqueAccounts | app/models.py:9-10 | No two users share a username, and no two share an email: the two unique columns |
| Forms.Present | app/forms.py:6 | `DataRequired` on a text field: accepts a string with at least one character that `str.strip` would not remove |
| Forms.RegistrationFormValid | app/forms.py:5-9 | Accepts when username, email and password are all present |
| Forms.LoginFormValid | app/forms.py:11-14 | Accepts when email and password are both present |
| Forms.ProductFormValid | app/forms.py:16-19 | Accepts a present name and a price that is non-zero and at least 0 |
| Forms.OrderFormValid | app/forms.py:21-24 | Accepts a non-zero product id among the offered choices and a non-zero quantity of at least 1 |
| Forms.RestockFormValid | app/forms.py:26-28 | Accepts a non-zero amount of at least 1 |
| Routes.Available | app/routes.py:111-112 | The ids of the products with stock above 0: the order form's choices |
| Routes.DuplicateCheck | app/routes.py:33-44 | No errors iff no user shares the username or the email. Otherwise at least one error, and the errors are exactly which fields of the first colliding user match |
| Routes.DuplicateCheckSound | app/routes.py:40-44 | A reported username or email error names a value some existing user really has |
| Routes.DuplicateCheckAgreesWithHook | app/routes.py:33-51 | The route check finds no collision iff the insert hook accepts the new user |
| Routes.LaterCollisionUnreported | app/routes.py:40-44 | With alice/a@ and bob/b@ registered, registering bob/a@ reports only the email error, while the hook would reject for the username |
| Routes.OrdersOf | app/routes.py:145 | The listed orders all belong to the given user and are no more than all orders |
| Routes.OrdersOfMembership | app/routes.py:145 | An order is listed for a user iff it is in the order table and carries that user's id |
| Routes.OrdersOfConcat | app/routes.py:145 | Listing distributes over concatenation of order tables, so the placing order is kept |
| Routes.OrdersOfAfterOrder | app/routes.py:117-123 | A new order appears last in its own user's list and leaves every other user's list unchanged |
| Routes.OrderedUnitsAppend | app/routes.py:117-123 | Appending an order adds its quantity to its own product's ordered total and to no other |
| Routes.OrderedUnitsUnordered | app/routes.py:99-101 | A product that no order names has no units ordered |
| Routes.AvailableMembership | app/routes.py:111 | A product is offered on the order form iff it exists and its stock is positive |
| Routes.OrderableIsAvailable | app/routes.py:111-116 | Any product with at least the ordered quantity (1 or more) in stock is among the offered ones |
| Routes.LedgerAddProduct | app/routes.py:99-101 | A new product with default stock and nothing restocked keeps the store's table invariant |
| Routes.LedgerPlaceOrder | app/routes.py:115-123 | Reducing a product's stock by a covered quantity, together with appending the matching order, keeps the table invariant and stock conservation |
| Routes.LedgerRestock | app/routes.py:133-137 | Restocking an existing product by a positive amount, with that amount recorded as restocked, keeps the table invariant |
| Routes.LedgerMoreUsers | app/routes.py:48-51 | Registering more users keeps the table invariant |
| Routes.Store.RequireLogin | app/routes.py:8-15 | Yields a user id iff the session holds one, and that id names a registered user |
| Routes.Store.InsertUser | app/routes.py:48-51 | The user row is inserted iff the `before_insert` hook accepts it; otherwise the table is unchanged. The invariant, including uniqueness, is kept |
| Routes.Store.Register | app/routes.py:23-64 | Refused without change while logged in, or when the form is invalid. On a collision, returns the route check's per-field errors and adds no user. Otherwise appends exactly one user with the next id, the given username and email, and the hashed password |
| Routes.Store.Login | app/routes.py:66-80 | Refused without change while logged in. An invalid form leaves the session empty. Otherwise the session is set iff a user with that email exists whose stored hash checks against the password, and it then names that user by id and username |
| Routes.Store.Logout | app/routes.py:82-86 | The session is empty afterwards |
| Routes.Store.InsertProduct | app/routes.py:99-101 | Appends the product row with the next id and default stock, keeping the invariant |
| Routes.Store.AddProduct | app/routes.py:94-104 | Logged out: redirect, no change. An invalid form: no change. Otherwise exactly one fresh product with the given name and price, the next id and stock 10 is appended |
| Routes.Store.ReduceStockAndRecord | app/routes.py:115-123 | The product's stock falls by the quantity and exactly one order with the next id, user, product and quantity is appended iff the stock covered the quantity. Otherwise neither table changes |
| Routes.Store.PlaceOrder | app/routes.py:106-128 | Logged out: redirect, no change. A product not offered or a quantity below 1: form refused, no change. Otherwise, with enough stock, only that product's stock drops by the quantity and exactly one order for the session user is appended. Without enough stock nothing changes |
| Routes.Store.RestockRow | app/routes.py:133-137 | Only the given product's stock grows, by exactly the amount |
| Routes.Store.RestockProduct | app/routes.py:130-140 | A negative id: not found, since the route pattern does not match it. Logged out: redirect. Unknown product: not found. An amount below 1: form refused. In all three no stock changes. Otherwise only that product's stock grows by the amount |
| Routes.Store.ViewOrders | app/routes.py:142-146 | Logged out: redirect. Otherwise exactly the session user's orders, in placing order |

## Left out

- Page rendering, `flash` messages, `redirect`/`url_for` targets and templates. A handler's result is the `Routes.Response` it ends with. The read-only `index` and `products` pages are not modelled.
- GET requests, which only display a form. The handlers model a POST submission.
- The `Email()` validator. It relies on a library check whose rules are not part of this model, so any present email is accepted.
- `DataRequired` on text: only the ASCII whitespace `str.strip` removes counts as blank. The non-ASCII whitespace it also removes is not modelled.
- `first()` without `order_by`: the model takes the lowest id. The database does not promise this, so when two users collide, the code does not fix which one's errors are shown.
- Password hashing and checking (werkzeug). They are the parameters `hash` and `checkPassword`.
- SQLAlchemy sessions, commit and rollback. Each handler is one atomic step, so a failed insert simply leaves the table as it was.
- Routes.Store.Register: the `IntegrityError` and generic-exception handlers are not modelled as separate paths. In a single-threaded store the route check already excludes every collision the hook or a unique column would catch, so the `RegistrationFailed` outcome cannot arise.
- Concurrent requests, and the check-then-act race between two registrations or two orders. The model is single-threaded.
- `price` is a `real`. The source's floating point is not modelled; the price is only stored.
- The label strings of the order form's choices. Only the set of offered product ids is modelled.
- The database's 64-bit integer limits on ids, stock and quantities. Integers here are unbounded.
- Application setup, migrations and the seed command of app/__init__.py are not part of this model.
