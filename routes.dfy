/**
 * The request handlers of app/routes.py, each one atomic step on an in-memory
 * store: the user table, the product table, the order table and the session of
 * the one client making requests.
 */
module Routes {
  import opened Wrappers
  import opened Queries
  import opened Models
  import opened Forms

  /** What the session cookie carries once a user has logged in. */
  datatype SessionData = SessionData(userId: int, username: string)

  /** The per-field errors the registration form shows for a duplicate account. */
  datatype FieldErrors = FieldErrors(usernameTaken: bool, emailTaken: bool)

  /** The outcome of a handler: the redirect or page it ends with, and its message. */
  datatype Response =
    | RedirectToLogin               // refused by `login_required`
    | AlreadyLoggedIn               // register or login while a user is in the session
    | FormRejected                  // the submitted form failed validation and is shown again
    | Duplicate(errors: FieldErrors)
    | Registered(userId: int)
    | RegistrationFailed            // the insert was rolled back
    | LoggedIn(userId: int)
    | InvalidCredentials
    | LoggedOut
    | ProductAdded(productId: int)
    | OrderPlaced(orderId: int)
    | NotEnoughStock                // fewer units in stock than ordered
    | Restocked
    | NotFound
    | OrderList(orders: seq<Order>)

  // ---------------------------------------------------------------------------
  // Read-only queries used by the handlers.

  /**
   * The registration route's own duplicate check: it takes the first user whose
   * username or email equals the input and reports which of THAT user's fields
   * collide.
   */
  function DuplicateCheck(users: seq<User>, username: string, email: string): (r: Option<FieldErrors>)
    ensures r.None? <==>
      forall i :: 0 <= i < |users| ==> users[i].username != username && users[i].email != email
    ensures r.Some? ==> r.value.usernameTaken || r.value.emailTaken
    ensures r.Some? ==>
      exists i :: 0 <= i < |users| &&
        (forall j :: 0 <= j < i ==> users[j].username != username && users[j].email != email) &&
        r.value == FieldErrors(users[i].username == username, users[i].email == email)
  {
    match FirstWhere(users, (u: User) => u.username == username || u.email == email)
    case None => None
    case Some(i) => Some(FieldErrors(users[i].username == username, users[i].email == email))
  }

  /** Every error the route check reports names a field some existing user really has. */
  lemma DuplicateCheckSound(users: seq<User>, username: string, email: string)
    requires DuplicateCheck(users, username, email).Some?
    ensures DuplicateCheck(users, username, email).value.usernameTaken ==>
      exists i :: 0 <= i < |users| && users[i].username == username
    ensures DuplicateCheck(users, username, email).value.emailTaken ==>
      exists i :: 0 <= i < |users| && users[i].email == email
  {
  }

  /** The route check and the insert hook agree on whether a registration collides. */
  lemma DuplicateCheckAgreesWithHook(users: seq<User>, user: User)
    ensures DuplicateCheck(users, user.username, user.email).None? <==>
      CheckDuplicateUser(users, user) == Accept
  {
  }

  /**
   * The route check reports only the first colliding user's fields: when the
   * username belongs to a later user than the email, the username goes unreported.
   */
  lemma LaterCollisionUnreported()
    ensures
      var users := [User(1, "alice", "a@example.com", "h1"), User(2, "bob", "b@example.com", "h2")];
      && DuplicateCheck(users, "bob", "a@example.com") == Some(FieldErrors(false, true))
      && CheckDuplicateUser(users, User(3, "bob", "a@example.com", "h3")) == Reject(UsernameExists)
  {
    var users := [User(1, "alice", "a@example.com", "h1"), User(2, "bob", "b@example.com", "h2")];
    assert users[0].email == "a@example.com";
    assert users[1].username == "bob";
  }

  /** The orders of one user, in the order they were placed. */
  function OrdersOf(orders: seq<Order>, userId: int): (r: seq<Order>)
    ensures |r| <= |orders|
    ensures forall i :: 0 <= i < |r| ==> r[i].userId == userId
  {
    if orders == [] then []
    else (if orders[0].userId == userId then [orders[0]] else []) + OrdersOf(orders[1..], userId)
  }

  /** An order is listed for a user exactly when it is one of theirs. */
  lemma {:induction false} OrdersOfMembership(orders: seq<Order>, userId: int, o: Order)
    ensures o in OrdersOf(orders, userId) <==> o in orders && o.userId == userId
  {
    if orders != [] {
      OrdersOfMembership(orders[1..], userId, o);
      assert orders == [orders[0]] + orders[1..];
    }
  }

  /** Listing distributes over concatenation, so the placing order is kept. */
  lemma {:induction false} OrdersOfConcat(a: seq<Order>, b: seq<Order>, userId: int)
    ensures OrdersOf(a + b, userId) == OrdersOf(a, userId) + OrdersOf(b, userId)
  {
    if a == [] {
      assert a + b == b;
    } else {
      assert (a + b)[0] == a[0];
      assert (a + b)[1..] == a[1..] + b;
      OrdersOfConcat(a[1..], b, userId);
    }
  }

  /**
   * A new order shows up last in its own user's list and leaves every other
   * user's list as it was.
   */
  lemma OrdersOfAfterOrder(orders: seq<Order>, o: Order, userId: int)
    ensures userId == o.userId ==> OrdersOf(orders + [o], userId) == OrdersOf(orders, userId) + [o]
    ensures userId != o.userId ==> OrdersOf(orders + [o], userId) == OrdersOf(orders, userId)
  {
    OrdersOfConcat(orders, [o], userId);
    assert [o][1..] == [];
  }

  /** Total units ordered of one product. */
  function OrderedUnits(orders: seq<Order>, productId: int): int
  {
    if orders == [] then 0
    else
      (if orders[0].productId == productId then orders[0].quantity else 0)
      + OrderedUnits(orders[1..], productId)
  }

  /** Appending an order adds its quantity to its own product's total and no other. */
  lemma {:induction false} OrderedUnitsAppend(orders: seq<Order>, o: Order, productId: int)
    ensures OrderedUnits(orders + [o], productId) ==
      OrderedUnits(orders, productId) + (if o.productId == productId then o.quantity else 0)
  {
    if orders == [] {
      assert orders + [o] == [o];
      assert [o][1..] == [];
    } else {
      assert (orders + [o])[0] == orders[0];
      assert (orders + [o])[1..] == orders[1..] + [o];
      OrderedUnitsAppend(orders[1..], o, productId);
    }
  }

  /** A product nobody has ordered has no units ordered. */
  lemma {:induction false} OrderedUnitsUnordered(orders: seq<Order>, productId: int)
    requires forall i :: 0 <= i < |orders| ==> orders[i].productId != productId
    ensures OrderedUnits(orders, productId) == 0
  {
    if orders != [] {
      assert forall i :: 0 <= i < |orders[1..]| ==> orders[1..][i] == orders[i + 1];
      OrderedUnitsUnordered(orders[1..], productId);
    }
  }

  /**
   * The products offered on the order form: the ids of those with some stock left,
   * where `stocks[k - 1]` is the stock of product `k`.
   */
  function Available(stocks: seq<int>): set<int>
  {
    set i | 0 <= i < |stocks| && stocks[i] > 0 :: i + 1
  }

  /** A product is offered exactly when it exists and has some stock left. */
  lemma AvailableMembership(stocks: seq<int>, productId: int)
    ensures productId in Available(stocks) <==> 1 <= productId <= |stocks| && stocks[productId - 1] > 0
  {
    if 1 <= productId <= |stocks| && stocks[productId - 1] > 0 {
      assert productId == (productId - 1) + 1;
    }
  }

  /** Any product an order can succeed on (quantity at least 1) is on the offered list. */
  lemma OrderableIsAvailable(stocks: seq<int>, productId: int, quantity: int)
    requires quantity >= 1 && 1 <= productId <= |stocks| && stocks[productId - 1] >= quantity
    ensures productId in Available(stocks)
  {
  }

  // ---------------------------------------------------------------------------
  // The invariants of the tables.

  /** User ids are assigned 1, 2, 3, ... and the unique columns hold. */
  ghost predicate AccountsValid(users: seq<User>)
  {
    && (forall i :: 0 <= i < |users| ==> users[i].id == i + 1)
    && UniqueAccounts(users)
  }

  /**
   * The product and order tables agree (`stocks[k - 1]` and `restocked[k - 1]` are the
   * stock of product `k` and the units it has been restocked by): stock is never
   * negative, every order names a registered user and an existing product, and each
   * product's stock plus the units ordered of it is its default stock plus what it
   * has been restocked by (a stock reduction never happens without its order).
   */
  ghost predicate LedgerValid(stocks: seq<int>, restocked: seq<int>, orders: seq<Order>, userCount: int)
  {
    && |restocked| == |stocks|
    && (forall i :: 0 <= i < |stocks| ==> stocks[i] >= 0 && restocked[i] >= 0)
    && (forall k {:trigger OrderedUnits(orders, k)} :: 1 <= k <= |stocks| ==>
          stocks[k - 1] + OrderedUnits(orders, k) == DEFAULT_STOCK + restocked[k - 1])
    && (forall i :: 0 <= i < |orders| ==>
          && orders[i].id == i + 1
          && 1 <= orders[i].userId <= userCount
          && 1 <= orders[i].productId <= |stocks|
          && orders[i].quantity >= 1)
  }

  /** A logged-in session names a registered user by id and username. */
  ghost predicate SessionValid(users: seq<User>, session: Option<SessionData>)
  {
    session.Some? ==>
      1 <= session.value.userId <= |users| &&
      users[session.value.userId - 1].username == session.value.username
  }

  /** A new product with the default stock and nothing restocked keeps the ledger consistent. */
  lemma LedgerAddProduct(stocks: seq<int>, restocked: seq<int>, orders: seq<Order>, userCount: int)
    requires LedgerValid(stocks, restocked, orders, userCount)
    ensures LedgerValid(stocks + [DEFAULT_STOCK], restocked + [0], orders, userCount)
  {
    var id := |stocks| + 1;
    forall i | 0 <= i < |orders| ensures orders[i].productId != id {
    }
    OrderedUnitsUnordered(orders, id);
    var stocks', restocked' := stocks + [DEFAULT_STOCK], restocked + [0];
    forall k | 1 <= k <= |stocks'|
      ensures stocks'[k - 1] + OrderedUnits(orders, k) == DEFAULT_STOCK + restocked'[k - 1]
    {
      if k < id {
        assert stocks'[k - 1] == stocks[k - 1] && restocked'[k - 1] == restocked[k - 1];
      }
    }
  }

  /**
   * Taking `quantity` units of a product that has them, together with appending the
   * matching order, keeps the ledger consistent.
   */
  lemma LedgerPlaceOrder(
    stocks: seq<int>, restocked: seq<int>, orders: seq<Order>, userCount: int,
    userId: int, productId: int, quantity: int)
    requires LedgerValid(stocks, restocked, orders, userCount)
    requires 1 <= userId <= userCount && quantity >= 1
    requires 1 <= productId <= |stocks| && stocks[productId - 1] >= quantity
    ensures LedgerValid(stocks[productId - 1 := stocks[productId - 1] - quantity], restocked,
                        orders + [Order(|orders| + 1, userId, productId, quantity)], userCount)
  {
    var order := Order(|orders| + 1, userId, productId, quantity);
    forall k | 1 <= k <= |stocks|
      ensures OrderedUnits(orders + [order], k) ==
        OrderedUnits(orders, k) + (if k == productId then quantity else 0)
    {
      OrderedUnitsAppend(orders, order, k);
    }
  }

  /** Restocking an existing product by a positive amount keeps the ledger consistent. */
  lemma LedgerRestock(
    stocks: seq<int>, restocked: seq<int>, orders: seq<Order>, userCount: int,
    productId: int, amount: int)
    requires LedgerValid(stocks, restocked, orders, userCount)
    requires 1 <= productId <= |stocks| && amount >= 1
    ensures LedgerValid(stocks[productId - 1 := stocks[productId - 1] + amount],
                        restocked[productId - 1 := restocked[productId - 1] + amount],
                        orders, userCount)
  {
  }

  /** Registering more users never invalidates the ledger. */
  lemma LedgerMoreUsers(
    stocks: seq<int>, restocked: seq<int>, orders: seq<Order>, userCount: int, newCount: int)
    requires LedgerValid(stocks, restocked, orders, userCount)
    requires newCount >= userCount
    ensures LedgerValid(stocks, restocked, orders, newCount)
  {
  }

  // ---------------------------------------------------------------------------
  // The store and its handlers.

  class Store {
    var users: seq<User>
    /** The product table; the product with id `k` is `products[k - 1]`. */
    var products: seq<Product>
    var orders: seq<Order>
    var session: Option<SessionData>
    /** The stock of every product (of id `k` at `k - 1`): the view the contracts speak of. */
    ghost var stocks: seq<int>
    /** Units each product has been restocked by since it was added. */
    ghost var restocked: seq<int>
    /** The product objects the store owns. */
    ghost var Repr: set<object>

    ghost predicate Valid()
      reads this, Repr
    {
      && this !in Repr
      && AccountsValid(users)
      && |stocks| == |products|
      && (forall i :: 0 <= i < |products| ==>
            products[i] in Repr && products[i].id == i + 1 && products[i].stock == stocks[i])
      && LedgerValid(stocks, restocked, orders, |users|)
      && SessionValid(users, session)
    }

    constructor ()
      ensures Valid() && fresh(Repr)
      ensures users == [] && products == [] && orders == [] && session == None
    {
      users := [];
      products := [];
      orders := [];
      session := None;
      stocks := [];
      restocked := [];
      Repr := {};
    }

    /** `login_required`: the logged-in user's id, which names a registered user, or nothing. */
    method RequireLogin() returns (userId: Option<int>)
      requires Valid()
      ensures userId.Some? <==> session.Some?
      ensures userId.Some? ==> userId.value == session.value.userId && 1 <= userId.value <= |users|
      ensures userId.Some? ==> users[userId.value - 1].id == userId.value
    {
      if session.None? {
        return None;
      }
      return Some(session.value.userId);
    }

    /** The insert of a new user row, guarded by the `before_insert` hook (rolled back on rejection). */
    method InsertUser(user: User) returns (ok: bool)
      requires Valid()
      requires user.id == |users| + 1
      modifies this`users
      ensures Valid()
      ensures ok <==> CheckDuplicateUser(old(users), user) == Accept
      ensures users == if ok then old(users) + [user] else old(users)
    {
      HookGuardsUniqueness(users, user);
      if CheckDuplicateUser(users, user) != Accept {
        return false;
      }
      LedgerMoreUsers(stocks, restocked, orders, |users|, |users| + 1);
      users := users + [user];
      return true;
    }

    /** Registration: refused while logged in, refused with per-field errors on a duplicate. */
    method Register(username: string, email: string, password: string, hash: string -> string)
      returns (r: Response)
      requires Valid()
      modifies this`users
      ensures Valid()
      ensures old(session).Some? ==> r == AlreadyLoggedIn && users == old(users)
      ensures old(session).None? && !RegistrationFormValid(username, email, password) ==>
        r == FormRejected && users == old(users)
      ensures (old(session).None? && RegistrationFormValid(username, email, password) &&
               DuplicateCheck(old(users), username, email).Some?) ==>
        r == Duplicate(DuplicateCheck(old(users), username, email).value) && users == old(users)
      ensures (old(session).None? && RegistrationFormValid(username, email, password) &&
               DuplicateCheck(old(users), username, email).None?) ==>
        && r == Registered(|old(users)| + 1)
        && users == old(users) + [User(|old(users)| + 1, username, email, hash(password))]
    {
      if session.Some? {
        return AlreadyLoggedIn;
      }
      if !RegistrationFormValid(username, email, password) {
        return FormRejected;
      }
      var found := DuplicateCheck(users, username, email);
      if found.Some? {
        return Duplicate(found.value);
      }
      var user := User(|users| + 1, username, email, hash(password));
      DuplicateCheckAgreesWithHook(users, user);
      var inserted := InsertUser(user);
      r := if inserted then Registered(user.id) else RegistrationFailed;
    }

    /** Login by email: the session is set only when that user's password checks out. */
    method Login(email: string, password: string, checkPassword: (string, string) -> bool)
      returns (r: Response)
      requires Valid()
      modifies this`session
      ensures Valid()
      ensures old(session).Some? ==> r == AlreadyLoggedIn && session == old(session)
      ensures old(session).None? && !LoginFormValid(email, password) ==>
        r == FormRejected && session == None
      ensures old(session).None? && LoginFormValid(email, password) ==>
        (session.Some? <==>
          exists i :: 0 <= i < |users| && users[i].email == email &&
            checkPassword(users[i].passwordHash, password))
      ensures old(session).None? && session.Some? ==>
        && r == LoggedIn(session.value.userId)
        && users[session.value.userId - 1].email == email
        && users[session.value.userId - 1].username == session.value.username
      ensures old(session).None? && LoginFormValid(email, password) && session.None? ==>
        r == InvalidCredentials
    {
      if session.Some? {
        return AlreadyLoggedIn;
      }
      if !LoginFormValid(email, password) {
        return FormRejected;
      }
      var found := FirstWhere(users, (u: User) => u.email == email);
      if found.Some? && checkPassword(users[found.value].passwordHash, password) {
        var user := users[found.value];
        session := Some(SessionData(user.id, user.username));
        return LoggedIn(user.id);
      }
      r := InvalidCredentials;
      forall i | 0 <= i < |users| && users[i].email == email
        ensures !checkPassword(users[i].passwordHash, password)
      {
        assert found.Some?;
        assert i == found.value;
      }
    }

    /** Logout clears the session. */
    method Logout() returns (r: Response)
      requires Valid()
      modifies this`session
      ensures Valid()
      ensures session == None && r == LoggedOut
    {
      session := None;
      r := LoggedOut;
    }

    /** Appends a new product row, which carries the next id and the default stock. */
    method InsertProduct(product: Product)
      requires Valid()
      requires product.id == |products| + 1 && product.stock == DEFAULT_STOCK
      modifies this`products, this`stocks, this`restocked, this`Repr
      ensures Valid()
      ensures Repr == old(Repr) + {product}
      ensures products == old(products) + [product]
      ensures stocks == old(stocks) + [DEFAULT_STOCK]
    {
      LedgerAddProduct(stocks, restocked, orders, |users|);
      products := products + [product];
      stocks := stocks + [DEFAULT_STOCK];
      restocked := restocked + [0];
      Repr := Repr + {product};
    }

    /** Adding a product: a valid form gives a new row with the default stock. */
    method AddProduct(name: string, price: real) returns (r: Response)
      requires Valid()
      modifies this`products, this`stocks, this`restocked, this`Repr
      ensures Valid() && fresh(Repr - old(Repr))
      ensures old(session).None? ==> r == RedirectToLogin && products == old(products)
      ensures old(session).Some? && !ProductFormValid(name, price) ==>
        r == FormRejected && products == old(products) && stocks == old(stocks)
      ensures old(session).Some? && ProductFormValid(name, price) ==>
        && r == ProductAdded(|old(products)| + 1)
        && |products| == |old(products)| + 1
        && products[..|old(products)|] == old(products)
        && fresh(products[|old(products)|])
        && products[|old(products)|].name == name
        && products[|old(products)|].price == price
        && stocks == old(stocks) + [DEFAULT_STOCK]
    {
      var userId := RequireLogin();
      if userId.None? {
        return RedirectToLogin;
      }
      if !ProductFormValid(name, price) {
        return FormRejected;
      }
      var product := new Product(|products| + 1, name, price);
      InsertProduct(product);
      r := ProductAdded(product.id);
    }

    /**
     * The stock reduction of an existing product paired with its order: both
     * happen, or (too few units) neither does.
     */
    method ReduceStockAndRecord(userId: int, productId: int, quantity: int) returns (ok: bool)
      requires Valid()
      requires 1 <= userId <= |users| && 1 <= productId <= |products| && quantity >= 1
      modifies this`orders, this`stocks, Repr
      ensures Valid()
      ensures ok <==> old(stocks)[productId - 1] >= quantity
      ensures ok ==>
        && orders == old(orders) + [Order(|old(orders)| + 1, userId, productId, quantity)]
        && stocks == old(stocks)[productId - 1 := old(stocks)[productId - 1] - quantity]
      ensures !ok ==> orders == old(orders) && stocks == old(stocks)
    {
      var product := products[productId - 1];
      ok := product.ReduceStock(quantity);
      if !ok {
        return;
      }
      LedgerPlaceOrder(stocks, restocked, orders, |users|, userId, productId, quantity);
      stocks := stocks[productId - 1 := stocks[productId - 1] - quantity];
      orders := orders + [Order(|orders| + 1, userId, productId, quantity)];
      forall i | 0 <= i < |products| ensures products[i].stock == stocks[i] {
        assert i != productId - 1 ==> products[i] != product;
      }
    }

    /**
     * Order placement: the form offers only the products with some stock left; a
     * successful stock reduction and the appended order go together, and otherwise
     * nothing changes.
     */
    method PlaceOrder(productId: int, quantity: int) returns (r: Response)
      requires Valid()
      modifies this`orders, this`stocks, Repr
      ensures Valid()
      ensures old(session).None? ==>
        r == RedirectToLogin && orders == old(orders) && stocks == old(stocks)
      ensures old(session).Some? && !OrderFormValid(productId, Available(old(stocks)), quantity) ==>
        r == FormRejected && orders == old(orders) && stocks == old(stocks)
      ensures old(session).Some? && OrderFormValid(productId, Available(old(stocks)), quantity) ==>
        1 <= productId <= |old(stocks)|
      ensures (old(session).Some? && OrderFormValid(productId, Available(old(stocks)), quantity) &&
               1 <= productId <= |old(stocks)| && old(stocks)[productId - 1] >= quantity) ==>
        && r == OrderPlaced(|old(orders)| + 1)
        && orders == old(orders) + [Order(|old(orders)| + 1, old(session).value.userId, productId, quantity)]
        && stocks == old(stocks)[productId - 1 := old(stocks)[productId - 1] - quantity]
      ensures (old(session).Some? && OrderFormValid(productId, Available(old(stocks)), quantity) &&
               1 <= productId <= |old(stocks)| && old(stocks)[productId - 1] < quantity) ==>
        r == NotEnoughStock && orders == old(orders) && stocks == old(stocks)
    {
      var userId := RequireLogin();
      if userId.None? {
        return RedirectToLogin;
      }
      var offered := 1 <= productId <= |products| && products[productId - 1].stock > 0;
      AvailableMembership(stocks, productId);
      if !(offered && quantity != 0 && quantity >= 1) {
        return FormRejected;
      }
      var ok := ReduceStockAndRecord(userId.value, productId, quantity);
      r := if ok then OrderPlaced(|orders|) else NotEnoughStock;
    }

    /** Restocks an existing product row by a positive amount. */
    method RestockRow(productId: int, amount: int)
      requires Valid()
      requires 1 <= productId <= |products| && amount >= 1
      modifies this`stocks, this`restocked, Repr
      ensures Valid()
      ensures stocks == old(stocks)[productId - 1 := old(stocks)[productId - 1] + amount]
    {
      var product := products[productId - 1];
      product.Restock(amount);
      LedgerRestock(stocks, restocked, orders, |users|, productId, amount);
      stocks := stocks[productId - 1 := stocks[productId - 1] + amount];
      restocked := restocked[productId - 1 := restocked[productId - 1] + amount];
      forall i | 0 <= i < |products| ensures products[i].stock == stocks[i] {
        assert i != productId - 1 ==> products[i] != product;
      }
    }

    /**
     * Restocking a product: an unknown id is a 404, and a valid form adds the units.
     * A negative id does not match the `<int:product_id>` route pattern, so it is a
     * 404 before the login check.
     */
    method RestockProduct(productId: int, amount: int) returns (r: Response)
      requires Valid()
      modifies this`stocks, this`restocked, Repr
      ensures Valid()
      ensures productId < 0 ==> r == NotFound && stocks == old(stocks)
      ensures productId >= 0 && old(session).None? ==> r == RedirectToLogin && stocks == old(stocks)
      ensures old(session).Some? && !(1 <= productId <= |old(products)|) ==>
        r == NotFound && stocks == old(stocks)
      ensures old(session).Some? && 1 <= productId <= |old(products)| && !RestockFormValid(amount) ==>
        r == FormRejected && stocks == old(stocks)
      ensures old(session).Some? && 1 <= productId <= |old(products)| && RestockFormValid(amount) ==>
        r == Restocked && stocks == old(stocks)[productId - 1 := old(stocks)[productId - 1] + amount]
    {
      if productId < 0 {
        return NotFound;
      }
      var userId := RequireLogin();
      if userId.None? {
        return RedirectToLogin;
      }
      if !(1 <= productId <= |products|) {
        return NotFound;
      }
      if !RestockFormValid(amount) {
        return FormRejected;
      }
      RestockRow(productId, amount);
      r := Restocked;
    }

    /** The logged-in user's orders, in placing order. */
    method ViewOrders() returns (r: Response)
      requires Valid()
      ensures session.None? ==> r == RedirectToLogin
      ensures session.Some? ==> r == OrderList(OrdersOf(orders, session.value.userId))
    {
      var userId := RequireLogin();
      if userId.None? {
        return RedirectToLogin;
      }
      r := OrderList(OrdersOf(orders, userId.value));
    }
  }
}
