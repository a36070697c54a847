/**
 * The records of the store (app/models.py): users, products and orders, the two
 * stock operations of a product, and the duplicate-account hook that runs before
 * a user row is inserted.
 */
module Models {
  import opened Wrappers
  import opened Queries

  /** A registered account; `passwordHash` is whatever the one-way hash produced. */
  datatype User = User(id: int, username: string, email: string, passwordHash: string)

  /** A placed order: who bought how many units of which product. */
  datatype Order = Order(id: int, userId: int, productId: int, quantity: int)

  /** The column default for `Product.stock`. */
  const DEFAULT_STOCK: int := 10

  /** A catalogue entry whose stock count is updated in place. */
  class Product {
    const id: int
    const name: string
    const price: real
    var stock: int

    /** A new product row: the stock column takes its default. */
    constructor (id: int, name: string, price: real)
      ensures this.id == id && this.name == name && this.price == price
      ensures stock == DEFAULT_STOCK
    {
      this.id := id;
      this.name := name;
      this.price := price;
      stock := DEFAULT_STOCK;
    }

    /** Adds `amount` units; there is no guard. */
    method Restock(amount: int)
      modifies this
      ensures stock == old(stock) + amount
      ensures stock == Apply(old(stock), RestockBy(amount))
    {
      stock := stock + amount;
    }

    /** Removes `amount` units when that many are in stock, and reports whether it did. */
    method ReduceStock(amount: int) returns (ok: bool)
      modifies this
      ensures ok <==> old(stock) >= amount
      ensures ok ==> stock == old(stock) - amount
      ensures !ok ==> stock == old(stock)
      ensures stock == Apply(old(stock), ReduceBy(amount))
    {
      if stock >= amount {
        stock := stock - amount;
        return true;
      }
      return false;
    }
  }

  // ---------------------------------------------------------------------------
  // The stock operations as values, so that sequences of them can be reasoned about.

  datatype StockOp = RestockBy(amount: int) | ReduceBy(amount: int)

  /** The stock count after one operation (a refused reduction leaves it as it was). */
  function Apply(stock: int, op: StockOp): int
  {
    match op
    case RestockBy(a) => stock + a
    case ReduceBy(a) => if stock >= a then stock - a else stock
  }

  /** The stock count after a whole sequence of operations, first to last. */
  function Run(stock: int, ops: seq<StockOp>): int
    decreases ops
  {
    if ops == [] then stock else Run(Apply(stock, ops[0]), ops[1..])
  }

  /** Restock amounts come from a form that demands at least 1. */
  predicate AllowedOp(op: StockOp)
  {
    op.RestockBy? ==> op.amount >= 1
  }

  /** A reduction never takes a non-negative stock below zero, whatever the amount. */
  lemma ReduceKeepsNonNegative(stock: int, amount: int)
    requires stock >= 0
    ensures Apply(stock, ReduceBy(amount)) >= 0
    ensures Apply(stock, ReduceBy(amount)) <= stock || amount < 0
  {
  }

  /** Stock that starts non-negative stays non-negative across any allowed sequence. */
  lemma {:induction false} RunKeepsNonNegative(stock: int, ops: seq<StockOp>)
    requires stock >= 0
    requires forall i :: 0 <= i < |ops| ==> AllowedOp(ops[i])
    ensures Run(stock, ops) >= 0
    decreases ops
  {
    if ops != [] {
      assert AllowedOp(ops[0]);
      var next := Apply(stock, ops[0]);
      assert next >= 0;
      assert forall i :: 0 <= i < |ops[1..]| ==> AllowedOp(ops[1..][i]) by {
        forall i | 0 <= i < |ops[1..]| ensures AllowedOp(ops[1..][i]) {
          assert ops[1..][i] == ops[i + 1];
        }
      }
      RunKeepsNonNegative(next, ops[1..]);
    }
  }

  /** Running `a` then `b` is running `b` on the result of `a`. */
  lemma {:induction false} RunConcat(stock: int, a: seq<StockOp>, b: seq<StockOp>)
    ensures Run(stock, a + b) == Run(Run(stock, a), b)
    decreases a
  {
    if a != [] {
      assert (a + b)[0] == a[0];
      assert (a + b)[1..] == a[1..] + b;
      RunConcat(Apply(stock, a[0]), a[1..], b);
    } else {
      assert a + b == b;
    }
  }

  /**
   * A restock and a reduction that succeeds either way give the same stock in
   * either order.
   */
  lemma RestockCommutesWithCoveredReduce(stock: int, added: int, taken: int)
    requires added >= 0 && stock >= taken
    ensures Run(stock, [RestockBy(added), ReduceBy(taken)]) == stock + added - taken
    ensures Run(stock, [ReduceBy(taken), RestockBy(added)]) == stock + added - taken
  {
    assert [RestockBy(added), ReduceBy(taken)][1..] == [ReduceBy(taken)];
    assert [ReduceBy(taken), RestockBy(added)][1..] == [RestockBy(added)];
    assert Run(stock + added, [ReduceBy(taken)]) == Apply(stock + added, ReduceBy(taken)) by {
      assert [ReduceBy(taken)][1..] == [];
    }
    assert Run(stock - taken, [RestockBy(added)]) == stock - taken + added by {
      assert [RestockBy(added)][1..] == [];
    }
  }

  /** On a stock of 10, taking 3 leaves 7, and then taking 8 is refused and 7 remain. */
  lemma OrderThenOversizedOrder()
    ensures Apply(10, ReduceBy(3)) == 7
    ensures Run(10, [ReduceBy(3), ReduceBy(8)]) == 7
  {
    assert [ReduceBy(3), ReduceBy(8)][1..] == [ReduceBy(8)];
    assert [ReduceBy(8)][1..] == [];
  }

  /** Of two reductions of 8 on a stock of 10, the second is refused and 2 remain. */
  lemma SecondOverlappingReduceRefused()
    ensures Apply(10, ReduceBy(8)) == 2
    ensures Apply(2, ReduceBy(8)) == 2
    ensures Run(10, [ReduceBy(8), ReduceBy(8)]) == 2
  {
    assert [ReduceBy(8), ReduceBy(8)][1..] == [ReduceBy(8)];
    assert [ReduceBy(8)][1..] == [];
  }

  // ---------------------------------------------------------------------------
  // The `before_insert` hook on users.

  datatype DuplicateField = UsernameExists | EmailExists

  datatype HookResult = Accept | Reject(field: DuplicateField)

  /**
   * The hook run before a user row is inserted: it rejects when an existing user
   * has the username, and otherwise when one has the email.
   */
  function CheckDuplicateUser(users: seq<User>, target: User): (r: HookResult)
    ensures r == Accept <==>
      forall i :: 0 <= i < |users| ==>
        users[i].username != target.username && users[i].email != target.email
    ensures r == Reject(UsernameExists) <==>
      exists i :: 0 <= i < |users| && users[i].username == target.username
    ensures r == Reject(EmailExists) <==>
      && (forall i :: 0 <= i < |users| ==> users[i].username != target.username)
      && (exists i :: 0 <= i < |users| && users[i].email == target.email)
  {
    if FirstWhere(users, (u: User) => u.username == target.username).Some? then
      Reject(UsernameExists)
    else if FirstWhere(users, (u: User) => u.email == target.email).Some? then
      Reject(EmailExists)
    else
      Accept
  }

  /** No two users share a username, and no two share an email (the unique columns). */
  ghost predicate UniqueAccounts(users: seq<User>)
  {
    forall i, j :: 0 <= i < j < |users| ==>
      users[i].username != users[j].username && users[i].email != users[j].email
  }

  /**
   * The hook is exactly the guard the unique columns need: appending a user keeps
   * usernames and emails unique if and only if the hook accepts it.
   */
  lemma HookGuardsUniqueness(users: seq<User>, target: User)
    requires UniqueAccounts(users)
    ensures UniqueAccounts(users + [target]) <==> CheckDuplicateUser(users, target) == Accept
  {
    var all := users + [target];
    if CheckDuplicateUser(users, target) != Accept {
      var i :| 0 <= i < |users| &&
        (users[i].username == target.username || users[i].email == target.email);
      assert all[i] == users[i] && all[|users|] == target;
      assert !UniqueAccounts(all);
    } else {
      forall i, j | 0 <= i < j < |all|
        ensures all[i].username != all[j].username && all[i].email != all[j].email
      {
        if j == |users| {
          assert all[i] == users[i];
        } else {
          assert all[i] == users[i] && all[j] == users[j];
        }
      }
    }
  }
}
