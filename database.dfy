/**
 * The data store (database.py): the `users` and `sweets` tables with their AUTOINCREMENT
 * counters, and one method per data-access function. Each method runs as one atomic step.
 */
module Database {
  import opened Wrappers
  import opened Models
  import opened Inventory

  /**
   * The exceptions the sqlite3 driver raises from a data-access function; none of them is caught.
   * `IntegrityError`: `sqlite3.IntegrityError`, an INSERT violates a UNIQUE constraint.
   * `OverflowError`: Python's built-in, raised while binding an integer parameter outside the
   * 64-bit INTEGER range. `DatabaseFull`: the `sqlite3.OperationalError` raised for SQLITE_FULL,
   * once an AUTOINCREMENT table has already handed out the largest INTEGER as an id.
   */
  datatype DbError = IntegrityError | OverflowError | DatabaseFull

  /** What a data-access call does: return its value, or raise. A call that raises writes nothing. */
  datatype Call<+T> = Returns(value: T) | Raises(error: DbError)

  /** A row of `users`; `isAdmin` is the INTEGER column, written as 1 or 0. */
  datatype UserRow = UserRow(id: int, username: string, passwordHash: string, isAdmin: int, createdAt: string)

  class Store {
    /** The `users` table, keyed by its UNIQUE username column. */
    var users: map<string, UserRow>
    /** The id the next inserted user receives. */
    var nextUserId: int
    /** The `sweets` table, keyed by its id. */
    var sweets: Table
    /** The id the next inserted sweet receives; AUTOINCREMENT never hands out an id twice. */
    var nextSweetId: int

    /**
     * The table constraints of `init_database`, plus the AUTOINCREMENT bookkeeping: users are
     * never deleted, so their ids are exactly 1 to `nextUserId - 1`; every id and every stored
     * quantity is a 64-bit INTEGER.
     */
    ghost predicate Valid()
      reads this
    {
      && 1 <= nextUserId <= INT64_MAX + 1 && 1 <= nextSweetId <= INT64_MAX + 1
      && |users| == nextUserId - 1
      && (forall u :: u in users ==>
            && users[u].username == u
            && 1 <= users[u].id < nextUserId
            && (users[u].isAdmin == 0 || users[u].isAdmin == 1))
      && (forall u, v :: u in users && v in users && u != v ==> users[u].id != users[v].id)
      && (forall k :: k in sweets ==> sweets[k].id == k && 1 <= k < nextSweetId)
      && StockFits(sweets)
    }

    /** Once anyone has registered, at least one admin exists. */
    ghost predicate AdminExistsOnceOccupied()
      reads this
    {
      users != map[] ==> exists u :: u in users && users[u].isAdmin == 1
    }

    /** `init_database` on an empty database file: both tables exist and are empty. */
    constructor ()
      ensures Valid()
      ensures users == map[] && sweets == map[]
      ensures nextUserId == 1 && nextSweetId == 1
    {
      users, sweets := map[], map[];
      nextUserId, nextSweetId := 1, 1;
    }

    // -------------------------------------------------------------------------
    // users
    // -------------------------------------------------------------------------

    /** `get_user_by_username`: the stored row, or `None`. */
    method GetUserByUsername(username: string) returns (r: Option<UserRow>)
      requires Valid()
      ensures r.Some? <==> username in users
      ensures r.Some? ==> r.value == users[username] && r.value.username == username
      ensures r.Some? ==> r.value.isAdmin == 0 || r.value.isAdmin == 1
    {
      if username in users {
        r := Some(users[username]);
      } else {
        r := None;
      }
    }

    /**
     * `create_user`: inserts a row with a fresh id and `isAdmin` stored as 1 or 0, and returns
     * the id. Once the largest id has been handed out the INSERT raises `DatabaseFull`; a username
     * that is already taken violates the UNIQUE constraint and raises `IntegrityError`. A raising
     * INSERT writes nothing.
     */
    method CreateUser(username: string, passwordHash: string, isAdmin: bool, now: string) returns (r: Call<int>)
      requires Valid()
      modifies this
      ensures Valid()
      ensures r.Raises? <==> username in old(users) || old(nextUserId) > INT64_MAX
      ensures r.Raises? ==> unchanged(this)
      ensures old(nextUserId) > INT64_MAX ==> r == Raises(DatabaseFull)
      ensures old(nextUserId) <= INT64_MAX && username in old(users) ==> r == Raises(IntegrityError)
      ensures r.Returns? ==>
        && r.value == old(nextUserId)
        && users == old(users)[username := UserRow(old(nextUserId), username, passwordHash,
                                                   if isAdmin then 1 else 0, now)]
        && nextUserId == old(nextUserId) + 1
        && forall u :: u in old(users) ==> old(users)[u].id != r.value
      ensures sweets == old(sweets) && nextSweetId == old(nextSweetId)
    {
      if nextUserId > INT64_MAX {
        return Raises(DatabaseFull);
      }
      if username in users {
        return Raises(IntegrityError);
      }
      r := Returns(nextUserId);
      users := users[username := UserRow(nextUserId, username, passwordHash, if isAdmin then 1 else 0, now)];
      nextUserId := nextUserId + 1;
    }

    // -------------------------------------------------------------------------
    // sweets: create and read
    // -------------------------------------------------------------------------

    /**
     * `create_sweet`: inserts exactly the given values under an id never used before and returns
     * that id. A quantity outside the 64-bit range cannot be bound and raises `OverflowError`;
     * once the largest id has been handed out the INSERT raises `DatabaseFull`.
     */
    method CreateSweet(name: string, category: string, price: real, quantity: int, now: string) returns (r: Call<int>)
      requires Valid()
      modifies this
      ensures Valid()
      ensures !FitsInt64(quantity) ==> r == Raises(OverflowError)
      ensures FitsInt64(quantity) && old(nextSweetId) > INT64_MAX ==> r == Raises(DatabaseFull)
      ensures r.Raises? ==> unchanged(this)
      ensures r.Returns? <==> FitsInt64(quantity) && old(nextSweetId) <= INT64_MAX
      ensures r.Returns? ==>
        var id := r.value;
        && id == old(nextSweetId) && nextSweetId == id + 1
        && id !in old(sweets) && (forall k :: k in old(sweets) ==> k < id)
        && sweets == old(sweets)[id := SweetResponse(id, name, category, price, quantity, now)]
      ensures users == old(users) && nextUserId == old(nextUserId)
    {
      if !FitsInt64(quantity) {
        return Raises(OverflowError);
      }
      if nextSweetId > INT64_MAX {
        return Raises(DatabaseFull);
      }
      var id := nextSweetId;
      sweets := sweets[id := SweetResponse(id, name, category, price, quantity, now)];
      nextSweetId := nextSweetId + 1;
      r := Returns(id);
    }

    /** `get_sweet_by_id`: the stored row, or `None`; an id outside the 64-bit range raises `OverflowError`. */
    method GetSweetById(sweetId: int) returns (r: Call<Option<SweetRow>>)
      requires Valid()
      ensures r.Raises? <==> !FitsInt64(sweetId)
      ensures r.Raises? ==> r.error == OverflowError
      ensures r.Returns? ==> (r.value.Some? <==> sweetId in sweets)
      ensures r.Returns? && r.value.Some? ==> r.value.value == sweets[sweetId] && r.value.value.id == sweetId
    {
      if !FitsInt64(sweetId) {
        return Raises(OverflowError);
      }
      if sweetId in sweets {
        r := Returns(Some(sweets[sweetId]));
      } else {
        r := Returns(None);
      }
    }

    /** `get_all_sweets`: every row, in ascending id order. */
    method GetAllSweets() returns (rows: seq<SweetRow>)
      requires Valid()
      ensures IsOrderedListing(rows, sweets)
    {
      rows := [];
      var id := 1;
      assert KeyedById(sweets);
      ScanStart(sweets, id);
      while id < nextSweetId
        invariant 1 <= id <= nextSweetId
        invariant ListsBelow(rows, sweets, id)
      {
        ScanStep(rows, sweets, id);
        if id in sweets {
          rows := rows + [sweets[id]];
        }
        id := id + 1;
      }
      ScanDone(rows, sweets, id);
    }

    /**
     * `search_sweets`: the rows that pass every supplied filter, in ascending id order.
     * The result is the ordered listing of `Filtered(sweets, ...)`.
     */
    method SearchSweets(name: Option<string>, category: Option<string>,
                        minPrice: Option<real>, maxPrice: Option<real>) returns (rows: seq<SweetRow>)
      requires Valid()
      ensures IsOrderedListing(rows, Filtered(sweets, name, category, minPrice, maxPrice))
    {
      ghost var hits := Filtered(sweets, name, category, minPrice, maxPrice);
      FilteredRows(sweets, name, category, minPrice, maxPrice);
      rows := [];
      var id := 1;
      ScanStart(hits, id);
      while id < nextSweetId
        invariant 1 <= id <= nextSweetId
        invariant ListsBelow(rows, hits, id)
      {
        ScanStep(rows, hits, id);
        var keep := id in sweets && Matches(sweets[id], name, category, minPrice, maxPrice);
        assert keep <==> id in hits;
        if keep {
          assert hits[id] == sweets[id];
          rows := rows + [sweets[id]];
        }
        id := id + 1;
      }
      ScanDone(rows, hits, id);
    }

    // -------------------------------------------------------------------------
    // sweets: update and delete
    // -------------------------------------------------------------------------

    /**
     * `update_sweet`: with no field supplied it returns false and writes nothing; otherwise it
     * overwrites the supplied fields of that row and reports whether the row existed. The UPDATE
     * binds the id and any new quantity: one outside the 64-bit range raises `OverflowError`.
     */
    method UpdateSweet(sweetId: int, name: Option<string>, category: Option<string>,
                       price: Option<real>, quantity: Option<int>) returns (r: Call<bool>)
      requires Valid()
      modifies this
      ensures Valid()
      ensures r.Raises? <==>
        !NoFieldSupplied(name, category, price, quantity) && (!FitsInt64(sweetId) || (quantity.Some? && !FitsInt64(quantity.value)))
      ensures r.Raises? ==> r.error == OverflowError
      ensures r.Returns? ==> (r.value <==> !NoFieldSupplied(name, category, price, quantity) && sweetId in old(sweets))
      ensures sweets == if r == Returns(true) then old(sweets)[sweetId := Patched(old(sweets)[sweetId], name, category, price, quantity)]
                        else old(sweets)
      ensures r != Returns(true) ==> unchanged(this)
      ensures users == old(users) && nextUserId == old(nextUserId) && nextSweetId == old(nextSweetId)
    {
      var setClauses := 0;
      if name.Some? { setClauses := setClauses + 1; }
      if category.Some? { setClauses := setClauses + 1; }
      if price.Some? { setClauses := setClauses + 1; }
      if quantity.Some? { setClauses := setClauses + 1; }
      if setClauses == 0 {
        return Returns(false);
      }
      if !FitsInt64(sweetId) || (quantity.Some? && !FitsInt64(quantity.value)) {
        return Raises(OverflowError);
      }
      var updated := sweetId in sweets;
      if updated {
        sweets := sweets[sweetId := Patched(sweets[sweetId], name, category, price, quantity)];
      }
      r := Returns(updated);
    }

    /**
     * `delete_sweet`: removes the row and reports whether it existed; every other row stays. An id
     * outside the 64-bit range raises `OverflowError`.
     */
    method DeleteSweet(sweetId: int) returns (r: Call<bool>)
      requires Valid()
      modifies this
      ensures Valid()
      ensures r.Raises? <==> !FitsInt64(sweetId)
      ensures r.Raises? ==> r.error == OverflowError
      ensures r.Returns? ==> (r.value <==> sweetId in old(sweets))
      ensures sweetId !in sweets
      ensures sweets == old(sweets) - {sweetId}
      ensures users == old(users) && nextUserId == old(nextUserId) && nextSweetId == old(nextSweetId)
    {
      if !FitsInt64(sweetId) {
        return Raises(OverflowError);
      }
      var deleted := sweetId in sweets;
      sweets := sweets - {sweetId};
      r := Returns(deleted);
    }

    // -------------------------------------------------------------------------
    // ledger
    // -------------------------------------------------------------------------

    /**
     * `purchase_sweet`: reads the stock, refuses (false, nothing written) when the row is absent
     * or holds less than requested, and otherwise writes `current - quantity`. An id, or a new
     * quantity, outside the 64-bit range raises `OverflowError`.
     */
    method PurchaseSweet(sweetId: int, quantity: int) returns (r: Call<bool>)
      requires Valid()
      modifies this
      ensures Valid()
      ensures r.Raises? <==> !FitsInt64(sweetId) || PurchaseOverflows(old(sweets), sweetId, quantity)
      ensures r.Raises? ==> r.error == OverflowError
      ensures r.Returns? ==> (r.value <==> CanPurchase(old(sweets), sweetId, quantity))
      ensures sweets == Purchase(old(sweets), sweetId, quantity)
      ensures r == Returns(true) ==> sweets[sweetId].quantity == old(sweets)[sweetId].quantity - quantity >= 0
      ensures r != Returns(true) ==> unchanged(this)
      ensures users == old(users) && nextUserId == old(nextUserId) && nextSweetId == old(nextSweetId)
    {
      if !FitsInt64(sweetId) {
        return Raises(OverflowError);
      }
      if sweetId !in sweets {
        return Returns(false);
      }
      var current := sweets[sweetId].quantity;
      if current < quantity {
        return Returns(false);
      }
      var newQuantity := current - quantity;
      if !FitsInt64(newQuantity) {
        return Raises(OverflowError);
      }
      sweets := sweets[sweetId := sweets[sweetId].(quantity := newQuantity)];
      r := Returns(true);
    }

    /**
     * `restock_sweet`: false with nothing written when the row is absent, otherwise writes
     * `current + quantity`. An id, or a new quantity, outside the 64-bit range raises `OverflowError`.
     */
    method RestockSweet(sweetId: int, quantity: int) returns (r: Call<bool>)
      requires Valid()
      modifies this
      ensures Valid()
      ensures r.Raises? <==> !FitsInt64(sweetId) || RestockOverflows(old(sweets), sweetId, quantity)
      ensures r.Raises? ==> r.error == OverflowError
      ensures r.Returns? ==> (r.value <==> sweetId in old(sweets))
      ensures sweets == Restock(old(sweets), sweetId, quantity)
      ensures r == Returns(true) ==> sweets[sweetId].quantity == old(sweets)[sweetId].quantity + quantity
      ensures r != Returns(true) ==> unchanged(this)
      ensures users == old(users) && nextUserId == old(nextUserId) && nextSweetId == old(nextSweetId)
    {
      if !FitsInt64(sweetId) {
        return Raises(OverflowError);
      }
      if sweetId !in sweets {
        return Returns(false);
      }
      var newQuantity := sweets[sweetId].quantity + quantity;
      if !FitsInt64(newQuantity) {
        return Raises(OverflowError);
      }
      sweets := sweets[sweetId := sweets[sweetId].(quantity := newQuantity)];
      r := Returns(true);
    }
  }
}
