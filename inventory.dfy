/**
 * The rules of the `sweets` table (database.py), stated on values: what a listing in
 * id order is, which rows a search keeps, what a partial update writes, and how the
 * two ledger operations, purchase and restock, change a row's quantity.
 * The `Database.Store` methods are proved against these definitions.
 */
module Inventory {
  import opened Wrappers
  import opened Models

  /** A row of `sweets`; its columns are exactly those of the response schema. */
  type SweetRow = SweetResponse

  /** The `sweets` table: rows keyed by their id. */
  type Table = map<int, SweetRow>

  /** Every row is stored under its own id (the id column is the primary key). */
  ghost predicate KeyedById(t: Table) {
    forall k :: k in t ==> t[k].id == k
  }

  // ---------------------------------------------------------------------------
  // Listing in id order (`ORDER BY id`)
  // ---------------------------------------------------------------------------

  /** `rows` lists every row of `t` once, in strictly ascending id order. */
  ghost predicate IsOrderedListing(rows: seq<SweetRow>, t: Table) {
    && (forall i, j :: 0 <= i < j < |rows| ==> rows[i].id < rows[j].id)
    && (forall i :: 0 <= i < |rows| ==> rows[i].id in t && t[rows[i].id] == rows[i])
    && (forall k :: k in t ==> exists i :: 0 <= i < |rows| && rows[i].id == k)
  }

  /** `rows` lists, in ascending id order, exactly the rows of `t` whose id is below `bound`: a scan in progress. */
  ghost predicate ListsBelow(rows: seq<SweetRow>, t: Table, bound: int) {
    && (forall i, j :: 0 <= i < j < |rows| ==> rows[i].id < rows[j].id)
    && (forall i :: 0 <= i < |rows| ==> rows[i].id in t && t[rows[i].id] == rows[i] && rows[i].id < bound)
    && (forall k :: k in t && k < bound ==> exists i :: 0 <= i < |rows| && rows[i].id == k)
  }

  /** An id scan may start at any bound below which the table has no key. */
  lemma ScanStart(t: Table, bound: int)
    requires forall k :: k in t ==> bound <= k
    ensures ListsBelow([], t, bound)
  {
  }

  /** One step of an id scan: visit `bound`, appending its row when it exists. */
  lemma ScanStep(rows: seq<SweetRow>, t: Table, bound: int)
    requires KeyedById(t) && ListsBelow(rows, t, bound)
    ensures bound in t ==> ListsBelow(rows + [t[bound]], t, bound + 1)
    ensures bound !in t ==> ListsBelow(rows, t, bound + 1)
  {
    var rows' := if bound in t then rows + [t[bound]] else rows;
    forall k | k in t && k < bound + 1
      ensures exists i :: 0 <= i < |rows'| && rows'[i].id == k
    {
      if k < bound {
        var i :| 0 <= i < |rows| && rows[i].id == k;
        assert rows'[i] == rows[i];
      } else {
        assert rows'[|rows'| - 1].id == k;
      }
    }
  }

  /** A scan that has passed every key of the table is its ordered listing. */
  lemma ScanDone(rows: seq<SweetRow>, t: Table, bound: int)
    requires ListsBelow(rows, t, bound)
    requires forall k :: k in t ==> k < bound
    ensures IsOrderedListing(rows, t)
  {
  }

  /** The first row of a listing carries the smallest id of the table. */
  lemma ListingHeadIsLeast(rows: seq<SweetRow>, t: Table, k: int)
    requires IsOrderedListing(rows, t) && k in t
    ensures |rows| > 0 && rows[0].id <= k
  {
    var i :| 0 <= i < |rows| && rows[i].id == k;
    if i > 0 {
      assert rows[0].id < rows[i].id;
    }
  }

  /** Dropping the first row of a listing lists the table without that row. */
  lemma ListingTail(rows: seq<SweetRow>, t: Table, k: int)
    requires IsOrderedListing(rows, t) && |rows| > 0 && rows[0].id == k
    ensures IsOrderedListing(rows[1..], t - {k})
  {
    var rest, t' := rows[1..], t - {k};
    forall k' | k' in t'
      ensures exists i :: 0 <= i < |rest| && rest[i].id == k'
    {
      var i :| 0 <= i < |rows| && rows[i].id == k';
      assert i != 0;
      assert rest[i - 1].id == k';
    }
  }

  /** Sequences with equal heads and equal tails are equal. */
  lemma HeadAndTail(r1: seq<SweetRow>, r2: seq<SweetRow>)
    requires |r1| > 0 && |r2| > 0 && r1[0] == r2[0] && r1[1..] == r2[1..]
    ensures r1 == r2
  {
    assert r1 == [r1[0]] + r1[1..];
    assert r2 == [r2[0]] + r2[1..];
  }

  /** Two listings of one table start with the same row. */
  lemma ListingHeadsAgree(r1: seq<SweetRow>, r2: seq<SweetRow>, t: Table)
    requires IsOrderedListing(r1, t) && IsOrderedListing(r2, t) && |r1| > 0
    ensures |r2| > 0 && r1[0] == r2[0]
  {
    ListingHeadIsLeast(r2, t, r1[0].id);
    ListingHeadIsLeast(r1, t, r2[0].id);
  }

  /** A table has exactly one listing in id order: listing and search results are determined by the table. */
  lemma {:induction false} OrderedListingUnique(r1: seq<SweetRow>, r2: seq<SweetRow>, t: Table)
    requires IsOrderedListing(r1, t) && IsOrderedListing(r2, t)
    ensures r1 == r2
    decreases |r1|
  {
    if |r1| == 0 {
      if |r2| > 0 {
        ListingHeadIsLeast(r1, t, r2[0].id);
      }
    } else {
      ListingHeadsAgree(r1, r2, t);
      var k := r1[0].id;
      ListingTail(r1, t, k);
      ListingTail(r2, t, k);
      OrderedListingUnique(r1[1..], r2[1..], t - {k});
      HeadAndTail(r1, r2);
    }
  }

  // ---------------------------------------------------------------------------
  // Search (`search_sweets`)
  // ---------------------------------------------------------------------------

  /** `part` occurs in `text` starting at position `i`. */
  predicate OccursAt(text: string, part: string, i: int) {
    0 <= i && i + |part| <= |text| && text[i..i + |part|] == part
  }

  /** Substring containment: the `LIKE '%name%'` test, without wildcards or case folding. */
  predicate Contains(text: string, part: string) {
    exists i | 0 <= i <= |text| - |part| :: OccursAt(text, part, i)
  }

  /** A text filter in the source is skipped when it is `None` or the empty string (Python truthiness). */
  predicate Given(s: Option<string>) {
    s.Some? && s.value != ""
  }

  /**
   * The WHERE clause of a search: a name filter is substring containment, a category filter
   * exact equality, and each price bound is inclusive and applies whenever it is present,
   * zero included.
   */
  predicate Matches(row: SweetRow, name: Option<string>, category: Option<string>,
                    minPrice: Option<real>, maxPrice: Option<real>)
  {
    && (Given(name) ==> Contains(row.name, name.value))
    && (Given(category) ==> row.category == category.value)
    && (minPrice.Some? ==> row.price >= minPrice.value)
    && (maxPrice.Some? ==> row.price <= maxPrice.value)
  }

  /** The rows of `t` that a search keeps. */
  function Filtered(t: Table, name: Option<string>, category: Option<string>,
                    minPrice: Option<real>, maxPrice: Option<real>): Table
  {
    map k | k in t && Matches(t[k], name, category, minPrice, maxPrice) :: t[k]
  }

  /** A filtered table keeps the rows it keeps unchanged, under their own ids. */
  lemma FilteredRows(t: Table, name: Option<string>, category: Option<string>,
                     minPrice: Option<real>, maxPrice: Option<real>)
    requires KeyedById(t)
    ensures var f := Filtered(t, name, category, minPrice, maxPrice);
      && KeyedById(f)
      && (forall k :: k in f ==> k in t && f[k] == t[k])
  {
  }

  /** A search without effective filters (each absent, or an empty name or category) lists the whole table. */
  lemma SearchWithoutFiltersListsAll(rows: seq<SweetRow>, t: Table, name: Option<string>, category: Option<string>)
    requires !Given(name) && !Given(category)
    requires IsOrderedListing(rows, Filtered(t, name, category, None, None))
    ensures IsOrderedListing(rows, t)
  {
    forall k | k in t
      ensures Matches(t[k], name, category, None, None)
    {
    }
    assert Filtered(t, name, category, None, None) == t;
  }

  /** A price bound of zero is a real bound: the source compares it with `is not None`, not by truthiness. */
  lemma ZeroPriceBoundApplies(row: SweetRow)
    ensures Matches(row, None, None, Some(0.0), None) <==> row.price >= 0.0
    ensures Matches(row, None, None, None, Some(0.0)) <==> row.price <= 0.0
  {
  }

  // ---------------------------------------------------------------------------
  // Partial update (`update_sweet`)
  // ---------------------------------------------------------------------------

  /** True when no field is supplied, so that the source builds no SET clause: the update body is empty. */
  predicate NoFieldSupplied(name: Option<string>, category: Option<string>, price: Option<real>, quantity: Option<int>) {
    SweetUpdate(name, category, price, quantity).IsEmpty()
  }

  /** The row after `UPDATE sweets SET <supplied fields>`. */
  function Patched(row: SweetRow, name: Option<string>, category: Option<string>,
                   price: Option<real>, quantity: Option<int>): SweetRow
  {
    row.(name := name.GetOr(row.name), category := category.GetOr(row.category),
         price := price.GetOr(row.price), quantity := quantity.GetOr(row.quantity))
  }

  /**
   * A patch never touches id or created_at, writes every supplied field, keeps every other
   * one, and applying it twice is the same as applying it once.
   */
  lemma PatchedFields(row: SweetRow, name: Option<string>, category: Option<string>,
                      price: Option<real>, quantity: Option<int>)
    ensures var r := Patched(row, name, category, price, quantity);
      && r.id == row.id && r.createdAt == row.createdAt
      && r.name == (if name.Some? then name.value else row.name)
      && r.category == (if category.Some? then category.value else row.category)
      && r.price == (if price.Some? then price.value else row.price)
      && r.quantity == (if quantity.Some? then quantity.value else row.quantity)
      && Patched(r, name, category, price, quantity) == r
  {
  }

  /** An empty patch leaves the row as it is. */
  lemma EmptyPatchIsIdentity(row: SweetRow)
    ensures Patched(row, None, None, None, None) == row
  {
  }

  // ---------------------------------------------------------------------------
  // Ledger rules (`purchase_sweet`, `restock_sweet`)
  // ---------------------------------------------------------------------------

  /** The range of SQLite's INTEGER: the driver refuses to bind an integer outside it. */
  const INT64_MIN: int := -0x8000_0000_0000_0000
  const INT64_MAX: int := 0x7FFF_FFFF_FFFF_FFFF

  /** `x` can be bound to a statement parameter; any other integer raises `OverflowError`. */
  predicate FitsInt64(x: int) {
    INT64_MIN <= x <= INT64_MAX
  }

  /** Every stored quantity is a 64-bit integer, as every value the INTEGER column can hold. */
  ghost predicate StockFits(t: Table) {
    forall k :: k in t ==> FitsInt64(t[k].quantity)
  }

  /** A purchase goes through the stock check when the item exists and its stock covers the requested amount. */
  predicate CanPurchase(t: Table, id: int, q: int) {
    id in t && t[id].quantity >= q
  }

  /** A purchase that passes the stock check but whose new quantity cannot be bound, so its UPDATE raises. */
  predicate PurchaseOverflows(t: Table, id: int, q: int) {
    CanPurchase(t, id, q) && !FitsInt64(t[id].quantity - q)
  }

  /** A restock of an existing item whose new quantity cannot be bound, so its UPDATE raises. */
  predicate RestockOverflows(t: Table, id: int, q: int) {
    id in t && !FitsInt64(t[id].quantity + q)
  }

  /** The table after `purchase_sweet(id, q)`: unchanged when the purchase is refused or raises. */
  function Purchase(t: Table, id: int, q: int): Table {
    if CanPurchase(t, id, q) && !PurchaseOverflows(t, id, q) then t[id := t[id].(quantity := t[id].quantity - q)] else t
  }

  /** The table after `restock_sweet(id, q)`: unchanged when the item is absent or the restock raises. */
  function Restock(t: Table, id: int, q: int): Table {
    if id in t && !RestockOverflows(t, id, q) then t[id := t[id].(quantity := t[id].quantity + q)] else t
  }

  /** Every row has a non-negative quantity. */
  ghost predicate NonNegativeStock(t: Table) {
    forall k :: k in t ==> t[k].quantity >= 0
  }

  /**
   * A purchase that passes the stock check and fits leaves a non-negative quantity and changes
   * no other row and no other column; a refused or raising one changes nothing. Either way every
   * stored quantity still fits in 64 bits.
   */
  lemma PurchaseOutcome(t: Table, id: int, q: int)
    ensures var t' := Purchase(t, id, q);
      && t'.Keys == t.Keys
      && (CanPurchase(t, id, q) && !PurchaseOverflows(t, id, q) ==>
            t'[id].quantity == t[id].quantity - q >= 0 && t'[id] == t[id].(quantity := t'[id].quantity))
      && (!CanPurchase(t, id, q) || PurchaseOverflows(t, id, q) ==> t' == t)
      && (forall k :: k in t && k != id ==> t'[k] == t[k])
      && (StockFits(t) ==> StockFits(t'))
  {
  }

  /**
   * Restock adds exactly the given amount to an existing row when the sum fits in 64 bits, and
   * changes nothing else; when the sum does not fit it changes nothing at all.
   */
  lemma RestockOutcome(t: Table, id: int, q: int)
    ensures var t' := Restock(t, id, q);
      && t'.Keys == t.Keys
      && (id in t && !RestockOverflows(t, id, q) ==> t'[id] == t[id].(quantity := t[id].quantity + q))
      && (RestockOverflows(t, id, q) ==> t' == t)
      && (forall k :: k in t && k != id ==> t'[k] == t[k])
      && (StockFits(t) ==> StockFits(t'))
  {
  }

  /** On stock that fits, only a negative amount can make a purchase overflow: a non-negative one never does. */
  lemma PurchaseOverflowNeedsNegativeAmount(t: Table, id: int, q: int)
    requires StockFits(t)
    ensures PurchaseOverflows(t, id, q) ==> q < 0
    ensures PurchaseOverflows(t, id, q) <==> CanPurchase(t, id, q) && t[id].quantity - q > INT64_MAX
  {
    if id in t {
      assert FitsInt64(t[id].quantity);
    }
  }

  /**
   * Restocking q units and then purchasing q units of an item with non-negative stock succeeds
   * and restores the table when the restocked amount fits; when it does not, the restock
   * changes nothing.
   */
  lemma RestockThenPurchaseRestores(t: Table, id: int, q: int)
    requires id in t && 0 <= t[id].quantity <= INT64_MAX
    ensures FitsInt64(t[id].quantity + q) ==>
              CanPurchase(Restock(t, id, q), id, q) && Purchase(Restock(t, id, q), id, q) == t
    ensures !FitsInt64(t[id].quantity + q) ==> Restock(t, id, q) == t
  {
    if FitsInt64(t[id].quantity + q) {
      var t1 := Restock(t, id, q);
      assert t1[id].(quantity := t1[id].quantity - q) == t[id];
      assert t1[id := t[id]] == t;
    }
  }

  /**
   * After a purchase of q1 has gone through, a second purchase of q2 passes the stock check iff
   * q2 is at most what is left, and when it fits it leaves the stock minus both amounts.
   */
  lemma SuccessivePurchases(t: Table, id: int, q1: int, q2: int)
    requires CanPurchase(t, id, q1) && !PurchaseOverflows(t, id, q1)
    ensures CanPurchase(Purchase(t, id, q1), id, q2) <==> q2 <= t[id].quantity - q1
    ensures CanPurchase(Purchase(t, id, q1), id, q2) && FitsInt64(t[id].quantity - q1 - q2) ==>
              Purchase(Purchase(t, id, q1), id, q2)[id].quantity == t[id].quantity - q1 - q2
  {
  }

  /** Once a row is deleted, neither ledger operation can reach it. */
  lemma DeletedItemIsOutOfReach(t: Table, id: int, q: int)
    ensures !CanPurchase(t - {id}, id, q)
    ensures Purchase(t - {id}, id, q) == t - {id}
    ensures Restock(t - {id}, id, q) == t - {id}
  {
  }

  /**
   * Nothing in the schema or the ledger rejects a negative purchase amount: such a purchase
   * always passes the stock check on an item with non-negative stock, and it raises that stock
   * unless the new quantity leaves the 64-bit range, in which case the UPDATE raises instead.
   */
  lemma NegativePurchaseRaisesStock(t: Table, id: int, q: int)
    requires id in t && t[id].quantity >= 0 && q < 0
    ensures CanPurchase(t, id, q)
    ensures FitsInt64(t[id].quantity - q) ==> Purchase(t, id, q)[id].quantity > t[id].quantity
    ensures !FitsInt64(t[id].quantity - q) ==> PurchaseOverflows(t, id, q) && Purchase(t, id, q) == t
  {
  }

  /** Nothing rejects a negative restock amount either, and that one can drive stock below zero. */
  lemma NegativeRestockCanOverdraw(t: Table, id: int, q: int)
    requires id in t && INT64_MIN <= t[id].quantity + q < 0
    ensures Restock(t, id, q)[id].quantity < 0
  {
  }

  /** One ledger request, as it reaches the store. */
  datatype LedgerOp = PurchaseOp(id: int, quantity: int) | RestockOp(id: int, quantity: int)

  /** The table after applying `ops` in order, each one atomically. */
  function ApplyAll(t: Table, ops: seq<LedgerOp>): Table
    decreases |ops|
  {
    if |ops| == 0 then t
    else
      var t' := match ops[0]
        case PurchaseOp(id, q) => Purchase(t, id, q)
        case RestockOp(id, q) => Restock(t, id, q);
      ApplyAll(t', ops[1..])
  }

  /** Every restock in `ops` adds a non-negative amount (purchases may ask for anything). */
  predicate RestocksNonNegative(ops: seq<LedgerOp>) {
    forall i :: 0 <= i < |ops| && ops[i].RestockOp? ==> ops[i].quantity >= 0
  }

  /**
   * Stock never goes negative under any sequence of purchases and non-negative restocks:
   * a purchase only writes when the stock covers it.
   */
  lemma {:induction false} LedgerKeepsStockNonNegative(t: Table, ops: seq<LedgerOp>)
    requires NonNegativeStock(t) && RestocksNonNegative(ops)
    ensures NonNegativeStock(ApplyAll(t, ops))
    decreases |ops|
  {
    if |ops| > 0 {
      var t' := match ops[0]
        case PurchaseOp(id, q) => Purchase(t, id, q)
        case RestockOp(id, q) => Restock(t, id, q);
      assert NonNegativeStock(t') by {
        match ops[0]
        case PurchaseOp(id, q) =>
          PurchaseOutcome(t, id, q);
        case RestockOp(id, q) =>
          assert ops[0].quantity >= 0;
          RestockOutcome(t, id, q);
      }
      assert RestocksNonNegative(ops[1..]) by {
        forall i | 0 <= i < |ops[1..]| && ops[1..][i].RestockOp?
          ensures ops[1..][i].quantity >= 0
        {
          assert ops[1..][i] == ops[i + 1];
        }
      }
      LedgerKeepsStockNonNegative(t', ops[1..]);
    }
  }
}
