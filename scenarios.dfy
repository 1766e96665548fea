/**
 * Client code: request sequences whose outcomes follow from the handlers' contracts alone.
 */
module Scenarios {
  import opened Wrappers
  import opened Models
  import opened Inventory
  import opened Database
  import opened Access
  import opened Endpoints

  /** A token whose verification yields `username` as subject and no admin claim. */
  function TokenFor(username: string): Option<Payload> {
    Some(Payload(Some(username), None))
  }

  /** The first account is an admin whatever it submits; the second only with the exact key. */
  method RegistrationOrder(sign: Claims -> string, key: string) {
    var db := new Store();
    var r1 := Register(db, RegisterWithoutKey("alice", "pw1"), "h1", "t1", sign);
    assert db.users["alice"].isAdmin == 1;
    var r2 := Register(db, UserRegister("bob", "pw2", Some(key)), "h2", "t2", sign);
    assert db.users["bob"].isAdmin == 1 <==> key == "aswd";
  }

  /** A taken username is refused with 400 and the stored account is left as it was. */
  method DuplicateRegistration(sign: Claims -> string) {
    var db := new Store();
    var r1 := Register(db, RegisterWithoutKey("alice", "pw1"), "h1", "t1", sign);
    var r2 := Register(db, UserRegister("alice", "other", Some("aswd")), "h2", "t2", sign);
    assert r2 == Error(400, "Username already exists");
    assert db.users == map["alice" := UserRow(1, "alice", "h1", 1, "t1")];
  }

  /** Ten units in stock: buying seven leaves three, then buying five is refused and leaves three. */
  method LadooPurchases(sign: Claims -> string) {
    var db := new Store();
    var _ := Register(db, RegisterWithoutKey("alice", "pw"), "h", "t0", sign);
    var added := AddSweet(db, TokenFor("alice"), SweetCreate("Ladoo", "Indian", 2.5, 10), "t1");
    assert added.Ok? && added.status == 201;
    var id := added.body.item.id;
    assert id == 1;
    var first := PurchaseSweetEndpoint(db, TokenFor("alice"), id, PurchaseRequest(7));
    assert first == Ok(200, Item(SweetResponse(id, "Ladoo", "Indian", 2.5, 3, "t1")));
    var second := PurchaseSweetEndpoint(db, TokenFor("alice"), id, PurchaseRequest(5));
    assert second == Error(400, "Insufficient quantity in stock");
    assert db.sweets[id].quantity == 3;
    var missing := PurchaseSweetEndpoint(db, TokenFor("alice"), id + 1, PurchaseRequest(1));
    assert missing.status == 404;
    var stranger := PurchaseSweetEndpoint(db, TokenFor("mallory"), id + 1, PurchaseRequest(1));
    assert stranger == Error(401, "User not found");
  }

  /** A non-admin's delete and restock are refused with 403, before any existence check, and the item stays. */
  method NonAdminCannotDelete(sign: Claims -> string) {
    var db := new Store();
    var _ := Register(db, RegisterWithoutKey("alice", "pw"), "h", "t0", sign);
    var _ := Register(db, RegisterWithoutKey("bob", "pw"), "h", "t0", sign);
    var added := AddSweet(db, TokenFor("bob"), SweetCreate("Barfi", "Indian", 1.0, 4), "t1");
    var id := added.body.item.id;
    var byBob := DeleteSweetEndpoint(db, TokenFor("bob"), id);
    assert byBob == Error(403, "Admin access required");
    assert id in db.sweets;
    var restockByBob := RestockSweetEndpoint(db, TokenFor("bob"), id + 7, RestockRequest(3));
    assert restockByBob.status == 403;
  }

  /** The admin's delete answers 204; the item is then gone for good and its id is not handed out again. */
  method AdminDeletes(sign: Claims -> string) {
    var db := new Store();
    var _ := Register(db, RegisterWithoutKey("alice", "pw"), "h", "t0", sign);
    var added := AddSweet(db, TokenFor("alice"), SweetCreate("Barfi", "Indian", 1.0, 4), "t1");
    var id := added.body.item.id;
    var byAlice := DeleteSweetEndpoint(db, TokenFor("alice"), id);
    assert byAlice == Ok(204, NoContent);
    assert id !in db.sweets;
    var again := RestockSweetEndpoint(db, TokenFor("alice"), id, RestockRequest(3));
    assert again.status == 404;
    var next := AddSweet(db, TokenFor("alice"), SweetCreate("Jalebi", "Indian", 1.5, 2), "t2");
    assert next.body.item.id != id;
  }

  /** An update body with every field left out writes nothing and still answers 200 with the item. */
  method EmptyUpdate(sign: Claims -> string) {
    var db := new Store();
    var _ := Register(db, RegisterWithoutKey("alice", "pw"), "h", "t0", sign);
    var added := AddSweet(db, TokenFor("alice"), SweetCreate("Peda", "Indian", 0.5, 6), "t1");
    var id := added.body.item.id;
    var before := db.sweets;
    var same := UpdateSweetEndpoint(db, TokenFor("alice"), id, NoChanges());
    assert same == Ok(200, Item(SweetResponse(id, "Peda", "Indian", 0.5, 6, "t1")));
    assert db.sweets == before;
  }

  /**
   * Stock of 2^62 restocked by 2^62 would reach 2^63, which the INTEGER column cannot hold: the
   * reply is 500 and the stock stays. An id of 2^63 cannot even be looked up.
   */
  method OverflowingRestock(sign: Claims -> string) {
    var db := new Store();
    var _ := Register(db, RegisterWithoutKey("alice", "pw"), "h", "t0", sign);
    var half := 0x4000_0000_0000_0000;
    var added := AddSweet(db, TokenFor("alice"), SweetCreate("Ladoo", "Indian", 2.5, half), "t1");
    var id := added.body.item.id;
    var restocked := RestockSweetEndpoint(db, TokenFor("alice"), id, RestockRequest(half));
    assert restocked == INTERNAL_SERVER_ERROR;
    assert db.sweets[id].quantity == half;
    var far := PurchaseSweetEndpoint(db, TokenFor("alice"), INT64_MAX + 1, PurchaseRequest(1));
    assert far.status == 500;
  }
}
