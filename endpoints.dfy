/**
 * The HTTP handlers of main.py over the store. Each handler first runs its gate (the
 * dependency FastAPI resolves before the body runs), then its own checks in the source's
 * order, and answers with one status code. Token signing, password hashing and the clock
 * are not modelled: the handler receives `sign`, the hash and `now` from outside.
 */
module Endpoints {
  import opened Wrappers
  import opened Models
  import opened Inventory
  import opened Database
  import opened Access

  const HTTP_200_OK: int := 200
  const HTTP_201_CREATED: int := 201
  const HTTP_204_NO_CONTENT: int := 204
  const HTTP_400_BAD_REQUEST: int := 400
  const HTTP_404_NOT_FOUND: int := 404
  const HTTP_500_INTERNAL_SERVER_ERROR: int := 500

  /** What a successful response carries. */
  datatype Body = NoContent | Item(item: SweetResponse) | Items(items: seq<SweetResponse>) | Token(token: TokenResponse)

  /** One HTTP answer: a success with its body, or an `HTTPException`. */
  datatype Response = Ok(status: int, body: Body) | Error(status: int, detail: string)

  /** The answer to an exception the handler does not catch, such as one a data-access call raises. */
  const INTERNAL_SERVER_ERROR: Response := Error(HTTP_500_INTERNAL_SERVER_ERROR, "Internal Server Error")

  /** The answer a gate rejection turns into. */
  function Refusal(g: GateResult): Response
    requires g.Rejected?
  {
    Error(g.status, g.detail)
  }

  // ---------------------------------------------------------------------------
  // auth
  // ---------------------------------------------------------------------------

  /**
   * POST /api/auth/register: a taken username is refused with 400 and nothing is written;
   * otherwise the user is stored with the admin bit the designation rule gives for the current
   * number of users, and a token carrying that bit is returned. Only when every 64-bit id has
   * been handed out does the insert raise, and the reply is 500.
   */
  method Register(db: Store, data: UserRegister, passwordHash: string, now: string,
                  sign: Claims -> string) returns (resp: Response)
    requires db.Valid()
    modifies db
    ensures db.Valid()
    ensures data.username in old(db.users) ==>
      && resp == Error(HTTP_400_BAD_REQUEST, "Username already exists")
      && db.users == old(db.users) && db.nextUserId == old(db.nextUserId)
    ensures data.username !in old(db.users) && old(db.nextUserId) > INT64_MAX ==>
      resp == INTERNAL_SERVER_ERROR && unchanged(db)
    ensures data.username !in old(db.users) && old(db.nextUserId) <= INT64_MAX ==>
      var admin := IsAdminDesignation(|old(db.users)|, data.adminKey);
      && db.users == old(db.users)[data.username := UserRow(old(db.nextUserId), data.username, passwordHash,
                                                            if admin then 1 else 0, now)]
      && db.nextUserId == old(db.nextUserId) + 1
      && resp == Ok(HTTP_200_OK, Token(BearerToken(sign(Claims(data.username, admin)))))
    ensures old(db.users) == map[] ==> resp.Ok? && db.users[data.username].isAdmin == 1
    ensures old(db.AdminExistsOnceOccupied()) ==> db.AdminExistsOnceOccupied()
    ensures db.sweets == old(db.sweets) && db.nextSweetId == old(db.nextSweetId)
  {
    var existing := db.GetUserByUsername(data.username);
    if existing.Some? {
      return Error(HTTP_400_BAD_REQUEST, "Username already exists");
    }
    var userCount := |db.users|;
    var isAdmin := IsAdminDesignation(userCount, data.adminKey);
    ghost var before := db.users;
    var created := db.CreateUser(data.username, passwordHash, isAdmin, now);
    if created.Raises? {
      return INTERNAL_SERVER_ERROR;
    }
    if before != map[] && (exists u :: u in before && before[u].isAdmin == 1) {
      var u :| u in before && before[u].isAdmin == 1;
      assert u in db.users && db.users[u].isAdmin == 1;
    }
    if isAdmin {
      assert db.users[data.username].isAdmin == 1;
    }
    resp := Ok(HTTP_200_OK, Token(BearerToken(sign(Claims(data.username, isAdmin)))));
  }

  /**
   * POST /api/auth/login, control flow only: `authenticated` is what `authenticate_user` found
   * for the submitted credentials. Every failure gets the same 401, whatever its cause; on
   * success the token names the submitted username and carries the stored admin bit. The
   * source signs the stored INTEGER 0 or 1 as the claim, where registration signs a bool; the
   * model signs `isAdmin != 0` in both places, so the claim's JSON type is not kept. The gate
   * never reads the claim (`Access.AdminClaimIsIgnored`).
   */
  function Login(data: UserLogin, authenticated: Option<UserRow>, sign: Claims -> string): (resp: Response)
    ensures resp.Error? <==> authenticated.None?
    ensures resp.Error? ==> resp == Error(HTTP_401_UNAUTHORIZED, "Incorrect username or password")
    ensures resp.Ok? ==>
      resp == Ok(HTTP_200_OK, Token(BearerToken(sign(Claims(data.username, authenticated.value.isAdmin != 0)))))
  {
    match authenticated
    case None => Error(HTTP_401_UNAUTHORIZED, "Incorrect username or password")
    case Some(user) => Ok(HTTP_200_OK, Token(BearerToken(sign(Claims(data.username, user.isAdmin != 0)))))
  }

  // ---------------------------------------------------------------------------
  // sweets
  // ---------------------------------------------------------------------------

  /**
   * POST /api/sweets: any signed-in user adds an item under a fresh id and gets it back with 201.
   * A quantity outside the 64-bit range, or an exhausted id range, makes the insert raise: 500.
   */
  method AddSweet(db: Store, verified: Option<Payload>, sweet: SweetCreate, now: string) returns (resp: Response)
    requires db.Valid()
    modifies db
    ensures db.Valid()
    ensures GetCurrentUser(verified, old(db.users)).Rejected? ==>
      resp == Refusal(GetCurrentUser(verified, old(db.users))) && unchanged(db)
    ensures GetCurrentUser(verified, old(db.users)).Granted? && !(FitsInt64(sweet.quantity) && old(db.nextSweetId) <= INT64_MAX) ==>
      resp == INTERNAL_SERVER_ERROR && unchanged(db)
    ensures GetCurrentUser(verified, old(db.users)).Granted? && FitsInt64(sweet.quantity) && old(db.nextSweetId) <= INT64_MAX ==>
      var id := old(db.nextSweetId);
      && id !in old(db.sweets)
      && db.sweets == old(db.sweets)[id := SweetResponse(id, sweet.name, sweet.category, sweet.price, sweet.quantity, now)]
      && db.nextSweetId == id + 1
      && resp == Ok(HTTP_201_CREATED, Item(db.sweets[id]))
    ensures db.users == old(db.users) && db.nextUserId == old(db.nextUserId)
  {
    var g := GetCurrentUser(verified, db.users);
    if g.Rejected? {
      return Refusal(g);
    }
    var sweetId := db.CreateSweet(sweet.name, sweet.category, sweet.price, sweet.quantity, now);
    if sweetId.Raises? {
      return INTERNAL_SERVER_ERROR;
    }
    var created := db.GetSweetById(sweetId.value);
    resp := Ok(HTTP_201_CREATED, Item(created.value.value));
  }

  /** GET /api/sweets: any signed-in user gets every item, in ascending id order. */
  method GetSweets(db: Store, verified: Option<Payload>) returns (resp: Response)
    requires db.Valid()
    ensures GetCurrentUser(verified, db.users).Rejected? ==> resp == Refusal(GetCurrentUser(verified, db.users))
    ensures GetCurrentUser(verified, db.users).Granted? ==>
      resp.Ok? && resp.status == HTTP_200_OK && resp.body.Items? && IsOrderedListing(resp.body.items, db.sweets)
  {
    var g := GetCurrentUser(verified, db.users);
    if g.Rejected? {
      return Refusal(g);
    }
    var rows := db.GetAllSweets();
    resp := Ok(HTTP_200_OK, Items(rows));
  }

  /** GET /api/sweets/search: any signed-in user gets the items that pass every supplied filter, in id order. */
  method SearchSweetsEndpoint(db: Store, verified: Option<Payload>, name: Option<string>, category: Option<string>,
                              minPrice: Option<real>, maxPrice: Option<real>) returns (resp: Response)
    requires db.Valid()
    ensures GetCurrentUser(verified, db.users).Rejected? ==> resp == Refusal(GetCurrentUser(verified, db.users))
    ensures GetCurrentUser(verified, db.users).Granted? ==>
      && resp.Ok? && resp.status == HTTP_200_OK && resp.body.Items?
      && IsOrderedListing(resp.body.items, Filtered(db.sweets, name, category, minPrice, maxPrice))
  {
    var g := GetCurrentUser(verified, db.users);
    if g.Rejected? {
      return Refusal(g);
    }
    var rows := db.SearchSweets(name, category, minPrice, maxPrice);
    resp := Ok(HTTP_200_OK, Items(rows));
  }

  /**
   * PUT /api/sweets/{id}: 404 for a missing item; otherwise the supplied fields are written and
   * the item is returned. An empty patch writes nothing and still answers 200 with the item,
   * since the handler ignores `update_sweet`'s false. An id or a new quantity outside the 64-bit
   * range makes a data-access call raise: 500, with nothing written.
   */
  method UpdateSweetEndpoint(db: Store, verified: Option<Payload>, sweetId: int, patch: SweetUpdate)
    returns (resp: Response)
    requires db.Valid()
    modifies db
    ensures db.Valid()
    ensures GetCurrentUser(verified, old(db.users)).Rejected? ==>
      resp == Refusal(GetCurrentUser(verified, old(db.users))) && unchanged(db)
    ensures GetCurrentUser(verified, old(db.users)).Granted? && !FitsInt64(sweetId) ==>
      resp == INTERNAL_SERVER_ERROR && unchanged(db)
    ensures GetCurrentUser(verified, old(db.users)).Granted? && FitsInt64(sweetId) && sweetId !in old(db.sweets) ==>
      resp == Error(HTTP_404_NOT_FOUND, "Sweet not found") && unchanged(db)
    ensures GetCurrentUser(verified, old(db.users)).Granted? && sweetId in old(db.sweets)
              && patch.quantity.Some? && !FitsInt64(patch.quantity.value) ==>
      resp == INTERNAL_SERVER_ERROR && unchanged(db)
    ensures GetCurrentUser(verified, old(db.users)).Granted? && sweetId in old(db.sweets)
              && !(patch.quantity.Some? && !FitsInt64(patch.quantity.value)) ==>
      && db.sweets == old(db.sweets)[sweetId := Patched(old(db.sweets)[sweetId], patch.name, patch.category,
                                                         patch.price, patch.quantity)]
      && resp == Ok(HTTP_200_OK, Item(db.sweets[sweetId]))
    ensures GetCurrentUser(verified, old(db.users)).Granted? && sweetId in old(db.sweets) && patch.IsEmpty() ==>
      db.sweets == old(db.sweets) && resp == Ok(HTTP_200_OK, Item(old(db.sweets)[sweetId]))
    ensures db.users == old(db.users) && db.nextUserId == old(db.nextUserId) && db.nextSweetId == old(db.nextSweetId)
  {
    var g := GetCurrentUser(verified, db.users);
    if g.Rejected? {
      return Refusal(g);
    }
    var found := db.GetSweetById(sweetId);
    if found.Raises? {
      return INTERNAL_SERVER_ERROR;
    }
    if found.value.None? {
      return Error(HTTP_404_NOT_FOUND, "Sweet not found");
    }
    ghost var before := db.sweets;
    var written := db.UpdateSweet(sweetId, patch.name, patch.category, patch.price, patch.quantity);
    if written.Raises? {
      return INTERNAL_SERVER_ERROR;
    }
    if patch.IsEmpty() {
      EmptyPatchIsIdentity(before[sweetId]);
      assert before[sweetId := before[sweetId]] == before;
    }
    var updated := db.GetSweetById(sweetId);
    resp := Ok(HTTP_200_OK, Item(updated.value.value));
  }

  /**
   * DELETE /api/sweets/{id}, admin only: the gate answers first (401, then 403), so a non-admin
   * learns nothing about the item and changes nothing; then 500 for an id outside the 64-bit
   * range and 404 for a missing item; else the row is removed and 204 returned.
   */
  method DeleteSweetEndpoint(db: Store, verified: Option<Payload>, sweetId: int) returns (resp: Response)
    requires db.Valid()
    modifies db
    ensures db.Valid()
    ensures var g := GetAdminUser(GetCurrentUser(verified, old(db.users)));
      g.Rejected? ==> resp == Refusal(g) && unchanged(db)
    ensures GetAdminUser(GetCurrentUser(verified, old(db.users))).Granted? && !FitsInt64(sweetId) ==>
      resp == INTERNAL_SERVER_ERROR && unchanged(db)
    ensures GetAdminUser(GetCurrentUser(verified, old(db.users))).Granted? && FitsInt64(sweetId) && sweetId !in old(db.sweets) ==>
      resp == Error(HTTP_404_NOT_FOUND, "Sweet not found") && unchanged(db)
    ensures GetAdminUser(GetCurrentUser(verified, old(db.users))).Granted? && sweetId in old(db.sweets) ==>
      resp == Ok(HTTP_204_NO_CONTENT, NoContent) && db.sweets == old(db.sweets) - {sweetId}
    ensures db.users == old(db.users) && db.nextUserId == old(db.nextUserId) && db.nextSweetId == old(db.nextSweetId)
  {
    var g := GetAdminUser(GetCurrentUser(verified, db.users));
    if g.Rejected? {
      return Refusal(g);
    }
    var found := db.GetSweetById(sweetId);
    if found.Raises? {
      return INTERNAL_SERVER_ERROR;
    }
    if found.value.None? {
      return Error(HTTP_404_NOT_FOUND, "Sweet not found");
    }
    var _ := db.DeleteSweet(sweetId);
    resp := Ok(HTTP_204_NO_CONTENT, NoContent);
  }

  // ---------------------------------------------------------------------------
  // inventory
  // ---------------------------------------------------------------------------

  /**
   * POST /api/sweets/{id}/purchase: 404 for a missing item, 400 when the stock is short (both
   * with nothing written); otherwise the stock drops by exactly the requested amount, never
   * below zero, and the updated item is returned. An id or a new quantity outside the 64-bit
   * range makes a data-access call raise: 500, with nothing written.
   */
  method PurchaseSweetEndpoint(db: Store, verified: Option<Payload>, sweetId: int, purchase: PurchaseRequest)
    returns (resp: Response)
    requires db.Valid()
    modifies db
    ensures db.Valid()
    ensures GetCurrentUser(verified, old(db.users)).Rejected? ==>
      resp == Refusal(GetCurrentUser(verified, old(db.users))) && unchanged(db)
    ensures GetCurrentUser(verified, old(db.users)).Granted? && !FitsInt64(sweetId) ==>
      resp == INTERNAL_SERVER_ERROR && unchanged(db)
    ensures GetCurrentUser(verified, old(db.users)).Granted? && FitsInt64(sweetId) && sweetId !in old(db.sweets) ==>
      resp == Error(HTTP_404_NOT_FOUND, "Sweet not found") && unchanged(db)
    ensures GetCurrentUser(verified, old(db.users)).Granted? && sweetId in old(db.sweets)
              && old(db.sweets)[sweetId].quantity < purchase.quantity ==>
      resp == Error(HTTP_400_BAD_REQUEST, "Insufficient quantity in stock") && unchanged(db)
    ensures GetCurrentUser(verified, old(db.users)).Granted? && PurchaseOverflows(old(db.sweets), sweetId, purchase.quantity) ==>
      resp == INTERNAL_SERVER_ERROR && unchanged(db)
    ensures GetCurrentUser(verified, old(db.users)).Granted? && CanPurchase(old(db.sweets), sweetId, purchase.quantity)
              && !PurchaseOverflows(old(db.sweets), sweetId, purchase.quantity) ==>
      && db.sweets == Purchase(old(db.sweets), sweetId, purchase.quantity)
      && db.sweets[sweetId].quantity == old(db.sweets)[sweetId].quantity - purchase.quantity >= 0
      && resp == Ok(HTTP_200_OK, Item(db.sweets[sweetId]))
    ensures db.users == old(db.users) && db.nextUserId == old(db.nextUserId) && db.nextSweetId == old(db.nextSweetId)
  {
    var g := GetCurrentUser(verified, db.users);
    if g.Rejected? {
      return Refusal(g);
    }
    var found := db.GetSweetById(sweetId);
    if found.Raises? {
      return INTERNAL_SERVER_ERROR;
    }
    if found.value.None? {
      return Error(HTTP_404_NOT_FOUND, "Sweet not found");
    }
    var bought := db.PurchaseSweet(sweetId, purchase.quantity);
    if bought.Raises? {
      return INTERNAL_SERVER_ERROR;
    }
    if !bought.value {
      return Error(HTTP_400_BAD_REQUEST, "Insufficient quantity in stock");
    }
    var updated := db.GetSweetById(sweetId);
    resp := Ok(HTTP_200_OK, Item(updated.value.value));
  }

  /**
   * POST /api/sweets/{id}/restock, admin only: the gate answers first (401, then 403), then 404
   * for a missing item; otherwise the stock rises by exactly the given amount and the item is
   * returned. An id or a new quantity outside the 64-bit range makes a data-access call raise:
   * 500, with nothing written.
   */
  method RestockSweetEndpoint(db: Store, verified: Option<Payload>, sweetId: int, restock: RestockRequest)
    returns (resp: Response)
    requires db.Valid()
    modifies db
    ensures db.Valid()
    ensures var g := GetAdminUser(GetCurrentUser(verified, old(db.users)));
      g.Rejected? ==> resp == Refusal(g) && unchanged(db)
    ensures GetAdminUser(GetCurrentUser(verified, old(db.users))).Granted? && !FitsInt64(sweetId) ==>
      resp == INTERNAL_SERVER_ERROR && unchanged(db)
    ensures GetAdminUser(GetCurrentUser(verified, old(db.users))).Granted? && FitsInt64(sweetId) && sweetId !in old(db.sweets) ==>
      resp == Error(HTTP_404_NOT_FOUND, "Sweet not found") && unchanged(db)
    ensures GetAdminUser(GetCurrentUser(verified, old(db.users))).Granted? && RestockOverflows(old(db.sweets), sweetId, restock.quantity) ==>
      resp == INTERNAL_SERVER_ERROR && unchanged(db)
    ensures GetAdminUser(GetCurrentUser(verified, old(db.users))).Granted? && sweetId in old(db.sweets)
              && !RestockOverflows(old(db.sweets), sweetId, restock.quantity) ==>
      && db.sweets == Restock(old(db.sweets), sweetId, restock.quantity)
      && db.sweets[sweetId].quantity == old(db.sweets)[sweetId].quantity + restock.quantity
      && resp == Ok(HTTP_200_OK, Item(db.sweets[sweetId]))
    ensures db.users == old(db.users) && db.nextUserId == old(db.nextUserId) && db.nextSweetId == old(db.nextSweetId)
  {
    var g := GetAdminUser(GetCurrentUser(verified, db.users));
    if g.Rejected? {
      return Refusal(g);
    }
    var found := db.GetSweetById(sweetId);
    if found.Raises? {
      return INTERNAL_SERVER_ERROR;
    }
    if found.value.None? {
      return Error(HTTP_404_NOT_FOUND, "Sweet not found");
    }
    var restocked := db.RestockSweet(sweetId, restock.quantity);
    if restocked.Raises? {
      return INTERNAL_SERVER_ERROR;
    }
    var updated := db.GetSweetById(sweetId);
    resp := Ok(HTTP_200_OK, Item(updated.value.value));
  }
}
