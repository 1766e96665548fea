/**
 * The request and response schemas of the service (models.py).
 * Prices are `real` (the source uses floats); strings are `seq<char>`.
 */
module Models {
  import opened Wrappers

  /** Body of POST /api/auth/register; `adminKey` may be omitted. */
  datatype UserRegister = UserRegister(username: string, password: string, adminKey: Option<string>)

  /** Body of POST /api/auth/login. */
  datatype UserLogin = UserLogin(username: string, password: string)

  /** Reply to a successful registration or login. */
  datatype TokenResponse = TokenResponse(accessToken: string, tokenType: string)

  /** Body of POST /api/sweets. */
  datatype SweetCreate = SweetCreate(name: string, category: string, price: real, quantity: int)

  /** Body of PUT /api/sweets/{id}: every field is independently optional, `None` leaves it as it is. */
  datatype SweetUpdate = SweetUpdate(name: Option<string>, category: Option<string>,
                                     price: Option<real>, quantity: Option<int>)
  {
    /** True when the patch sets no field at all. */
    predicate IsEmpty() {
      name.None? && category.None? && price.None? && quantity.None?
    }
  }

  /** An inventory item as returned to clients; it has exactly the columns of a `sweets` row. */
  datatype SweetResponse = SweetResponse(id: int, name: string, category: string, price: real,
                                         quantity: int, createdAt: string)

  /** Bodies of the two ledger endpoints; the schema puts no sign constraint on the quantity. */
  datatype PurchaseRequest = PurchaseRequest(quantity: int)
  datatype RestockRequest = RestockRequest(quantity: int)

  /** Query parameters of GET /api/sweets/search. */
  datatype SearchParams = SearchParams(name: Option<string>, category: Option<string>,
                                       minPrice: Option<real>, maxPrice: Option<real>)

  /** A registration body in which the client left out `admin_key`. */
  function RegisterWithoutKey(username: string, password: string): (r: UserRegister)
    ensures r.username == username && r.password == password
    ensures r.adminKey.None?
  {
    UserRegister(username, password, None)
  }

  /** A token reply built from the access token alone: the type defaults to "bearer". */
  function BearerToken(accessToken: string): (r: TokenResponse)
    ensures r.accessToken == accessToken
    ensures r.tokenType == "bearer"
  {
    TokenResponse(accessToken, "bearer")
  }

  /** An update body in which every field was left out. */
  function NoChanges(): (u: SweetUpdate)
    ensures u.IsEmpty()
  {
    SweetUpdate(None, None, None, None)
  }
}
