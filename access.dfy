/**
 * Registration policy and the per-request access gate (main.py): who becomes an admin,
 * and how a verified token is turned into the identity a request runs as.
 * Token verification itself is not modelled: the gate receives its outcome.
 */
module Access {
  import opened Wrappers
  import opened Database

  /** The shared secret that grants admin rights at registration. */
  const ADMIN_KEY: string := "aswd"

  const HTTP_401_UNAUTHORIZED: int := 401
  const HTTP_403_FORBIDDEN: int := 403

  /**
   * The admin designation rule of registration: the very first account is an admin, and so is
   * any account registered with the exact admin key.
   */
  function IsAdminDesignation(userCount: nat, adminKey: Option<string>): (admin: bool)
    ensures userCount == 0 ==> admin
    ensures adminKey == Some(ADMIN_KEY) ==> admin
    ensures userCount > 0 && adminKey != Some(ADMIN_KEY) ==> !admin
  {
    userCount == 0 || adminKey == Some(ADMIN_KEY)
  }

  /**
   * The terminal registration reads the key as a (stripped) string, so skipping it gives "";
   * an empty key grants nothing beyond what an omitted key grants, and any key that differs
   * from the secret in a single character (case included) grants nothing either.
   */
  lemma CliKeyAgreesWithApi(userCount: nat, key: string)
    ensures IsAdminDesignation(userCount, Some("")) == IsAdminDesignation(userCount, None)
    ensures key != ADMIN_KEY ==> IsAdminDesignation(userCount, Some(key)) == (userCount == 0)
  {
  }

  /** The claims signed into an access token at registration and login. */
  datatype Claims = Claims(sub: string, isAdmin: bool)

  /** The payload `verify_token` returns for a token it accepts; either claim may be missing. */
  datatype Payload = Payload(sub: Option<string>, isAdmin: Option<bool>)

  /** The identity a request runs as. */
  datatype CurrentUser = CurrentUser(id: int, username: string, isAdmin: bool)

  /** Outcome of the gate: the identity, or the HTTP rejection. */
  datatype GateResult = Granted(user: CurrentUser) | Rejected(status: int, detail: string)

  /**
   * `get_current_user`: `verified` is what `verify_token` made of the bearer token. A token that
   * does not verify is rejected with 401 before any lookup; a subject that is not a stored
   * username is rejected with 401 too; otherwise the identity comes from the stored row, the
   * admin bit included (the token's own admin claim is never read).
   */
  function GetCurrentUser(verified: Option<Payload>, users: map<string, UserRow>): (g: GateResult)
    ensures verified.None? ==> g == Rejected(HTTP_401_UNAUTHORIZED, "Invalid or expired token")
    ensures verified.Some? ==>
      (g.Granted? <==> verified.value.sub.Some? && verified.value.sub.value in users)
    ensures verified.Some? && g.Rejected? ==> g == Rejected(HTTP_401_UNAUTHORIZED, "User not found")
    ensures g.Granted? ==>
      var row := users[verified.value.sub.value];
      g.user == CurrentUser(row.id, row.username, row.isAdmin != 0)
  {
    match verified
    case None => Rejected(HTTP_401_UNAUTHORIZED, "Invalid or expired token")
    case Some(payload) =>
      if payload.sub.Some? && payload.sub.value in users then
        var row := users[payload.sub.value];
        Granted(CurrentUser(row.id, row.username, row.isAdmin != 0))
      else
        Rejected(HTTP_401_UNAUTHORIZED, "User not found")
  }

  /** `get_admin_user`: passes an admin through, turns a non-admin into 403, keeps a 401 as it is. */
  function GetAdminUser(current: GateResult): (g: GateResult)
    ensures current.Rejected? ==> g == current
    ensures current.Granted? ==> (g.Granted? <==> current.user.isAdmin)
    ensures g.Granted? ==> g == current
    ensures current.Granted? && g.Rejected? ==> g == Rejected(HTTP_403_FORBIDDEN, "Admin access required")
  {
    if current.Rejected? then current
    else if current.user.isAdmin then current
    else Rejected(HTTP_403_FORBIDDEN, "Admin access required")
  }

  /** Two tokens for the same subject are treated alike, whatever admin claim they carry. */
  lemma AdminClaimIsIgnored(sub: Option<string>, claim1: Option<bool>, claim2: Option<bool>,
                            users: map<string, UserRow>)
    ensures GetCurrentUser(Some(Payload(sub, claim1)), users) == GetCurrentUser(Some(Payload(sub, claim2)), users)
  {
  }

  /**
   * The admin-only gate, end to end: it lets a request through exactly when the token verifies,
   * names a stored user and that user's stored flag is set; it answers 401 when the token or the
   * user is bad and 403 when only the privilege is missing, so the two stay distinguishable.
   */
  lemma AdminGateDecision(verified: Option<Payload>, users: map<string, UserRow>)
    ensures var g := GetAdminUser(GetCurrentUser(verified, users));
      var known := verified.Some? && verified.value.sub.Some? && verified.value.sub.value in users;
      && (g.Granted? <==> known && users[verified.value.sub.value].isAdmin != 0)
      && (g.Rejected? ==> (g.status == HTTP_403_FORBIDDEN <==> known))
      && (g.Rejected? ==> (g.status == HTTP_401_UNAUTHORIZED <==> !known))
  {
  }
}
