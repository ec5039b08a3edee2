/** The bearer-token guard of the admin routes (server/src/middleware/auth.js).
    Signature checking is outside the model: a token verifies exactly when the
    `tokens` map has it, and then names the user id its `sub` claim carries. */
module Auth {
  import opened Common
  import opened Text
  import opened Models

  /** What `requireAuth` puts on `req.user`: id, email and role, nothing more. */
  datatype RequestUser = RequestUser(id: Id, email: string, role: Role)

  const BearerPrefix: string := "Bearer "

  /** The token of an `Authorization` header: what follows a case-sensitive
      `Bearer ` prefix, trimmed; the empty string for any other header. */
  function ExtractToken(authorization: Option<string>): (token: string)
    ensures IsTrimmed(token)
    ensures token != "" ==> authorization.Some? && StartsWith(authorization.value, BearerPrefix)
    ensures authorization.Some? && StartsWith(authorization.value, BearerPrefix) ==>
              token == Trim(authorization.value[|BearerPrefix|..])
  {
    var header := authorization.GetOr("");
    if StartsWith(header, BearerPrefix) then Trim(header[|BearerPrefix|..]) else ""
  }

  /** The header the client sends, `Bearer ${token}`, yields the token back. */
  lemma ExtractSentToken(token: string)
    requires IsTrimmed(token)
    ensures ExtractToken(Some(BearerPrefix + token)) == token
  {
    assert (BearerPrefix + token)[|BearerPrefix|..] == token;
    TrimOfTrimmed(token);
  }

  datatype AuthOutcome = Authenticated(user: RequestUser) | Unauthorized(message: string)

  /** `requireAuth`: every refusal is a 401; a user is let through only when the
      token names a stored, active admin, and the request then carries that
      admin's live id, email and role. */
  function RequireAuth(authorization: Option<string>, tokens: map<string, Id>, admins: map<Id, AdminUser>): (r: AuthOutcome)
    ensures ExtractToken(authorization) == "" ==> r == Unauthorized("Authentication required")
    ensures r.Authenticated? <==>
              var t := ExtractToken(authorization);
              t != "" && t in tokens && tokens[t] in admins && admins[tokens[t]].isActive
    ensures r.Authenticated? ==>
              && r.user.id in admins
              && r.user.id == tokens[ExtractToken(authorization)]
              && r.user.email == admins[r.user.id].email && r.user.role == admins[r.user.id].role
  {
    var token := ExtractToken(authorization);
    if token == "" then Unauthorized("Authentication required")
    else if token !in tokens then Unauthorized("Invalid or expired token")
    else
      var id := tokens[token];
      if id !in admins || !admins[id].isActive then Unauthorized("Invalid authentication session")
      else Authenticated(RequestUser(id, admins[id].email, admins[id].role))
  }

  /** Deactivating an admin shuts out every token of theirs at once. */
  lemma DeactivationTakesEffect(authorization: Option<string>, tokens: map<string, Id>, admins: map<Id, AdminUser>, id: Id)
    requires id in admins
    ensures var r := RequireAuth(authorization, tokens, admins[id := admins[id].(isActive := false)]);
            r.Authenticated? ==> r.user.id != id
  {
  }

  /** The argument of `requireRole`: one role or a list of roles. */
  datatype RolesArg = OneRole(role: string) | RoleList(roles: seq<string>)

  function AllowList(roles: RolesArg): seq<string> {
    match roles
    case OneRole(r) => [r]
    case RoleList(rs) => rs
  }

  datatype Gate = Pass | Deny(code: int, message: string)

  /** `requireRole(roles)`: 401 without a user, 403 for a role not allowed, else pass. */
  function RequireRole(roles: RolesArg, user: Option<RequestUser>): (g: Gate)
    ensures user.None? ==> g == Deny(401, "Authentication required")
    ensures g.Pass? <==> user.Some? && RoleName(user.value.role) in AllowList(roles)
    ensures g.Deny? && user.Some? ==> g == Deny(403, "Insufficient permissions")
  {
    if user.None? then Deny(401, "Authentication required")
    else if RoleName(user.value.role) !in AllowList(roles) then Deny(403, "Insufficient permissions")
    else Pass
  }

  /** The gate on user management, `requireRole('super-admin')`, lets through super-admins only. */
  lemma SuperAdminGate(user: RequestUser)
    ensures RequireRole(OneRole("super-admin"), Some(user)).Pass? <==> user.role == SuperAdmin
  {
  }
}
