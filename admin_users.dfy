/** The user-management handlers (server/src/controllers/admin/userController.js),
    mounted behind `requireRole('super-admin')`: the acting user is a super-admin.
    They keep at least one active super-admin once there is one. */
module AdminUsers {
  import opened Common
  import opened Text
  import opened Js
  import opened Models
  import opened Store
  import opened Auth
  import opened ActivityLogger

  /** The fields an admin listing or reply shows: never the password hash. */
  datatype AdminView = AdminView(id: Id, email: string, role: Role)

  /** `AdminUser.find({ isActive: true }).select('_id email role ...')`. */
  function ListAdminUsers(admins: map<Id, AdminUser>): (r: map<Id, AdminView>)
    ensures forall id :: id in r <==> id in admins && admins[id].isActive
    ensures forall id :: id in r ==> r[id] == AdminView(id, admins[id].email, admins[id].role)
  {
    map id | id in admins && admins[id].isActive :: AdminView(id, admins[id].email, admins[id].role)
  }

  function FormEmail(body: Body): string { ToLower(TrimmedText(Field(body, "email"))) }

  /** The password is taken as sent, without trimming. */
  function FormPassword(body: Body): string { StrOr(Field(body, "password")) }

  /** Only the exact string 'super-admin' creates a super-admin. */
  function CreatedRole(body: Body): (r: Role)
    ensures r == SuperAdmin <==> Field(body, "role") == Str("super-admin")
  {
    if Field(body, "role") == Str("super-admin") then SuperAdmin else Admin
  }

  predicate CredentialsOk(body: Body) {
    FormEmail(body) != "" && |FormPassword(body)| >= 8
  }

  /** `createAdminUser`. `hash` is what `bcrypt.hash(password, 12)` returns, never empty.
      An inactive account with the same email is reactivated in place. */
  method CreateAdminUser(db: Db, actor: RequestUser, body: Body, hash: string) returns (reply: Reply<AdminView>)
    requires db.Valid() && actor.role == SuperAdmin && hash != ""
    modifies db
    ensures db.Valid()
    ensures !CredentialsOk(body) ==>
              reply == Failure(400, "Valid email and password (min 8 chars) are required") && unchanged(db)
    ensures CredentialsOk(body) && (exists id :: id in old(db.admins) && old(db.admins)[id].email == FormEmail(body)
                                                && old(db.admins)[id].isActive) ==>
              reply == Failure(409, "Admin user already exists") && unchanged(db)
    ensures CredentialsOk(body) ==>
              forall id :: id in old(db.admins) && old(db.admins)[id].email == FormEmail(body) && !old(db.admins)[id].isActive ==>
                var user := AdminUser(FormEmail(body), hash, CreatedRole(body), true);
                && db.admins == old(db.admins)[id := user]
                && Committed(reply, 201, AdminView(id, user.email, user.role), old(db.logs), db.logs, Some(actor), "admin-user.created",
                             "Admin user " + user.email + " created as " + RoleName(user.role), db.clock)
    ensures CredentialsOk(body) && (forall id :: id in old(db.admins) ==> old(db.admins)[id].email != FormEmail(body)) ==>
              var user := AdminUser(FormEmail(body), hash, CreatedRole(body), true);
              if ValidAdminUser(user) then
                && db.admins == old(db.admins)[old(db.clock) := user]
                && Committed(reply, 201, AdminView(old(db.clock), user.email, user.role), old(db.logs), db.logs,
                             Some(actor), "admin-user.created",
                             "Admin user " + user.email + " created as " + RoleName(user.role), db.clock)
              else
                // an email over the schema's 160 characters
                reply == Failure(500, ValidationFailed) && db.admins == old(db.admins) && db.logs == old(db.logs)
    ensures db.requests == old(db.requests) && db.volunteers == old(db.volunteers)
    ensures db.inventory == old(db.inventory) && db.site == old(db.site)
  {
    var email := FormEmail(body);
    var password := FormPassword(body);
    var role := CreatedRole(body);
    if email == "" || password == "" || |password| < 8 {
      return Failure(400, "Valid email and password (min 8 chars) are required");
    }
    var existing := db.FindAdminByEmail(email);
    if existing.Some? && db.admins[existing.value].isActive {
      return Failure(409, "Admin user already exists");
    }
    var user := AdminUser(email, hash, role, true);
    if existing.Some? {
      reply := ReactivateAdmin(db, actor, existing.value, user);
    } else {
      reply := CreateNewAdmin(db, actor, user);
    }
  }

  /** The reactivation branch: the inactive account takes the new hash and role. */
  method ReactivateAdmin(db: Db, actor: RequestUser, id: Id, user: AdminUser) returns (reply: Reply<AdminView>)
    requires db.Valid() && id in db.admins && db.admins[id].email == user.email && user.passwordHash != ""
    modifies db
    ensures db.Valid()
    ensures db.admins == old(db.admins)[id := user]
    ensures Committed(reply, 201, AdminView(id, user.email, user.role), old(db.logs), db.logs, Some(actor), "admin-user.created",
                             "Admin user " + user.email + " created as " + RoleName(user.role), db.clock)
    ensures db.requests == old(db.requests) && db.volunteers == old(db.volunteers)
    ensures db.inventory == old(db.inventory) && db.site == old(db.site)
  {
    var saved := db.SaveAdmin(id, user);
    reply := Commit(db, Some(actor), "admin-user.created",
                    "Admin user " + user.email + " created as " + RoleName(user.role), 201, AdminView(id, user.email, user.role));
  }

  /** The creation branch: a fresh id, or 500 when the schema refuses the document. */
  method CreateNewAdmin(db: Db, actor: RequestUser, user: AdminUser) returns (reply: Reply<AdminView>)
    requires db.Valid() && forall j :: j in db.admins ==> db.admins[j].email != user.email
    modifies db
    ensures db.Valid()
    ensures ValidAdminUser(user) ==>
              && db.admins == old(db.admins)[old(db.clock) := user]
              && Committed(reply, 201, AdminView(old(db.clock), user.email, user.role), old(db.logs), db.logs,
                           Some(actor), "admin-user.created",
                             "Admin user " + user.email + " created as " + RoleName(user.role), db.clock)
    ensures !ValidAdminUser(user) ==>
              reply == Failure(500, ValidationFailed) && db.admins == old(db.admins) && db.logs == old(db.logs)
    ensures db.requests == old(db.requests) && db.volunteers == old(db.volunteers)
    ensures db.inventory == old(db.inventory) && db.site == old(db.site)
  {
    var created := db.CreateAdmin(user);
    if created.None? {
      return Failure(500, ValidationFailed);
    }
    reply := Commit(db, Some(actor), "admin-user.created",
                    "Admin user " + user.email + " created as " + RoleName(user.role), 201, AdminView(created.value, user.email, user.role));
  }

  /** The role a role change asks for: exactly 'super-admin' or 'admin'. */
  function RequestedRole(body: Body): (r: Option<Role>)
    ensures r == Some(SuperAdmin) <==> Field(body, "role") == Str("super-admin")
    ensures r == Some(Admin) <==> Field(body, "role") == Str("admin")
  {
    var raw := Field(body, "role");
    if raw == Str("super-admin") then Some(SuperAdmin) else if raw == Str("admin") then Some(Admin) else None
  }

  /** An admin loaded by `findOne({ _id, isActive: true })`. */
  predicate ActiveAdmin(admins: map<Id, AdminUser>, id: Id) {
    id in admins && admins[id].isActive
  }

  /** The last-super-admin guard: the change takes away an active super-admin
      while `countDocuments` finds at most one. */
  predicate LastSuperAdmin(admins: map<Id, AdminUser>, id: Id) {
    id in admins && admins[id].role == SuperAdmin && |ActiveSuperAdmins(admins)| <= 1
  }

  /** Rewriting one admin keeps an active super-admin whenever the rewrite either
      keeps that admin an active super-admin or there is another one. */
  lemma KeepsASuperAdmin(admins: map<Id, AdminUser>, id: Id, a: AdminUser)
    requires id in admins
    requires id in ActiveSuperAdmins(admins) && !(a.isActive && a.role == SuperAdmin) ==> |ActiveSuperAdmins(admins)| >= 2
    ensures |ActiveSuperAdmins(admins)| >= 1 ==> |ActiveSuperAdmins(admins[id := a])| >= 1
  {
    var before := ActiveSuperAdmins(admins);
    var after := ActiveSuperAdmins(admins[id := a]);
    if |before| >= 1 {
      if a.isActive && a.role == SuperAdmin {
        assert id in after;
      } else if id !in before {
        assert before == after;
      } else {
        var rest := before - {id};
        assert |rest| >= 1;
        var y :| y in rest;
        assert y in after;
      }
    }
  }

  method UpdateAdminRole(db: Db, actor: RequestUser, id: Id, body: Body) returns (reply: Reply<(Id, Role)>)
    requires db.Valid() && actor.role == SuperAdmin
    modifies db
    ensures db.Valid()
    ensures RequestedRole(body).None? ==> reply == Failure(400, "Invalid role value") && unchanged(db)
    ensures RequestedRole(body).Some? && !ActiveAdmin(old(db.admins), id) ==>
              reply == Failure(404, "Admin user not found") && unchanged(db)
    ensures RequestedRole(body) == Some(Admin) && ActiveAdmin(old(db.admins), id) && LastSuperAdmin(old(db.admins), id) ==>
              reply == Failure(400, "At least one super admin is required") && unchanged(db)
    ensures RequestedRole(body).Some? && ActiveAdmin(old(db.admins), id)
            && !(RequestedRole(body) == Some(Admin) && LastSuperAdmin(old(db.admins), id)) ==>
              var role := RequestedRole(body).value;
              && db.admins == old(db.admins)[id := old(db.admins)[id].(role := role)]
              && Committed(reply, 200, (id, role), old(db.logs), db.logs, Some(actor), "admin-user.role.updated",
                           "Admin user " + old(db.admins)[id].email + " role changed to " + RoleName(role), db.clock)
    ensures |ActiveSuperAdmins(old(db.admins))| >= 1 ==> |ActiveSuperAdmins(db.admins)| >= 1
    ensures db.requests == old(db.requests) && db.volunteers == old(db.volunteers)
    ensures db.inventory == old(db.inventory) && db.site == old(db.site)
  {
    var role := RequestedRole(body);
    if role.None? {
      return Failure(400, "Invalid role value");
    }
    if id !in db.admins || !db.admins[id].isActive {
      return Failure(404, "Admin user not found");
    }
    var user := db.admins[id];
    if user.role == SuperAdmin && role.value == Admin && |ActiveSuperAdmins(db.admins)| <= 1 {
      return Failure(400, "At least one super admin is required");
    }
    var updated := user.(role := role.value);
    KeepsASuperAdmin(db.admins, id, updated);
    var saved := db.SaveAdmin(id, updated);
    reply := Commit(db, Some(actor), "admin-user.role.updated",
                    "Admin user " + user.email + " role changed to " + RoleName(role.value), 200, (id, role.value));
  }

  method RemoveAdminUser(db: Db, actor: RequestUser, id: Id) returns (reply: Reply<Id>)
    requires db.Valid() && actor.role == SuperAdmin
    modifies db
    ensures db.Valid()
    ensures !ActiveAdmin(old(db.admins), id) ==> reply == Failure(404, "Admin user not found") && unchanged(db)
    ensures ActiveAdmin(old(db.admins), id) && id == actor.id ==>
              reply == Failure(400, "You cannot remove your own account") && unchanged(db)
    ensures ActiveAdmin(old(db.admins), id) && id != actor.id && LastSuperAdmin(old(db.admins), id) ==>
              reply == Failure(400, "At least one super admin is required") && unchanged(db)
    ensures ActiveAdmin(old(db.admins), id) && id != actor.id && !LastSuperAdmin(old(db.admins), id) ==>
              && db.admins == old(db.admins)[id := old(db.admins)[id].(isActive := false)]
              && Committed(reply, 200, id, old(db.logs), db.logs, Some(actor), "admin-user.removed",
                           "Admin user " + old(db.admins)[id].email + " removed", db.clock)
    ensures |ActiveSuperAdmins(old(db.admins))| >= 1 ==> |ActiveSuperAdmins(db.admins)| >= 1
    ensures db.requests == old(db.requests) && db.volunteers == old(db.volunteers)
    ensures db.inventory == old(db.inventory) && db.site == old(db.site)
  {
    if id !in db.admins || !db.admins[id].isActive {
      return Failure(404, "Admin user not found");
    }
    if id == actor.id {
      return Failure(400, "You cannot remove your own account");
    }
    var user := db.admins[id];
    if user.role == SuperAdmin && |ActiveSuperAdmins(db.admins)| <= 1 {
      return Failure(400, "At least one super admin is required");
    }
    var removed := user.(isActive := false);
    KeepsASuperAdmin(db.admins, id, removed);
    var saved := db.SaveAdmin(id, removed);
    reply := Commit(db, Some(actor), "admin-user.removed",
                    "Admin user " + user.email + " removed", 200, id);
  }

  /** `n` clamped to 1..100. */
  function Clamp(n: int): (k: nat)
    ensures 1 <= k <= 100
    ensures 1 <= n <= 100 ==> k == n
  {
    if n < 1 then 1 else if n > 100 then 100 else n
  }

  /** `Math.min(Math.max(Number(req.query.limit || 20), 1), 100)`; `None` when the
      number is NaN, which the clamp passes through. */
  function LogLimit(raw: JsValue): (k: Option<nat>)
    ensures !Truthy(raw) ==> k == Some(20)
    ensures k.Some? ==> 1 <= k.value <= 100
    ensures Truthy(raw) && ToNumber(raw).Finite? ==>
              k == Some(if ToNumber(raw).value < 1 then 1 else if ToNumber(raw).value > 100 then 100 else ToNumber(raw).value)
    ensures Truthy(raw) && ToNumber(raw) == Infinite(false) ==> k == Some(100)
    ensures Truthy(raw) && ToNumber(raw) == Infinite(true) ==> k == Some(1)
    ensures k.None? <==> Truthy(raw) && ToNumber(raw).NaN?
  {
    match ToNumber(if Truthy(raw) then raw else Num(20))
    case Finite(n) => Some(Clamp(n))
    case Infinite(negative) => Some(if negative then 1 else 100)
    case NaN => None
  }

  /** A limit sent as a query string of digits is that number, clamped to 1..100. */
  lemma LimitOfQueryString(n: nat)
    ensures LogLimit(Str(NatToDecimal(n))) == Some(if n < 1 then 1 else if n > 100 then 100 else n)
  {
    NumberOfPrintedNat(n);
  }

  /** `listActivityLogs`: the newest `limit` records, newest first; every record when
      the limit is NaN. */
  function ListActivityLogs(logs: seq<ActivityLog>, query: Body): (r: seq<ActivityLog>)
    ensures var k := LogLimit(Field(query, "limit"));
            |r| == if k.Some? && k.value < |logs| then k.value else |logs|
    ensures forall i :: 0 <= i < |r| ==> r[i] == logs[|logs| - 1 - i]
  {
    match LogLimit(Field(query, "limit"))
    case Some(k) => NewestFirst(logs, k)
    case None => NewestFirst(logs, |logs|)
  }

  /** On a log in creation order the listing is strictly newest first, and every
      record it leaves out is older than every record it shows. */
  lemma ListActivityLogsNewest(logs: seq<ActivityLog>, query: Body)
    requires forall i, j :: 0 <= i < j < |logs| ==> logs[i].createdAt < logs[j].createdAt
    ensures var r := ListActivityLogs(logs, query);
            && (forall i, j :: 0 <= i < j < |r| ==> r[i].createdAt > r[j].createdAt)
            && (forall i, j :: 0 <= i < |r| && 0 <= j < |logs| - |r| ==> logs[j].createdAt < r[i].createdAt)
  {
    var k := LogLimit(Field(query, "limit"));
    NewestFirstIsNewest(logs, if k.Some? then k.value else |logs|);
  }
}
