/** The document database the admin server talks to, as one in-memory store:
    one map from id to document per collection, the SiteContent singleton (absent
    until first use) and the append-only activity log.  `clock` hands out fresh ids
    and creation times, so later documents have larger ones. */
module Store {
  import opened Common
  import opened Text
  import opened Models

  class Db {
    var requests: map<Id, HelpRequest>
    var volunteers: map<Id, Volunteer>
    var admins: map<Id, AdminUser>
    var inventory: map<Id, InventoryResource>
    var site: Option<SiteContent>
    var logs: seq<ActivityLog>
    var clock: nat

    /** What every handler keeps: each stored document passes its schema, ids and
        times come from the clock, a request only refers to a stored volunteer,
        admin emails are unique, announcements are newest first and the log is in
        creation order. */
    ghost predicate Valid()
      reads this
    {
      && RequestsOk(requests, volunteers, clock)
      && VolunteersOk(volunteers, clock)
      && AdminsOk(admins, clock)
      && InventoryOk(inventory, clock)
      && SiteOk(site, clock)
      && LogsOk(logs, clock)
    }

    /** An empty database. */
    constructor ()
      ensures Valid()
      ensures requests == map[] && volunteers == map[] && admins == map[] && inventory == map[]
      ensures site == None && logs == [] && clock == 0
    {
      requests, volunteers, admins, inventory := map[], map[], map[], map[];
      site, logs, clock := None, [], 0;
    }

    // ---- single-document writes, as `save`, `create` and `findByIdAndUpdate` perform them ----

    /** `save` on a loaded help request: the schema validators run first and a
        rejected document leaves the collection as it was. */
    method SaveRequest(id: Id, rec: HelpRequest) returns (ok: bool)
      requires Valid() && id in requests
      requires rec.assignedVolunteer.Some? ==> rec.assignedVolunteer.value in volunteers
      modifies this
      ensures Valid()
      ensures ok == ValidHelpRequest(rec)
      ensures requests == if ok then old(requests)[id := rec] else old(requests)
      ensures volunteers == old(volunteers) && admins == old(admins) && inventory == old(inventory)
      ensures site == old(site) && logs == old(logs) && clock == old(clock)
    {
      ok := ValidHelpRequest(rec);
      if ok {
        RequestsOkPut(requests, volunteers, clock, id, rec);
        requests := requests[id := rec];
      }
    }

    /** `HelpRequest.create`: a fresh id, or nothing stored when validation fails. */
    method CreateRequest(rec: HelpRequest) returns (id: Option<Id>)
      requires Valid()
      requires rec.assignedVolunteer.Some? ==> rec.assignedVolunteer.value in volunteers
      modifies this
      ensures Valid()
      ensures id.Some? <==> ValidHelpRequest(rec)
      ensures id.Some? ==> id.value == old(clock) && id.value !in old(requests)
      ensures requests == if id.Some? then old(requests)[id.value := rec] else old(requests)
      ensures clock == old(clock) + 1
      ensures volunteers == old(volunteers) && admins == old(admins) && inventory == old(inventory)
      ensures site == old(site) && logs == old(logs)
    {
      LaterClock(this, clock + 1);
      if ValidHelpRequest(rec) {
        RequestsOkPut(requests, volunteers, clock + 1, clock, rec);
        requests := requests[clock := rec];
        id := Some(clock);
      } else {
        id := None;
      }
      clock := clock + 1;
    }

    /** `save` on a loaded volunteer. */
    method SaveVolunteer(id: Id, v: Volunteer) returns (ok: bool)
      requires Valid() && id in volunteers
      modifies this
      ensures Valid()
      ensures ok == ValidVolunteer(v)
      ensures volunteers == if ok then old(volunteers)[id := v] else old(volunteers)
      ensures requests == old(requests) && admins == old(admins) && inventory == old(inventory)
      ensures site == old(site) && logs == old(logs) && clock == old(clock)
    {
      ok := ValidVolunteer(v);
      if ok {
        VolunteersOkPut(volunteers, clock, id, v);
        RequestsOkMoreVolunteers(requests, volunteers, clock, volunteers[id := v], clock);
        volunteers := volunteers[id := v];
      }
    }

    /** `Volunteer.create`. */
    method CreateVolunteer(v: Volunteer) returns (id: Option<Id>)
      requires Valid()
      modifies this
      ensures Valid()
      ensures id.Some? <==> ValidVolunteer(v)
      ensures id.Some? ==> id.value == old(clock) && id.value !in old(volunteers)
      ensures volunteers == if id.Some? then old(volunteers)[id.value := v] else old(volunteers)
      ensures clock == old(clock) + 1
      ensures requests == old(requests) && admins == old(admins) && inventory == old(inventory)
      ensures site == old(site) && logs == old(logs)
    {
      LaterClock(this, clock + 1);
      if ValidVolunteer(v) {
        VolunteersOkPut(volunteers, clock + 1, clock, v);
        RequestsOkMoreVolunteers(requests, volunteers, clock + 1, volunteers[clock := v], clock + 1);
        volunteers := volunteers[clock := v];
        id := Some(clock);
      } else {
        id := None;
      }
      clock := clock + 1;
    }

    /** `Volunteer.findByIdAndUpdate(ref, { availabilityStatus: 'available', assignedTask: '' })`:
        no validators run, no document with that id means no change. */
    method ReleaseVolunteer(ref: Option<Id>)
      requires Valid()
      modifies this
      ensures Valid()
      ensures volunteers == ReleaseRef(old(volunteers), ref)
      ensures requests == old(requests) && admins == old(admins) && inventory == old(inventory)
      ensures site == old(site) && logs == old(logs) && clock == old(clock)
    {
      if ref.Some? && ref.value in volunteers {
        VolunteersOkPut(volunteers, clock, ref.value, Release(volunteers[ref.value]));
        RequestsOkMoreVolunteers(requests, volunteers, clock, ReleaseRef(volunteers, ref), clock);
      }
      volunteers := ReleaseRef(volunteers, ref);
    }

    /** `AdminUser.findOne({ email })`: the unique index allows at most one match. */
    method FindAdminByEmail(email: string) returns (found: Option<Id>)
      requires Valid()
      ensures found.Some? ==> found.value in admins && admins[found.value].email == email
      ensures found.None? ==> forall id :: id in admins ==> admins[id].email != email
    {
      if exists id :: id in admins && admins[id].email == email {
        var id :| id in admins && admins[id].email == email;
        found := Some(id);
      } else {
        found := None;
      }
    }

    /** `save` on a loaded admin user whose email is left as it was. */
    method SaveAdmin(id: Id, a: AdminUser) returns (ok: bool)
      requires Valid() && id in admins && a.email == admins[id].email
      modifies this
      ensures Valid()
      ensures ok == ValidAdminUser(a)
      ensures admins == if ok then old(admins)[id := a] else old(admins)
      ensures requests == old(requests) && volunteers == old(volunteers) && inventory == old(inventory)
      ensures site == old(site) && logs == old(logs) && clock == old(clock)
    {
      ok := ValidAdminUser(a);
      if ok {
        admins := admins[id := a];
      }
    }

    /** `AdminUser.create` for an email no stored admin has. */
    method CreateAdmin(a: AdminUser) returns (id: Option<Id>)
      requires Valid()
      requires forall j :: j in admins ==> admins[j].email != a.email
      modifies this
      ensures Valid()
      ensures id.Some? <==> ValidAdminUser(a)
      ensures id.Some? ==> id.value == old(clock) && id.value !in old(admins)
      ensures admins == if id.Some? then old(admins)[id.value := a] else old(admins)
      ensures clock == old(clock) + 1
      ensures requests == old(requests) && volunteers == old(volunteers) && inventory == old(inventory)
      ensures site == old(site) && logs == old(logs)
    {
      LaterClock(this, clock + 1);
      if ValidAdminUser(a) {
        admins := admins[clock := a];
        id := Some(clock);
      } else {
        id := None;
      }
      clock := clock + 1;
    }

    /** `save` on a loaded inventory item. */
    method SaveItem(id: Id, item: InventoryResource) returns (ok: bool)
      requires Valid() && id in inventory
      modifies this
      ensures Valid()
      ensures ok == ValidInventoryResource(item)
      ensures inventory == if ok then old(inventory)[id := item] else old(inventory)
      ensures requests == old(requests) && volunteers == old(volunteers) && admins == old(admins)
      ensures site == old(site) && logs == old(logs) && clock == old(clock)
    {
      ok := ValidInventoryResource(item);
      if ok {
        inventory := inventory[id := item];
      }
    }

    /** `InventoryResource.create`. */
    method CreateItem(item: InventoryResource) returns (id: Option<Id>)
      requires Valid()
      modifies this
      ensures Valid()
      ensures id.Some? <==> ValidInventoryResource(item)
      ensures id.Some? ==> id.value == old(clock) && id.value !in old(inventory)
      ensures inventory == if id.Some? then old(inventory)[id.value := item] else old(inventory)
      ensures clock == old(clock) + 1
      ensures requests == old(requests) && volunteers == old(volunteers) && admins == old(admins)
      ensures site == old(site) && logs == old(logs)
    {
      LaterClock(this, clock + 1);
      if ValidInventoryResource(item) {
        inventory := inventory[clock := item];
        id := Some(clock);
      } else {
        id := None;
      }
      clock := clock + 1;
    }

    /** `deleteOne` on a loaded inventory item. */
    method DeleteItem(id: Id)
      requires Valid()
      modifies this
      ensures Valid()
      ensures inventory == old(inventory) - {id}
      ensures requests == old(requests) && volunteers == old(volunteers) && admins == old(admins)
      ensures site == old(site) && logs == old(logs) && clock == old(clock)
    {
      inventory := inventory - {id};
    }

    /** `save` on the SiteContent singleton (created when absent). */
    method SaveSite(doc: SiteContent) returns (ok: bool)
      requires Valid() && AnnouncementsNewestFirst(doc.announcements, clock)
      modifies this
      ensures Valid()
      ensures ok == ValidSiteContent(doc)
      ensures site == if ok then Some(doc) else old(site)
      ensures requests == old(requests) && volunteers == old(volunteers) && admins == old(admins)
      ensures inventory == old(inventory) && logs == old(logs) && clock == old(clock)
    {
      ok := ValidSiteContent(doc);
      if ok {
        site := Some(doc);
      }
    }

    /** `doc.announcements.unshift({ title, body, published })` followed by `save`:
        the new announcement takes the next id and creation time. */
    method AddAnnouncement(title: string, body: string, published: bool) returns (a: Announcement, ok: bool)
      requires Valid() && site.Some?
      modifies this
      ensures Valid()
      ensures a == Announcement(old(clock), title, body, published, old(clock))
      ensures ok == ValidAnnouncement(a)
      ensures site == if ok then Some(old(site).value.(announcements := [a] + old(site).value.announcements)) else old(site)
      ensures clock == old(clock) + 1
      ensures requests == old(requests) && volunteers == old(volunteers) && admins == old(admins)
      ensures inventory == old(inventory) && logs == old(logs)
    {
      LaterClock(this, clock + 1);
      a := Announcement(clock, title, body, published, clock);
      var doc := site.value.(announcements := [a] + site.value.announcements);
      ok := ValidAnnouncement(a);
      clock := clock + 1;
      if ok {
        assert ValidSiteContent(doc) by {
          assert forall i :: 1 <= i < |doc.announcements| ==> doc.announcements[i] == old(site).value.announcements[i - 1];
        }
        site := Some(doc);
      }
    }

    /** The bulk update that takes volunteer `v` off every open request. */
    method UnlinkRequests(v: Id)
      requires Valid()
      modifies this
      ensures Valid()
      ensures requests == UnlinkVolunteer(old(requests), v)
      ensures volunteers == old(volunteers) && admins == old(admins) && inventory == old(inventory)
      ensures site == old(site) && logs == old(logs) && clock == old(clock)
    {
      requests := UnlinkVolunteer(requests, v);
    }
  }

  /** The requests after `updateMany({ assignedVolunteer: v, status: { $in: ['new', 'in-progress'] } },
      { $set: { assignedVolunteer: null, status: 'new' } })`. */
  function UnlinkVolunteer(requests: map<Id, HelpRequest>, v: Id): (r: map<Id, HelpRequest>)
    ensures r.Keys == requests.Keys
    // afterwards no open request names v ...
    ensures forall id :: id in r && IsOpen(r[id].status) ==> r[id].assignedVolunteer != Some(v)
    // ... the ones that did are back in the queue, unassigned ...
    ensures forall id :: id in requests && requests[id].assignedVolunteer == Some(v) && IsOpen(requests[id].status) ==>
              r[id] == requests[id].(assignedVolunteer := None, status := New)
    // ... and every other request, resolved ones included, is untouched
    ensures forall id :: id in requests && !(requests[id].assignedVolunteer == Some(v) && IsOpen(requests[id].status)) ==>
              r[id] == requests[id]
  {
    map id | id in requests ::
      if requests[id].assignedVolunteer == Some(v) && IsOpen(requests[id].status)
      then requests[id].(assignedVolunteer := None, status := New)
      else requests[id]
  }

  /** The volunteers after releasing the one `ref` names, if any. */
  function ReleaseRef(vols: map<Id, Volunteer>, ref: Option<Id>): (r: map<Id, Volunteer>)
    ensures r.Keys == vols.Keys
    ensures forall id :: id in vols && Some(id) != ref ==> r[id] == vols[id]
    ensures ref.Some? && ref.value in vols ==> r[ref.value] == Release(vols[ref.value])
  {
    if ref.Some? && ref.value in vols then vols[ref.value := Release(vols[ref.value])] else vols
  }

  ghost predicate RequestsOk(requests: map<Id, HelpRequest>, volunteers: map<Id, Volunteer>, clock: nat) {
    forall id :: id in requests ==>
      && id < clock && ValidHelpRequest(requests[id])
      && (requests[id].assignedVolunteer.Some? ==> requests[id].assignedVolunteer.value in volunteers)
  }

  ghost predicate VolunteersOk(volunteers: map<Id, Volunteer>, clock: nat) {
    forall id :: id in volunteers ==> id < clock && ValidVolunteer(volunteers[id])
  }

  ghost predicate AdminsOk(admins: map<Id, AdminUser>, clock: nat) {
    && (forall id :: id in admins ==> id < clock && ValidAdminUser(admins[id]))
    && UniqueEmails(admins)
  }

  ghost predicate InventoryOk(inventory: map<Id, InventoryResource>, clock: nat) {
    forall id :: id in inventory ==> id < clock && ValidInventoryResource(inventory[id])
  }

  ghost predicate SiteOk(site: Option<SiteContent>, clock: nat) {
    site.Some? ==> ValidSiteContent(site.value) && AnnouncementsNewestFirst(site.value.announcements, clock)
  }

  ghost predicate LogsOk(logs: seq<ActivityLog>, clock: nat) {
    && (forall i :: 0 <= i < |logs| ==> ValidActivityLog(logs[i]) && logs[i].createdAt < clock)
    && (forall i, j :: 0 <= i < j < |logs| ==> logs[i].createdAt < logs[j].createdAt)
  }

  /** The unique index on `AdminUser.email`. */
  ghost predicate UniqueEmails(admins: map<Id, AdminUser>) {
    forall i, j :: i in admins && j in admins && admins[i].email == admins[j].email ==> i == j
  }

  /** Announcements stored newest first, with distinct ids, all issued before `clock`. */
  ghost predicate AnnouncementsNewestFirst(anns: seq<Announcement>, clock: nat) {
    && (forall i :: 0 <= i < |anns| ==> anns[i].id < clock && anns[i].createdAt < clock)
    && (forall i, j :: 0 <= i < j < |anns| ==> anns[i].createdAt > anns[j].createdAt && anns[i].id > anns[j].id)
  }

  // ---- how the invariant survives single writes ----

  lemma RequestsOkPut(requests: map<Id, HelpRequest>, volunteers: map<Id, Volunteer>, clock: nat, id: Id, rec: HelpRequest)
    requires RequestsOk(requests, volunteers, clock)
    requires id < clock && ValidHelpRequest(rec)
    requires rec.assignedVolunteer.Some? ==> rec.assignedVolunteer.value in volunteers
    ensures RequestsOk(requests[id := rec], volunteers, clock)
  {
  }

  /** Rewriting or adding volunteers never leaves a request's reference dangling. */
  lemma RequestsOkMoreVolunteers(requests: map<Id, HelpRequest>, volunteers: map<Id, Volunteer>, clock: nat,
                                 volunteers': map<Id, Volunteer>, clock': nat)
    requires RequestsOk(requests, volunteers, clock)
    requires volunteers.Keys <= volunteers'.Keys && clock <= clock'
    ensures RequestsOk(requests, volunteers', clock')
  {
  }

  lemma VolunteersOkPut(volunteers: map<Id, Volunteer>, clock: nat, id: Id, v: Volunteer)
    requires VolunteersOk(volunteers, clock)
    requires id < clock && ValidVolunteer(v)
    ensures VolunteersOk(volunteers[id := v], clock)
  {
  }

  /** A later clock keeps every part of the invariant that mentions it. */
  lemma LaterClock(db: Db, clock': nat)
    requires db.Valid() && db.clock <= clock'
    ensures RequestsOk(db.requests, db.volunteers, clock') && VolunteersOk(db.volunteers, clock')
    ensures AdminsOk(db.admins, clock') && InventoryOk(db.inventory, clock') && SiteOk(db.site, clock')
  {
  }

  /** Ids of the active super-admins: what `countDocuments({ role: 'super-admin', isActive: true })` counts. */
  function ActiveSuperAdmins(admins: map<Id, AdminUser>): (s: set<Id>)
    ensures forall id :: id in s <==> id in admins && admins[id].isActive && admins[id].role == SuperAdmin
  {
    set id | id in admins && admins[id].isActive && admins[id].role == SuperAdmin
  }

  /** The text form of an id in log details. */
  function IdText(id: Id): (r: string)
    ensures r != ""
  {
    NatToDecimal(id)
  }

  /** The id a body field names: a decimal id string. */
  function ParseId(s: string): Option<Id> {
    ParseDigits(s)
  }

  lemma ParseIdText(id: Id)
    ensures ParseId(IdText(id)) == Some(id)
  {
    ParseNatToDecimal(id);
  }
}
