/** The admin volunteer handlers (server/src/controllers/admin/volunteerController.js):
    listing, creation by an admin, approval and availability changes, and removal,
    which also takes the volunteer off every open request. */
module AdminVolunteers {
  import opened Common
  import opened Text
  import opened Js
  import opened Models
  import opened Store
  import opened Auth
  import opened ActivityLogger

  /** `normalizeSkills`: a non-array gives no skills; otherwise each entry as
      `String(skill || '').trim()`, with the empty ones dropped. */
  function NormalizeSkills(skills: JsValue): (r: seq<string>)
    ensures !skills.Arr? ==> r == []
    ensures skills.Arr? ==> r == NonEmptyTexts(skills.items)
    ensures forall i :: 0 <= i < |r| ==> r[i] != "" && IsTrimmed(r[i])
  {
    if skills.Arr? then NonEmptyTexts(skills.items) else []
  }

  /** A kept skill is exactly a non-empty text some array entry trims to. */
  lemma NormalizeSkillsMembers(items: seq<JsValue>, x: string)
    ensures x in NormalizeSkills(Arr(items)) <==> x != "" && exists i :: 0 <= i < |items| && TrimmedText(items[i]) == x
  {
    NonEmptyTextsMembers(items, x);
  }

  /** A skill list that is already normal comes back unchanged when sent as an array of strings. */
  lemma NormalizeSkillsIdempotent(skills: seq<string>)
    requires forall i :: 0 <= i < |skills| ==> skills[i] != "" && IsTrimmed(skills[i])
    ensures NormalizeSkills(Arr(seq(|skills|, i requires 0 <= i < |skills| => Str(skills[i])))) == skills
  {
    NonEmptyTextsOfNormal(skills);
  }

  /** `Volunteer.find({ isActive: true, approvalStatus?, availabilityStatus? })`: a query
      parameter filters only when it is non-empty, and then by exact stored value. */
  function ListVolunteers(vols: map<Id, Volunteer>, approvalQuery: string, availabilityQuery: string): (r: map<Id, Volunteer>)
    ensures forall id :: id in r <==>
              && id in vols && vols[id].isActive
              && (approvalQuery == "" || ApprovalName(vols[id].approvalStatus) == approvalQuery)
              && (availabilityQuery == "" || AvailabilityName(vols[id].availabilityStatus) == availabilityQuery)
    ensures forall id :: id in r ==> r[id] == vols[id]
  {
    map id | id in vols && vols[id].isActive
                        && (approvalQuery == "" || ApprovalName(vols[id].approvalStatus) == approvalQuery)
                        && (availabilityQuery == "" || AvailabilityName(vols[id].availabilityStatus) == availabilityQuery)
           :: vols[id]
  }

  /** A removed volunteer is never listed, whatever the filters. */
  lemma RemovedNotListed(vols: map<Id, Volunteer>, id: Id, approvalQuery: string, availabilityQuery: string)
    requires id in vols && !vols[id].isActive
    ensures id !in ListVolunteers(vols, approvalQuery, availabilityQuery)
  {
  }

  /** The five required text fields of the admin form, as the handler reads them. */
  function FormName(body: Body): string { TrimmedText(Field(body, "name")) }
  function FormEmail(body: Body): string { ToLower(TrimmedText(Field(body, "email"))) }
  function FormPhone(body: Body): string { TrimmedText(Field(body, "phone")) }
  function FormAvailability(body: Body): string { TrimmedText(Field(body, "availability")) }
  function FormLocation(body: Body): string { TrimmedText(Field(body, "location")) }

  predicate FormComplete(body: Body) {
    FormName(body) != "" && FormEmail(body) != "" && FormPhone(body) != ""
    && FormAvailability(body) != "" && FormLocation(body) != ""
  }

  /** Only the exact string 'busy' makes an admin-created volunteer busy. */
  function RequestedAvailability(body: Body): (a: AvailabilityStatus)
    ensures a == Busy <==> Field(body, "availabilityStatus") == Str("busy")
  {
    if Field(body, "availabilityStatus") == Str("busy") then Busy else Available
  }

  /** 'rejected' and 'pending' are taken as given; anything else approves. */
  function RequestedApproval(body: Body): (a: ApprovalStatus)
    ensures a == Rejected <==> Field(body, "approvalStatus") == Str("rejected")
    ensures a == Pending <==> Field(body, "approvalStatus") == Str("pending")
  {
    var raw := Field(body, "approvalStatus");
    if raw == Str("rejected") then Rejected else if raw == Str("pending") then Pending else Approved
  }

  /** The document the admin form asks `Volunteer.create` to store. */
  function AdminVolunteer(body: Body): (v: Volunteer)
    ensures v.isActive && v.assignedTask == ""
    ensures v.email == FormEmail(body) && v.name == FormName(body) && v.location == FormLocation(body)
    ensures v.availabilityStatus == RequestedAvailability(body) && v.approvalStatus == RequestedApproval(body)
  {
    ToLowerIsLower(TrimmedText(Field(body, "email")));
    NewVolunteer(FormName(body), FormEmail(body), FormPhone(body), NormalizeSkills(Field(body, "skills")),
                 FormAvailability(body), FormLocation(body), RequestedAvailability(body), RequestedApproval(body))
  }

  method CreateVolunteer(db: Db, user: Option<RequestUser>, body: Body) returns (reply: Reply<Volunteer>)
    requires db.Valid()
    modifies db
    ensures db.Valid()
    ensures !FormComplete(body) ==> reply == Failure(400, "Missing required volunteer fields") && unchanged(db)
    ensures FormComplete(body) && ValidVolunteer(AdminVolunteer(body)) ==>
              && db.volunteers == old(db.volunteers)[old(db.clock) := AdminVolunteer(body)]
              && old(db.clock) !in old(db.volunteers)
              && Committed(reply, 201, AdminVolunteer(body), old(db.logs), db.logs, user, "volunteer.created",
                           "Volunteer " + AdminVolunteer(body).email + " created by admin", db.clock)
    ensures FormComplete(body) && !ValidVolunteer(AdminVolunteer(body)) ==>
              reply == Failure(500, ValidationFailed) && db.volunteers == old(db.volunteers) && db.logs == old(db.logs)
    ensures db.requests == old(db.requests) && db.admins == old(db.admins)
    ensures db.inventory == old(db.inventory) && db.site == old(db.site)
  {
    if !FormComplete(body) {
      return Failure(400, "Missing required volunteer fields");
    }
    var volunteer := AdminVolunteer(body);
    var id := db.CreateVolunteer(volunteer);
    if id.None? {
      return Failure(500, ValidationFailed);
    }
    reply := Commit(db, user, "volunteer.created",
                    "Volunteer " + volunteer.email + " created by admin", 201, volunteer);
  }

  /** A volunteer loaded by `findOne({ _id, isActive: true })`. */
  predicate ActiveVolunteer(vols: map<Id, Volunteer>, id: Id) {
    id in vols && vols[id].isActive
  }

  /** The approval change: anything but approval also frees the volunteer. */
  function WithApproval(v: Volunteer, a: ApprovalStatus): (r: Volunteer)
    ensures r.approvalStatus == a
    ensures a == Approved ==> r == v.(approvalStatus := Approved)
    ensures a != Approved ==> r == Release(v).(approvalStatus := a) && !Eligible(r) && r.availabilityStatus == Available
    ensures ValidVolunteer(v) ==> ValidVolunteer(r)
  {
    var r := v.(approvalStatus := a);
    if a == Approved then r else Release(r)
  }

  function ApprovalText(body: Body): string { TrimmedText(Field(body, "approvalStatus")) }

  method UpdateVolunteerApproval(db: Db, user: Option<RequestUser>, id: Id, body: Body) returns (reply: Reply<Volunteer>)
    requires db.Valid()
    modifies db
    ensures db.Valid()
    ensures ParseApproval(ApprovalText(body)).None? ==> reply == Failure(400, "Invalid approval status") && unchanged(db)
    ensures ParseApproval(ApprovalText(body)).Some? && !ActiveVolunteer(old(db.volunteers), id) ==>
              reply == Failure(404, "Volunteer not found") && unchanged(db)
    ensures ParseApproval(ApprovalText(body)).Some? && ActiveVolunteer(old(db.volunteers), id) ==>
              var updated := WithApproval(old(db.volunteers)[id], ParseApproval(ApprovalText(body)).value);
              && db.volunteers == old(db.volunteers)[id := updated]
              && Committed(reply, 200, updated, old(db.logs), db.logs, user, "volunteer.approval.updated",
                           "Volunteer " + updated.email + " approval set to " + ApprovalText(body), db.clock)
    ensures db.requests == old(db.requests) && db.admins == old(db.admins)
    ensures db.inventory == old(db.inventory) && db.site == old(db.site)
  {
    var text := ApprovalText(body);
    var approval := ParseApproval(text);
    if approval.None? {
      return Failure(400, "Invalid approval status");
    }
    if id !in db.volunteers || !db.volunteers[id].isActive {
      return Failure(404, "Volunteer not found");
    }
    var updated := WithApproval(db.volunteers[id], approval.value);
    var saved := db.SaveVolunteer(id, updated);
    reply := Commit(db, user, "volunteer.approval.updated",
                    "Volunteer " + updated.email + " approval set to " + text, 200, updated);
  }

  function AvailabilityText(body: Body): string { TrimmedText(Field(body, "availabilityStatus")) }
  function TaskText(body: Body): string { TrimmedText(Field(body, "assignedTask")) }

  /** The availability change: the given task is kept only for a busy volunteer. */
  function WithAvailability(v: Volunteer, a: AvailabilityStatus, task: string): (r: Volunteer)
    ensures r.availabilityStatus == a
    ensures r.assignedTask == (if a == Busy then task else "")
    ensures r.(availabilityStatus := v.availabilityStatus, assignedTask := v.assignedTask) == v
  {
    v.(availabilityStatus := a, assignedTask := if a == Busy then task else "")
  }

  method UpdateVolunteerAvailability(db: Db, user: Option<RequestUser>, id: Id, body: Body) returns (reply: Reply<Volunteer>)
    requires db.Valid()
    modifies db
    ensures db.Valid()
    ensures ParseAvailability(AvailabilityText(body)).None? ==>
              reply == Failure(400, "Invalid availability status") && unchanged(db)
    ensures ParseAvailability(AvailabilityText(body)).Some? && !ActiveVolunteer(old(db.volunteers), id) ==>
              reply == Failure(404, "Volunteer not found") && unchanged(db)
    ensures ParseAvailability(AvailabilityText(body)).Some? && ActiveVolunteer(old(db.volunteers), id) ==>
              var a := ParseAvailability(AvailabilityText(body)).value;
              var updated := WithAvailability(old(db.volunteers)[id], a, TaskText(body));
              // a busy task longer than the schema allows is refused by `save`
              if a == Busy && |TaskText(body)| > MaxTaskLength then
                reply == Failure(500, ValidationFailed) && db.volunteers == old(db.volunteers) && db.logs == old(db.logs)
              else
                && db.volunteers == old(db.volunteers)[id := updated]
                && Committed(reply, 200, updated, old(db.logs), db.logs, user, "volunteer.availability.updated",
                             "Volunteer " + updated.email + " availability set to " + AvailabilityText(body), db.clock)
    ensures db.requests == old(db.requests) && db.admins == old(db.admins)
    ensures db.inventory == old(db.inventory) && db.site == old(db.site)
  {
    var text := AvailabilityText(body);
    var task := TaskText(body);
    var availability := ParseAvailability(text);
    if availability.None? {
      return Failure(400, "Invalid availability status");
    }
    if id !in db.volunteers || !db.volunteers[id].isActive {
      return Failure(404, "Volunteer not found");
    }
    var updated := WithAvailability(db.volunteers[id], availability.value, task);
    TaskBound(db.volunteers[id], availability.value, updated.assignedTask);
    var saved := db.SaveVolunteer(id, updated);
    if !saved {
      return Failure(500, ValidationFailed);
    }
    reply := Commit(db, user, "volunteer.availability.updated",
                    "Volunteer " + updated.email + " availability set to " + text, 200, updated);
  }

  /** What removal writes on the volunteer: a soft delete that also frees it. */
  function Retired(v: Volunteer): (r: Volunteer)
    ensures !r.isActive && r.availabilityStatus == Available && r.assignedTask == ""
    ensures r.(isActive := v.isActive, availabilityStatus := v.availabilityStatus, assignedTask := v.assignedTask) == v
    ensures ValidVolunteer(v) ==> ValidVolunteer(r)
  {
    Release(v).(isActive := false)
  }

  method RemoveVolunteer(db: Db, user: Option<RequestUser>, id: Id) returns (reply: Reply<Id>)
    requires db.Valid()
    modifies db
    ensures db.Valid()
    ensures !ActiveVolunteer(old(db.volunteers), id) ==> reply == Failure(404, "Volunteer not found") && unchanged(db)
    ensures ActiveVolunteer(old(db.volunteers), id) ==>
              && db.requests == UnlinkVolunteer(old(db.requests), id)
              && db.volunteers == old(db.volunteers)[id := Retired(old(db.volunteers)[id])]
              && Committed(reply, 200, id, old(db.logs), db.logs, user, "volunteer.removed",
                           "Volunteer " + old(db.volunteers)[id].email + " removed by admin", db.clock)
    ensures db.admins == old(db.admins) && db.inventory == old(db.inventory) && db.site == old(db.site)
  {
    if id !in db.volunteers || !db.volunteers[id].isActive {
      return Failure(404, "Volunteer not found");
    }
    var volunteer := db.volunteers[id];
    db.UnlinkRequests(id);
    var retired := Retired(volunteer);
    var saved := db.SaveVolunteer(id, retired);
    reply := Commit(db, user, "volunteer.removed",
                    "Volunteer " + retired.email + " removed by admin", 200, id);
  }

  /** After a removal no open request is assigned to the removed volunteer, and the
      volunteer can no longer be picked for an assignment. */
  lemma RemovalDetaches(requests: map<Id, HelpRequest>, vols: map<Id, Volunteer>, v: Id)
    requires v in vols
    ensures var after := UnlinkVolunteer(requests, v);
            forall id :: id in after && IsOpen(after[id].status) ==> after[id].assignedVolunteer != Some(v)
    ensures !Eligible(vols[v := Retired(vols[v])][v])
  {
  }
}
