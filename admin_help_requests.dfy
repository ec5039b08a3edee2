/** The admin help-request handlers (server/src/controllers/admin/helpRequestController.js):
    status changes and the volunteer assignment workflow, which touches a request and
    up to two volunteers. */
module AdminHelpRequests {
  import opened Common
  import opened Text
  import opened Js
  import opened Models
  import opened Store
  import opened Auth
  import opened ActivityLogger

  // ---- the admin list and details ----

  /** The fields `populate('assignedVolunteer', 'name email phone availabilityStatus approvalStatus')` brings in. */
  datatype AssignedView = AssignedView(name: string, email: string, phone: string,
                                       availabilityStatus: AvailabilityStatus, approvalStatus: ApprovalStatus)

  datatype AdminRequestView = AdminRequestView(request: HelpRequest, volunteer: Option<AssignedView>)

  /** A request with its volunteer reference populated: null when empty or dangling. */
  function AdminView(r: HelpRequest, vols: map<Id, Volunteer>): (view: AdminRequestView)
    ensures view.request == r
    ensures view.volunteer.Some? <==> r.assignedVolunteer.Some? && r.assignedVolunteer.value in vols
    ensures view.volunteer.Some? ==>
              var v := vols[r.assignedVolunteer.value];
              view.volunteer.value == AssignedView(v.name, v.email, v.phone, v.availabilityStatus, v.approvalStatus)
  {
    var ref := r.assignedVolunteer;
    if ref.Some? && ref.value in vols then
      var v := vols[ref.value];
      AdminRequestView(r, Some(AssignedView(v.name, v.email, v.phone, v.availabilityStatus, v.approvalStatus)))
    else AdminRequestView(r, None)
  }

  /** `HelpRequest.find(query)`: a non-empty `status` or `urgency` query filters by
      exact stored value, an empty one does not filter. */
  function ListAdminHelpRequests(requests: map<Id, HelpRequest>, vols: map<Id, Volunteer>,
                                 statusQuery: string, urgencyQuery: string): (r: map<Id, AdminRequestView>)
    ensures forall id :: id in r <==>
              && id in requests
              && (statusQuery == "" || StatusName(requests[id].status) == statusQuery)
              && (urgencyQuery == "" || UrgencyName(requests[id].urgency) == urgencyQuery)
    ensures forall id :: id in r ==> r[id] == AdminView(requests[id], vols)
  {
    map id | id in requests
             && (statusQuery == "" || StatusName(requests[id].status) == statusQuery)
             && (urgencyQuery == "" || UrgencyName(requests[id].urgency) == urgencyQuery)
           :: AdminView(requests[id], vols)
  }

  /** Filtering by a status's own name lists exactly the requests in that status,
      and a query naming no status lists nothing. */
  lemma StatusFilterExact(requests: map<Id, HelpRequest>, vols: map<Id, Volunteer>, query: string)
    requires query != ""
    ensures ParseStatus(query).Some? ==>
              forall id :: id in ListAdminHelpRequests(requests, vols, query, "") <==>
                             id in requests && requests[id].status == ParseStatus(query).value
    ensures ParseStatus(query).None? ==> ListAdminHelpRequests(requests, vols, query, "") == map[]
  {
    if ParseStatus(query).None? {
      forall id | id in requests ensures StatusName(requests[id].status) != query {
        StatusRoundTrip(requests[id].status);
      }
    }
  }

  /** `getHelpRequestDetails`: the populated request, or 404. */
  function GetHelpRequestDetails(requests: map<Id, HelpRequest>, vols: map<Id, Volunteer>, id: Id): (r: Reply<AdminRequestView>)
    ensures id !in requests <==> r == Failure(404, "Help request not found")
    ensures id in requests ==> r.Success? && r.code == 200 && r.data.request == requests[id]
  {
    if id in requests then Success(200, AdminView(requests[id], vols)) else Failure(404, "Help request not found")
  }

  /** The details of a request are its entry in the unfiltered list. */
  lemma DetailsAgreeWithList(requests: map<Id, HelpRequest>, vols: map<Id, Volunteer>, id: Id)
    requires id in requests
    ensures id in ListAdminHelpRequests(requests, vols, "", "")
    ensures GetHelpRequestDetails(requests, vols, id) == Success(200, ListAdminHelpRequests(requests, vols, "", "")[id])
  {
  }

  /** The status a body asks for: `String(body.status || '').trim()`, parsed. */
  function RequestedStatus(body: Body): Option<RequestStatus> {
    ParseStatus(TrimmedText(Field(body, "status")))
  }

  method UpdateHelpRequestStatus(db: Db, user: Option<RequestUser>, id: Id, body: Body) returns (reply: Reply<HelpRequest>)
    requires db.Valid()
    modifies db
    ensures db.Valid()
    ensures RequestedStatus(body).None? ==> reply == Failure(400, "Invalid status value") && unchanged(db)
    ensures RequestedStatus(body).Some? && id !in old(db.requests) ==>
              reply == Failure(404, "Help request not found") && unchanged(db)
    ensures RequestedStatus(body).Some? && id in old(db.requests) ==>
              var status := RequestedStatus(body).value;
              var rec := old(db.requests)[id].(status := status);
              && db.requests == old(db.requests)[id := rec]
              && db.volunteers == (if status == Resolved then ReleaseRef(old(db.volunteers), rec.assignedVolunteer)
                                   else old(db.volunteers))
              && Committed(reply, 200, rec, old(db.logs), db.logs, user, "help-request.status.updated",
                           "Request " + IdText(id) + " status changed to " + TrimmedText(Field(body, "status")), db.clock)
    ensures db.admins == old(db.admins) && db.inventory == old(db.inventory) && db.site == old(db.site)
  {
    var text := TrimmedText(Field(body, "status"));
    var status := ParseStatus(text);
    if status.None? {
      return Failure(400, "Invalid status value");
    }
    if id !in db.requests {
      return Failure(404, "Help request not found");
    }
    var rec := db.requests[id].(status := status.value);
    var saved := db.SaveRequest(id, rec);
    if status.value == Resolved && rec.assignedVolunteer.Some? {
      db.ReleaseVolunteer(rec.assignedVolunteer);
    }
    reply := Commit(db, user, "help-request.status.updated",
                    "Request " + IdText(id) + " status changed to " + text, 200, rec);
  }

  /** The volunteer id a body names: `null` and blank mean "unassign" (the empty string here). */
  function TargetText(body: Body): (t: string)
    ensures Field(body, "volunteerId") == Null ==> t == ""
  {
    var raw := Field(body, "volunteerId");
    if raw == Null then "" else TrimmedText(raw)
  }

  /** `Volunteer.findOne({ _id, isActive: true, approvalStatus: 'approved' })` finds a document. */
  predicate EligibleTarget(vols: map<Id, Volunteer>, target: string) {
    var v := ParseId(target);
    v.Some? && v.value in vols && Eligible(vols[v.value])
  }

  /** The task an assigned volunteer gets: `${requestType} support - ${location}`. */
  function DerivedTask(r: HelpRequest): (task: string)
    ensures |task| == |RequestTypeName(r.requestType)| + 11 + |r.location|
    ensures StartsWith(task, RequestTypeName(r.requestType)) && task[|task| - |r.location|..] == r.location
  {
    RequestTypeName(r.requestType) + " support - " + r.location
  }

  /** The status after an assignment: `new` becomes `in-progress`, the others stay. */
  function StatusAfterAssign(s: RequestStatus): (t: RequestStatus)
    ensures s == New ==> t == InProgress
    ensures s != New ==> t == s
    ensures t != New
  {
    if s == New then InProgress else s
  }

  method AssignVolunteer(db: Db, user: Option<RequestUser>, id: Id, body: Body) returns (reply: Reply<HelpRequest>)
    requires db.Valid()
    modifies db
    ensures db.Valid()
    ensures id !in old(db.requests) ==> reply == Failure(404, "Help request not found") && unchanged(db)
    // unassign: release the previous volunteer, drop the reference, keep the status
    ensures id in old(db.requests) && TargetText(body) == "" ==>
              var rec := old(db.requests)[id];
              && db.requests == old(db.requests)[id := rec.(assignedVolunteer := None)]
              && db.volunteers == ReleaseRef(old(db.volunteers), rec.assignedVolunteer)
              && Committed(reply, 200, rec.(assignedVolunteer := None), old(db.logs), db.logs, user,
                           "help-request.volunteer.unassigned", "Volunteer unassigned from request " + IdText(id), db.clock)
    // a missing, inactive or unapproved volunteer: 404 and nothing changes
    ensures id in old(db.requests) && TargetText(body) != "" && !EligibleTarget(old(db.volunteers), TargetText(body)) ==>
              reply == Failure(404, "Approved volunteer not found") && unchanged(db)
    // assign: release a different previous volunteer, then mark the new one busy
    ensures id in old(db.requests) && TargetText(body) != "" && EligibleTarget(old(db.volunteers), TargetText(body)) ==>
              var rec := old(db.requests)[id];
              var v := ParseId(TargetText(body)).value;
              var released := ReleaseRef(old(db.volunteers), if rec.assignedVolunteer == Some(v) then None else rec.assignedVolunteer);
              if |DerivedTask(rec)| > MaxTaskLength then
                // the volunteer's save fails its 140-character task bound after the release was written
                && reply == Failure(500, ValidationFailed)
                && db.requests == old(db.requests) && db.volunteers == released && db.logs == old(db.logs)
              else (
                var linked := rec.(assignedVolunteer := Some(v), status := StatusAfterAssign(rec.status));
                && db.volunteers == released[v := old(db.volunteers)[v].(availabilityStatus := Busy, assignedTask := DerivedTask(rec))]
                && db.requests == old(db.requests)[id := linked]
                && Committed(reply, 200, linked, old(db.logs), db.logs, user, "help-request.volunteer.assigned",
                             "Volunteer " + old(db.volunteers)[v].email + " assigned to request " + IdText(id), db.clock))
    ensures db.admins == old(db.admins) && db.inventory == old(db.inventory) && db.site == old(db.site)
  {
    if id !in db.requests {
      return Failure(404, "Help request not found");
    }
    var target := TargetText(body);
    if target == "" {
      reply := Unassign(db, user, id);
      return;
    }
    var found := ParseId(target);
    if found.None? || found.value !in db.volunteers || !Eligible(db.volunteers[found.value]) {
      return Failure(404, "Approved volunteer not found");
    }
    reply := Assign(db, user, id, found.value);
  }

  /** The unassign branch: the previous volunteer, if any, is released and the
      reference dropped; the status stays. */
  method Unassign(db: Db, user: Option<RequestUser>, id: Id) returns (reply: Reply<HelpRequest>)
    requires db.Valid() && id in db.requests
    modifies db
    ensures db.Valid()
    ensures var rec := old(db.requests)[id];
            && db.requests == old(db.requests)[id := rec.(assignedVolunteer := None)]
            && db.volunteers == ReleaseRef(old(db.volunteers), rec.assignedVolunteer)
            && Committed(reply, 200, rec.(assignedVolunteer := None), old(db.logs), db.logs, user,
                         "help-request.volunteer.unassigned", "Volunteer unassigned from request " + IdText(id), db.clock)
    ensures db.admins == old(db.admins) && db.inventory == old(db.inventory) && db.site == old(db.site)
  {
    var rec := db.requests[id];
    db.ReleaseVolunteer(rec.assignedVolunteer);
    rec := rec.(assignedVolunteer := None);
    var saved := db.SaveRequest(id, rec);
    reply := Commit(db, user, "help-request.volunteer.unassigned",
                    "Volunteer unassigned from request " + IdText(id), 200, rec);
  }

  /** The assignment proper, once the request and an eligible volunteer `v` are loaded. */
  method Assign(db: Db, user: Option<RequestUser>, id: Id, v: Id) returns (reply: Reply<HelpRequest>)
    requires db.Valid() && id in db.requests && v in db.volunteers
    modifies db
    ensures db.Valid()
    ensures var rec := old(db.requests)[id];
            |DerivedTask(rec)| > MaxTaskLength ==>
              && reply == Failure(500, ValidationFailed)
              && db.requests == old(db.requests) && db.logs == old(db.logs)
              && db.volunteers == ReleaseRef(old(db.volunteers), if rec.assignedVolunteer == Some(v) then None else rec.assignedVolunteer)
    ensures var rec := old(db.requests)[id];
            |DerivedTask(rec)| <= MaxTaskLength ==>
              var released := ReleaseRef(old(db.volunteers), if rec.assignedVolunteer == Some(v) then None else rec.assignedVolunteer);
              var linked := rec.(assignedVolunteer := Some(v), status := StatusAfterAssign(rec.status));
              && db.volunteers == released[v := old(db.volunteers)[v].(availabilityStatus := Busy, assignedTask := DerivedTask(rec))]
              && db.requests == old(db.requests)[id := linked]
              && Committed(reply, 200, linked, old(db.logs), db.logs, user, "help-request.volunteer.assigned",
                             "Volunteer " + old(db.volunteers)[v].email + " assigned to request " + IdText(id), db.clock)
    ensures db.admins == old(db.admins) && db.inventory == old(db.inventory) && db.site == old(db.site)
  {
    var rec := db.requests[id];
    var previous := db.volunteers[v];
    // the previous volunteer, unless it is the one being assigned
    var other := if rec.assignedVolunteer == Some(v) then None else rec.assignedVolunteer;
    db.ReleaseVolunteer(other);
    assert db.volunteers[v] == previous;
    var volunteer := previous.(availabilityStatus := Busy, assignedTask := DerivedTask(rec));
    TaskBound(previous, Busy, DerivedTask(rec));
    var stored := db.SaveVolunteer(v, volunteer);
    if !stored {
      return Failure(500, ValidationFailed);
    }
    rec := rec.(assignedVolunteer := Some(v), status := StatusAfterAssign(rec.status));
    var saved := db.SaveRequest(id, rec);
    reply := Commit(db, user, "help-request.volunteer.assigned",
                    "Volunteer " + volunteer.email + " assigned to request " + IdText(id), 200, rec);
  }

  /** The derived task fits the schema's 140 characters for every stored request
      except a transportation request whose location is longer than 115 characters. */
  lemma DerivedTaskFits(r: HelpRequest)
    requires ValidHelpRequest(r)
    ensures |DerivedTask(r)| <= MaxTaskLength <==> !(r.requestType == Transportation && |r.location| > 115)
  {
  }

  /** Assignment does not look at the volunteer's current task: assigning one
      volunteer to two open requests leaves both referring to it, and the volunteer
      holds only the second task. */
  method AssignTwice(db: Db, user: Option<RequestUser>, a: Id, b: Id, v: Id) returns (first: Reply<HelpRequest>, second: Reply<HelpRequest>)
    requires db.Valid() && a in db.requests && b in db.requests && a != b && v in db.volunteers
    requires db.requests[a].assignedVolunteer.None? && db.requests[b].assignedVolunteer.None?
    requires |DerivedTask(db.requests[a])| <= MaxTaskLength && |DerivedTask(db.requests[b])| <= MaxTaskLength
    modifies db
    ensures db.Valid()
    ensures a in db.requests && b in db.requests && v in db.volunteers
    ensures db.requests[a].assignedVolunteer == Some(v) && db.requests[b].assignedVolunteer == Some(v)
    ensures db.volunteers[v].availabilityStatus == Busy && db.volunteers[v].assignedTask == DerivedTask(old(db.requests[b]))
  {
    first := Assign(db, user, a, v);
    second := Assign(db, user, b, v);
  }
}
