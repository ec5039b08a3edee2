/** The public volunteer signup and list (server/src/controllers/volunteerController.js). */
module PublicVolunteers {
  import opened Common
  import opened Text
  import opened Js
  import opened Models
  import opened Store

  const VolunteerFields: seq<string> := ["name", "email", "phone", "availability", "location"]

  /** `validateVolunteer`: the message of the 400 it throws, if any. */
  function ValidateVolunteer(body: Body): (r: Option<string>)
    ensures r.None? <==> forall i :: 0 <= i < |VolunteerFields| ==> IsNonBlankString(Field(body, VolunteerFields[i]))
    ensures r.Some? ==> r == Some("Invalid or missing field: " + FirstInvalid(body, VolunteerFields).value)
  {
    var missing := FirstInvalid(body, VolunteerFields);
    if missing.Some? then Some("Invalid or missing field: " + missing.value) else None
  }

  /** The skills filter and map: string entries only, trimmed, blank ones dropped. */
  function PublicSkills(items: seq<JsValue>): (r: seq<string>)
    ensures |r| <= |items|
    ensures forall i :: 0 <= i < |r| ==> r[i] != "" && IsTrimmed(r[i])
  {
    if items == [] then []
    else
      var rest := PublicSkills(items[1..]);
      if items[0].Str? && Trim(items[0].s) != "" then [Trim(items[0].s)] + rest else rest
  }

  /** A skill is kept exactly when some string entry trims to it; numbers, arrays and
      other non-strings never contribute. */
  lemma {:induction false} PublicSkillsMembers(items: seq<JsValue>, x: string)
    ensures x in PublicSkills(items) <==> x != "" && exists i :: 0 <= i < |items| && items[i].Str? && Trim(items[i].s) == x
  {
    if items != [] {
      PublicSkillsMembers(items[1..], x);
      if x != "" && (exists i :: 0 <= i < |items| && items[i].Str? && Trim(items[i].s) == x) {
        var i :| 0 <= i < |items| && items[i].Str? && Trim(items[i].s) == x;
        if i > 0 {
          assert items[1..][i - 1] == items[i];
        }
      }
      if x in PublicSkills(items[1..]) {
        var i :| 0 <= i < |items[1..]| && items[1..][i].Str? && Trim(items[1..][i].s) == x;
        assert items[i + 1] == items[1..][i];
      }
    }
  }

  /** The `skills` of a signup: the array's string entries, or none for a non-array. */
  function SignupSkills(v: JsValue): (r: seq<string>)
    ensures !v.Arr? ==> r == []
  {
    if v.Arr? then PublicSkills(v.items) else []
  }

  /** The document a validated signup asks `Volunteer.create` to store: whatever the
      body says, it is pending approval and available. */
  function Signup(body: Body): (v: Volunteer)
    ensures v.approvalStatus == Pending && v.availabilityStatus == Available
    ensures v.isActive && v.assignedTask == "" && !Eligible(v)
    ensures v.email == ToLower(FormText(body, "email")) && v.name == FormText(body, "name")
    ensures v.skills == SignupSkills(Field(body, "skills"))
  {
    NewVolunteer(FormText(body, "name"), FormText(body, "email"), FormText(body, "phone"),
                 SignupSkills(Field(body, "skills")), FormText(body, "availability"), FormText(body, "location"),
                 Available, Pending)
  }

  method CreateVolunteer(db: Db, body: Body) returns (reply: Reply<Volunteer>)
    requires db.Valid()
    modifies db
    ensures db.Valid()
    ensures ValidateVolunteer(body).Some? ==> reply == Failure(400, ValidateVolunteer(body).value) && unchanged(db)
    ensures ValidateVolunteer(body).None? && ValidVolunteer(Signup(body)) ==>
              && reply == Success(201, Signup(body))
              && db.volunteers == old(db.volunteers)[old(db.clock) := Signup(body)]
              && old(db.clock) !in old(db.volunteers)
    ensures ValidateVolunteer(body).None? && !ValidVolunteer(Signup(body)) ==>
              reply == Failure(500, ValidationFailed) && db.volunteers == old(db.volunteers)
    ensures db.requests == old(db.requests) && db.admins == old(db.admins) && db.inventory == old(db.inventory)
    ensures db.site == old(db.site) && db.logs == old(db.logs)
  {
    var invalid := ValidateVolunteer(body);
    if invalid.Some? {
      return Failure(400, invalid.value);
    }
    var volunteer := Signup(body);
    var id := db.CreateVolunteer(volunteer);
    reply := if id.Some? then Success(201, volunteer) else Failure(500, ValidationFailed);
  }

  /** `Volunteer.find({ isActive: true, approvalStatus: 'approved' })`. */
  function ListVolunteers(vols: map<Id, Volunteer>): (r: map<Id, Volunteer>)
    ensures forall id :: id in r <==> id in vols && vols[id].isActive && vols[id].approvalStatus == Approved
    ensures forall id :: id in r ==> r[id] == vols[id]
  {
    map id | id in vols && Eligible(vols[id]) :: vols[id]
  }

  /** A fresh signup stays off the public list until an admin approves it. */
  lemma SignupNotListed(vols: map<Id, Volunteer>, id: Id, body: Body)
    ensures id !in ListVolunteers(vols[id := Signup(body)])
  {
  }
}
