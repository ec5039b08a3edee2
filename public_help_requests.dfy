/** The public help-request form (server/src/controllers/helpRequestController.js):
    field validation, the stored payload, and the public list. */
module PublicHelpRequests {
  import opened Common
  import opened Text
  import opened Js
  import opened Models
  import opened Store

  const RequestFields: seq<string> := ["name", "location", "contact", "requestType", "description"]

  /** `String(body.urgency).trim().toLowerCase()`, the text the urgency check reads. */
  function UrgencyText(body: Body): (t: string)
    ensures IsTrimmed(t)
  {
    ToLowerKeepsTrimmed(Trim(ToStr(Field(body, "urgency"))));
    ToLower(Trim(ToStr(Field(body, "urgency"))))
  }

  /** `validateHelpRequest`: the message of the 400 it throws, if any. */
  function ValidateHelpRequest(body: Body): (r: Option<string>)
    ensures FirstInvalid(body, RequestFields).Some? ==>
              r == Some("Invalid or missing field: " + FirstInvalid(body, RequestFields).value)
    ensures FirstInvalid(body, RequestFields).None? ==>
              (r.None? <==> Field(body, "urgency") == Undefined || ParseUrgency(UrgencyText(body)).Some?)
    ensures r.Some? && FirstInvalid(body, RequestFields).None? ==> r == Some("Invalid urgency value")
  {
    var missing := FirstInvalid(body, RequestFields);
    if missing.Some? then Some("Invalid or missing field: " + missing.value)
    else if Field(body, "urgency") != Undefined && ParseUrgency(UrgencyText(body)).None? then Some("Invalid urgency value")
    else None
  }

  /** An urgency given as an empty or blank string is rejected, not defaulted. */
  lemma BlankUrgencyRejected(body: Body)
    requires FirstInvalid(body, RequestFields).None?
    requires Field(body, "urgency").Str? && IsBlank(Field(body, "urgency").s)
    ensures ValidateHelpRequest(body) == Some("Invalid urgency value")
  {
    TrimEmptyIffBlank(Field(body, "urgency").s);
    assert UrgencyText(body) == "";
  }

  /** How the payload's urgency comes out of `body.urgency ? body.urgency.trim().toLowerCase() : 'medium'`. */
  datatype UrgencyInput = Chosen(u: Urgency) | NotAString | NotInEnum

  function PayloadUrgency(v: JsValue): (r: UrgencyInput)
    ensures !Truthy(v) ==> r == Chosen(Medium)
    ensures r == NotAString <==> Truthy(v) && !v.Str?
    ensures v.Str? && v.s != "" ==> (r.Chosen? <==> ParseUrgency(ToLower(Trim(v.s))).Some?)
    ensures r.Chosen? && v.Str? && v.s != "" ==> UrgencyName(r.u) == ToLower(Trim(v.s))
  {
    if !Truthy(v) then Chosen(Medium)
    else if !v.Str? then NotAString
    else match ParseUrgency(ToLower(Trim(v.s)))
         case Some(u) => Chosen(u)
         case None => NotInEnum
  }

  /** On a validated string urgency the payload takes the value the check accepted. */
  lemma ValidatedUrgencyStored(body: Body)
    requires ValidateHelpRequest(body).None?
    requires Field(body, "urgency").Str?
    ensures PayloadUrgency(Field(body, "urgency")) == Chosen(ParseUrgency(UrgencyText(body)).value)
  {
  }

  /** `HelpRequest.create(payload)` for a validated body with urgency `u`: every text
      trimmed, and status and assignment left to the schema defaults. */
  function Payload(body: Body, requestType: RequestType, u: Urgency): (r: HelpRequest)
    ensures r.status == New && r.assignedVolunteer == None && r.urgency == u
    ensures IsTrimmed(r.name) && IsTrimmed(r.location) && IsTrimmed(r.contact) && IsTrimmed(r.description)
  {
    NewHelpRequest(FormText(body, "name"), FormText(body, "location"), FormText(body, "contact"),
                   requestType, u, FormText(body, "description"))
  }

  /** The message V8 gives when `.trim` is called on a non-string. */
  const UrgencyTrimError: string := "req.body.urgency.trim is not a function"

  method CreateHelpRequest(db: Db, body: Body) returns (reply: Reply<HelpRequest>)
    requires db.Valid()
    modifies db
    ensures db.Valid()
    ensures ValidateHelpRequest(body).Some? ==> reply == Failure(400, ValidateHelpRequest(body).value) && unchanged(db)
    ensures ValidateHelpRequest(body).None? && PayloadUrgency(Field(body, "urgency")) == NotAString ==>
              reply == Failure(500, UrgencyTrimError) && unchanged(db)
    ensures reply.Success? <==>
              && ValidateHelpRequest(body).None?
              && PayloadUrgency(Field(body, "urgency")).Chosen?
              && ParseRequestType(FormText(body, "requestType")).Some?
              && ValidHelpRequest(Payload(body, ParseRequestType(FormText(body, "requestType")).value,
                                          PayloadUrgency(Field(body, "urgency")).u))
    ensures reply.Success? ==>
              && reply.code == 201
              && reply.data == Payload(body, ParseRequestType(FormText(body, "requestType")).value,
                                       PayloadUrgency(Field(body, "urgency")).u)
              && db.requests == old(db.requests)[old(db.clock) := reply.data]
              && old(db.clock) !in old(db.requests)
    ensures reply.Failure? ==> db.requests == old(db.requests)
    ensures (reply.Failure? && reply.code == 500 && ValidateHelpRequest(body).None?
             && PayloadUrgency(Field(body, "urgency")) != NotAString) ==> reply.message == ValidationFailed
    ensures db.volunteers == old(db.volunteers) && db.admins == old(db.admins) && db.inventory == old(db.inventory)
    ensures db.site == old(db.site) && db.logs == old(db.logs)
  {
    var invalid := ValidateHelpRequest(body);
    if invalid.Some? {
      return Failure(400, invalid.value);
    }
    var urgency := PayloadUrgency(Field(body, "urgency"));
    if urgency == NotAString {
      return Failure(500, UrgencyTrimError);
    }
    var requestType := ParseRequestType(FormText(body, "requestType"));
    if urgency == NotInEnum || requestType.None? {
      return Failure(500, ValidationFailed);
    }
    var rec := Payload(body, requestType.value, urgency.u);
    var id := db.CreateRequest(rec);
    reply := if id.Some? then Success(201, rec) else Failure(500, ValidationFailed);
  }

  // ---- listHelpRequests ----

  /** The fields `populate('assignedVolunteer', 'name email phone')` brings in. */
  datatype VolunteerContact = VolunteerContact(name: string, email: string, phone: string)

  datatype RequestView = RequestView(request: HelpRequest, volunteer: Option<VolunteerContact>)

  /** Every request, its volunteer reference replaced by that volunteer's contact
      fields, or by null when the reference is empty or dangling. */
  function ListHelpRequests(requests: map<Id, HelpRequest>, vols: map<Id, Volunteer>): (r: map<Id, RequestView>)
    ensures r.Keys == requests.Keys
    ensures forall id :: id in r ==> r[id].request == requests[id]
    ensures forall id :: id in r ==>
              var ref := requests[id].assignedVolunteer;
              && (r[id].volunteer.Some? <==> ref.Some? && ref.value in vols)
              && (r[id].volunteer.Some? ==>
                    r[id].volunteer.value == VolunteerContact(vols[ref.value].name, vols[ref.value].email, vols[ref.value].phone))
  {
    map id | id in requests :: RequestView(requests[id], Contact(requests[id].assignedVolunteer, vols))
  }

  function Contact(ref: Option<Id>, vols: map<Id, Volunteer>): Option<VolunteerContact> {
    if ref.Some? && ref.value in vols then
      var v := vols[ref.value];
      Some(VolunteerContact(v.name, v.email, v.phone))
    else None
  }

  /** On a consistent store no assigned request lists a null volunteer. */
  lemma AssignedRequestsShowVolunteer(db: Db)
    requires db.Valid()
    ensures var r := ListHelpRequests(db.requests, db.volunteers);
            forall id :: id in r && db.requests[id].assignedVolunteer.Some? ==> r[id].volunteer.Some?
  {
  }
}
