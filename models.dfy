/** The documents the admin server stores, with the enums, defaults and length
    bounds their Mongoose schemas declare.  A `Valid...` predicate holds of a
    document exactly when the schema's validators accept it on save. */
module Models {
  import opened Common
  import opened Text

  /** A document identifier (`_id`). */
  type Id = nat

  // ---- enums: the stored string of each value, and the parse of an input string ----

  datatype RequestType = Food | Transportation | Medical | Shelter | Other

  function RequestTypeName(t: RequestType): string {
    match t
    case Food => "food"
    case Transportation => "transportation"
    case Medical => "medical"
    case Shelter => "shelter"
    case Other => "other"
  }

  function ParseRequestType(s: string): (r: Option<RequestType>)
    ensures r.Some? ==> RequestTypeName(r.value) == s
  {
    if s == "food" then Some(Food)
    else if s == "transportation" then Some(Transportation)
    else if s == "medical" then Some(Medical)
    else if s == "shelter" then Some(Shelter)
    else if s == "other" then Some(Other)
    else None
  }

  /** Every request type is accepted under its own name, so the enum check
      rejects exactly the strings that name no type. */
  lemma RequestTypeRoundTrip(t: RequestType)
    ensures ParseRequestType(RequestTypeName(t)) == Some(t)
  {
  }

  datatype Urgency = High | Medium | Low

  function UrgencyName(u: Urgency): string {
    match u
    case High => "high"
    case Medium => "medium"
    case Low => "low"
  }

  function ParseUrgency(s: string): (r: Option<Urgency>)
    ensures r.Some? ==> UrgencyName(r.value) == s
  {
    if s == "high" then Some(High)
    else if s == "medium" then Some(Medium)
    else if s == "low" then Some(Low)
    else None
  }

  lemma UrgencyRoundTrip(u: Urgency)
    ensures ParseUrgency(UrgencyName(u)) == Some(u)
  {
  }

  datatype RequestStatus = New | InProgress | Resolved

  function StatusName(s: RequestStatus): string {
    match s
    case New => "new"
    case InProgress => "in-progress"
    case Resolved => "resolved"
  }

  function ParseStatus(s: string): (r: Option<RequestStatus>)
    ensures r.Some? ==> StatusName(r.value) == s
  {
    if s == "new" then Some(New)
    else if s == "in-progress" then Some(InProgress)
    else if s == "resolved" then Some(Resolved)
    else None
  }

  lemma StatusRoundTrip(s: RequestStatus)
    ensures ParseStatus(StatusName(s)) == Some(s)
  {
  }

  /** A request still needing work: `status` in {new, in-progress}. */
  predicate IsOpen(s: RequestStatus) {
    s == New || s == InProgress
  }

  datatype AvailabilityStatus = Available | Busy

  function AvailabilityName(a: AvailabilityStatus): string {
    match a
    case Available => "available"
    case Busy => "busy"
  }

  function ParseAvailability(s: string): (r: Option<AvailabilityStatus>)
    ensures r.Some? ==> AvailabilityName(r.value) == s
  {
    if s == "available" then Some(Available)
    else if s == "busy" then Some(Busy)
    else None
  }

  lemma AvailabilityRoundTrip(a: AvailabilityStatus)
    ensures ParseAvailability(AvailabilityName(a)) == Some(a)
  {
  }

  datatype ApprovalStatus = Pending | Approved | Rejected

  function ApprovalName(a: ApprovalStatus): string {
    match a
    case Pending => "pending"
    case Approved => "approved"
    case Rejected => "rejected"
  }

  function ParseApproval(s: string): (r: Option<ApprovalStatus>)
    ensures r.Some? ==> ApprovalName(r.value) == s
  {
    if s == "pending" then Some(Pending)
    else if s == "approved" then Some(Approved)
    else if s == "rejected" then Some(Rejected)
    else None
  }

  lemma ApprovalRoundTrip(a: ApprovalStatus)
    ensures ParseApproval(ApprovalName(a)) == Some(a)
  {
  }

  datatype Role = SuperAdmin | Admin

  function RoleName(r: Role): string {
    match r
    case SuperAdmin => "super-admin"
    case Admin => "admin"
  }

  // ---- HelpRequest (server/src/models/HelpRequest.js) ----

  datatype HelpRequest = HelpRequest(
    name: string,
    location: string,
    contact: string,
    requestType: RequestType,
    urgency: Urgency,
    description: string,
    status: RequestStatus,
    assignedVolunteer: Option<Id>)

  predicate ValidHelpRequest(r: HelpRequest) {
    && 2 <= |r.name| <= 80
    && 0 < |r.location| <= 120
    && 0 < |r.contact| <= 80
    && 0 < |r.description| <= 1000
  }

  /** A request as `create` stores it: status and assignment take the schema defaults. */
  function NewHelpRequest(name: string, location: string, contact: string, requestType: RequestType,
                          urgency: Urgency, description: string): (r: HelpRequest)
    ensures r.status == New && r.assignedVolunteer == None
  {
    HelpRequest(name, location, contact, requestType, urgency, description, New, None)
  }

  // ---- Volunteer (server/src/models/Volunteer.js) ----

  datatype Volunteer = Volunteer(
    name: string,
    email: string,
    phone: string,
    skills: seq<string>,
    availability: string,
    availabilityStatus: AvailabilityStatus,
    approvalStatus: ApprovalStatus,
    assignedTask: string,
    location: string,
    isActive: bool)

  const MaxTaskLength: nat := 140

  predicate ValidVolunteer(v: Volunteer) {
    && 2 <= |v.name| <= 80
    && 0 < |v.email| <= 160 && IsLower(v.email)
    && 0 < |v.phone| <= 30
    && 0 < |v.availability| <= 100
    && |v.assignedTask| <= MaxTaskLength
    && 0 < |v.location| <= 120
  }

  /** A volunteer as `create` stores it when the caller gives no task and no
      activity flag: task '' and active.  The `lowercase` setter applies to the email. */
  function NewVolunteer(name: string, email: string, phone: string, skills: seq<string>, availability: string,
                        location: string, availabilityStatus: AvailabilityStatus, approvalStatus: ApprovalStatus): (v: Volunteer)
    ensures v.isActive && v.assignedTask == "" && IsLower(v.email)
  {
    ToLowerIsLower(email);
    Volunteer(name, ToLower(email), phone, skills, availability, availabilityStatus, approvalStatus, "", location, true)
  }

  /** What releasing a volunteer writes: `{ availabilityStatus: 'available', assignedTask: '' }`. */
  function Release(v: Volunteer): (r: Volunteer)
    ensures r.availabilityStatus == Available && r.assignedTask == ""
    ensures r.(availabilityStatus := v.availabilityStatus, assignedTask := v.assignedTask) == v
    ensures ValidVolunteer(v) ==> ValidVolunteer(r)
  {
    v.(availabilityStatus := Available, assignedTask := "")
  }

  /** A stored volunteer given a new status and task passes validation exactly
      when the task is within the schema's bound. */
  lemma TaskBound(v: Volunteer, status: AvailabilityStatus, task: string)
    requires ValidVolunteer(v)
    ensures ValidVolunteer(v.(availabilityStatus := status, assignedTask := task)) <==> |task| <= MaxTaskLength
  {
  }

  /** Only an active, approved volunteer may be matched to a request. */
  predicate Eligible(v: Volunteer) {
    v.isActive && v.approvalStatus == Approved
  }

  // ---- AdminUser (server/src/models/AdminUser.js) ----

  datatype AdminUser = AdminUser(email: string, passwordHash: string, role: Role, isActive: bool)

  predicate ValidAdminUser(u: AdminUser) {
    0 < |u.email| <= 160 && IsLower(u.email) && u.passwordHash != ""
  }

  // ---- InventoryResource (server/src/models/InventoryResource.js) ----

  datatype InventoryResource = InventoryResource(
    name: string,
    category: string,
    quantity: nat,
    location: string,
    lowStockThreshold: nat)

  const DefaultLowStockThreshold: nat := 10

  predicate ValidInventoryResource(item: InventoryResource) {
    0 < |item.name| <= 120 && 0 < |item.category| <= 80 && |item.location| <= 120
  }

  // ---- SiteContent and its announcements (server/src/models/SiteContent.js) ----

  datatype Announcement = Announcement(id: Id, title: string, body: string, published: bool, createdAt: nat)

  predicate ValidAnnouncement(a: Announcement) {
    0 < |a.title| <= 140 && 0 < |a.body| <= 1200
  }

  datatype SiteContent = SiteContent(
    singletonKey: string,
    emergencyMessage: string,
    hotlineNumbers: seq<string>,
    announcements: seq<Announcement>)

  const SingletonKey: string := "site-content"

  predicate ValidSiteContent(doc: SiteContent) {
    && doc.singletonKey == SingletonKey
    && |doc.emergencyMessage| <= 180
    && forall i :: 0 <= i < |doc.announcements| ==> ValidAnnouncement(doc.announcements[i])
  }

  /** The document `SiteContent.create({ singletonKey: 'site-content' })` makes. */
  function DefaultSiteContent(): (doc: SiteContent)
    ensures ValidSiteContent(doc) && doc.announcements == []
  {
    SiteContent(SingletonKey, "Emergency? Call 911", ["911", "(402) 375-2660"], [])
  }

  // ---- ActivityLog (server/src/models/ActivityLog.js) ----

  datatype ActivityLog = ActivityLog(actorId: Option<Id>, actorEmail: string, action: string, details: string, createdAt: nat)

  predicate ValidActivityLog(rec: ActivityLog) {
    rec.actorEmail != "" && rec.action != "" && 0 < |rec.details| <= 600
  }
}
