# Disaster-relief admin server — a Dafny model

This project models the server side of a disaster-relief coordination site.
The public forms let residents file help requests and volunteers sign up.
Behind a bearer-token guard, staff then work through these records:
- triage requests and assign volunteers to them;
- approve or retire volunteers;
- keep an inventory of supplies;
- edit the homepage's emergency message, hotlines and announcements;
- manage admin accounts.

Every admin change leaves one audit record. Dashboards count what is stored.

The database is one `Store.Db` object.
- It holds the six collections: help requests, volunteers, admin users, inventory items, the site-content singleton and the activity log.
- It also holds a clock that issues ids and creation times.
- `Db.Valid()` collects what the schemas and handlers keep true:
  - every stored document passes its schema's validators;
  - every id is below the clock;
  - an assigned request refers to a stored volunteer;
  - admin emails are unique;
  - announcements are newest first;
  - the log is in creation order.

The request handlers are methods over `Db`. Each takes the acting user and the parsed JSON body.
- Its postcondition gives, branch by branch, the reply (status and message) and the new value of every collection.
- Every method promises `Valid()` again.
- `ActivityLogger.Committed` sums up how a write ends. `logActivity` builds the record from the actor, the action, the handler's own details text and the last clock tick.
  - When the schema accepts that record, the handler answers with its code and the saved data, and the log grows by exactly that record.
  - When the schema rejects it, the handler answers 500 and the log stays as it was. `ActivityLogger.RecordAccepted` shows this happens only when the details are empty or over 600 characters.

The JavaScript coercions the handlers rely on are written out in the `Js` module: truthiness, `String(v)`, `String(v || '').trim()` and `Number(v)`. String helpers such as trim, split, join and decimal printing live in `Text`.

Pure parts are functions with lemmas:
- dashboard counting;
- normalising skills and hotlines;
- the public announcement feed;
- the CORS decision and the health check;
- error handling;
- the browser client's escaping and URL building.

One of them is a loop in the source and is a method here: the `forEach` of `normalizeObject`.

## Model

| member | source | states |
|---|---|---|
| Models.RequestTypeRoundTrip | server/src/models/HelpRequest.js:8-12 | every request type is accepted under its stored name |
| Models.UrgencyRoundTrip | server/src/models/HelpRequest.js:13-17 | every urgency is accepted under its stored name |
| Models.StatusRoundTrip | server/src/models/HelpRequest.js:19-23 | every request status is accepted under its stored name |
| Models.AvailabilityRoundTrip | server/src/models/Volunteer.js:10-14 | every availability status is accepted under its stored name |
| Models.ApprovalRoundTrip | server/src/models/Volunteer.js:15-19 | every approval status is accepted under its stored name |
| Models.NewHelpRequest | server/src/models/HelpRequest.js:19-28 | a created request has status `new` and no assigned volunteer |
| Models.NewVolunteer | server/src/models/Volunteer.js:6-22 | a created volunteer is active, has an empty task and a lower-case email |
| Models.Release | server/src/controllers/admin/helpRequestController.js:51-56 | releasing sets `available` and an empty task, changes nothing else and keeps the document valid |
| Models.TaskBound | server/src/models/Volunteer.js:20 | a valid volunteer with a new status and task stays valid iff the task has at most 140 characters |
| Models.DefaultSiteContent | server/src/models/SiteContent.js:14-32 | the default singleton is valid and has no announcements |
| Models.ValidHelpRequest | server/src/models/HelpRequest.js:5-18 | the schema's length bounds on a request: name 2 to 80 characters, location up to 120, contact up to 80, description up to 1000, none empty |
| Models.ValidVolunteer | server/src/models/Volunteer.js:5-21 | the schema's bounds on a volunteer: name 2 to 80, a lower-case email up to 160, phone up to 30, availability up to 100, task up to 140, location up to 120 |
| Models.ValidAdminUser | server/src/models/AdminUser.js:5-16 | a non-empty, lower-case email of at most 160 characters and a non-empty password hash |
| Models.ValidInventoryResource | server/src/models/InventoryResource.js:5-28 | a non-empty name up to 120, a non-empty category up to 80, a location up to 120 |
| Models.ValidAnnouncement | server/src/models/SiteContent.js:3-8 | a non-empty title up to 140 and a non-empty body up to 1200 |
| Models.ValidSiteContent | server/src/models/SiteContent.js:12-32 | the singleton key, an emergency message up to 180 characters, and only valid announcements |
| Models.ValidActivityLog | server/src/models/ActivityLog.js:10-25 | a non-empty actor email and action, and details of 1 to 600 characters |
| Store.UnlinkVolunteer | server/src/controllers/admin/volunteerController.js:123-126 | the keys are unchanged; no open request names the volunteer afterwards; the ones that did are `new` and unassigned; every other request is untouched |
| Store.ReleaseRef | server/src/controllers/admin/helpRequestController.js:51-56 | only the referenced volunteer changes, and it is released; a missing reference changes nothing |
| Store.ActiveSuperAdmins | server/src/controllers/admin/userController.js:70 | an id is counted iff it is an active super-admin |
| Store.ParseIdText | server/src/controllers/admin/helpRequestController.js:95-99 | an id printed into a body parses back to the same id |
| Js.StringToNumber | server/src/controllers/admin/userController.js:118 | a blank string is 0; exactly the signed `Infinity` spellings give an infinity, negative iff `-Infinity` |
| Js.RadixLiteral | server/src/controllers/admin/userController.js:118 | every `0x`, `0o` or `0b` literal, with the letter in either case, reads as its digits in that radix |
| Js.HexSixteen | server/src/controllers/admin/userController.js:118 | `Number("0x10")` is 16, as an example |
| Js.FirstInvalid | server/src/controllers/helpRequestController.js:4-11 | no field is named iff every required field is a non-blank string; a named field is the first one that fails, and all fields before it pass |
| Js.FormText | server/src/controllers/helpRequestController.js:26-33 | the text of an accepted field is its trimmed string, not empty |
| Text.SplitTrimFilterJoin | server/src/app.js:32-35 | split-trim-filter of a joined list of trimmed, non-empty, separator-free items is that list |
| Text.SplitTrimFilter | server/src/app.js:32-35 | every kept piece is trimmed, non-empty and separator-free, and a string is kept iff it is non-empty and some piece trims to it |
| Text.SplitAround | server/src/app.js:32 | splitting at one separator splits the two sides independently |
| Text.TrimAllAppend | server/src/app.js:33 | trimming each entry works on each part of a list separately |
| Text.DropEmptyAppend | server/src/app.js:34 | dropping the empty strings works on each part of a list separately, so the order is kept |
| Text.SplitTrimFilterAround | server/src/app.js:32-35 | the pieces of `a,b` are the pieces of `a` followed by the pieces of `b`, so input order is kept |
| Auth.ExtractToken | server/src/middleware/auth.js:5-11 | a token is produced only from a `Bearer ` header; it is then the trimmed rest of the header |
| Auth.ExtractSentToken | server/src/middleware/auth.js:5-11 | the header `Bearer <token>` yields the token back |
| Auth.RequireAuth | server/src/middleware/auth.js:13-37 | no token gives 401 "Authentication required"; a request is let through iff its token names a stored, active admin, and it then carries that admin's id, email and role |
| Auth.DeactivationTakesEffect | server/src/middleware/auth.js:23-25 | after an admin is deactivated, no token authenticates as that admin |
| Auth.RequireRole | server/src/middleware/auth.js:39-53 | no user gives 401; a user passes iff their role is in the allow-list; any other refusal is 403 "Insufficient permissions" |
| Auth.SuperAdminGate | server/src/middleware/auth.js:39-53 | `requireRole('super-admin')` lets through exactly the super-admins |
| ActivityLogger.BuildLogRecord | server/src/utils/activityLogger.js:3-13 | the actor's email, or `system` without one; the actor's id, or none; the action and details as given |
| ActivityLogger.LogActivity | server/src/utils/activityLogger.js:7-12 | the record is appended iff the schema accepts it; the clock advances; no other collection changes |
| ActivityLogger.RecordAccepted | server/src/models/ActivityLog.js:10-25 | a built record is accepted iff its details have 1 to 600 characters |
| ActivityLogger.Commit | server/src/utils/activityLogger.js:3-13 | the reply is the handler's code and data iff the record is accepted, and the log then grows by exactly that record; otherwise 500 and the log unchanged |
| ActivityLogger.NewestFirst | server/src/controllers/admin/userController.js:118-120 | the result holds the last `k` records (or all of them), the latest first |
| ActivityLogger.NewestFirstIsNewest | server/src/controllers/admin/overviewController.js:30 | on a log in creation order, the result is strictly newest first, and every record left out is older than every record listed |
| AdminHelpRequests.AdminView | server/src/controllers/admin/helpRequestController.js:15-16 | the populated volunteer is present iff the reference is set and resolves, and it carries that volunteer's name, email, phone and both statuses |
| AdminHelpRequests.ListAdminHelpRequests | server/src/controllers/admin/helpRequestController.js:5-21 | a request is listed iff it matches each non-empty query by exact stored value; each entry is the populated request |
| AdminHelpRequests.StatusFilterExact | server/src/controllers/admin/helpRequestController.js:8-10 | a status filter lists exactly the requests in that status; a query that names no status lists nothing |
| AdminHelpRequests.GetHelpRequestDetails | server/src/controllers/admin/helpRequestController.js:23-33 | 404 "Help request not found" iff the id is not stored; otherwise 200 with that request |
| AdminHelpRequests.DetailsAgreeWithList | server/src/controllers/admin/helpRequestController.js:5-33 | the details of a stored request equal its entry in the unfiltered list |
| AdminHelpRequests.UpdateHelpRequestStatus | server/src/controllers/admin/helpRequestController.js:35-65 | 400 for a status outside the enum; 404 for a missing request; otherwise the status is set, resolving releases the assigned volunteer, and one log record is committed; the store stays valid |
| AdminHelpRequests.TargetText | server/src/controllers/admin/helpRequestController.js:68 | a `null` volunteer id means "unassign" |
| AdminHelpRequests.DerivedTask | server/src/controllers/admin/helpRequestController.js:113 | the task is `<type> support - <location>`: its length, its leading type name and its trailing location |
| AdminHelpRequests.StatusAfterAssign | server/src/controllers/admin/helpRequestController.js:117-119 | `new` becomes `in-progress`; other statuses stay; the result is never `new` |
| AdminHelpRequests.AssignVolunteer | server/src/controllers/admin/helpRequestController.js:67-129 | 404 for a missing request; unassigning releases the previous volunteer and clears the reference; 404 "Approved volunteer not found" unless the target is active and approved; otherwise as `Assign` |
| AdminHelpRequests.Unassign | server/src/controllers/admin/helpRequestController.js:75-93 | the previous volunteer, if any, is released; the reference is dropped and the status kept; one log record is committed |
| AdminHelpRequests.Assign | server/src/controllers/admin/helpRequestController.js:105-126 | a different previous volunteer is released; the new one is busy with the derived task; the request is linked and no longer `new`; a task over 140 characters gives 500 after the release was already written |
| AdminHelpRequests.DerivedTaskFits | server/src/models/Volunteer.js:20 | for a valid request, the derived task fits 140 characters iff the request is not a transportation request whose location is over 115 characters |
| AdminHelpRequests.AssignTwice | server/src/controllers/admin/helpRequestController.js:95-120 | assigning one volunteer to two requests leaves both referring to it, while the volunteer holds only the second task |
| AdminVolunteers.NormalizeSkills | server/src/controllers/admin/volunteerController.js:5-12 | a non-array gives no skills; an array gives its trimmed non-empty entries in input order, each trimmed and non-empty |
| Js.NonEmptyTexts | server/src/controllers/admin/volunteerController.js:9-11 | at most one text per entry, each trimmed and non-empty |
| Js.NonEmptyTextsMembers | server/src/controllers/admin/volunteerController.js:9-11 | a text is kept iff it is non-empty and some entry trims to it |
| Js.NonEmptyTextsOfNormal | server/src/controllers/admin/cmsController.js:17-19 | trimmed non-empty texts sent as strings come back unchanged and in order |
| Js.Kept | server/src/controllers/admin/volunteerController.js:9-11 | one entry contributes at most its trimmed text, and nothing exactly when that text is empty |
| Js.NonEmptyTextsAppend | server/src/controllers/admin/cmsController.js:17-19 | the kept texts of two lists are those of the first followed by those of the second, so input order is kept |
| Js.ToNumber | server/src/controllers/admin/userController.js:118 | `Number(v)`: a number is itself, `null` is 0, `undefined` is NaN |
| AdminVolunteers.NormalizeSkillsMembers | server/src/controllers/admin/volunteerController.js:5-12 | a skill is kept iff it is non-empty and some array entry trims to it |
| AdminVolunteers.NormalizeSkillsIdempotent | server/src/controllers/admin/volunteerController.js:5-12 | a normal skill list sent back as strings is unchanged |
| AdminVolunteers.ListVolunteers | server/src/controllers/admin/volunteerController.js:14-27 | listed iff active and matching each non-empty filter; entries are the stored documents |
| AdminVolunteers.RemovedNotListed | server/src/controllers/admin/volunteerController.js:15 | a removed volunteer is never listed |
| AdminVolunteers.RequestedAvailability | server/src/controllers/admin/volunteerController.js:47 | only the exact string `busy` makes a new volunteer busy |
| AdminVolunteers.RequestedApproval | server/src/controllers/admin/volunteerController.js:48 | `rejected` and `pending` are taken as given; anything else approves |
| AdminVolunteers.AdminVolunteer | server/src/controllers/admin/volunteerController.js:40-49 | the created volunteer is active with no task and has the form's email, name, location and statuses |
| AdminVolunteers.CreateVolunteer | server/src/controllers/admin/volunteerController.js:29-58 | 400 when a required field is blank; otherwise stored at a fresh id with one log record, or 500 when the schema refuses it |
| AdminVolunteers.WithApproval | server/src/controllers/admin/volunteerController.js:70-77 | the approval is set; anything but approval also releases the volunteer and makes it ineligible; validity is kept |
| AdminVolunteers.UpdateVolunteerApproval | server/src/controllers/admin/volunteerController.js:60-88 | 400 for a value outside the enum; 404 for a missing or removed volunteer; otherwise the change is saved and logged |
| AdminVolunteers.WithAvailability | server/src/controllers/admin/volunteerController.js:102-105 | the status is set; the task is kept only for a busy volunteer |
| AdminVolunteers.UpdateVolunteerAvailability | server/src/controllers/admin/volunteerController.js:90-115 | 400, then 404 as for approval; a busy task over 140 characters gives 500 and nothing is saved; otherwise saved and logged |
| AdminVolunteers.Retired | server/src/controllers/admin/volunteerController.js:128-131 | a retired volunteer is inactive, available and taskless, and nothing else changes |
| AdminVolunteers.RemoveVolunteer | server/src/controllers/admin/volunteerController.js:117-140 | 404 for a missing or removed volunteer; otherwise every open request it held returns to the queue, it is retired, and the removal is logged |
| AdminVolunteers.RemovalDetaches | server/src/controllers/admin/volunteerController.js:123-131 | after removal no open request refers to the volunteer, and it can no longer be picked for an assignment |
| AdminUsers.ListAdminUsers | server/src/controllers/admin/userController.js:7-14 | exactly the active admins, shown without the password hash |
| AdminUsers.CreatedRole | server/src/controllers/admin/userController.js:19 | only the exact string `super-admin` creates a super-admin |
| AdminUsers.CreateAdminUser | server/src/controllers/admin/userController.js:16-56 | 400 for a blank email or a password under 8 characters; 409 for an active account with that email; an inactive one is reactivated in place; otherwise a new account, or 500 when the schema refuses the email |
| AdminUsers.ReactivateAdmin | server/src/controllers/admin/userController.js:33-37 | the inactive account with the email takes the new hash and role and is active again; one log record is committed |
| AdminUsers.CreateNewAdmin | server/src/controllers/admin/userController.js:38-46 | a new account at a fresh id with one log record, or 500 and no change when the schema refuses it |
| AdminUsers.RequestedRole | server/src/controllers/admin/userController.js:59-62 | only `super-admin` and `admin` are accepted |
| AdminUsers.KeepsASuperAdmin | server/src/controllers/admin/userController.js:69-74 | rewriting one admin keeps an active super-admin, unless it takes away the only one |
| AdminUsers.UpdateAdminRole | server/src/controllers/admin/userController.js:58-86 | 400 for an unknown role; 404 for a missing admin; 400 when demoting the last super-admin; otherwise saved and logged; an active super-admin always remains |
| AdminUsers.RemoveAdminUser | server/src/controllers/admin/userController.js:88-115 | 404, then 400 for self-removal, then 400 for the last super-admin; otherwise deactivated and logged; an active super-admin always remains |
| AdminUsers.LogLimit | server/src/controllers/admin/userController.js:118 | a falsy limit is 20; a finite number is clamped to 1..100; +Infinity gives 100 and -Infinity 1; only NaN gives no number |
| AdminUsers.LimitOfQueryString | server/src/controllers/admin/userController.js:118 | a query string of digits gives its number clamped to 1..100 (`"0"` gives 1) |
| AdminUsers.ListActivityLogs | server/src/controllers/admin/userController.js:117-121 | the last min(limit, log length) records, latest first |
| AdminUsers.ListActivityLogsNewest | server/src/controllers/admin/userController.js:119 | on a log in creation order the listing is strictly newest first, and every record left out is older than every record shown |
| Cms.EnsureSiteContent | server/src/controllers/admin/cmsController.js:4-10 | returns the stored singleton, or stores and returns the default one; nothing else changes |
| Cms.EnsureTwice | server/src/controllers/admin/cmsController.js:4-10 | a second call returns the first call's document |
| Cms.NormalizeHotlines | server/src/controllers/admin/cmsController.js:12-21 | a non-array gives none; an array gives the first ten of its trimmed non-empty entries, in input order |
| Cms.HotlinesOfNormal | server/src/controllers/admin/cmsController.js:17-20 | normal lines come back unchanged, cut to the first ten |
| Cms.Published | server/src/controllers/admin/cmsController.js:26 | only published announcements, drawn from the input |
| Cms.PublishedKeepsAll | server/src/controllers/admin/cmsController.js:26 | an announcement is kept iff it is stored and published |
| Cms.SortNewestFirst | server/src/controllers/admin/cmsController.js:27 | a permutation of its input, newest first |
| Cms.SortOfSorted | server/src/controllers/admin/cmsController.js:27 | a list already newest first is unchanged |
| Cms.PublicFeed | server/src/controllers/admin/cmsController.js:25-28 | at most five announcements, each published and stored, newest first |
| Cms.PublicFeedOfStored | server/src/controllers/admin/cmsController.js:25-28 | on announcements stored newest first, the feed is the first five published ones in stored order |
| Cms.GetPublicSiteContent | server/src/controllers/admin/cmsController.js:23-38 | the singleton exists afterwards; the reply is its message, its hotlines and its feed |
| Cms.UpdateEmergencyMessage | server/src/controllers/admin/cmsController.js:45-62 | 400 for a blank message; otherwise the message is set and logged, or 500 over 180 characters after the singleton was created |
| Cms.UpdateHotlines | server/src/controllers/admin/cmsController.js:64-81 | 400 when no line survives normalisation; otherwise the normalised lines are stored and logged |
| Cms.PublishOnCreate | server/src/controllers/admin/cmsController.js:86 | only an explicit `false` creates a draft |
| Cms.CreateAnnouncement | server/src/controllers/admin/cmsController.js:83-103 | 400 when the title or body is blank; otherwise the announcement is prepended with a fresh id and logged, or 500 when the schema refuses it |
| Cms.FindAnnouncement | server/src/controllers/admin/cmsController.js:108-112 | a found position holds that id; none is found iff no announcement has it |
| Cms.SetPublishedKeeps | server/src/controllers/admin/cmsController.js:114-115 | flipping one flag keeps the order and validity of the announcements |
| Cms.ToggleAnnouncementPublish | server/src/controllers/admin/cmsController.js:105-124 | 404 for an unknown id, with the singleton ensured; otherwise the flag becomes "the body said `true`", and the change is logged |
| Inventory.View | server/src/controllers/admin/inventoryController.js:9 | an item is flagged low-stock iff its quantity is at most its threshold |
| Inventory.IsLowStock | server/src/controllers/admin/inventoryController.js:9 | an item is low on stock when its quantity is at most its threshold |
| Inventory.ListInventory | server/src/controllers/admin/inventoryController.js:4-13 | every item, each flagged by the low-stock rule |
| Inventory.Count | server/src/controllers/admin/inventoryController.js:22-24 | a number is accepted iff it is finite and not negative |
| Inventory.CreateThreshold | server/src/controllers/admin/inventoryController.js:20 | a falsy threshold, or one whose `Number` is negative or not finite, falls back to 10; a truthy value whose `Number` is finite and non-negative is kept |
| Inventory.ZeroThresholdBecomesDefault | server/src/controllers/admin/inventoryController.js:20 | an explicit 0 threshold becomes 10 |
| Inventory.NewItem | server/src/controllers/admin/inventoryController.js:26-33 | the created item carries the trimmed texts and the coerced numbers |
| Inventory.CreateInventoryItem | server/src/controllers/admin/inventoryController.js:15-41 | 400 "Invalid inventory payload"; otherwise stored at a fresh id and logged, or 500 when the schema refuses it |
| Inventory.EditItem | server/src/controllers/admin/inventoryController.js:49-67 | a bad quantity is reported first, then a bad threshold; a supplied field takes its new value, an absent one keeps the old |
| Inventory.EmptyEditIsIdentity | server/src/controllers/admin/inventoryController.js:49-67 | an empty body edits nothing |
| Inventory.UpdateInventoryItem | server/src/controllers/admin/inventoryController.js:43-84 | 404; a refused number persists nothing; otherwise saved and logged, or 500 when the schema refuses it |
| Inventory.DeleteInventoryItem | server/src/controllers/admin/inventoryController.js:86-101 | 404; otherwise the item is removed and logged |
| Analytics.Matching | server/src/controllers/admin/analyticsController.js:12-13 | the ids of exactly the documents that pass the test |
| Analytics.Count | server/src/controllers/admin/analyticsController.js:12-13 | a count is never more than the collection size |
| Analytics.CountPositive | server/src/controllers/admin/analyticsController.js:27-31 | a stored document that passes the test is counted |
| Analytics.CountPartition | server/src/controllers/admin/analyticsController.js:17-26 | a test and its negation count the whole collection between them |
| Analytics.CountMonotone | server/src/controllers/admin/overviewController.js:18-19 | a stricter test never counts more |
| Analytics.NormalizeObject | server/src/controllers/admin/analyticsController.js:34-42 | the loop computes the fold `Normalized` of the entries over the defaults |
| Analytics.Normalized | server/src/controllers/admin/analyticsController.js:34-42 | the fold that starts from the defaults and lets each entry with a non-empty id set its key to its count |
| Analytics.NormalizedUntouched | server/src/controllers/admin/analyticsController.js:34-42 | a key no entry names keeps its default |
| Analytics.NormalizedLast | server/src/controllers/admin/analyticsController.js:34-42 | a key takes the count of the last entry naming it |
| Analytics.NormalizedKeepsKeys | server/src/controllers/admin/analyticsController.js:34-42 | every default key is present in the result |
| Analytics.Rows | server/src/controllers/admin/analyticsController.js:14-26 | a group row exists iff its count is positive; distinct names stay distinct |
| Analytics.FilledFromRows | server/src/controllers/admin/analyticsController.js:44-45 | a zeroed default key ends holding its group's count, 0 included |
| Analytics.UrgencyZeroFilled | server/src/controllers/admin/analyticsController.js:14-16 | `requestsByUrgency` has high, medium and low, each holding its count |
| Analytics.ResolutionPartition | server/src/controllers/admin/analyticsController.js:17-26 | `resolvedVsUnresolved` has both keys, and they sum to the number of requests |
| Analytics.Busiest | server/src/controllers/admin/analyticsController.js:27-31 | a listed type whose count no listed type exceeds |
| Analytics.MostRequested | server/src/controllers/admin/analyticsController.js:27-31 | `none`/0 with no requests; otherwise a type with the largest count, which is positive |
| Analytics.GetAnalytics | server/src/controllers/admin/analyticsController.js:4-60 | active signups, all requests, both normalised groupings and the most requested type |
| Overview.QuantityBelow | server/src/controllers/admin/overviewController.js:21-29 | the `$sum` of the quantities of the items whose ids are below the bound |
| Overview.QuantityBelowAgree | server/src/controllers/admin/overviewController.js:21-29 | the total depends only on the items below the bound |
| Overview.QuantityBelowBeyond | server/src/controllers/admin/overviewController.js:21-29 | past every id, a larger bound gives the same total |
| Overview.QuantityBelowItem | server/src/controllers/admin/overviewController.js:21-29 | every item's quantity is part of the total |
| Overview.QuantityBelowEmpty | server/src/controllers/admin/overviewController.js:33 | no items means a total of 0 |
| Overview.QuantityAfterCreate | server/src/controllers/admin/overviewController.js:21-29 | creating an item at the next id raises the total by its quantity |
| Overview.GetOverview | server/src/controllers/admin/overviewController.js:6-48 | the totals match the collection sizes; open, resolved, active and available are the counts of their filters, open plus resolved is all requests, and available is at most active, which is at most all volunteers; recent activity is the last min(5, log length) log records, latest first |
| Overview.OverviewConsistent | server/src/controllers/admin/overviewController.js:21-33 | on a valid store every quantity is within the total, and the total covers the whole collection; the recent records are strictly newest first, and every log record left out is older than each of them |
| PublicHelpRequests.UrgencyText | server/src/controllers/helpRequestController.js:14 | the urgency text checked is trimmed |
| PublicHelpRequests.ValidateHelpRequest | server/src/controllers/helpRequestController.js:3-22 | the first missing field is named; with all fields present, it passes iff urgency is absent or names an enum value after trim and lower-casing |
| PublicHelpRequests.BlankUrgencyRejected | server/src/controllers/helpRequestController.js:13-21 | a blank urgency string is rejected, not defaulted |
| PublicHelpRequests.PayloadUrgency | server/src/controllers/helpRequestController.js:31 | falsy gives `medium`; a truthy non-string throws; a string is accepted iff it names an enum value |
| PublicHelpRequests.ValidatedUrgencyStored | server/src/controllers/helpRequestController.js:13-31 | a validated string urgency is stored as the value the check accepted |
| PublicHelpRequests.Payload | server/src/controllers/helpRequestController.js:26-33 | every text trimmed; status `new` and unassigned |
| PublicHelpRequests.CreateHelpRequest | server/src/controllers/helpRequestController.js:24-37 | 400 with the validation message; 500 for a non-string urgency; success iff the type and urgency are enum values and the schema accepts the payload, in which case it is stored at a fresh id |
| PublicHelpRequests.ListHelpRequests | server/src/controllers/helpRequestController.js:39-45 | every request, with its volunteer's name, email and phone iff the reference resolves |
| PublicHelpRequests.AssignedRequestsShowVolunteer | server/src/controllers/helpRequestController.js:41 | on a valid store no assigned request shows a null volunteer |
| PublicVolunteers.ValidateVolunteer | server/src/controllers/volunteerController.js:3-12 | passes iff every required field is a non-blank string; otherwise names the first field that fails |
| PublicVolunteers.PublicSkills | server/src/controllers/volunteerController.js:17-19 | every kept skill is trimmed and non-empty |
| PublicVolunteers.PublicSkillsMembers | server/src/controllers/volunteerController.js:17-19 | a skill is kept iff some string entry trims to it |
| PublicVolunteers.Signup | server/src/controllers/volunteerController.js:21-30 | a signup is always pending and available, hence not eligible, whatever the body says |
| PublicVolunteers.CreateVolunteer | server/src/controllers/volunteerController.js:14-32 | 400 with the validation message; otherwise stored at a fresh id, or 500 when the schema refuses it; no log record |
| PublicVolunteers.ListVolunteers | server/src/controllers/volunteerController.js:35-40 | listed iff active and approved |
| PublicVolunteers.SignupNotListed | server/src/controllers/volunteerController.js:28 | a fresh signup is not publicly listed |
| ErrorHandler.HandleError | server/src/middleware/errorHandler.js:1-11 | delegates iff headers were sent; otherwise an unsuccessful reply, defaulting to 500 and "Internal Server Error" |
| ErrorHandler.FailureReachesClient | server/src/middleware/errorHandler.js:6-9 | a thrown failure reaches the client with its own status and message |
| App.AllowedOrigins | server/src/app.js:32-35 | every configured origin is trimmed, non-empty and comma-free, and a string is configured iff it is non-empty and some comma piece trims to it |
| App.AllowedOriginsRoundTrip | server/src/app.js:32-35 | a list written back comma-joined configures the same list |
| App.AllowedOriginsAround | server/src/app.js:32-35 | the origins of `a,b` are the origins of `a` followed by those of `b`, in configuration order |
| App.Cors | server/src/app.js:37-55 | `*` wins; otherwise an origin is echoed, with `Vary`, iff it is listed; 204 iff OPTIONS; fixed method and header lists |
| App.CorsGrantsOnlyConfigured | server/src/app.js:37-45 | no origin outside the configuration is ever granted |
| App.StateName | server/src/app.js:61-67 | `unknown` iff the state is outside 0..3; `connected` iff 1 |
| App.HealthCheck | server/src/app.js:60-76 | 200 iff connected, otherwise 503; success and OK/DEGRADED follow |
| App.HealthyIffConnected | server/src/app.js:68-75 | healthy iff the database is reported connected |
| Client.ReplaceAllAppend | client/main.js:150-155 | `replaceAll` distributes over concatenation |
| Client.EscapeOne | client/main.js:149-156 | one character escapes to its entity |
| Client.EscapeHtmlIsEscapeEach | client/main.js:149-156 | the chain of five `replaceAll` calls equals the one-pass, per-character escape |
| Client.EscapeEachSafe | client/main.js:149-156 | the one-pass escape leaves no markup character, and every `&` starts an entity |
| Client.EscapeHtmlSafe | client/main.js:149-156 | `escapeHtml` leaves no `<`, `>`, `"` or `'`, and every `&` it leaves starts an entity |
| Client.EscapeHtml | client/main.js:149-156 | escaping never shortens a text, and text without the five special characters is unchanged |
| Client.BuildApiUrl | client/main.js:94-100 | absolute URLs are unchanged; otherwise the base, then `/`, then the path |
| Client.BuildApiUrlStable | client/main.js:94-100 | building an already built URL with an empty base changes nothing |
| Client.SkillsField | client/main.js:780-785 | none for an empty field; each skill trimmed, non-empty and comma-free, and a skill is listed iff it is non-empty and some comma piece trims to it |
| Client.SkillsSurviveSignup | client/main.js:780-785 | the server keeps every skill the form sends, unchanged and in order |
| Client.HotlinesSurviveUpdate | client/main.js:1272-1276 | the server stores the textarea's lines as sent, up to ten |
| Client.AssignableVolunteers | client/main.js:1636-1641 | a volunteer is offered iff it is listed, active and approved |

## Left out

- HTTP itself is not modelled: Express routing, `req`/`res` objects and JSON serialisation. A handler's reply is a `Reply` value: a status with data, or a status with a message.
- The route wiring is not modelled. The user-management handlers assume a super-admin caller as a precondition, which is what `requireRole('super-admin')` on their routes guarantees.
- JWT signing and verification are not modelled. A token verifies exactly when a given `tokens` map holds it, and then names an admin id.
- bcrypt is a parameter: `CreateAdminUser` receives the hash.
- The login handler (`authController.js`) is not part of this model.
- Sorting of list results by `createdAt`/`updatedAt` is not modelled, because collections are maps. Where order matters (recent activity, logs, announcements) the log and the announcement list keep creation order and the ordering is proved.
- Mongoose `populate`, `lean`, `countDocuments` and `aggregate` are computed over the maps directly.
- Mongoose validation errors are abstracted as a 500 with one message, "Validation failed". The message Mongoose would compose is not modelled.
- Malformed ObjectIds are not modelled: ids are natural numbers. A malformed id in the source gives a cast error rather than 404.
- Timestamps are not modelled: the store's clock stands for both ids and `createdAt`.
- `getAdminSiteContent` (`cmsController.js:40-43`) has no member of its own: it answers with the document `Cms.EnsureSiteContent` returns.
- Case folding is ASCII only: `ToLower` maps `A`–`Z`.
- Lengths are counted in characters, not UTF-16 code units.
- Numbers are integers: `Number(...)` of a fraction or an exponent (`"1.5"`, `"1e3"`) is treated as NaN. A fractional quantity that the source would store is therefore refused here. Signed `Infinity` and the `0x`, `0o` and `0b` literals are modelled.
- Query strings are single strings; a repeated query key, which Express turns into an array, is not modelled.
- Concurrency is not modelled: each handler runs alone, so the source's read-then-write races (two assignments of the same volunteer, the last-super-admin check) do not appear.
- AdminUsers.ListActivityLogs: a limit that `Number` turns into NaN (`"abc"`) gives every record here. In the source `limit(NaN)` is passed to MongoDB, whose result the model does not fix.
- Analytics.MostRequested: when two types tie for the most requests, the model picks the first in enum order. The source's `$sort`/`$limit` gives no guaranteed tie-break, so the contract states only that the count is the largest.
- Overview.GetOverview: the inventory total is not stated by this contract. It is proved separately in `Overview.OverviewConsistent`, on a valid store.
