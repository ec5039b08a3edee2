/** `logActivity` (server/src/utils/activityLogger.js): builds one audit record
    and appends it to the log. */
module ActivityLogger {
  import opened Common
  import opened Models
  import opened Store
  import opened Auth

  /** The record `logActivity` hands to `ActivityLog.create`, stamped at time `at`. */
  function BuildLogRecord(actor: Option<RequestUser>, action: string, details: string, at: nat): (rec: ActivityLog)
    ensures rec.actorEmail != ""
    ensures actor.Some? && actor.value.email != "" ==> rec.actorEmail == actor.value.email
    ensures actor.None? || actor.value.email == "" ==> rec.actorEmail == "system"
    ensures rec.actorId == (if actor.Some? then Some(actor.value.id) else None)
    ensures rec.action == action && rec.details == details && rec.createdAt == at
  {
    var email := if actor.Some? && actor.value.email != "" then actor.value.email else "system";
    var id := if actor.Some? then Some(actor.value.id) else None;
    ActivityLog(id, email, action, details, at)
  }

  /** The record is validated by the schema on `create`; a rejected record is not
      stored and the caller's promise rejects (`ok` false). */
  method LogActivity(db: Db, actor: Option<RequestUser>, action: string, details: string) returns (ok: bool)
    requires db.Valid()
    modifies db
    ensures db.Valid()
    ensures ok == ValidActivityLog(BuildLogRecord(actor, action, details, old(db.clock)))
    ensures db.logs == old(db.logs) + if ok then [BuildLogRecord(actor, action, details, old(db.clock))] else []
    ensures db.clock == old(db.clock) + 1
    ensures db.requests == old(db.requests) && db.volunteers == old(db.volunteers) && db.admins == old(db.admins)
    ensures db.inventory == old(db.inventory) && db.site == old(db.site)
  {
    var rec := BuildLogRecord(actor, action, details, db.clock);
    LaterClock(db, db.clock + 1);
    ok := ValidActivityLog(rec);
    if ok {
      db.logs := db.logs + [rec];
    }
    db.clock := db.clock + 1;
  }

  /** How a handler ends once its write is saved. `logActivity` is its last write, so
      its record carries the last tick of the clock, `now - 1`, where `now` is the
      clock after the handler. When the schema accepts that record, the log grows by
      exactly it and the handler answers `code` with the saved data; when the schema
      rejects it, the log stays as it was and the handler answers 500, with the write
      still saved. */
  ghost predicate Committed<T>(reply: Reply<T>, code: int, data: T, before: seq<ActivityLog>, after: seq<ActivityLog>,
                               actor: Option<RequestUser>, action: string, details: string, now: nat) {
    && now >= 1
    && var rec := BuildLogRecord(actor, action, details, now - 1);
       if ValidActivityLog(rec) then reply == Success(code, data) && after == before + [rec]
       else reply == Failure(500, ValidationFailed) && after == before
  }

  /** A handler's closing `await logActivity(...)` followed by `res.status(code).json(data)`:
      a rejected record rejects the handler's promise, which the error handler answers with 500. */
  method Commit<T>(db: Db, actor: Option<RequestUser>, action: string, details: string, code: int, data: T)
    returns (reply: Reply<T>)
    requires db.Valid()
    modifies db
    ensures db.Valid()
    ensures Committed(reply, code, data, old(db.logs), db.logs, actor, action, details, db.clock)
    ensures db.requests == old(db.requests) && db.volunteers == old(db.volunteers) && db.admins == old(db.admins)
    ensures db.inventory == old(db.inventory) && db.site == old(db.site)
  {
    var ok := LogActivity(db, actor, action, details);
    reply := if ok then Success(code, data) else Failure(500, ValidationFailed);
  }

  /** The only way a handler's log record is refused is details that are empty or over
      600 characters: the actor's email falls back to "system" and every action is named. */
  lemma {:induction false} RecordAccepted(actor: Option<RequestUser>, action: string, details: string, at: nat)
    requires action != ""
    ensures ValidActivityLog(BuildLogRecord(actor, action, details, at)) <==> 0 < |details| <= 600
  {
    var rec := BuildLogRecord(actor, action, details, at);
    assert rec.actorEmail != "" && rec.action == action && rec.details == details;
  }

  /** `ActivityLog.find().sort({ createdAt: -1 }).limit(k)` over a log kept in
      creation order: the last `k` records, latest first. */
  function NewestFirst(logs: seq<ActivityLog>, k: nat): (r: seq<ActivityLog>)
    ensures |r| == if |logs| < k then |logs| else k
    ensures forall i :: 0 <= i < |r| ==> r[i] == logs[|logs| - 1 - i]
  {
    var n := if |logs| < k then |logs| else k;
    seq(n, i requires 0 <= i < n => logs[|logs| - 1 - i])
  }

  /** On a log in creation order, `NewestFirst` lists strictly newest first, and
      every record it leaves out is older than every record it lists. */
  lemma NewestFirstIsNewest(logs: seq<ActivityLog>, k: nat)
    requires forall i, j :: 0 <= i < j < |logs| ==> logs[i].createdAt < logs[j].createdAt
    ensures var r := NewestFirst(logs, k);
            && (forall i, j :: 0 <= i < j < |r| ==> r[i].createdAt > r[j].createdAt)
            && (forall i, j :: 0 <= i < |r| && 0 <= j < |logs| - |r| ==> logs[j].createdAt < r[i].createdAt)
            && (forall i :: 0 <= i < |r| ==> r[i] in logs)
  {
    var r := NewestFirst(logs, k);
    forall i | 0 <= i < |r| ensures r[i] in logs {
      assert r[i] == logs[|logs| - 1 - i];
    }
  }
}
