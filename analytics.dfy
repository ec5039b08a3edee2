/** The dashboard analytics (server/src/controllers/admin/analyticsController.js):
    counts grouped by urgency, by resolution and by request type, with every
    expected key present even when its group is empty. */
module Analytics {
  import opened Common
  import opened Models

  // ---- counting documents ----

  /** The ids of the stored documents that satisfy `p`. */
  function Matching<T>(m: map<Id, T>, p: T -> bool): (ids: set<Id>)
    ensures forall id :: id in ids <==> id in m && p(m[id])
  {
    set id | id in m && p(m[id])
  }

  /** `countDocuments(filter)`: how many stored documents satisfy `p`. */
  function Count<T>(m: map<Id, T>, p: T -> bool): (n: nat)
    ensures n <= |m|
  {
    SubsetCard(Matching(m, p), m.Keys);
    |Matching(m, p)|
  }

  /** A subset is no larger than its superset. */
  lemma SubsetCard<U>(a: set<U>, b: set<U>)
    requires a <= b
    ensures |a| <= |b|
  {
    assert b == a + (b - a);
  }

  /** A stored document that passes the test is counted. */
  lemma CountPositive<T>(m: map<Id, T>, p: T -> bool, id: Id)
    requires id in m && p(m[id])
    ensures Count(m, p) > 0
  {
    assert id in Matching(m, p);
  }

  /** Splitting by a test and its negation loses and doubles nothing. */
  lemma CountPartition<T>(m: map<Id, T>, p: T -> bool, q: T -> bool)
    requires forall x :: q(x) <==> !p(x)
    ensures Count(m, p) + Count(m, q) == |m|
  {
    var yes := Matching(m, p);
    var no := Matching(m, q);
    assert m.Keys == yes + no;
    assert yes * no == {};
    assert |m.Keys| == |m|;
  }

  /** A test implied by another counts at least as much. */
  lemma CountMonotone<T>(m: map<Id, T>, p: T -> bool, q: T -> bool)
    requires forall x :: p(x) ==> q(x)
    ensures Count(m, p) <= Count(m, q)
  {
    SubsetCard(Matching(m, p), Matching(m, q));
  }

  // ---- normalizeObject ----

  /** One row of a `$group` result: `{ _id, count }`; the empty string stands for a
      missing or falsy `_id`. */
  datatype GroupEntry = GroupEntry(id: string, count: nat)

  /** The object `normalizeObject` returns after the entries up to the end of `pairs`. */
  function Normalized(pairs: seq<GroupEntry>, defaults: map<string, nat>): map<string, nat> {
    if pairs == [] then defaults
    else
      var before := Normalized(pairs[..|pairs| - 1], defaults);
      var entry := pairs[|pairs| - 1];
      if entry.id != "" then before[entry.id := entry.count] else before
  }

  /** `normalizeObject(pairs, defaults)`: start from the defaults, then let each
      entry with a truthy `_id` set its key. */
  method NormalizeObject(pairs: seq<GroupEntry>, defaults: map<string, nat>) returns (result: map<string, nat>)
    ensures result == Normalized(pairs, defaults)
  {
    result := defaults;
    for i := 0 to |pairs|
      invariant result == Normalized(pairs[..i], defaults)
    {
      assert pairs[..i + 1][..i] == pairs[..i];
      if pairs[i].id != "" {
        result := result[pairs[i].id := pairs[i].count];
      }
    }
    assert pairs[..|pairs|] == pairs;
  }

  /** A key no entry names keeps its default, or stays absent. */
  lemma {:induction false} NormalizedUntouched(pairs: seq<GroupEntry>, defaults: map<string, nat>, k: string)
    requires forall i :: 0 <= i < |pairs| ==> pairs[i].id != k
    ensures k in Normalized(pairs, defaults) <==> k in defaults
    ensures k in defaults ==> Normalized(pairs, defaults)[k] == defaults[k]
  {
    if pairs != [] {
      var init := pairs[..|pairs| - 1];
      assert forall i :: 0 <= i < |init| ==> init[i] == pairs[i];
      NormalizedUntouched(init, defaults, k);
    }
  }

  /** A key takes the count of the last entry naming it. */
  lemma {:induction false} NormalizedLast(pairs: seq<GroupEntry>, defaults: map<string, nat>, i: nat)
    requires i < |pairs| && pairs[i].id != ""
    requires forall j :: i < j < |pairs| ==> pairs[j].id != pairs[i].id
    ensures pairs[i].id in Normalized(pairs, defaults)
    ensures Normalized(pairs, defaults)[pairs[i].id] == pairs[i].count
  {
    if i < |pairs| - 1 {
      var init := pairs[..|pairs| - 1];
      assert forall j :: 0 <= j < |init| ==> init[j] == pairs[j];
      NormalizedLast(init, defaults, i);
    }
  }

  /** Every default key is still present at the end. */
  lemma {:induction false} NormalizedKeepsKeys(pairs: seq<GroupEntry>, defaults: map<string, nat>)
    ensures defaults.Keys <= Normalized(pairs, defaults).Keys
  {
    if pairs != [] {
      NormalizedKeepsKeys(pairs[..|pairs| - 1], defaults);
    }
  }

  // ---- the three groupings ----

  function UrgencyIs(u: Urgency): HelpRequest -> bool {
    (r: HelpRequest) => r.urgency == u
  }

  function TypeIs(t: RequestType): HelpRequest -> bool {
    (r: HelpRequest) => r.requestType == t
  }

  function StatusIs(s: RequestStatus): HelpRequest -> bool {
    (r: HelpRequest) => r.status == s
  }

  function StatusIsNot(s: RequestStatus): HelpRequest -> bool {
    (r: HelpRequest) => r.status != s
  }

  function CountUrgency(requests: map<Id, HelpRequest>, u: Urgency): nat {
    Count(requests, UrgencyIs(u))
  }

  function CountType(requests: map<Id, HelpRequest>, t: RequestType): nat {
    Count(requests, TypeIs(t))
  }

  function CountResolved(requests: map<Id, HelpRequest>): nat {
    Count(requests, StatusIs(Resolved))
  }

  function CountUnresolved(requests: map<Id, HelpRequest>): nat {
    Count(requests, StatusIsNot(Resolved))
  }

  /** A `$group` stage's output: one row per value that occurs. */
  function Rows(counts: seq<GroupEntry>): (rows: seq<GroupEntry>)
    ensures forall i :: 0 <= i < |rows| ==> rows[i] in counts && rows[i].count > 0
    ensures forall e :: e in counts && e.count > 0 ==> e in rows
    ensures (forall a, b :: 0 <= a < b < |counts| ==> counts[a].id != counts[b].id) ==>
              forall a, b :: 0 <= a < b < |rows| ==> rows[a].id != rows[b].id
  {
    if counts == [] then []
    else
      assert counts == [counts[0]] + counts[1..];
      (if counts[0].count > 0 then [counts[0]] else []) + Rows(counts[1..])
  }

  function UrgencyRows(requests: map<Id, HelpRequest>): seq<GroupEntry> {
    Rows([GroupEntry("high", CountUrgency(requests, High)), GroupEntry("medium", CountUrgency(requests, Medium)),
          GroupEntry("low", CountUrgency(requests, Low))])
  }

  function ResolutionRows(requests: map<Id, HelpRequest>): seq<GroupEntry> {
    Rows([GroupEntry("resolved", CountResolved(requests)), GroupEntry("unresolved", CountUnresolved(requests))])
  }

  const UrgencyDefaults: map<string, nat> := map["high" := 0, "medium" := 0, "low" := 0]
  const ResolutionDefaults: map<string, nat> := map["resolved" := 0, "unresolved" := 0]

  /** Among entries with distinct names, a name picks out one entry. */
  lemma NamedOnce(counts: seq<GroupEntry>, i: nat, e: GroupEntry)
    requires i < |counts| && e in counts && e.id == counts[i].id
    requires forall a, b :: 0 <= a < b < |counts| ==> counts[a].id != counts[b].id
    ensures e == counts[i]
  {
    var a :| 0 <= a < |counts| && counts[a] == e;
  }

  /** Rows with distinct names fill a zeroed key with its count, or leave the zero
      when the group is empty. */
  lemma FilledFromRows(counts: seq<GroupEntry>, defaults: map<string, nat>, i: nat)
    requires i < |counts| && counts[i].id != ""
    requires forall a, b :: 0 <= a < b < |counts| ==> counts[a].id != counts[b].id
    requires counts[i].id in defaults && defaults[counts[i].id] == 0
    ensures counts[i].id in Normalized(Rows(counts), defaults)
    ensures Normalized(Rows(counts), defaults)[counts[i].id] == counts[i].count
  {
    var rows := Rows(counts);
    var k := counts[i].id;
    if counts[i].count > 0 {
      assert counts[i] in rows;
      var j :| 0 <= j < |rows| && rows[j] == counts[i];
      NormalizedLast(rows, defaults, j);
    } else {
      forall j | 0 <= j < |rows| ensures rows[j].id != k {
        if rows[j].id == k {
          NamedOnce(counts, i, rows[j]);
        }
      }
      NormalizedUntouched(rows, defaults, k);
    }
  }

  /** `requestsByUrgency` has the keys high, medium and low, each holding its count. */
  lemma UrgencyZeroFilled(requests: map<Id, HelpRequest>)
    ensures var m := Normalized(UrgencyRows(requests), UrgencyDefaults);
            && "high" in m && m["high"] == CountUrgency(requests, High)
            && "medium" in m && m["medium"] == CountUrgency(requests, Medium)
            && "low" in m && m["low"] == CountUrgency(requests, Low)
  {
    var counts := [GroupEntry("high", CountUrgency(requests, High)), GroupEntry("medium", CountUrgency(requests, Medium)),
                   GroupEntry("low", CountUrgency(requests, Low))];
    FilledFromRows(counts, UrgencyDefaults, 0);
    FilledFromRows(counts, UrgencyDefaults, 1);
    FilledFromRows(counts, UrgencyDefaults, 2);
  }

  /** `resolvedVsUnresolved` has both keys, and the two parts add up to the total. */
  lemma ResolutionPartition(requests: map<Id, HelpRequest>)
    ensures var m := Normalized(ResolutionRows(requests), ResolutionDefaults);
            && "resolved" in m && m["resolved"] == CountResolved(requests)
            && "unresolved" in m && m["unresolved"] == CountUnresolved(requests)
            && m["resolved"] + m["unresolved"] == |requests|
  {
    var counts := [GroupEntry("resolved", CountResolved(requests)), GroupEntry("unresolved", CountUnresolved(requests))];
    FilledFromRows(counts, ResolutionDefaults, 0);
    FilledFromRows(counts, ResolutionDefaults, 1);
    CountPartition(requests, StatusIs(Resolved), StatusIsNot(Resolved));
  }

  // ---- the most requested type ----

  datatype TypeSummary = TypeSummary(requestType: string, count: nat)

  const AllTypes: seq<RequestType> := [Food, Transportation, Medical, Shelter, Other]

  lemma AllTypesListed()
    ensures forall u: RequestType :: u in AllTypes
  {
    forall u: RequestType ensures u in AllTypes {
      match u
      case Food => assert AllTypes[0] == u;
      case Transportation => assert AllTypes[1] == u;
      case Medical => assert AllTypes[2] == u;
      case Shelter => assert AllTypes[3] == u;
      case Other => assert AllTypes[4] == u;
    }
  }

  /** The first type of `types` with the largest count. */
  function Busiest(requests: map<Id, HelpRequest>, types: seq<RequestType>): (t: RequestType)
    requires types != []
    ensures t in types
    ensures forall u :: u in types ==> CountType(requests, u) <= CountType(requests, t)
  {
    if |types| == 1 then types[0]
    else
      var rest := Busiest(requests, types[1..]);
      assert forall u :: u in types ==> u == types[0] || u in types[1..];
      if CountType(requests, types[0]) >= CountType(requests, rest) then types[0] else rest
  }

  /** `$sort: { count: -1 }, $limit: 1` over the type groups, or `none` with count 0. */
  function MostRequested(requests: map<Id, HelpRequest>): (r: TypeSummary)
    ensures |requests| == 0 ==> r == TypeSummary("none", 0)
    ensures |requests| > 0 ==>
              && (exists t :: r == TypeSummary(RequestTypeName(t), CountType(requests, t)))
              && (forall t :: CountType(requests, t) <= r.count)
              && r.count > 0
  {
    if |requests| == 0 then TypeSummary("none", 0)
    else
      var t := Busiest(requests, AllTypes);
      AllTypesListed();
      var id :| id in requests;
      var seen := requests[id].requestType;
      CountPositive(requests, TypeIs(seen), id);
      assert seen in AllTypes;
      assert CountType(requests, seen) <= CountType(requests, t);
      TypeSummary(RequestTypeName(t), CountType(requests, t))
  }

  // ---- getAnalytics ----

  datatype AnalyticsReport = AnalyticsReport(
    totalSignups: nat,
    totalHelpRequests: nat,
    requestsByUrgency: map<string, nat>,
    resolvedVsUnresolved: map<string, nat>,
    mostRequestedHelpType: TypeSummary)

  /** `getAnalytics`: a read of the two collections. */
  method GetAnalytics(requests: map<Id, HelpRequest>, volunteers: map<Id, Volunteer>) returns (report: AnalyticsReport)
    ensures report.totalSignups == Count(volunteers, (v: Volunteer) => v.isActive)
    ensures report.totalHelpRequests == |requests|
    ensures report.requestsByUrgency == Normalized(UrgencyRows(requests), UrgencyDefaults)
    ensures report.resolvedVsUnresolved == Normalized(ResolutionRows(requests), ResolutionDefaults)
    ensures report.mostRequestedHelpType == MostRequested(requests)
  {
    var byUrgency := NormalizeObject(UrgencyRows(requests), UrgencyDefaults);
    var byResolution := NormalizeObject(ResolutionRows(requests), ResolutionDefaults);
    report := AnalyticsReport(Count(volunteers, (v: Volunteer) => v.isActive), |requests|,
                              byUrgency, byResolution, MostRequested(requests));
  }
}
