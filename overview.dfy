/** The dashboard overview (server/src/controllers/admin/overviewController.js):
    request and volunteer counts, the inventory totals and the latest activity. */
module Overview {
  import opened Common
  import opened Models
  import opened Store
  import opened ActivityLogger
  import opened Analytics

  datatype OverviewReport = OverviewReport(
    totalHelpRequests: nat,
    openRequests: nat,
    resolvedRequests: nat,
    totalVolunteers: nat,
    availableVolunteers: nat,
    totalResourcesAvailable: nat,
    totalResourceItems: nat,
    recentActivity: seq<ActivityLog>)

  /** `status: { $in: ['new', 'in-progress'] }`. */
  function OpenTest(): HelpRequest -> bool {
    (r: HelpRequest) => IsOpen(r.status)
  }

  /** `isActive: true`. */
  function ActiveTest(): Volunteer -> bool {
    (v: Volunteer) => v.isActive
  }

  /** `isActive: true, approvalStatus: 'approved', availabilityStatus: 'available'`. */
  function AvailableTest(): Volunteer -> bool {
    (v: Volunteer) => v.isActive && v.approvalStatus == Approved && v.availabilityStatus == Available
  }

  // ---- the inventory `$group` with `$sum: '$quantity'` ----

  /** The quantities of the items whose ids are below `n`, added up. */
  function QuantityBelow(inv: map<Id, InventoryResource>, n: nat): nat {
    if n == 0 then 0
    else QuantityBelow(inv, n - 1) + (if n - 1 in inv then inv[n - 1].quantity else 0)
  }

  /** The total depends only on the items below the bound. */
  lemma {:induction false} QuantityBelowAgree(inv: map<Id, InventoryResource>, inv': map<Id, InventoryResource>, n: nat)
    requires forall id :: id < n ==> (id in inv <==> id in inv')
    requires forall id :: id < n && id in inv ==> inv[id] == inv'[id]
    ensures QuantityBelow(inv, n) == QuantityBelow(inv', n)
  {
    if n > 0 {
      QuantityBelowAgree(inv, inv', n - 1);
    }
  }

  /** Once the bound is past every id, raising it changes nothing: the total is the
      sum over the whole collection. */
  lemma {:induction false} QuantityBelowBeyond(inv: map<Id, InventoryResource>, n: nat, m: nat)
    requires forall id :: id in inv ==> id < n
    requires n <= m
    ensures QuantityBelow(inv, m) == QuantityBelow(inv, n)
  {
    if n < m {
      QuantityBelowBeyond(inv, n, m - 1);
    }
  }

  /** Every counted item's quantity is part of the total. */
  lemma {:induction false} QuantityBelowItem(inv: map<Id, InventoryResource>, n: nat, id: Id)
    requires id in inv && id < n
    ensures inv[id].quantity <= QuantityBelow(inv, n)
  {
    if id < n - 1 {
      QuantityBelowItem(inv, n - 1, id);
    }
  }

  /** With no items the total is 0, as the `{ totalQuantity: 0, itemCount: 0 }` default says. */
  lemma {:induction false} QuantityBelowEmpty(inv: map<Id, InventoryResource>, n: nat)
    requires |inv| == 0
    ensures QuantityBelow(inv, n) == 0
  {
    if n > 0 {
      QuantityBelowEmpty(inv, n - 1);
    }
  }

  /** Creating an item at the next id raises the total by exactly its quantity. */
  lemma QuantityAfterCreate(inv: map<Id, InventoryResource>, n: nat, item: InventoryResource)
    requires forall id :: id in inv ==> id < n
    ensures QuantityBelow(inv[n := item], n + 1) == QuantityBelow(inv, n) + item.quantity
  {
    QuantityBelowAgree(inv[n := item], inv, n);
  }

  // ---- getOverview ----

  /** `getOverview`: a read of four collections. */
  function GetOverview(db: Db): (o: OverviewReport)
    reads db
    ensures o.totalHelpRequests == |db.requests| && o.totalResourceItems == |db.inventory|
    ensures o.openRequests + o.resolvedRequests == o.totalHelpRequests
    ensures o.availableVolunteers <= o.totalVolunteers <= |db.volunteers|
    ensures |o.recentActivity| <= 5
    ensures o.openRequests == Count(db.requests, OpenTest())
    ensures o.resolvedRequests == Count(db.requests, StatusIs(Resolved))
    ensures o.totalVolunteers == Count(db.volunteers, ActiveTest())
    ensures o.availableVolunteers == Count(db.volunteers, AvailableTest())
    ensures |o.recentActivity| == if |db.logs| < 5 then |db.logs| else 5
    ensures forall i :: 0 <= i < |o.recentActivity| ==> o.recentActivity[i] == db.logs[|db.logs| - 1 - i]
  {
    CountPartition(db.requests, StatusIs(Resolved), OpenTest());
    CountMonotone(db.volunteers, AvailableTest(), ActiveTest());
    var inventory := if |db.inventory| == 0 then 0 else QuantityBelow(db.inventory, db.clock);
    OverviewReport(|db.requests|, Count(db.requests, OpenTest()), Count(db.requests, StatusIs(Resolved)),
                   Count(db.volunteers, ActiveTest()), Count(db.volunteers, AvailableTest()),
                   inventory, |db.inventory|, NewestFirst(db.logs, 5))
  }

  /** On a consistent store the figures agree with the collections: the quantity
      total covers every item, and the recent activity is the five latest records,
      newest first. */
  lemma OverviewConsistent(db: Db)
    requires db.Valid()
    ensures var o := GetOverview(db);
            && (forall id :: id in db.inventory ==> db.inventory[id].quantity <= o.totalResourcesAvailable)
            && (forall m :: m >= db.clock ==> o.totalResourcesAvailable == QuantityBelow(db.inventory, m))
            && (forall i, j :: 0 <= i < j < |o.recentActivity| ==> o.recentActivity[i].createdAt > o.recentActivity[j].createdAt)
            && (forall i, j :: 0 <= i < |o.recentActivity| && 0 <= j < |db.logs| - |o.recentActivity| ==>
                  db.logs[j].createdAt < o.recentActivity[i].createdAt)
  {
    NewestFirstIsNewest(db.logs, 5);
    forall id | id in db.inventory ensures db.inventory[id].quantity <= GetOverview(db).totalResourcesAvailable {
      QuantityBelowItem(db.inventory, db.clock, id);
    }
    forall m | m >= db.clock ensures GetOverview(db).totalResourcesAvailable == QuantityBelow(db.inventory, m) {
      QuantityBelowBeyond(db.inventory, db.clock, m);
      if |db.inventory| == 0 {
        QuantityBelowEmpty(db.inventory, m);
      }
    }
  }
}
