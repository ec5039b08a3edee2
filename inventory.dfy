/** The inventory handlers (server/src/controllers/admin/inventoryController.js):
    the low-stock flag, creation with its number coercions, the field-by-field
    update that saves nothing when a number is refused, and deletion. */
module Inventory {
  import opened Common
  import opened Text
  import opened Js
  import opened Models
  import opened Store
  import opened Auth
  import opened ActivityLogger

  /** An item as the handlers answer with it: the stored fields plus `isLowStock`. */
  datatype ItemView = ItemView(id: Id, item: InventoryResource, isLowStock: bool)

  /** `quantity <= lowStockThreshold`. */
  predicate IsLowStock(item: InventoryResource) {
    item.quantity <= item.lowStockThreshold
  }

  function View(id: Id, item: InventoryResource): (v: ItemView)
    ensures v.id == id && v.item == item
    ensures v.isLowStock <==> item.quantity <= item.lowStockThreshold
  {
    ItemView(id, item, IsLowStock(item))
  }

  /** `listInventory`: every item, each flagged by the low-stock rule. */
  function ListInventory(inventory: map<Id, InventoryResource>): (r: map<Id, ItemView>)
    ensures r.Keys == inventory.Keys
    ensures forall id :: id in r ==> r[id].item == inventory[id] && (r[id].isLowStock <==> inventory[id].quantity <= inventory[id].lowStockThreshold)
  {
    map id | id in inventory :: View(id, inventory[id])
  }

  /** `Number(v)` accepted as a quantity or threshold: finite and not negative. */
  function Count(v: JsValue): (r: Option<nat>)
    ensures r.Some? <==> ToNumber(v).Finite? && ToNumber(v).value >= 0
    ensures r.Some? ==> r.value == ToNumber(v).value
  {
    match ToNumber(v)
    case Finite(n) => if n >= 0 then Some(n) else None
    case _ => None
  }

  /** `Number(req.body.lowStockThreshold || 10)`, falling back to 10 unless finite and not negative. */
  function CreateThreshold(raw: JsValue): (t: nat)
    ensures !Truthy(raw) ==> t == DefaultLowStockThreshold
    ensures raw.Num? && raw.n > 0 ==> t == raw.n
    ensures raw.Num? && raw.n < 0 ==> t == DefaultLowStockThreshold
    ensures Truthy(raw) && Count(raw).None? ==> t == DefaultLowStockThreshold
    ensures Truthy(raw) && Count(raw).Some? ==> t == Count(raw).value
  {
    match Count(if Truthy(raw) then raw else Num(DefaultLowStockThreshold))
    case Some(n) => n
    case None => DefaultLowStockThreshold
  }

  /** An explicit threshold of 0 is replaced by the default: `0 || 10` is 10. */
  lemma ZeroThresholdBecomesDefault()
    ensures CreateThreshold(Num(0)) == DefaultLowStockThreshold
  {
  }

  predicate CreatePayloadOk(body: Body) {
    TrimmedText(Field(body, "name")) != "" && TrimmedText(Field(body, "category")) != ""
    && Count(Field(body, "quantity")).Some?
  }

  /** The item `createInventoryItem` hands to `create`. */
  function NewItem(body: Body): (item: InventoryResource)
    requires CreatePayloadOk(body)
    ensures item.name == TrimmedText(Field(body, "name")) && item.category == TrimmedText(Field(body, "category"))
    ensures item.quantity == Count(Field(body, "quantity")).value
    ensures item.location == TrimmedText(Field(body, "location"))
    ensures item.lowStockThreshold == CreateThreshold(Field(body, "lowStockThreshold"))
  {
    InventoryResource(TrimmedText(Field(body, "name")), TrimmedText(Field(body, "category")),
                      Count(Field(body, "quantity")).value, TrimmedText(Field(body, "location")),
                      CreateThreshold(Field(body, "lowStockThreshold")))
  }

  method CreateInventoryItem(db: Db, user: Option<RequestUser>, body: Body) returns (reply: Reply<InventoryResource>)
    requires db.Valid()
    modifies db
    ensures db.Valid()
    ensures !CreatePayloadOk(body) ==> reply == Failure(400, "Invalid inventory payload") && unchanged(db)
    ensures CreatePayloadOk(body) && ValidInventoryResource(NewItem(body)) ==>
              && db.inventory == old(db.inventory)[old(db.clock) := NewItem(body)]
              && old(db.clock) !in old(db.inventory)
              && Committed(reply, 201, NewItem(body), old(db.logs), db.logs, user, "inventory.created",
                           "Inventory item " + NewItem(body).name + " created with qty " + NatToDecimal(NewItem(body).quantity), db.clock)
    ensures CreatePayloadOk(body) && !ValidInventoryResource(NewItem(body)) ==>
              reply == Failure(500, ValidationFailed) && db.inventory == old(db.inventory) && db.logs == old(db.logs)
    ensures db.requests == old(db.requests) && db.volunteers == old(db.volunteers) && db.admins == old(db.admins)
    ensures db.site == old(db.site)
  {
    if !CreatePayloadOk(body) {
      return Failure(400, "Invalid inventory payload");
    }
    var item := NewItem(body);
    var id := db.CreateItem(item);
    if id.None? {
      return Failure(500, ValidationFailed);
    }
    reply := Commit(db, user, "inventory.created",
                    "Inventory item " + item.name + " created with qty " + NatToDecimal(item.quantity), 201, item);
  }

  datatype EditOutcome = Edited(item: InventoryResource) | BadInput(message: string)

  /** The field assignments of `updateInventoryItem`, in its order: the text fields
      first, then the two numbers, either of which can stop the update. */
  function EditItem(item: InventoryResource, body: Body): (r: EditOutcome)
    // a refused number is reported, quantity first
    ensures r == BadInput("Invalid quantity") <==>
              Field(body, "quantity") != Undefined && Count(Field(body, "quantity")).None?
    ensures r == BadInput("Invalid low stock threshold") <==>
              && (Field(body, "quantity") == Undefined || Count(Field(body, "quantity")).Some?)
              && Field(body, "lowStockThreshold") != Undefined && Count(Field(body, "lowStockThreshold")).None?
    // a supplied field takes the new value, an absent one keeps the old
    ensures r.Edited? ==>
              && r.item.name == (if Field(body, "name") == Undefined then item.name else TrimmedText(Field(body, "name")))
              && r.item.category == (if Field(body, "category") == Undefined then item.category else TrimmedText(Field(body, "category")))
              && r.item.location == (if Field(body, "location") == Undefined then item.location else TrimmedText(Field(body, "location")))
              && r.item.quantity == (if Field(body, "quantity") == Undefined then item.quantity else Count(Field(body, "quantity")).value)
              && r.item.lowStockThreshold == (if Field(body, "lowStockThreshold") == Undefined then item.lowStockThreshold
                                              else Count(Field(body, "lowStockThreshold")).value)
  {
    var named := if Field(body, "name") != Undefined then item.(name := TrimmedText(Field(body, "name"))) else item;
    var filed := if Field(body, "category") != Undefined then named.(category := TrimmedText(Field(body, "category"))) else named;
    var placed := if Field(body, "location") != Undefined then filed.(location := TrimmedText(Field(body, "location"))) else filed;
    if Field(body, "quantity") != Undefined && Count(Field(body, "quantity")).None? then BadInput("Invalid quantity")
    else
      var counted := if Field(body, "quantity") != Undefined then placed.(quantity := Count(Field(body, "quantity")).value) else placed;
      if Field(body, "lowStockThreshold") != Undefined && Count(Field(body, "lowStockThreshold")).None? then
        BadInput("Invalid low stock threshold")
      else if Field(body, "lowStockThreshold") != Undefined then
        Edited(counted.(lowStockThreshold := Count(Field(body, "lowStockThreshold")).value))
      else Edited(counted)
  }

  /** An empty body edits nothing. */
  lemma EmptyEditIsIdentity(item: InventoryResource)
    ensures EditItem(item, map[]) == Edited(item)
  {
  }

  method UpdateInventoryItem(db: Db, user: Option<RequestUser>, id: Id, body: Body) returns (reply: Reply<ItemView>)
    requires db.Valid()
    modifies db
    ensures db.Valid()
    ensures id !in old(db.inventory) ==> reply == Failure(404, "Inventory item not found") && unchanged(db)
    // a refused number persists nothing, not even the text edits made before it
    ensures id in old(db.inventory) && EditItem(old(db.inventory)[id], body).BadInput? ==>
              reply == Failure(400, EditItem(old(db.inventory)[id], body).message) && unchanged(db)
    ensures id in old(db.inventory) && EditItem(old(db.inventory)[id], body).Edited? ==>
              var item := EditItem(old(db.inventory)[id], body).item;
              if ValidInventoryResource(item) then
                && db.inventory == old(db.inventory)[id := item]
                && Committed(reply, 200, View(id, item), old(db.logs), db.logs, user, "inventory.updated",
                             "Inventory item " + item.name + " updated", db.clock)
              else
                reply == Failure(500, ValidationFailed) && db.inventory == old(db.inventory) && db.logs == old(db.logs)
    ensures db.requests == old(db.requests) && db.volunteers == old(db.volunteers) && db.admins == old(db.admins)
    ensures db.site == old(db.site)
  {
    if id !in db.inventory {
      return Failure(404, "Inventory item not found");
    }
    var edit := EditItem(db.inventory[id], body);
    if edit.BadInput? {
      return Failure(400, edit.message);
    }
    var saved := db.SaveItem(id, edit.item);
    if !saved {
      return Failure(500, ValidationFailed);
    }
    reply := Commit(db, user, "inventory.updated",
                    "Inventory item " + edit.item.name + " updated", 200, View(id, edit.item));
  }

  method DeleteInventoryItem(db: Db, user: Option<RequestUser>, id: Id) returns (reply: Reply<Id>)
    requires db.Valid()
    modifies db
    ensures db.Valid()
    ensures id !in old(db.inventory) ==> reply == Failure(404, "Inventory item not found") && unchanged(db)
    ensures id in old(db.inventory) ==>
              && db.inventory == old(db.inventory) - {id}
              && Committed(reply, 200, id, old(db.logs), db.logs, user, "inventory.deleted",
                           "Inventory item " + old(db.inventory)[id].name + " removed", db.clock)
    ensures db.requests == old(db.requests) && db.volunteers == old(db.volunteers) && db.admins == old(db.admins)
    ensures db.site == old(db.site)
  {
    if id !in db.inventory {
      return Failure(404, "Inventory item not found");
    }
    var item := db.inventory[id];
    db.DeleteItem(id);
    reply := Commit(db, user, "inventory.deleted",
                    "Inventory item " + item.name + " removed", 200, id);
  }
}
