/** The order handlers (controllers/orderController.js). `createOrder` is
    public; the others run behind `protect` and `restrictTo('admin',
    'master')` (routes/orderRoutes.js), so their caller is an authenticated
    user of either role. Each handler takes the stores and returns its
    outcome and the order store after it; the laptop store is only read. */
module OrderController {
  import opened Common
  import opened UserModel
  import opened AuthMiddleware
  import opened LaptopModel
  import opened Listing
  import opened OrderModel

  /** A `createOrder` request body. Only the first five fields are read;
      the others stand for anything else a client may send. */
  datatype OrderRequest = OrderRequest(
    firstName: Option<string>,
    lastName: Option<string>,
    email: Option<string>,
    phoneNumber: Option<string>,
    laptopId: Option<Id>,
    status: Option<string>,
    assignedTo: Option<Id>,
    totalPrice: Option<real>,
    shippingAddress: Option<string>)

  /** `createOrder`: 404 for an unknown laptop, 400 for one out of stock,
      otherwise the drafted order is saved under the fresh id `newId`, or
      400 when it fails validation. */
  function CreateOrder(laptops: map<Id, Laptop>, orders: map<Id, Order>, req: OrderRequest, newId: Id, now: nat)
    : (r: (Result<Id>, map<Id, Order>))
    requires newId !in orders
    ensures req.laptopId.None? || req.laptopId.value !in laptops ==> r == (Err(NotFound), orders)
    ensures req.laptopId.Some? && req.laptopId.value in laptops && !laptops[req.laptopId.value].inStock ==>
      r == (Err(BadRequest), orders)
    ensures r.0.Err? ==> r.1 == orders
    ensures r.0.Ok? ==>
      && r.0.value == newId
      && r.1.Keys == orders.Keys + {newId}
      && (forall id :: id in orders ==> r.1[id] == orders[id])
      && r.1[newId].laptop == req.laptopId
      && r.1[newId].status == Some(Pending)
      && r.1[newId].assignedTo.None?
  {
    if req.laptopId.None? || req.laptopId.value !in laptops then (Err(NotFound), orders)
    else if !laptops[req.laptopId.value].inStock then (Err(BadRequest), orders)
    else
      var doc := Draft(Text(req.firstName), Text(req.lastName), Text(req.email), Text(req.phoneNumber), req.laptopId);
      match SaveOrder(None, doc, now)
      case Err(f) => (Err(f), orders)
      case Ok(saved) => (Ok(newId), orders[newId := saved])
  }

  /** The handler never supplies `totalPrice` or `shippingAddress`, so no
      request creates an order: an in-stock laptop still yields 400. */
  lemma CreateOrderAlwaysRejected(laptops: map<Id, Laptop>, orders: map<Id, Order>, req: OrderRequest, newId: Id, now: nat)
    requires newId !in orders
    ensures CreateOrder(laptops, orders, req, newId, now).0.Err?
    ensures CreateOrder(laptops, orders, req, newId, now).1 == orders
    ensures req.laptopId.Some? && req.laptopId.value in laptops ==>
      CreateOrder(laptops, orders, req, newId, now).0 == Err(BadRequest)
  {
    DraftNeverValid(Text(req.firstName), Text(req.lastName), Text(req.email), Text(req.phoneNumber), req.laptopId);
  }

  /** Only the name, e-mail, phone and laptop fields of the body matter;
      a client-supplied status, assignee, price or address is ignored. */
  lemma CreateOrderIgnoresExtras(laptops: map<Id, Laptop>, orders: map<Id, Order>, a: OrderRequest, b: OrderRequest, newId: Id, now: nat)
    requires newId !in orders
    requires a.firstName == b.firstName && a.lastName == b.lastName && a.email == b.email
    requires a.phoneNumber == b.phoneNumber && a.laptopId == b.laptopId
    ensures CreateOrder(laptops, orders, a, newId, now) == CreateOrder(laptops, orders, b, newId, now)
  {
  }

  // ---------------------------------------------------------------------
  // Listings
  // ---------------------------------------------------------------------

  /** The query filter of both listings: an admin sees the orders assigned
      to them, master sees all. */
  predicate InScope(caller: Principal, o: Order) {
    caller.user.role == Admin ==> o.assignedTo == Some(caller.id)
  }

  function CreatedAt(orders: map<Id, Order>): (key: map<Id, nat>)
    ensures key.Keys == orders.Keys
  {
    map id | id in orders :: orders[id].createdAt
  }

  function UpdatedAt(orders: map<Id, Order>): (key: map<Id, nat>)
    ensures key.Keys == orders.Keys
  {
    map id | id in orders :: orders[id].updatedAt
  }

  /** `getAllOrders`: the ids of the orders in the caller's scope, each
      once, newest `createdAt` first. */
  method GetAllOrders(orders: map<Id, Order>, caller: Principal) returns (r: seq<Id>)
    ensures forall id :: id in r <==> id in orders && InScope(caller, orders[id])
    ensures caller.IsMaster() ==> forall id :: id in orders ==> id in r
    ensures caller.user.role == Admin ==> forall id :: id in r ==> orders[id].assignedTo == Some(caller.id)
    ensures Distinct(r)
    ensures AllKeyed(r, CreatedAt(orders)) && SortedDesc(r, CreatedAt(orders))
  {
    var ids := set id | id in orders && InScope(caller, orders[id]);
    r := SortByKeyDesc(ids, CreatedAt(orders));
  }

  /** `getOrderHistory`: the completed orders in the caller's scope, each
      once, most recently updated first. */
  method GetOrderHistory(orders: map<Id, Order>, caller: Principal) returns (r: seq<Id>)
    ensures forall id :: id in r <==> id in orders && orders[id].status == Some(Completed) && InScope(caller, orders[id])
    ensures caller.IsMaster() ==> forall id :: id in orders && orders[id].status == Some(Completed) ==> id in r
    ensures Distinct(r)
    ensures AllKeyed(r, UpdatedAt(orders)) && SortedDesc(r, UpdatedAt(orders))
  {
    var ids := set id | id in orders && orders[id].status == Some(Completed) && InScope(caller, orders[id]);
    r := SortByKeyDesc(ids, UpdatedAt(orders));
  }

  // ---------------------------------------------------------------------
  // Assignment and status changes
  // ---------------------------------------------------------------------

  /** `assignOrder`: 404 for a missing order, 400 for one already assigned
      (whoever asks); otherwise the caller becomes the assignee and the
      status becomes accepted, then the order is saved. */
  function AssignOrder(orders: map<Id, Order>, caller: Principal, id: Id, now: nat): (r: (Result<Order>, map<Id, Order>))
    ensures id !in orders ==> r == (Err(NotFound), orders)
    ensures id in orders && orders[id].assignedTo.Some? ==> r == (Err(BadRequest), orders)
    ensures r.0.Err? ==> r.1 == orders
    ensures r.0.Ok? ==>
      && id in orders && orders[id].assignedTo.None?
      && r.1 == orders[id := r.0.value]
      && r.0.value.assignedTo == Some(caller.id)
      && r.0.value.status == Some(Accepted)
      && r.0.value.assignedAt == orders[id].assignedAt
      && r.0.value.statusHistory == orders[id].statusHistory +
           (if orders[id].status != Some(Accepted) then [HistoryEntry(Some(Accepted), Some(caller.id), None, now)] else [])
  {
    if id !in orders then (Err(NotFound), orders)
    else if orders[id].assignedTo.Some? then (Err(BadRequest), orders)
    else
      var o := orders[id];
      match SaveOrder(Some(o), o.(assignedTo := Some(caller.id), status := Some(Accepted)), now)
      case Err(f) => (Err(f), orders)
      case Ok(saved) => (Ok(saved), orders[id := saved])
  }

  /** A valid unassigned order can be claimed by any caller. */
  lemma AssignOrderSucceeds(orders: map<Id, Order>, caller: Principal, id: Id, now: nat)
    requires id in orders && OrderValid(orders[id]) && orders[id].assignedTo.None?
    ensures AssignOrder(orders, caller, id, now).0.Ok?
  {
  }

  /** Assignment is first-claim: once an order is assigned, every later
      attempt, by anyone, gets 400 and changes nothing. */
  lemma AssignIsFirstClaim(orders: map<Id, Order>, first: Principal, second: Principal, id: Id, t1: nat, t2: nat)
    requires AssignOrder(orders, first, id, t1).0.Ok?
    ensures var after := AssignOrder(orders, first, id, t1).1;
      AssignOrder(after, second, id, t2) == (Err(BadRequest), after)
  {
  }

  /** `updateOrderStatus`: 404 for a missing order; 403 unless the caller is
      master or the assignee; 400 for a status outside the enum; otherwise
      the status is assigned as requested (from any status: there is no
      transition check) and the order saved. A missing status unsets it. */
  function UpdateOrderStatus(orders: map<Id, Order>, caller: Principal, id: Id, status: Option<string>, now: nat)
    : (r: (Result<Order>, map<Id, Order>))
    ensures id !in orders ==> r == (Err(NotFound), orders)
    ensures id in orders && !caller.IsMaster() && orders[id].assignedTo != Some(caller.id) ==> r == (Err(Forbidden), orders)
    ensures (id in orders && (caller.IsMaster() || orders[id].assignedTo == Some(caller.id))
             && status.Some? && ParseStatus(status.value).None?) ==> r == (Err(BadRequest), orders)
    ensures r.0.Err? ==> r.1 == orders
    ensures r.0.Ok? ==>
      && id in orders
      && (caller.IsMaster() || orders[id].assignedTo == Some(caller.id))
      && r.1 == orders[id := r.0.value]
      && r.0.value.status == (if status.Some? then ParseStatus(status.value) else None)
      && r.0.value.assignedTo == orders[id].assignedTo
      && r.0.value.statusHistory == orders[id].statusHistory +
           (if orders[id].status != r.0.value.status then [HookEntry(orders[id].(status := r.0.value.status), now)] else [])
  {
    if id !in orders then (Err(NotFound), orders)
    else if !caller.IsMaster() && orders[id].assignedTo != Some(caller.id) then (Err(Forbidden), orders)
    else if status.Some? && ParseStatus(status.value).None? then (Err(BadRequest), orders)
    else
      var o := orders[id];
      var requested := if status.Some? then ParseStatus(status.value) else None;
      match SaveOrder(Some(o), o.(status := requested), now)
      case Err(f) => (Err(f), orders)
      case Ok(saved) => (Ok(saved), orders[id := saved])
  }

  /** The assignee or master may move a valid order from whatever status it
      has to any status, backwards included. */
  lemma NoTransitionCheck(orders: map<Id, Order>, caller: Principal, id: Id, target: OrderStatus, now: nat)
    requires id in orders && OrderValid(orders[id])
    requires caller.IsMaster() || orders[id].assignedTo == Some(caller.id)
    ensures UpdateOrderStatus(orders, caller, id, Some(StatusName(target)), now).0.Ok?
    ensures UpdateOrderStatus(orders, caller, id, Some(StatusName(target)), now).0.value.status == Some(target)
  {
    ParseStatusName(target);
  }

  /** An order nobody has claimed can have its status changed by master
      alone. */
  lemma UnassignedOnlyByMaster(orders: map<Id, Order>, caller: Principal, id: Id, status: Option<string>, now: nat)
    requires id in orders && orders[id].assignedTo.None? && !caller.IsMaster()
    ensures UpdateOrderStatus(orders, caller, id, status, now) == (Err(Forbidden), orders)
  {
  }

  /** When master changes the status of an unassigned order, the hook logs
      the change with no `updatedBy`. That save passes, but the stored order
      now fails validation: no one can claim it, and no later status change
      can be saved. */
  lemma {:induction false} MasterChangeStrandsUnassigned(orders: map<Id, Order>, master: Principal, id: Id, target: OrderStatus,
                                                         other: Principal, later: Option<string>, t1: nat, t2: nat)
    requires id in orders && OrderValid(orders[id]) && orders[id].assignedTo.None?
    requires master.IsMaster() && orders[id].status != Some(target)
    ensures UpdateOrderStatus(orders, master, id, Some(StatusName(target)), t1).0.Ok?
    ensures var after := UpdateOrderStatus(orders, master, id, Some(StatusName(target)), t1).1;
      && AssignOrder(after, other, id, t2) == (Err(BadRequest), after)
      && UpdateOrderStatus(after, other, id, later, t2).0.Err?
  {
    ParseStatusName(target);
    var o := orders[id];
    UnassignedChangeBreaksHistory(o, o.(status := Some(target)), t1);
    var after := UpdateOrderStatus(orders, master, id, Some(StatusName(target)), t1).1;
    var stored := after[id];
    var k := |stored.statusHistory| - 1;
    assert !EntryValid(stored.statusHistory[k]);
    SaveRejectsBrokenHistory(Some(stored), stored.(assignedTo := Some(other.id), status := Some(Accepted)), t2, k);
    if later.Some? && ParseStatus(later.value).Some? {
      SaveRejectsBrokenHistory(Some(stored), stored.(status := ParseStatus(later.value)), t2, k);
    } else if later.None? {
      SaveRejectsBrokenHistory(Some(stored), stored.(status := None), t2, k);
    }
  }

  /** A request without `status` unsets the field, and the hook logs an
      entry without a status; the save itself passes. */
  lemma MissingStatusUnsets(orders: map<Id, Order>, caller: Principal, id: Id, now: nat)
    requires id in orders && OrderValid(orders[id]) && orders[id].status.Some?
    requires caller.IsMaster() || orders[id].assignedTo == Some(caller.id)
    ensures UpdateOrderStatus(orders, caller, id, None, now).0.Ok?
    ensures var saved := UpdateOrderStatus(orders, caller, id, None, now).0.value;
      saved.status.None? && !OrderValid(saved)
  {
    var o := orders[id];
    var saved := UpdateOrderStatus(orders, caller, id, None, now).0.value;
    assert saved.statusHistory == o.statusHistory + [HookEntry(o.(status := None), now)];
    assert !EntryValid(saved.statusHistory[|o.statusHistory|]);
  }
}
