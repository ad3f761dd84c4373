/** The order record (models/Order.js): its status enums, the schema's
    validators as one predicate, the pre-save hook that logs status changes,
    the timestamps, and the `updateStatus` and `updatePaymentStatus`
    instance methods.

    A save is modelled the way the document library runs it: the validators
    see the document as the caller left it, and only then do the pre-save
    hook and the timestamps change it. An entry the hook appends is therefore
    not validated by the save that appends it, only by the next one. */
module OrderModel {
  import opened Common
  import opened OrderValidators

  datatype OrderStatus = Pending | Processing | Accepted | Completed | Cancelled

  datatype PaymentStatus = PaymentPending | Paid | Failed

  /** The enum string under which a status is stored and requested. */
  function StatusName(s: OrderStatus): string {
    match s
    case Pending => "pending"
    case Processing => "processing"
    case Accepted => "accepted"
    case Completed => "completed"
    case Cancelled => "cancelled"
  }

  /** The schema's enum check on a requested status string. */
  function ParseStatus(t: string): (r: Option<OrderStatus>)
    ensures r.Some? ==> StatusName(r.value) == t
    ensures r.None? <==> t !in ["pending", "processing", "accepted", "completed", "cancelled"]
  {
    if t == "pending" then Some(Pending)
    else if t == "processing" then Some(Processing)
    else if t == "accepted" then Some(Accepted)
    else if t == "completed" then Some(Completed)
    else if t == "cancelled" then Some(Cancelled)
    else None
  }

  /** Every status is accepted under its own name. */
  lemma ParseStatusName(s: OrderStatus)
    ensures ParseStatus(StatusName(s)) == Some(s)
  {
  }

  /** The note the hook writes for a cancellation. */
  const CancelNote: string := "Order cancelled"

  /** One element of `statusHistory`. `status` and `updatedBy` are required
      by the sub-schema but either can be missing from what is pushed. */
  datatype HistoryEntry = HistoryEntry(status: Option<OrderStatus>, updatedBy: Option<Id>, note: Option<string>, updatedAt: nat)

  /** An order document. Strings are held after the `trim` (and, for the
      e-mail, `lowercase`) setters, a missing required string as "".
      `status` is missing only after it was assigned `undefined`. */
  datatype Order = Order(
    firstName: string,
    lastName: string,
    email: string,
    phoneNumber: string,
    laptop: Option<Id>,
    status: Option<OrderStatus>,
    assignedTo: Option<Id>,
    assignedAt: Option<nat>,
    statusHistory: seq<HistoryEntry>,
    totalPrice: Option<real>,
    shippingAddress: string,
    paymentStatus: PaymentStatus,
    createdAt: nat,
    updatedAt: nat)

  predicate EntryValid(e: HistoryEntry) {
    e.status.Some? && e.updatedBy.Some?
  }

  /** The schema's validators for one document: the required fields, the
      e-mail and phone patterns, the history sub-schema and the price
      bound. The enums hold by construction of the types. */
  predicate OrderValid(o: Order) {
    && |o.firstName| > 0
    && |o.lastName| > 0
    && |o.email| > 0 && EmailShape(o.email)
    && |o.phoneNumber| > 0 && PhoneValid(o.phoneNumber)
    && o.laptop.Some?
    && (forall k :: 0 <= k < |o.statusHistory| ==> EntryValid(o.statusHistory[k]))
    && o.totalPrice.Some? && o.totalPrice.value >= 0.0
    && |o.shippingAddress| > 0
  }

  /** `Order.create({ firstName, lastName, email, phoneNumber, laptop })`
      before its save: the setters applied and every other field at its
      default. */
  function Draft(firstName: string, lastName: string, email: string, phoneNumber: string, laptop: Option<Id>): (o: Order)
    ensures o.status == Some(Pending) && o.paymentStatus == PaymentPending
    ensures o.assignedTo.None? && o.assignedAt.None? && o.statusHistory == []
    ensures o.firstName == Trim(firstName) && o.lastName == Trim(lastName)
    ensures o.email == ToLower(Trim(email)) && o.phoneNumber == Trim(phoneNumber)
    ensures o.laptop == laptop
  {
    Order(Trim(firstName), Trim(lastName), ToLower(Trim(email)), Trim(phoneNumber), laptop,
          Some(Pending), None, None, [], None, "", PaymentPending, 0, 0)
  }

  /** The draft never carries `totalPrice` or `shippingAddress`, both
      required, so no draft passes validation. */
  lemma DraftNeverValid(firstName: string, lastName: string, email: string, phoneNumber: string, laptop: Option<Id>)
    ensures !OrderValid(Draft(firstName, lastName, email, phoneNumber, laptop))
  {
  }

  // ---------------------------------------------------------------------
  // Saving: validation, the pre-save hook, timestamps
  // ---------------------------------------------------------------------

  /** `isModified('status')`: the stored status differs from the assigned
      one (assigning the same value marks nothing). A new document carries
      its default status, which does not count as a modification. */
  predicate StatusModified(prior: Option<Order>, doc: Order) {
    prior.Some? && prior.value.status != doc.status
  }

  /** The entry the hook pushes. */
  function HookEntry(doc: Order, now: nat): (e: HistoryEntry)
    ensures e.status == doc.status && e.updatedBy == doc.assignedTo && e.updatedAt == now
    ensures e.note.Some? <==> doc.status == Some(Cancelled)
    ensures e.note.Some? ==> e.note.value == "Order cancelled"
  {
    HistoryEntry(doc.status, doc.assignedTo, if doc.status == Some(Cancelled) then Some(CancelNote) else None, now)
  }

  /** The pre-save hook: one entry appended when the status was modified. */
  function PreSave(prior: Option<Order>, doc: Order, now: nat): (r: Order)
    ensures r.(statusHistory := doc.statusHistory) == doc
    ensures StatusModified(prior, doc) ==> r.statusHistory == doc.statusHistory + [HookEntry(doc, now)]
    ensures !StatusModified(prior, doc) ==> r == doc
  {
    if StatusModified(prior, doc) then doc.(statusHistory := doc.statusHistory + [HookEntry(doc, now)])
    else doc
  }

  /** The `timestamps` option: `createdAt` on insertion, `updatedAt`
      whenever something changed. */
  function Stamp(prior: Option<Order>, doc: Order, now: nat): (r: Order)
    ensures r.(createdAt := doc.createdAt, updatedAt := doc.updatedAt) == doc
    ensures prior.None? ==> r.createdAt == now && r.updatedAt == now
    ensures prior.Some? ==> r.createdAt == doc.createdAt
    ensures prior.Some? && doc != prior.value ==> r.updatedAt == now
    ensures prior == Some(doc) ==> r == doc
  {
    if prior.None? then doc.(createdAt := now, updatedAt := now)
    else if doc != prior.value then doc.(updatedAt := now)
    else doc
  }

  /** `order.save()` of `doc`, whose stored version is `prior` (`None` for
      an insertion): 400 when a validator fails, otherwise the hooked and
      stamped document. */
  function SaveOrder(prior: Option<Order>, doc: Order, now: nat): (r: Result<Order>)
    ensures r.Ok? <==> OrderValid(doc)
    ensures r.Err? ==> r.failure == BadRequest
    ensures r.Ok? ==> r.value.statusHistory == doc.statusHistory + (if StatusModified(prior, doc) then [HookEntry(doc, now)] else [])
    ensures r.Ok? ==> r.value.(statusHistory := doc.statusHistory, createdAt := doc.createdAt, updatedAt := doc.updatedAt) == doc
  {
    if !OrderValid(doc) then Err(BadRequest)
    else Ok(Stamp(prior, PreSave(prior, doc, now), now))
  }

  /** The hook appends exactly one entry, carrying the new status and the
      current assignee, exactly when the status changed; otherwise the
      history is left as it was. */
  lemma {:induction false} SaveLogsStatusChange(prior: Order, doc: Order, now: nat)
    requires OrderValid(doc)
    ensures var h := SaveOrder(Some(prior), doc, now).value.statusHistory;
      && (prior.status != doc.status <==> |h| == |doc.statusHistory| + 1)
      && (prior.status == doc.status ==> h == doc.statusHistory)
      && (prior.status != doc.status ==>
            h[..|doc.statusHistory|] == doc.statusHistory
            && h[|h| - 1].status == doc.status
            && h[|h| - 1].updatedBy == doc.assignedTo
            && (h[|h| - 1].note == Some("Order cancelled") <==> doc.status == Some(Cancelled))
            && (doc.status != Some(Cancelled) ==> h[|h| - 1].note.None?))
  {
    var h := SaveOrder(Some(prior), doc, now).value.statusHistory;
    if prior.status != doc.status {
      assert h == doc.statusHistory + [HookEntry(doc, now)];
      assert h[..|doc.statusHistory|] == doc.statusHistory;
    }
  }

  /** A document that already holds an entry without `updatedBy` or
      without `status` can never be saved again. */
  lemma SaveRejectsBrokenHistory(prior: Option<Order>, doc: Order, now: nat, k: nat)
    requires k < |doc.statusHistory| && !EntryValid(doc.statusHistory[k])
    ensures SaveOrder(prior, doc, now) == Err(BadRequest)
  {
  }

  /** A status change saved while no one is assigned stores an entry
      without `updatedBy`: the save itself passes, the stored document no
      longer does. */
  lemma {:induction false} UnassignedChangeBreaksHistory(prior: Order, doc: Order, now: nat)
    requires OrderValid(doc) && doc.assignedTo.None? && prior.status != doc.status
    ensures SaveOrder(Some(prior), doc, now).Ok?
    ensures !OrderValid(SaveOrder(Some(prior), doc, now).value)
  {
    var saved := SaveOrder(Some(prior), doc, now).value;
    assert saved.statusHistory[|doc.statusHistory|] == HookEntry(doc, now);
    assert !EntryValid(saved.statusHistory[|doc.statusHistory|]);
  }

  /** Saving an unchanged valid document changes nothing. */
  lemma ResaveIsIdentity(o: Order, now: nat)
    requires OrderValid(o)
    ensures SaveOrder(Some(o), o, now) == Ok(o)
  {
  }

  // ---------------------------------------------------------------------
  // Instance methods
  // ---------------------------------------------------------------------

  /** The `trim` setter of an optional note. */
  function TrimNote(note: Option<string>): (r: Option<string>)
    ensures r.Some? <==> note.Some?
    ensures r.Some? ==> r.value == Trim(note.value)
  {
    if note.Some? then Some(Trim(note.value)) else None
  }

  /** `updateStatus(newStatus, updatedBy, note)`: set the status, push an
      entry of its own, take over the assignment unless the new status is
      pending, then save. */
  function UpdateStatus(o: Order, newStatus: OrderStatus, updatedBy: Option<Id>, note: Option<string>, now: nat): (r: Result<Order>)
    ensures r.Err? ==> r.failure == BadRequest
    ensures r.Ok? ==> r.value.status == Some(newStatus)
    ensures r.Ok? ==> |r.value.statusHistory| == |o.statusHistory| + (if o.status != Some(newStatus) then 2 else 1)
    ensures r.Ok? ==> r.value.statusHistory[..|o.statusHistory|] == o.statusHistory
    ensures r.Ok? ==> r.value.statusHistory[|o.statusHistory|] == HistoryEntry(Some(newStatus), updatedBy, TrimNote(note), now)
    ensures r.Ok? && newStatus != Pending ==> r.value.assignedTo == updatedBy && r.value.assignedAt == Some(now)
    ensures r.Ok? && newStatus == Pending ==> r.value.assignedTo == o.assignedTo && r.value.assignedAt == o.assignedAt
    ensures r.Ok? ==>
      r.value.(status := o.status, statusHistory := o.statusHistory, assignedTo := o.assignedTo,
               assignedAt := o.assignedAt, updatedAt := o.updatedAt) == o
  {
    var pushed := o.statusHistory + [HistoryEntry(Some(newStatus), updatedBy, TrimNote(note), now)];
    var doc :=
      if newStatus != Pending then
        o.(status := Some(newStatus), statusHistory := pushed, assignedTo := updatedBy, assignedAt := Some(now))
      else
        o.(status := Some(newStatus), statusHistory := pushed);
    SaveOrder(Some(o), doc, now)
  }

  /** On a valid order `updateStatus` succeeds exactly when it is told who
      made the change. */
  lemma UpdateStatusSucceedsIff(o: Order, newStatus: OrderStatus, updatedBy: Option<Id>, note: Option<string>, now: nat)
    requires OrderValid(o)
    ensures UpdateStatus(o, newStatus, updatedBy, note, now).Ok? <==> updatedBy.Some?
  {
    var e := HistoryEntry(Some(newStatus), updatedBy, TrimNote(note), now);
    var pushed := o.statusHistory + [e];
    var doc :=
      if newStatus != Pending then
        o.(status := Some(newStatus), statusHistory := pushed, assignedTo := updatedBy, assignedAt := Some(now))
      else
        o.(status := Some(newStatus), statusHistory := pushed);
    ValidAfterPush(o, doc, e);
  }

  /** Validity after one more history entry: the old document's, and the
      new entry's own. */
  lemma ValidAfterPush(o: Order, doc: Order, e: HistoryEntry)
    requires doc.statusHistory == o.statusHistory + [e]
    requires doc.(status := o.status, statusHistory := o.statusHistory, assignedTo := o.assignedTo, assignedAt := o.assignedAt) == o
    ensures OrderValid(doc) <==> OrderValid(o) && EntryValid(e)
  {
    assert doc.statusHistory[|o.statusHistory|] == e;
    assert forall k :: 0 <= k < |o.statusHistory| ==> doc.statusHistory[k] == o.statusHistory[k];
  }

  /** A real change is logged twice, once by `updateStatus` and once by the
      hook; away from pending both entries name the same user. */
  lemma {:induction false} UpdateStatusLogsTwice(o: Order, newStatus: OrderStatus, updatedBy: Option<Id>, note: Option<string>, now: nat)
    requires o.status != Some(newStatus)
    requires UpdateStatus(o, newStatus, updatedBy, note, now).Ok?
    ensures var h := UpdateStatus(o, newStatus, updatedBy, note, now).value.statusHistory;
      && |h| == |o.statusHistory| + 2
      && h[|h| - 2].status == Some(newStatus) && h[|h| - 1].status == Some(newStatus)
      && (newStatus != Pending ==> h[|h| - 2].updatedBy == updatedBy == h[|h| - 1].updatedBy)
      && (newStatus == Pending ==> h[|h| - 1].updatedBy == o.assignedTo)
  {
    var r := UpdateStatus(o, newStatus, updatedBy, note, now).value;
    var h := r.statusHistory;
    assert h[|h| - 1] == HookEntry(r.(statusHistory := h[..|h| - 1]), now);
  }

  /** `updatePaymentStatus(newStatus)`: set the payment status and save. */
  function UpdatePaymentStatus(o: Order, newStatus: PaymentStatus, now: nat): (r: Result<Order>)
    ensures r.Ok? <==> OrderValid(o)
    ensures r.Err? ==> r.failure == BadRequest
    ensures r.Ok? ==> r.value.paymentStatus == newStatus
    ensures r.Ok? ==> r.value.statusHistory == o.statusHistory
    ensures r.Ok? ==> r.value.(paymentStatus := o.paymentStatus, updatedAt := o.updatedAt) == o
  {
    SaveOrder(Some(o), o.(paymentStatus := newStatus), now)
  }

  /** Payment updates log nothing and the last one wins. */
  lemma PaymentUpdatesCompose(o: Order, p: PaymentStatus, q: PaymentStatus, t1: nat, t2: nat)
    requires OrderValid(o)
    ensures UpdatePaymentStatus(o, p, t1).Ok?
    ensures UpdatePaymentStatus(UpdatePaymentStatus(o, p, t1).value, q, t2).Ok?
    ensures UpdatePaymentStatus(UpdatePaymentStatus(o, p, t1).value, q, t2).value.paymentStatus == q
    ensures UpdatePaymentStatus(UpdatePaymentStatus(o, p, t1).value, q, t2).value.statusHistory == o.statusHistory
  {
  }
}
