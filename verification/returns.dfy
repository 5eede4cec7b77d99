/** Return requests: the return store, eligibility of a new request, and the
    processing of a request, where approval refunds the order's payment and puts
    the ordered quantities back into stock. */
module Returns {
  import opened Common
  import opened OrderModel
  import opened Store
  import OrderRepo
  import Payments
  import OrderStock
  import OrderService

  /** Orders may be returned within 14 days of an assumed delivery 7 days after
      the order was placed. */
  const DeliveryDelay: int := 7 * Day
  const ReturnWindow: int := 14 * Day

  // ---------------------------------------------------------------------------
  // The return store
  // ---------------------------------------------------------------------------

  predicate ReturnIdUsed(rows: seq<ReturnRecord>, id: ReturnId)
  {
    exists i :: 0 <= i < |rows| && rows[i].id == id
  }

  /** GetByID: the row with that id; a missing row is the scan's "no rows" error. */
  function GetByID(db: Db, id: ReturnId): (r: Result<ReturnRecord>)
    ensures r.Err? <==> !ReturnIdUsed(db.returnRows, id)
    ensures r.Err? ==> r.error == NoRows
    ensures r.Ok? ==> r.value in db.returnRows && r.value.id == id
  {
    FirstWithId(db.returnRows, id)
  }

  function FirstWithId(rows: seq<ReturnRecord>, id: ReturnId): (r: Result<ReturnRecord>)
    ensures r.Err? <==> !ReturnIdUsed(rows, id)
    ensures r.Err? ==> r.error == NoRows
    ensures r.Ok? ==> r.value in rows && r.value.id == id
  {
    if |rows| == 0 then Err(NoRows)
    else if rows[0].id == id then Ok(rows[0])
    else
      var rest := FirstWithId(rows[1..], id);
      assert ReturnIdUsed(rows, id) <==> ReturnIdUsed(rows[1..], id) by {
        if ReturnIdUsed(rows, id) {
          var i :| 0 <= i < |rows| && rows[i].id == id;
          assert rows[1..][i - 1].id == id;
        }
        if ReturnIdUsed(rows[1..], id) {
          var i :| 0 <= i < |rows[1..]| && rows[1..][i].id == id;
          assert rows[i + 1].id == id;
        }
      }
      rest
  }

  /** A request that still blocks a new one for its order: requested or approved. */
  predicate Open(x: ReturnRecord)
  {
    x.status == Requested || x.status == Approved
  }

  predicate HasOpenReturn(rows: seq<ReturnRecord>, order: OrderId)
  {
    exists i :: 0 <= i < |rows| && rows[i].order == order && Open(rows[i])
  }

  /** The scan over the order's returns that looks for an open one. */
  function AnyOpen(rows: seq<ReturnRecord>, order: OrderId): (b: bool)
    ensures b <==> HasOpenReturn(rows, order)
  {
    if |rows| == 0 then false
    else
      var rest := AnyOpen(rows[1..], order);
      assert HasOpenReturn(rows, order) <==> (rows[0].order == order && Open(rows[0])) || HasOpenReturn(rows[1..], order) by {
        if HasOpenReturn(rows[1..], order) {
          var i :| 0 <= i < |rows[1..]| && rows[1..][i].order == order && Open(rows[1..][i]);
          assert rows[i + 1] == rows[1..][i];
        }
        if HasOpenReturn(rows, order) {
          var i :| 0 <= i < |rows| && rows[i].order == order && Open(rows[i]);
          if i > 0 { assert rows[1..][i - 1] == rows[i]; }
        }
      }
      (rows[0].order == order && Open(rows[0])) || rest
  }

  /** Create: inserts the row; a used id is a primary-key violation. */
  function Create(db: Db, x: ReturnRecord): (r: Reply<()>)
    ensures r.result.Ok? <==> !ReturnIdUsed(db.returnRows, x.id)
    ensures r.result.Err? ==> r.result.error == DuplicateKey && r.db == db
    ensures r.result.Ok? ==> r.db == db.(returnRows := db.returnRows + [x])
  {
    if ReturnIdUsed(db.returnRows, x.id) then Reply(Err(DuplicateKey), db)
    else Reply(Ok(()), db.(returnRows := db.returnRows + [x]))
  }

  /** UpdateStatus: overwrites status and refund of the row with that id. The
      affected-row count is not checked, so an absent id succeeds with no change. */
  function UpdateStatus(db: Db, id: ReturnId, status: ReturnStatus, refund: int): (r: Reply<()>)
    ensures r.result.Ok?
    ensures r.db == db.(returnRows := r.db.returnRows) && |r.db.returnRows| == |db.returnRows|
    ensures forall i :: 0 <= i < |db.returnRows| ==>
      r.db.returnRows[i] == if db.returnRows[i].id == id then db.returnRows[i].(status := status, refund := refund)
                            else db.returnRows[i]
  {
    var rows := db.returnRows;
    Reply(Ok(()), db.(returnRows := seq(|rows|, i requires 0 <= i < |rows| =>
      if rows[i].id == id then rows[i].(status := status, refund := refund) else rows[i])))
  }

  /** After a status write the row with that id reads back with the new status
      and refund. */
  lemma UpdateStatusThenGet(db: Db, id: ReturnId, status: ReturnStatus, refund: int)
    requires GetByID(db, id).Ok?
    ensures GetByID(UpdateStatus(db, id, status, refund).db, id) == Ok(GetByID(db, id).value.(status := status, refund := refund))
  {
    var rows := db.returnRows;
    var rows' := UpdateStatus(db, id, status, refund).db.returnRows;
    UpdateFirstWithId(rows, rows', id, status, refund);
  }

  lemma {:induction false} UpdateFirstWithId(rows: seq<ReturnRecord>, rows': seq<ReturnRecord>, id: ReturnId,
                                             status: ReturnStatus, refund: int)
    requires FirstWithId(rows, id).Ok?
    requires |rows'| == |rows|
    requires forall i :: 0 <= i < |rows| ==>
      rows'[i] == if rows[i].id == id then rows[i].(status := status, refund := refund) else rows[i]
    ensures FirstWithId(rows', id) == Ok(FirstWithId(rows, id).value.(status := status, refund := refund))
  {
    if rows[0].id != id {
      assert rows'[0] == rows[0];
      UpdateFirstWithId(rows[1..], rows'[1..], id, status, refund);
    }
  }

  // ---------------------------------------------------------------------------
  // The service
  // ---------------------------------------------------------------------------

  /** The return window has passed when more than 14 days have elapsed since the
      assumed delivery. */
  predicate Expired(createdAt: int, now: int)
  {
    now - (createdAt + DeliveryDelay) > ReturnWindow
  }

  /** CreateReturn: refused for an absent order, another user's order, an order
      neither delivered nor completed, an expired return window, and an order that
      already has an open return. Otherwise a requested return refunding the
      order's total is written and the order is set to return_requested directly,
      without consulting the transition table. */
  function CreateReturn(db: Db, order: OrderId, reason: string, user: UserId, now: int, id: ReturnId): (r: Reply<ReturnRecord>)
    ensures order !in db.orders ==> r == Reply(Err(OrderNotFound), db)
    ensures order in db.orders && db.orders[order].user != user ==> r == Reply(Err(NotOrderOwner), db)
    ensures (order in db.orders && db.orders[order].user == user
             && db.orders[order].status != Delivered && db.orders[order].status != Completed) ==>
      r == Reply(Err(NotReturnable), db)
    ensures (order in db.orders && db.orders[order].user == user && db.orders[order].status in {Delivered, Completed}
             && Expired(db.orders[order].createdAt, now)) ==>
      r == Reply(Err(ReturnPeriodExpired), db)
    ensures (order in db.orders && db.orders[order].user == user && db.orders[order].status in {Delivered, Completed}
             && !Expired(db.orders[order].createdAt, now) && HasOpenReturn(db.returnRows, order)) ==>
      r == Reply(Err(ReturnAlreadyRequested), db)
    ensures r.result.Err? ==> r.db == db
    ensures r.result.Ok? <==>
      && order in db.orders && db.orders[order].user == user && db.orders[order].status in {Delivered, Completed}
      && !Expired(db.orders[order].createdAt, now) && !HasOpenReturn(db.returnRows, order)
      && !ReturnIdUsed(db.returnRows, id)
    ensures r.result.Ok? ==>
      && r.result.value == ReturnRecord(id, order, user, reason, Requested, db.orders[order].total)
      && r.db == db.(returnRows := db.returnRows + [r.result.value],
                     orders := db.orders[order := db.orders[order].(status := ReturnRequested)])
  {
    match OrderRepo.GetByID(db, order)
    case None => Reply(Err(OrderNotFound), db)
    case Some(o) =>
      if o.user != user then Reply(Err(NotOrderOwner), db)
      else if o.status != Delivered && o.status != Completed then Reply(Err(NotReturnable), db)
      else if Expired(o.createdAt, now) then Reply(Err(ReturnPeriodExpired), db)
      else if AnyOpen(db.returnRows, order) then Reply(Err(ReturnAlreadyRequested), db)
      else
        var x := ReturnRecord(id, order, user, reason, Requested, o.total);
        var c := Create(db, x);
        if c.result.Err? then Reply(Err(c.result.error), c.db)
        else
          var u := OrderRepo.UpdateStatus(c.db, order, ReturnRequested);
          match u.result
          case Err(e) => Reply(Err(e), u.db)
          case Ok(_) => Reply(Ok(x), u.db)
  }

  /** Only requested and approved returns block a new one: an order whose earlier
      returns were all rejected or completed stays eligible. */
  lemma ClosedReturnsDoNotBlock(db: Db, order: OrderId, reason: string, user: UserId, now: int, id: ReturnId)
    requires order in db.orders && db.orders[order].user == user && db.orders[order].status in {Delivered, Completed}
    requires !Expired(db.orders[order].createdAt, now) && !ReturnIdUsed(db.returnRows, id)
    requires forall i :: 0 <= i < |db.returnRows| && db.returnRows[i].order == order ==>
      db.returnRows[i].status == Rejected || db.returnRows[i].status == ReturnCompleted
    ensures CreateReturn(db, order, reason, user, now, id).result.Ok?
  {
  }

  /** The return request moves the order to a status the transition table never
      allows as a target, and after it a second request for the same order is
      refused as not returnable before the open-return check is reached. */
  lemma CreateReturnOnce(db: Db, order: OrderId, reason: string, user: UserId, now: int, id: ReturnId,
                         reason2: string, now2: int, id2: ReturnId)
    requires CreateReturn(db, order, reason, user, now, id).result.Ok?
    ensures forall s :: !OrderService.IsValidTransition(s, ReturnRequested)
    ensures var d := CreateReturn(db, order, reason, user, now, id).db;
      CreateReturn(d, order, reason2, user, now2, id2) == Reply(Err(NotReturnable), d)
  {
  }

  /** The refund an approval pays: the requested amount, or the order's total when
      the request leaves it at 0; reading the total of an absent order is the
      source's nil dereference. */
  function ApprovedRefund(order: Option<Order>, requested: int): (r: Result<int>)
    ensures requested != 0 ==> r == Ok(requested)
    ensures requested == 0 && order.Some? ==> r == Ok(order.value.total)
    ensures r.Err? <==> requested == 0 && order.None?
    ensures r.Err? ==> r.error == NilOrder
  {
    if requested != 0 then Ok(requested)
    else match order
      case None => Err(NilOrder)
      case Some(o) => Ok(o.total)
  }

  /** The approval branch: refund the order's latest payment (a missing payment
      aborts with the lookup error), then restore each listed item's quantity to
      stock one write at a time. Yields the refund to record. */
  function Approve(db: Db, rec: ReturnRecord, requested: int): (r: Reply<int>)
    ensures r.db.returnRows == db.returnRows && r.db.orders.Keys == db.orders.Keys
  {
    var order := OrderRepo.GetByID(db, rec.order);
    match ApprovedRefund(order, requested)
    case Err(e) => Reply(Err(e), db)
    case Ok(amount) =>
      match Payments.GetByOrderID(db, rec.order)
      case Err(e) => Reply(Err(e), db)
      case Ok(p) =>
        var pr := Payments.ProcessRefund(db, p.id, amount);
        if pr.result.Err? then Reply(Err(pr.result.error), pr.db)
        else match order
          case None => Reply(Err(NilOrder), pr.db)
          case Some(o) =>
            var rs := OrderStock.RestoreAll(pr.db, o.items);
            if rs.result.Err? then Reply(Err(rs.result.error), rs.db)
            else Reply(Ok(amount), rs.db)
  }

  /** ProcessReturn: a missing return is the lookup error. Approval runs the
      refund and restoration above and records the refund it paid; any other
      status only overwrites the row's status, keeping its stored refund. The
      updated row is returned. */
  function ProcessReturn(db: Db, id: ReturnId, status: ReturnStatus, requested: int): (r: Reply<ReturnRecord>)
    ensures GetByID(db, id).Err? ==> r == Reply(Err(NoRows), db)
    ensures status != Approved && GetByID(db, id).Ok? ==>
      && r.result == Ok(GetByID(db, id).value.(status := status))
      && r.db == UpdateStatus(db, id, status, GetByID(db, id).value.refund).db
    ensures status == Approved && GetByID(db, id).Ok? ==>
      var a := Approve(db, GetByID(db, id).value, requested);
      && (r.result.Ok? <==> a.result.Ok?)
      && (a.result.Err? ==> r == Reply(Err(a.result.error), a.db))
      && (a.result.Ok? ==>
            && r.result.value == GetByID(db, id).value.(status := Approved, refund := a.result.value)
            && r.db == UpdateStatus(a.db, id, Approved, a.result.value).db)
  {
    match GetByID(db, id)
    case Err(e) => Reply(Err(e), db)
    case Ok(rec) =>
      if status == Approved then
        var a := Approve(db, rec, requested);
        if a.result.Err? then Reply(Err(a.result.error), a.db)
        else
          var u := UpdateStatus(a.db, id, status, a.result.value);
          UpdateStatusThenGet(a.db, id, status, a.result.value);
          Reply(GetByID(u.db, id), u.db)
      else
        var u := UpdateStatus(db, id, status, rec.refund);
        UpdateStatusThenGet(db, id, status, rec.refund);
        Reply(GetByID(u.db, id), u.db)
  }

  /** A successful approval: the refund is the requested amount or, for 0, the
      order's total; the order's latest payment was completed and covered it and is
      now refunded, the order is refunded, and each listed item's quantity is back
      in stock. */
  lemma ApproveSucceeds(db: Db, rec: ReturnRecord, requested: int)
    requires Approve(db, rec, requested).result.Ok?
    ensures rec.order in db.orders && Payments.GetByOrderID(db, rec.order).Ok?
    ensures var a := Approve(db, rec, requested);
      var p := Payments.GetByOrderID(db, rec.order).value;
      && a.result.value == (if requested == 0 then db.orders[rec.order].total else requested)
      && Payments.GetByID(db, p.id).Ok?
      && Payments.GetByID(db, p.id).value.status == PaymentCompleted
      && a.result.value <= Payments.GetByID(db, p.id).value.amount
      && a.db.payments == Payments.UpdateStatusWithRefund(db, p.id, PaymentRefunded, a.result.value).db.payments
      && a.db.orders[Payments.GetByID(db, p.id).value.order].status == Refunded
      && OrderStock.Moved(db.products, a.db.products, OrderRepo.VisibleItems(db.orders[rec.order].items, db.products), 1)
  {
    var order := OrderRepo.GetByID(db, rec.order);
    var amount := ApprovedRefund(order, requested).value;
    var p := Payments.GetByOrderID(db, rec.order).value;
    PaymentOfOrder(db, rec.order);
    var pr := Payments.ProcessRefund(db, p.id, amount);
    OrderStock.RestoreAllMoves(pr.db, order.value.items);
  }

  /** The latest payment of an order is found by its id and belongs to the order. */
  lemma PaymentOfOrder(db: Db, order: OrderId)
    requires Payments.GetByOrderID(db, order).Ok?
    ensures var p := Payments.GetByOrderID(db, order).value;
      p.order == order && Payments.PaymentIdUsed(db.payments, p.id)
  {
    var p := Payments.GetByOrderID(db, order).value;
    var i :| Payments.LatestFor(db.payments, order, i) && db.payments[i] == p;
  }

  /** Approving needs a payment: an order without one aborts with the lookup
      error, and nothing is written. */
  lemma ApproveWithoutPaymentFails(db: Db, id: ReturnId, requested: int)
    requires GetByID(db, id).Ok?
    requires GetByID(db, id).value.order in db.orders
    requires !Payments.HasPaymentFor(db.payments, GetByID(db, id).value.order)
    ensures ProcessReturn(db, id, Approved, requested) == Reply(Err(NoRows), db)
  {
  }

  /** A return cannot be approved twice: the second approval finds the order's
      payment already refunded. */
  lemma ApproveTwiceFails(db: Db, id: ReturnId, a: int, b: int)
    requires ProcessReturn(db, id, Approved, a).result.Ok?
    ensures var d := ProcessReturn(db, id, Approved, a).db;
      ProcessReturn(d, id, Approved, b).result == Err(RefundNotCompleted)
  {
    var rec := GetByID(db, id).value;
    var a1 := Approve(db, rec, a);
    ApproveSucceeds(db, rec, a);
    var p := Payments.GetByOrderID(db, rec.order).value;
    var d := ProcessReturn(db, id, Approved, a).db;
    assert d.payments == a1.db.payments && d.orders == a1.db.orders;
    Payments.LatestAfterStatusWrite(db, p.id, PaymentRefunded, a1.result.value, rec.order);
    assert Payments.GetByOrderID(d, rec.order) == Ok(p.(status := PaymentRefunded));
    PaymentOfOrder(db, rec.order);
    Payments.StatusWriteIsRead(db, p.id, PaymentRefunded, a1.result.value);
    assert Payments.GetByID(d, p.id).value.status == PaymentRefunded;
    var rec2 := GetByID(d, id).value;
    assert rec2.order == rec.order;
    assert Approve(d, rec2, b).result == Err(RefundNotCompleted);
  }
}
