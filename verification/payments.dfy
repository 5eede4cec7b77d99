/** Payments: the repository over the payment rows (kept in creation order) and
    the service with its duplicate-payment and refund guards. */
module Payments {
  import opened Common
  import opened OrderModel
  import opened Store
  import OrderRepo

  predicate PaymentIdUsed(ps: seq<Payment>, id: PaymentId)
  {
    exists i :: 0 <= i < |ps| && ps[i].id == id
  }

  predicate HasPaymentFor(ps: seq<Payment>, order: OrderId)
  {
    exists i :: 0 <= i < |ps| && ps[i].order == order
  }

  /** GetByID: the payment with that id; a missing row is the "no rows" error,
      never an empty success. */
  function GetByID(db: Db, id: PaymentId): (r: Result<Payment>)
    ensures r.Err? <==> !PaymentIdUsed(db.payments, id)
    ensures r.Err? ==> r.error == NoRows
    ensures r.Ok? ==> r.value in db.payments && r.value.id == id
  {
    FirstWithId(db.payments, id)
  }

  function FirstWithId(ps: seq<Payment>, id: PaymentId): (r: Result<Payment>)
    ensures r.Err? <==> !PaymentIdUsed(ps, id)
    ensures r.Err? ==> r.error == NoRows
    ensures r.Ok? ==> r.value in ps && r.value.id == id
  {
    if |ps| == 0 then Err(NoRows)
    else if ps[0].id == id then Ok(ps[0])
    else
      var r := FirstWithId(ps[1..], id);
      assert r.Err? ==> !PaymentIdUsed(ps, id) by {
        if r.Err? {
          forall i | 0 <= i < |ps| ensures ps[i].id != id {
            if i > 0 { assert ps[1..][i - 1] == ps[i]; }
          }
        }
      }
      r
  }

  /** Row i is the order's payment with no later payment of the same order. */
  predicate LatestFor(ps: seq<Payment>, order: OrderId, i: int)
  {
    0 <= i < |ps| && ps[i].order == order && forall j :: i < j < |ps| ==> ps[j].order != order
  }

  /** GetByOrderID: the most recently created payment of the order; "no rows" when
      the order has none. */
  function GetByOrderID(db: Db, order: OrderId): (r: Result<Payment>)
    ensures r.Err? <==> !HasPaymentFor(db.payments, order)
    ensures r.Err? ==> r.error == NoRows
    ensures r.Ok? ==> exists i :: LatestFor(db.payments, order, i) && db.payments[i] == r.value
  {
    LastForOrder(db.payments, order)
  }

  function LastForOrder(ps: seq<Payment>, order: OrderId): (r: Result<Payment>)
    ensures r.Err? <==> !HasPaymentFor(ps, order)
    ensures r.Err? ==> r.error == NoRows
    ensures r.Ok? ==> exists i :: LatestFor(ps, order, i) && ps[i] == r.value
  {
    if |ps| == 0 then Err(NoRows)
    else
      var last := ps[|ps| - 1];
      if last.order == order then Ok(last)
      else
        var r := LastForOrder(ps[..|ps| - 1], order);
        assert forall i :: LatestFor(ps[..|ps| - 1], order, i) ==> LatestFor(ps, order, i);
        assert r.Err? ==> !HasPaymentFor(ps, order) by {
          if r.Err? {
            forall i | 0 <= i < |ps| ensures ps[i].order != order {
              if i < |ps| - 1 { assert ps[..|ps| - 1][i] == ps[i]; }
            }
          }
        }
        r
  }

  /** Create: appends the row; a used payment id is a duplicate-key error. */
  function Create(db: Db, p: Payment): (r: Reply<()>)
    ensures r.result.Ok? <==> !PaymentIdUsed(db.payments, p.id)
    ensures r.result.Err? ==> r.result.error == DuplicateKey && r.db == db
    ensures r.result.Ok? ==> r.db == db.(payments := db.payments + [p])
  {
    if PaymentIdUsed(db.payments, p.id) then Reply(Err(DuplicateKey), db)
    else Reply(Ok(()), db.(payments := db.payments + [p]))
  }

  /** The payment just created is the one its order's lookup returns. */
  lemma CreateThenGetByOrderID(db: Db, p: Payment)
    requires Create(db, p).result.Ok?
    ensures GetByOrderID(Create(db, p).db, p.order) == Ok(p)
  {
    var ps := db.payments + [p];
    assert ps[|ps| - 1] == p;
    assert ps[..|ps| - 1] == db.payments;
  }

  /** With a fresh payment id, the payment just created is the one its id finds. */
  lemma CreateThenGetByID(db: Db, p: Payment)
    requires Create(db, p).result.Ok?
    ensures GetByID(Create(db, p).db, p.id) == Ok(p)
  {
    FirstWithIdAppend(db.payments, p);
  }

  lemma {:induction false} FirstWithIdAppend(ps: seq<Payment>, p: Payment)
    requires !PaymentIdUsed(ps, p.id)
    ensures FirstWithId(ps + [p], p.id) == Ok(p)
  {
    if |ps| == 0 {
      assert (ps + [p])[0] == p;
    } else {
      assert (ps + [p])[0] == ps[0];
      assert (ps + [p])[1..] == ps[1..] + [p];
      assert !PaymentIdUsed(ps[1..], p.id) by {
        forall i | 0 <= i < |ps[1..]| ensures ps[1..][i].id != p.id {
          assert ps[1..][i] == ps[i + 1];
        }
      }
      FirstWithIdAppend(ps[1..], p);
    }
  }

  /** Rows with the given id after a status write: only the written fields change. */
  function SetPaymentRows(ps: seq<Payment>, id: PaymentId, status: PaymentStatus, txn: Option<string>): (ps': seq<Payment>)
    ensures |ps'| == |ps|
    ensures forall i :: 0 <= i < |ps| ==>
      ps'[i] == if ps[i].id != id then ps[i]
                else if txn.Some? then ps[i].(status := status, transactionId := txn.value)
                else ps[i].(status := status)
  {
    seq(|ps|, i requires 0 <= i < |ps| =>
      if ps[i].id != id then ps[i]
      else if txn.Some? then ps[i].(status := status, transactionId := txn.value)
      else ps[i].(status := status))
  }

  /** UpdateStatus: overwrites status and transaction id together; an absent id
      changes nothing and is not an error. */
  function UpdateStatus(db: Db, id: PaymentId, status: PaymentStatus, txn: string): (r: Reply<()>)
    ensures r.result.Ok?
    ensures r.db == db.(payments := SetPaymentRows(db.payments, id, status, Some(txn)))
  {
    Reply(Ok(()), db.(payments := SetPaymentRows(db.payments, id, status, Some(txn))))
  }

  /** UpdateStatusWithRefund: only the status is written; the refund amount is
      accepted and dropped. */
  function UpdateStatusWithRefund(db: Db, id: PaymentId, status: PaymentStatus, refund: int): (r: Reply<()>)
    ensures r.result.Ok?
    ensures |r.db.payments| == |db.payments| && r.db == db.(payments := r.db.payments)
    ensures forall i :: 0 <= i < |db.payments| ==>
      r.db.payments[i] == if db.payments[i].id == id then db.payments[i].(status := status) else db.payments[i]
  {
    Reply(Ok(()), db.(payments := SetPaymentRows(db.payments, id, status, None)))
  }

  /** The refund amount has no effect on what is stored. */
  lemma RefundAmountNotStored(db: Db, id: PaymentId, status: PaymentStatus, a: int, b: int)
    ensures UpdateStatusWithRefund(db, id, status, a) == UpdateStatusWithRefund(db, id, status, b)
  {
  }

  /** Rewriting rows without changing their orders keeps each order's latest row. */
  lemma LatestKept(ps: seq<Payment>, ps': seq<Payment>, order: OrderId, i: int)
    requires |ps'| == |ps|
    requires forall k :: 0 <= k < |ps| ==> ps'[k].order == ps[k].order
    requires LatestFor(ps, order, i)
    ensures LastForOrder(ps', order) == Ok(ps'[i])
  {
    assert LatestFor(ps', order, i);
    assert HasPaymentFor(ps', order);
    var j :| LatestFor(ps', order, j) && ps'[j] == LastForOrder(ps', order).value;
    assert LatestFor(ps', order, j);
    assert 0 <= j < |ps'|;
    if j < i {
      assert ps'[i].order == order;
    }
  }

  /** A status write to the order's latest payment keeps it the latest, with the
      new status. */
  lemma LatestAfterStatusWrite(db: Db, id: PaymentId, status: PaymentStatus, refund: int, order: OrderId)
    requires GetByOrderID(db, order).Ok? && GetByOrderID(db, order).value.id == id
    ensures var d := UpdateStatusWithRefund(db, id, status, refund).db;
      GetByOrderID(d, order) == Ok(GetByOrderID(db, order).value.(status := status))
  {
    var ps := db.payments;
    var ps' := UpdateStatusWithRefund(db, id, status, refund).db.payments;
    var i :| LatestFor(ps, order, i) && ps[i] == GetByOrderID(db, order).value;
    LatestKept(ps, ps', order, i);
  }

  /** After a status write every payment read by that id carries the new status. */
  lemma StatusWriteIsRead(db: Db, id: PaymentId, status: PaymentStatus, refund: int)
    requires PaymentIdUsed(db.payments, id)
    ensures var d := UpdateStatusWithRefund(db, id, status, refund).db;
      GetByID(d, id).Ok? && GetByID(d, id).value.status == status
  {
    var d := UpdateStatusWithRefund(db, id, status, refund).db;
    var k :| 0 <= k < |db.payments| && db.payments[k].id == id;
    assert d.payments[k].id == id;
    var v := GetByID(d, id).value;
    var m :| 0 <= m < |d.payments| && d.payments[m] == v;
    assert d.payments[m].id == db.payments[m].id;
  }

  /** Transaction ids are "TXN-" followed by a caller-supplied random suffix. */
  function TransactionId(suffix: string): (t: string)
    ensures |t| == 4 + |suffix| && t[..4] == "TXN-" && t[4..] == suffix
  {
    "TXN-" + suffix
  }

  /** CreatePaymentForOrder: refused for an absent order and for an order that
      already has a payment; otherwise one payment of the order's total with the
      given method and status. A completed payment moves the order to processing
      with no transition check (and the outcome of that write is ignored). */
  function CreatePaymentForOrder(db: Db, order: OrderId, paymentMethod: string, status: PaymentStatus,
                                 id: PaymentId, suffix: string): (r: Reply<Payment>)
    ensures order !in db.orders ==> r == Reply(Err(OrderNotFound), db)
    ensures order in db.orders && HasPaymentFor(db.payments, order) ==> r == Reply(Err(PaymentExists), db)
    ensures r.result.Ok? ==>
      && order in db.orders && !HasPaymentFor(db.payments, order)
      && r.result.value == Payment(id, order, db.orders[order].total, status, paymentMethod, TransactionId(suffix))
      && r.db.payments == db.payments + [r.result.value]
      && r.db.orders == (if status == PaymentCompleted then db.orders[order := db.orders[order].(status := Processing)]
                         else db.orders)
    ensures r.db.products == db.products && r.db.reservations == db.reservations && r.db.lines == db.lines
  {
    match OrderRepo.GetByID(db, order)
    case None => Reply(Err(OrderNotFound), db)
    case Some(o) =>
      if GetByOrderID(db, order).Ok? then Reply(Err(PaymentExists), db)
      else
        var p := Payment(id, order, o.total, status, paymentMethod, TransactionId(suffix));
        var c := Create(db, p);
        if c.result.Err? then Reply(Err(c.result.error), c.db)
        else if status == PaymentCompleted then
          Reply(Ok(p), OrderRepo.UpdateStatus(c.db, order, Processing).db)
        else Reply(Ok(p), c.db)
  }

  /** The duplicate guard: a second payment for the same order is refused. */
  lemma CreatePaymentForOrderOnce(db: Db, order: OrderId, m1: string, m2: string, s1: PaymentStatus, s2: PaymentStatus,
                                  id1: PaymentId, id2: PaymentId, x1: string, x2: string)
    requires CreatePaymentForOrder(db, order, m1, s1, id1, x1).result.Ok?
    ensures var d := CreatePaymentForOrder(db, order, m1, s1, id1, x1).db;
      CreatePaymentForOrder(d, order, m2, s2, id2, x2) == Reply(Err(PaymentExists), d)
  {
    var d := CreatePaymentForOrder(db, order, m1, s1, id1, x1).db;
    assert d.payments[|db.payments|].order == order;
  }

  /** CreatePayment: as above but for a customer: the order must be the caller's,
      and the payment always starts pending. */
  function CreatePayment(db: Db, order: OrderId, paymentMethod: string, user: UserId,
                         id: PaymentId, suffix: string): (r: Reply<Payment>)
    ensures order !in db.orders ==> r == Reply(Err(OrderNotFound), db)
    ensures order in db.orders && db.orders[order].user != user ==> r == Reply(Err(NotOrderOwner), db)
    ensures order in db.orders && db.orders[order].user == user && HasPaymentFor(db.payments, order) ==>
      r == Reply(Err(PaymentExists), db)
    ensures r.result.Ok? ==>
      && order in db.orders && db.orders[order].user == user && !HasPaymentFor(db.payments, order)
      && r.result.value == Payment(id, order, db.orders[order].total, PaymentPending, paymentMethod, TransactionId(suffix))
      && r.db == db.(payments := db.payments + [r.result.value])
    ensures r.result.Err? ==> r.db == db
  {
    match OrderRepo.GetByID(db, order)
    case None => Reply(Err(OrderNotFound), db)
    case Some(o) =>
      if o.user != user then Reply(Err(NotOrderOwner), db)
      else if GetByOrderID(db, order).Ok? then Reply(Err(PaymentExists), db)
      else
        var p := Payment(id, order, o.total, PaymentPending, paymentMethod, TransactionId(suffix));
        var c := Create(db, p);
        if c.result.Err? then Reply(Err(c.result.error), c.db) else Reply(Ok(p), c.db)
  }

  /** A customer cannot pay twice for one order: whatever the second request,
      it is refused as a duplicate. */
  lemma CreatePaymentOnce(db: Db, order: OrderId, user: UserId, m1: string, m2: string,
                          id1: PaymentId, id2: PaymentId, x1: string, x2: string)
    requires CreatePayment(db, order, m1, user, id1, x1).result.Ok?
    ensures var d := CreatePayment(db, order, m1, user, id1, x1).db;
      CreatePayment(d, order, m2, user, id2, x2) == Reply(Err(PaymentExists), d)
  {
    var d := CreatePayment(db, order, m1, user, id1, x1).db;
    assert d.payments[|db.payments|].order == order;
  }

  /** The transaction id handed back by CreatePayment verifies the new payment,
      and no other transaction id does. */
  lemma CreateThenVerify(db: Db, order: OrderId, user: UserId, m: string, id: PaymentId, suffix: string, txn: string)
    requires CreatePayment(db, order, m, user, id, suffix).result.Ok?
    ensures var c := CreatePayment(db, order, m, user, id, suffix);
      && VerifyPayment(c.db, id, TransactionId(suffix)) == Ok(c.result.value)
      && (txn != TransactionId(suffix) ==> VerifyPayment(c.db, id, txn) == Err(InvalidTransactionId))
  {
    var c := CreatePayment(db, order, m, user, id, suffix);
    CreateThenGetByID(db, c.result.value);
  }

  /** VerifyPayment: succeeds, returning the payment, iff the stored transaction id
      equals the supplied one. */
  function VerifyPayment(db: Db, id: PaymentId, txn: string): (r: Result<Payment>)
    ensures r.Ok? <==> GetByID(db, id).Ok? && GetByID(db, id).value.transactionId == txn
    ensures r.Ok? ==> r.value == GetByID(db, id).value
    ensures GetByID(db, id).Ok? && r.Err? ==> r.error == InvalidTransactionId
  {
    match GetByID(db, id)
    case Err(e) => Err(e)
    case Ok(p) => if p.transactionId != txn then Err(InvalidTransactionId) else Ok(p)
  }

  /** ProcessRefund: only a completed payment, and only for at most its amount.
      Then the payment becomes refunded and its order refunded; a missing order
      surfaces as "order not found" after the payment was already written. */
  function ProcessRefund(db: Db, id: PaymentId, amount: int): (r: Reply<()>)
    ensures GetByID(db, id).Err? ==> r == Reply(Err(NoRows), db)
    ensures GetByID(db, id).Ok? && GetByID(db, id).value.status != PaymentCompleted ==>
      r == Reply(Err(RefundNotCompleted), db)
    ensures GetByID(db, id).Ok? && GetByID(db, id).value.status == PaymentCompleted && amount > GetByID(db, id).value.amount ==>
      r == Reply(Err(RefundTooLarge), db)
    ensures r.result.Ok? ==>
      var p := GetByID(db, id).value;
      && p.status == PaymentCompleted && amount <= p.amount
      && p.order in db.orders
      && r.db.orders == db.orders[p.order := db.orders[p.order].(status := Refunded)]
      && r.db.payments == UpdateStatusWithRefund(db, id, PaymentRefunded, amount).db.payments
    ensures r.db.products == db.products && r.db.reservations == db.reservations
  {
    match GetByID(db, id)
    case Err(e) => Reply(Err(e), db)
    case Ok(p) =>
      if p.status != PaymentCompleted then Reply(Err(RefundNotCompleted), db)
      else if amount > p.amount then Reply(Err(RefundTooLarge), db)
      else
        var u := UpdateStatusWithRefund(db, id, PaymentRefunded, amount);
        OrderRepo.UpdateStatus(u.db, p.order, Refunded)
  }

  /** A refunded payment is no longer completed, so it cannot be refunded again. */
  lemma RefundOnce(db: Db, id: PaymentId, a: int, b: int)
    requires ProcessRefund(db, id, a).result.Ok?
    ensures var d := ProcessRefund(db, id, a).db;
      ProcessRefund(d, id, b).result == Err(RefundNotCompleted)
  {
    var d := ProcessRefund(db, id, a).db;
    var p := GetByID(d, id).value;
    var k :| 0 <= k < |d.payments| && d.payments[k] == p;
    assert d.payments[k] == UpdateStatusWithRefund(db, id, PaymentRefunded, a).db.payments[k];
  }
}
