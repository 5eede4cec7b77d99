/** The order repository: status writes, the guarded cancel, transactional
    creation, and lookup by id (whose item list is joined with products). */
module OrderRepo {
  import opened Common
  import opened OrderModel
  import opened Store

  /** The order's item rows whose product still exists (the join with products),
      in their stored order. */
  function VisibleItems(items: seq<OrderItem>, products: map<ProductId, Product>): (vs: seq<OrderItem>)
    ensures |vs| <= |items|
    ensures forall x :: x in vs <==> x in items && x.product in products
  {
    if |items| == 0 then []
    else (if items[0].product in products then [items[0]] else []) + VisibleItems(items[1..], products)
  }

  /** When every product of the order still exists, all items are listed. */
  lemma {:induction false} VisibleItemsAll(items: seq<OrderItem>, products: map<ProductId, Product>)
    requires forall i :: 0 <= i < |items| ==> items[i].product in products
    ensures VisibleItems(items, products) == items
  {
    if |items| > 0 {
      VisibleItemsAll(items[1..], products);
    }
  }

  /** GetByID: no order (and no error) for an absent id; otherwise the order with
      its visible items. */
  function GetByID(db: Db, id: OrderId): (r: Option<Order>)
    ensures r.None? <==> id !in db.orders
    ensures r.Some? ==> r.value == db.orders[id].(items := r.value.items)
    ensures r.Some? ==> forall x :: x in r.value.items <==> x in db.orders[id].items && x.product in db.products
  {
    if id in db.orders then Some(db.orders[id].(items := VisibleItems(db.orders[id].items, db.products)))
    else None
  }

  /** UpdateStatus: writes any status with no transition check; "order not found"
      for an absent id. */
  function UpdateStatus(db: Db, id: OrderId, status: OrderStatus): (r: Reply<()>)
    ensures r.result.Ok? <==> id in db.orders
    ensures r.result.Err? ==> r.result.error == OrderNotFound && r.db == db
    ensures r.result.Ok? ==> r.db == db.(orders := db.orders[id := db.orders[id].(status := status)])
  {
    if id !in db.orders then Reply(Err(OrderNotFound), db)
    else Reply(Ok(()), db.(orders := db.orders[id := db.orders[id].(status := status)]))
  }

  /** Writing the status an order already has leaves the store as it was. */
  lemma UpdateStatusSameIsNoChange(db: Db, id: OrderId)
    requires id in db.orders
    ensures UpdateStatus(db, id, db.orders[id].status).db == db
  {
  }

  /** Reading an order back after a status write shows the new status and the
      same lines; every other order reads as before. */
  lemma UpdateStatusThenGet(db: Db, id: OrderId, status: OrderStatus, other: OrderId)
    requires UpdateStatus(db, id, status).result.Ok?
    ensures var d := UpdateStatus(db, id, status).db;
      && GetByID(d, id) == Some(GetByID(db, id).value.(status := status))
      && (other != id ==> GetByID(d, other) == GetByID(db, other))
  {
  }

  /** CancelOrder: a conditional write that cancels only a pending or processing
      order; every other case is one error with no change. */
  function CancelOrder(db: Db, id: OrderId): (r: Reply<()>)
    ensures r.result.Ok? <==> id in db.orders && db.orders[id].status in {Pending, Processing}
    ensures r.result.Err? ==> r.result.error == CannotCancelOrNotFound && r.db == db
    ensures r.result.Ok? ==> r.db == UpdateStatus(db, id, Cancelled).db
  {
    if id in db.orders && (db.orders[id].status == Pending || db.orders[id].status == Processing) then
      Reply(Ok(()), db.(orders := db.orders[id := db.orders[id].(status := Cancelled)]))
    else Reply(Err(CannotCancelOrNotFound), db)
  }

  /** The guarded cancel cannot succeed twice in a row. */
  lemma CancelOrderOnce(db: Db, id: OrderId)
    requires CancelOrder(db, id).result.Ok?
    ensures CancelOrder(CancelOrder(db, id).db, id) == Reply(Err(CannotCancelOrNotFound), CancelOrder(db, id).db)
  {
  }

  /** CreateWithTx: writes the order row together with one item row per order item
      (product, quantity, price snapshot); a used id fails with nothing written. */
  function CreateWithTx(db: Db, id: OrderId, order: Order): (r: Reply<()>)
    ensures r.result.Ok? <==> id !in db.orders
    ensures r.result.Err? ==> r.result.error == DuplicateKey && r.db == db
    ensures r.result.Ok? ==> r.db == db.(orders := db.orders[id := order])
  {
    if id in db.orders then Reply(Err(DuplicateKey), db)
    else Reply(Ok(()), db.(orders := db.orders[id := order]))
  }

  /** A created order reads back as written, items included, while its products exist. */
  lemma CreateThenGet(db: Db, id: OrderId, order: Order)
    requires id !in db.orders
    requires forall i :: 0 <= i < |order.items| ==> order.items[i].product in db.products
    ensures GetByID(CreateWithTx(db, id, order).db, id) == Some(order)
  {
    VisibleItemsAll(order.items, db.products);
  }
}
