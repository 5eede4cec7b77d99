/** The order coordinator: the status transition table, status updates with the
    cash-on-delivery payment hook, cart-to-order conversion, cancellation with
    stock restoration, and lookup. */
module OrderService {
  import opened Common
  import opened OrderModel
  import opened Store
  import CartRepo
  import CartService
  import OrderRepo
  import Payments
  import OrderStock

  // ---------------------------------------------------------------------------
  // The status state machine
  // ---------------------------------------------------------------------------

  /** The transition table: each listed status with the statuses it may move to.
      return_requested and any other text have no entry at all. */
  const Transitions: map<OrderStatus, seq<OrderStatus>> := map[
    Pending := [Processing, Cancelled],
    Processing := [Shipped, Cancelled],
    Shipped := [Delivered],
    Delivered := [Completed],
    Completed := [],
    Cancelled := [],
    Refunded := []]

  /** A move is legal when the source status has an entry listing the target. */
  predicate IsValidTransition(from: OrderStatus, to: OrderStatus)
  {
    from in Transitions && to in Transitions[from]
  }

  /** The table admits exactly six moves. */
  lemma TransitionEdges(from: OrderStatus, to: OrderStatus)
    ensures IsValidTransition(from, to) <==>
      || (from == Pending && (to == Processing || to == Cancelled))
      || (from == Processing && (to == Shipped || to == Cancelled))
      || (from == Shipped && to == Delivered)
      || (from == Delivered && to == Completed)
  {
  }

  /** Completed, cancelled, refunded, return_requested and unknown statuses admit
      no move at all. */
  lemma TerminalStatuses(from: OrderStatus, to: OrderStatus)
    requires from != Pending && from != Processing && from != Shipped && from != Delivered
    ensures !IsValidTransition(from, to)
  {
  }

  /** Position of a status along the fulfilment line; every status with no
      outgoing move shares the last position. */
  function Rank(s: OrderStatus): (n: nat)
    ensures n <= 4
    ensures n == 4 <==> !(s in Transitions && |Transitions[s]| > 0)
  {
    match s
    case Pending => 0
    case Processing => 1
    case Shipped => 2
    case Delivered => 3
    case _ => 4
  }

  /** Every legal move goes strictly forward. */
  lemma TransitionsAdvance(from: OrderStatus, to: OrderStatus)
    requires IsValidTransition(from, to)
    ensures Rank(from) < Rank(to)
  {
  }

  /** A sequence of statuses each reachable from the previous by one legal move. */
  predicate ValidPath(p: seq<OrderStatus>)
  {
    forall i :: 0 <= i < |p| - 1 ==> IsValidTransition(p[i], p[i + 1])
  }

  lemma {:induction false} PathRanksIncrease(p: seq<OrderStatus>)
    requires ValidPath(p)
    ensures forall i, j :: 0 <= i < j < |p| ==> Rank(p[i]) < Rank(p[j])
    ensures forall i :: 0 <= i < |p| ==> Rank(p[i]) >= i
  {
    if |p| >= 2 {
      var q := p[..|p| - 1];
      assert ValidPath(q) by {
        forall i | 0 <= i < |q| - 1 ensures IsValidTransition(q[i], q[i + 1]) {
          assert q[i] == p[i] && q[i + 1] == p[i + 1];
        }
      }
      PathRanksIncrease(q);
      var last := |p| - 1;
      TransitionsAdvance(p[last - 1], p[last]);
      forall i | 0 <= i < last ensures Rank(p[i]) < Rank(p[last]) && Rank(p[i]) >= i {
        assert p[i] == q[i];
        if i < last - 1 {
          assert q[last - 1] == p[last - 1];
        }
      }
    }
  }

  /** The state machine has no cycle: no status is ever revisited, and the longest
      chain of moves is pending, processing, shipped, delivered, completed. */
  lemma PathsAreAcyclic(p: seq<OrderStatus>)
    requires ValidPath(p)
    ensures |p| <= 5
    ensures forall i, j :: 0 <= i < j < |p| ==> p[i] != p[j]
  {
    PathRanksIncrease(p);
    if |p| > 0 {
      assert Rank(p[|p| - 1]) >= |p| - 1;
    }
  }

  /** UpdateOrderStatus: an absent order is "order not found"; the status the order
      already has is accepted with no write; an illegal move is refused; a legal one
      is written. Moving a cash-on-delivery order to delivered then looks its
      payment up: when there is none the lookup fails and the call reports that
      error, with the new status already written and no payment created. */
  function UpdateOrderStatus(db: Db, id: OrderId, status: OrderStatus): (r: Reply<()>)
    ensures id !in db.orders ==> r == Reply(Err(OrderNotFound), db)
    ensures id in db.orders && db.orders[id].status == status ==> r == Reply(Ok(()), db)
    ensures id in db.orders && db.orders[id].status != status && !IsValidTransition(db.orders[id].status, status) ==>
      r == Reply(Err(InvalidTransition), db)
    ensures id in db.orders && db.orders[id].status != status && IsValidTransition(db.orders[id].status, status) ==>
      && r.db == db.(orders := db.orders[id := db.orders[id].(status := status)])
      && (r.result.Err? <==>
            status == Delivered && db.orders[id].paymentMethod == "cod" && !Payments.HasPaymentFor(db.payments, id))
      && (r.result.Err? ==> r.result.error == NoRows)
  {
    match OrderRepo.GetByID(db, id)
    case None => Reply(Err(OrderNotFound), db)
    case Some(o) =>
      if o.status == status then Reply(Ok(()), db)
      else if !IsValidTransition(o.status, status) then Reply(Err(InvalidTransition), db)
      else
        var u := OrderRepo.UpdateStatus(db, id, status);
        if u.result.Err? then u
        else if status == Delivered && o.paymentMethod == "cod" then
          match Payments.GetByOrderID(u.db, id)
          case Err(e) => Reply(Err(e), u.db)
          case Ok(_) => Reply(Ok(()), u.db)
        else u
  }

  /** Delivering a cash-on-delivery order that has no payment fails, leaves it
      delivered with no payment, and a retry then succeeds because the status
      already matches, so no payment is ever created on this path. */
  lemma CodDeliveryWithoutPaymentFails(db: Db, id: OrderId)
    requires id in db.orders && db.orders[id].status == Shipped && db.orders[id].paymentMethod == "cod"
    requires !Payments.HasPaymentFor(db.payments, id)
    ensures var r := UpdateOrderStatus(db, id, Delivered);
      && r.result == Err(NoRows)
      && id in r.db.orders && r.db.orders[id].status == Delivered
      && r.db.payments == db.payments
      && UpdateOrderStatus(r.db, id, Delivered) == Reply(Ok(()), r.db)
  {
  }

  /** Once an update has left the order in the requested status, repeating it is
      accepted and changes nothing. */
  lemma UpdateOrderStatusSettles(db: Db, id: OrderId, status: OrderStatus)
    requires id in db.orders
    ensures var d := UpdateOrderStatus(db, id, status).db;
      id in d.orders && (d.orders[id].status == status ==> UpdateOrderStatus(d, id, status) == Reply(Ok(()), d))
  {
  }

  /** ProcessOrderReturn: sets the order to refunded directly. */
  function ProcessOrderReturn(db: Db, id: OrderId, returnId: ReturnId): (r: Reply<()>)
    ensures r.result.Ok? <==> id in db.orders
    ensures r.result.Err? ==> r == Reply(Err(OrderNotFound), db)
    ensures r.result.Ok? ==> r.db.orders == db.orders[id := db.orders[id].(status := Refunded)]
  {
    OrderRepo.UpdateStatus(db, id, Refunded)
  }

  /** The refund bypasses the transition table: it applies from every status,
      although the table admits a move to refunded from none. */
  lemma ProcessOrderReturnBypassesTable(db: Db, id: OrderId, returnId: ReturnId, from: OrderStatus)
    requires id in db.orders
    ensures ProcessOrderReturn(db, id, returnId).db.orders[id].status == Refunded
    ensures !IsValidTransition(from, Refunded)
  {
  }

  // ---------------------------------------------------------------------------
  // Lookup and cancellation
  // ---------------------------------------------------------------------------

  /** GetOrder: "order not found" for an absent id, "unauthorized" for another
      user's order; otherwise the order with the items whose product still exists. */
  function GetOrder(db: Db, id: OrderId, user: UserId): (r: Result<Order>)
    ensures id !in db.orders ==> r == Err(OrderNotFound)
    ensures id in db.orders && db.orders[id].user != user ==> r == Err(NotOrderOwner)
    ensures r.Ok? <==> id in db.orders && db.orders[id].user == user
    ensures r.Ok? ==> r.value == db.orders[id].(items := r.value.items)
    ensures r.Ok? ==> forall x :: x in r.value.items <==> x in db.orders[id].items && x.product in db.products
  {
    match OrderRepo.GetByID(db, id)
    case None => Err(OrderNotFound)
    case Some(o) => if o.user != user then Err(NotOrderOwner) else Ok(o)
  }

  /** CancelOrder: "order not found", "unauthorized", and "cannot be cancelled"
      for a status other than pending or processing, each with no change.
      Otherwise each listed item's quantity is added back to stock, one write at a
      time outside any transaction, and the order is set to cancelled. A failed
      restoration stops there, keeping the restorations already made and the status. */
  function CancelOrder(db: Db, id: OrderId, user: UserId): (r: Reply<()>)
    ensures id !in db.orders ==> r == Reply(Err(OrderNotFound), db)
    ensures id in db.orders && db.orders[id].user != user ==> r == Reply(Err(NotOrderOwner), db)
    ensures id in db.orders && db.orders[id].user == user && db.orders[id].status != Pending && db.orders[id].status != Processing ==>
      r == Reply(Err(NotCancellable), db)
    ensures r.db == db.(products := r.db.products, orders := r.db.orders)
    ensures r.result.Err? ==> r.db.orders == db.orders
    ensures r.result.Ok? ==>
      && id in db.orders && db.orders[id].user == user && db.orders[id].status in {Pending, Processing}
      && r.db.orders == db.orders[id := db.orders[id].(status := Cancelled)]
  {
    match OrderRepo.GetByID(db, id)
    case None => Reply(Err(OrderNotFound), db)
    case Some(o) =>
      if o.user != user then Reply(Err(NotOrderOwner), db)
      else if o.status != Pending && o.status != Processing then Reply(Err(NotCancellable), db)
      else
        var rs := OrderStock.RestoreAll(db, o.items);
        if rs.result.Err? then Reply(Err(rs.result.error), rs.db)
        else OrderRepo.UpdateStatus(rs.db, id, Cancelled)
  }

  /** A successful cancellation added each listed product's ordered quantity back
      to its stock and changed no other product. */
  lemma CancelOrderRestoresStock(db: Db, id: OrderId, user: UserId)
    requires CancelOrder(db, id, user).result.Ok?
    ensures OrderStock.Moved(db.products, CancelOrder(db, id, user).db.products,
                             OrderRepo.VisibleItems(db.orders[id].items, db.products), 1)
  {
    var items := OrderRepo.GetByID(db, id).value.items;
    OrderStock.RestoreAllMoves(db, items);
  }

  /** A cancelled order cannot be cancelled again. */
  lemma CancelOrderOnce(db: Db, id: OrderId, user: UserId)
    requires CancelOrder(db, id, user).result.Ok?
    ensures var d := CancelOrder(db, id, user).db;
      CancelOrder(d, id, user) == Reply(Err(NotCancellable), d)
  {
  }

  // ---------------------------------------------------------------------------
  // Cart to order
  // ---------------------------------------------------------------------------

  /** The values the source generates while creating an order: the id of a lazily
      created cart, the order id and number, and the payment id and transaction
      suffix of a card payment. */
  datatype OrderIds = OrderIds(cart: CartId, order: OrderId, number: string, payment: PaymentId, txnSuffix: string)

  /** The order lines of a cart listing: product and quantity of each line and the
      product's price at this moment. */
  function Snapshot(items: seq<CartRepo.CartItem>): (s: seq<OrderItem>)
    ensures |s| == |items|
    ensures forall i :: 0 <= i < |items| ==>
      s[i].product == items[i].product && s[i].quantity == items[i].quantity && s[i].priceAtTime == items[i].row.price
  {
    seq(|items|, i requires 0 <= i < |items| => OrderItem(items[i].product, items[i].quantity, items[i].row.price))
  }

  /** Sum of price times quantity, in cents. */
  function Total(items: seq<OrderItem>): int
  {
    if |items| == 0 then 0 else items[0].priceAtTime * items[0].quantity + Total(items[1..])
  }

  /** The total of a concatenation is the sum of the totals, so the running sum the
      source accumulates line by line equals the total of the whole list. */
  lemma {:induction false} TotalAppend(a: seq<OrderItem>, b: seq<OrderItem>)
    ensures Total(a + b) == Total(a) + Total(b)
  {
    if |a| > 0 {
      assert (a + b)[0] == a[0];
      assert (a + b)[1..] == a[1..] + b;
      TotalAppend(a[1..], b);
      assert Total(a + b) == a[0].priceAtTime * a[0].quantity + Total(a[1..] + b);
    } else {
      assert a + b == b;
    }
  }

  /** Non-negative prices and quantities give a non-negative total. */
  lemma {:induction false} TotalNonNegative(items: seq<OrderItem>)
    requires forall i :: 0 <= i < |items| ==> items[i].priceAtTime >= 0 && items[i].quantity >= 0
    ensures Total(items) >= 0
  {
    if |items| > 0 {
      TotalNonNegative(items[1..]);
    }
  }

  /** The order written for a checked-out cart: pending, with the snapshot lines
      and their total. */
  function NewOrder(user: UserId, req: CreateOrderRequest, ids: OrderIds, items: seq<OrderItem>, now: int): (o: Order)
    ensures o.status == Pending && o.items == items && o.total == Total(items) && o.user == user
  {
    Order(user, ids.number, Total(items), Pending, req.paymentMethod, req.shipping, req.billing, items, now)
  }

  predicate IsCardPayment(paymentMethod: string) { paymentMethod == "cc" || paymentMethod == "dc" }

  /** The store after the transaction commits: its own writes (stock, order row)
      combined with the pool writes the cart clearing made meanwhile. */
  function Merge(tx: Db, pool: Db): (d: Db)
    ensures d.products == tx.products && d.orders == tx.orders && d.payments == tx.payments
    ensures d.reservations == pool.reservations && d.lines == pool.lines && d.carts == pool.carts
  {
    tx.(reservations := pool.reservations, carts := pool.carts, lines := pool.lines)
  }

  /** The part of CreateOrder after validation. Stock deductions and the order row
      are written in one transaction over the committed store `db`; the cart is
      cleared through the pool, so it sees only committed rows and its writes
      survive a rollback. After the commit a card order gets a completed payment;
      if that fails the call reports the error but the order stays. */
  function PlaceOrder(db: Db, user: UserId, req: CreateOrderRequest, now: int, ids: OrderIds,
                      view: CartRepo.CartView): (r: Reply<Order>)
  {
    var items := Snapshot(view.items);
    var order := NewOrder(user, req, ids, items, now);
    match OrderStock.DeductAll(db, items)
    case Err(e) => Reply(Err(e), db)
    case Ok(d1) =>
      var c := OrderRepo.CreateWithTx(d1, ids.order, order);
      if c.result.Err? then Reply(Err(c.result.error), db)
      else
        var cl := CartService.ClearCart(db, user, ids.cart);
        if cl.result.Err? then Reply(Err(cl.result.error), cl.db)
        else
          var committed := Merge(c.db, cl.db);
          if IsCardPayment(req.paymentMethod) then
            var p := Payments.CreatePaymentForOrder(committed, ids.order, req.paymentMethod, PaymentCompleted,
                                                    ids.payment, ids.txnSuffix);
            if p.result.Err? then Reply(Err(p.result.error), p.db) else Reply(Ok(order), p.db)
          else Reply(Ok(order), committed)
  }

  /** CreateOrder: the user's cart (created lazily), "cart is empty" for a cart
      with no listed line, the validation errors for a cart that fails validation,
      and otherwise the order placement. */
  function CreateOrder(db: Db, user: UserId, req: CreateOrderRequest, now: int, ids: OrderIds): (r: Reply<Order>)
    ensures var g := CartRepo.GetByUserID(db, user, ids.cart);
      g.result.Ok? && |g.result.value.items| == 0 ==> r == Reply(Err(CartEmpty), g.db)
    ensures var g := CartRepo.GetByUserID(db, user, ids.cart);
      g.result.Ok? && |g.result.value.items| > 0 ==>
        var v := CartService.ValidateCart(g.db, g.result.value.cart.id, now);
        v.Ok? && (!v.value.valid ==> r == Reply(Err(CartValidationFailed(v.value.problems)), g.db))
  {
    var g := CartRepo.GetByUserID(db, user, ids.cart);
    if g.result.Err? then Reply(Err(g.result.error), g.db)
    else if |g.result.value.items| == 0 then Reply(Err(CartEmpty), g.db)
    else
      match CartService.ValidateCart(g.db, g.result.value.cart.id, now)
      case Err(e) => Reply(Err(e), g.db)
      case Ok(v) =>
        if !v.valid then Reply(Err(CartValidationFailed(v.problems)), g.db)
        else PlaceOrder(g.db, user, req, now, ids, g.result.value)
  }

  /** An empty cart or one that fails validation is refused without touching
      stock, holds, orders or cart lines. */
  lemma CreateOrderRefusalChangesNothing(db: Db, user: UserId, req: CreateOrderRequest, now: int, ids: OrderIds)
    requires CreateOrder(db, user, req, now, ids).result.Err?
    requires CreateOrder(db, user, req, now, ids).result.error.CartEmpty?
          || CreateOrder(db, user, req, now, ids).result.error.CartValidationFailed?
    ensures var d := CreateOrder(db, user, req, now, ids).db;
      d.products == db.products && d.reservations == db.reservations && d.orders == db.orders
      && d.lines == db.lines && d.payments == db.payments
  {
    var g := CartRepo.GetByUserID(db, user, ids.cart);
    if g.result.Ok? && |g.result.value.items| > 0 {
      var v := CartService.ValidateCart(g.db, g.result.value.cart.id, now);
      if v.value.valid {
        PlaceOrderErrors(g.db, user, req, now, ids, g.result.value);
      }
    }
  }

  /** The errors the placement itself reports are stock, duplicate-key and
      payment errors, never an empty or invalid cart. */
  lemma PlaceOrderErrors(db: Db, user: UserId, req: CreateOrderRequest, now: int, ids: OrderIds, view: CartRepo.CartView)
    ensures var r := PlaceOrder(db, user, req, now, ids, view);
      r.result.Err? ==> !r.result.error.CartEmpty? && !r.result.error.CartValidationFailed?
  {
    var items := Snapshot(view.items);
    match OrderStock.DeductAll(db, items)
    case Err(e) =>
    case Ok(d1) =>
  }

  /** A failed stock deduction rolls the whole transaction back: the call reports
      which product fell short and leaves the store as validation left it, with no
      order written. */
  lemma PlaceOrderRollsBack(db: Db, user: UserId, req: CreateOrderRequest, now: int, ids: OrderIds, view: CartRepo.CartView)
    requires OrderStock.DeductAll(db, Snapshot(view.items)).Err?
    ensures var r := PlaceOrder(db, user, req, now, ids, view);
      r.db == db && r.result.Err? && r.result.error.StockUpdateFailed?
      && r.result.error.product in OrderStock.ProductsOf(Snapshot(view.items))
  {
  }

  /** The effects of a successful placement for a cart found in the store: each
      product's stock drops by its ordered total, the pending order is stored
      (already processing when paid by card), the cart has no lines left and its
      holds on the listed products are gone. */
  lemma PlaceOrderSucceeds(db: Db, user: UserId, req: CreateOrderRequest, now: int, ids: OrderIds, view: CartRepo.CartView)
    requires CartRepo.FindCart(db.carts, user) == Some(view.cart)
    requires PlaceOrder(db, user, req, now, ids, view).result.Ok?
    ensures var r := PlaceOrder(db, user, req, now, ids, view);
      var items := Snapshot(view.items);
      && r.result.value == NewOrder(user, req, ids, items, now)
      && ids.order !in db.orders
      && r.db.orders == db.orders[ids.order := r.result.value.(status := if IsCardPayment(req.paymentMethod) then Processing else Pending)]
      && OrderStock.Moved(db.products, r.db.products, items, -1)
      && r.db.lines == CartRepo.DropCart(db.lines, view.cart.id)
      && (forall x :: x in r.db.reservations <==>
            x in db.reservations
            && !(x.cart == view.cart.id && CartService.ProductListed(CartRepo.Items(db.lines, db.products, view.cart.id), x.product)))
  {
    var items := Snapshot(view.items);
    OrderStock.DeductAllMoves(db, items);
    PlaceOrderSteps(db, user, req, now, ids, view);
    PlaceOrderFresh(db, user, req, now, ids, view);
    PlaceOrderOrders(db, user, req, now, ids, view);
    PlaceOrderProducts(db, user, req, now, ids, view);
    PlaceOrderCartSide(db, user, req, now, ids, view);
  }

  /** A placed order's row: the new order under its id, marked processing after
      a card payment and pending otherwise. */
  lemma PlaceOrderOrders(db: Db, user: UserId, req: CreateOrderRequest, now: int, ids: OrderIds, view: CartRepo.CartView)
    requires PlaceOrder(db, user, req, now, ids, view).result.Ok?
    ensures var order := NewOrder(user, req, ids, Snapshot(view.items), now);
      PlaceOrder(db, user, req, now, ids, view).db.orders
        == db.orders[ids.order := order.(status := if IsCardPayment(req.paymentMethod) then Processing else Pending)]
  {
    var items := Snapshot(view.items);
    var d1 := OrderStock.DeductAll(db, items).value;
    var order := NewOrder(user, req, ids, items, now);
    var c := OrderRepo.CreateWithTx(d1, ids.order, order);
    var cl := CartService.ClearCart(db, user, ids.cart);
    var committed := Merge(c.db, cl.db);
    PlaceOrderSteps(db, user, req, now, ids, view);
    assert committed.orders == db.orders[ids.order := order];
    if IsCardPayment(req.paymentMethod) {
      var p := Payments.CreatePaymentForOrder(committed, ids.order, req.paymentMethod, PaymentCompleted,
                                              ids.payment, ids.txnSuffix);
      assert p.db.orders == db.orders[ids.order := order.(status := Processing)];
    } else {
      assert order.(status := Pending) == order;
    }
  }

  /** A placed order's id was not taken before: the order row's insert succeeded. */
  lemma PlaceOrderFresh(db: Db, user: UserId, req: CreateOrderRequest, now: int, ids: OrderIds, view: CartRepo.CartView)
    requires PlaceOrder(db, user, req, now, ids, view).result.Ok?
    ensures ids.order !in db.orders
  {
    var items := Snapshot(view.items);
    var d1 := OrderStock.DeductAll(db, items).value;
    PlaceOrderSteps(db, user, req, now, ids, view);
    assert d1.orders == db.orders;
  }

  /** A placed order's stock is what the deduction left. */
  lemma PlaceOrderProducts(db: Db, user: UserId, req: CreateOrderRequest, now: int, ids: OrderIds, view: CartRepo.CartView)
    requires PlaceOrder(db, user, req, now, ids, view).result.Ok?
    ensures OrderStock.DeductAll(db, Snapshot(view.items)).Ok?
    ensures PlaceOrder(db, user, req, now, ids, view).db.products
              == OrderStock.DeductAll(db, Snapshot(view.items)).value.products
  {
    PlaceOrderSteps(db, user, req, now, ids, view);
  }

  /** A placed order leaves the cart lines and holds as ClearCart left them. */
  lemma PlaceOrderCartSide(db: Db, user: UserId, req: CreateOrderRequest, now: int, ids: OrderIds, view: CartRepo.CartView)
    requires PlaceOrder(db, user, req, now, ids, view).result.Ok?
    ensures var r := PlaceOrder(db, user, req, now, ids, view);
      var cl := CartService.ClearCart(db, user, ids.cart);
      r.db.lines == cl.db.lines && r.db.reservations == cl.db.reservations
  {
    PlaceOrderSteps(db, user, req, now, ids, view);
  }

  /** The successful run of PlaceOrder unfolded: every step succeeded, and the
      result is the order with the committed store, after the card payment. */
  lemma PlaceOrderSteps(db: Db, user: UserId, req: CreateOrderRequest, now: int, ids: OrderIds, view: CartRepo.CartView)
    requires PlaceOrder(db, user, req, now, ids, view).result.Ok?
    ensures var items := Snapshot(view.items);
      var order := NewOrder(user, req, ids, items, now);
      && OrderStock.DeductAll(db, items).Ok?
      && var c := OrderRepo.CreateWithTx(OrderStock.DeductAll(db, items).value, ids.order, order);
      && c.result.Ok?
      && var cl := CartService.ClearCart(db, user, ids.cart);
      && cl.result.Ok?
      && var committed := Merge(c.db, cl.db);
      && var p := Payments.CreatePaymentForOrder(committed, ids.order, req.paymentMethod, PaymentCompleted,
                                                 ids.payment, ids.txnSuffix);
      && (IsCardPayment(req.paymentMethod) ==> p.result.Ok? && PlaceOrder(db, user, req, now, ids, view) == Reply(Ok(order), p.db))
      && (!IsCardPayment(req.paymentMethod) ==> PlaceOrder(db, user, req, now, ids, view) == Reply(Ok(order), committed))
  {
  }

  /** The payment side of a successful placement: a card order gets exactly one
      new payment, completed, for the order's total and carrying the generated
      transaction id; any other method leaves the payments as they were. */
  lemma PlaceOrderPayment(db: Db, user: UserId, req: CreateOrderRequest, now: int, ids: OrderIds, view: CartRepo.CartView)
    requires PlaceOrder(db, user, req, now, ids, view).result.Ok?
    ensures var r := PlaceOrder(db, user, req, now, ids, view);
      var items := Snapshot(view.items);
      && (IsCardPayment(req.paymentMethod) ==>
            r.db.payments == db.payments + [Payment(ids.payment, ids.order, Total(items), PaymentCompleted,
                                                    req.paymentMethod, Payments.TransactionId(ids.txnSuffix))])
      && (!IsCardPayment(req.paymentMethod) ==> r.db.payments == db.payments)
  {
    var items := Snapshot(view.items);
    var d1 := OrderStock.DeductAll(db, items).value;
    var order := NewOrder(user, req, ids, items, now);
    var c := OrderRepo.CreateWithTx(d1, ids.order, order);
    var cl := CartService.ClearCart(db, user, ids.cart);
    var committed := Merge(c.db, cl.db);
    assert committed.payments == db.payments;
    assert committed.orders[ids.order] == order;
  }

  /** CreateOrder end to end: a successful order came from the user's existing
      cart, whose lines' products lost exactly the ordered quantities, and the
      order reads back to its owner as placed. */
  lemma CreateOrderSucceeds(db: Db, user: UserId, req: CreateOrderRequest, now: int, ids: OrderIds)
    requires CreateOrder(db, user, req, now, ids).result.Ok?
    ensures CartRepo.FindCart(db.carts, user).Some?
    ensures var c := CartRepo.FindCart(db.carts, user).value;
      var r := CreateOrder(db, user, req, now, ids);
      var items := Snapshot(CartRepo.Items(db.lines, db.products, c.id));
      && r.result.value.items == items
      && r.result.value.total == Total(items)
      && OrderStock.Moved(db.products, r.db.products, items, -1)
      && r.db.lines == CartRepo.DropCart(db.lines, c.id)
      && GetOrder(r.db, ids.order, user).Ok?
      && GetOrder(r.db, ids.order, user).value.items == items
  {
    var g := CartRepo.GetByUserID(db, user, ids.cart);
    var view := g.result.value;
    assert g.db == db;
    PlaceOrderSucceeds(db, user, req, now, ids, view);
    var items := Snapshot(view.items);
    OrderStock.DeductAllMoves(db, items);
    var r := CreateOrder(db, user, req, now, ids);
    assert r.db.orders[ids.order].items == items;
    assert forall i :: 0 <= i < |items| ==> items[i].product in r.db.products;
    OrderRepo.VisibleItemsAll(items, r.db.products);
  }
}
