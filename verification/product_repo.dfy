/** The inventory ledger and the reservation store (stock_quantity and the
    stock_reservations table): floor-checked stock adjustment, available stock,
    and the upsert/release of one hold per (product, cart). */
module Inventory {
  import opened Common
  import opened Store

  predicate IsKey(r: Reservation, p: ProductId, c: CartId) { r.product == p && r.cart == c }

  predicate Live(r: Reservation, now: int) { r.expiresAt > now }

  /** At most one hold per (product, cart). */
  predicate UniqueHolds(rs: seq<Reservation>)
  {
    forall i, j :: 0 <= i < j < |rs| ==> !(rs[i].product == rs[j].product && rs[i].cart == rs[j].cart)
  }

  predicate NonNegativeHolds(rs: seq<Reservation>)
  {
    forall i :: 0 <= i < |rs| ==> rs[i].quantity >= 0
  }

  /** Sum of the live holds on product `p`. */
  function LiveHeld(rs: seq<Reservation>, p: ProductId, now: int): int
  {
    if |rs| == 0 then 0
    else (if rs[0].product == p && Live(rs[0], now) then rs[0].quantity else 0) + LiveHeld(rs[1..], p, now)
  }

  /** Sum of the live holds on `p` of every cart other than `c`. */
  function LiveHeldExcept(rs: seq<Reservation>, p: ProductId, c: CartId, now: int): int
  {
    if |rs| == 0 then 0
    else (if rs[0].product == p && rs[0].cart != c && Live(rs[0], now) then rs[0].quantity else 0)
         + LiveHeldExcept(rs[1..], p, c, now)
  }

  /** Sum of the live holds of cart `c` on `p`. */
  function LiveHeldBy(rs: seq<Reservation>, p: ProductId, c: CartId, now: int): int
  {
    if |rs| == 0 then 0
    else (if IsKey(rs[0], p, c) && Live(rs[0], now) then rs[0].quantity else 0) + LiveHeldBy(rs[1..], p, c, now)
  }

  /** Total live holds on a product = other carts' live holds + this cart's live holds. */
  lemma {:induction false} LiveHeldSplit(rs: seq<Reservation>, p: ProductId, c: CartId, now: int)
    ensures LiveHeld(rs, p, now) == LiveHeldExcept(rs, p, c, now) + LiveHeldBy(rs, p, c, now)
  {
    if |rs| > 0 {
      LiveHeldSplit(rs[1..], p, c, now);
    }
  }

  lemma {:induction false} LiveHeldByNonNegative(rs: seq<Reservation>, p: ProductId, c: CartId, now: int)
    requires NonNegativeHolds(rs)
    ensures LiveHeldBy(rs, p, c, now) >= 0
  {
    if |rs| > 0 {
      LiveHeldByNonNegative(rs[1..], p, c, now);
    }
  }

  lemma {:induction false} NoKeyNoHold(rs: seq<Reservation>, p: ProductId, c: CartId, now: int)
    requires forall i :: 0 <= i < |rs| ==> !IsKey(rs[i], p, c)
    ensures LiveHeldBy(rs, p, c, now) == 0
  {
    if |rs| > 0 {
      NoKeyNoHold(rs[1..], p, c, now);
    }
  }

  /** With one row per key, a cart's live hold on a product is that row's quantity
      when the row is unexpired, and zero otherwise. */
  /** Without rows for the product nothing is held on it. */
  lemma {:induction false} NoRowsNoHeld(rs: seq<Reservation>, p: ProductId, now: int)
    requires forall i :: 0 <= i < |rs| ==> rs[i].product != p
    ensures LiveHeld(rs, p, now) == 0
  {
    if |rs| > 0 {
      assert forall i :: 0 <= i < |rs[1..]| ==> rs[1..][i] == rs[i + 1];
      NoRowsNoHeld(rs[1..], p, now);
    }
  }

  lemma {:induction false} LiveHeldByUnique(rs: seq<Reservation>, p: ProductId, c: CartId, k: nat, now: int)
    requires UniqueHolds(rs)
    requires k < |rs| && IsKey(rs[k], p, c)
    ensures LiveHeldBy(rs, p, c, now) == if Live(rs[k], now) then rs[k].quantity else 0
  {
    if k == 0 {
      NoKeyNoHold(rs[1..], p, c, now);
    } else {
      LiveHeldByUnique(rs[1..], p, c, k - 1, now);
    }
  }

  /** Live holds on a product of an appended row list. */
  lemma {:induction false} LiveHeldAppend(rs: seq<Reservation>, r: Reservation, p: ProductId, c: CartId, now: int)
    ensures LiveHeld(rs + [r], p, now) == LiveHeld(rs, p, now) + (if r.product == p && Live(r, now) then r.quantity else 0)
    ensures LiveHeldExcept(rs + [r], p, c, now)
         == LiveHeldExcept(rs, p, c, now) + (if r.product == p && r.cart != c && Live(r, now) then r.quantity else 0)
  {
    if |rs| == 0 {
      assert rs + [r] == [r];
    } else {
      assert (rs + [r])[1..] == rs[1..] + [r];
      LiveHeldAppend(rs[1..], r, p, c, now);
    }
  }

  /** GetAvailableStock: ledger quantity minus the live holds; the lookup fails
      with "no rows" for an absent product. */
  function AvailableStock(db: Db, p: ProductId, now: int): (r: Result<int>)
    ensures r.Err? <==> p !in db.products
    ensures r.Err? ==> r.error == NoRows
  {
    if p in db.products then Ok(db.products[p].stock - LiveHeld(db.reservations, p, now)) else Err(NoRows)
  }

  /** GetAvailableStockExcludingCart: as above, ignoring every hold of cart `c`. */
  function AvailableStockExcludingCart(db: Db, p: ProductId, c: CartId, now: int): (r: Result<int>)
    ensures r.Err? <==> p !in db.products
  {
    if p in db.products then Ok(db.products[p].stock - LiveHeldExcept(db.reservations, p, c, now)) else Err(NoRows)
  }

  /** The excluding-cart figure is the plain figure plus the cart's own live hold,
      so with non-negative holds it is never the smaller one. */
  lemma ExcludingCartAddsOwnHold(db: Db, p: ProductId, c: CartId, now: int)
    requires p in db.products
    ensures AvailableStockExcludingCart(db, p, c, now).value
         == AvailableStock(db, p, now).value + LiveHeldBy(db.reservations, p, c, now)
    ensures NonNegativeHolds(db.reservations) ==>
      AvailableStockExcludingCart(db, p, c, now).value >= AvailableStock(db, p, now).value
  {
    LiveHeldSplit(db.reservations, p, c, now);
    if NonNegativeHolds(db.reservations) {
      LiveHeldByNonNegative(db.reservations, p, c, now);
    }
  }

  /** An expired hold counts as zero although its row is still present. */
  lemma ExpiredHoldIgnored(db: Db, r: Reservation, p: ProductId, now: int)
    requires !Live(r, now)
    ensures AvailableStock(db.(reservations := db.reservations + [r]), p, now) == AvailableStock(db, p, now)
  {
    LiveHeldAppend(db.reservations, r, p, 0, now);
  }

  /** UpdateStock / UpdateStockWithTx: add `delta` (positive or negative) to the
      ledger only if the result stays non-negative; otherwise no row matches, the
      scan fails and nothing changes. It fails rather than clamps. */
  function UpdateStock(db: Db, id: ProductId, delta: int): (r: Reply<int>)
    ensures r.result.Ok? <==> id in db.products && db.products[id].stock + delta >= 0
    ensures r.result.Err? ==> r.result.error == NoRows && r.db == db
    ensures r.result.Ok? ==>
      && r.result.value == db.products[id].stock + delta
      && r.db == db.(products := db.products[id := db.products[id].(stock := db.products[id].stock + delta)])
  {
    if id in db.products && db.products[id].stock + delta >= 0 then
      var p := db.products[id];
      Reply(Ok(p.stock + delta), db.(products := db.products[id := p.(stock := p.stock + delta)]))
    else
      Reply(Err(NoRows), db)
  }

  /** Deducting and then restoring the same quantity gives the original store back. */
  lemma DeductThenRestore(db: Db, id: ProductId, q: int)
    requires q >= 0 && UpdateStock(db, id, -q).result.Ok?
    ensures UpdateStock(UpdateStock(db, id, -q).db, id, q).db == db
  {
    var p := db.products[id];
    var d1 := UpdateStock(db, id, -q).db;
    assert d1.products[id] == p.(stock := p.stock - q);
    assert d1.products[id].(stock := d1.products[id].stock + q) == p;
    assert d1.products[id := p] == db.products;
    var r2 := UpdateStock(d1, id, q);
    assert r2.db == d1.(products := d1.products[id := p]);
  }

  /** Index of the first hold row of (p, c), if any. */
  function FindHold(rs: seq<Reservation>, p: ProductId, c: CartId): (r: Option<nat>)
    ensures r.None? <==> forall i :: 0 <= i < |rs| ==> !IsKey(rs[i], p, c)
    ensures r.Some? ==> r.value < |rs| && IsKey(rs[r.value], p, c)
  {
    if |rs| == 0 then None
    else if IsKey(rs[0], p, c) then Some(0)
    else match FindHold(rs[1..], p, c)
      case None => None
      case Some(k) => Some(k + 1)
  }

  /** Appending a row of a key that had none makes that row the key's first row. */
  lemma {:induction false} FirstKeyOfAppend(rs: seq<Reservation>, r: Reservation, p: ProductId, c: CartId)
    requires forall i :: 0 <= i < |rs| ==> !IsKey(rs[i], p, c)
    requires IsKey(r, p, c)
    ensures FindHold(rs + [r], p, c) == Some(|rs|)
  {
    if |rs| == 0 {
      assert rs + [r] == [r];
    } else {
      assert (rs + [r])[1..] == rs[1..] + [r];
      FirstKeyOfAppend(rs[1..], r, p, c);
    }
  }

  /** Sets quantity and expiry of every row of (p, c). */
  function SetHold(rs: seq<Reservation>, p: ProductId, c: CartId, q: int, expiresAt: int): (rs': seq<Reservation>)
    ensures |rs'| == |rs|
    ensures forall i :: 0 <= i < |rs| ==>
      rs'[i] == if IsKey(rs[i], p, c) then rs[i].(quantity := q, expiresAt := expiresAt) else rs[i]
  {
    if |rs| == 0 then []
    else [if IsKey(rs[0], p, c) then rs[0].(quantity := q, expiresAt := expiresAt) else rs[0]]
         + SetHold(rs[1..], p, c, q, expiresAt)
  }

  lemma {:induction false} SetHoldKeepsOthers(rs: seq<Reservation>, p: ProductId, c: CartId, q: int, e: int, p': ProductId, now: int)
    ensures LiveHeldExcept(SetHold(rs, p, c, q, e), p, c, now) == LiveHeldExcept(rs, p, c, now)
    ensures p' != p ==> LiveHeld(SetHold(rs, p, c, q, e), p', now) == LiveHeld(rs, p', now)
  {
    if |rs| > 0 {
      assert SetHold(rs, p, c, q, e)[1..] == SetHold(rs[1..], p, c, q, e);
      SetHoldKeepsOthers(rs[1..], p, c, q, e, p', now);
    }
  }

  /** ReserveStock with the expiry already computed. An existing (p, c) row is
      raised to old + requested when the product's stock minus all live holds,
      plus the row's own quantity read WITHOUT the expiry filter, covers the new
      total. Otherwise a new row is inserted only if the available stock covers the
      request. An absent product reads as zero available. */
  function ReserveStock(db: Db, p: ProductId, c: CartId, quantity: int, expiresAt: int, now: int): (r: Reply<()>)
    ensures r.result.Err? ==> r.result.error == InsufficientForReservation && r.db == db
    // without a row for the key: one new row of exactly the requested quantity
    ensures FindHold(db.reservations, p, c).None? ==>
      && (r.result.Ok? <==> AvailableStock(db, p, now).Ok? && AvailableStock(db, p, now).value >= quantity)
      && (r.result.Ok? ==> r.db == db.(reservations := db.reservations + [Reservation(p, c, quantity, expiresAt)]))
    // with a row of quantity `held`: that row becomes held + requested with the new
    // expiry, and only the reservations change (see ReserveUpsertKeepsOtherRows)
    ensures FindHold(db.reservations, p, c).Some? ==>
      var k := FindHold(db.reservations, p, c).value;
      var held := db.reservations[k].quantity;
      && (r.result.Ok? <==> (p in db.products && db.products[p].stock - LiveHeld(db.reservations, p, now) + held >= held + quantity)
                            || (p !in db.products && 0 >= held + quantity))
      && (r.result.Ok? ==>
            && r.db == db.(reservations := r.db.reservations)
            && |r.db.reservations| == |db.reservations|
            && r.db.reservations[k] == Reservation(p, c, held + quantity, expiresAt))
  {
    var rs := db.reservations;
    match FindHold(rs, p, c)
    case Some(k) =>
      var newTotal := rs[k].quantity + quantity;
      var available := if p in db.products then db.products[p].stock - LiveHeld(rs, p, now) + rs[k].quantity else 0;
      if available < newTotal then Reply(Err(InsufficientForReservation), db)
      else Reply(Ok(()), db.(reservations := SetHold(rs, p, c, newTotal, expiresAt)))
    case None =>
      if p in db.products && db.products[p].stock - LiveHeld(rs, p, now) >= quantity then
        Reply(Ok(()), db.(reservations := rs + [Reservation(p, c, quantity, expiresAt)]))
      else Reply(Err(InsufficientForReservation), db)
  }

  /** Raising an existing hold rewrites only the rows of its key; with one row per
      key, that is row k alone. */
  lemma ReserveUpsertKeepsOtherRows(db: Db, p: ProductId, c: CartId, quantity: int, expiresAt: int, now: int)
    requires FindHold(db.reservations, p, c).Some?
    requires ReserveStock(db, p, c, quantity, expiresAt, now).result.Ok?
    ensures var k := FindHold(db.reservations, p, c).value;
      var rs' := ReserveStock(db, p, c, quantity, expiresAt, now).db.reservations;
      && (forall i :: 0 <= i < |db.reservations| && !IsKey(db.reservations[i], p, c) ==> rs'[i] == db.reservations[i])
      && (UniqueHolds(db.reservations) ==>
            forall i :: 0 <= i < |db.reservations| && i != k ==> rs'[i] == db.reservations[i])
  {
  }

  /** A reservation keeps one row per (product, cart). */
  lemma ReserveKeepsUnique(db: Db, p: ProductId, c: CartId, quantity: int, expiresAt: int, now: int)
    requires UniqueHolds(db.reservations)
    ensures UniqueHolds(ReserveStock(db, p, c, quantity, expiresAt, now).db.reservations)
  {
    var rs := db.reservations;
    var rs' := ReserveStock(db, p, c, quantity, expiresAt, now).db.reservations;
    match FindHold(rs, p, c)
    case Some(k) =>
      assert forall i :: 0 <= i < |rs| ==> rs'[i].product == rs[i].product && rs'[i].cart == rs[i].cart;
    case None =>
      assert forall i :: 0 <= i < |rs'| ==> rs'[i] == (rs + [Reservation(p, c, quantity, expiresAt)])[i];
  }

  /** Raising the unique (p, c) row to a live quantity q makes the product's live
      holds the other carts' live holds plus q. */
  lemma SetHoldLiveHeld(rs: seq<Reservation>, p: ProductId, c: CartId, k: nat, q: int, e: int, now: int)
    requires UniqueHolds(rs)
    requires k < |rs| && IsKey(rs[k], p, c)
    requires e > now
    ensures LiveHeld(SetHold(rs, p, c, q, e), p, now) == LiveHeldExcept(rs, p, c, now) + q
  {
    var rs' := SetHold(rs, p, c, q, e);
    assert forall i :: 0 <= i < |rs| ==> rs'[i].product == rs[i].product && rs'[i].cart == rs[i].cart;
    assert UniqueHolds(rs');
    LiveHeldSplit(rs', p, c, now);
    SetHoldKeepsOthers(rs, p, c, q, e, p, now);
    LiveHeldByUnique(rs', p, c, k, now);
  }

  /** A successful reservation whose cart had no row, or had an UNEXPIRED row,
      leaves the product's available stock non-negative. */
  lemma ReserveKeepsAvailableNonNegative(db: Db, p: ProductId, c: CartId, quantity: int, expiresAt: int, now: int)
    requires UniqueHolds(db.reservations) && NonNegativeHolds(db.reservations)
    requires quantity >= 1
    requires expiresAt > now
    requires var k := FindHold(db.reservations, p, c); k.Some? ==> Live(db.reservations[k.value], now)
    requires ReserveStock(db, p, c, quantity, expiresAt, now).result.Ok?
    ensures p in db.products
    ensures AvailableStock(ReserveStock(db, p, c, quantity, expiresAt, now).db, p, now).value >= 0
  {
    var rs := db.reservations;
    match FindHold(rs, p, c)
    case None =>
      LiveHeldAppend(rs, Reservation(p, c, quantity, expiresAt), p, c, now);
    case Some(k) =>
      var newTotal := rs[k].quantity + quantity;
      assert rs[k].quantity >= 0;
      assert p in db.products;
      assert db.products[p].stock - LiveHeld(rs, p, now) + rs[k].quantity >= newTotal;
      LiveHeldSplit(rs, p, c, now);
      LiveHeldByUnique(rs, p, c, k, now);
      SetHoldLiveHeld(rs, p, c, k, newTotal, expiresAt, now);
  }

  /** Counterexample: when the cart's own row has EXPIRED, its quantity is still
      added back by the check, so a reservation can succeed and drive available
      stock below zero (stock 5, own expired hold of 5, reserve 1 more). */
  lemma ExpiredOwnHoldOversells()
    ensures var db := Db(map[1 := Product("S", "N", "", 100, 5, "", "")],
                         [Reservation(1, 7, 5, 10)], [], [], map[], [], []);
      var r := ReserveStock(db, 1, 7, 1, 100, 50);
      && AvailableStock(db, 1, 50) == Ok(5)
      && r.result.Ok?
      && AvailableStock(r.db, 1, 50) == Ok(-1)
  {
    var db := Db(map[1 := Product("S", "N", "", 100, 5, "", "")],
                 [Reservation(1, 7, 5, 10)], [], [], map[], [], []);
    var r := ReserveStock(db, 1, 7, 1, 100, 50);
    assert r.db.reservations == [Reservation(1, 7, 6, 100)];
  }

  /** Removes every row of (p, c) and keeps the others in order. */
  function ReleaseRows(rs: seq<Reservation>, p: ProductId, c: CartId): (rs': seq<Reservation>)
    ensures forall i :: 0 <= i < |rs'| ==> !IsKey(rs'[i], p, c)
    ensures forall x :: x in rs' <==> x in rs && !IsKey(x, p, c)
    ensures |rs'| <= |rs|
  {
    if |rs| == 0 then []
    else if IsKey(rs[0], p, c) then ReleaseRows(rs[1..], p, c)
    else [rs[0]] + ReleaseRows(rs[1..], p, c)
  }

  /** ReleaseStockReservation: deletes the whole (p, c) hold; absence is not an error. */
  function ReleaseReservation(db: Db, p: ProductId, c: CartId): (r: Reply<()>)
    ensures r.result.Ok?
    ensures r.db == db.(reservations := ReleaseRows(db.reservations, p, c))
  {
    Reply(Ok(()), db.(reservations := ReleaseRows(db.reservations, p, c)))
  }

  lemma {:induction false} ReleaseRowsNoKey(rs: seq<Reservation>, p: ProductId, c: CartId)
    requires forall i :: 0 <= i < |rs| ==> !IsKey(rs[i], p, c)
    ensures ReleaseRows(rs, p, c) == rs
  {
    if |rs| > 0 {
      ReleaseRowsNoKey(rs[1..], p, c);
    }
  }

  /** Releasing twice is the same as releasing once. */
  lemma ReleaseIdempotent(db: Db, p: ProductId, c: CartId)
    ensures ReleaseReservation(ReleaseReservation(db, p, c).db, p, c) == ReleaseReservation(db, p, c)
  {
    ReleaseRowsNoKey(ReleaseRows(db.reservations, p, c), p, c);
  }

  /** After a release the product's live holds are exactly the other carts' live
      holds, and every other product's holds are unchanged. */
  lemma {:induction false} ReleaseHeld(rs: seq<Reservation>, p: ProductId, c: CartId, p': ProductId, now: int)
    ensures LiveHeld(ReleaseRows(rs, p, c), p, now) == LiveHeldExcept(rs, p, c, now)
    ensures p' != p ==> LiveHeld(ReleaseRows(rs, p, c), p', now) == LiveHeld(rs, p', now)
  {
    if |rs| > 0 {
      ReleaseHeld(rs[1..], p, c, p', now);
    }
  }

  /** The fields of a product update request; Go zero values stand for "absent". */
  datatype ProductUpdate = ProductUpdate(name: string, description: string, price: int, stock: int,
                                         category: string, imageUrl: string)

  predicate AnyField(u: ProductUpdate)
  {
    u.name != "" || u.description != "" || u.price > 0 || u.stock >= 0 || u.category != "" || u.imageUrl != ""
  }

  /** Update: writes each field whose request value qualifies (non-empty text,
      positive price, non-negative stock), so a request that omits the stock (zero)
      sets the stock to 0. A missing row is silently not updated. */
  function UpdateProductRow(db: Db, id: ProductId, u: ProductUpdate): (db': Db)
    ensures db'.reservations == db.reservations && db'.orders == db.orders && db'.lines == db.lines
    ensures db'.products.Keys == db.products.Keys
    ensures forall q :: q in db.products && q != id ==> db'.products[q] == db.products[q]
    ensures id in db.products && u.stock >= 0 ==> db'.products[id].stock == u.stock
    ensures id in db.products && u.stock < 0 ==> db'.products[id].stock == db.products[id].stock
    ensures id in db.products && u.price > 0 ==> db'.products[id].price == u.price
    ensures id in db.products && u.price <= 0 ==> db'.products[id].price == db.products[id].price
    ensures id in db.products ==> db'.products[id].sku == db.products[id].sku
    ensures !AnyField(u) ==> db' == db
  {
    if !AnyField(u) || id !in db.products then db
    else
      var p := db.products[id];
      var p' := Product(p.sku,
                        if u.name != "" then u.name else p.name,
                        if u.description != "" then u.description else p.description,
                        if u.price > 0 then u.price else p.price,
                        if u.stock >= 0 then u.stock else p.stock,
                        if u.category != "" then u.category else p.category,
                        if u.imageUrl != "" then u.imageUrl else p.imageUrl);
      db.(products := db.products[id := p'])
  }

  /** Create: inserts a new product row under a fresh id. */
  function CreateProductRow(db: Db, id: ProductId, p: Product): (r: Reply<ProductId>)
    ensures r.result.Ok? <==> id !in db.products
    ensures r.result.Ok? ==> r.db.products == db.products[id := p] && r.db.reservations == db.reservations
    ensures r.result.Err? ==> r.db == db
  {
    if id in db.products then Reply(Err(DuplicateKey), db)
    else Reply(Ok(id), db.(products := db.products[id := p]))
  }

  predicate SkuTaken(db: Db, sku: string)
  {
    exists id :: id in db.products && db.products[id].sku == sku
  }
}
