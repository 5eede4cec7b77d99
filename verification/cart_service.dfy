/** The cart service: every cart mutation paired with a call on the reservation
    store, and validation of a cart against available stock. */
module CartService {
  import opened Common
  import opened Store
  import Inventory
  import Catalog
  import opened CartRepo

  /** AddToCart: get-or-create the user's cart, refuse an unknown product or one
      whose available stock does not cover the request, reserve, then add the line;
      when adding the line fails the WHOLE (product, cart) hold is released. */
  function AddToCart(db: Db, user: UserId, product: ProductId, q: int, now: int,
                     freshCart: CartId, freshLine: LineId): (r: Reply<CartView>)
    ensures r.result.Err? && r.result.error in {ProductNotFound, InsufficientStock, InsufficientForReservation} ==>
      r.db.lines == db.lines && r.db.reservations == db.reservations
    ensures product !in db.products ==> r.result.Err? && r.result.error in {ProductNotFound, DuplicateKey}
    ensures r.result.Ok? ==> product in db.products && Catalog.CheckStock(db, product, q, now).value
    ensures r.db.products == db.products && r.db.orders == db.orders
  {
    var g := GetByUserID(db, user, freshCart);
    if g.result.Err? then Reply(Err(g.result.error), g.db)
    else
      var cart := g.result.value.cart;
      var db1 := g.db;
      if product !in db1.products then Reply(Err(ProductNotFound), db1)
      else if !Catalog.CheckStock(db1, product, q, now).value then Reply(Err(InsufficientStock), db1)
      else
        var res := Catalog.ReserveStock(db1, product, cart.id, q, now);
        if res.result.Err? then Reply(Err(res.result.error), res.db)
        else
          var add := AddItem(res.db, cart.id, product, q, freshLine);
          if add.result.Err? then
            Reply(Err(add.result.error), Catalog.ReleaseStockReservation(add.db, product, cart.id).db)
          else
            Reply(GetCartWithItems(add.db, cart.id), add.db)
  }

  /** When writing the line fails after a successful reservation, the cart's
      whole hold on that product is gone, not only the amount just added. */
  lemma AddToCartFailedLineDropsWholeHold(db: Db, user: UserId, c: Cart, product: ProductId, q: int, now: int,
                                          freshCart: CartId, freshLine: LineId)
    requires FindCart(db.carts, user) == Some(c)
    requires product in db.products && Catalog.CheckStock(db, product, q, now).value
    requires Catalog.ReserveStock(db, product, c.id, q, now).result.Ok?
    requires !HasLine(db.lines, c.id, product) && LineIdUsed(db.lines, freshLine)
    ensures var r := AddToCart(db, user, product, q, now, freshCart, freshLine);
      && r.result == Err(DuplicateKey)
      && Inventory.FindHold(r.db.reservations, product, c.id).None?
      && r.db.lines == db.lines
  {
  }

  /** A successful add is the user's cart lookup (creating the cart when the user
      has none), then the reservation, then the line write, and changes nothing
      else; for a user who already has a cart the lookup writes nothing. */
  lemma AddToCartSucceeds(db: Db, user: UserId, p: ProductId, q: int, now: int, freshCart: CartId, l: LineId)
    requires AddToCart(db, user, p, q, now, freshCart, l).result.Ok?
    ensures var g := GetByUserID(db, user, freshCart);
      var c := g.result.value.cart;
      var r := AddToCart(db, user, p, q, now, freshCart, l);
      && g.result.Ok?
      && (FindCart(db.carts, user).Some? ==> g.db == db && c == FindCart(db.carts, user).value)
      && (FindCart(db.carts, user).None? ==> g.db == db.(carts := db.carts + [Cart(freshCart, user)]) && c == Cart(freshCart, user))
      && Catalog.ReserveStock(g.db, p, c.id, q, now).result.Ok?
      && AddItem(g.db, c.id, p, q, l).result.Ok?
      && r.db == g.db.(reservations := Catalog.ReserveStock(g.db, p, c.id, q, now).db.reservations,
                       lines := AddItem(g.db, c.id, p, q, l).db.lines)
  {
  }

  /** Adding the same product twice to a cart that had neither a line nor a hold for
      it leaves exactly one line and one hold, each of the summed quantity. */
  lemma AddToCartTwiceMerges(db: Db, user: UserId, c: Cart, p: ProductId, q1: int, q2: int,
                             now1: int, now2: int, freshCart: CartId, l1: LineId, l2: LineId)
    requires FindCart(db.carts, user) == Some(c)
    requires !HasLine(db.lines, c.id, p) && Inventory.FindHold(db.reservations, p, c.id).None?
    requires AddToCart(db, user, p, q1, now1, freshCart, l1).result.Ok?
    requires AddToCart(AddToCart(db, user, p, q1, now1, freshCart, l1).db, user, p, q2, now2, freshCart, l2).result.Ok?
    ensures var r1 := AddToCart(db, user, p, q1, now1, freshCart, l1);
      var r2 := AddToCart(r1.db, user, p, q2, now2, freshCart, l2);
      && r2.db.lines == db.lines + [CartLine(l1, c.id, p, q1 + q2)]
      && r2.db.reservations == db.reservations + [Reservation(p, c.id, q1 + q2, now2 + Catalog.ReservationTtl)]
      && Inventory.FindHold(r2.db.reservations, p, c.id) == Some(|db.reservations|)
  {
    FirstAdd(db, user, c, p, q1, now1, freshCart, l1);
    var r1 := AddToCart(db, user, p, q1, now1, freshCart, l1);
    AddToCartSucceeds(r1.db, user, p, q2, now2, freshCart, l2);
    SecondAddHold(r1.db, db.reservations, p, c.id, q1, now1 + Catalog.ReservationTtl, q2, now2);
    SecondAddLine(r1.db, db.lines, l1, c.id, p, q1, q2, l2);
    Inventory.FirstKeyOfAppend(db.reservations, Reservation(p, c.id, q1 + q2, now2 + Catalog.ReservationTtl), p, c.id);
  }

  lemma FirstAdd(db: Db, user: UserId, c: Cart, p: ProductId, q: int, now: int, freshCart: CartId, l: LineId)
    requires FindCart(db.carts, user) == Some(c)
    requires !HasLine(db.lines, c.id, p) && Inventory.FindHold(db.reservations, p, c.id).None?
    requires AddToCart(db, user, p, q, now, freshCart, l).result.Ok?
    ensures var r := AddToCart(db, user, p, q, now, freshCart, l);
      && r.db == db.(reservations := db.reservations + [Reservation(p, c.id, q, now + Catalog.ReservationTtl)],
                     lines := db.lines + [CartLine(l, c.id, p, q)])
  {
    AddToCartSucceeds(db, user, p, q, now, freshCart, l);
  }

  lemma SecondAddHold(d: Db, rs: seq<Reservation>, p: ProductId, c: CartId, held: int, e: int, q: int, now: int)
    requires forall i :: 0 <= i < |rs| ==> !Inventory.IsKey(rs[i], p, c)
    requires d.reservations == rs + [Reservation(p, c, held, e)]
    requires Catalog.ReserveStock(d, p, c, q, now).result.Ok?
    ensures Catalog.ReserveStock(d, p, c, q, now).db.reservations == rs + [Reservation(p, c, held + q, now + Catalog.ReservationTtl)]
  {
    var h := Reservation(p, c, held, e);
    var e2 := now + Catalog.ReservationTtl;
    Inventory.FirstKeyOfAppend(rs, h, p, c);
    assert Inventory.FindHold(d.reservations, p, c) == Some(|rs|);
    var r := Inventory.ReserveStock(d, p, c, q, e2, now);
    assert r.result.Ok?;
    var rs2 := r.db.reservations;
    forall i | 0 <= i < |rs| ensures rs2[i] == rs[i] {
      assert d.reservations[i] == rs[i];
    }
    assert rs2[|rs|] == Reservation(p, c, held + q, e2);
    assert rs2 == rs + [Reservation(p, c, held + q, e2)];
  }

  lemma SecondAddLine(d: Db, lines: seq<CartLine>, id: LineId, c: CartId, p: ProductId, held: int, q: int, lineId: LineId)
    requires !HasLine(lines, c, p)
    requires d.lines == lines + [CartLine(id, c, p, held)]
    ensures AddItem(d, c, p, q, lineId).db.lines == lines + [CartLine(id, c, p, held + q)]
  {
    var ls := lines + [CartLine(id, c, p, held)];
    assert MatchesLine(ls[|lines|], c, p);
    var bumped := BumpLines(ls, c, p, q);
    forall i | 0 <= i < |lines| ensures bumped[i] == lines[i] {
      assert ls[i] == lines[i];
    }
  }

  /** Index of the cart's first listed item with the given line id. */
  function FindItem(items: seq<CartItem>, id: LineId): (r: Option<CartItem>)
    ensures r.None? <==> forall i :: 0 <= i < |items| ==> items[i].id != id
    ensures r.Some? ==> r.value in items && r.value.id == id
  {
    if |items| == 0 then None
    else if items[0].id == id then Some(items[0])
    else FindItem(items[1..], id)
  }

  /** The reservation side of an update from the item's quantity to `q`: only an
      increase is checked and reserved, and only for the difference; a decrease
      releases the whole hold; an unchanged quantity does nothing. */
  function AdjustHold(db: Db, cart: CartId, item: CartItem, q: int, now: int): (r: Reply<()>)
    requires item.product in db.products
    ensures q > item.quantity && !Catalog.CheckStock(db, item.product, q - item.quantity, now).value ==>
      r == Reply(Err(InsufficientForAdditional), db)
    ensures q > item.quantity && Catalog.CheckStock(db, item.product, q - item.quantity, now).value ==>
      r == Catalog.ReserveStock(db, item.product, cart, q - item.quantity, now)
    ensures q < item.quantity ==>
      && r.result.Ok?
      && Inventory.FindHold(r.db.reservations, item.product, cart).None?
      && r.db == db.(reservations := r.db.reservations)
    ensures q == item.quantity ==> r == Reply(Ok(()), db)
    ensures r.result.Err? ==> r.db == db
  {
    var diff := q - item.quantity;
    if diff > 0 then
      if !Catalog.CheckStock(db, item.product, diff, now).value then Reply(Err(InsufficientForAdditional), db)
      else Catalog.ReserveStock(db, item.product, cart, diff, now)
    else if diff < 0 then Catalog.ReleaseStockReservation(db, item.product, cart)
    else Reply(Ok(()), db)
  }

  /** UpdateCartItem: the line must be among the user's listed lines. The line is
      set to the requested quantity; on an increase only the difference is checked
      and reserved, on a decrease the whole hold is deleted, and an unchanged
      quantity makes no reservation call. */
  function UpdateCartItem(db: Db, user: UserId, id: LineId, q: int, now: int, freshCart: CartId): (r: Reply<CartView>)
    ensures r.db.products == db.products && r.db.orders == db.orders
  {
    var g := GetByUserID(db, user, freshCart);
    if g.result.Err? then Reply(Err(g.result.error), g.db)
    else
      var cart := g.result.value.cart;
      var db1 := g.db;
      match FindItem(g.result.value.items, id)
      case None => Reply(Err(CartItemNotFound), db1)
      case Some(item) =>
        var held := AdjustHold(db1, cart.id, item, q, now);
        if held.result.Err? then Reply(Err(held.result.error), held.db)
        else
          var upd := UpdateItem(held.db, cart.id, id, q);
          if upd.result.Err? then Reply(Err(upd.result.error), upd.db)
          else Reply(GetCartWithItems(upd.db, cart.id), upd.db)
  }

  /** A listed line of the user's cart lies in the store's lines under that cart, so
      the repository update finds it. */
  lemma ListedLineExists(db: Db, c: Cart, id: LineId, x: CartItem)
    requires FindItem(Items(db.lines, db.products, c.id), id) == Some(x)
    ensures HasLineId(db.lines, c.id, id)
  {
    assert CartLine(x.id, c.id, x.product, x.quantity) in db.lines;
    var k :| 0 <= k < |db.lines| && db.lines[k] == CartLine(x.id, c.id, x.product, x.quantity);
    assert IsLine(db.lines[k], c.id, id);
  }

  /** A line id the cart does not list is "cart item not found", with nothing changed. */
  lemma UpdateCartItemNotFound(db: Db, user: UserId, c: Cart, id: LineId, q: int, now: int, freshCart: CartId)
    requires FindCart(db.carts, user) == Some(c)
    requires FindItem(Items(db.lines, db.products, c.id), id).None?
    ensures UpdateCartItem(db, user, id, q, now, freshCart) == Reply(Err(CartItemNotFound), db)
  {
  }

  /** Lowering a line's quantity deletes the cart's whole hold on the product
      (not just the difference) and overwrites the line. */
  lemma UpdateCartItemDecreaseDropsHold(db: Db, user: UserId, c: Cart, id: LineId, q: int, now: int, freshCart: CartId, x: CartItem)
    requires FindCart(db.carts, user) == Some(c)
    requires FindItem(Items(db.lines, db.products, c.id), id) == Some(x)
    requires q < x.quantity
    ensures var r := UpdateCartItem(db, user, id, q, now, freshCart);
      && r.result.Ok?
      && Inventory.FindHold(r.db.reservations, x.product, c.id).None?
      && r.db.lines == UpdateItem(db, c.id, id, q).db.lines
  {
    ListedLineExists(db, c, id, x);
  }

  /** An unchanged quantity touches no reservation. */
  lemma UpdateCartItemSameQuantity(db: Db, user: UserId, c: Cart, id: LineId, now: int, freshCart: CartId, x: CartItem)
    requires FindCart(db.carts, user) == Some(c)
    requires FindItem(Items(db.lines, db.products, c.id), id) == Some(x)
    ensures var r := UpdateCartItem(db, user, id, x.quantity, now, freshCart);
      r.result.Ok? && r.db == UpdateItem(db, c.id, id, x.quantity).db
  {
    ListedLineExists(db, c, id, x);
  }

  /** Raising a line's quantity checks and reserves only the difference; when the
      check fails nothing changes, and once it passes the reservation and the
      update both succeed. */
  lemma UpdateCartItemIncrease(db: Db, user: UserId, c: Cart, id: LineId, q: int, now: int, freshCart: CartId, x: CartItem)
    requires FindCart(db.carts, user) == Some(c)
    requires FindItem(Items(db.lines, db.products, c.id), id) == Some(x)
    requires q > x.quantity
    ensures var r := UpdateCartItem(db, user, id, q, now, freshCart);
      var res := Catalog.ReserveStock(db, x.product, c.id, q - x.quantity, now);
      && (!Catalog.CheckStock(db, x.product, q - x.quantity, now).value ==> r == Reply(Err(InsufficientForAdditional), db))
      && (r.result.Ok? <==> Catalog.CheckStock(db, x.product, q - x.quantity, now).value && res.result.Ok?)
      && (Catalog.CheckStock(db, x.product, q - x.quantity, now).value ==> r.result.Ok?)
      && (r.result.Ok? ==> r.db == UpdateItem(res.db, c.id, id, q).db)
      && (r.result.Err? ==> r.db == db)
  {
    if Catalog.CheckStock(db, x.product, q - x.quantity, now).value {
      IncreaseChecked(db, user, c, id, q, now, freshCart, x);
    } else {
      IncreaseRefused(db, user, c, id, q, now, freshCart, x);
    }
  }

  lemma IncreaseRefused(db: Db, user: UserId, c: Cart, id: LineId, q: int, now: int, freshCart: CartId, x: CartItem)
    requires FindCart(db.carts, user) == Some(c)
    requires FindItem(Items(db.lines, db.products, c.id), id) == Some(x)
    requires q > x.quantity && !Catalog.CheckStock(db, x.product, q - x.quantity, now).value
    ensures UpdateCartItem(db, user, id, q, now, freshCart) == Reply(Err(InsufficientForAdditional), db)
  {
    var g := GetByUserID(db, user, freshCart);
    assert g.db == db && g.result.value.cart == c;
  }

  /** Once the stock check of the difference passes, the reservation of the
      difference succeeds, and so does the whole update. */
  lemma IncreaseChecked(db: Db, user: UserId, c: Cart, id: LineId, q: int, now: int, freshCart: CartId, x: CartItem)
    requires FindCart(db.carts, user) == Some(c)
    requires FindItem(Items(db.lines, db.products, c.id), id) == Some(x)
    requires q > x.quantity && Catalog.CheckStock(db, x.product, q - x.quantity, now).value
    ensures var r := UpdateCartItem(db, user, id, q, now, freshCart);
      var res := Catalog.ReserveStock(db, x.product, c.id, q - x.quantity, now);
      && res.result.Ok?
      && r.result.Ok?
      && r.db == UpdateItem(res.db, c.id, id, q).db
  {
    Catalog.CheckedReservationSucceeds(db, x.product, c.id, q - x.quantity, now);
    IncreaseReserved(db, c, id, q, now, x);
    IncreaseUnfold(db, user, c, id, q, now, freshCart, x);
  }

  lemma IncreaseUnfold(db: Db, user: UserId, c: Cart, id: LineId, q: int, now: int, freshCart: CartId, x: CartItem)
    requires FindCart(db.carts, user) == Some(c)
    requires FindItem(Items(db.lines, db.products, c.id), id) == Some(x)
    requires q > x.quantity && Catalog.CheckStock(db, x.product, q - x.quantity, now).value
    requires Catalog.ReserveStock(db, x.product, c.id, q - x.quantity, now).result.Ok?
    ensures var res := Catalog.ReserveStock(db, x.product, c.id, q - x.quantity, now);
      var upd := UpdateItem(res.db, c.id, id, q);
      UpdateCartItem(db, user, id, q, now, freshCart) ==
        if upd.result.Err? then Reply(Err(upd.result.error), upd.db) else Reply(GetCartWithItems(upd.db, c.id), upd.db)
  {
    UpdateUnfold(db, user, c, id, q, now, freshCart, x);
  }

  /** After a successful reservation of the difference the line update and the
      listing both succeed. */
  lemma IncreaseReserved(db: Db, c: Cart, id: LineId, q: int, now: int, x: CartItem)
    requires c in db.carts
    requires FindItem(Items(db.lines, db.products, c.id), id) == Some(x)
    requires Catalog.ReserveStock(db, x.product, c.id, q - x.quantity, now).result.Ok?
    ensures var res := Catalog.ReserveStock(db, x.product, c.id, q - x.quantity, now);
      var upd := UpdateItem(res.db, c.id, id, q);
      upd.result.Ok? && GetCartWithItems(upd.db, c.id).Ok?
  {
    ListedLineExists(db, c, id, x);
    var res := Catalog.ReserveStock(db, x.product, c.id, q - x.quantity, now);
    assert res.db.lines == db.lines && res.db.carts == db.carts;
    var i :| 0 <= i < |db.carts| && db.carts[i] == c;
    assert CartIdUsed(UpdateItem(res.db, c.id, id, q).db.carts, c.id);
  }

  /** UpdateCartItem on a listed line of an existing cart, unfolded: adjust the
      hold, then overwrite the line, then list the cart. */
  lemma UpdateUnfold(db: Db, user: UserId, c: Cart, id: LineId, q: int, now: int, freshCart: CartId, x: CartItem)
    requires FindCart(db.carts, user) == Some(c)
    requires FindItem(Items(db.lines, db.products, c.id), id) == Some(x)
    ensures x.product in db.products
    ensures var held := AdjustHold(db, c.id, x, q, now);
      var upd := UpdateItem(held.db, c.id, id, q);
      UpdateCartItem(db, user, id, q, now, freshCart) ==
        if held.result.Err? then Reply(Err(held.result.error), held.db)
        else if upd.result.Err? then Reply(Err(upd.result.error), upd.db)
        else Reply(GetCartWithItems(upd.db, c.id), upd.db)
  {
    var g := GetByUserID(db, user, freshCart);
    assert g == Reply(Ok(CartView(c, Items(db.lines, db.products, c.id))), db);
  }

  /** RemoveFromCart: release the (product, cart) hold, then delete the line. */
  function RemoveFromCart(db: Db, user: UserId, id: LineId, freshCart: CartId): (r: Reply<CartView>)
    ensures r.db.products == db.products && r.db.orders == db.orders
  {
    var g := GetByUserID(db, user, freshCart);
    if g.result.Err? then Reply(Err(g.result.error), g.db)
    else
      var cart := g.result.value.cart;
      match FindItem(g.result.value.items, id)
      case None => Reply(Err(CartItemNotFound), g.db)
      case Some(item) =>
        var rel := Catalog.ReleaseStockReservation(g.db, item.product, cart.id);
        var rem := RemoveItem(rel.db, cart.id, id);
        if rem.result.Err? then Reply(Err(rem.result.error), rem.db)
        else Reply(GetCartWithItems(rem.db, cart.id), rem.db)
  }

  lemma RemoveFromCartEffects(db: Db, user: UserId, c: Cart, id: LineId, freshCart: CartId)
    requires FindCart(db.carts, user) == Some(c)
    ensures var r := RemoveFromCart(db, user, id, freshCart);
      var item := FindItem(Items(db.lines, db.products, c.id), id);
      && (item.None? ==> r == Reply(Err(CartItemNotFound), db))
      && (item.Some? ==>
            && r.result.Ok?
            && Inventory.FindHold(r.db.reservations, item.value.product, c.id).None?
            && r.db.lines == DropLine(db.lines, c.id, id))
  {
    var items := Items(db.lines, db.products, c.id);
    var item := FindItem(items, id);
    if item.Some? {
      var x := item.value;
      assert CartLine(x.id, c.id, x.product, x.quantity) in db.lines;
      var k :| 0 <= k < |db.lines| && db.lines[k] == CartLine(x.id, c.id, x.product, x.quantity);
      assert IsLine(db.lines[k], c.id, id);
    }
  }

  predicate ProductListed(items: seq<CartItem>, p: ProductId)
  {
    exists i :: 0 <= i < |items| && items[i].product == p
  }

  /** Releases the cart's hold on every listed item's product (release errors are ignored). */
  function ReleaseAll(db: Db, items: seq<CartItem>, cart: CartId): (db': Db)
    decreases |items|
    ensures db' == db.(reservations := db'.reservations)
    ensures forall x :: x in db'.reservations <==>
      x in db.reservations && !(x.cart == cart && ProductListed(items, x.product))
  {
    if |items| == 0 then db
    else
      var rest := ReleaseAll(Catalog.ReleaseStockReservation(db, items[0].product, cart).db, items[1..], cart);
      assert forall p :: ProductListed(items, p) <==> p == items[0].product || ProductListed(items[1..], p) by {
        forall p ensures ProductListed(items, p) <==> p == items[0].product || ProductListed(items[1..], p) {
          if ProductListed(items[1..], p) {
            var i :| 0 <= i < |items[1..]| && items[1..][i].product == p;
            assert items[i + 1].product == p;
          }
          if ProductListed(items, p) && p != items[0].product {
            var i :| 0 <= i < |items| && items[i].product == p;
            assert items[1..][i - 1].product == p;
          }
        }
      }
      rest
  }

  /** ClearCart: release every listed line's hold, then delete all of the cart's lines. */
  function ClearCart(db: Db, user: UserId, freshCart: CartId): (r: Reply<()>)
    ensures r.db.products == db.products && r.db.orders == db.orders
    ensures FindCart(db.carts, user).Some? ==>
      var c := FindCart(db.carts, user).value;
      && r.result.Ok?
      && r.db.lines == DropCart(db.lines, c.id)
      && (forall x :: x in r.db.reservations <==>
            x in db.reservations && !(x.cart == c.id && ProductListed(Items(db.lines, db.products, c.id), x.product)))
  {
    var g := GetByUserID(db, user, freshCart);
    if g.result.Err? then Reply(Err(g.result.error), g.db)
    else
      var cart := g.result.value.cart;
      var released := ReleaseAll(g.db, g.result.value.items, cart.id);
      CartRepo.ClearCart(released, cart.id)
  }

  /** The message for a line whose product's available stock is short: the
      product's name and its ledger stock. */
  function ProblemText(item: CartItem): string
  {
    "Insufficient stock for " + item.row.name + ". Available: " + DecimalText(item.row.stock)
  }

  predicate IsDigit(c: char) { '0' as int <= c as int <= '9' as int }

  /** Non-empty digits with no leading zero unless the text is "0". */
  predicate Canonical(s: string)
  {
    |s| >= 1 && (forall i :: 0 <= i < |s| ==> IsDigit(s[i])) && (|s| > 1 ==> s[0] != '0')
  }

  /** The number a digit string denotes. */
  function Value(s: string): nat
    requires forall i :: 0 <= i < |s| ==> IsDigit(s[i])
  {
    if |s| == 0 then 0
    else
      assert IsDigit(s[|s| - 1]);
      10 * Value(s[..|s| - 1]) + (s[|s| - 1] as int - '0' as int)
  }

  /** Go's decimal formatting of a natural number. */
  function DigitsText(n: nat): (s: string)
    ensures Canonical(s)
    ensures n < 10 <==> |s| == 1
    decreases n
  {
    var d := ['0' + (n % 10) as char];
    if n < 10 then d else DigitsText(n / 10) + d
  }

  /** The digits read back to the number they were written from. */
  lemma {:induction false} DigitsTextValue(n: nat)
    ensures Value(DigitsText(n)) == n
  {
    var s := DigitsText(n);
    if n >= 10 {
      DigitsTextValue(n / 10);
      assert s[..|s| - 1] == DigitsText(n / 10);
    }
  }

  /** Decimal text of an integer, with a leading '-' when negative. */
  function DecimalText(n: int): (s: string)
    ensures |s| >= 1 && (s[0] == '-' <==> n < 0)
    ensures n < 0 ==> Canonical(s[1..])
    ensures n >= 0 ==> Canonical(s)
  {
    if n < 0 then "-" + DigitsText(-n) else DigitsText(n)
  }

  /** The number a decimal text denotes, sign included. */
  function SignedValue(s: string): int
    requires |s| >= 1
    requires s[0] == '-' ==> forall i :: 1 <= i < |s| ==> IsDigit(s[i])
    requires s[0] != '-' ==> forall i :: 0 <= i < |s| ==> IsDigit(s[i])
  {
    if s[0] == '-' then 0 - Value(s[1..]) as int else Value(s)
  }

  /** Decimal formatting is injective: the text reads back to the integer. */
  lemma DecimalTextValue(n: int)
    ensures SignedValue(DecimalText(n)) == n
  {
    if n < 0 {
      DigitsTextValue(-n);
      assert DecimalText(n)[1..] == DigitsText(-n);
    } else {
      DigitsTextValue(n);
    }
  }

  /** Whether a listed item passes the stock check: available stock covers its quantity. */
  predicate Covered(db: Db, item: CartItem, now: int)
  {
    item.product in db.products && Inventory.AvailableStock(db, item.product, now).value >= item.quantity
  }

  /** One message per failing item, in listing order. */
  function Problems(db: Db, items: seq<CartItem>, now: int): (ps: seq<string>)
    requires forall i :: 0 <= i < |items| ==> items[i].product in db.products
    ensures |ps| == 0 <==> forall i :: 0 <= i < |items| ==> Covered(db, items[i], now)
    ensures |ps| <= |items|
  {
    if |items| == 0 then []
    else
      var head := if Catalog.CheckStock(db, items[0].product, items[0].quantity, now).value then [] else [ProblemText(items[0])];
      var rest := Problems(db, items[1..], now);
      assert (forall i :: 0 <= i < |items| ==> Covered(db, items[i], now)) <==>
             Covered(db, items[0], now) && (forall i :: 0 <= i < |items[1..]| ==> Covered(db, items[1..][i], now)) by {
        if forall i :: 0 <= i < |items[1..]| ==> Covered(db, items[1..][i], now) {
          forall i | 1 <= i < |items| ensures Covered(db, items[i], now) {
            assert items[1..][i - 1] == items[i];
          }
        }
      }
      head + rest
  }

  /** Per item: no mark when it passes the stock check, its message when it fails. */
  function Marks(db: Db, items: seq<CartItem>, now: int): (ms: seq<Option<string>>)
    ensures |ms| == |items|
  {
    seq(|items|, i requires 0 <= i < |items| => if Covered(db, items[i], now) then None else Some(ProblemText(items[i])))
  }

  /** `ps` lists the marked messages in order: `idx` gives, for each message, the
      position of its mark; the positions increase and cover every mark. */
  predicate ListsMarked(marks: seq<Option<string>>, ps: seq<string>, idx: seq<int>)
  {
    && |idx| == |ps|
    && (forall k :: 0 <= k < |idx| ==> 0 <= idx[k] < |marks| && marks[idx[k]] == Some(ps[k]))
    && (forall k, l :: 0 <= k < l < |idx| ==> idx[k] < idx[l])
    && (forall i :: 0 <= i < |marks| && marks[i].Some? ==> i in idx)
  }

  /** `ps` holds one message per item failing the stock check, in the items' order. */
  predicate ListsFailing(db: Db, items: seq<CartItem>, now: int, ps: seq<string>, idx: seq<int>)
  {
    ListsMarked(Marks(db, items, now), ps, idx)
  }

  /** Problems holds exactly one message per failing item, in the items' order. */
  lemma {:induction false} ProblemsListFailing(db: Db, items: seq<CartItem>, now: int)
    requires forall i :: 0 <= i < |items| ==> items[i].product in db.products
    ensures exists idx :: ListsFailing(db, items, now, Problems(db, items, now), idx)
  {
    var marks := Marks(db, items, now);
    if |items| == 0 {
      assert Problems(db, items, now) == [];
      assert ListsFailing(db, items, now, [], []);
    } else {
      var rest := items[1..];
      ProblemsListFailing(db, rest, now);
      var idx' :| ListsFailing(db, rest, now, Problems(db, rest, now), idx');
      assert marks[1..] == Marks(db, rest, now) by {
        forall i | 0 <= i < |rest| ensures marks[1..][i] == Marks(db, rest, now)[i] {
          assert rest[i] == items[i + 1];
        }
      }
      var idx := ListsMarkedCons(marks, Problems(db, rest, now), idx');
      assert Problems(db, items, now) ==
        (if marks[0].Some? then [marks[0].value] else []) + Problems(db, rest, now);
      assert ListsFailing(db, items, now, Problems(db, items, now), idx);
    }
  }

  /** The step of the above: a listing for the tail, shifted by one, with the
      head's message in front when the head is marked. */
  lemma ListsMarkedCons(marks: seq<Option<string>>, ps: seq<string>, idx': seq<int>) returns (idx: seq<int>)
    requires |marks| > 0 && ListsMarked(marks[1..], ps, idx')
    ensures ListsMarked(marks, (if marks[0].Some? then [marks[0].value] else []) + ps, idx)
  {
    idx := Shift(idx', marks[0].Some?);
    ConsMessages(marks, ps, idx', idx);
    ConsIncreasing(idx', marks[0].Some?, idx);
    ConsCoversMarks(marks, ps, idx', idx);
  }

  /** The tail's positions moved up by one, behind a 0 when the head counts. */
  function Shift(idx': seq<int>, head: bool): (idx: seq<int>)
    ensures |idx| == |idx'| + (if head then 1 else 0)
    ensures head ==> idx[0] == 0
    ensures forall j :: 0 <= j < |idx'| ==> idx[j + (if head then 1 else 0)] == idx'[j] + 1
  {
    (if head then [0] else []) + seq(|idx'|, k requires 0 <= k < |idx'| => idx'[k] + 1)
  }

  lemma ConsMessages(marks: seq<Option<string>>, ps: seq<string>, idx': seq<int>, idx: seq<int>)
    requires |marks| > 0 && ListsMarked(marks[1..], ps, idx')
    requires idx == Shift(idx', marks[0].Some?)
    ensures var ps2 := (if marks[0].Some? then [marks[0].value] else []) + ps;
      |idx| == |ps2| && forall k :: 0 <= k < |idx| ==> 0 <= idx[k] < |marks| && marks[idx[k]] == Some(ps2[k])
  {
    var ps2 := (if marks[0].Some? then [marks[0].value] else []) + ps;
    forall k | 0 <= k < |idx| ensures 0 <= idx[k] < |marks| && marks[idx[k]] == Some(ps2[k]) {
      ConsMessageAt(marks, ps, idx', k);
    }
  }

  lemma ConsMessageAt(marks: seq<Option<string>>, ps: seq<string>, idx': seq<int>, k: int)
    requires |marks| > 0 && ListsMarked(marks[1..], ps, idx')
    requires 0 <= k < |Shift(idx', marks[0].Some?)|
    ensures var idx := Shift(idx', marks[0].Some?);
      var ps2 := (if marks[0].Some? then [marks[0].value] else []) + ps;
      0 <= idx[k] < |marks| && marks[idx[k]] == Some(ps2[k])
  {
    var head := marks[0].Some?;
    if !(head && k == 0) {
      var j := if head then k - 1 else k;
      var idx := Shift(idx', head);
      var ps2 := (if head then [marks[0].value] else []) + ps;
      assert idx[k] == idx'[j] + 1 && ps2[k] == ps[j];
      assert marks[1..][idx'[j]] == Some(ps[j]);
    }
  }

  lemma ConsIncreasing(idx': seq<int>, head: bool, idx: seq<int>)
    requires forall k :: 0 <= k < |idx'| ==> idx'[k] >= 0
    requires forall k, l :: 0 <= k < l < |idx'| ==> idx'[k] < idx'[l]
    requires idx == Shift(idx', head)
    ensures forall k, l :: 0 <= k < l < |idx| ==> idx[k] < idx[l]
  {
    var o := if head then 1 else 0;
    forall k, l | 0 <= k < l < |idx| ensures idx[k] < idx[l] {
      assert idx[l] == idx'[l - o] + 1;
      if !(head && k == 0) {
        assert idx[k] == idx'[k - o] + 1;
      }
    }
  }

  lemma ConsCoversMarks(marks: seq<Option<string>>, ps: seq<string>, idx': seq<int>, idx: seq<int>)
    requires |marks| > 0 && ListsMarked(marks[1..], ps, idx')
    requires idx == Shift(idx', marks[0].Some?)
    ensures forall i :: 0 <= i < |marks| && marks[i].Some? ==> i in idx
  {
    var o := if marks[0].Some? then 1 else 0;
    forall i | 0 <= i < |marks| && marks[i].Some? ensures i in idx {
      if i == 0 {
        assert idx[0] == 0;
      } else {
        assert marks[1..][i - 1].Some?;
        var j := ShiftedPosition(marks[1..], ps, idx', i - 1);
        assert idx[j + o] == i;
      }
    }
  }

  /** Where a marked tail position sits in the tail's listing. */
  lemma ShiftedPosition(tail: seq<Option<string>>, ps: seq<string>, idx': seq<int>, i: int) returns (j: int)
    requires ListsMarked(tail, ps, idx')
    requires 0 <= i < |tail| && tail[i].Some?
    ensures 0 <= j < |idx'| && idx'[j] == i
  {
    assert i in idx';
    j :| 0 <= j < |idx'| && idx'[j] == i;
  }

  datatype Validation = Validation(valid: bool, problems: seq<string>)

  /** ValidateCart: valid iff every listed line passes the stock check, with one
      message per failing line; an absent cart is a lookup error. */
  function ValidateCart(db: Db, cart: CartId, now: int): (r: Result<Validation>)
    ensures r.Err? <==> !CartIdUsed(db.carts, cart)
    ensures r.Ok? ==>
      var items := GetCartWithItems(db, cart).value.items;
      && (r.value.valid <==> forall i :: 0 <= i < |items| ==> Covered(db, items[i], now))
      && (r.value.valid <==> |r.value.problems| == 0)
      && |r.value.problems| <= |items|
      && exists idx :: ListsFailing(db, items, now, r.value.problems, idx)
  {
    match GetCartWithItems(db, cart)
    case Err(e) => Err(e)
    case Ok(view) =>
      assert forall i :: 0 <= i < |view.items| ==> view.items[i] in view.items;
      var ps := Problems(db, view.items, now);
      ProblemsListFailing(db, view.items, now);
      Ok(Validation(|ps| == 0, ps))
  }

  /** Because available stock already subtracts this cart's own hold, a cart whose
      single line is held by itself and by nobody else is rejected unless the
      stock covers the line twice: stock 2, a line of 2 and its own hold of 2
      fail validation. */
  lemma ValidateCartCountsOwnHold()
    ensures var db := Db(map[1 := Product("S", "Lamp", "", 500, 2, "", "")],
                         [Reservation(1, 3, 2, 1000)], [Cart(3, 9)], [CartLine(4, 3, 1, 2)],
                         map[], [], []);
      && Inventory.AvailableStockExcludingCart(db, 1, 3, 100) == Ok(2)
      && ValidateCart(db, 3, 100) == Ok(Validation(false, ["Insufficient stock for Lamp. Available: 2"]))
  {
    var db := Db(map[1 := Product("S", "Lamp", "", 500, 2, "", "")],
                 [Reservation(1, 3, 2, 1000)], [Cart(3, 9)], [CartLine(4, 3, 1, 2)],
                 map[], [], []);
    var item := CartItem(4, 1, 2, db.products[1]);
    assert db.lines[1..] == [];
    assert Items(db.lines, db.products, 3) == [item];
    assert Inventory.LiveHeld(db.reservations, 1, 100) == 2;
    assert Inventory.AvailableStock(db, 1, 100) == Ok(0);
    assert !Catalog.CheckStock(db, 1, 2, 100).value;
    assert DecimalText(2) == "2";
    assert ProblemText(item) == "Insufficient stock for Lamp. Available: 2";
    assert [item][1..] == [];
    assert Problems(db, [item], 100) == [ProblemText(item)];
  }
}
