/** Page/limit normalisation shared by the list operations of the product, order
    and return services. */
module Paging {

  /** A page number below 1 becomes 1. */
  function ClampPage(page: int): (r: int)
    ensures r >= 1
    ensures page >= 1 ==> r == page
    ensures page < 1 ==> r == 1
  {
    if page < 1 then 1 else page
  }

  /** A limit outside [1, maxLimit] becomes 10; product lists use 100 as the bound,
      order and return lists 50. */
  function ClampLimit(limit: int, maxLimit: int): (r: int)
    requires maxLimit >= 10
    ensures 1 <= r <= maxLimit
    ensures 1 <= limit <= maxLimit ==> r == limit
    ensures limit < 1 || limit > maxLimit ==> r == 10
  {
    if limit < 1 || limit > maxLimit then 10 else limit
  }

  /** The (page, limit) window of a paged list whose limit is bounded by `maxLimit`. */
  function Window(page: int, limit: int, maxLimit: int): (w: (int, int))
    requires maxLimit >= 10
    ensures w.0 >= 1 && 1 <= w.1 <= maxLimit
    ensures page >= 1 ==> w.0 == page
    ensures page < 1 ==> w.0 == 1
    ensures 1 <= limit <= maxLimit ==> w.1 == limit
    ensures (limit < 1 || limit > maxLimit) ==> w.1 == 10
  {
    (ClampPage(page), ClampLimit(limit, maxLimit))
  }

  /** Normalising an already normalised window changes nothing. */
  lemma WindowIdempotent(page: int, limit: int, maxLimit: int)
    requires maxLimit >= 10
    ensures var w := Window(page, limit, maxLimit); Window(w.0, w.1, maxLimit) == w
  {
  }

  /** Product lists (and the top-products and recent-orders limits) are bounded
      by 100, order and return lists by 50. */
  const ProductListMax := 100
  const RecentListMax := 100
  const OrderListMax := 50
  const ReturnListMax := 50
}

/** The product service: stock checks and reservations with a fixed ten-minute
    lifetime, and the existence guards of the catalogue operations. */
module Catalog {
  import opened Common
  import opened Store
  import Inventory

  /** Holds always expire ten minutes after they are written. */
  const ReservationTtl: int := 10 * Minute

  /** CheckStock: whether the available stock (ledger minus ALL live holds,
      including the caller's own cart) covers `quantity`. */
  function CheckStock(db: Db, p: ProductId, quantity: int, now: int): (r: Result<bool>)
    ensures r.Ok? <==> p in db.products
    ensures r.Ok? ==> (r.value <==> Inventory.AvailableStock(db, p, now).value >= quantity)
  {
    match Inventory.AvailableStock(db, p, now)
    case Ok(available) => Ok(available >= quantity)
    case Err(e) => Err(e)
  }

  /** The caller's own live hold is not excluded: a stock check passes exactly when
      the stock left by the other carts exceeds the request by the caller's own hold. */
  lemma CheckStockCountsOwnHold(db: Db, p: ProductId, c: CartId, quantity: int, now: int)
    requires p in db.products
    ensures CheckStock(db, p, quantity, now).value <==>
      Inventory.AvailableStockExcludingCart(db, p, c, now).value
        - Inventory.LiveHeldBy(db.reservations, p, c, now) >= quantity
  {
    Inventory.ExcludingCartAddsOwnHold(db, p, c, now);
  }

  /** ReserveStock: the repository reservation with expiry now + 10 minutes. */
  function ReserveStock(db: Db, p: ProductId, c: CartId, quantity: int, now: int): (r: Reply<()>)
    ensures r == Inventory.ReserveStock(db, p, c, quantity, now + ReservationTtl, now)
    ensures r.result.Err? ==> r.db == db
    ensures r.result.Ok? ==>
      var k := Inventory.FindHold(r.db.reservations, p, c);
      k.Some? && r.db.reservations[k.value].expiresAt == now + ReservationTtl
  {
    var r := Inventory.ReserveStock(db, p, c, quantity, now + ReservationTtl, now);
    if r.result.Ok? then
      var rs := db.reservations;
      match Inventory.FindHold(rs, p, c)
      case Some(k) =>
        var rs' := r.db.reservations;
        assert rs'[k] == rs[k].(quantity := rs[k].quantity + quantity, expiresAt := now + ReservationTtl);
        r
      case None =>
        var rs' := r.db.reservations;
        assert rs'[|rs|] == Reservation(p, c, quantity, now + ReservationTtl);
        Inventory.FirstKeyOfAppend(rs, Reservation(p, c, quantity, now + ReservationTtl), p, c);
        r
    else r
  }

  /** With every operation running alone, a reservation right after a passing
      stock check of the same quantity always succeeds: the check asks for
      available >= quantity, and the reservation for the same (its own hold added
      to both sides when the cart already has one). */
  lemma CheckedReservationSucceeds(db: Db, p: ProductId, c: CartId, quantity: int, now: int)
    requires CheckStock(db, p, quantity, now).Ok? && CheckStock(db, p, quantity, now).value
    ensures ReserveStock(db, p, c, quantity, now).result.Ok?
  {
  }

  function ReleaseStockReservation(db: Db, p: ProductId, c: CartId): (r: Reply<()>)
    ensures r == Inventory.ReleaseReservation(db, p, c)
    ensures Inventory.FindHold(r.db.reservations, p, c).None?
  {
    Inventory.ReleaseReservation(db, p, c)
  }

  datatype ProductRequest = ProductRequest(sku: string, name: string, description: string, price: int,
                                           stock: int, category: string, imageUrl: string)

  /** CreateProduct: refused when the SKU is already used; otherwise the product is
      stored under the fresh id with the request's fields. */
  function CreateProduct(db: Db, req: ProductRequest, id: ProductId): (r: Reply<Product>)
    ensures Inventory.SkuTaken(db, req.sku) ==> r == Reply(Err(SkuExists), db)
    ensures r.result.Ok? ==>
      && !Inventory.SkuTaken(db, req.sku)
      && id !in db.products
      && r.db.products == db.products[id := r.result.value]
      && r.result.value.sku == req.sku && r.result.value.stock == req.stock && r.result.value.price == req.price
    ensures r.result.Err? ==> r.db == db
  {
    if Inventory.SkuTaken(db, req.sku) then Reply(Err(SkuExists), db)
    else
      var p := Product(req.sku, req.name, req.description, req.price, req.stock, req.category, req.imageUrl);
      var c := Inventory.CreateProductRow(db, id, p);
      if c.result.Ok? then Reply(Ok(p), c.db) else Reply(Err(c.result.error), c.db)
  }

  /** GetByID: the product row whose stock field reports the AVAILABLE stock. */
  function GetProduct(db: Db, id: ProductId, now: int): (r: Result<Product>)
    ensures r.Err? <==> id !in db.products
    ensures r.Err? ==> r.error == ProductNotFound
    ensures r.Ok? ==>
      && r.value == db.products[id].(stock := Inventory.AvailableStock(db, id, now).value)
  {
    if id in db.products then
      Ok(db.products[id].(stock := db.products[id].stock - Inventory.LiveHeld(db.reservations, id, now)))
    else Err(ProductNotFound)
  }

  /** UpdateProduct: "product not found" for an absent id with nothing changed;
      otherwise the row update, answering the re-read product. */
  function UpdateProduct(db: Db, id: ProductId, u: Inventory.ProductUpdate, now: int): (r: Reply<Product>)
    ensures id !in db.products ==> r == Reply(Err(ProductNotFound), db)
    ensures id in db.products ==>
      && r.db == Inventory.UpdateProductRow(db, id, u)
      && r.result == GetProduct(r.db, id, now)
      && r.result.Ok?
  {
    if id !in db.products then Reply(Err(ProductNotFound), db)
    else
      var db' := Inventory.UpdateProductRow(db, id, u);
      Reply(GetProduct(db', id, now), db')
  }

  /** DeleteProduct: "product not found" for an absent id; otherwise only that row goes. */
  function DeleteProduct(db: Db, id: ProductId): (r: Reply<()>)
    ensures id !in db.products ==> r == Reply(Err(ProductNotFound), db)
    ensures id in db.products ==> r.result.Ok? && r.db == db.(products := db.products - {id})
  {
    if id !in db.products then Reply(Err(ProductNotFound), db)
    else Reply(Ok(()), db.(products := db.products - {id}))
  }
  /** No two products share a SKU. */
  predicate UniqueSkus(db: Db)
  {
    forall a, b :: a in db.products && b in db.products && a != b ==> db.products[a].sku != db.products[b].sku
  }

  /** The SKU guard keeps SKUs unique: creation refuses a used SKU, updates never
      write the SKU, deletion only removes rows. */
  lemma ProductWritesKeepUniqueSkus(db: Db, req: ProductRequest, id: ProductId, u: Inventory.ProductUpdate, now: int)
    requires UniqueSkus(db)
    ensures UniqueSkus(CreateProduct(db, req, id).db)
    ensures UniqueSkus(UpdateProduct(db, id, u, now).db)
    ensures UniqueSkus(DeleteProduct(db, id).db)
  {
    var c := CreateProduct(db, req, id);
    if c.result.Ok? {
      forall a | a in c.db.products && a != id ensures c.db.products[a].sku != req.sku {
        assert db.products[a].sku != req.sku;
      }
    }
  }

  /** A created product reads back with the request's fields; its stock is the
      requested stock less any live hold already recorded under the fresh id,
      which is the requested stock when there is none. */
  lemma CreateThenGetProduct(db: Db, req: ProductRequest, id: ProductId, now: int)
    requires CreateProduct(db, req, id).result.Ok?
    ensures var g := GetProduct(CreateProduct(db, req, id).db, id, now);
      var want := Product(req.sku, req.name, req.description, req.price, req.stock, req.category, req.imageUrl);
      && g == Ok(want.(stock := req.stock - Inventory.LiveHeld(db.reservations, id, now)))
      && ((forall i :: 0 <= i < |db.reservations| ==> db.reservations[i].product != id) ==> g == Ok(want))
  {
    if forall i :: 0 <= i < |db.reservations| ==> db.reservations[i].product != id {
      Inventory.NoRowsNoHeld(db.reservations, id, now);
    }
  }

  /** Each supplied field of an update is read back; an omitted field keeps its
      value, except that the stock is rewritten whenever the request's stock is
      not negative. The SKU never changes. */
  lemma UpdateThenGetProduct(db: Db, id: ProductId, u: Inventory.ProductUpdate, now: int)
    requires id in db.products
    ensures var p := db.products[id];
      var v := UpdateProduct(db, id, u, now).result.value;
      && v.sku == p.sku
      && v.name == (if u.name != "" then u.name else p.name)
      && v.description == (if u.description != "" then u.description else p.description)
      && v.price == (if u.price > 0 then u.price else p.price)
      && v.stock == (if u.stock >= 0 then u.stock else p.stock) - Inventory.LiveHeld(db.reservations, id, now)
      && v.category == (if u.category != "" then u.category else p.category)
      && v.imageUrl == (if u.imageUrl != "" then u.imageUrl else p.imageUrl)
  {
  }

  /** A deleted product is no longer found; every other product reads as before. */
  lemma DeleteThenGetProduct(db: Db, id: ProductId, other: ProductId, now: int)
    requires DeleteProduct(db, id).result.Ok?
    ensures GetProduct(DeleteProduct(db, id).db, id, now) == Err(ProductNotFound)
    ensures other != id ==> GetProduct(DeleteProduct(db, id).db, other, now) == GetProduct(db, other, now)
  {
  }
}
