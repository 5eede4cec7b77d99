/** Stock movements driven by an order's items: the per-item deduction made while
    an order is placed, and the per-item restoration made when it is cancelled or
    its return approved. Both apply the floor-checked ledger update item by item. */
module OrderStock {
  import opened Common
  import opened OrderModel
  import opened Store
  import Inventory

  /** Total quantity of product `p` over the items. */
  function QtyOf(items: seq<OrderItem>, p: ProductId): int
  {
    if |items| == 0 then 0
    else (if items[0].product == p then items[0].quantity else 0) + QtyOf(items[1..], p)
  }

  predicate NonNegativeQuantities(items: seq<OrderItem>)
  {
    forall i :: 0 <= i < |items| ==> items[i].quantity >= 0
  }

  predicate AllPresent(items: seq<OrderItem>, products: map<ProductId, Product>)
  {
    forall i :: 0 <= i < |items| ==> items[i].product in products
  }

  lemma {:induction false} QtyOfNonNegative(items: seq<OrderItem>, p: ProductId)
    requires NonNegativeQuantities(items)
    ensures QtyOf(items, p) >= 0
  {
    if |items| > 0 {
      QtyOfNonNegative(items[1..], p);
    }
  }

  /** The products are unchanged except for stock, which moved by `sign` times each
      product's item quantity. */
  predicate Moved(before: map<ProductId, Product>, after: map<ProductId, Product>, items: seq<OrderItem>, sign: int)
  {
    && after.Keys == before.Keys
    && forall p :: p in before ==> after[p] == before[p].(stock := before[p].stock + sign * QtyOf(items, p))
  }

  /** The deduction loop inside the order transaction: each item's quantity is
      taken from its product in turn, and the first update the floor check refuses
      fails the whole deduction (the transaction is then rolled back). */
  function DeductAll(db: Db, items: seq<OrderItem>): (r: Result<Db>)
    ensures r.Ok? ==> r.value == db.(products := r.value.products)
    ensures r.Err? ==> r.error.StockUpdateFailed? && r.error.product in ProductsOf(items)
    decreases |items|
  {
    if |items| == 0 then Ok(db)
    else
      var u := Inventory.UpdateStock(db, items[0].product, -items[0].quantity);
      if u.result.Err? then Err(StockUpdateFailed(items[0].product))
      else DeductAll(u.db, items[1..])
  }

  /** A successful deduction found every product and took exactly each product's
      ordered total from its stock, changing nothing else in the catalogue. */
  lemma {:induction false} DeductAllMoves(db: Db, items: seq<OrderItem>)
    requires DeductAll(db, items).Ok?
    ensures AllPresent(items, db.products) && Moved(db.products, DeductAll(db, items).value.products, items, -1)
    decreases |items|
  {
    if |items| > 0 {
      var u := Inventory.UpdateStock(db, items[0].product, -items[0].quantity);
      DeductAllStep(db, items);
      DeductAllMoves(u.db, items[1..]);
      forall i | 0 <= i < |items| ensures items[i].product in db.products {
        if i > 0 { assert items[1..][i - 1] == items[i]; }
      }
    }
  }

  lemma DeductAllStep(db: Db, items: seq<OrderItem>)
    requires |items| > 0
    ensures var u := Inventory.UpdateStock(db, items[0].product, -items[0].quantity);
      DeductAll(db, items) == if u.result.Err? then Err(StockUpdateFailed(items[0].product)) else DeductAll(u.db, items[1..])
  {
  }

  /** Product `p` exists and its stock covers its total quantity over the items. */
  predicate Covered(products: map<ProductId, Product>, items: seq<OrderItem>, p: ProductId)
  {
    p in products && products[p].stock - QtyOf(items, p) >= 0
  }

  /** The products the items name. */
  function ProductsOf(items: seq<OrderItem>): (ps: set<ProductId>)
    ensures forall p :: p in ps <==> exists i :: 0 <= i < |items| && items[i].product == p
  {
    if |items| == 0 then {}
    else
      var rest := ProductsOf(items[1..]);
      assert forall p :: p in rest <==> exists i :: 1 <= i < |items| && items[i].product == p by {
        forall p ensures p in rest <==> exists i :: 1 <= i < |items| && items[i].product == p {
          if p in rest {
            var i :| 0 <= i < |items[1..]| && items[1..][i].product == p;
            assert items[i + 1].product == p;
          }
          if exists i :: 1 <= i < |items| && items[i].product == p {
            var i :| 1 <= i < |items| && items[i].product == p;
            assert items[1..][i - 1].product == p;
          }
        }
      }
      {items[0].product} + rest
  }

  predicate AllCovered(products: map<ProductId, Product>, items: seq<OrderItem>)
  {
    forall p :: p in ProductsOf(items) ==> Covered(products, items, p)
  }

  lemma {:induction false} QtyOfAbsent(items: seq<OrderItem>, p: ProductId)
    requires p !in ProductsOf(items)
    ensures QtyOf(items, p) == 0
  {
    if |items| > 0 {
      QtyOfAbsent(items[1..], p);
    }
  }

  /** One accepted deduction step moves coverage from the whole list to the rest. */
  lemma StepCovered(db: Db, items: seq<OrderItem>)
    requires |items| > 0
    requires Inventory.UpdateStock(db, items[0].product, -items[0].quantity).result.Ok?
    ensures var u := Inventory.UpdateStock(db, items[0].product, -items[0].quantity);
      forall p :: Covered(u.db.products, items[1..], p) <==> Covered(db.products, items, p)
  {
  }

  /** With non-negative quantities the deduction succeeds exactly when every ordered
      product exists and its stock covers its total ordered quantity. */
  lemma {:induction false} DeductAllOkIff(db: Db, items: seq<OrderItem>)
    requires NonNegativeQuantities(items)
    ensures DeductAll(db, items).Ok? <==> AllCovered(db.products, items)
    decreases |items|
  {
    if |items| > 0 {
      var x := items[0];
      var rest := items[1..];
      assert NonNegativeQuantities(rest) by {
        forall i | 0 <= i < |rest| ensures rest[i].quantity >= 0 {
          assert rest[i] == items[i + 1];
        }
      }
      var u := Inventory.UpdateStock(db, x.product, -x.quantity);
      DeductAllStep(db, items);
      QtyOfNonNegative(rest, x.product);
      assert ProductsOf(items) == {x.product} + ProductsOf(rest);
      if u.result.Ok? {
        DeductAllOkIff(u.db, rest);
        StepCovered(db, items);
        if x.product !in ProductsOf(rest) {
          QtyOfAbsent(rest, x.product);
        }
      }
    }
  }

  /** The restoration loop of a cancellation or approved return: each item's
      quantity is added back to its product in turn; there is no transaction, so
      a failure stops the loop and keeps the restorations already made. */
  function RestoreAll(db: Db, items: seq<OrderItem>): (r: Reply<()>)
    ensures r.db == db.(products := r.db.products)
    ensures r.result.Err? ==> r.result.error.StockUpdateFailed? && r.result.error.product in ProductsOf(items)
    decreases |items|
  {
    if |items| == 0 then Reply(Ok(()), db)
    else
      var u := Inventory.UpdateStock(db, items[0].product, items[0].quantity);
      if u.result.Err? then Reply(Err(StockUpdateFailed(items[0].product)), db)
      else RestoreAll(u.db, items[1..])
  }

  lemma RestoreAllStep(db: Db, items: seq<OrderItem>)
    requires |items| > 0
    ensures var u := Inventory.UpdateStock(db, items[0].product, items[0].quantity);
      RestoreAll(db, items) == if u.result.Err? then Reply(Err(StockUpdateFailed(items[0].product)), db)
                               else RestoreAll(u.db, items[1..])
  {
  }

  /** A successful restoration found every product and added back exactly each
      product's total, changing nothing else in the catalogue. */
  lemma {:induction false} RestoreAllMoves(db: Db, items: seq<OrderItem>)
    requires RestoreAll(db, items).result.Ok?
    ensures AllPresent(items, db.products) && Moved(db.products, RestoreAll(db, items).db.products, items, 1)
    decreases |items|
  {
    if |items| > 0 {
      var u := Inventory.UpdateStock(db, items[0].product, items[0].quantity);
      RestoreAllStep(db, items);
      RestoreAllMoves(u.db, items[1..]);
      forall i | 0 <= i < |items| ensures items[i].product in db.products {
        if i > 0 { assert items[1..][i - 1] == items[i]; }
      }
    }
  }

  /** Adding back non-negative quantities to products that exist and whose stock is
      not negative never trips the floor check. */
  lemma {:induction false} RestoreAllSucceeds(db: Db, items: seq<OrderItem>)
    requires NonNegativeQuantities(items) && AllPresent(items, db.products)
    requires forall i :: 0 <= i < |items| ==> db.products[items[i].product].stock >= 0
    ensures RestoreAll(db, items).result.Ok?
    decreases |items|
  {
    if |items| > 0 {
      var u := Inventory.UpdateStock(db, items[0].product, items[0].quantity);
      var rest := items[1..];
      forall i | 0 <= i < |rest| ensures rest[i].quantity >= 0 && rest[i].product in u.db.products
        && u.db.products[rest[i].product].stock >= 0 {
        assert rest[i] == items[i + 1];
      }
      RestoreAllStep(db, items);
      RestoreAllSucceeds(u.db, rest);
    }
  }

  /** Restoring what a successful deduction took gives back the original catalogue. */
  lemma DeductThenRestoreAll(db: Db, items: seq<OrderItem>)
    requires NonNegativeQuantities(items)
    requires DeductAll(db, items).Ok?
    ensures RestoreAll(DeductAll(db, items).value, items).result.Ok?
    ensures RestoreAll(DeductAll(db, items).value, items).db == db
  {
    var d := DeductAll(db, items).value;
    DeductAllOkIff(db, items);
    DeductAllMoves(db, items);
    assert Moved(db.products, d.products, items, -1);
    forall i | 0 <= i < |items| ensures d.products[items[i].product].stock >= 0 {
      var p := items[i].product;
      assert p in ProductsOf(items);
      assert d.products[p].stock == db.products[p].stock - QtyOf(items, p);
    }
    RestoreAllSucceeds(d, items);
    var r := RestoreAll(d, items);
    RestoreAllMoves(d, items);
    assert Moved(d.products, r.db.products, items, 1);
    assert r.db.products == db.products by {
      forall p | p in db.products ensures r.db.products[p] == db.products[p] {
        assert r.db.products[p] == d.products[p].(stock := d.products[p].stock + QtyOf(items, p));
      }
      assert r.db.products.Keys == db.products.Keys;
    }
    assert d == db.(products := d.products);
    assert r.db == d.(products := r.db.products);
    assert r.db == db;
  }
}
