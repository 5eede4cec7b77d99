/** The cart repository: carts (one per user, created lazily) and their lines,
    merged per product on add. */
module CartRepo {
  import opened Common
  import opened Store

  /** A cart line joined with its product row, as the cart view lists it. */
  datatype CartItem = CartItem(id: LineId, product: ProductId, quantity: int, row: Product)

  datatype CartView = CartView(cart: Cart, items: seq<CartItem>)

  predicate MatchesLine(l: CartLine, cart: CartId, product: ProductId) { l.cart == cart && l.product == product }

  /** One line per (cart, product). */
  predicate UniqueLines(lines: seq<CartLine>)
  {
    forall i, j :: 0 <= i < j < |lines| ==> !(lines[i].cart == lines[j].cart && lines[i].product == lines[j].product)
  }

  predicate HasLine(lines: seq<CartLine>, cart: CartId, product: ProductId)
  {
    exists i :: 0 <= i < |lines| && MatchesLine(lines[i], cart, product)
  }

  predicate LineIdUsed(lines: seq<CartLine>, id: LineId)
  {
    exists i :: 0 <= i < |lines| && lines[i].id == id
  }

  predicate CartIdUsed(carts: seq<Cart>, id: CartId)
  {
    exists i :: 0 <= i < |carts| && carts[i].id == id
  }

  /** The first cart of a user. */
  function FindCart(carts: seq<Cart>, user: UserId): (r: Option<Cart>)
    ensures r.None? <==> forall i :: 0 <= i < |carts| ==> carts[i].user != user
    ensures r.Some? ==> r.value in carts && r.value.user == user
  {
    if |carts| == 0 then None
    else if carts[0].user == user then Some(carts[0])
    else FindCart(carts[1..], user)
  }

  /** The first cart with a given id. */
  function CartById(carts: seq<Cart>, id: CartId): (r: Option<Cart>)
    ensures r.None? <==> !CartIdUsed(carts, id)
    ensures r.Some? ==> r.value in carts && r.value.id == id
  {
    if |carts| == 0 then None
    else if carts[0].id == id then Some(carts[0])
    else
      var r := CartById(carts[1..], id);
      assert r.None? ==> forall i :: 1 <= i < |carts| ==> carts[i].id != id by {
        if r.None? {
          forall i | 1 <= i < |carts| ensures carts[i].id != id {
            assert carts[1..][i - 1] == carts[i];
          }
        }
      }
      r
  }

  /** The cart's lines whose product row exists (the join with products),
      newest first. */
  function Items(lines: seq<CartLine>, products: map<ProductId, Product>, cart: CartId): (items: seq<CartItem>)
    ensures |items| <= |lines|
    ensures forall x :: x in items ==> x.product in products && x.row == products[x.product]
    ensures forall x :: x in items ==> CartLine(x.id, cart, x.product, x.quantity) in lines
    ensures forall l :: l in lines && l.cart == cart && l.product in products ==>
      CartItem(l.id, l.product, l.quantity, products[l.product]) in items
  {
    if |lines| == 0 then []
    else
      var l := lines[0];
      var rest := Items(lines[1..], products, cart);
      assert forall m :: m in lines ==> m == l || m in lines[1..];
      rest + (if l.cart == cart && l.product in products then [CartItem(l.id, l.product, l.quantity, products[l.product])] else [])
  }

  /** Create: a new empty cart for the user under a fresh id. */
  function Create(db: Db, user: UserId, id: CartId): (r: Reply<CartView>)
    ensures r.result.Ok? <==> !CartIdUsed(db.carts, id)
    ensures r.result.Ok? ==> r.result.value == CartView(Cart(id, user), []) && r.db == db.(carts := db.carts + [Cart(id, user)])
    ensures r.result.Err? ==> r.db == db
  {
    if CartIdUsed(db.carts, id) then Reply(Err(DuplicateKey), db)
    else Reply(Ok(CartView(Cart(id, user), [])), db.(carts := db.carts + [Cart(id, user)]))
  }

  /** GetCartWithItems: the cart and its visible lines; "no rows" for an absent cart. */
  function GetCartWithItems(db: Db, id: CartId): (r: Result<CartView>)
    ensures r.Err? <==> !CartIdUsed(db.carts, id)
    ensures r.Ok? ==> r.value.cart.id == id && r.value.cart in db.carts
  {
    match CartById(db.carts, id)
    case None => Err(NoRows)
    case Some(c) => Ok(CartView(c, Items(db.lines, db.products, c.id)))
  }

  /** GetByUserID: the user's cart with its lines; when the user has none, a new
      empty cart is created (under `freshId`) and returned. */
  function GetByUserID(db: Db, user: UserId, freshId: CartId): (r: Reply<CartView>)
    ensures FindCart(db.carts, user).Some? ==>
      r.db == db && r.result.Ok? && r.result.value.cart == FindCart(db.carts, user).value
    ensures FindCart(db.carts, user).None? ==> r == Create(db, user, freshId)
    ensures r.result.Ok? ==> r.result.value.cart.user == user && FindCart(r.db.carts, user) == Some(r.result.value.cart)
    ensures r.result.Ok? ==> forall x :: x in r.result.value.items ==> x.product in r.db.products
  {
    match FindCart(db.carts, user)
    case Some(c) =>
      Reply(Ok(CartView(c, Items(db.lines, db.products, c.id))), db)
    case None =>
      var r := Create(db, user, freshId);
      if r.result.Ok? then
        FindCartAppend(db.carts, Cart(freshId, user), user);
        r
      else r
  }

  lemma {:induction false} FindCartAppend(carts: seq<Cart>, c: Cart, user: UserId)
    requires forall i :: 0 <= i < |carts| ==> carts[i].user != user
    requires c.user == user
    ensures FindCart(carts + [c], user) == Some(c)
  {
    if |carts| == 0 {
      assert carts + [c] == [c];
    } else {
      assert (carts + [c])[1..] == carts[1..] + [c];
      FindCartAppend(carts[1..], c, user);
    }
  }

  /** A cart created lazily by one lookup is found, unchanged, by the next. */
  lemma LazyCartIsFoundLater(db: Db, user: UserId, freshId: CartId, freshId2: CartId)
    requires GetByUserID(db, user, freshId).result.Ok?
    ensures var r1 := GetByUserID(db, user, freshId);
      var r2 := GetByUserID(r1.db, user, freshId2);
      r2.db == r1.db && r2.result.Ok? && r2.result.value.cart == r1.result.value.cart
  {
  }

  /** Adds `q` to every line of (cart, product). */
  function BumpLines(lines: seq<CartLine>, cart: CartId, product: ProductId, q: int): (ls: seq<CartLine>)
    ensures |ls| == |lines|
    ensures forall i :: 0 <= i < |lines| ==>
      ls[i] == if MatchesLine(lines[i], cart, product) then lines[i].(quantity := lines[i].quantity + q) else lines[i]
  {
    seq(|lines|, i requires 0 <= i < |lines| =>
      if MatchesLine(lines[i], cart, product) then lines[i].(quantity := lines[i].quantity + q) else lines[i])
  }

  /** AddItem: a product already in the cart has the amount added to its line;
      a new product gets one new line with exactly the requested quantity. */
  function AddItem(db: Db, cart: CartId, product: ProductId, q: int, lineId: LineId): (r: Reply<()>)
    ensures HasLine(db.lines, cart, product) ==>
      r.result.Ok? && r.db == db.(lines := BumpLines(db.lines, cart, product, q))
    ensures !HasLine(db.lines, cart, product) ==>
      (r.result.Ok? <==> !LineIdUsed(db.lines, lineId))
      && (r.result.Ok? ==> r.db == db.(lines := db.lines + [CartLine(lineId, cart, product, q)]))
    ensures r.result.Err? ==> r.db == db
    ensures r.db.reservations == db.reservations && r.db.carts == db.carts && r.db.products == db.products
  {
    if HasLine(db.lines, cart, product) then Reply(Ok(()), db.(lines := BumpLines(db.lines, cart, product, q)))
    else if LineIdUsed(db.lines, lineId) then Reply(Err(DuplicateKey), db)
    else Reply(Ok(()), db.(lines := db.lines + [CartLine(lineId, cart, product, q)]))
  }

  /** Adding keeps one line per (cart, product). */
  lemma AddItemKeepsUnique(db: Db, cart: CartId, product: ProductId, q: int, lineId: LineId)
    requires UniqueLines(db.lines)
    ensures UniqueLines(AddItem(db, cart, product, q, lineId).db.lines)
  {
    var ls := AddItem(db, cart, product, q, lineId).db.lines;
    if HasLine(db.lines, cart, product) {
      assert forall i :: 0 <= i < |ls| ==> ls[i].cart == db.lines[i].cart && ls[i].product == db.lines[i].product;
    } else if !LineIdUsed(db.lines, lineId) {
      assert forall i :: 0 <= i < |db.lines| ==> ls[i] == db.lines[i];
      assert ls[|db.lines|] == CartLine(lineId, cart, product, q);
    }
  }

  predicate IsLine(l: CartLine, cart: CartId, id: LineId) { l.id == id && l.cart == cart }

  predicate HasLineId(lines: seq<CartLine>, cart: CartId, id: LineId)
  {
    exists i :: 0 <= i < |lines| && IsLine(lines[i], cart, id)
  }

  /** UpdateItem: overwrites (does not add to) the quantity of the line with that
      id in that cart; "cart item not found" when there is none. */
  function UpdateItem(db: Db, cart: CartId, id: LineId, q: int): (r: Reply<()>)
    ensures r.result.Ok? <==> HasLineId(db.lines, cart, id)
    ensures r.result.Err? ==> r.result.error == CartItemNotFound && r.db == db
    ensures r.result.Ok? ==>
      && |r.db.lines| == |db.lines|
      && (forall i :: 0 <= i < |db.lines| ==>
            r.db.lines[i] == if IsLine(db.lines[i], cart, id) then db.lines[i].(quantity := q) else db.lines[i])
      && r.db == db.(lines := r.db.lines)
  {
    if !HasLineId(db.lines, cart, id) then Reply(Err(CartItemNotFound), db)
    else
      var ls := seq(|db.lines|, i requires 0 <= i < |db.lines| =>
        if IsLine(db.lines[i], cart, id) then db.lines[i].(quantity := q) else db.lines[i]);
      Reply(Ok(()), db.(lines := ls))
  }

  /** Overwriting a quantity keeps one line per (cart, product). */
  lemma UpdateItemKeepsUnique(db: Db, cart: CartId, id: LineId, q: int)
    requires UniqueLines(db.lines)
    ensures UniqueLines(UpdateItem(db, cart, id, q).db.lines)
  {
    var ls := UpdateItem(db, cart, id, q).db.lines;
    assert forall i :: 0 <= i < |ls| ==> ls[i].cart == db.lines[i].cart && ls[i].product == db.lines[i].product;
  }

  /** After an update the cart's listing shows the line with the new quantity. */
  lemma UpdateItemThenItems(db: Db, cart: CartId, id: LineId, q: int, l: CartLine)
    requires l in db.lines && IsLine(l, cart, id) && l.product in db.products
    ensures var d := UpdateItem(db, cart, id, q).db;
      CartItem(id, l.product, q, db.products[l.product]) in Items(d.lines, d.products, cart)
  {
    var d := UpdateItem(db, cart, id, q).db;
    var i :| 0 <= i < |db.lines| && db.lines[i] == l;
    assert d.lines[i] == l.(quantity := q);
  }

  /** Keeps the lines that do not satisfy the drop condition, in order. */
  function DropLine(lines: seq<CartLine>, cart: CartId, id: LineId): (ls: seq<CartLine>)
    ensures forall l :: l in ls <==> l in lines && !IsLine(l, cart, id)
    ensures |ls| <= |lines|
  {
    if |lines| == 0 then []
    else if IsLine(lines[0], cart, id) then DropLine(lines[1..], cart, id)
    else [lines[0]] + DropLine(lines[1..], cart, id)
  }

  /** RemoveItem: deletes only the line with that id in that cart; "cart item not
      found" when there is none. */
  function RemoveItem(db: Db, cart: CartId, id: LineId): (r: Reply<()>)
    ensures r.result.Ok? <==> HasLineId(db.lines, cart, id)
    ensures r.result.Err? ==> r.result.error == CartItemNotFound && r.db == db
    ensures r.result.Ok? ==> r.db == db.(lines := DropLine(db.lines, cart, id))
  {
    if !HasLineId(db.lines, cart, id) then Reply(Err(CartItemNotFound), db)
    else Reply(Ok(()), db.(lines := DropLine(db.lines, cart, id)))
  }

  /** After a removal the cart's listing has no item with that line id. */
  lemma RemoveItemThenItems(db: Db, cart: CartId, id: LineId)
    ensures var d := RemoveItem(db, cart, id).db;
      forall x :: x in Items(d.lines, d.products, cart) ==> x.id != id
  {
  }

  function DropCart(lines: seq<CartLine>, cart: CartId): (ls: seq<CartLine>)
    ensures forall l :: l in ls <==> l in lines && l.cart != cart
    ensures |ls| <= |lines|
  {
    if |lines| == 0 then []
    else if lines[0].cart == cart then DropCart(lines[1..], cart)
    else [lines[0]] + DropCart(lines[1..], cart)
  }

  /** ClearCart: deletes every line of the cart and no other cart's lines. */
  function ClearCart(db: Db, cart: CartId): (r: Reply<()>)
    ensures r.result.Ok?
    ensures r.db == db.(lines := DropCart(db.lines, cart))
  {
    Reply(Ok(()), db.(lines := DropCart(db.lines, cart)))
  }

  /** After a clear the cart lists no items, and every other cart's items are unchanged. */
  lemma {:induction false} ClearCartEmptiesOnlyThatCart(lines: seq<CartLine>, products: map<ProductId, Product>, cart: CartId, other: CartId)
    ensures Items(DropCart(lines, cart), products, cart) == []
    ensures other != cart ==> Items(DropCart(lines, cart), products, other) == Items(lines, products, other)
  {
    if |lines| > 0 {
      ClearCartEmptiesOnlyThatCart(lines[1..], products, cart, other);
    }
  }
}
