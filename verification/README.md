# Shop backend core in Dafny

This project models the state-keeping core of a Go e-commerce backend:

- the product catalogue with its stock ledger and the per-(product, cart)
  stock reservations;
- carts and their lines, and checking a cart against the available stock;
- orders: placing an order from a cart with stock deduction, the order status
  state machine, cancellation with stock restoration, and lookup;
- payments and their refunds;
- return requests and their approval;
- three small standalone pieces: the sliding-window rate limiter, the password
  and phone validators, and the Bearer-token and admin gates of the HTTP router.

The whole database is one immutable value `Store.Db`.

- Tables looked up by id (`products`, `orders`) are maps.
- Tables that are scanned, summed or searched for the latest row
  (`reservations`, `carts`, `lines`, `payments`, `returnRows`) are sequences of
  rows in insertion order.
- Every operation is a pure function from the store, its arguments and the
  current time `now` to a `Reply`: a `Result` (a value or an error) together
  with the store it leaves behind.
- Money is integer cents and store times are Unix seconds. The rate limiter
  counts in nanoseconds.
- Values the source generates (uuids, order numbers, transaction suffixes) are
  parameters. An id that is already taken gives the store's duplicate-key error.

Modules follow the source packages:

| module | file | models |
|---|---|---|
| `Common` | common.dfy | `Option`, `Result`, the error conditions, time constants |
| `Validators` | validators.dfy | `pkg/utils/validators.go` |
| `OrderModel` | order_model.dfy | `internal/models/order.go` |
| `Store` | store.dfy | the tables |
| `Inventory` | product_repo.dfy | `internal/repository/product_repo.go` |
| `Paging`, `Catalog` | product_service.dfy | `internal/service/product_service.go` and the list clamps |
| `CartRepo` | cart_repo.dfy | `internal/repository/cart_repo.go` |
| `CartService` | cart_service.dfy | `internal/service/cart_service.go` |
| `OrderRepo` | order_repo.dfy | `internal/repository/order_repo.go` |
| `Payments` | payments.dfy | `internal/repository/payment_repo.go`, `internal/service/payment_service.go` |
| `OrderStock` | order_stock.dfy | the per-item stock loops of order placement, cancellation and return approval |
| `OrderService` | order_service.dfy | `internal/service/order_service.go` |
| `Returns` | returns.dfy | `internal/repository/return_repo.go`, `internal/service/return_service.go` |
| `RateLimit` | rate_limit.dfy | `internal/middleware/rate_limit.go` |
| `GinAuth` | gin_auth.dfy | `internal/middleware/gin_auth.go` |

Several behaviours of the code are surprising. They are modelled as written and
each has its own lemma:

- A cart's EXPIRED hold still counts towards its own new reservation, so a
  reservation can drive available stock below zero
  (`Inventory.ExpiredOwnHoldOversells`).
- Validating a cart subtracts the cart's own hold
  (`CartService.ValidateCartCountsOwnHold`).
- Lowering a cart line deletes the whole hold
  (`CartService.UpdateCartItemDecreaseDropsHold`).
- A failed line write after a reservation drops the whole hold
  (`CartService.AddToCartFailedLineDropsWholeHold`).
- Delivering a cash-on-delivery order with no payment reports an error after
  writing the status (`OrderService.CodDeliveryWithoutPaymentFails`).
- Return requests and refunds bypass the transition table
  (`OrderService.ProcessOrderReturnBypassesTable`, `Returns.CreateReturnOnce`).
- The rate limiter trusts the X-Forwarded-For header
  (`RateLimit.ForwardedHeaderDecidesKey`).

## Model

| member | source | states |
|---|---|---|
| Validators.ValidationMessage | pkg/utils/validators.go:25-42 | required, email, min and max map to fixed texts; gte and lte append the rule's parameter; any other tag gives "Invalid value" |
| Validators.BoundMessageKeepsParam | pkg/utils/validators.go:35-38 | a gte or lte message determines its parameter: equal messages mean equal parameters |
| Validators.ByteLength | pkg/utils/validators.go:50-53 | the UTF-8 byte length that `len` measures is never less than the number of characters |
| Validators.ValidatePassword | pkg/utils/validators.go:50-68 | fewer than 8 bytes is refused; otherwise valid iff there is an upper-case letter, a lower-case letter and a digit |
| Validators.ValidatePhone | pkg/utils/validators.go:70-74 | accepted iff an optional '+', then a first digit 1-9, then 1 to 14 more digits and nothing else |
| OrderModel.Parse | internal/models/order.go:9-20 | reading a status text gives back the same text; the result is one of the named statuses iff the text is one of the eight names |
| OrderModel.StatusEnumeration | internal/models/order.go:11-20 | exactly eight statuses with eight distinct names; a named status reads back as itself |
| OrderModel.CreateOrderFieldErrors | internal/models/order.go:56-60 | no field error iff both addresses are given and the payment method is cc, dc or cod; an empty method is reported as required |
| OrderModel.StatusRequestFieldErrors | internal/models/order.go:62-64 | no field error iff the status is non-empty |
| Inventory.LiveHeldSplit | internal/repository/product_repo.go:524-563 | the live holds on a product are the other carts' live holds plus this cart's |
| Inventory.LiveHeldByUnique | internal/repository/product_repo.go:460-463 | with one row per key, a cart's live hold is its row's quantity when unexpired and zero otherwise |
| Inventory.LiveHeldAppend | internal/repository/product_repo.go:524-542 | a new row adds its quantity to the product's live holds only when it is live |
| Inventory.AvailableStock | internal/repository/product_repo.go:524-542 | stock minus the product's unexpired holds; "no rows" iff the product is absent |
| Inventory.AvailableStockExcludingCart | internal/repository/product_repo.go:544-563 | as available stock but ignoring the given cart's holds; fails iff the product is absent |
| Inventory.ExcludingCartAddsOwnHold | internal/repository/product_repo.go:544-563 | the excluding-cart figure is the plain figure plus the cart's own live hold, never less when holds are non-negative |
| Inventory.ExpiredHoldIgnored | internal/repository/product_repo.go:529-530 | an expired hold row changes no available-stock figure although it stays stored |
| Inventory.UpdateStock | internal/repository/product_repo.go:402-426 | adds the delta iff the product exists and the result stays non-negative; otherwise "no rows" and no change; never clamps |
| Inventory.DeductThenRestore | internal/repository/product_repo.go:402-426 | a deduction followed by adding the same quantity back restores the store exactly |
| Inventory.FindHold | internal/repository/product_repo.go:450-455 | finds a row of the (product, cart) key iff one exists |
| Inventory.FirstKeyOfAppend | internal/repository/product_repo.go:498-502 | an inserted row of a key that had none becomes that key's row |
| Inventory.SetHold | internal/repository/product_repo.go:477-483 | the rows of the key get the new quantity and expiry; all other rows are unchanged |
| Inventory.SetHoldKeepsOthers | internal/repository/product_repo.go:477-483 | rewriting one key's hold leaves the other carts' holds and other products' holds unchanged |
| Inventory.ReserveStock | internal/repository/product_repo.go:440-516 | a refusal is the reservation error with no change; with no row for the key, one row of exactly the requested quantity is appended iff available stock covers it; with a row, the key's rows become old + requested with the new expiry iff stock - live holds + the row's unfiltered quantity covers old + requested, every other row and table unchanged |
| Inventory.ReserveUpsertKeepsOtherRows | internal/repository/product_repo.go:477-483 | raising an existing hold rewrites only the rows of its key; with one row per key, only that row |
| Inventory.ReserveKeepsUnique | internal/repository/product_repo.go:450-512 | a reservation keeps at most one row per (product, cart) |
| Inventory.SetHoldLiveHeld | internal/repository/product_repo.go:477-483 | raising the unique row to a live quantity q makes the product's live holds the others' plus q |
| Inventory.ReserveKeepsAvailableNonNegative | internal/repository/product_repo.go:460-475 | a successful reservation whose cart had no row or an unexpired row leaves available stock non-negative |
| Inventory.ExpiredOwnHoldOversells | internal/repository/product_repo.go:460-475 | counterexample: stock 5 with the cart's own expired hold of 5 admits 1 more and leaves available stock at -1 |
| Inventory.ReleaseRows | internal/repository/product_repo.go:518-522 | removes exactly the rows of the key and keeps every other row |
| Inventory.ReleaseReservation | internal/repository/product_repo.go:518-522 | always succeeds and deletes the whole (product, cart) hold |
| Inventory.ReleaseRowsNoKey | internal/repository/product_repo.go:518-522 | releasing an absent hold changes nothing |
| Inventory.ReleaseIdempotent | internal/repository/product_repo.go:518-522 | releasing twice equals releasing once |
| Inventory.ReleaseHeld | internal/repository/product_repo.go:518-522 | after a release the product's live holds are the other carts' holds; other products are untouched |
| Inventory.UpdateProductRow | internal/repository/product_repo.go:340-394 | writes the stock whenever the request's stock is non-negative (so an omitted stock sets 0), the price only when positive; keeps SKU, other rows and other tables; an empty request changes nothing |
| Inventory.CreateProductRow | internal/repository/product_repo.go:42-58 | inserts the row iff the id is unused; otherwise no change |
| Paging.ClampPage | internal/service/product_service.go:79-81 | a page below 1 becomes 1; any other page is kept |
| Paging.ClampLimit | internal/service/order_service.go:176-198 | a limit outside [1, bound] becomes 10 and any other limit is kept; order lists use the bound 50 |
| Paging.Window | internal/service/product_service.go:78-107 | product lists: page at least 1, limit within [1, 100], in-range values kept, out-of-range limit becomes 10 |
| Paging.WindowIdempotent | internal/service/return_service.go:126-148 | the return lists' normalisation (bound 50) leaves an already normalised window unchanged |
| Catalog.CheckStock | internal/service/product_service.go:143-150 | fails iff the product is absent; otherwise true iff available stock (all live holds subtracted) covers the quantity |
| Catalog.CheckedReservationSucceeds | internal/service/product_service.go:143-155 | with nothing running in between, a reservation right after a passing stock check of the same quantity succeeds |
| Catalog.CheckStockCountsOwnHold | internal/service/product_service.go:143-150 | the caller's own hold is not excluded: the check equals "excluding-cart stock minus own hold covers the request" |
| Catalog.ReserveStock | internal/service/product_service.go:152-155 | the repository reservation with expiry now + 10 minutes; a failure changes nothing; success leaves a row with that expiry |
| Catalog.ReleaseStockReservation | internal/service/product_service.go:157-159 | afterwards no row of the key remains |
| Catalog.CreateProduct | internal/service/product_service.go:35-63 | a used SKU is refused with no change; success stores the request's fields under a fresh id |
| Catalog.GetProduct | internal/service/product_service.go:65-76 | "product not found" iff absent; otherwise the row with its stock field replaced by the available stock |
| Catalog.UpdateProduct | internal/service/product_service.go:109-127 | an absent id is "product not found" with no change; otherwise the row update, answering the re-read product |
| Catalog.DeleteProduct | internal/service/product_service.go:129-141 | an absent id is "product not found" with no change; otherwise exactly that row is removed |
| Catalog.ProductWritesKeepUniqueSkus | internal/service/product_service.go:35-44 | creating, updating and deleting products keeps every SKU on at most one product |
| Catalog.CreateThenGetProduct | internal/service/product_service.go:35-76 | a created product reads back with the request's fields, its stock less any live hold already under the fresh id |
| Catalog.UpdateThenGetProduct | internal/service/product_service.go:109-127 | each supplied field reads back, omitted text and price keep their values, a non-negative stock is written, the SKU never changes |
| Catalog.DeleteThenGetProduct | internal/service/product_service.go:129-141 | a deleted product is "product not found" afterwards; every other product reads as before |
| CartRepo.FindCart | internal/repository/cart_repo.go:82-95 | finds one of the user's carts iff the user has one |
| CartRepo.CartById | internal/repository/cart_repo.go:57-80 | finds a cart with the id iff one exists |
| CartRepo.Items | internal/repository/cart_repo.go:186-257 | the listing holds exactly the cart's lines whose product row exists, each joined with that row |
| CartRepo.Create | internal/repository/cart_repo.go:33-55 | a new empty cart for the user iff the id is unused |
| CartRepo.GetCartWithItems | internal/repository/cart_repo.go:186-257 | fails iff no cart has the id; otherwise that cart |
| CartRepo.GetByUserID | internal/repository/cart_repo.go:82-113 | an existing cart is returned with no change; a user with none gets a new empty cart, which the next lookup finds |
| CartRepo.FindCartAppend | internal/repository/cart_repo.go:82-113 | a cart added for a user who had none is the one found |
| CartRepo.LazyCartIsFoundLater | internal/repository/cart_repo.go:82-113 | a cart created by one lookup is found, with no further change, by the next |
| CartRepo.BumpLines | internal/repository/cart_repo.go:117-129 | adds the amount to the lines of that (cart, product) only |
| CartRepo.AddItem | internal/repository/cart_repo.go:115-141 | an existing product line gets the amount added; a new product gets one line of exactly the requested quantity; nothing else changes |
| CartRepo.AddItemKeepsUnique | internal/repository/cart_repo.go:115-141 | adding keeps one line per (cart, product) |
| CartRepo.UpdateItem | internal/repository/cart_repo.go:143-160 | overwrites the quantity of the line with that id in that cart; "cart item not found" with no change when there is none |
| CartRepo.DropLine | internal/repository/cart_repo.go:162-178 | keeps exactly the lines other than that id in that cart |
| CartRepo.RemoveItem | internal/repository/cart_repo.go:162-178 | deletes only the line with that id in that cart; "cart item not found" with no change when there is none |
| CartRepo.UpdateItemKeepsUnique | internal/repository/cart_repo.go:143-160 | an update keeps one line per (cart, product) |
| CartRepo.UpdateItemThenItems | internal/repository/cart_repo.go:143-160 | after an update the cart's listing shows that line with the new quantity |
| CartRepo.RemoveItemThenItems | internal/repository/cart_repo.go:162-178 | after a removal the cart's listing has no item with that line id |
| CartRepo.DropCart | internal/repository/cart_repo.go:180-184 | keeps exactly the other carts' lines |
| CartRepo.ClearCart | internal/repository/cart_repo.go:180-184 | deletes every line of the cart and nothing else |
| CartRepo.ClearCartEmptiesOnlyThatCart | internal/repository/cart_repo.go:180-184 | after a clear the cart lists nothing and every other cart lists what it did |
| CartService.AddToCart | internal/service/cart_service.go:46-89 | unknown product or failed stock check leaves lines and holds unchanged; success needs an existing product whose stock check passes; products and orders never change |
| CartService.AddToCartFailedLineDropsWholeHold | internal/service/cart_service.go:73-85 | when the line write fails after the reservation, the cart's whole hold on the product is gone |
| CartService.AddToCartSucceeds | internal/service/cart_service.go:46-89 | success is the cart lookup (appending a new cart for a user without one), then the reservation, then the line write, with nothing else changed |
| CartService.AddToCartTwiceMerges | internal/service/cart_service.go:74-80 | two adds of a product to a cart without it give one line and one hold, each of the summed quantity |
| CartService.FirstAdd | internal/service/cart_service.go:74-80 | a first add of a product appends one hold and one line of the requested quantity |
| CartService.SecondAddHold | internal/repository/product_repo.go:450-484 | a second reservation raises the key's single row to the summed quantity with a new expiry |
| CartService.SecondAddLine | internal/repository/cart_repo.go:117-129 | a second add raises the single line to the summed quantity |
| CartService.FindItem | internal/service/cart_service.go:98-109 | finds a listed item with the line id iff one is listed |
| CartService.AdjustHold | internal/service/cart_service.go:111-139 | on an increase only the difference is checked and reserved; a decrease deletes the whole hold; an equal quantity changes nothing |
| CartService.UpdateCartItem | internal/service/cart_service.go:91-146 | never changes products or orders |
| CartService.ListedLineExists | internal/service/cart_service.go:98-113 | a listed line is a stored line of that cart, so the repository update finds it |
| CartService.UpdateCartItemNotFound | internal/service/cart_service.go:98-109 | an id the cart does not list is "cart item not found" with no change |
| CartService.UpdateCartItemDecreaseDropsHold | internal/service/cart_service.go:126-139 | a decrease deletes the cart's whole hold on the product and overwrites the line |
| CartService.UpdateCartItemSameQuantity | internal/service/cart_service.go:111-139 | an unchanged quantity makes no reservation call; only the line write happens |
| CartService.UpdateCartItemIncrease | internal/service/cart_service.go:111-125 | an increase checks and reserves only the difference; a failed check changes nothing, and a passing check makes the reservation and the update succeed |
| CartService.RemoveFromCart | internal/service/cart_service.go:148-182 | never changes products or orders |
| CartService.RemoveFromCartEffects | internal/service/cart_service.go:148-182 | an unlisted id is "cart item not found" with no change; otherwise the hold is released and exactly that line deleted |
| CartService.ReleaseAll | internal/service/cart_service.go:184-197 | removes exactly the cart's holds on the listed products |
| CartService.ClearCart | internal/service/cart_service.go:184-197 | releases the cart's holds on every listed product, then deletes all its lines |
| CartService.DigitsText | internal/service/cart_service.go:216-218 | a natural number's decimal text is non-empty digits with no leading zero |
| CartService.DigitsTextValue | internal/service/cart_service.go:216-218 | the digits read back to the number they were written from |
| CartService.DecimalText | internal/service/cart_service.go:216-218 | an integer's decimal text starts with '-' iff it is negative, followed by canonical digits |
| CartService.DecimalTextValue | internal/service/cart_service.go:216-218 | the signed decimal text reads back to the integer, so distinct stocks give distinct messages |
| CartService.ProblemsListFailing | internal/service/cart_service.go:208-220 | the messages are exactly one "Insufficient stock for <name>. Available: <stock>" per failing item, in the items' order |
| CartService.Problems | internal/service/cart_service.go:208-220 | no message iff every listed item passes the stock check; at most one message per item |
| CartService.ValidateCart | internal/service/cart_service.go:199-223 | fails iff the cart is absent; valid iff every listed line passes the stock check, iff there are no messages; the messages are one per failing line, in order |
| CartService.ValidateCartCountsOwnHold | internal/service/cart_service.go:199-223 | counterexample: stock 2, a line of 2 and the cart's own hold of 2 fails validation |
| OrderRepo.VisibleItems | internal/repository/order_repo.go:136-186 | the listed items are exactly the stored items whose product still exists |
| OrderRepo.VisibleItemsAll | internal/repository/order_repo.go:136-186 | when all products exist, every item is listed in order |
| OrderRepo.GetByID | internal/repository/order_repo.go:104-187 | no order and no error for an absent id; otherwise the stored order with its visible items |
| OrderRepo.UpdateStatus | internal/repository/order_repo.go:624-641 | writes any status with no transition check; "order not found" with no change for an absent id |
| OrderRepo.UpdateStatusSameIsNoChange | internal/repository/order_repo.go:624-641 | writing the current status leaves the order's status and every modelled field as they were |
| OrderRepo.UpdateStatusThenGet | internal/repository/order_repo.go:624-641 | the order reads back with the new status and the same lines; every other order reads as before |
| OrderRepo.CancelOrder | internal/repository/order_repo.go:643-660 | cancels iff the order exists and is pending or processing; otherwise one error and no change |
| OrderRepo.CancelOrderOnce | internal/repository/order_repo.go:643-660 | a second guarded cancel fails with no change |
| OrderRepo.CreateWithTx | internal/repository/order_repo.go:57-102 | writes the order with its items iff the id is unused; otherwise duplicate key and no change |
| OrderRepo.CreateThenGet | internal/repository/order_repo.go:57-187 | a created order reads back as written, items included, while its products exist |
| Payments.GetByID | internal/repository/payment_repo.go:46-72 | a payment with the id, or "no rows" (never an empty success) when there is none |
| Payments.FirstWithId | internal/repository/payment_repo.go:46-72 | finds a row with the id iff one exists |
| Payments.GetByOrderID | internal/repository/payment_repo.go:74-102 | the order's most recently created payment; "no rows" iff the order has none |
| Payments.LastForOrder | internal/repository/payment_repo.go:74-82 | the last row of the order, iff the order has a row |
| Payments.Create | internal/repository/payment_repo.go:28-44 | appends the row iff the id is unused; otherwise duplicate key and no change |
| Payments.CreateThenGetByOrderID | internal/repository/payment_repo.go:28-102 | the payment just created is the one its order's lookup returns |
| Payments.CreateThenGetByID | internal/repository/payment_repo.go:28-72 | with a fresh id, the payment just created is the one its id finds |
| Payments.SetPaymentRows | internal/repository/payment_repo.go:104-124 | only the written fields of the rows with the id change |
| Payments.UpdateStatus | internal/repository/payment_repo.go:104-113 | overwrites status and transaction id together; an absent id changes nothing and is no error |
| Payments.UpdateStatusWithRefund | internal/repository/payment_repo.go:115-124 | only the status of the rows with the id changes |
| Payments.RefundAmountNotStored | internal/repository/payment_repo.go:115-124 | the refund amount has no effect on the store |
| Payments.LatestKept | internal/repository/payment_repo.go:74-82 | rewriting rows without changing their orders keeps each order's latest row |
| Payments.LatestAfterStatusWrite | internal/repository/payment_repo.go:74-124 | a status write to the order's latest payment keeps it the latest, with the new status |
| Payments.StatusWriteIsRead | internal/repository/payment_repo.go:46-124 | after a status write the payment read by id carries the new status |
| Payments.TransactionId | internal/service/payment_service.go:162 | "TXN-" followed by the suffix |
| Payments.CreatePaymentForOrder | internal/service/payment_service.go:146-184 | absent order and existing payment are refused with no change; otherwise one payment of the order's total with the given method and status; a completed one moves the order to processing unchecked |
| Payments.CreatePaymentForOrderOnce | internal/service/payment_service.go:157-163 | a second payment for the same order is refused with no change |
| Payments.CreatePayment | internal/service/payment_service.go:34-79 | absent order, another user's order and an order that already has a payment are refused with no change; otherwise one pending payment of the order's total with the method and a "TXN-" transaction id |
| Payments.CreatePaymentOnce | internal/service/payment_service.go:50-54 | a second payment for the same order is refused as a duplicate |
| Payments.CreateThenVerify | internal/service/payment_service.go:57-112 | the transaction id a new payment carries verifies it, and no other id does |
| Payments.VerifyPayment | internal/service/payment_service.go:96-112 | succeeds, with the stored payment, iff the stored transaction id equals the supplied one |
| Payments.ProcessRefund | internal/service/payment_service.go:114-140 | missing, non-completed and over-amount payments are refused with no change; success marks the payment refunded and its order refunded |
| Payments.RefundOnce | internal/service/payment_service.go:124-126 | a refunded payment cannot be refunded again |
| OrderStock.QtyOfNonNegative | internal/models/order.go:36-44 | non-negative item quantities sum to a non-negative product total |
| OrderStock.DeductAll | internal/service/order_service.go:84-106 | success changes only products; failure names an ordered product whose deduction was refused |
| OrderStock.DeductAllMoves | internal/service/order_service.go:84-106 | success means every product existed and each stock dropped by exactly its ordered total, nothing else changed |
| OrderStock.DeductAllStep | internal/service/order_service.go:84-106 | the first refused item fails the whole deduction; otherwise the rest is deducted from the updated store |
| OrderStock.ProductsOf | internal/service/order_service.go:84-106 | exactly the products the items name |
| OrderStock.QtyOfAbsent | internal/service/order_service.go:84-106 | a product not ordered has total 0 |
| OrderStock.StepCovered | internal/service/order_service.go:84-106 | an accepted step keeps every product's coverage of the remaining items |
| OrderStock.DeductAllOkIff | internal/service/order_service.go:84-106 | with non-negative quantities the deduction succeeds iff every ordered product exists and covers its total |
| OrderStock.RestoreAll | internal/service/order_service.go:321-327 | changes only products; a failure names an ordered product and keeps the restorations already made |
| OrderStock.RestoreAllStep | internal/service/order_service.go:321-327 | a failed item stops the loop with the store as it was at that point |
| OrderStock.RestoreAllMoves | internal/service/order_service.go:321-327 | success means every product existed and each stock rose by exactly its ordered total |
| OrderStock.RestoreAllSucceeds | internal/service/order_service.go:321-327 | adding back non-negative quantities to existing products with non-negative stock cannot fail |
| OrderStock.DeductThenRestoreAll | internal/service/order_service.go:84-106 | restoring what a successful deduction took gives back the original store |
| OrderService.TransitionEdges | internal/service/order_service.go:268-291 | the table admits exactly pending to processing or cancelled, processing to shipped or cancelled, shipped to delivered, delivered to completed |
| OrderService.TerminalStatuses | internal/service/order_service.go:268-291 | completed, cancelled, refunded, return_requested and unknown statuses admit no move |
| OrderService.Rank | internal/service/order_service.go:269-277 | a rank of at most 4, equal to 4 exactly for statuses with no outgoing move |
| OrderService.TransitionsAdvance | internal/service/order_service.go:269-277 | every legal move strictly increases the rank |
| OrderService.PathRanksIncrease | internal/service/order_service.go:269-277 | ranks strictly increase along any chain of legal moves |
| OrderService.PathsAreAcyclic | internal/service/order_service.go:269-277 | no chain of legal moves revisits a status, and none is longer than five statuses |
| OrderService.UpdateOrderStatus | internal/service/order_service.go:226-266 | absent order is "order not found"; the current status is accepted with no write; an illegal move is refused with no change; a legal move is written, failing with "no rows" exactly for a cod order moved to delivered without a payment |
| OrderService.CodDeliveryWithoutPaymentFails | internal/service/order_service.go:247-263 | such a delivery fails, leaves the order delivered with no payment, and a retry then succeeds without creating one |
| OrderService.UpdateOrderStatusSettles | internal/service/order_service.go:226-266 | once the order has the requested status, repeating the update is accepted with no change |
| OrderService.ProcessOrderReturn | internal/service/order_service.go:338-342 | sets the order refunded iff it exists; "order not found" with no change otherwise |
| OrderService.ProcessOrderReturnBypassesTable | internal/service/order_service.go:338-342 | the refund applies from any status although the table admits no move to refunded |
| OrderService.GetOrder | internal/service/order_service.go:158-174 | "order not found", then "unauthorized" for another user's order; otherwise the order with its visible items |
| OrderService.CancelOrder | internal/service/order_service.go:293-336 | the three guards refuse with no change; success adds the items back and sets cancelled; only products and orders ever change |
| OrderService.CancelOrderRestoresStock | internal/service/order_service.go:321-327 | a successful cancel added each listed product's ordered total back to its stock and changed no other product |
| OrderService.CancelOrderOnce | internal/service/order_service.go:309-311 | a cancelled order cannot be cancelled again |
| OrderService.Snapshot | internal/service/order_service.go:84-98 | one order item per cart line with its product, quantity and the product's current price |
| OrderService.TotalAppend | internal/service/order_service.go:84-98 | the running sum over lines equals the total of the whole list |
| OrderService.TotalNonNegative | internal/service/order_service.go:84-98 | non-negative prices and quantities give a non-negative total |
| OrderService.NewOrder | internal/service/order_service.go:108-127 | the new order is pending, with the snapshot items and their total, owned by the user |
| OrderService.Merge | internal/service/order_service.go:124-139 | after the commit the transaction's writes and the pool's cart writes both stand |
| OrderService.CreateOrder | internal/service/order_service.go:52-71 | an empty cart is "cart is empty"; a cart failing validation is refused with its messages |
| OrderService.CreateOrderRefusalChangesNothing | internal/service/order_service.go:54-71 | those refusals change no stock, hold, order, cart line or payment |
| OrderService.PlaceOrderErrors | internal/service/order_service.go:74-150 | the placement itself never reports an empty or invalid cart |
| OrderService.PlaceOrderRollsBack | internal/service/order_service.go:74-106 | a failed deduction rolls back: no change, and the error names an ordered product |
| OrderService.PlaceOrderSucceeds | internal/service/order_service.go:84-147 | stock drops by each ordered total, the order is stored (processing when paid by card, else pending), the cart has no lines and no holds on its listed products |
| OrderService.PlaceOrderPayment | internal/service/order_service.go:141-147 | a card order gets exactly one new completed payment of the order's total; any other method leaves the payments as they were |
| OrderService.CreateOrderSucceeds | internal/service/order_service.go:52-150 | a placed order came from the user's existing cart, its items and total are the cart's snapshot, stock dropped accordingly, the lines are gone and the order reads back to its owner |
| Returns.GetByID | internal/repository/return_repo.go:47-71 | the row with the id, or "no rows" when there is none |
| Returns.FirstWithId | internal/repository/return_repo.go:47-71 | finds a row with the id iff one exists |
| Returns.AnyOpen | internal/service/return_service.go:71-81 | true iff the order has a requested or approved return |
| Returns.Create | internal/repository/return_repo.go:30-45 | appends the row iff the id is unused; otherwise duplicate key and no change |
| Returns.UpdateStatus | internal/repository/return_repo.go:194-203 | overwrites status and refund of the rows with the id; an absent id is no error |
| Returns.UpdateStatusThenGet | internal/repository/return_repo.go:47-203 | after the write the row reads back with the new status and refund |
| Returns.UpdateFirstWithId | internal/repository/return_repo.go:194-203 | the first row with the id is the same row after the write, with the new fields |
| Returns.CreateReturn | internal/service/return_service.go:44-106 | absent order, other user's order, not delivered or completed, window passed, open return: each refused with no change; success writes a requested return of the order's total and sets the order to return_requested |
| Returns.ClosedReturnsDoNotBlock | internal/service/return_service.go:71-81 | an order whose earlier returns are all rejected or completed stays eligible |
| Returns.CreateReturnOnce | internal/service/return_service.go:60-103 | return_requested is no target of the table, and a second request is refused as not returnable |
| Returns.ApprovedRefund | internal/service/return_service.go:167-172 | the requested amount, or the order's total for 0; an absent order with 0 is the nil dereference |
| Returns.Approve | internal/service/return_service.go:167-198 | approval never touches return rows and keeps the set of orders |
| Returns.ProcessReturn | internal/service/return_service.go:150-208 | missing return is the lookup error; a non-approval only overwrites the status keeping the refund; approval records the refund it paid |
| Returns.ApproveSucceeds | internal/service/return_service.go:167-198 | success refunds the order's completed latest payment, refunds the order, and adds each listed item back to stock |
| Returns.PaymentOfOrder | internal/repository/payment_repo.go:74-102 | the latest payment of an order belongs to it and is found by its id |
| Returns.ApproveWithoutPaymentFails | internal/service/return_service.go:174-178 | approving an order with no payment aborts with the lookup error and no change |
| Returns.ApproveTwiceFails | internal/service/return_service.go:174-184 | a second approval finds the payment already refunded |
| RateLimit.Recent | internal/middleware/rate_limit.go:48-54 | keeps exactly the visits younger than one minute |
| RateLimit.RecentIdempotent | internal/middleware/rate_limit.go:48-54 | filtering twice at the same instant filters nothing more |
| RateLimit.RecentAppend | internal/middleware/rate_limit.go:48-54 | the filter distributes over concatenation |
| RateLimit.RecentAllYoung | internal/middleware/rate_limit.go:48-54 | visits all younger than a minute are kept whole |
| RateLimit.Allow | internal/middleware/rate_limit.go:41-66 | refused iff the key has limit or more recent visits, with nothing stored; admitted stores the recent visits plus now (at most limit); other keys untouched |
| RateLimit.BurstAdmits | internal/middleware/rate_limit.go:41-66 | calls at one instant are admitted until the key holds limit visits, then refused |
| RateLimit.FreshKeyBurst | internal/middleware/rate_limit.go:41-66 | a key with no visits admits min(n, limit) of n calls at one instant |
| RateLimit.Cleanup | internal/middleware/rate_limit.go:22-39 | keeps each key's young visits and deletes the keys left with none |
| RateLimit.CleanupKeepsDecisions | internal/middleware/rate_limit.go:22-66 | cleaning up never changes a decision taken at the same instant |
| RateLimit.ClientKey | internal/middleware/rate_limit.go:81-85 | the forwarded header when non-empty, else the remote address |
| RateLimit.ForwardedHeaderDecidesKey | internal/middleware/rate_limit.go:81-85 | connections naming the same forwarded address share a budget; each new header value gets a fresh one |
| RateLimit.UserKey | internal/middleware/rate_limit.go:106-119 | the user's id when authenticated, else the remote address |
| GinAuth.FirstSpace | internal/middleware/gin_auth.go:34 | the position of the first space, with no space before it |
| GinAuth.Split | internal/middleware/gin_auth.go:34 | at least one piece, none containing a space |
| GinAuth.SplitThenJoin | internal/middleware/gin_auth.go:34 | joining the pieces with single spaces gives the header back |
| GinAuth.JoinThenSplit | internal/middleware/gin_auth.go:34 | space-free pieces are recovered from their join |
| GinAuth.BearerSplit | internal/middleware/gin_auth.go:34-45 | the header splits into exactly "Bearer" and a token iff it is "Bearer ", then a space-free token, which is the second piece |
| GinAuth.Authenticate | internal/middleware/gin_auth.go:19-65 | empty header, malformed header and rejected token each abort with 401 and their message; proceeds iff well-formed and validated, storing the user's id and role |
| GinAuth.MalformedHeaders | internal/middleware/gin_auth.go:34-43 | a lower-case scheme and a doubled space are both "Invalid token format" |
| GinAuth.AdminGate | internal/middleware/gin_auth.go:68-93 | 403 "User role not found" with no role, 403 "Admin access required" for any role other than "admin", else proceeds |
| GinAuth.AdminRoutes | internal/middleware/gin_auth.go:19-93 | behind both gates a request proceeds iff its token validates to a user whose role is "admin" |

## Left out

- SQL, pgx and the connection pool are not modelled. Each query is an operation on the immutable store; the only storage errors are "no rows" and the duplicate-key violation.
- The advisory lock in ReserveStock is not modelled. Every operation runs alone, so nothing about interleavings is claimed.
- Other concurrency is not modelled. This covers the payment simulation goroutine, the rate limiter's mutex and its periodic cleanup goroutine.
- Floating-point money is not modelled. Prices, totals and refunds are integer cents.
- The clock, uuid generation, the order-number generator and the transaction-id randomness are parameters.
- Reporting queries are left out: the order list, recent and analytics queries, product listing, admin listing and top products, and the user and return listings. Only their page and limit clamps (`Paging`) are modelled.
- The authentication service, the user repository, JWT and bcrypt are not modelled. Token validation is a function parameter of `GinAuth.Authenticate`.
- The struct-tag validator library and the e-mail validator (net/mail) are not modelled. `OrderModel.CreateOrderFieldErrors` states the declared rules directly.
- HTTP handlers, response helpers and the CORS, logging, recovery, JSON, cache, request-id and net/http auth middleware are not modelled. Neither are wiring and configuration.
- The HTTP answer of the rate limiter (status 429) is not modelled; `RateLimit.Allow` gives the decision.
- Validators.ValidatePassword: upper-case, lower-case and digit are the ASCII classes. Go's unicode.IsUpper, IsLower and IsNumber also accept letters and digits of other scripts.
- OrderRepo.CreateWithTx: the order row and its item rows are written as one step. Item inserts cannot fail in the model, so stopping at the first failing item insert is not modelled.
- OrderService.UpdateOrderStatus: the cash-on-delivery payment creation is not modelled. It runs only when the payment lookup returns no payment and no error, and that lookup reports a missing payment as "no rows", so it cannot be reached.
- OrderService.PlaceOrder: the cart-clearing error path is modelled but cannot be reached. The cart was found just before.
- Returns.ProcessReturn: the "return not found" branch for a nil row without error is not modelled. The row lookup reports a missing row as "no rows", so the branch cannot be reached.
- Returns.ApprovedRefund: reading the total of an absent order panics in the source. The model reports this as the `NilOrder` error.
- OrderService.CancelOrder: the restorations and the status write are separate pool writes, as in the source. A failed restoration keeps the earlier ones.
- Row timestamps are not modelled. The status write also sets updated_at (internal/repository/order_repo.go:627), so `OrderRepo.UpdateStatusSameIsNoChange` speaks only of the modelled fields.
- OrderRepo.VisibleItemsAll and OrderRepo.CreateThenGet: the items are read back in the order they were written. The query orders by the items' created_at, which the inserts leave to the column default, so the store could return equal-time rows in another order.
- OrderModel.CreateOrderFieldErrors: the address rules are stated as declared. The validator is built with `validator.New()` (pkg/utils/validators.go:11) and, without the required-struct option, may skip `required` on a non-pointer struct field, so an empty address might pass.
- The return handlers are stubs that never call the service. `Returns.CreateReturn` and `Returns.ProcessReturn` model the service.
