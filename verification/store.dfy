/** The relational store as one immutable value. Tables looked up only by id are
    maps; tables that are scanned, summed or filtered are row sequences kept in
    insertion order. Money is in integer cents; timestamps are Unix seconds. */
module Store {
  import opened Common
  import opened OrderModel

  type ProductId = nat
  type CartId = nat
  type UserId = nat
  type LineId = nat
  type OrderId = nat
  type PaymentId = nat
  type ReturnId = nat

  /** A catalogue row; `stock` is the ledger quantity (stock_quantity). */
  datatype Product = Product(sku: string, name: string, description: string, price: int,
                             stock: int, category: string, imageUrl: string)

  /** A temporary hold of `quantity` units of a product for one cart, live while
      `expiresAt` is later than the current time. */
  datatype Reservation = Reservation(product: ProductId, cart: CartId, quantity: int, expiresAt: int)

  datatype Cart = Cart(id: CartId, user: UserId)

  datatype CartLine = CartLine(id: LineId, cart: CartId, product: ProductId, quantity: int)

  datatype Order = Order(user: UserId, number: string, total: int, status: OrderStatus,
                         paymentMethod: string, shipping: Address, billing: Address,
                         items: seq<OrderItem>, createdAt: int)

  datatype PaymentStatus =
    | PaymentPending | PaymentProcessing | PaymentCompleted | PaymentFailed | PaymentRefunded

  datatype Payment = Payment(id: PaymentId, order: OrderId, amount: int, status: PaymentStatus,
                             paymentMethod: string, transactionId: string)

  /** Return statuses; a processing request may carry any other text. */
  datatype ReturnStatus = Requested | Approved | Rejected | ReturnCompleted | ReturnOther(text: string)

  datatype ReturnRecord = ReturnRecord(id: ReturnId, order: OrderId, user: UserId, reason: string,
                                       status: ReturnStatus, refund: int)

  datatype Db = Db(
    products: map<ProductId, Product>,
    reservations: seq<Reservation>,
    carts: seq<Cart>,
    lines: seq<CartLine>,
    orders: map<OrderId, Order>,
    payments: seq<Payment>,
    returnRows: seq<ReturnRecord>)

  /** The result of an operation together with the store it leaves behind. */
  datatype Reply<T> = Reply(result: Result<T>, db: Db)
}
