/** Order entities: the status enumeration with its textual form, the order line
    snapshot, addresses, and the field rules declared on the order requests. */
module OrderModel {
  import Validators

  /** The eight statuses the system names, plus any other text a request may carry
      (a status arrives as a free string and is compared textually). */
  datatype OrderStatus =
    | Pending | Processing | Shipped | Delivered | Completed | Cancelled | Refunded
    | ReturnRequested
    | Other(text: string)
  {
    predicate Known() { !Other? }
  }

  const KnownStatuses: seq<OrderStatus> :=
    [Pending, Processing, Shipped, Delivered, Completed, Cancelled, Refunded, ReturnRequested]

  const KnownNames: seq<string> :=
    ["pending", "processing", "shipped", "delivered", "completed", "cancelled", "refunded",
     "return_requested"]

  /** The stored text of a status. */
  function Name(s: OrderStatus): string
  {
    match s
    case Pending => "pending"
    case Processing => "processing"
    case Shipped => "shipped"
    case Delivered => "delivered"
    case Completed => "completed"
    case Cancelled => "cancelled"
    case Refunded => "refunded"
    case ReturnRequested => "return_requested"
    case Other(t) => t
  }

  /** Reads a status text: a known name gives its constructor, anything else is kept verbatim. */
  function Parse(t: string): (s: OrderStatus)
    ensures Name(s) == t
    ensures s.Known() <==> t in KnownNames
  {
    if t == "pending" then Pending
    else if t == "processing" then Processing
    else if t == "shipped" then Shipped
    else if t == "delivered" then Delivered
    else if t == "completed" then Completed
    else if t == "cancelled" then Cancelled
    else if t == "refunded" then Refunded
    else if t == "return_requested" then ReturnRequested
    else Other(t)
  }

  /** There are exactly eight known statuses, with eight distinct names, and reading
      the name of a known status gives the status back. */
  lemma StatusEnumeration(s: OrderStatus)
    ensures |KnownStatuses| == 8
    ensures forall i, j :: 0 <= i < j < |KnownStatuses| ==> Name(KnownStatuses[i]) != Name(KnownStatuses[j])
    ensures s.Known() <==> s in KnownStatuses
    ensures s.Known() ==> Parse(Name(s)) == s
  {
  }

  datatype Address = Address(fullName: string, street: string, city: string, state: string,
                             country: string, postalCode: string, phone: string)

  const EmptyAddress := Address("", "", "", "", "", "", "")

  /** One order line. The price is a snapshot in cents taken when the order is made,
      independent of the product's later price. */
  datatype OrderItem = OrderItem(product: nat, quantity: int, priceAtTime: int)

  datatype CreateOrderRequest = CreateOrderRequest(shipping: Address, billing: Address, paymentMethod: string)

  const PaymentMethods: seq<string> := ["cc", "dc", "cod"]

  /** Field errors of a create-order request under its declared rules: both addresses
      required, payment method required and one of cc, dc, cod. */
  function CreateOrderFieldErrors(req: CreateOrderRequest): (errs: map<string, string>)
    ensures |errs| == 0 <==>
      req.shipping != EmptyAddress && req.billing != EmptyAddress && req.paymentMethod in PaymentMethods
    ensures "PaymentMethod" in errs <==> req.paymentMethod !in PaymentMethods
    ensures "PaymentMethod" in errs && req.paymentMethod == "" ==> errs["PaymentMethod"] == "This field is required"
  {
    var a := if req.shipping == EmptyAddress then map["ShippingAddress" := Validators.ValidationMessage("required", "")] else map[];
    var b := if req.billing == EmptyAddress then map["BillingAddress" := Validators.ValidationMessage("required", "")] else map[];
    var c := if req.paymentMethod == "" then map["PaymentMethod" := Validators.ValidationMessage("required", "")]
             else if req.paymentMethod !in PaymentMethods then map["PaymentMethod" := Validators.ValidationMessage("oneof", "cc dc cod")]
             else map[];
    assert "ShippingAddress" != "BillingAddress" && "ShippingAddress" != "PaymentMethod" && "BillingAddress" != "PaymentMethod";
    a + b + c
  }

  /** Field errors of a status-update request: the status is required (non-empty). */
  function StatusRequestFieldErrors(status: string): (errs: map<string, string>)
    ensures |errs| == 0 <==> status != ""
  {
    if status == "" then map["Status" := Validators.ValidationMessage("required", "")] else map[]
  }
}
