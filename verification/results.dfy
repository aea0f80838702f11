/** Outcome values shared by every handler of the shop: an optional value, the
    reasons a request can be refused, and the HTTP status each reason is
    answered with. */
module Results {

  datatype Option<+T> = None | Some(value: T)

  /** Why a handler refused a request. Each constructor is one of the
      handlers' error responses; `Code` gives its HTTP status and `Message`
      its text. */
  datatype Reason =
    | NoItems                          // order request with no lines
    | InvalidPaymentMethod             // payment method missing or not cod/upi
    | UpiTransactionIdRequired         // upi chosen without a transaction id
    | SweetNotFoundWithId(id: nat)     // an order line names an unknown sweet
    | InsufficientStockFor(name: string) // an order line asks for more than the stock
    | InvalidQuantity                  // purchase/restock quantity missing or not positive
    | SweetNotFound                    // purchase/restock/update/delete of an unknown sweet
    | InsufficientStock                // purchase asks for more than the stock
    | OrderNotFound                    // approve/reject/cancel of an unknown order
    | AlreadyDecided(status: string)   // approve/reject of an order that is not pending
    | NotOrderOwner                    // cancel by someone other than the order's owner
    | OnlyPendingCancellable           // cancel of an order that is not pending
    | ValidationFailed                 // the Sweet schema rejected the fields
    | DuplicateName                    // the unique index on the sweet name rejected the write
    | AdminOnly                        // the admin gate in front of a route
    | ServerError                      // an exception caught by the handler's catch-all

  /** The HTTP status code the handler answers with. */
  function Code(r: Reason): (code: nat)
    ensures code in {400, 403, 404, 500}
    ensures code == 404 <==> (r.SweetNotFoundWithId? || r.SweetNotFound? || r.OrderNotFound?)
    ensures code == 403 <==> (r.NotOrderOwner? || r.AdminOnly?)
    ensures code == 500 <==> r.ServerError?
  {
    match r
    case SweetNotFoundWithId(_) => 404
    case SweetNotFound => 404
    case OrderNotFound => 404
    case NotOrderOwner => 403
    case AdminOnly => 403
    case ServerError => 500
    case _ => 400
  }

  /** The message text of the response body, for the messages the handlers
      write themselves; the others carry the text of a library exception
      or come from middleware that is not part of this model. */
  function Message(r: Reason): (m: Option<string>)
    ensures m.None? <==> r.ValidationFailed? || r.DuplicateName? || r.AdminOnly? || r.ServerError?
  {
    match r
    case NoItems => Some("No items in order")
    case InvalidPaymentMethod => Some("Please select a valid payment method (COD or UPI)")
    case UpiTransactionIdRequired => Some("UPI Transaction ID is required for UPI payment")
    case SweetNotFoundWithId(id) => Some("Sweet with ID " + Decimal(id) + " not found")
    case InsufficientStockFor(name) => Some("Insufficient stock for " + name)
    case InvalidQuantity => Some("Please provide a valid quantity")
    case SweetNotFound => Some("Sweet not found")
    case InsufficientStock => Some("Insufficient stock")
    case OrderNotFound => Some("Order not found")
    case AlreadyDecided(status) => Some("Order is already " + status)
    case NotOrderOwner => Some("Not authorized to cancel this order")
    case OnlyPendingCancellable => Some("Can only cancel pending orders")
    case _ => None
  }

  /** Decimal rendering of an identifier, for messages that quote it. */
  function Decimal(n: nat): string
    decreases n
  {
    if n < 10 then [Digit(n)] else Decimal(n / 10) + [Digit(n % 10)]
  }

  function Digit(d: nat): char
    requires d < 10
  {
    "0123456789"[d]
  }

  /** A handler's answer when its only effect is on one collection: the new
      value on success, the reason otherwise (and then nothing was written). */
  datatype Result<+T> = Ok(value: T) | Err(reason: Reason)
}
