/** The Order schema: line items snapshotted from the catalog, the payment
    and lifecycle enums, and the sums over lines that the handlers use. */
module OrderModel {
  import opened Results
  import opened SweetModel

  type UserId = nat
  type OrderId = nat

  datatype PaymentMethod = Cod | Upi
  datatype PaymentStatus = PaymentPending | PaymentCompleted | PaymentFailed
  datatype OrderStatus = Pending | Approved | Rejected | Completed

  /** The defaults the schema declares. Order creation sets every one of
      these fields explicitly, so they are never observed. */
  const DefaultPaymentMethod: PaymentMethod := Cod
  const DefaultPaymentStatus: PaymentStatus := PaymentPending
  const DefaultStatus: OrderStatus := Pending

  function MethodName(m: PaymentMethod): string {
    match m
    case Cod => "cod"
    case Upi => "upi"
  }

  /** The request's payment method is accepted exactly when it spells one
      of the two methods. */
  function ParsePaymentMethod(s: string): (r: Option<PaymentMethod>)
    ensures forall m: PaymentMethod :: r == Some(m) <==> MethodName(m) == s
  {
    if s == "cod" then Some(Cod) else if s == "upi" then Some(Upi) else None
  }

  /** The spelling of a status, as quoted in the "already" refusals. */
  function StatusName(s: OrderStatus): string {
    match s
    case Pending => "pending"
    case Approved => "approved"
    case Rejected => "rejected"
    case Completed => "completed"
  }

  /** One line of an order: the sweet it refers to and a copy of that
      sweet's name, category and price when the order was placed. */
  datatype OrderItem = OrderItem(
    sweet: SweetId,
    name: string,
    category: Category,
    price: int,
    quantity: int)

  datatype Order = Order(
    user: UserId,
    items: seq<OrderItem>,
    totalAmount: int,
    paymentMethod: PaymentMethod,
    paymentStatus: PaymentStatus,
    upiTransactionId: Option<string>,
    status: OrderStatus,
    rejectionReason: Option<string>,
    createdAt: nat)

  /** The line-item schema: a name is required and at least one unit is
      ordered. */
  predicate ValidItem(it: OrderItem) {
    it.name != "" && it.quantity >= 1
  }

  predicate ValidItems(items: seq<OrderItem>) {
    forall i | 0 <= i < |items| :: ValidItem(items[i])
  }

  /** Sum of price times quantity over the lines; never negative when no
      price or quantity is. */
  function Amount(items: seq<OrderItem>): (r: int)
    ensures (forall i | 0 <= i < |items| :: items[i].price >= 0 && items[i].quantity >= 0) ==> r >= 0
    decreases |items|
  {
    if |items| == 0 then 0
    else
      assert forall i | 0 <= i < |items| - 1 :: items[1..][i] == items[i + 1];
      items[0].price * items[0].quantity + Amount(items[1..])
  }

  /** Units of sweet `s` the lines ask for in all. */
  function Demand(items: seq<OrderItem>, s: SweetId): int {
    if |items| == 0 then 0
    else (if items[0].sweet == s then items[0].quantity else 0) + Demand(items[1..], s)
  }

  /** The amount of a concatenation is the sum of the amounts. */
  lemma {:induction false} AmountAppend(a: seq<OrderItem>, b: seq<OrderItem>)
    ensures Amount(a + b) == Amount(a) + Amount(b)
    decreases |a|
  {
    if |a| > 0 {
      assert (a + b)[1..] == a[1..] + b;
      AmountAppend(a[1..], b);
    } else {
      assert a + b == b;
    }
  }

  /** The amount agrees with the running sum of a left-to-right reduce:
      the amount of all lines but the last, plus the last line. */
  lemma AmountIsReduce(items: seq<OrderItem>)
    requires |items| > 0
    ensures var n := |items|;
            Amount(items) == Amount(items[..n - 1]) + items[n - 1].price * items[n - 1].quantity
  {
    var n := |items|;
    assert items == items[..n - 1] + [items[n - 1]];
    AmountAppend(items[..n - 1], [items[n - 1]]);
  }

  /** With non-negative quantities, a prefix never asks for more than the
      whole order. */
  lemma {:induction false} DemandPrefix(items: seq<OrderItem>, k: int, s: SweetId)
    requires 0 <= k <= |items|
    requires forall i | 0 <= i < |items| :: items[i].quantity >= 0
    ensures 0 <= Demand(items[..k], s) <= Demand(items, s)
    decreases |items|
  {
    if k > 0 {
      assert items[..k][1..] == items[1..][..k - 1];
      DemandPrefix(items[1..], k - 1, s);
    } else {
      DemandNonNegative(items, s);
    }
  }

  lemma {:induction false} DemandNonNegative(items: seq<OrderItem>, s: SweetId)
    requires forall i | 0 <= i < |items| :: items[i].quantity >= 0
    ensures Demand(items, s) >= 0
    decreases |items|
  {
    if |items| > 0 {
      DemandNonNegative(items[1..], s);
    }
  }

  /** What every order the handlers create keeps for its whole life: at
      least one valid line, a total equal to the amount of its lines, a
      payment status fixed by the method, a transaction id exactly for UPI,
      a rejection reason exactly when rejected, and never the reserved
      `Completed` status. */
  predicate WellFormed(o: Order) {
    && |o.items| > 0
    && ValidItems(o.items)
    && o.totalAmount == Amount(o.items)
    && o.paymentStatus == (if o.paymentMethod == Cod then PaymentPending else PaymentCompleted)
    && (o.upiTransactionId.Some? <==> o.paymentMethod == Upi)
    && (o.rejectionReason.Some? <==> o.status == Rejected)
    && o.status != Completed
  }
}
