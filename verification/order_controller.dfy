/** The order lifecycle. A customer places an order (validated against the
    catalog, nothing reserved); an admin approves it (stock deducted line by
    line) or rejects it (a reason recorded); the owner may cancel it while it
    is pending (the order is deleted). Every transition is a function from the
    shop's two collections to the new collections and an optional refusal. */
module OrderController {
  import opened Results
  import opened SweetModel
  import opened OrderModel
  import Text

  type Orders = map<OrderId, Order>

  /** The two collections the handlers read and write. */
  datatype Shop = Shop(catalog: Catalog, orders: Orders)

  /** A handler's effect: the collections afterwards and, when the request
      was refused, why. Approval can refuse after writing part of its
      effect, so a refusal does not by itself mean nothing changed. */
  datatype Reply = Reply(shop: Shop, error: Option<Reason>)

  /** The invariant of the whole shop: the catalog satisfies its schema and
      every order is well formed. */
  predicate ValidShop(s: Shop) {
    && ValidCatalog(s.catalog)
    && (forall id | id in s.orders :: WellFormed(s.orders[id]))
  }

  // ---------------------------------------------------------------------
  // Placing an order

  datatype LineRequest = LineRequest(sweetId: SweetId, quantity: int)

  /** The order request. An empty string stands for an absent payment method
      or transaction id. */
  datatype OrderRequest = OrderRequest(
    items: seq<LineRequest>,
    paymentMethod: string,
    upiTransactionId: string)

  /** The checks on the request itself, before the catalog is read: at least
      one line, a known payment method, and a transaction id for UPI. */
  function RequestError(req: OrderRequest): (r: Option<Reason>)
    ensures r.None? <==>
      && |req.items| > 0
      && ParsePaymentMethod(req.paymentMethod).Some?
      && !(req.paymentMethod == "upi" && req.upiTransactionId == "")
    ensures |req.items| == 0 ==> r == Some(NoItems)
    ensures |req.items| > 0 && ParsePaymentMethod(req.paymentMethod).None? ==> r == Some(InvalidPaymentMethod)
    ensures |req.items| > 0 && req.paymentMethod == "upi" && req.upiTransactionId == ""
            ==> r == Some(UpiTransactionIdRequired)
  {
    if |req.items| == 0 then Some(NoItems)
    else if ParsePaymentMethod(req.paymentMethod).None? then Some(InvalidPaymentMethod)
    else if req.paymentMethod == "upi" && req.upiTransactionId == "" then Some(UpiTransactionIdRequired)
    else None
  }

  /** The stock check of one requested line against the catalog. */
  function LineError(c: Catalog, l: LineRequest): (r: Option<Reason>)
    ensures r.None? <==> l.sweetId in c && l.quantity <= c[l.sweetId].quantity
    ensures l.sweetId !in c ==> r == Some(SweetNotFoundWithId(l.sweetId))
    ensures l.sweetId in c && c[l.sweetId].quantity < l.quantity
            ==> r == Some(InsufficientStockFor(c[l.sweetId].name))
  {
    if l.sweetId !in c then Some(SweetNotFoundWithId(l.sweetId))
    else if c[l.sweetId].quantity < l.quantity then Some(InsufficientStockFor(c[l.sweetId].name))
    else None
  }

  /** The index of the first line that fails its stock check, or the number
      of lines if none does. Every line is checked against the same catalog:
      nothing is reserved between lines. */
  function FirstFailingLine(c: Catalog, lines: seq<LineRequest>): (k: nat)
    ensures k <= |lines|
    ensures forall i | 0 <= i < k :: LineError(c, lines[i]).None?
    ensures k < |lines| ==> LineError(c, lines[k]).Some?
    decreases |lines|
  {
    if |lines| == 0 then 0
    else if LineError(c, lines[0]).Some? then 0
    else 1 + FirstFailingLine(c, lines[1..])
  }

  /** The order lines: each requested line becomes a copy of its sweet's id,
      name, category and current price with the requested quantity, in
      request order. */
  function Snapshot(c: Catalog, lines: seq<LineRequest>): (items: seq<OrderItem>)
    requires forall i | 0 <= i < |lines| :: lines[i].sweetId in c
    ensures |items| == |lines|
    ensures forall i | 0 <= i < |lines| ::
      && items[i].sweet == lines[i].sweetId
      && items[i].name == c[lines[i].sweetId].name
      && items[i].category == c[lines[i].sweetId].category
      && items[i].price == c[lines[i].sweetId].price
      && items[i].quantity == lines[i].quantity
  {
    seq(|lines|, i requires 0 <= i < |lines| =>
      var s := c[lines[i].sweetId];
      OrderItem(lines[i].sweetId, s.name, s.category, s.price, lines[i].quantity))
  }

  /** Place an order for customer `user`. The database assigns the fresh id
      `id` and the creation time `now`. The request checks come first, then
      each line's sweet and stock in line order; lines that pass the stock
      check but violate the line-item schema (fewer than one unit) make the
      final insert throw, which the handler answers with 500. The catalog is
      never written. */
  function CreateOrder(shop: Shop, user: UserId, req: OrderRequest, id: OrderId, now: nat): (r: Reply)
    requires id !in shop.orders
    ensures r.shop.catalog == shop.catalog
    ensures r.error.Some? ==> r.shop == shop
    ensures RequestError(req).Some? ==> r.error == RequestError(req)
    ensures RequestError(req).None? && FirstFailingLine(shop.catalog, req.items) < |req.items|
            ==> r.error == LineError(shop.catalog, req.items[FirstFailingLine(shop.catalog, req.items)])
    ensures RequestError(req).None? && FirstFailingLine(shop.catalog, req.items) == |req.items| && r.error.Some?
            ==> r.error == Some(ServerError)
    ensures r.error.None? ==>
      && RequestError(req).None?
      && (forall i | 0 <= i < |req.items| ::
            && req.items[i].sweetId in shop.catalog
            && 1 <= req.items[i].quantity <= shop.catalog[req.items[i].sweetId].quantity)
      && r.shop.orders.Keys == shop.orders.Keys + {id}
      && (forall k | k in shop.orders :: r.shop.orders[k] == shop.orders[k])
    ensures r.error.None? ==>
      var o := r.shop.orders[id];
      var m := ParsePaymentMethod(req.paymentMethod).value;
      && o.user == user
      && o.createdAt == now
      && o.status == Pending
      && o.rejectionReason.None?
      && o.items == Snapshot(shop.catalog, req.items)
      && o.totalAmount == Amount(o.items)
      && o.paymentMethod == m
      && o.paymentStatus == (if m == Cod then PaymentPending else PaymentCompleted)
      && o.upiTransactionId == (if m == Upi then Some(Text.Trim(req.upiTransactionId)) else None)
  {
    if RequestError(req).Some? then Reply(shop, RequestError(req))
    else
      var k := FirstFailingLine(shop.catalog, req.items);
      if k < |req.items| then Reply(shop, LineError(shop.catalog, req.items[k]))
      else
        var m := ParsePaymentMethod(req.paymentMethod).value;
        var items := Snapshot(shop.catalog, req.items);
        if !ValidItems(items) then Reply(shop, Some(ServerError))
        else
          var o := Order(
            user, items, Amount(items), m,
            if m == Cod then PaymentPending else PaymentCompleted,
            if m == Upi then Some(Text.Trim(req.upiTransactionId)) else None,
            Pending, None, now);
          Reply(Shop(shop.catalog, shop.orders[id := o]), None)
  }

  /** On a valid catalog, placing an order succeeds exactly when the request
      checks pass and every line names an existing sweet, asks for at least
      one unit, and asks for no more than that sweet's stock, each line on
      its own. */
  lemma CreateSucceedsIff(shop: Shop, user: UserId, req: OrderRequest, id: OrderId, now: nat)
    requires id !in shop.orders && ValidCatalog(shop.catalog)
    ensures CreateOrder(shop, user, req, id, now).error.None? <==>
      && RequestError(req).None?
      && (forall i | 0 <= i < |req.items| ::
            && req.items[i].sweetId in shop.catalog
            && 1 <= req.items[i].quantity <= shop.catalog[req.items[i].sweetId].quantity)
  {
    var c := shop.catalog;
    if RequestError(req).None? && (forall i | 0 <= i < |req.items| ::
          && req.items[i].sweetId in c
          && 1 <= req.items[i].quantity <= c[req.items[i].sweetId].quantity) {
      assert forall i | 0 <= i < |req.items| :: LineError(c, req.items[i]).None?;
      var items := Snapshot(c, req.items);
      assert forall i | 0 <= i < |items| :: ValidSweet(c[req.items[i].sweetId]) && ValidItem(items[i]);
    }
  }

  /** Two lines for the same sweet are each checked against the whole stock,
      so an order can be placed for more than is in stock: with 5 in stock,
      two lines of 3 are accepted. */
  lemma CreateChecksLinesIndependently(shop: Shop, user: UserId, id: OrderId, now: nat)
    requires id !in shop.orders && 7 in shop.catalog
    requires shop.catalog[7].quantity == 5 && shop.catalog[7].name != ""
    ensures var req := OrderRequest([LineRequest(7, 3), LineRequest(7, 3)], "cod", "");
            CreateOrder(shop, user, req, id, now).error.None?
  {
    var req := OrderRequest([LineRequest(7, 3), LineRequest(7, 3)], "cod", "");
    assert FirstFailingLine(shop.catalog, req.items[1..][1..]) == 0;
    assert FirstFailingLine(shop.catalog, req.items) == 2;
    var items := Snapshot(shop.catalog, req.items);
    assert ValidItem(items[0]) && ValidItem(items[1]);
  }

  /** A line for zero units passes the stock check but not the line-item
      schema, so the order is refused with 500 rather than 400. */
  lemma ZeroUnitLineIsServerError(shop: Shop, user: UserId, id: OrderId, now: nat, s: SweetId)
    requires id !in shop.orders && s in shop.catalog && shop.catalog[s].quantity >= 0
    ensures var req := OrderRequest([LineRequest(s, 0)], "cod", "");
            CreateOrder(shop, user, req, id, now) == Reply(shop, Some(ServerError))
  {
    var req := OrderRequest([LineRequest(s, 0)], "cod", "");
    assert FirstFailingLine(shop.catalog, req.items) == 1;
    assert !ValidItem(Snapshot(shop.catalog, req.items)[0]);
  }

  /** A transaction id of blanks passes the presence check and is stored
      trimmed, that is, empty. */
  lemma BlankUpiIdStoredEmpty(shop: Shop, user: UserId, id: OrderId, now: nat, s: SweetId)
    requires id !in shop.orders && s in shop.catalog && shop.catalog[s].quantity >= 1
    requires shop.catalog[s].name != ""
    ensures var req := OrderRequest([LineRequest(s, 1)], "upi", "  ");
            var r := CreateOrder(shop, user, req, id, now);
            r.error.None? && r.shop.orders[id].upiTransactionId == Some("")
              && r.shop.orders[id].paymentStatus == PaymentCompleted
  {
    var req := OrderRequest([LineRequest(s, 1)], "upi", "  ");
    assert FirstFailingLine(shop.catalog, req.items) == 1;
    assert ValidItem(Snapshot(shop.catalog, req.items)[0]);
    assert Text.TrimEnd("  ") == "";
  }

  /** Placing an order keeps the shop valid. */
  lemma CreateKeepsValid(shop: Shop, user: UserId, req: OrderRequest, id: OrderId, now: nat)
    requires id !in shop.orders && ValidShop(shop)
    ensures ValidShop(CreateOrder(shop, user, req, id, now).shop)
  {
  }

  // ---------------------------------------------------------------------
  // Approving an order

  /** The outcome of deducting an order's lines from the catalog: either
      every line was deducted, or line `at` could not be, and `catalog`
      holds the deductions of the lines before it. */
  datatype Deduction =
    | Deducted(catalog: Catalog)
    | Stopped(catalog: Catalog, at: nat, reason: Reason)

  /** Why one line cannot be deducted from the live catalog: its sweet was
      deleted since the order was placed (reading its stock throws, which
      the handler answers with 500), or the stock no longer covers it. */
  function StepError(c: Catalog, it: OrderItem): (r: Option<Reason>)
    ensures r.None? <==> it.sweet in c && it.quantity <= c[it.sweet].quantity
    ensures it.sweet !in c ==> r == Some(ServerError)
    ensures it.sweet in c && c[it.sweet].quantity < it.quantity
            ==> r == Some(InsufficientStockFor(c[it.sweet].name))
  {
    if it.sweet !in c then Some(ServerError)
    else if c[it.sweet].quantity < it.quantity then Some(InsufficientStockFor(c[it.sweet].name))
    else None
  }

  /** Deduct the lines one after another, re-reading the stock each time and
      stopping at the first line the stock does not cover. Deductions
      already made are kept. */
  function Deduct(c: Catalog, items: seq<OrderItem>): (r: Deduction)
    ensures r.catalog.Keys == c.Keys
    ensures r.Stopped? ==> r.at < |items|
    ensures r.Stopped? ==> r.reason.ServerError? || r.reason.InsufficientStockFor?
    decreases |items|
  {
    if |items| == 0 then Deducted(c)
    else if StepError(c, items[0]).Some? then Stopped(c, 0, StepError(c, items[0]).value)
    else Later(Deduct(Take(c, items[0]), items[1..]))
  }

  /** The catalog after deducting one line whose stock check passed. */
  function Take(c: Catalog, it: OrderItem): (r: Catalog)
    requires it.sweet in c
    ensures r == WithStock(c, it.sweet, c[it.sweet].quantity - it.quantity)
  {
    WithStock(c, it.sweet, c[it.sweet].quantity - it.quantity)
  }

  /** A deduction of the remaining lines, seen from one line earlier. */
  function Later(d: Deduction): (r: Deduction)
    ensures r.catalog == d.catalog && r.Deducted? == d.Deducted?
    ensures r.Stopped? ==> r.at == d.at + 1 && r.reason == d.reason
  {
    match d
    case Deducted(_) => d
    case Stopped(c, k, why) => Stopped(c, k + 1, why)
  }

  /** A deduction, complete or not, changes nothing but stock figures. */
  lemma {:induction false} DeductOnlyChangesStock(c: Catalog, items: seq<OrderItem>)
    ensures var r := Deduct(c, items).catalog;
            forall k | k in c :: r[k] == c[k].(quantity := r[k].quantity)
    decreases |items|
  {
    if |items| > 0 && StepError(c, items[0]).None? {
      var c1 := Take(c, items[0]);
      var r := Deduct(c1, items[1..]).catalog;
      assert Deduct(c, items).catalog == r;
      DeductOnlyChangesStock(c1, items[1..]);
      forall k | k in c
        ensures r[k] == c[k].(quantity := r[k].quantity)
      {
        assert r[k] == c1[k].(quantity := r[k].quantity);
      }
    }
  }

  /** Every line names an existing sweet whose stock covers the total that
      the order asks of it. */
  predicate Feasible(c: Catalog, items: seq<OrderItem>) {
    forall i | 0 <= i < |items| ::
      items[i].sweet in c && Demand(items, items[i].sweet) <= c[items[i].sweet].quantity
  }

  lemma {:induction false} DemandAbsent(items: seq<OrderItem>, s: SweetId)
    requires forall i | 0 <= i < |items| :: items[i].sweet != s
    ensures Demand(items, s) == 0
    decreases |items|
  {
    if |items| > 0 {
      DemandAbsent(items[1..], s);
    }
  }

  /** After a complete deduction, each sweet's stock has dropped by exactly
      the number of units the order asks of it, and nothing else changed. */
  lemma {:induction false} DeductedStock(c: Catalog, items: seq<OrderItem>)
    requires Deduct(c, items).Deducted?
    ensures forall k | k in c ::
      Deduct(c, items).catalog[k] == c[k].(quantity := c[k].quantity - Demand(items, k))
    decreases |items|
  {
    if |items| > 0 {
      var c1 := Take(c, items[0]);
      var d := Deduct(c1, items[1..]);
      assert Deduct(c, items).catalog == d.catalog;
      DeductedStock(c1, items[1..]);
      forall k | k in c
        ensures d.catalog[k] == c[k].(quantity := c[k].quantity - Demand(items, k))
      {
        assert d.catalog[k] == c1[k].(quantity := c1[k].quantity - Demand(items[1..], k));
      }
    }
  }

  /** Because the stock is re-read after every deduction, lines for the same
      sweet are checked against their running total: with non-negative
      quantities the deduction completes exactly when the order is
      feasible. */
  lemma {:induction false} DeductSucceedsIffFeasible(c: Catalog, items: seq<OrderItem>)
    requires forall i | 0 <= i < |items| :: items[i].quantity >= 0
    ensures Deduct(c, items).Deducted? <==> Feasible(c, items)
    decreases |items|
  {
    if |items| > 0 {
      var x := items[0];
      var rest := items[1..];
      DemandNonNegative(rest, x.sweet);
      if StepError(c, x).None? {
        var c1 := Take(c, x);
        assert Deduct(c, items).Deducted? == Deduct(c1, rest).Deducted?;
        DeductSucceedsIffFeasible(c1, rest);
        FeasibleAfterFirst(c, items);
      } else {
        assert !(x.sweet in c && Demand(items, x.sweet) <= c[x.sweet].quantity);
      }
    }
  }

  /** Once the first line passes its check, the whole order is feasible
      against the stock exactly when the remaining lines are feasible
      against the stock left after the first. */
  lemma {:induction false} FeasibleAfterFirst(c: Catalog, items: seq<OrderItem>)
    requires |items| > 0 && StepError(c, items[0]).None?
    ensures Feasible(c, items) <==> Feasible(Take(c, items[0]), items[1..])
  {
    var x := items[0];
    var rest := items[1..];
    var c1 := Take(c, x);
    // Each sweet's demand from the rest, against the stock left, is its
    // demand from the whole order against the original stock.
    forall s | s in c
      ensures Demand(rest, s) <= c1[s].quantity <==> Demand(items, s) <= c[s].quantity
    {
    }
    if Feasible(c1, rest) {
      if forall i | 0 <= i < |rest| :: rest[i].sweet != x.sweet {
        DemandAbsent(rest, x.sweet);
      } else {
        var i :| 0 <= i < |rest| && rest[i].sweet == x.sweet;
        assert Demand(rest, rest[i].sweet) <= c1[rest[i].sweet].quantity;
      }
      forall i | 0 <= i < |items|
        ensures items[i].sweet in c && Demand(items, items[i].sweet) <= c[items[i].sweet].quantity
      {
        if i > 0 {
          assert items[i] == rest[i - 1];
        }
      }
    }
    if Feasible(c, items) {
      forall i | 0 <= i < |rest|
        ensures rest[i].sweet in c1 && Demand(rest, rest[i].sweet) <= c1[rest[i].sweet].quantity
      {
        assert items[i + 1] == rest[i];
      }
    }
  }

  /** When a deduction stops at line k, the catalog it leaves is exactly the
      complete deduction of the lines before k, and line k is the one the
      stock it leaves does not cover: earlier lines stay deducted, line k
      and later ones are untouched. */
  lemma {:induction false} DeductStoppedAt(c: Catalog, items: seq<OrderItem>)
    requires Deduct(c, items).Stopped?
    ensures var r := Deduct(c, items);
            && r.at < |items|
            && Deduct(c, items[..r.at]) == Deducted(r.catalog)
            && StepError(r.catalog, items[r.at]) == Some(r.reason)
    decreases |items|
  {
    var r := Deduct(c, items);
    var x := items[0];
    if StepError(c, x).None? {
      var c1 := Take(c, x);
      var rest := items[1..];
      var d := Deduct(c1, rest);
      assert r == Later(d);
      DeductStoppedAt(c1, rest);
      var k := d.at;
      assert Deduct(c, items[..k + 1]) == Deducted(r.catalog) by {
        var prefix := items[..k + 1];
        assert prefix[0] == x;
        assert prefix[1..] == rest[..k];
        assert Deduct(c, prefix) == Later(Deduct(c1, rest[..k]));
      }
      assert items[r.at] == rest[k];
    } else {
      assert items[..0] == [];
    }
  }

  /** A deduction never makes a stock negative or breaks another schema
      constraint, even when it stops part way. */
  lemma {:induction false} DeductKeepsValid(c: Catalog, items: seq<OrderItem>)
    requires ValidCatalog(c)
    ensures ValidCatalog(Deduct(c, items).catalog)
    decreases |items|
  {
    if |items| > 0 {
      var x := items[0];
      if StepError(c, x).None? {
        var n := c[x.sweet].quantity - x.quantity;
        assert n >= 0;
        var c1 := Take(c, x);
        assert ValidCatalog(c1) by {
          WithStockValid(c, x.sweet, n);
        }
        assert Deduct(c, items).catalog == Deduct(c1, items[1..]).catalog;
        DeductKeepsValid(c1, items[1..]);
      } else {
        assert Deduct(c, items).catalog == c;
      }
    }
  }

  /** Approve order `id`. An unknown order gives 404 and an order that is no
      longer pending gives 400 naming its status, both with no effect. A
      pending order's lines are deducted from the stock one by one; if all
      are, the order becomes approved, otherwise the deductions made so far
      are kept and the order stays pending. Other orders never change. */
  function ApproveOrder(shop: Shop, id: OrderId): (r: Reply)
    ensures id !in shop.orders ==> r == Reply(shop, Some(OrderNotFound))
    ensures id in shop.orders && shop.orders[id].status != Pending
            ==> r == Reply(shop, Some(AlreadyDecided(StatusName(shop.orders[id].status))))
    ensures r.shop.orders.Keys == shop.orders.Keys
    ensures forall k | k in shop.orders && k != id :: r.shop.orders[k] == shop.orders[k]
    ensures id in shop.orders && shop.orders[id].status == Pending ==>
      && r.shop.catalog == Deduct(shop.catalog, shop.orders[id].items).catalog
      && (r.error.None? <==> Deduct(shop.catalog, shop.orders[id].items).Deducted?)
      && (r.error.None? ==> r.shop.orders[id] == shop.orders[id].(status := Approved))
      && (r.error.Some? ==> r.shop.orders == shop.orders
                            && r.error == Some(Deduct(shop.catalog, shop.orders[id].items).reason))
  {
    if id !in shop.orders then Reply(shop, Some(OrderNotFound))
    else
      var o := shop.orders[id];
      if o.status != Pending then Reply(shop, Some(AlreadyDecided(StatusName(o.status))))
      else
        match Deduct(shop.catalog, o.items)
        case Deducted(c') => Reply(Shop(c', shop.orders[id := o.(status := Approved)]), None)
        case Stopped(c', _, why) => Reply(Shop(c', shop.orders), Some(why))
  }

  /** A successful approval lowers each sweet's stock by what the order asks
      of it, keeps every stock non-negative, and succeeds exactly when the
      order is feasible against the stock at approval time. */
  lemma ApprovalStock(shop: Shop, id: OrderId)
    requires ValidShop(shop) && id in shop.orders && shop.orders[id].status == Pending
    ensures var o := shop.orders[id];
            ApproveOrder(shop, id).error.None? <==> Feasible(shop.catalog, o.items)
    ensures var o := shop.orders[id];
            var r := ApproveOrder(shop, id);
            r.error.None? ==>
              forall k | k in shop.catalog ::
                && r.shop.catalog[k].quantity == shop.catalog[k].quantity - Demand(o.items, k)
                && r.shop.catalog[k].quantity >= 0
  {
    var o := shop.orders[id];
    DeductSucceedsIffFeasible(shop.catalog, o.items);
    DeductKeepsValid(shop.catalog, o.items);
    if Deduct(shop.catalog, o.items).Deducted? {
      DeductedStock(shop.catalog, o.items);
    }
  }

  /** A failed approval of a pending order stops at some line k: the lines
      before k are deducted, the order stays pending, and the refusal is the
      one line k gets against the stock left, a 500 when its sweet has been
      deleted and an insufficient-stock refusal when it asks for more than
      what is left. */
  lemma ApprovalPartialFailure(shop: Shop, id: OrderId)
    requires id in shop.orders && shop.orders[id].status == Pending
    requires ApproveOrder(shop, id).error.Some?
    ensures var o := shop.orders[id];
            var r := ApproveOrder(shop, id);
            exists k | 0 <= k < |o.items| ::
              && Deduct(shop.catalog, o.items[..k]) == Deducted(r.shop.catalog)
              && StepError(r.shop.catalog, o.items[k]) == r.error
              && r.shop.orders[id].status == Pending
  {
    var o := shop.orders[id];
    DeductStoppedAt(shop.catalog, o.items);
    var k := Deduct(shop.catalog, o.items).at;
    assert Deduct(shop.catalog, o.items[..k]) == Deducted(ApproveOrder(shop, id).shop.catalog);
  }

  /** A failed approval takes from no sweet more than the order asks of
      it: every stock ends between its old value less the order's demand
      and its old value. */
  lemma ApprovalFailureTakesAtMostDemand(shop: Shop, id: OrderId)
    requires ValidShop(shop) && id in shop.orders && shop.orders[id].status == Pending
    requires ApproveOrder(shop, id).error.Some?
    ensures var o := shop.orders[id];
            var c' := ApproveOrder(shop, id).shop.catalog;
            && c'.Keys == shop.catalog.Keys
            && forall s | s in shop.catalog ::
                 shop.catalog[s].quantity - Demand(o.items, s) <= c'[s].quantity <= shop.catalog[s].quantity
  {
    var o := shop.orders[id];
    var c := shop.catalog;
    var c' := ApproveOrder(shop, id).shop.catalog;
    DeductStoppedAt(c, o.items);
    var k := Deduct(c, o.items).at;
    assert Deduct(c, o.items[..k]) == Deducted(c');
    DeductedStock(c, o.items[..k]);
    assert forall i | 0 <= i < |o.items| :: o.items[i].quantity >= 0 by {
      assert WellFormed(o);
    }
    forall s | s in c
      ensures c[s].quantity - Demand(o.items, s) <= c'[s].quantity <= c[s].quantity
    {
      DemandPrefix(o.items, k, s);
    }
  }

  /** An order whose first line's sweet has been deleted since it was
      placed cannot be approved: reading the missing sweet's stock throws,
      which the handler answers with 500, and nothing changes. */
  lemma ApproveAfterSweetDeleted(shop: Shop, id: OrderId)
    requires id in shop.orders && shop.orders[id].status == Pending
    requires |shop.orders[id].items| > 0 && shop.orders[id].items[0].sweet !in shop.catalog
    ensures ApproveOrder(shop, id) == Reply(shop, Some(ServerError))
  {
  }

  /** Approving twice: the second call is refused as already approved and
      changes nothing, so stock is deducted only once. */
  lemma ApproveTwice(shop: Shop, id: OrderId)
    requires ApproveOrder(shop, id).error.None?
    ensures var once := ApproveOrder(shop, id).shop;
            ApproveOrder(once, id) == Reply(once, Some(AlreadyDecided("approved")))
  {
  }

  /** Approval keeps the shop valid, whether it succeeds or stops. */
  lemma ApproveKeepsValid(shop: Shop, id: OrderId)
    requires ValidShop(shop)
    ensures ValidShop(ApproveOrder(shop, id).shop)
  {
    if id in shop.orders && shop.orders[id].status == Pending {
      DeductKeepsValid(shop.catalog, shop.orders[id].items);
    }
  }

  // ---------------------------------------------------------------------
  // Rejecting and cancelling

  const NoReasonGiven := "No reason provided"

  /** Reject order `id` with `reason` (empty when absent): 404 for an
      unknown order, 400 for one that is no longer pending; otherwise the
      order becomes rejected with the given reason or the placeholder. The
      catalog is never written. */
  function RejectOrder(shop: Shop, id: OrderId, reason: string): (r: Reply)
    ensures r.shop.catalog == shop.catalog
    ensures id !in shop.orders ==> r == Reply(shop, Some(OrderNotFound))
    ensures id in shop.orders && shop.orders[id].status != Pending
            ==> r == Reply(shop, Some(AlreadyDecided(StatusName(shop.orders[id].status))))
    ensures r.error.None? <==> id in shop.orders && shop.orders[id].status == Pending
    ensures r.error.None? ==>
      && id in r.shop.orders
      && r.shop.orders == shop.orders[id := r.shop.orders[id]]
      && r.shop.orders[id] == shop.orders[id].(
           status := Rejected,
           rejectionReason := Some(if reason == "" then NoReasonGiven else reason))
  {
    if id !in shop.orders then Reply(shop, Some(OrderNotFound))
    else
      var o := shop.orders[id];
      if o.status != Pending then Reply(shop, Some(AlreadyDecided(StatusName(o.status))))
      else
        var why := if reason == "" then NoReasonGiven else reason;
        Reply(Shop(shop.catalog, shop.orders[id := o.(status := Rejected, rejectionReason := Some(why))]), None)
  }

  lemma RejectKeepsValid(shop: Shop, id: OrderId, reason: string)
    requires ValidShop(shop)
    ensures ValidShop(RejectOrder(shop, id, reason).shop)
  {
  }

  /** Cancel order `id` on behalf of `user`: 404 for an unknown order, then
      403 for someone else's order, then 400 for an order that is no longer
      pending; otherwise the order is deleted. The catalog is never
      written. */
  function CancelOrder(shop: Shop, id: OrderId, user: UserId): (r: Reply)
    ensures r.shop.catalog == shop.catalog
    ensures id !in shop.orders ==> r == Reply(shop, Some(OrderNotFound))
    ensures id in shop.orders && shop.orders[id].user != user ==> r == Reply(shop, Some(NotOrderOwner))
    ensures id in shop.orders && shop.orders[id].user == user && shop.orders[id].status != Pending
            ==> r == Reply(shop, Some(OnlyPendingCancellable))
    ensures r.error.None? <==>
      id in shop.orders && shop.orders[id].user == user && shop.orders[id].status == Pending
    ensures r.error.None? ==>
      && r.shop.orders.Keys == shop.orders.Keys - {id}
      && (forall k | k in r.shop.orders :: r.shop.orders[k] == shop.orders[k])
  {
    if id !in shop.orders then Reply(shop, Some(OrderNotFound))
    else
      var o := shop.orders[id];
      if o.user != user then Reply(shop, Some(NotOrderOwner))
      else if o.status != Pending then Reply(shop, Some(OnlyPendingCancellable))
      else Reply(Shop(shop.catalog, shop.orders - {id}), None)
  }

  lemma CancelKeepsValid(shop: Shop, id: OrderId, user: UserId)
    requires ValidShop(shop)
    ensures ValidShop(CancelOrder(shop, id, user).shop)
  {
  }

  // ---------------------------------------------------------------------
  // Listing orders

  /** The ids of the orders that belong to `user`. */
  function OwnedBy(orders: Orders, user: UserId): (ids: set<OrderId>)
    ensures forall k :: k in ids <==> k in orders && orders[k].user == user
  {
    set k | k in orders && orders[k].user == user
  }

  /** A cancelled order disappears from its owner's order history and
      nothing else does. */
  lemma CancelRemovesFromHistory(shop: Shop, id: OrderId, user: UserId)
    requires CancelOrder(shop, id, user).error.None?
    ensures OwnedBy(CancelOrder(shop, id, user).shop.orders, user) == OwnedBy(shop.orders, user) - {id}
    ensures id in OwnedBy(shop.orders, user)
  {
  }

  predicate AllIn(orders: Orders, ids: seq<OrderId>) {
    forall i | 0 <= i < |ids| :: ids[i] in orders
  }

  /** `ids` lists orders by creation time, most recent first. */
  predicate NewestFirst(orders: Orders, ids: seq<OrderId>) {
    && AllIn(orders, ids)
    && (forall i, j | 0 <= i < j < |ids| :: orders[ids[i]].createdAt >= orders[ids[j]].createdAt)
  }

  predicate Distinct(ids: seq<OrderId>) {
    forall i, j | 0 <= i < j < |ids| :: ids[i] != ids[j]
  }

  /** Insert `k` into a newest-first list, before every order that is not
      more recent. */
  function InsertByDate(orders: Orders, ids: seq<OrderId>, k: OrderId): (r: seq<OrderId>)
    requires k in orders && NewestFirst(orders, ids)
    ensures NewestFirst(orders, r)
    ensures |r| == |ids| + 1
    ensures forall x :: x in r <==> x in ids || x == k
    ensures Distinct(ids) && k !in ids ==> Distinct(r)
    decreases |ids|
  {
    if |ids| == 0 then [k]
    else if orders[k].createdAt >= orders[ids[0]].createdAt then
      ConsNewest(orders, k, ids);
      ConsDistinct(k, ids);
      [k] + ids
    else
      var t := InsertByDate(orders, ids[1..], k);
      assert forall x | x in t :: orders[ids[0]].createdAt >= orders[x].createdAt by {
        forall x | x in t
          ensures orders[ids[0]].createdAt >= orders[x].createdAt
        {
          if x != k {
            var j :| 0 <= j < |ids[1..]| && ids[1..][j] == x;
            assert x == ids[j + 1];
          }
        }
      }
      ConsNewest(orders, ids[0], t);
      assert Distinct(ids) ==> Distinct(ids[1..]) && ids[0] !in ids[1..];
      ConsDistinct(ids[0], t);
      [ids[0]] + t
  }

  /** An order at least as recent as every listed one can go in front. */
  lemma ConsNewest(orders: Orders, k: OrderId, ids: seq<OrderId>)
    requires k in orders && NewestFirst(orders, ids)
    requires forall x | x in ids :: orders[k].createdAt >= orders[x].createdAt
    ensures NewestFirst(orders, [k] + ids)
  {
    var r := [k] + ids;
    forall i, j | 0 <= i < j < |r|
      ensures orders[r[i]].createdAt >= orders[r[j]].createdAt
    {
      assert r[j] == ids[j - 1];
      if i > 0 {
        assert r[i] == ids[i - 1];
      }
    }
  }

  /** An id not yet listed can go in front of a list without repeats. */
  lemma ConsDistinct(k: OrderId, ids: seq<OrderId>)
    ensures Distinct(ids) && k !in ids ==> Distinct([k] + ids)
  {
    if Distinct(ids) && k !in ids {
      var r := [k] + ids;
      forall i, j | 0 <= i < j < |r|
        ensures r[i] != r[j]
      {
        assert r[j] == ids[j - 1];
        if i > 0 {
          assert r[i] == ids[i - 1];
        }
      }
    }
  }

  /** The order history: the orders of `owner` (of everyone when absent),
      each once, newest first. Orders created at the same time may come in
      either order. */
  method ListOrders(orders: Orders, owner: Option<UserId>) returns (ids: seq<OrderId>)
    ensures NewestFirst(orders, ids)
    ensures Distinct(ids)
    ensures forall k :: k in ids <==> k in orders && (owner.None? || orders[k].user == owner.value)
  {
    ids := [];
    var rest := orders.Keys;
    while rest != {}
      invariant rest <= orders.Keys
      invariant NewestFirst(orders, ids) && Distinct(ids)
      invariant forall k :: k in ids ==>
        k in orders && k !in rest && (owner.None? || orders[k].user == owner.value)
      invariant forall k | k in orders && k !in rest && (owner.None? || orders[k].user == owner.value) ::
        k in ids
      decreases rest
    {
      var k :| k in rest;
      if owner.None? || orders[k].user == owner.value {
        ids := InsertByDate(orders, ids, k);
      }
      rest := rest - {k};
    }
  }
}
