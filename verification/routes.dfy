/** The routes in front of the handlers: which requests need the admin role,
    and the dispatch of one authenticated request to its handler. Every
    request leaves a valid shop valid, so stock never goes negative, names
    stay unique and trimmed, and no order is ever marked completed. */
module Routes {
  import opened Results
  import opened SweetModel
  import opened OrderModel
  import SweetController
  import InventoryController
  import opened OrderController

  datatype Role = Customer | Admin

  /** The authenticated user a request comes from. */
  datatype Caller = Caller(user: UserId, role: Role)

  /** The requests that write. `newSweet`, `newOrder` and `now` are the
      identifiers and creation time the database assigns. */
  datatype Request =
    | AddSweetRequest(fields: SweetFields, newSweet: SweetId)
    | UpdateSweetRequest(sweet: SweetId, patch: SweetFields)
    | DeleteSweetRequest(sweet: SweetId)
    | PurchaseRequest(sweet: SweetId, quantity: int)
    | RestockRequest(sweet: SweetId, quantity: int)
    | PlaceOrderRequest(order: OrderRequest, newOrder: OrderId, now: nat)
    | ApproveRequest(orderId: OrderId)
    | RejectRequest(orderId: OrderId, reason: string)
    | CancelRequest(orderId: OrderId)

  /** The routes behind the admin gate. */
  predicate AdminRoute(req: Request) {
    req.DeleteSweetRequest? || req.RestockRequest? || req.ApproveRequest? || req.RejectRequest?
  }

  /** The identifiers the database assigns are not in use. */
  predicate FreshIds(shop: Shop, req: Request) {
    && (req.AddSweetRequest? ==> req.newSweet !in shop.catalog)
    && (req.PlaceOrderRequest? ==> req.newOrder !in shop.orders)
  }

  /** The reply of a handler that only touches the catalog. */
  function OnCatalog(shop: Shop, r: Result<Catalog>): (reply: Reply)
    ensures reply.shop.orders == shop.orders
    ensures r.Ok? ==> reply == Reply(shop.(catalog := r.value), None)
    ensures r.Err? ==> reply == Reply(shop, Some(r.reason))
  {
    match r
    case Ok(c) => Reply(shop.(catalog := c), None)
    case Err(why) => Reply(shop, Some(why))
  }

  /** Handle one request. A customer is turned away from the admin routes
      with 403 and no effect. Only approval can write when it refuses; every
      other refusal leaves the shop as it was. Catalog requests never touch
      the orders, and only approval, among the order requests, touches the
      catalog. */
  function Dispatch(shop: Shop, caller: Caller, req: Request): (r: Reply)
    requires FreshIds(shop, req)
    ensures AdminRoute(req) && caller.role != Admin ==> r == Reply(shop, Some(AdminOnly))
    ensures r.error == Some(AdminOnly) <==> AdminRoute(req) && caller.role != Admin
    ensures req.AddSweetRequest? ==>
      r == OnCatalog(shop, SweetController.AddSweet(shop.catalog, req.fields, req.newSweet))
    ensures req.UpdateSweetRequest? ==>
      r == OnCatalog(shop, SweetController.UpdateSweet(shop.catalog, req.sweet, req.patch))
    ensures req.DeleteSweetRequest? && caller.role == Admin ==>
      r == OnCatalog(shop, SweetController.DeleteSweet(shop.catalog, req.sweet))
    ensures req.PurchaseRequest? ==>
      r == OnCatalog(shop, InventoryController.Purchase(shop.catalog, req.sweet, req.quantity))
    ensures req.RestockRequest? && caller.role == Admin ==>
      r == OnCatalog(shop, InventoryController.Restock(shop.catalog, req.sweet, req.quantity))
    ensures req.PlaceOrderRequest? ==> r == CreateOrder(shop, caller.user, req.order, req.newOrder, req.now)
    ensures req.ApproveRequest? && caller.role == Admin ==> r == ApproveOrder(shop, req.orderId)
    ensures req.RejectRequest? && caller.role == Admin ==> r == RejectOrder(shop, req.orderId, req.reason)
    ensures req.CancelRequest? ==> r == CancelOrder(shop, req.orderId, caller.user)
    ensures r.error.Some? && !req.ApproveRequest? ==> r.shop == shop
    ensures (|| req.AddSweetRequest? || req.UpdateSweetRequest? || req.DeleteSweetRequest?
             || req.PurchaseRequest? || req.RestockRequest?) ==> r.shop.orders == shop.orders
    ensures (req.PlaceOrderRequest? || req.RejectRequest? || req.CancelRequest?)
            ==> r.shop.catalog == shop.catalog
  {
    if AdminRoute(req) && caller.role != Admin then Reply(shop, Some(AdminOnly))
    else
      match req
      case AddSweetRequest(f, id) => OnCatalog(shop, SweetController.AddSweet(shop.catalog, f, id))
      case UpdateSweetRequest(id, f) => OnCatalog(shop, SweetController.UpdateSweet(shop.catalog, id, f))
      case DeleteSweetRequest(id) => OnCatalog(shop, SweetController.DeleteSweet(shop.catalog, id))
      case PurchaseRequest(id, q) => OnCatalog(shop, InventoryController.Purchase(shop.catalog, id, q))
      case RestockRequest(id, q) => OnCatalog(shop, InventoryController.Restock(shop.catalog, id, q))
      case PlaceOrderRequest(o, id, now) => CreateOrder(shop, caller.user, o, id, now)
      case ApproveRequest(id) => ApproveOrder(shop, id)
      case RejectRequest(id, why) => RejectOrder(shop, id, why)
      case CancelRequest(id) => CancelOrder(shop, id, caller.user)
  }

  /** Every request keeps the shop valid: no stock becomes negative, names
      stay unique and trimmed, every order stays well formed and none is
      ever marked completed. */
  lemma {:induction false} DispatchKeepsValid(shop: Shop, caller: Caller, req: Request)
    requires ValidShop(shop) && FreshIds(shop, req)
    ensures ValidShop(Dispatch(shop, caller, req).shop)
  {
    if !(AdminRoute(req) && caller.role != Admin) {
      var r := Dispatch(shop, caller, req);
      match req
      case AddSweetRequest(f, id) =>
        if SweetController.AddSweet(shop.catalog, f, id).Ok? {
          SweetController.AddSweetKeepsValid(shop.catalog, f, id);
        }
      case UpdateSweetRequest(id, f) =>
      case DeleteSweetRequest(id) =>
      case PurchaseRequest(id, q) =>
        if InventoryController.Purchase(shop.catalog, id, q).Ok? {
          InventoryController.PurchaseKeepsValid(shop.catalog, id, q);
        }
      case RestockRequest(id, q) =>
        if InventoryController.Restock(shop.catalog, id, q).Ok? {
          InventoryController.RestockKeepsValid(shop.catalog, id, q);
        }
      case PlaceOrderRequest(o, id, now) =>
        assert r == CreateOrder(shop, caller.user, o, id, now);
        CreateKeepsValid(shop, caller.user, o, id, now);
      case ApproveRequest(id) =>
        assert r == ApproveOrder(shop, id);
        ApproveKeepsValid(shop, id);
      case RejectRequest(id, why) =>
        assert r == RejectOrder(shop, id, why);
        RejectKeepsValid(shop, id, why);
      case CancelRequest(id) =>
        assert r == CancelOrder(shop, id, caller.user);
        CancelKeepsValid(shop, id, caller.user);
    }
  }
}
