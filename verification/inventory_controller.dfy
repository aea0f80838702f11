/** The stock handlers: a direct purchase decrements a sweet's stock after
    checking it, a restock increments it without an upper bound. */
module InventoryController {
  import opened Results
  import opened SweetModel

  /** Purchase `q` units of sweet `id`. A missing or non-positive quantity
      (0 stands for a missing one) is refused first, then an unknown id,
      then a quantity above the stock; otherwise only that sweet's stock
      drops by `q`. */
  function Purchase(c: Catalog, id: SweetId, q: int): (r: Result<Catalog>)
    ensures q <= 0 ==> r == Err(InvalidQuantity)
    ensures q > 0 && id !in c ==> r == Err(SweetNotFound)
    ensures q > 0 && id in c && c[id].quantity < q ==> r == Err(InsufficientStock)
    ensures r.Ok? <==> q > 0 && id in c && q <= c[id].quantity
    ensures r.Ok? ==> && r.value.Keys == c.Keys
                      && r.value[id] == c[id].(quantity := c[id].quantity - q)
                      && r.value[id].quantity >= 0
                      && (forall k | k in c && k != id :: r.value[k] == c[k])
  {
    if q <= 0 then Err(InvalidQuantity)
    else if id !in c then Err(SweetNotFound)
    else if c[id].quantity < q then Err(InsufficientStock)
    else Ok(WithStock(c, id, c[id].quantity - q))
  }

  /** Restock `q` units of sweet `id`: the same quantity and id checks as a
      purchase, and no stock check. */
  function Restock(c: Catalog, id: SweetId, q: int): (r: Result<Catalog>)
    ensures q <= 0 ==> r == Err(InvalidQuantity)
    ensures q > 0 && id !in c ==> r == Err(SweetNotFound)
    ensures r.Ok? <==> q > 0 && id in c
    ensures r.Ok? ==> && r.value.Keys == c.Keys
                      && r.value[id] == c[id].(quantity := c[id].quantity + q)
                      && (forall k | k in c && k != id :: r.value[k] == c[k])
  {
    if q <= 0 then Err(InvalidQuantity)
    else if id !in c then Err(SweetNotFound)
    else Ok(WithStock(c, id, c[id].quantity + q))
  }

  /** A purchase cannot make a stock negative or break another schema
      constraint. */
  lemma PurchaseKeepsValid(c: Catalog, id: SweetId, q: int)
    requires ValidCatalog(c) && Purchase(c, id, q).Ok?
    ensures ValidCatalog(Purchase(c, id, q).value)
  {
    WithStockValid(c, id, c[id].quantity - q);
  }

  /** Nor can a restock. */
  lemma RestockKeepsValid(c: Catalog, id: SweetId, q: int)
    requires ValidCatalog(c) && Restock(c, id, q).Ok?
    ensures ValidCatalog(Restock(c, id, q).value)
  {
    WithStockValid(c, id, c[id].quantity + q);
  }

  /** A successful purchase followed by a restock of the same amount gives
      back the original catalog. */
  lemma PurchaseThenRestock(c: Catalog, id: SweetId, q: int)
    requires Purchase(c, id, q).Ok?
    ensures Restock(Purchase(c, id, q).value, id, q) == Ok(c)
  {
    var c1 := Purchase(c, id, q).value;
    assert c1[id := c1[id].(quantity := c1[id].quantity + q)] == c;
  }

  /** A restock followed by a purchase of the same amount always succeeds
      and gives back the original catalog. */
  lemma RestockThenPurchase(c: Catalog, id: SweetId, q: int)
    requires ValidCatalog(c) && Restock(c, id, q).Ok?
    ensures Purchase(Restock(c, id, q).value, id, q) == Ok(c)
  {
    var c1 := Restock(c, id, q).value;
    assert c1[id := c1[id].(quantity := c1[id].quantity - q)] == c;
  }

  /** The inventory scenario: a stock of 50 drops to 40 on a purchase of
      10, a purchase of 100 is refused with the stock kept, and a restock
      of 20 brings it to 60. */
  lemma InventoryScenario(c: Catalog, id: SweetId)
    requires id in c && c[id].quantity == 50
    ensures Purchase(c, id, 10).Ok? && Purchase(c, id, 10).value[id].quantity == 40
    ensures Purchase(Purchase(c, id, 10).value, id, 100) == Err(InsufficientStock)
    ensures Message(Purchase(Purchase(c, id, 10).value, id, 100).reason) == Some("Insufficient stock")
    ensures Restock(Purchase(c, id, 10).value, id, 20).Ok?
    ensures Restock(Purchase(c, id, 10).value, id, 20).value[id].quantity == 60
  {
  }
}
