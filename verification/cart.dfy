/** The client-side cart: a list of catalog listings keyed by sweet id, held
    in the browser. A line is a copy of the listing whose `quantity` field is
    overwritten with the number of units in the cart, so the stock figure the
    listing carried is lost once the line exists. */
module Cart {
  import opened SweetModel

  type Cart = seq<Listing>

  /** The quantity a line carries: for a catalog listing its stock, for a
      cart line the units in the cart. */
  function Qty(l: Listing): int {
    l.doc.quantity
  }

  function WithQty(l: Listing, n: int): (r: Listing)
    ensures r.id == l.id && Qty(r) == n
  {
    l.(doc := l.doc.(quantity := n))
  }

  /** No sweet has two lines. */
  predicate UniqueIds(cart: Cart) {
    forall i, j | 0 <= i < j < |cart| :: cart[i].id != cart[j].id
  }

  /** The position of the first line for `id`, or the length of the cart if
      there is none. */
  function IndexOf(cart: Cart, id: SweetId): (k: nat)
    ensures k <= |cart|
    ensures k < |cart| ==> cart[k].id == id
    ensures forall i | 0 <= i < k :: cart[i].id != id
    decreases |cart|
  {
    if |cart| == 0 then 0
    else if cart[0].id == id then 0
    else 1 + IndexOf(cart[1..], id)
  }

  /** Every line for `id` gets `q` more units. */
  function Bump(cart: Cart, id: SweetId, q: int): (r: Cart)
    ensures |r| == |cart|
    ensures forall i | 0 <= i < |cart| ::
      r[i] == if cart[i].id == id then WithQty(cart[i], Qty(cart[i]) + q) else cart[i]
  {
    seq(|cart|, i requires 0 <= i < |cart| =>
      if cart[i].id == id then WithQty(cart[i], Qty(cart[i]) + q) else cart[i])
  }

  /** Every line for `id` gets quantity `q`. */
  function SetQuantity(cart: Cart, id: SweetId, q: int): (r: Cart)
    ensures |r| == |cart|
    ensures forall i | 0 <= i < |cart| ::
      r[i] == if cart[i].id == id then WithQty(cart[i], q) else cart[i]
  {
    seq(|cart|, i requires 0 <= i < |cart| =>
      if cart[i].id == id then WithQty(cart[i], q) else cart[i])
  }

  /** Whether adding `q` units of listing `s` is accepted: the units already
      in the cart plus `q` may not exceed the listing's stock. */
  predicate AddAccepted(cart: Cart, s: Listing, q: int) {
    var k := IndexOf(cart, s.id);
    if k < |cart| then Qty(cart[k]) + q <= Qty(s) else q <= Qty(s)
  }

  /** Add `q` units of catalog listing `s`. A sweet already in the cart gets
      `q` more units on its line when the stock allows; a new sweet gets a
      line at the end that copies the listing with its quantity set to `q`.
      A refused addition leaves the cart as it was. */
  function AddToCart(cart: Cart, s: Listing, q: int): (r: Cart)
    ensures IndexOf(cart, s.id) == |cart| ==>
      r == (if q <= Qty(s) then cart + [WithQty(s, q)] else cart)
    ensures IndexOf(cart, s.id) < |cart| && UniqueIds(cart) ==>
      var k := IndexOf(cart, s.id);
      r == (if Qty(cart[k]) + q <= Qty(s) then cart[k := WithQty(cart[k], Qty(cart[k]) + q)] else cart)
    ensures IndexOf(cart, s.id) < |cart| && AddAccepted(cart, s, q) ==>
      && |r| == |cart|
      && forall i | 0 <= i < |cart| ::
           r[i] == if cart[i].id == s.id then WithQty(cart[i], Qty(cart[i]) + q) else cart[i]
    ensures !AddAccepted(cart, s, q) ==> r == cart
  {
    var k := IndexOf(cart, s.id);
    if k < |cart| then
      if Qty(cart[k]) + q > Qty(s) then cart
      else
        var r := Bump(cart, s.id, q);
        assert UniqueIds(cart) ==> r == cart[k := WithQty(cart[k], Qty(cart[k]) + q)];
        r
    else if q > Qty(s) then cart
    else cart + [WithQty(s, q)]
  }

  /** Adding keeps one line per sweet. */
  lemma AddKeepsUnique(cart: Cart, s: Listing, q: int)
    requires UniqueIds(cart)
    ensures UniqueIds(AddToCart(cart, s, q))
  {
    var k := IndexOf(cart, s.id);
    var r := AddToCart(cart, s, q);
    if k == |cart| && q <= Qty(s) {
      forall i, j | 0 <= i < j < |r|
        ensures r[i].id != r[j].id
      {
        if j == |cart| {
          assert r[i] == cart[i];
        } else {
          assert r[i] == cart[i] && r[j] == cart[j];
        }
      }
    }
  }

  /** Drop every line for `id`, keeping the others in order. */
  function RemoveFromCart(cart: Cart, id: SweetId): (r: Cart)
    ensures |r| <= |cart|
    ensures forall x :: x in r <==> x in cart && x.id != id
    ensures (forall i | 0 <= i < |cart| :: cart[i].id != id) ==> r == cart
    decreases |cart|
  {
    if |cart| == 0 then []
    else if cart[0].id == id then RemoveFromCart(cart[1..], id)
    else [cart[0]] + RemoveFromCart(cart[1..], id)
  }

  /** Removal keeps one line per sweet. */
  lemma {:induction false} RemoveKeepsUnique(cart: Cart, id: SweetId)
    requires UniqueIds(cart)
    ensures UniqueIds(RemoveFromCart(cart, id))
    decreases |cart|
  {
    if |cart| > 0 {
      var rest := cart[1..];
      assert UniqueIds(rest) by {
        forall i, j | 0 <= i < j < |rest|
          ensures rest[i].id != rest[j].id
        {
          assert rest[i] == cart[i + 1] && rest[j] == cart[j + 1];
        }
      }
      RemoveKeepsUnique(rest, id);
      if cart[0].id != id {
        var r := RemoveFromCart(rest, id);
        forall x | x in r
          ensures x.id != cart[0].id
        {
          var j :| 0 <= j < |rest| && rest[j] == x;
          assert x == cart[j + 1];
        }
        ConsUnique(cart[0], r);
      }
    }
  }

  /** A line for a sweet the cart has no line for can go in front. */
  lemma ConsUnique(l: Listing, cart: Cart)
    requires UniqueIds(cart) && forall x | x in cart :: x.id != l.id
    ensures UniqueIds([l] + cart)
  {
    var r := [l] + cart;
    forall i, j | 0 <= i < j < |r|
      ensures r[i].id != r[j].id
    {
      assert r[j] == cart[j - 1];
      if i > 0 {
        assert r[i] == cart[i - 1];
      }
    }
  }

  /** Set the units of `id` to `q`. A non-positive `q` removes the line. A
      `q` above the line's current quantity is refused: the line's quantity
      field is compared, and since that field holds the units already in
      the cart rather than the stock, a line can never be raised this way.
      Otherwise only that line changes. */
  function UpdateQuantity(cart: Cart, id: SweetId, q: int): (r: Cart)
    ensures q <= 0 ==> r == RemoveFromCart(cart, id)
    ensures q > 0 && IndexOf(cart, id) == |cart| ==> r == cart
    ensures q > 0 && IndexOf(cart, id) < |cart| && q > Qty(cart[IndexOf(cart, id)]) ==> r == cart
    ensures q > 0 && IndexOf(cart, id) < |cart| && q <= Qty(cart[IndexOf(cart, id)]) && UniqueIds(cart)
            ==> r == cart[IndexOf(cart, id) := WithQty(cart[IndexOf(cart, id)], q)]
    ensures q > 0 && !(IndexOf(cart, id) < |cart| && q > Qty(cart[IndexOf(cart, id)])) ==>
      && |r| == |cart|
      && forall i | 0 <= i < |cart| :: r[i] == if cart[i].id == id then WithQty(cart[i], q) else cart[i]
    ensures UniqueIds(cart) ==> UniqueIds(r)
  {
    if q <= 0 then
      assert UniqueIds(cart) ==> UniqueIds(RemoveFromCart(cart, id)) by {
        if UniqueIds(cart) {
          RemoveKeepsUnique(cart, id);
        }
      }
      RemoveFromCart(cart, id)
    else
      var k := IndexOf(cart, id);
      if k < |cart| && q > Qty(cart[k]) then cart
      else
        var r := SetQuantity(cart, id, q);
        assert k == |cart| ==> r == cart;
        assert k < |cart| && UniqueIds(cart) ==> r == cart[k := WithQty(cart[k], q)];
        r
  }

  /** Empty the cart: nothing is left to count or pay. */
  function ClearCart(): (r: Cart)
    ensures |r| == 0 && Count(r) == 0 && Total(r) == 0
  {
    []
  }

  /** The amount due: price times units, summed over the lines; never
      negative when no price or line is. */
  function Total(cart: Cart): (r: int)
    ensures (forall i | 0 <= i < |cart| :: cart[i].doc.price >= 0 && Qty(cart[i]) >= 0) ==> r >= 0
    decreases |cart|
  {
    if |cart| == 0 then 0
    else
      assert forall i | 0 <= i < |cart| - 1 :: cart[1..][i] == cart[i + 1];
      cart[0].doc.price * Qty(cart[0]) + Total(cart[1..])
  }

  /** The number of units in the cart; never negative when no line is. */
  function Count(cart: Cart): (r: int)
    ensures (forall i | 0 <= i < |cart| :: Qty(cart[i]) >= 0) ==> r >= 0
    decreases |cart|
  {
    if |cart| == 0 then 0
    else
      assert forall i | 0 <= i < |cart| - 1 :: cart[1..][i] == cart[i + 1];
      Qty(cart[0]) + Count(cart[1..])
  }

  lemma {:induction false} SumsAppend(a: Cart, b: Cart)
    ensures Count(a + b) == Count(a) + Count(b)
    ensures Total(a + b) == Total(a) + Total(b)
    decreases |a|
  {
    if |a| == 0 {
      assert a + b == b;
    } else {
      assert (a + b)[1..] == a[1..] + b;
      SumsAppend(a[1..], b);
    }
  }

  /** Count and total agree with the running sums of a left-to-right
      reduce: the sums of all lines but the last, plus the last line. */
  lemma SumsAreReduce(cart: Cart)
    requires |cart| > 0
    ensures var n := |cart|;
            && Count(cart) == Count(cart[..n - 1]) + Qty(cart[n - 1])
            && Total(cart) == Total(cart[..n - 1]) + cart[n - 1].doc.price * Qty(cart[n - 1])
  {
    var n := |cart|;
    assert cart == cart[..n - 1] + [cart[n - 1]];
    SumsAppend(cart[..n - 1], [cart[n - 1]]);
  }

  /** Replacing one line changes the sums by the difference between the two
      lines. */
  lemma {:induction false} SumsReplace(cart: Cart, k: int, l: Listing)
    requires 0 <= k < |cart|
    ensures Count(cart[k := l]) == Count(cart) - Qty(cart[k]) + Qty(l)
    ensures Total(cart[k := l]) == Total(cart) - cart[k].doc.price * Qty(cart[k]) + l.doc.price * Qty(l)
    decreases k
  {
    if k > 0 {
      assert cart[k := l][1..] == cart[1..][k - 1 := l];
      SumsReplace(cart[1..], k - 1, l);
    } else {
      assert cart[k := l][1..] == cart[1..];
    }
  }

  /** Removal distributes over concatenation. */
  lemma {:induction false} RemoveAppend(a: Cart, b: Cart, id: SweetId)
    ensures RemoveFromCart(a + b, id) == RemoveFromCart(a, id) + RemoveFromCart(b, id)
    decreases |a|
  {
    if |a| == 0 {
      assert a + b == b;
    } else {
      assert (a + b)[0] == a[0];
      assert (a + b)[1..] == a[1..] + b;
      RemoveAppend(a[1..], b, id);
    }
  }

  /** With one line per sweet, removing a sweet cuts exactly its line out of
      the cart. */
  lemma {:induction false} RemoveCutsLine(cart: Cart, k: int)
    requires UniqueIds(cart) && 0 <= k < |cart|
    ensures RemoveFromCart(cart, cart[k].id) == cart[..k] + cart[k + 1..]
  {
    var id := cart[k].id;
    var before, after := cart[..k], cart[k + 1..];
    calc {
      RemoveFromCart(cart, id);
    == { assert cart == before + ([cart[k]] + after); }
      RemoveFromCart(before + ([cart[k]] + after), id);
    == { RemoveAppend(before, [cart[k]] + after, id); RemoveAppend([cart[k]], after, id); }
      RemoveFromCart(before, id) + (RemoveFromCart([cart[k]], id) + RemoveFromCart(after, id));
    == { OthersKept(cart, k); assert [cart[k]][1..] == []; }
      before + ([] + after);
    == { assert [] + after == after; }
      before + after;
    }
  }

  /** The lines before and after a sweet's only line are untouched when that
      sweet is removed. */
  lemma OthersKept(cart: Cart, k: int)
    requires UniqueIds(cart) && 0 <= k < |cart|
    ensures RemoveFromCart(cart[..k], cart[k].id) == cart[..k]
    ensures RemoveFromCart(cart[k + 1..], cart[k].id) == cart[k + 1..]
  {
    var after := cart[k + 1..];
    forall i | 0 <= i < |after|
      ensures after[i].id != cart[k].id
    {
      assert after[i] == cart[k + 1 + i];
    }
  }

  /** An accepted addition raises the unit count by the units added and the
      amount due by their price: the listing's price for a new line, the
      price copied into the existing line otherwise. A refused one changes
      neither. */
  lemma {:induction false} AddToCartSums(cart: Cart, s: Listing, q: int)
    requires UniqueIds(cart)
    ensures var r := AddToCart(cart, s, q);
            var k := IndexOf(cart, s.id);
            var price := if k < |cart| then cart[k].doc.price else s.doc.price;
            && Count(r) == Count(cart) + (if AddAccepted(cart, s, q) then q else 0)
            && Total(r) == Total(cart) + (if AddAccepted(cart, s, q) then price * q else 0)
  {
    var k := IndexOf(cart, s.id);
    var r := AddToCart(cart, s, q);
    if !AddAccepted(cart, s, q) {
      assert r == cart;
    } else if k < |cart| {
      assert r == cart[k := WithQty(cart[k], Qty(cart[k]) + q)];
      BumpLineSums(cart, k, q);
    } else {
      var l := WithQty(s, q);
      assert r == cart + [l];
      SumsAppend(cart, [l]);
      assert Count([l]) == q && Total([l]) == s.doc.price * q by {
        assert [l][1..] == [];
      }
    }
  }

  /** Giving line k `q` more units raises the count by `q` and the total
      by the line's price times `q`. */
  lemma BumpLineSums(cart: Cart, k: int, q: int)
    requires 0 <= k < |cart|
    ensures var r := cart[k := WithQty(cart[k], Qty(cart[k]) + q)];
            Count(r) == Count(cart) + q && Total(r) == Total(cart) + cart[k].doc.price * q
  {
    var l := cart[k];
    var l' := WithQty(l, Qty(l) + q);
    SumsReplace(cart, k, l');
    assert l'.doc.price == l.doc.price && Qty(l') == Qty(l) + q;
    Distribute(l.doc.price, Qty(l), q);
  }

  lemma Distribute(a: int, b: int, c: int)
    ensures a * (b + c) == a * b + a * c
  {
  }

  /** Removing a sweet's line lowers the sums by that line; removing a sweet
      that has no line changes nothing. */
  lemma RemoveSums(cart: Cart, id: SweetId)
    requires UniqueIds(cart)
    ensures var k := IndexOf(cart, id);
            var r := RemoveFromCart(cart, id);
            && (k == |cart| ==> r == cart)
            && (k < |cart| ==>
                  (Count(r) == Count(cart) - Qty(cart[k])
                   && Total(r) == Total(cart) - cart[k].doc.price * Qty(cart[k])))
  {
    var k := IndexOf(cart, id);
    if k < |cart| {
      RemoveCutsLine(cart, k);
      SumsAround(cart, k);
    }
  }

  /** The sums of a cart split around line k, with and without that line. */
  lemma SumsAround(cart: Cart, k: int)
    requires 0 <= k < |cart|
    ensures var before, after := cart[..k], cart[k + 1..];
            && Count(cart) == Count(before) + Qty(cart[k]) + Count(after)
            && Total(cart) == Total(before) + cart[k].doc.price * Qty(cart[k]) + Total(after)
            && Count(before + after) == Count(before) + Count(after)
            && Total(before + after) == Total(before) + Total(after)
  {
    var before, after := cart[..k], cart[k + 1..];
    SumsAppend(before, after);
    SumsAppend(before, [cart[k]] + after);
    assert cart == before + ([cart[k]] + after);
    assert ([cart[k]] + after)[1..] == after;
  }

  /** `UpdateQuantity` never raises a line: every line of the result is a
      line of the original cart for the same sweet, with at most as many
      units. */
  lemma UpdateNeverIncreases(cart: Cart, id: SweetId, q: int)
    requires UniqueIds(cart)
    ensures var r := UpdateQuantity(cart, id, q);
            forall i | 0 <= i < |r| ::
              exists j | 0 <= j < |cart| :: cart[j].id == r[i].id && Qty(r[i]) <= Qty(cart[j])
  {
    var r := UpdateQuantity(cart, id, q);
    var k := IndexOf(cart, id);
    if q <= 0 {
      forall i | 0 <= i < |r|
        ensures exists j | 0 <= j < |cart| :: cart[j].id == r[i].id && Qty(r[i]) <= Qty(cart[j])
      {
        assert r[i] in cart;
        var j :| 0 <= j < |cart| && cart[j] == r[i];
      }
    } else if k < |cart| && q <= Qty(cart[k]) {
      assert r == cart[k := WithQty(cart[k], q)];
      forall i | 0 <= i < |r|
        ensures cart[i].id == r[i].id && Qty(r[i]) <= Qty(cart[i])
      {
      }
    } else {
      assert r == cart;
      forall i | 0 <= i < |r|
        ensures cart[i].id == r[i].id && Qty(r[i]) <= Qty(cart[i])
      {
      }
    }
  }

  /** With non-negative lines, `UpdateQuantity` never raises the unit
      count. */
  lemma UpdateNeverRaisesCount(cart: Cart, id: SweetId, q: int)
    requires UniqueIds(cart) && forall i | 0 <= i < |cart| :: Qty(cart[i]) >= 0
    ensures Count(UpdateQuantity(cart, id, q)) <= Count(cart)
  {
    var k := IndexOf(cart, id);
    if q <= 0 {
      RemoveSums(cart, id);
    } else if k < |cart| && q <= Qty(cart[k]) {
      SumsReplace(cart, k, WithQty(cart[k], q));
    }
  }

  /** The quirk in one scenario: after two units of a sweet with ten in
      stock go into an empty cart, asking for five of it is refused. */
  lemma CannotRaiseAfterAdding(s: Listing)
    requires Qty(s) == 10
    ensures AddToCart([], s, 2) == [WithQty(s, 2)]
    ensures UpdateQuantity(AddToCart([], s, 2), s.id, 5) == [WithQty(s, 2)]
  {
    assert [] + [WithQty(s, 2)] == [WithQty(s, 2)];
  }
}
