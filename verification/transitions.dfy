/** The server as a state machine: every state-changing request, one
    dispatcher, and the properties that hold across all of them. */
module Transitions {
  import opened Wrappers
  import opened Catalog
  import opened Store
  import Seqs

  /** The requests that write to the database. The reads (GET /cart,
      GET /orders) are the functions `Store.GetCart` and `Store.ListOrders`. */
  datatype Request =
    | PostRegister(username: string, password: string)
    | PostProduct(product: Product)
    | PostCart(user: UserId, productId: Option<nat>)
    | DeleteCart(user: UserId, productToRemove: ProductId)
    | PostOrder(user: UserId, draw: PinDraw, fault: OrderFault)
    | PostConfirmDelivery(orderId: Option<nat>, pin: Field)

  function Handle(s: State, req: Request): (out: Response)
  {
    match req
    case PostRegister(name, password) => Register(s, name, password)
    case PostProduct(p) => AddProduct(s, p)
    case PostCart(u, p) => AddToCart(s, u, p)
    case DeleteCart(u, p) => RemoveFromCart(s, u, p)
    case PostOrder(u, draw, fault) => PlaceOrder(s, u, draw, fault)
    case PostConfirmDelivery(id, pin) => ConfirmDelivery(s, id, pin)
  }

  /** A change to a stored order that a request may make: none, or the one
      transition Pending -> Delivered with every other field kept. */
  predicate AllowedOrderChange(before: Order, after: Order) {
    || after == before
    || (before.status == Pending && after == before.(status := Delivered))
  }

  lemma RegisterPreservesValid(s: State, name: string, password: string)
    requires Valid(s)
    ensures Valid(Register(s, name, password).next)
  {
    var out := Register(s, name, password);
    if out.reply == Created {
      var users := out.next.users;
      assert forall k :: k in s.users ==> s.users[k] in s.users.Values;
      assert forall k :: k in users && k != s.nextUserId ==> users[k] == s.users[k];
    }
  }

  lemma PlaceOrderPreservesValid(s: State, u: UserId, draw: PinDraw, fault: OrderFault)
    requires Valid(s)
    ensures Valid(PlaceOrder(s, u, draw, fault).next)
  {
    if ResolvedIds(s, u) != {} && fault == NoFault {
      var t := Placed(s, u, draw);
      GetCartSize(s, u);
      CartOrderFacts(u, GetCart(s, u), draw);
      var o := CartOrder(u, GetCart(s, u), draw);
      assert WellFormedOrder(o);
      assert t.orders == s.orders[s.nextOrderId := o];
      forall id | id in t.orders ensures WellFormedOrder(t.orders[id]) && id < t.nextOrderId {
        if id != s.nextOrderId {
          assert t.orders[id] == s.orders[id];
        }
      }
      assert Valid(t);
    }
  }

  lemma ConfirmPreservesValid(s: State, orderId: Option<nat>, pin: Field)
    requires Valid(s)
    ensures Valid(ConfirmDelivery(s, orderId, pin).next)
  {
    var out := ConfirmDelivery(s, orderId, pin);
    if out.reply == Done {
      var id := orderId.value;
      forall k | k in out.next.orders ensures WellFormedOrder(out.next.orders[k]) {
        if k != id {
          assert out.next.orders[k] == s.orders[k];
        } else {
          assert out.next.orders[k] == s.orders[k].(status := Delivered);
          assert WellFormedOrder(s.orders[k]);
        }
      }
    }
  }

  /** Every request keeps the database well formed: ids below their counters,
      usernames unique, and every order with at least one item, a total equal
      to the sum of its items and a four-digit PIN. */
  lemma HandlePreservesValid(s: State, req: Request)
    requires Valid(s)
    ensures Valid(Handle(s, req).next)
  {
    match req
    case PostRegister(name, password) => RegisterPreservesValid(s, name, password);
    case PostProduct(p) =>
    case PostCart(u, p) =>
    case DeleteCart(u, p) =>
    case PostOrder(u, draw, fault) => PlaceOrderPreservesValid(s, u, draw, fault);
    case PostConfirmDelivery(id, pin) => ConfirmPreservesValid(s, id, pin);
  }

  /** Orders are never deleted, and the only change any request makes to a
      stored order is Pending -> Delivered. */
  lemma HandleKeepsOrderHistory(s: State, req: Request, id: OrderId)
    requires Valid(s)
    requires id in s.orders
    ensures id in Handle(s, req).next.orders
    ensures AllowedOrderChange(s.orders[id], Handle(s, req).next.orders[id])
  {
    match req
    case PostRegister(_, _) =>
    case PostProduct(_) =>
    case PostCart(_, _) =>
    case DeleteCart(_, _) =>
    case PostOrder(u, draw, fault) =>
      PlaceOrderKeepsOrders(s, u, draw, fault, id);
    case PostConfirmDelivery(oid, pin) =>
      ConfirmKeepsOrders(s, oid, pin, id);
  }

  lemma ConfirmKeepsOrders(s: State, orderId: Option<nat>, pin: Field, id: OrderId)
    requires id in s.orders
    ensures id in ConfirmDelivery(s, orderId, pin).next.orders
    ensures AllowedOrderChange(s.orders[id], ConfirmDelivery(s, orderId, pin).next.orders[id])
  {
  }

  /** Delivered is terminal: no request moves a delivered order out of it. */
  lemma DeliveredIsTerminal(s: State, req: Request, id: OrderId)
    requires Valid(s)
    requires id in s.orders && s.orders[id].status == Delivered
    ensures id in Handle(s, req).next.orders
    ensures Handle(s, req).next.orders[id] == s.orders[id]
  {
    HandleKeepsOrderHistory(s, req, id);
  }

  lemma PlacedKeepsOrders(s: State, u: UserId, draw: PinDraw, id: OrderId)
    requires id in s.orders && id < s.nextOrderId
    ensures id in Placed(s, u, draw).orders
    ensures Placed(s, u, draw).orders[id] == s.orders[id]
  {
  }

  lemma PlaceOrderKeepsOrders(s: State, u: UserId, draw: PinDraw, fault: OrderFault, id: OrderId)
    requires id in s.orders && id < s.nextOrderId
    ensures id in PlaceOrder(s, u, draw, fault).next.orders
    ensures PlaceOrder(s, u, draw, fault).next.orders[id] == s.orders[id]
  {
    PlacedKeepsOrders(s, u, draw, id);
  }


  lemma ConfirmDeliversOnlyOnMatch(s: State, orderId: Option<nat>, pin: Field, id: OrderId)
    requires id in s.orders && s.orders[id].status == Pending
    requires id in ConfirmDelivery(s, orderId, pin).next.orders
    requires ConfirmDelivery(s, orderId, pin).next.orders[id].status == Delivered
    ensures orderId == Some(id) && pin == Str(s.orders[id].pin)
  {
  }

  /** Only a confirmation with the order's own PIN delivers it. */
  lemma OnlyMatchingPinDelivers(s: State, req: Request, id: OrderId)
    requires Valid(s)
    requires id in s.orders && s.orders[id].status == Pending
    requires id in Handle(s, req).next.orders
    requires Handle(s, req).next.orders[id].status == Delivered
    ensures req == PostConfirmDelivery(Some(id), Str(s.orders[id].pin))
  {
    match req
    case PostRegister(_, _) =>
    case PostProduct(_) =>
    case PostCart(_, _) =>
    case DeleteCart(_, _) =>
    case PostOrder(u, draw, fault) =>
      PlaceOrderKeepsOrders(s, u, draw, fault, id);
    case PostConfirmDelivery(oid, pin) =>
      ConfirmDeliversOnlyOnMatch(s, oid, pin, id);
  }

  /** GET /cart depends only on the caller's cart entries and the products
      table. */
  lemma GetCartFrame(s: State, t: State, u: UserId)
    requires s.products == t.products
    requires forall p :: (u, p) in s.cart <==> (u, p) in t.cart
    ensures GetCart(s, u) == GetCart(t, u)
  {
    assert ResolvedIds(s, u) == ResolvedIds(t, u);
    var ids := CartIds(s, u);
    assert CartIds(t, u) == ids;
    assert RowsFor(s, ids) == RowsFor(t, ids);
  }

  /** Placing an order empties the caller's cart and leaves every other user's
      cart as it was. */
  lemma PlaceOrderClearsOnlyCallersCart(s: State, u: UserId, draw: PinDraw, v: UserId)
    requires ResolvedIds(s, u) != {}
    ensures GetCart(PlaceOrder(s, u, draw, NoFault).next, u) == []
    ensures v != u ==> GetCart(PlaceOrder(s, u, draw, NoFault).next, v) == GetCart(s, v)
  {
    var t := Placed(s, u, draw);
    assert PlaceOrder(s, u, draw, NoFault).next == t;
    assert ResolvedIds(t, u) == {};
    GetCartSize(t, u);
    if v != u {
      GetCartFrame(s, t, v);
    }
  }


  /** A failure after the orders row was inserted leaves no order and the
      cart as it was, yet the id that row took is used up: the next order
      placed from the same cart gets the id after it. */
  lemma LateFaultSkipsOrderId(s: State, u: UserId, d1: PinDraw, d2: PinDraw, t: State)
    requires ResolvedIds(s, u) != {}
    requires PlaceOrder(s, u, d1, FailsAfterInsert) == Response(ServerError, t)
    ensures t.orders == s.orders && t.cart == s.cart
    ensures PlaceOrder(t, u, d2, NoFault).reply == CreatedWithId(s.nextOrderId + 1)
  {
    assert t == s.(nextOrderId := s.nextOrderId + 1);
    assert ResolvedIds(t, u) != {} by {
      var p :| p in ResolvedIds(s, u);
      assert p in ResolvedIds(t, u);
    }
  }


  // ---------------------------------------------------------------------------
  // Requests overlapping the order transaction
  // ---------------------------------------------------------------------------

  /* `Handle` applies whole requests one after another. MySQL's default
     isolation level, REPEATABLE READ, lets two requests overlap. The cart
     SELECT of POST /orders is a plain snapshot read and locks no row. Its
     `DELETE FROM cart_items WHERE user_id = ?` acts on the latest committed
     rows. Another request of the same user can commit between the two. */

  /** The order transaction as written, begun on `s` and committing after
      other requests have committed `cur`. The order is built from the
      snapshot `s`. It is inserted next to the orders committed in `cur`,
      under the next AUTO_INCREMENT id. The DELETE clears every entry of `u`
      in `cur`. */
  function CommitAsWritten(s: State, cur: State, u: UserId, draw: PinDraw): State {
    InsertClearing(cur, u, CartOrder(u, GetCart(s, u), draw))
  }

  /** The writes of the order transaction as written on the committed state
      `cur`: `o` goes in under the next order id, and every cart entry of `u`
      is deleted. */
  function InsertClearing(cur: State, u: UserId, o: Order): State {
    cur.(orders := cur.orders[cur.nextOrderId := o],
         nextOrderId := cur.nextOrderId + 1,
         cart := ClearCart(cur.cart, u))
  }

  /** The entries of `cart` that remain when only the entries of `u` that were
      read (`read`) are deleted. */
  function ClearRead(cart: set<(UserId, ProductId)>, read: set<(UserId, ProductId)>, u: UserId)
    : set<(UserId, ProductId)>
  {
    set e | e in cart && !(e.0 == u && e in read)
  }

  /** The corrected transaction. It deletes only the entries it read:
      `DELETE FROM cart_items WHERE user_id = ? AND product_id IN (…)` over
      the ids of the snapshot. */
  function CommitDeletingRead(s: State, cur: State, u: UserId, draw: PinDraw): State {
    cur.(orders := cur.orders[cur.nextOrderId := CartOrder(u, GetCart(s, u), draw)],
         nextOrderId := cur.nextOrderId + 1,
         cart := ClearRead(cur.cart, s.cart, u))
  }

  /** With no other request committing in between, both transactions are
      the committed order of `PlaceOrder`. */
  lemma SerialCommitIsPlaced(s: State, u: UserId, draw: PinDraw)
    ensures CommitAsWritten(s, s, u, draw) == Placed(s, u, draw)
    ensures CommitDeletingRead(s, s, u, draw) == Placed(s, u, draw)
  {
  }

  /** As written, a cart entry added while the order is placed is lost. The
      POST /cart is answered 201. After the commit the entry is neither in the
      cart nor among the items of the new order. */
  lemma RacingAddIsLost(s: State, u: UserId, draw: PinDraw, p: ProductId)
    requires ResolvedIds(s, u) != {}
    requires p != 0 && (u, p) !in s.cart
    ensures AddToCart(s, u, Some(p)).reply == Created
    ensures var t := CommitAsWritten(s, AddToCart(s, u, Some(p)).next, u, draw);
      && (u, p) !in t.cart
      && forall i :: 0 <= i < |t.orders[s.nextOrderId].items| ==> t.orders[s.nextOrderId].items[i].product != p
  {
    var o := CartOrder(u, GetCart(s, u), draw);
    CartOrderOfCart(s, u, draw);
    assert CommitAsWritten(s, AddToCart(s, u, Some(p)).next, u, draw).orders[s.nextOrderId] == o;
  }

  /** Corrected, the same race keeps the new entry in the cart. The order is
      still the one made from the snapshot, and every entry that was read is
      deleted. */
  lemma RacingAddKept(s: State, u: UserId, draw: PinDraw, p: ProductId)
    requires p != 0 && (u, p) !in s.cart
    ensures var t := CommitDeletingRead(s, AddToCart(s, u, Some(p)).next, u, draw);
      && (u, p) in t.cart
      && (forall e :: e in s.cart ==> (e in t.cart <==> e.0 != u))
      && OrdersCart(s, u, draw, t.orders[s.nextOrderId])
  {
  }

  /** As written, two overlapping POST /orders of the same user both read the
      cart before either deletes it. The first commits; the second's DELETE
      then finds nothing and it commits too. Both are answered 201, and the
      one cart is ordered twice, under two consecutive ids. */
  lemma DoubleOrderAsWritten(s: State, u: UserId, d1: PinDraw, d2: PinDraw, t: State)
    requires ResolvedIds(s, u) != {}
    requires t == CommitAsWritten(s, CommitAsWritten(s, s, u, d1), u, d2)
    ensures t.orders.Keys == s.orders.Keys + {s.nextOrderId, s.nextOrderId + 1}
    ensures t.orders[s.nextOrderId] == CartOrder(u, GetCart(s, u), d1)
    ensures t.orders[s.nextOrderId + 1] == CartOrder(u, GetCart(s, u), d2)
    ensures t.orders[s.nextOrderId].items == t.orders[s.nextOrderId + 1].items != []
  {
    var rows := GetCart(s, u);
    var o1, o2 := CartOrder(u, rows, d1), CartOrder(u, rows, d2);
    assert o1.items == o2.items != [] by {
      GetCartSize(s, u);
      assert |o1.items| == |rows| > 0;
    }
    assert t == InsertClearing(InsertClearing(s, u, o1), u, o2);
    TwoInserts(s, u, o1, o2);
  }

  /** Two inserts in a row store both orders under consecutive ids. */
  lemma TwoInserts(s: State, u: UserId, o1: Order, o2: Order)
    ensures var t := InsertClearing(InsertClearing(s, u, o1), u, o2);
      && t.orders.Keys == s.orders.Keys + {s.nextOrderId, s.nextOrderId + 1}
      && t.orders[s.nextOrderId] == o1 && t.orders[s.nextOrderId + 1] == o2
  {
  }

  /** Corrected, the cart is read with `SELECT … FOR UPDATE`. The second
      transaction waits for the first to commit and then reads the current
      cart, so it runs as `PlaceOrder` on the first one's result: the cart is
      empty, and it is refused with nothing changed. */
  lemma SecondOrderRefused(s: State, u: UserId, d1: PinDraw, d2: PinDraw, t: State)
    requires ResolvedIds(s, u) != {}
    requires PlaceOrder(s, u, d1, NoFault) == Response(CreatedWithId(s.nextOrderId), t)
    ensures PlaceOrder(t, u, d2, NoFault) == Response(BadRequest(EmptyCart), t)
  {
    assert t == Placed(s, u, d1);
    assert ResolvedIds(t, u) == {};
  }

  // ---------------------------------------------------------------------------
  // Scenarios
  // ---------------------------------------------------------------------------

  /** Adding the same product twice: the second request is a conflict and the
      cart still holds the pair once. */
  lemma AddTwiceConflicts(s: State, u: UserId, p: nat)
    requires p != 0 && (u, p) !in s.cart
    ensures var first := AddToCart(s, u, Some(p));
            var second := AddToCart(first.next, u, Some(p));
            && first.reply == Created
            && second.reply == Conflict
            && second.next.cart == s.cart + {(u, p)}
  {
  }

  /** Confirming twice with the right PIN: the first call delivers, the second
      is refused as already delivered and changes nothing. */
  lemma ConfirmTwice(s: State, id: OrderId)
    requires Valid(s)
    requires id != 0 && id in s.orders && s.orders[id].status == Pending
    ensures var first := ConfirmDelivery(s, Some(id), Str(s.orders[id].pin));
            var second := ConfirmDelivery(first.next, Some(id), Str(s.orders[id].pin));
            && first.reply == Done
            && first.next.orders[id].status == Delivered
            && second == Response(BadRequest(AlreadyDelivered), first.next)
  {
  }

  /** A wrong PIN, as text or as a JSON number, is refused and changes
      nothing: "Invalid Delivery PIN." for a pending order, "already
      delivered" for a delivered one. */
  lemma WrongPinChangesNothing(s: State, id: OrderId, pin: Field)
    requires id != 0 && Truthy(pin) && id in s.orders && pin != Str(s.orders[id].pin)
    ensures ConfirmDelivery(s, Some(id), pin).next == s
    ensures ConfirmDelivery(s, Some(id), pin).reply ==
      if s.orders[id].status == Pending then BadRequest(InvalidPin) else BadRequest(AlreadyDelivered)
  {
  }

  function SampleProduct(price: int, discount: int): Product {
    Product("Ravi", "ravi@example.com", "Mysuru", "Vegetables", "Tomato", "", price, 3, discount, "")
  }

  /** User 7 has products 1 (500, no discount) and 2 (300, 10% off) in the cart. */
  function TwoItemCart(): State {
    Empty().(products := map[1 := SampleProduct(500, 0), 2 := SampleProduct(300, 10)],
             nextProductId := 3,
             cart := {(7, 1), (7, 2)})
  }

  function TwoItemRows(): seq<Row> {
    [Row(1, SampleProduct(500, 0)), Row(2, SampleProduct(300, 10))]
  }

  /** GET /cart lists both, by ascending product id. */
  lemma TwoItemCartRows()
    ensures GetCart(TwoItemCart(), 7) == TwoItemRows()
  {
    var s := TwoItemCart();
    assert 1 in ResolvedIds(s, 7) && 2 in ResolvedIds(s, 7);
    assert ResolvedIds(s, 7) == {1, 2};
    var ids := CartIds(s, 7);
    assert 1 in ids && 2 in ids && |ids| == 2;
    assert ids == [1, 2];
  }

  /** The rows of that cart become two line items, 500 and 270, totalling 770. */
  lemma TwoItemCartOrder(draw: PinDraw)
    ensures CartOrder(7, TwoItemRows(), draw).items == [LineItem(1, 500), LineItem(2, 270)]
    ensures CartOrder(7, TwoItemRows(), draw).total == 770
  {
    var rows := TwoItemRows();
    assert EffectivePrice(500, 0) == 500;
    assert EffectivePrice(300, 10) == 270;
    CartOrderFacts(7, rows, draw);
    var o := CartOrder(7, rows, draw);
    assert o.items == [LineItem(1, 500), LineItem(2, 270)];
    assert ItemPrices(o.items) == [500, 270];
    assert Seqs.Sum([500, 270]) == 770 by {
      assert [500, 270][..1] == [500];
      assert [500][..0] == [];
    }
  }

  /** Placing the order: 201 with order id 1, the order above, and an empty
      cart afterwards. */
  lemma TwoItemOrder(draw: PinDraw)
    ensures PlaceOrder(TwoItemCart(), 7, draw, NoFault).reply == CreatedWithId(1)
    ensures PlaceOrder(TwoItemCart(), 7, draw, NoFault).next.orders[1].items == [LineItem(1, 500), LineItem(2, 270)]
    ensures PlaceOrder(TwoItemCart(), 7, draw, NoFault).next.orders[1].total == 770
    ensures PlaceOrder(TwoItemCart(), 7, draw, NoFault).next.cart == {}
  {
    var s := TwoItemCart();
    assert 1 in ResolvedIds(s, 7);
    TwoItemCartRows();
    TwoItemCartOrder(draw);
    var t := Placed(s, 7, draw);
    assert t.orders[1] == CartOrder(7, TwoItemRows(), draw);
    assert forall e :: e in t.cart ==> e in s.cart && e.0 != 7;
  }

  /** A cart whose only entry points at a product that no longer exists is
      empty to the order handler: 400, and nothing changes. */
  lemma OrphanOnlyCartIsEmpty(s: State, u: UserId, p: ProductId, draw: PinDraw)
    requires p !in s.products
    requires forall e :: e in s.cart && e.0 == u ==> e == (u, p)
    ensures PlaceOrder(s, u, draw, NoFault) == Response(BadRequest(EmptyCart), s)
  {
    assert ResolvedIds(s, u) == {};
  }
}
