/** The server's persisted state (users, products, cart entries, orders) and
    its request handlers as pure transitions: each handler takes the state and
    the request's inputs and returns the reply together with the next state.
    Authentication is outside the model: the handlers that need a user receive
    the already-authenticated user id. */
module Store {
  import opened Wrappers
  import opened Catalog
  import Seqs
  import Text

  type UserId = nat
  type OrderId = nat

  /** A JSON body field as a handler receives it. */
  datatype Field = Missing | Str(s: string) | Num(n: int)

  /** JavaScript truthiness of a body field: `!field` is false. */
  predicate Truthy(f: Field) {
    match f
    case Missing => false
    case Str(t) => t != []
    case Num(n) => n != 0
  }

  /** A numeric id field is present and truthy (ids start at 1, so 0 counts
      as missing, as `!id` does). */
  predicate GivenId(id: Option<nat>) {
    id.Some? && id.value != 0
  }

  datatype Status = Pending | Delivered

  /** A row of order_items: the product bought and the discounted price paid
      for it, snapshotted when the order was placed. The order_items
      `quantity` column is not part of this record: no handler writes it. */
  datatype LineItem = LineItem(product: ProductId, price: int)

  datatype Order = Order(owner: UserId, total: int, pin: string, status: Status, items: seq<LineItem>)

  /** A product row together with its id, as `SELECT p.*` returns it. */
  datatype Row = Row(id: ProductId, product: Product)

  /** The database. Ids come from AUTO_INCREMENT counters. Registered users
      are kept by username only; password hashes are outside the model. */
  datatype State = State(
    users: map<UserId, string>,
    nextUserId: nat,
    products: map<ProductId, Product>,
    nextProductId: nat,
    cart: set<(UserId, ProductId)>,
    orders: map<OrderId, Order>,
    nextOrderId: nat)

  /** The empty database, every counter at its first value. */
  function Empty(): State {
    State(map[], 1, map[], 1, {}, map[], 1)
  }

  /** Why a request was answered 400. */
  datatype Problem = MissingFields | EmptyCart | AlreadyDelivered | InvalidPin

  datatype Reply =
    | Done                      // 200
    | Created                   // 201
    | CreatedWithId(id: nat)    // 201, with the new row's id
    | BadRequest(problem: Problem) // 400
    | NotFound                    // 404
    | Conflict                    // 409
    | ServerError                 // 500

  datatype Response = Response(reply: Reply, next: State)

  // ---------------------------------------------------------------------------
  // Invariant of the database
  // ---------------------------------------------------------------------------

  /** The item prices of an order, in order. */
  function ItemPrices(items: seq<LineItem>): (ps: seq<int>)
    ensures |ps| == |items|
    ensures forall i :: 0 <= i < |items| ==> ps[i] == items[i].price
  {
    if items == [] then [] else ItemPrices(items[..|items| - 1]) + [items[|items| - 1].price]
  }

  /** A delivery PIN: four decimal digits, the first not zero. */
  predicate IsPin(pin: string) {
    && |pin| == 4
    && (forall i :: 0 <= i < 4 ==> Text.IsDigit(pin[i]))
    && pin[0] != '0'
  }

  /** What every stored order satisfies: at least one item, a total equal to
      the sum of its item prices, and a well-formed PIN. */
  predicate WellFormedOrder(o: Order) {
    && |o.items| >= 1
    && o.total == Seqs.Sum(ItemPrices(o.items))
    && IsPin(o.pin)
  }

  predicate UniqueUsernames(users: map<UserId, string>) {
    forall a, b :: a in users && b in users && users[a] == users[b] ==> a == b
  }

  predicate Valid(s: State) {
    && (forall id :: id in s.users ==> id < s.nextUserId)
    && (forall id :: id in s.products ==> id < s.nextProductId)
    && (forall id :: id in s.orders ==> id < s.nextOrderId)
    && UniqueUsernames(s.users)
    && (forall id :: id in s.orders ==> WellFormedOrder(s.orders[id]))
  }

  lemma EmptyIsValid()
    ensures Valid(Empty())
  {
  }

  // ---------------------------------------------------------------------------
  // POST /register and POST /products
  // ---------------------------------------------------------------------------

  /** POST /register: both fields are required, a taken username is a conflict,
      otherwise the user is stored under the next id. */
  function Register(s: State, username: string, password: string): (out: Response)
    ensures (username == [] || password == []) ==> out == Response(BadRequest(MissingFields), s)
    ensures username != [] && password != [] && username in s.users.Values ==> out == Response(Conflict, s)
    ensures out.reply == Created <==> username != [] && password != [] && username !in s.users.Values
    ensures out.reply == Created ==>
      && out.next.users == s.users[s.nextUserId := username]
      && out.next.nextUserId == s.nextUserId + 1
      && out.next == s.(users := out.next.users, nextUserId := out.next.nextUserId)
    ensures out.reply != Created ==> out.next == s
  {
    if username == [] || password == [] then Response(BadRequest(MissingFields), s)
    else if username in s.users.Values then Response(Conflict, s)
    else Response(Created, s.(users := s.users[s.nextUserId := username], nextUserId := s.nextUserId + 1))
  }

  /** The required-field check of POST /products: every field but the
      description and the image must be truthy. */
  predicate RequiredFieldsPresent(p: Product) {
    && p.name != [] && p.price != 0 && p.sellerName != [] && p.contactInfo != []
    && p.district != [] && p.category != [] && p.deliveryDays != 0
  }

  /** POST /products: a product with every required field is stored under the
      next id, which the reply carries; otherwise 400 and nothing is stored. */
  function AddProduct(s: State, p: Product): (out: Response)
    ensures !RequiredFieldsPresent(p) ==> out == Response(BadRequest(MissingFields), s)
    ensures RequiredFieldsPresent(p) ==>
      && out.reply == CreatedWithId(s.nextProductId)
      && out.next.products == s.products[s.nextProductId := p]
      && out.next.nextProductId == s.nextProductId + 1
      && out.next == s.(products := out.next.products, nextProductId := out.next.nextProductId)
  {
    if !RequiredFieldsPresent(p) then Response(BadRequest(MissingFields), s)
    else Response(CreatedWithId(s.nextProductId),
                  s.(products := s.products[s.nextProductId := p], nextProductId := s.nextProductId + 1))
  }

  /** A product as GET /products lists it: the stored row with its id and
      the mock rating, 4 for an even id and 5 for an odd one. */
  datatype Listing = Listing(id: ProductId, product: Product, rating: int)

  function MockRating(id: ProductId): int {
    if id % 2 == 0 then 4 else 5
  }

  /** The listings of the products with the given ids, in that order. */
  function ListingsFor(s: State, ids: seq<ProductId>): (ls: seq<Listing>)
    requires forall i :: 0 <= i < |ids| ==> ids[i] in s.products
    ensures |ls| == |ids|
    ensures forall i :: 0 <= i < |ids| ==> ls[i] == Listing(ids[i], s.products[ids[i]], MockRating(ids[i]))
  {
    if ids == [] then [] else [Listing(ids[0], s.products[ids[0]], MockRating(ids[0]))] + ListingsFor(s, ids[1..])
  }

  /** The ids of the stored products, newest (largest) first. */
  function ProductIdsNewestFirst(s: State): (ids: seq<ProductId>)
    ensures forall i :: 0 <= i < |ids| ==> ids[i] in s.products
    ensures forall id :: id in s.products ==> id in ids
    ensures forall i, j :: 0 <= i < j < |ids| ==> ids[i] > ids[j]
  {
    var all := s.products.Keys;
    var ids := Seqs.SortedIdsDescending(all);
    forall i | 0 <= i < |ids| ensures ids[i] in s.products {
      assert ids[i] in all;
    }
    ids
  }

  /** GET /products: stored products, newest (largest id) first, each rated
      4 or 5. Creation time order is modelled by the AUTO_INCREMENT id. */
  function ListProducts(s: State): (ls: seq<Listing>)
    ensures forall i :: 0 <= i < |ls| ==>
      && ls[i].id in s.products
      && ls[i].product == s.products[ls[i].id]
      && ls[i].rating == (if ls[i].id % 2 == 0 then 4 else 5)
    ensures forall i, j :: 0 <= i < j < |ls| ==> ls[i].id > ls[j].id
  {
    ListingsFor(s, ProductIdsNewestFirst(s))
  }

  /** Every stored product is listed (and, ids being strictly decreasing,
      exactly once). */
  lemma ListProductsComplete(s: State, id: ProductId)
    requires id in s.products
    ensures exists i :: 0 <= i < |ListProducts(s)| && ListProducts(s)[i].id == id
  {
    var ids := ProductIdsNewestFirst(s);
    var k := Seqs.IndexOf(ids, id);
    assert ListProducts(s)[k].id == id;
  }

  /** Each stored product is listed exactly once, with its own data and the
      mock rating of its id. */
  lemma ListProductsOnce(s: State, id: ProductId)
    requires id in s.products
    ensures multiset(ListProducts(s))[Listing(id, s.products[id], MockRating(id))] == 1
  {
    var ids := ProductIdsNewestFirst(s);
    var ls := ListingsFor(s, ids);
    var k := Seqs.IndexOf(ids, id);
    assert ls[k] == Listing(id, s.products[id], MockRating(id));
    forall j | 0 <= j < |ls| && j != k ensures ls[j] != ls[k] {
      assert ids[j] != ids[k];
    }
    Seqs.OccursOnce(ls, k);
  }

  // ---------------------------------------------------------------------------
  // The cart: POST /cart, DELETE /cart/:productId, GET /cart
  // ---------------------------------------------------------------------------

  /** POST /cart: a missing product id is a 400; a pair already in the cart is
      refused by the table's unique key and answered 409; otherwise exactly
      that pair is added. The product is not looked up first. */
  function AddToCart(s: State, u: UserId, productId: Option<nat>): (out: Response)
    ensures !GivenId(productId) ==> out == Response(BadRequest(MissingFields), s)
    ensures GivenId(productId) && (u, productId.value) in s.cart ==> out == Response(Conflict, s)
    ensures out.reply == Created <==> GivenId(productId) && (u, productId.value) !in s.cart
    ensures out.reply == Created ==>
      && out.next.cart == s.cart + {(u, productId.value)}
      && out.next == s.(cart := out.next.cart)
  {
    if !GivenId(productId) then Response(BadRequest(MissingFields), s)
    else if (u, productId.value) in s.cart then Response(Conflict, s)
    else Response(Created, s.(cart := s.cart + {(u, productId.value)}))
  }

  /** DELETE /cart/:productId: removes exactly the caller's entry for that
      product, or answers 404 when there is none. */
  function RemoveFromCart(s: State, u: UserId, productId: ProductId): (out: Response)
    ensures (u, productId) !in s.cart ==> out == Response(NotFound, s)
    ensures (u, productId) in s.cart ==>
      && out.reply == Done
      && (u, productId) !in out.next.cart
      && (forall e :: e in s.cart && e != (u, productId) ==> e in out.next.cart)
      && out.next.cart <= s.cart
      && out.next == s.(cart := out.next.cart)
  {
    if (u, productId) !in s.cart then Response(NotFound, s)
    else Response(Done, s.(cart := s.cart - {(u, productId)}))
  }

  /** The products a user's cart entries resolve to: entries whose product no
      longer exists are not among them. */
  function ResolvedIds(s: State, u: UserId): (ids: set<ProductId>)
    ensures forall p :: p in ids <==> (u, p) in s.cart && p in s.products
  {
    set e | e in s.cart && e.0 == u && e.1 in s.products :: e.1
  }

  /** The product rows for a list of ids, in that order. */
  function RowsFor(s: State, ids: seq<ProductId>): (rows: seq<Row>)
    requires forall i :: 0 <= i < |ids| ==> ids[i] in s.products
    ensures |rows| == |ids|
    ensures forall i :: 0 <= i < |ids| ==> rows[i] == Row(ids[i], s.products[ids[i]])
  {
    if ids == [] then [] else [Row(ids[0], s.products[ids[0]])] + RowsFor(s, ids[1..])
  }

  /** The ids of the user's resolvable cart entries, ascending. */
  function CartIds(s: State, u: UserId): (ids: seq<ProductId>)
    ensures forall i :: 0 <= i < |ids| ==> (u, ids[i]) in s.cart && ids[i] in s.products
    ensures forall p :: (u, p) in s.cart && p in s.products ==> p in ids
    ensures Seqs.StrictlyIncreasing(ids)
    ensures |ids| == |ResolvedIds(s, u)|
  {
    var ids := Seqs.SortedIds(ResolvedIds(s, u));
    assert forall i :: 0 <= i < |ids| ==> ids[i] in ids;
    ids
  }

  /** GET /cart: the join of the caller's cart entries with the products table.
      SQL leaves the row order open; the model lists rows by ascending id. */
  function GetCart(s: State, u: UserId): (rows: seq<Row>)
    ensures forall i :: 0 <= i < |rows| ==>
      && (u, rows[i].id) in s.cart
      && rows[i].id in s.products
      && rows[i].product == s.products[rows[i].id]
    ensures forall p :: (u, p) in s.cart && p in s.products ==> exists i :: 0 <= i < |rows| && rows[i].id == p
    ensures forall i, j :: 0 <= i < j < |rows| ==> rows[i].id < rows[j].id
  {
    var ids := CartIds(s, u);
    var rows := RowsFor(s, ids);
    forall p | (u, p) in s.cart && p in s.products
      ensures exists i :: 0 <= i < |rows| && rows[i].id == p
    {
      var k := Seqs.IndexOf(ids, p);
      assert rows[k].id == p;
    }
    rows
  }

  /** The cart lists each resolvable entry exactly once. */
  lemma GetCartSize(s: State, u: UserId)
    ensures |GetCart(s, u)| == |ResolvedIds(s, u)|
  {
    assert |GetCart(s, u)| == |CartIds(s, u)|;
  }

  /** The products of a list of rows. */
  function ProductsOf(rows: seq<Row>): seq<Product>
  {
    seq(|rows|, i requires 0 <= i < |rows| => rows[i].product)
  }

  // ---------------------------------------------------------------------------
  // POST /orders
  // ---------------------------------------------------------------------------

  /** What `Math.random() * 9000` contributes after flooring: a whole number
      below 9000. */
  type PinDraw = r: nat | r < 9000

  /** `Math.floor(1000 + Math.random() * 9000).toString()`. */
  function DeliveryPin(r: PinDraw): (pin: string)
    ensures IsPin(pin)
    ensures Text.DigitsValue(pin) == 1000 + r
  {
    Text.DecimalFourDigits(1000 + r);
    Text.DecimalRoundTrip(1000 + r);
    Text.Decimal(1000 + r)
  }

  /** Every PIN in 1000..9999 is drawn by exactly one draw. */
  lemma DeliveryPinBijective(r1: PinDraw, r2: PinDraw)
    ensures DeliveryPin(r1) == DeliveryPin(r2) <==> r1 == r2
  {
  }

  /** One line item per cart row, priced at the row's discounted price. */
  function LineItems(rows: seq<Row>): (items: seq<LineItem>)
    ensures |items| == |rows|
    ensures forall i :: 0 <= i < |rows| ==>
      items[i] == LineItem(rows[i].id, EffectivePrice(rows[i].product.price, rows[i].product.discount))
    ensures ItemPrices(items) == EffectivePrices(ProductsOf(rows))
  {
    var items := seq(|rows|, i requires 0 <= i < |rows| =>
                       LineItem(rows[i].id, EffectivePrice(rows[i].product.price, rows[i].product.discount)));
    assert ItemPrices(items) == EffectivePrices(ProductsOf(rows));
    items
  }

  /** The user's cart entries are deleted; everybody else's stay. */
  function ClearCart(cart: set<(UserId, ProductId)>, u: UserId): set<(UserId, ProductId)>
  {
    set e | e in cart && e.0 != u
  }

  /** The order a list of cart rows turns into: one line item per row at the
      row's discounted price, the total of those prices, the PIN, Pending. */
  function CartOrder(u: UserId, rows: seq<Row>, draw: PinDraw): Order {
    Order(u, Total(ProductsOf(rows)), DeliveryPin(draw), Pending, LineItems(rows))
  }

  /** The order built from a list of cart rows: one line item per row, in
      row order, at the row's discounted price; a total equal both to the sum
      of the line items and to the client's cart total of the same products;
      well formed whenever there is at least one row. */
  lemma CartOrderFacts(u: UserId, rows: seq<Row>, draw: PinDraw)
    ensures var o := CartOrder(u, rows, draw);
      && o.owner == u && o.status == Pending && o.pin == DeliveryPin(draw)
      && |o.items| == |rows|
      && (forall i :: 0 <= i < |rows| ==>
            o.items[i] == LineItem(rows[i].id, EffectivePrice(rows[i].product.price, rows[i].product.discount)))
      && o.total == Seqs.Sum(ItemPrices(o.items))
      && o.total == Total(ProductsOf(rows))
      && (|rows| >= 1 ==> WellFormedOrder(o))
  {
    var o := CartOrder(u, rows, draw);
    assert ItemPrices(o.items) == EffectivePrices(ProductsOf(rows));
  }

  /** The state a committed order transaction leaves behind: the order is
      stored under the next order id, and the user's whole cart (orphaned
      entries too) is deleted. Users, products and other carts are untouched. */
  function Placed(s: State, u: UserId, draw: PinDraw): (t: State)
    ensures t.orders == s.orders[s.nextOrderId := CartOrder(u, GetCart(s, u), draw)]
    ensures t.nextOrderId == s.nextOrderId + 1
    ensures forall e :: e in t.cart <==> e in s.cart && e.0 != u
    ensures t.users == s.users && t.nextUserId == s.nextUserId
    ensures t.products == s.products && t.nextProductId == s.nextProductId
  {
    var id := s.nextOrderId;
    s.(orders := s.orders[id := CartOrder(u, GetCart(s, u), draw)], nextOrderId := id + 1, cart := ClearCart(s.cart, u))
  }

  /** Where, if anywhere, a database call of the order transaction fails.
      `FailsBeforeInsert`: getting the connection, starting the transaction
      or reading the cart. `FailsAfterInsert`: a call after the orders row
      was inserted (an order_items insert, the cart delete, the commit). */
  datatype OrderFault = NoFault | FailsBeforeInsert | FailsAfterInsert

  /** POST /orders, one transaction. A failure before the cart is read is a
      500 whatever the cart holds. With no resolvable cart row the
      transaction is rolled back and 400 returned. A failure after the orders
      row was inserted rolls the rows back, but the AUTO_INCREMENT value that
      row took is not given back: the reply is 500 and only the order id
      counter has moved on. Otherwise the transaction commits (see `Placed`)
      and 201 carries the new order id. `draw` is the random part of the PIN. */
  function PlaceOrder(s: State, u: UserId, draw: PinDraw, fault: OrderFault): (out: Response)
    ensures fault == FailsBeforeInsert ==> out == Response(ServerError, s)
    ensures fault != FailsBeforeInsert && ResolvedIds(s, u) == {} ==> out == Response(BadRequest(EmptyCart), s)
    ensures fault == FailsAfterInsert && ResolvedIds(s, u) != {} ==>
      out == Response(ServerError, s.(nextOrderId := s.nextOrderId + 1))
    ensures fault == NoFault && ResolvedIds(s, u) != {} ==>
      out == Response(CreatedWithId(s.nextOrderId), Placed(s, u, draw))
  {
    GetCartSize(s, u);
    if fault == FailsBeforeInsert then Response(ServerError, s)
    else if |GetCart(s, u)| == 0 then Response(BadRequest(EmptyCart), s)
    else if fault == FailsAfterInsert then Response(ServerError, s.(nextOrderId := s.nextOrderId + 1))
    else Response(CreatedWithId(s.nextOrderId), Placed(s, u, draw))
  }

  /** What an order made from `u`'s cart holds: one line item for every
      product the cart resolved to and for no other, each at that product's
      discounted price; a total equal to the sum of the line items; the
      four-digit PIN drawn; status Pending. */
  predicate OrdersCart(s: State, u: UserId, draw: PinDraw, o: Order) {
    && o.owner == u && o.status == Pending
    && o.pin == DeliveryPin(draw) && IsPin(o.pin)
    && |o.items| == |ResolvedIds(s, u)|
    && (forall i :: 0 <= i < |o.items| ==>
          && o.items[i].product in ResolvedIds(s, u)
          && o.items[i].price == EffectivePrice(s.products[o.items[i].product].price,
                                                s.products[o.items[i].product].discount))
    && (forall p :: p in ResolvedIds(s, u) ==> exists i :: 0 <= i < |o.items| && o.items[i].product == p)
    && o.total == Seqs.Sum(ItemPrices(o.items))
  }

  lemma CartOrderOfCart(s: State, u: UserId, draw: PinDraw)
    ensures OrdersCart(s, u, draw, CartOrder(u, GetCart(s, u), draw))
  {
    var rows := GetCart(s, u);
    GetCartSize(s, u);
    CartOrderFacts(u, rows, draw);
    var o := CartOrder(u, rows, draw);
    var ids := ResolvedIds(s, u);
    assert |o.items| == |ids|;
    forall i | 0 <= i < |o.items|
      ensures o.items[i].product in ids
      ensures o.items[i].price == EffectivePrice(s.products[o.items[i].product].price, s.products[o.items[i].product].discount)
    {
      assert o.items[i].product == rows[i].id;
    }
    forall p | p in ids ensures exists i :: 0 <= i < |o.items| && o.items[i].product == p {
      assert (u, p) in s.cart && p in s.products;
      var i :| 0 <= i < |rows| && rows[i].id == p;
      assert o.items[i].product == p;
    }
    assert IsPin(o.pin);
  }

  lemma PlacedOrderContents(s: State, u: UserId, draw: PinDraw)
    requires ResolvedIds(s, u) != {}
    ensures PlaceOrder(s, u, draw, NoFault).reply == CreatedWithId(s.nextOrderId)
    ensures s.nextOrderId in PlaceOrder(s, u, draw, NoFault).next.orders
    ensures OrdersCart(s, u, draw, PlaceOrder(s, u, draw, NoFault).next.orders[s.nextOrderId])
  {
    CartOrderOfCart(s, u, draw);
    assert Placed(s, u, draw).orders[s.nextOrderId] == CartOrder(u, GetCart(s, u), draw);
  }

  // ---------------------------------------------------------------------------
  // GET /orders
  // ---------------------------------------------------------------------------

  datatype ItemView = ItemView(name: string, image: string, quantity: nat, price: int)

  datatype OrderView = OrderView(id: OrderId, total: int, pin: string, status: Status, items: seq<ItemView>)

  /** How one line item is listed once its product row is found. GET /orders
      reads `oi.quantity`, but no handler ever writes that column, so every
      row holds the column's default. The schema is not part of this model;
      the listing shows a quantity of 1, taking that default to be 1. */
  function ItemViewOf(p: Product, item: LineItem): ItemView {
    ItemView(p.name, p.image, 1, item.price)
  }

  /** `view` is how `item` is listed: its product row exists and supplies
      the name and image, the item supplies the price. */
  predicate Listed(s: State, item: LineItem, view: ItemView) {
    item.product in s.products && view == ItemViewOf(s.products[item.product], item)
  }

  /** The join of an order's items with the products table, in item order. */
  function ResolveItems(s: State, items: seq<LineItem>): seq<ItemView>
    decreases |items|
  {
    if items == [] then []
    else
      var head := if items[0].product in s.products then [ItemViewOf(s.products[items[0].product], items[0])] else [];
      head + ResolveItems(s, items[1..])
  }

  /** `view` is the listing of some item of `items`. */
  predicate ListsSomeItem(s: State, items: seq<LineItem>, view: ItemView) {
    exists j :: 0 <= j < |items| && Listed(s, items[j], view)
  }

  lemma ListsSomeLaterItem(s: State, items: seq<LineItem>, view: ItemView)
    requires items != [] && ListsSomeItem(s, items[1..], view)
    ensures ListsSomeItem(s, items, view)
  {
    var j :| 0 <= j < |items[1..]| && Listed(s, items[1..][j], view);
    assert items[j + 1] == items[1..][j];
  }

  /** Every listed item is the listing of one of the order's items. */
  lemma {:induction false} ResolveItemsSound(s: State, items: seq<LineItem>)
    ensures |ResolveItems(s, items)| <= |items|
    ensures forall i :: 0 <= i < |ResolveItems(s, items)| ==> ListsSomeItem(s, items, ResolveItems(s, items)[i])
    decreases |items|
  {
    if items != [] {
      var rest := ResolveItems(s, items[1..]);
      ResolveItemsSound(s, items[1..]);
      var views := ResolveItems(s, items);
      var k := if items[0].product in s.products then 1 else 0;
      assert views[k..] == rest;
      forall i | 0 <= i < |views| ensures ListsSomeItem(s, items, views[i]) {
        if i < k {
          assert Listed(s, items[0], views[i]);
        } else {
          assert views[i] == rest[i - k];
          ListsSomeLaterItem(s, items, views[i]);
        }
      }
    }
  }

  /** An item whose product row is gone is dropped; when every product row
      is there, each item is listed, in order. */
  lemma {:induction false} ResolveItemsComplete(s: State, items: seq<LineItem>)
    requires forall j :: 0 <= j < |items| ==> items[j].product in s.products
    ensures |ResolveItems(s, items)| == |items|
    ensures forall j :: 0 <= j < |items| ==> Listed(s, items[j], ResolveItems(s, items)[j])
    decreases |items|
  {
    if items != [] {
      assert forall j :: 0 <= j < |items[1..]| ==> items[1..][j] == items[j + 1];
      ResolveItemsComplete(s, items[1..]);
      var views := ResolveItems(s, items);
      var rest := ResolveItems(s, items[1..]);
      assert views == [ItemViewOf(s.products[items[0].product], items[0])] + rest;
      forall j | 0 <= j < |items| ensures Listed(s, items[j], views[j]) {
        if j > 0 {
          assert views[j] == rest[j - 1];
          assert items[1..][j - 1] == items[j];
        }
      }
    }
  }

  /** The items of an order whose product row still exists, in item order. */
  function PresentItems(s: State, items: seq<LineItem>): seq<LineItem> {
    Seqs.Filter(items, (it: LineItem) => it.product in s.products)
  }

  /** The join lists exactly the items whose product row still exists, in
      item order, each with its own product's data: an orphaned item hides
      only itself. */
  lemma {:induction false} ResolveItemsExact(s: State, items: seq<LineItem>)
    ensures |ResolveItems(s, items)| == |PresentItems(s, items)|
    ensures forall i :: 0 <= i < |PresentItems(s, items)| ==>
      Listed(s, PresentItems(s, items)[i], ResolveItems(s, items)[i])
    decreases |items|
  {
    if items != [] {
      ResolveItemsExact(s, items[1..]);
      var kept := PresentItems(s, items);
      var keptRest := PresentItems(s, items[1..]);
      var views := ResolveItems(s, items);
      var rest := ResolveItems(s, items[1..]);
      if items[0].product in s.products {
        assert kept == [items[0]] + keptRest;
        assert views == [ItemViewOf(s.products[items[0].product], items[0])] + rest;
        forall i | 0 <= i < |kept| ensures Listed(s, kept[i], views[i]) {
          if i > 0 {
            assert kept[i] == keptRest[i - 1] && views[i] == rest[i - 1];
          }
        }
      } else {
        assert kept == keptRest;
        assert views == rest;
      }
    }
  }

  /** The ids of a user's orders. */
  function OrderIdsOf(s: State, u: UserId): set<OrderId>
  {
    set id | id in s.orders && s.orders[id].owner == u
  }

  /** How one stored order is listed. */
  function ViewOf(s: State, id: OrderId): (v: OrderView)
    requires id in s.orders
    ensures v.id == id
  {
    var o := s.orders[id];
    OrderView(id, o.total, o.pin, o.status, ResolveItems(s, o.items))
  }

  /** The ids of the user's orders, newest (largest) first. */
  function OrderIdsNewestFirst(s: State, u: UserId): (ids: seq<OrderId>)
    ensures forall i :: 0 <= i < |ids| ==> ids[i] in s.orders && s.orders[ids[i]].owner == u
    ensures forall id :: id in s.orders && s.orders[id].owner == u ==> id in ids
    ensures forall i, j :: 0 <= i < j < |ids| ==> ids[i] > ids[j]
  {
    var mine := OrderIdsOf(s, u);
    var ids := Seqs.SortedIdsDescending(mine);
    forall i | 0 <= i < |ids| ensures ids[i] in s.orders && s.orders[ids[i]].owner == u {
      assert ids[i] in mine;
    }
    ids
  }

  /** The listing of each order in `ids`, in that order. */
  function ViewsFor(s: State, ids: seq<OrderId>): (views: seq<OrderView>)
    requires forall i :: 0 <= i < |ids| ==> ids[i] in s.orders
    ensures |views| == |ids|
    ensures forall i :: 0 <= i < |ids| ==> views[i] == ViewOf(s, ids[i])
  {
    if ids == [] then [] else [ViewOf(s, ids[0])] + ViewsFor(s, ids[1..])
  }

  /** GET /orders: the caller's orders, newest first, each with its resolved
      items. Creation time order is modelled by the AUTO_INCREMENT id. */
  function ListOrders(s: State, u: UserId): (views: seq<OrderView>)
    ensures forall i :: 0 <= i < |views| ==>
      && views[i].id in s.orders
      && s.orders[views[i].id].owner == u
      && views[i] == ViewOf(s, views[i].id)
    ensures forall id :: id in s.orders && s.orders[id].owner == u ==> exists i :: 0 <= i < |views| && views[i].id == id
    ensures forall i, j :: 0 <= i < j < |views| ==> views[i].id > views[j].id
  {
    var ids := OrderIdsNewestFirst(s, u);
    var views := ViewsFor(s, ids);
    forall i | 0 <= i < |views|
      ensures views[i].id in s.orders && s.orders[views[i].id].owner == u && views[i] == ViewOf(s, views[i].id)
    {
      assert views[i] == ViewOf(s, ids[i]);
      assert views[i].id == ids[i];
    }
    forall id | id in s.orders && s.orders[id].owner == u
      ensures exists i :: 0 <= i < |views| && views[i].id == id
    {
      var k := Seqs.IndexOf(ids, id);
      assert views[k].id == id;
    }
    views
  }

  // ---------------------------------------------------------------------------
  // POST /orders/confirm-delivery
  // ---------------------------------------------------------------------------

  /** POST /orders/confirm-delivery (no authentication). Both fields are
      required; an unknown order is a 404; a delivered order is refused; the
      PIN must equal the stored string exactly (`===`, so a PIN sent as a JSON
      number never matches). Only a match changes anything: that order's
      status becomes Delivered. */
  function ConfirmDelivery(s: State, orderId: Option<nat>, pin: Field): (out: Response)
    ensures !GivenId(orderId) || !Truthy(pin) ==> out == Response(BadRequest(MissingFields), s)
    ensures GivenId(orderId) && Truthy(pin) && orderId.value !in s.orders ==> out == Response(NotFound, s)
    ensures GivenId(orderId) && Truthy(pin) && orderId.value in s.orders && s.orders[orderId.value].status == Delivered ==>
      out == Response(BadRequest(AlreadyDelivered), s)
    ensures GivenId(orderId) && Truthy(pin) && orderId.value in s.orders ==>
      var o := s.orders[orderId.value];
      o.status == Pending && pin != Str(o.pin) ==> out == Response(BadRequest(InvalidPin), s)
    ensures out.reply == Done <==>
      && GivenId(orderId) && orderId.value in s.orders
      && s.orders[orderId.value].status == Pending
      && Truthy(pin) && pin == Str(s.orders[orderId.value].pin)
    ensures out.reply == Done ==>
      var id := orderId.value;
      && out.next.orders.Keys == s.orders.Keys
      && out.next.orders[id] == s.orders[id].(status := Delivered)
      && (forall k :: k in s.orders && k != id ==> out.next.orders[k] == s.orders[k])
      && out.next == s.(orders := out.next.orders)
    ensures out.reply != Done ==> out.next == s
    ensures out.reply == Done || out.reply == NotFound || out.reply.BadRequest?
  {
    if !GivenId(orderId) || !Truthy(pin) then Response(BadRequest(MissingFields), s)
    else if orderId.value !in s.orders then Response(NotFound, s)
    else
      var o := s.orders[orderId.value];
      if o.status == Delivered then Response(BadRequest(AlreadyDelivered), s)
      else if pin == Str(o.pin) then
        assert o.status == Pending;
        Response(Done, s.(orders := s.orders[orderId.value := o.(status := Delivered)]))
      else Response(BadRequest(InvalidPin), s)
  }
}
