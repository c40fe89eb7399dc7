# Farmers' marketplace: order workflow and client logic in Dafny

This project models the core of a small marketplace. Sellers list produce,
buyers put products in a cart and place an order, and a delivery agent
confirms delivery with a four-digit PIN. There are two halves:

- **The Express server** (`Backend/server.js`) is modelled as a pure state
  machine over its database: users, products, cart entries (one per
  user/product pair) and orders with line items.
  - Every handler takes the state and the request's inputs and returns the
    HTTP outcome together with the next state. This covers POST /register,
    GET and POST /products, POST, DELETE and GET /cart, POST and GET /orders,
    and POST /orders/confirm-delivery.
  - The order transaction either commits as a whole or, on a failure,
    changes nothing but the order id counter.
  - `Transitions.Handle` dispatches every state-changing request. The
    properties that hold across all requests are proved about it:
    - the database invariant is preserved;
    - orders are never lost;
    - the only status change is Pending to Delivered, and only with the
      order's own PIN.
- **The browser client** (`miniprojecthalfdone/script.js`) is modelled for
  its own logic:
  - the registration and add-product validators;
  - the mock discount;
  - the cart total;
  - the filter-and-sort pipeline of the product list;
  - the star rating.
  Lemmas tie these pieces to the server. A registration or product the
  client accepts passes the server's field checks. The cart total the
  client shows equals the total of the order placed from that cart. The
  product page over the server's listing shows a stored product exactly
  when it matches the controls, and then once. Every rating the server
  sends renders as stars.

Layout:

- `wrappers.dfy`: `Option` and `Result`.
- `text.dfy`: JavaScript `trim`, `toLowerCase`, `includes`, and decimal
  numerals.
- `seqs.dfy`: filtering, subsequences, sums, a stable sort by key, and
  sorted id lists.
- `catalog.dfy`: the product record and the discounted price
  `Math.round(price * (100 - discount) / 100)`.
- `store.dfy`: the server state and its handlers.
- `transitions.dfy`: the request dispatcher, the cross-request properties,
  and the worked scenarios.
- `client.dfy`: the client.

Modelling choices:

- **Rounding.** Prices, discounts, delivery days and ratings are whole
  numbers. On integers, `Math.round(x / 100)` equals `(x + 50) / 100` with
  floor division, and the model uses that form.
- **Row order.** The queries of GET /cart (`Backend/server.js:207-211`) and
  of the items of each order in GET /orders (`Backend/server.js:386-390`)
  have no ORDER BY, so SQL leaves their row order open. The model lists cart
  rows by ascending product id and an order's items in the order they were
  inserted.
- **Newest first.** "Newest first" (`ORDER BY created_at DESC`) is modelled
  by descending AUTO_INCREMENT id.
- **Random draws.** `Math.random()` becomes a parameter: a `PinDraw` below
  9000 for the delivery PIN, and a `DiscountDraw` below 16 for the mock
  discount.
- **Falsy request fields.** A missing, empty or zero field is modelled
  explicitly:
  - `Option<nat>` for ids, where `None` or `Some(0)`, a JSON number 0, is
    falsy. The client sends ids as strings, and the string "0" would be
    truthy, but ids start at 1;
  - `Field` for the PIN, which may be text, a JSON number or absent.
  The server stores the PIN as a string (`.toString()`) and compares with
  `===`. The model takes the PIN column to be a character type, so that
  the row hands back a string. Then a PIN sent as a number never matches.
- **Database failure.** POST /orders takes an `OrderFault` saying where,
  if anywhere, a database call fails:
  - `FailsBeforeInsert`: getting the connection, starting the transaction
    or reading the cart fails. The reply is 500 whatever the cart holds, and
    nothing changes.
  - `FailsAfterInsert`: a call after the orders row was inserted fails. The
    rollback removes the rows, but InnoDB does not give back the
    AUTO_INCREMENT value the orders row took. The reply is 500, and only
    the order id counter has moved on.
  - `NoFault`: the transaction commits.

What the handlers do, as the model has it:

- POST /cart does not check that the product exists. It inserts the pair,
  and only a duplicate pair is refused (409). It never answers 404
  (`Store.AddToCart`).
- GET /orders joins line items with the live products table. An item whose
  product row is gone is dropped from the listing, and only that item. Name
  and image come from the current product row (`Store.ResolveItemsExact`,
  `Store.ResolveItemsSound`). A line item stores only the product id and
  the price paid.
- Products record the seller's name and contact text as given. No route
  deletes a product.
- `Math.round` rounds halves toward positive infinity. For non-negative
  amounts this is the same as rounding halves away from zero. POST /products
  accepts any truthy price and discount (`Backend/server.js:182`), so
  negative amounts can be stored; the model's rounding is `Math.round`'s
  for them too.

## Model

| member | source | states |
|---|---|---|
| `Catalog.EffectivePrice` | Backend/server.js:326 | the discounted price lies within half a unit of `price * (100 - discount) / 100`, with a half rounding up, as `Math.round` does |
| `Catalog.Total` | Backend/server.js:324-327 | the order total: the sum of the items' discounted prices; `Catalog.TotalAppend` and `Store.CartOrderFacts` state what it adds up to |
| `Catalog.EffectivePriceUnique` | Backend/server.js:341 | no other integer satisfies that rounding bound, so server line items, server total and client total all agree on each price |
| `Catalog.EffectivePriceBounds` | miniprojecthalfdone/script.js:428 | for a non-negative price and a discount from 0 to 100, the discounted price is between 0 and the list price |
| `Catalog.EffectivePriceMonotone` | Backend/server.js:326 | a larger discount never gives a higher price |
| `Catalog.EffectivePriceExamples` | Backend/server.js:326 | 1000 at 10% is 900, 999 at 15% is 849, 1000 at 15% is 850, 300 at 10% is 270, and 1 at 50% rounds up to 1 |
| `Catalog.TotalAppend` | Backend/server.js:324-327 | the total of two groups of items is the sum of their totals, so the order of accumulation does not matter |
| `Text.Trim` | miniprojecthalfdone/script.js:119 | the result is a slice of the input with only whitespace before and after it, and it is empty or starts and ends with a non-whitespace character: exactly the input with its leading and trailing whitespace removed |
| `Text.TrimEmptyIffAllSpace` | miniprojecthalfdone/script.js:125 | a trimmed field is empty exactly when the typed text is all whitespace |
| `Text.TrimIdempotent` | miniprojecthalfdone/script.js:119 | trimming an already trimmed string changes nothing |
| `Text.Lower` | miniprojecthalfdone/script.js:602-622 | `toLowerCase` keeps the length and folds each character on its own, ASCII capitals to lower case |
| `Text.Includes` | miniprojecthalfdone/script.js:622 | `includes` holds exactly when the term occurs as a contiguous block somewhere in the text |
| `Text.DecimalRoundTrip` | Backend/server.js:330 | reading back the decimal digits of `n.toString()` gives `n` |
| `Text.DecimalFourDigits` | Backend/server.js:330 | every number from 1000 to 9999 prints as exactly four characters, which is what makes the PIN four digits |
| `Seqs.Filter` | miniprojecthalfdone/script.js:620-622 | `filter` keeps only elements satisfying the predicate, and every satisfying element as often as it occurs |
| `Seqs.FilterIsSubsequence` | miniprojecthalfdone/script.js:620-622 | `filter` keeps the surviving elements in their original order |
| `Seqs.SortByKey` | miniprojecthalfdone/script.js:625-640 | a stable sort with comparator `k(a) - k(b)` returns a permutation that is ordered by `k` and keeps each group of equal keys in input order |
| `Seqs.SortByConstantKeyIsIdentity` | miniprojecthalfdone/script.js:633 | a stable sort whose comparator is always 0 returns its input unchanged |
| `Seqs.SortedIds` | Backend/server.js:207-211 | a set of ids is listed once each, strictly ascending |
| `Store.Register` | Backend/server.js:55-75 | 400 when the username or password is empty; 409 when the name is taken; otherwise 201 and the user is stored under the next id, with nothing else changed |
| `Store.AddProduct` | Backend/server.js:173-195 | 400 and no change unless every field but the description and image is truthy; otherwise 201 with the new id, the product is stored under it, and nothing else changes |
| `Store.ListProducts` | Backend/server.js:153-167 | the listing shows stored products with their own data, newest (largest id) first, rated 4 for even ids and 5 for odd ids |
| `Store.ListProductsComplete` | Backend/server.js:154-161 | every stored product appears in the listing |
| `Store.ListProductsOnce` | Backend/server.js:155-161 | every stored product is listed exactly once, with its own data and the mock rating of its id |
| `Store.AddToCart` | Backend/server.js:242-265 | 400 for a falsy product id; 409 and no change when the pair is already in the cart; otherwise 201, and exactly that pair is added |
| `Store.RemoveFromCart` | Backend/server.js:276-295 | 404 and no change when the caller has no entry for the product; otherwise 200, and exactly that entry is removed |
| `Store.GetCart` | Backend/server.js:201-219 | the rows are the caller's entries whose product still exists, with that product's data, each once, by ascending id; orphaned entries are left out |
| `Store.GetCartSize` | Backend/server.js:207-211 | the cart lists as many rows as there are resolvable entries |
| `Store.DeliveryPin` | Backend/server.js:330 | the PIN is four decimal digits, not starting with 0, whose value is 1000 plus the draw |
| `Store.DeliveryPinBijective` | Backend/server.js:330 | two draws give the same PIN exactly when they are the same draw, so the 9000 draws give 9000 different PINs |
| `Store.CartOrder` | Backend/server.js:323-346 | the order made from the cart rows; `Store.CartOrderFacts` and `Store.CartOrderOfCart` state its items, total, PIN and status |
| `Store.CartOrderFacts` | Backend/server.js:323-346 | an order built from cart rows has one line item per row at its discounted price; its total is the sum of the line items and also the client's total of those products; it is Pending with the drawn PIN |
| `Store.Placed` | Backend/server.js:333-353 | a committed order transaction stores the order under the next order id, deletes all of the user's cart entries (orphans too), and leaves users, products and other carts as they were |
| `Store.PlaceOrder` | Backend/server.js:301-364 | 500 with no change when the connection, the transaction start or the cart read fails, whatever the cart holds; otherwise 400 with no change when no cart entry resolves; 500 with only the order id counter advanced when a call after the orders insert fails; otherwise 201 with the new order id and the committed state |
| `Store.CartOrderOfCart` | Backend/server.js:309-346 | the order made from a cart has exactly one line item for each product the cart resolves to, at that product's discounted price, and a total equal to the sum of its items |
| `Store.PlacedOrderContents` | Backend/server.js:301-355 | when some cart entry resolves, placing the order replies 201 and stores an order with exactly those contents |
| `Store.ResolveItems` | Backend/server.js:383-390 | the JOIN of an order's items with the products table; `Store.ResolveItemsExact` states it lists exactly the items whose product exists |
| `Store.ResolveItemsExact` | Backend/server.js:383-390 | the listing has one entry per item whose product row still exists, in item order, each with that product's name and image and the item's price; an orphaned item hides only itself |
| `Store.ResolveItemsSound` | Backend/server.js:383-390 | every listed item is the listing of one of the order's line items whose product exists, with that product's name and image and the item's price |
| `Store.ResolveItemsComplete` | Backend/server.js:383-390 | when every product of the order still exists, each line item is listed, in order |
| `Store.ListOrders` | Backend/server.js:371-404 | the caller's orders, and only theirs, are each listed once, newest (largest id) first, with their resolved items |
| `Store.ConfirmDelivery` | Backend/server.js:411-452 | 400 for a missing id or PIN; 404 for an unknown order; 400 for an already delivered order; 400 "Invalid Delivery PIN." for a pending order with any other PIN, text or number; 200 exactly when the PIN string equals the stored one, and then only that order's status becomes Delivered; every refusal leaves the state unchanged |
| `Transitions.Handle` | Backend/server.js:55-452 | each state-changing request goes to its route's handler; `Transitions.HandlePreservesValid`, `Transitions.HandleKeepsOrderHistory` and `Transitions.OnlyMatchingPinDelivers` state what every request keeps |
| `Transitions.HandlePreservesValid` | Backend/server.js:55-452 | every request keeps the database invariant: ids are below their counters, usernames are unique, and every order has items, a total equal to their sum, and a well-formed PIN |
| `Transitions.HandleKeepsOrderHistory` | Backend/server.js:436-441 | no request deletes an order, and the only change to a stored order is Pending to Delivered |
| `Transitions.DeliveredIsTerminal` | Backend/server.js:432-434 | no request changes a delivered order |
| `Transitions.OnlyMatchingPinDelivers` | Backend/server.js:437-446 | a pending order becomes Delivered only through a confirmation that names it and carries its own PIN as a string |
| `Transitions.PlaceOrderClearsOnlyCallersCart` | Backend/server.js:350 | after an order, the caller's cart is empty and every other user's cart reads as before |
| `Transitions.GetCartFrame` | Backend/server.js:207-211 | a user's cart listing depends only on their own entries and the products table |
| `Transitions.AddTwiceConflicts` | Backend/server.js:251-262 | adding the same product twice: 201 then 409, and the pair is in the cart once |
| `Transitions.ConfirmTwice` | Backend/server.js:432-443 | confirming twice with the right PIN: the first call delivers, and the second is refused as already delivered with no change |
| `Transitions.WrongPinChangesNothing` | Backend/server.js:430-447 | a wrong PIN, sent as text or as a JSON number, changes nothing and gets 400: "Invalid Delivery PIN." for a pending order, "already delivered" for a delivered one |
| `Transitions.LateFaultSkipsOrderId` | Backend/server.js:333-360 | a failure after the orders insert answers 500 and keeps the orders and the cart, but the next order placed from that cart gets the id after the one the failed insert took |
| `Transitions.SerialCommitIsPlaced` | Backend/server.js:309-353 | with no other request in between, the order transaction as written and the corrected one both leave exactly the committed state of POST /orders |
| `Transitions.RacingAddIsLost` | Backend/server.js:309-353 | as written, when a POST /cart by the same user commits between the cart read and the cart delete, it is answered 201, yet its entry ends up neither in the cart nor in the order |
| `Transitions.RacingAddKept` | Backend/server.js:309-353 | corrected to delete only the entries read, the same race keeps the new entry in the cart, deletes every entry read, and stores the order made from the cart as read |
| `Transitions.DoubleOrderAsWritten` | Backend/server.js:309-353 | as written, two overlapping orders of the same user both commit: the one cart is stored as two orders with the same items under consecutive ids |
| `Transitions.SecondOrderRefused` | Backend/server.js:309-320 | after an order is placed, the next order from the same user finds the cart empty and is refused with nothing changed |
| `Transitions.TwoItemOrder` | Backend/server.js:323-355 | products at 500 with no discount and 300 at 10% give an order with line items 500 and 270, a total of 770, and an empty cart afterwards |
| `Transitions.OrphanOnlyCartIsEmpty` | Backend/server.js:309-320 | a cart whose only entry points at a missing product gets the empty-cart 400 and nothing changes |
| `Client.CheckRegistration` | miniprojecthalfdone/script.js:119-134 | "fill all fields" exactly when the trimmed username or the password is empty; "passwords differ" exactly when both are filled and the confirmation differs; otherwise the trimmed username and the password are sent |
| `Client.RegistrationPassesServerCheck` | miniprojecthalfdone/script.js:119-134 | a registration the form sends is never refused for missing fields; the server creates the user exactly when the name is free |
| `Client.MockDiscount` | miniprojecthalfdone/script.js:543 | the mock discount is between 5% and 20% |
| `Client.MockDiscountCovers` | miniprojecthalfdone/script.js:543 | every discount from 5% to 20% can be drawn |
| `Client.CheckProductForm` | miniprojecthalfdone/script.js:520-557 | "fill all fields" exactly when a required field is empty after trimming; "invalid numbers" exactly when the fields are filled but the price is not positive or the delivery days are outside 1 to 30; otherwise the product sent carries the trimmed text, the numbers and a 5% to 20% discount |
| `Client.FormProductAccepted` | miniprojecthalfdone/script.js:531-557 | a product the form sends passes the server's required-field check and is stored, and its discounted price is between 0 and its list price |
| `Client.CartTotal` | miniprojecthalfdone/script.js:425-429 | the running total over the cart rows equals the sum of their discounted prices |
| `Client.CartTotalIsOrderTotal` | miniprojecthalfdone/script.js:425-429 | the total shown on the cart page equals the total of the order placed from that cart |
| `Client.FilterDistrict` | miniprojecthalfdone/script.js:620 | an empty choice keeps every listing; otherwise exactly the listings whose district matches, ignoring ASCII case, stay, in order |
| `Client.FilterCategory` | miniprojecthalfdone/script.js:621 | the same for the category |
| `Client.FilterSearch` | miniprojecthalfdone/script.js:605-622 | a blank term keeps every listing; otherwise exactly the listings whose lower-cased name contains the trimmed, lower-cased term stay, in order |
| `Client.ApplyFiltersKeepsOrder` | miniprojecthalfdone/script.js:619-622 | the filtered list is a subsequence of the listing |
| `Client.ApplyFiltersSound` | miniprojecthalfdone/script.js:619-622 | every listing that survives the filters matches all three controls |
| `Client.ApplyFiltersComplete` | miniprojecthalfdone/script.js:619-622 | every listing that matches all three controls survives, as often as it was listed |
| `Client.SortListings` | miniprojecthalfdone/script.js:625-640 | the result is a permutation of the input: rating sorts highest first, price ascending sorts lowest first, price descending sorts highest first, delivery sorts fastest first, and any other value keeps the list; ties keep their listing order |
| `Client.PriceDescAsWritten` | miniprojecthalfdone/script.js:632-634 | the price-descending option as written returns the list unchanged |
| `Client.PriceDescAsWrittenLeavesOrder` | miniprojecthalfdone/script.js:633 | on listings priced 100 then 200, the option as written keeps 100 first, while the intended sort puts 200 first |
| `Client.Browse` | miniprojecthalfdone/script.js:601-640 | the product page: the three filters, then the chosen sort; `Client.BrowseExact` and `Client.SortListings` state what it shows and in which order |
| `Client.BrowseExact` | miniprojecthalfdone/script.js:601-640 | a listing is shown exactly when the server sent it and it matches the controls, and it is shown as often as it was sent |
| `Client.BrowseServerListing` | miniprojecthalfdone/script.js:601-640 | over the server's product listing, a stored product is shown exactly when it matches the controls, and then exactly once |
| `Client.Stars` | miniprojecthalfdone/script.js:695-699 | below 1 the result is five hollow stars; from 1 to 5 it is `n` full stars then hollow stars up to five; above 5, `repeat` with a negative count throws a RangeError |
| `Client.StarsRoundTrip` | miniprojecthalfdone/script.js:695-699 | counting the full stars gives back the rating, or 0 for a rating below 1, for every rating up to 5 |
| `Client.ListedProductsHaveStars` | miniprojecthalfdone/script.js:674 | every rating the server sends with a product renders without error, and shows as many full stars as the rating |

## Left out

- Authentication is not modelled. This covers JWT issue and verification (`authenticateToken`, POST /login, GET /verify-token) and bcrypt hashing. Handlers receive the authenticated user id, and users are kept by username only.
- POST /generate-description is not modelled. It is a proxy to an external text-generation service.
- DOM rendering, alerts, `localStorage`, `fetch` and the `FileReader` image upload are not modelled. They are presentation and I/O. The image is passed through as an opaque string.
- `parseFloat`/`parseInt` are replaced by a pre-parsed `NumberField` (blank, not a number, or a whole number). Fractional prices and ratings, and `Math.round` on fractional ratings, are left out because floating point is not modelled.
- The 500 replies of POST /register, the product routes, the cart routes, GET /orders and the delivery confirmation are not modelled. They come from database failures, and none of them changes the state. Only the order transaction's rollback is modelled.
- MySQL's case-insensitive collation of usernames is left out. Register compares names exactly.
- `toLowerCase` folds ASCII letters only, since Unicode case mapping is not modelled.
- The `Promise.all` fan-out of line-item inserts and item lookups is modelled as sequential, because the writes are independent inside one transaction.
- Whether a foreign key rejects a cart entry for a non-existent product is not modelled. The schema is not part of this model, so POST /cart follows the handler code.
- The `sold` flag and the `reviews` array of GET /products are left out. They are constant mock data, and only `rating` feeds the client logic.
- Store.PlaceOrder: a failure of the orders INSERT itself counts as `FailsBeforeInsert`, so no id is used up. Whether InnoDB spends an AUTO_INCREMENT value on a failed insert depends on the failure and the lock mode, which are outside the model. Failures of the rollback and of the calls on the empty-cart path are not modelled.
- Requests are applied one at a time (`Transitions.Handle`). Two requests that overlap are not modelled in general, and these results hold only when requests do not overlap:
  - `Store.Placed` builds the order from the same cart it then deletes, so no entry is deleted without being seen by the order. An entry added by a POST /cart that commits between the cart SELECT (`Backend/server.js:310-315`) and the cart DELETE (`Backend/server.js:350`) is deleted too, without being ordered. The "## Findings" row on `Backend/server.js:310-350` models this interleaving.
  - `UniqueUsernames` in `Transitions.HandlePreservesValid`: POST /register checks the name (`Backend/server.js:61-64`) and then inserts it (`Backend/server.js:66-69`) as two separate statements. Two registrations of the same name can both pass the check. Whether a UNIQUE index then refuses the second insert depends on the schema, which is not part of this model.
  - `Transitions.ConfirmTwice`: two overlapping confirmations with the right PIN both read the order as Pending (`Backend/server.js:420-434`). Both then run the UPDATE and both are answered 200. The final state is the same, but the second is not refused.
  - An order empties the cart, so the next order from it is refused as empty (`Transitions.SecondOrderRefused`). Two overlapping POST /orders of the same user both read the cart before either deletes it (`Backend/server.js:310-315`). Both insert an order and both are answered 201. The second DELETE (`Backend/server.js:350`) waits for the first transaction's row locks and then finds nothing to delete. The client disables its button while an order is placed (`miniprojecthalfdone/script.js:256`), but only within one page. The "## Findings" row on `Backend/server.js:309-353` models this interleaving.
- Store.ConfirmDelivery: the model takes the `delivery_pin` column to be a character type, so the stored PIN reads back as the string that `.toString()` made (`Backend/server.js:330`). The driver returns a column in its SQL type. With a numeric column only a PIN sent as a JSON number would match, and every PIN typed on the page would be refused. The schema is not part of this model.
- Store.ListOrders: each item is listed with a quantity of 1. GET /orders returns `oi.quantity` as stored (`Backend/server.js:386-390`), and no handler writes that column, so it holds the column's default. The model takes that default to be 1, since the schema is not part of this model.
- Client.Stars: takes a whole-number rating, so a missing rating cannot be expressed. In the page, `Math.round(undefined)` is NaN, which `!n` turns into five hollow stars (`miniprojecthalfdone/script.js:696-697`). The rating sort reads a missing rating as 0 through `(b.rating || 0)` (`miniprojecthalfdone/script.js:627`). GET /products always sets `rating` (`Backend/server.js:160`), so neither case arises from the server's listing.
- The empty-cart path of POST /orders releases its connection twice. Connection pooling is not modelled.
- Missing JSON fields in POST /products are modelled as empty strings or 0. A product record always has every field.

## Findings

| source | as written | input that shows it | evidently intended | confidence | as-written member | corrected member |
|---|---|---|---|---|---|---|
| miniprojecthalfdone/script.js:633 | the "priceDesc" comparator is `(a, b) => b.price - b.price`, which is 0 for every pair | two listings priced 100 then 200 with sort "priceDesc": the page keeps 100 first | `(a, b) => b.price - a.price`, highest price first | high, not executed | `Client.PriceDescAsWritten`, `Client.PriceDescAsWrittenLeavesOrder` | `Client.SortListings` |
| Backend/server.js:310-350 | the cart is read with a plain SELECT, which under REPEATABLE READ is a snapshot, and then cleared with `DELETE FROM cart_items WHERE user_id = ?`, which acts on the latest committed rows | a cart holding product 1; during POST /orders, a POST /cart for product 2 by the same user commits after the SELECT; it is answered 201, the order holds only product 1, and after the commit product 2 is gone from the cart | delete only the entries that were read, or lock them with `SELECT … FOR UPDATE`, so that a later entry stays in the cart | medium, not executed | `Transitions.CommitAsWritten`, `Transitions.RacingAddIsLost` | `Transitions.CommitDeletingRead`, `Transitions.RacingAddKept`, `Transitions.SerialCommitIsPlaced` |
| Backend/server.js:309-353 | the cart is read with a plain SELECT, which locks nothing, so two POST /orders of the same user can both read it before either deletes it | a cart holding product 1 and two order requests sent from two pages at once: both are answered 201, and orders n and n + 1 both hold product 1 | read the cart with `SELECT … FOR UPDATE`, so that the second transaction waits and then finds the cart empty | medium, not executed | `Transitions.CommitAsWritten`, `Transitions.DoubleOrderAsWritten` | `Store.PlaceOrder`, `Transitions.SecondOrderRefused` |

The pipeline `Client.Browse` uses the corrected sort. `Store.PlaceOrder` commits `Store.Placed`, which is what the corrected transaction leaves when no other request overlaps it (`Transitions.SerialCommitIsPlaced`). `Store.PlaceOrder` reads the committed cart, which is what a locking read sees once the other transaction has committed.
