/** The browser client's own logic: the registration and product-form
    validators, the mock discount, the cart total, the filter-and-sort
    pipeline of the product list, and the star rating. Everything else the
    client does is DOM rendering and `fetch` calls to the server modelled in
    `Store`. */
module Client {
  import opened Wrappers
  import opened Catalog
  import Store
  import Seqs
  import Text

  // ---------------------------------------------------------------------------
  // Registration form
  // ---------------------------------------------------------------------------

  datatype RegistrationError = FillAllFields | PasswordsDiffer

  /** What the registration form sends: the trimmed username and the password
      as typed. */
  datatype Registration = Registration(username: string, password: string)

  /** The registration form's checks, in order: the trimmed username and the
      password must be non-empty, then the password must equal its
      confirmation (exact comparison, no trimming). */
  function CheckRegistration(username: string, password: string, confirm: string): (r: Result<Registration, RegistrationError>)
    ensures r == Err(FillAllFields) <==> Text.Trim(username) == [] || password == []
    ensures r == Err(PasswordsDiffer) <==> Text.Trim(username) != [] && password != [] && password != confirm
    ensures r.Ok? ==> r.value.password == password == confirm && Text.Trim(username) == r.value.username
  {
    var name := Text.Trim(username);
    if name == [] || password == [] then Err(FillAllFields)
    else if password != confirm then Err(PasswordsDiffer)
    else Ok(Registration(name, password))
  }

  /** A registration the form lets through is never refused by the server for
      missing fields: the server creates the user unless the name is taken,
      and the submitted name is already in trimmed form. */
  lemma RegistrationPassesServerCheck(s: Store.State, username: string, password: string, confirm: string)
    requires CheckRegistration(username, password, confirm).Ok?
    ensures var reg := CheckRegistration(username, password, confirm).value;
      && Text.Trim(reg.username) == reg.username
      && Store.Register(s, reg.username, reg.password).reply != Store.BadRequest(Store.MissingFields)
      && (Store.Register(s, reg.username, reg.password).reply == Store.Created <==> reg.username !in s.users.Values)
  {
    Text.TrimIdempotent(username);
  }

  // ---------------------------------------------------------------------------
  // Product form
  // ---------------------------------------------------------------------------

  /** A numeric form field after trimming and parsing: left empty, not a
      number, or a whole number. */
  datatype NumberField = Blank | NotANumber | Number(value: int)

  /** The add-product form as typed. District and category come from
      drop-down lists and are not trimmed. */
  datatype ProductForm = ProductForm(
    sellerName: string,
    contactInfo: string,
    district: string,
    category: string,
    productName: string,
    description: string,
    price: NumberField,
    deliveryDays: NumberField,
    image: string)

  datatype FormError = MissingFields | InvalidNumbers

  /** What `Math.floor(Math.random() * 16)` contributes: a whole number below 16. */
  type DiscountDraw = d: nat | d < 16

  /** The mock discount the client attaches to a new product. */
  function MockDiscount(d: DiscountDraw): (pct: int)
    ensures 5 <= pct <= 20
  {
    d + 5
  }

  /** Every discount from 5% to 20% can be drawn. */
  lemma MockDiscountCovers(pct: int)
    requires 5 <= pct <= 20
    ensures exists d: DiscountDraw :: MockDiscount(d) == pct
  {
    var d: DiscountDraw := pct - 5;
    assert MockDiscount(d) == pct;
  }

  /** Every required field is filled in: everything but the description and
      the image, text fields after trimming. */
  predicate FormComplete(f: ProductForm) {
    && Text.Trim(f.sellerName) != [] && Text.Trim(f.contactInfo) != []
    && f.district != [] && f.category != [] && Text.Trim(f.productName) != []
    && f.price != Blank && f.deliveryDays != Blank
  }

  /** A positive price and 1 to 30 delivery days. */
  predicate NumbersValid(f: ProductForm) {
    && f.price.Number? && f.price.value > 0
    && f.deliveryDays.Number? && 1 <= f.deliveryDays.value <= 30
  }

  /** The product form's checks and the product it sends. */
  function CheckProductForm(f: ProductForm, d: DiscountDraw): (r: Result<Product, FormError>)
    ensures r == Err(MissingFields) <==> !FormComplete(f)
    ensures r == Err(InvalidNumbers) <==> FormComplete(f) && !NumbersValid(f)
    ensures r.Ok? ==>
      && r.value.price == f.price.value > 0
      && 1 <= r.value.deliveryDays == f.deliveryDays.value <= 30
      && 5 <= r.value.discount <= 20
      && r.value.name == Text.Trim(f.productName) && r.value.description == Text.Trim(f.description)
      && r.value.sellerName == Text.Trim(f.sellerName) && r.value.contactInfo == Text.Trim(f.contactInfo)
      && r.value.district == f.district && r.value.category == f.category
      && r.value.image == f.image
  {
    if !FormComplete(f) then Err(MissingFields)
    else if !NumbersValid(f) then Err(InvalidNumbers)
    else
      Ok(Product(Text.Trim(f.sellerName), Text.Trim(f.contactInfo), f.district, f.category,
                 Text.Trim(f.productName), Text.Trim(f.description),
                 f.price.value, f.deliveryDays.value, MockDiscount(d), f.image))
  }

  /** A product the form lets through passes the server's required-field
      check, so POST /products stores it; and its listed price after the
      discount lies between 0 and the list price. */
  lemma FormProductAccepted(s: Store.State, f: ProductForm, d: DiscountDraw)
    requires CheckProductForm(f, d).Ok?
    ensures var p := CheckProductForm(f, d).value;
      && Store.RequiredFieldsPresent(p)
      && Store.AddProduct(s, p).reply == Store.CreatedWithId(s.nextProductId)
      && 0 <= EffectivePrice(p.price, p.discount) <= p.price
  {
    var p := CheckProductForm(f, d).value;
    EffectivePriceBounds(p.price, p.discount);
  }

  // ---------------------------------------------------------------------------
  // Cart total
  // ---------------------------------------------------------------------------

  /** The cart page's running total over the rows GET /cart returns. */
  method CartTotal(items: seq<Product>) returns (total: int)
    ensures total == Total(items)
  {
    total := 0;
    var i := 0;
    while i < |items|
      invariant 0 <= i <= |items|
      invariant total == Total(items[..i])
    {
      assert items[..i + 1] == items[..i] + [items[i]];
      TotalAppend(items[..i], [items[i]]);
      assert EffectivePrices([items[i]]) == [EffectivePrice(items[i].price, items[i].discount)];
      assert Seqs.Sum([EffectivePrice(items[i].price, items[i].discount)]) == EffectivePrice(items[i].price, items[i].discount);
      total := total + EffectivePrice(items[i].price, items[i].discount);
      i := i + 1;
    }
    assert items[..i] == items;
  }

  /** The total the cart page shows is the total of the order placed from
      that cart: client and server round every line the same way. */
  lemma CartTotalIsOrderTotal(s: Store.State, u: Store.UserId, draw: Store.PinDraw)
    requires Store.ResolvedIds(s, u) != {}
    ensures s.nextOrderId in Store.PlaceOrder(s, u, draw, Store.NoFault).next.orders
    ensures Store.PlaceOrder(s, u, draw, Store.NoFault).next.orders[s.nextOrderId].total
         == Total(Store.ProductsOf(Store.GetCart(s, u)))
  {
    var t := Store.Placed(s, u, draw);
    assert Store.PlaceOrder(s, u, draw, Store.NoFault).next == t;
    Store.CartOrderFacts(u, Store.GetCart(s, u), draw);
    assert t.orders[s.nextOrderId] == Store.CartOrder(u, Store.GetCart(s, u), draw);
  }

  // ---------------------------------------------------------------------------
  // Product list: filters
  // ---------------------------------------------------------------------------

  type Listing = Store.Listing

  /** The product-list controls as read from the page. */
  datatype Query = Query(district: string, category: string, sortBy: string, search: string)

  /** A listing matches a drop-down filter value when the value is empty or
      equals the field, both lower-cased. */
  predicate MatchesChoice(field: string, choice: string) {
    Text.Lower(choice) == [] || Text.Lower(field) == Text.Lower(choice)
  }

  /** A listing matches the search box when the trimmed, lower-cased term is
      empty or occurs in the lower-cased product name. */
  predicate MatchesSearch(name: string, search: string) {
    var term := Text.Lower(Text.Trim(search));
    term == [] || Text.Includes(Text.Lower(name), term)
  }

  predicate Matches(q: Query, l: Listing) {
    && MatchesChoice(l.product.district, q.district)
    && MatchesChoice(l.product.category, q.category)
    && MatchesSearch(l.product.name, q.search)
  }

  /** `if (value) list = list.filter(...)` for the district drop-down: an
      empty value keeps everything; otherwise exactly the listings whose
      district matches stay, in order. */
  function FilterDistrict(ls: seq<Listing>, choice: string): (r: seq<Listing>)
    ensures Seqs.IsSubsequence(r, ls) && multiset(r) <= multiset(ls)
    ensures forall i :: 0 <= i < |r| ==> MatchesChoice(r[i].product.district, choice)
    ensures forall i :: 0 <= i < |ls| && MatchesChoice(ls[i].product.district, choice) ==>
      multiset(r)[ls[i]] == multiset(ls)[ls[i]]
  {
    var c := Text.Lower(choice);
    var keep := (l: Listing) => Text.Lower(l.product.district) == c;
    Seqs.FilterIfIsSubsequence(ls, c != [], keep);
    Seqs.FilterIf(ls, c != [], keep)
  }

  /** The same for the category drop-down. */
  function FilterCategory(ls: seq<Listing>, choice: string): (r: seq<Listing>)
    ensures Seqs.IsSubsequence(r, ls) && multiset(r) <= multiset(ls)
    ensures forall i :: 0 <= i < |r| ==> MatchesChoice(r[i].product.category, choice)
    ensures forall i :: 0 <= i < |ls| && MatchesChoice(ls[i].product.category, choice) ==>
      multiset(r)[ls[i]] == multiset(ls)[ls[i]]
  {
    var c := Text.Lower(choice);
    var keep := (l: Listing) => Text.Lower(l.product.category) == c;
    Seqs.FilterIfIsSubsequence(ls, c != [], keep);
    Seqs.FilterIf(ls, c != [], keep)
  }

  /** The search box: a blank term keeps everything; otherwise exactly the
      listings whose lower-cased name contains the term stay, in order. */
  function FilterSearch(ls: seq<Listing>, search: string): (r: seq<Listing>)
    ensures Seqs.IsSubsequence(r, ls) && multiset(r) <= multiset(ls)
    ensures forall i :: 0 <= i < |r| ==> MatchesSearch(r[i].product.name, search)
    ensures forall i :: 0 <= i < |ls| && MatchesSearch(ls[i].product.name, search) ==>
      multiset(r)[ls[i]] == multiset(ls)[ls[i]]
  {
    var term := Text.Lower(Text.Trim(search));
    var keep := (l: Listing) => Text.Includes(Text.Lower(l.product.name), term);
    Seqs.FilterIfIsSubsequence(ls, term != [], keep);
    Seqs.FilterIf(ls, term != [], keep)
  }

  /** The three filters, in the page's order. */
  function ApplyFilters(ls: seq<Listing>, q: Query): seq<Listing> {
    FilterSearch(FilterCategory(FilterDistrict(ls, q.district), q.category), q.search)
  }

  /** Filtering keeps the surviving listings in their order. */
  lemma ApplyFiltersKeepsOrder(ls: seq<Listing>, q: Query)
    ensures Seqs.IsSubsequence(ApplyFilters(ls, q), ls)
  {
    var a := FilterDistrict(ls, q.district);
    var b := FilterCategory(a, q.category);
    Seqs.SubsequenceTransitive(b, a, ls);
    Seqs.SubsequenceTransitive(FilterSearch(b, q.search), b, ls);
  }

  /** Every listing that survives the filters matches all three controls. */
  lemma ApplyFiltersSound(ls: seq<Listing>, q: Query)
    ensures forall i :: 0 <= i < |ApplyFilters(ls, q)| ==> Matches(q, ApplyFilters(ls, q)[i])
  {
    var a := FilterDistrict(ls, q.district);
    var b := FilterCategory(a, q.category);
    var c := FilterSearch(b, q.search);
    forall i | 0 <= i < |c| ensures Matches(q, c[i]) {
      var x := c[i];
      assert MatchesSearch(x.product.name, q.search);
      assert x in multiset(b);
      var j :| 0 <= j < |b| && b[j] == x;
      assert MatchesChoice(x.product.category, q.category);
      assert x in multiset(a);
      var k :| 0 <= k < |a| && a[k] == x;
      assert MatchesChoice(x.product.district, q.district);
    }
  }

  /** Every listing that matches all three controls survives, as often as it
      was listed. */
  lemma ApplyFiltersComplete(ls: seq<Listing>, q: Query)
    ensures forall i :: 0 <= i < |ls| && Matches(q, ls[i]) ==>
      multiset(ApplyFilters(ls, q))[ls[i]] == multiset(ls)[ls[i]]
  {
    var a := FilterDistrict(ls, q.district);
    var b := FilterCategory(a, q.category);
    var c := FilterSearch(b, q.search);
    forall i | 0 <= i < |ls| && Matches(q, ls[i]) ensures multiset(c)[ls[i]] == multiset(ls)[ls[i]] {
      var x := ls[i];
      assert multiset(a)[x] == multiset(ls)[x] > 0;
      var j :| 0 <= j < |a| && a[j] == x;
      assert multiset(b)[x] == multiset(a)[x];
      var k :| 0 <= k < |b| && b[k] == x;
    }
  }

  // ---------------------------------------------------------------------------
  // Product list: sorting
  // ---------------------------------------------------------------------------

  /** The sort drop-down. Any value other than the four known ones leaves the
      list as the server sent it. */
  datatype SortChoice = ByRating | PriceAscending | PriceDescending | ByDelivery | AsListed

  function ParseSort(value: string): SortChoice {
    if value == "rating" then ByRating
    else if value == "priceAsc" then PriceAscending
    else if value == "priceDesc" then PriceDescending
    else if value == "delivery" then ByDelivery
    else AsListed
  }

  /** The sort key of each choice: `Array.prototype.sort` is stable, so a
      comparator `(a, b) => k(a) - k(b)` sorts by ascending `k` and keeps
      ties in list order. Rating sorts highest first (`b.rating - a.rating`). */
  function KeyOf(c: SortChoice): Listing -> int {
    match c
    case ByRating => (l: Listing) => -l.rating
    case PriceAscending => (l: Listing) => l.product.price
    case PriceDescending => (l: Listing) => -l.product.price
    case ByDelivery => (l: Listing) => l.product.deliveryDays
    case AsListed => (l: Listing) => 0
  }

  /** The sort step of the product list: a rearrangement of the listings,
      ordered as the choice asks, with ties left in list order. */
  function SortListings(ls: seq<Listing>, c: SortChoice): (r: seq<Listing>)
    ensures multiset(r) == multiset(ls)
    ensures c == ByRating ==> forall i, j :: 0 <= i < j < |r| ==> r[i].rating >= r[j].rating
    ensures c == PriceAscending ==> forall i, j :: 0 <= i < j < |r| ==> r[i].product.price <= r[j].product.price
    ensures c == PriceDescending ==> forall i, j :: 0 <= i < j < |r| ==> r[i].product.price >= r[j].product.price
    ensures c == ByDelivery ==> forall i, j :: 0 <= i < j < |r| ==> r[i].product.deliveryDays <= r[j].product.deliveryDays
    ensures c == AsListed ==> r == ls
    ensures forall k :: Seqs.KeyClass(r, KeyOf(c), k) == Seqs.KeyClass(ls, KeyOf(c), k)
  {
    if c == AsListed then ls
    else
      var r := Seqs.SortByKey(ls, KeyOf(c));
      assert forall i, j :: 0 <= i < j < |r| ==> KeyOf(c)(r[i]) <= KeyOf(c)(r[j]);
      r
  }

  /** The price-descending option as written: its comparator is
      `b.price - b.price`, which is 0 for every pair, so the stable sort
      returns the list unchanged. */
  function PriceDescAsWritten(ls: seq<Listing>): (r: seq<Listing>)
    ensures r == ls
  {
    var zero := (l: Listing) => l.product.price - l.product.price;
    Seqs.SortByConstantKeyIsIdentity(ls, zero, 0);
    Seqs.SortByKey(ls, zero)
  }

  function SampleListing(id: ProductId, price: int): Listing {
    Store.Listing(id, Product("Asha", "asha@example.com", "Hassan", "Fruits", "Mango", "", price, 2, 10, ""), 5)
  }

  /** Two listings priced 100 then 200: "price high to low" as written keeps
      the cheaper one first, while the intended sort puts 200 first. */
  lemma PriceDescAsWrittenLeavesOrder()
    ensures var ls := [SampleListing(1, 100), SampleListing(2, 200)];
      && PriceDescAsWritten(ls)[0].product.price == 100
      && PriceDescAsWritten(ls)[1].product.price == 200
      && SortListings(ls, PriceDescending)[0].product.price == 200
  {
    var ls := [SampleListing(1, 100), SampleListing(2, 200)];
    var r := SortListings(ls, PriceDescending);
    assert |r| == 2 by {
      assert |multiset(r)| == |multiset(ls)|;
    }
    assert r[1] in multiset(ls) && r[0] in multiset(ls);
  }

  // ---------------------------------------------------------------------------
  // Product list: the whole pipeline
  // ---------------------------------------------------------------------------

  /** `renderProducts`: the three filters, then the chosen sort, with the
      price-descending comparator corrected. As written, that option leaves
      the filtered list in listing order (`PriceDescAsWritten`); every other
      step is the page's own. */
  function Browse(ls: seq<Listing>, q: Query): seq<Listing> {
    SortListings(ApplyFilters(ls, q), ParseSort(q.sortBy))
  }

  /** A listing appears on the page exactly when it was sent and matches the
      controls, and as often as it was sent. */
  lemma BrowseExact(ls: seq<Listing>, q: Query, x: Listing)
    ensures x in Browse(ls, q) <==> x in ls && Matches(q, x)
    ensures Matches(q, x) ==> multiset(Browse(ls, q))[x] == multiset(ls)[x]
  {
    var f := ApplyFilters(ls, q);
    ApplyFiltersSound(ls, q);
    ApplyFiltersComplete(ls, q);
    assert multiset(Browse(ls, q)) == multiset(f);
    assert multiset(f) <= multiset(ls);
    if x in Browse(ls, q) {
      assert x in multiset(f);
      var i :| 0 <= i < |f| && f[i] == x;
    }
    if x in ls {
      var i :| 0 <= i < |ls| && ls[i] == x;
    } else {
      assert multiset(ls)[x] == 0;
    }
  }
  /** The product page over the server's own listing: a stored product is
      shown exactly when it matches the controls, and then exactly once. */
  lemma BrowseServerListing(s: Store.State, q: Query, id: ProductId)
    requires id in s.products
    ensures var l := Store.Listing(id, s.products[id], Store.MockRating(id));
      && (l in Browse(Store.ListProducts(s), q) <==> Matches(q, l))
      && (Matches(q, l) ==> multiset(Browse(Store.ListProducts(s), q))[l] == 1)
  {
    var ls := Store.ListProducts(s);
    var l := Store.Listing(id, s.products[id], Store.MockRating(id));
    Store.ListProductsOnce(s, id);
    BrowseExact(ls, q, l);
  }


  // ---------------------------------------------------------------------------
  // Star rating
  // ---------------------------------------------------------------------------

  const FullStar: char := '\U{2605}'
  const HollowStar: char := '\U{2606}'

  /** `c.repeat(n)`. */
  function Repeat(c: char, n: nat): (r: string)
    ensures |r| == n
    ensures forall i :: 0 <= i < n ==> r[i] == c
  {
    if n == 0 then [] else [c] + Repeat(c, n - 1)
  }

  datatype StarsError = RangeError

  /** `getStars(n)` for a whole-number rating: five hollow stars below 1,
      otherwise `n` full stars followed by `5 - n` hollow ones.
      `String.prototype.repeat` throws a RangeError on a negative count, so
      a rating above 5 is an error. */
  function Stars(n: int): (r: Result<string, StarsError>)
    ensures n < 1 ==> r == Ok(Repeat(HollowStar, 5))
    ensures 1 <= n <= 5 ==>
      && r.Ok? && |r.value| == 5
      && (forall i :: 0 <= i < 5 ==> r.value[i] == (if i < n then FullStar else HollowStar))
    ensures n > 5 ==> r == Err(RangeError)
  {
    if n < 1 then Ok(Repeat(HollowStar, 5))
    else if 5 - n < 0 then Err(RangeError)
    else Ok(Repeat(FullStar, n) + Repeat(HollowStar, 5 - n))
  }

  /** The number of full stars in a star string. */
  function FullStars(t: string): nat {
    if t == [] then 0 else (if t[0] == FullStar then 1 else 0) + FullStars(t[1..])
  }

  lemma {:induction false} FullStarsAppend(a: string, b: string)
    ensures FullStars(a + b) == FullStars(a) + FullStars(b)
  {
    if a != [] {
      assert (a + b)[1..] == a[1..] + b;
      FullStarsAppend(a[1..], b);
    } else {
      assert a + b == b;
    }
  }

  lemma {:induction false} FullStarsRepeat(c: char, n: nat)
    ensures FullStars(Repeat(c, n)) == if c == FullStar then n else 0
  {
    if n > 0 {
      assert Repeat(c, n)[1..] == Repeat(c, n - 1);
      FullStarsRepeat(c, n - 1);
    }
  }

  /** Counting the full stars gives the rating back (0 for a rating below 1)
      for every rating the function accepts. */
  lemma StarsRoundTrip(n: int)
    requires n <= 5
    ensures Stars(n).Ok? && FullStars(Stars(n).value) == (if n < 1 then 0 else n)
  {
    if n < 1 {
      FullStarsRepeat(HollowStar, 5);
    } else {
      FullStarsAppend(Repeat(FullStar, n), Repeat(HollowStar, 5 - n));
      FullStarsRepeat(FullStar, n);
      FullStarsRepeat(HollowStar, 5 - n);
    }
  }

  /** Every product the server lists gets a star string: its rating is 4 or
      5, which shows as that many full stars. */
  lemma ListedProductsHaveStars(s: Store.State)
    ensures forall l :: l in Store.ListProducts(s) ==>
      Stars(l.rating).Ok? && FullStars(Stars(l.rating).value) == l.rating
  {
    forall l | l in Store.ListProducts(s)
      ensures Stars(l.rating).Ok? && FullStars(Stars(l.rating).value) == l.rating
    {
      StarsRoundTrip(l.rating);
    }
  }
}
