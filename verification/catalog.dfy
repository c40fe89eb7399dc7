/** The product record shared by server and client, and the one piece of
    arithmetic the marketplace performs: the price after a percentage
    discount, `Math.round(price * (100 - discount) / 100)`, used by the
    server's order total and line items and by the client's cart total. */
module Catalog {
  import Seqs

  type ProductId = nat

  /** A row of the products table as the server stores it and the client
      receives it. Prices, discounts and delivery days are whole numbers. */
  datatype Product = Product(
    sellerName: string,
    contactInfo: string,
    district: string,
    category: string,
    name: string,
    description: string,
    price: int,
    deliveryDays: int,
    discount: int,
    image: string)

  /** `Math.round(price * (100 - discount) / 100)` on integers. `Math.round`
      rounds to the nearest integer with halves going up, i.e. it is
      `floor(x + 1/2)`; with a positive divisor Dafny's `/` is floor division,
      so adding 50 before dividing by 100 gives the same value for every
      integer price and discount, negative ones included. */
  function EffectivePrice(price: int, discount: int): (r: int)
    ensures 100 * r - 50 <= price * (100 - discount) < 100 * r + 50
  {
    (price * (100 - discount) + 50) / 100
  }

  /** The rounding is determined: no other integer lies within half a unit
      below and strictly less than half a unit above the exact quotient. */
  lemma EffectivePriceUnique(price: int, discount: int, r: int)
    requires 100 * r - 50 <= price * (100 - discount) < 100 * r + 50
    ensures r == EffectivePrice(price, discount)
  {
    var e := EffectivePrice(price, discount);
    assert 100 * e - 50 <= price * (100 - discount) < 100 * e + 50;
  }

  /** For a listed product (non-negative price, discount a percentage) the
      discounted price is never negative and never above the list price. */
  lemma EffectivePriceBounds(price: int, discount: int)
    requires price >= 0 && 0 <= discount <= 100
    ensures 0 <= EffectivePrice(price, discount) <= price
  {
    var x := price * (100 - discount);
    assert 0 <= x <= price * 100;
  }

  /** A larger discount never raises the price. */
  lemma EffectivePriceMonotone(price: int, d1: int, d2: int)
    requires price >= 0 && d1 <= d2
    ensures EffectivePrice(price, d2) <= EffectivePrice(price, d1)
  {
    assert price * (100 - d2) <= price * (100 - d1);
  }

  /** Worked values: 1000 at 10% is 900; 999 at 15% is 849.15, which rounds to
      849; 1000 at 15% is exactly 850; 300 at 10% is 270; and a half rounds up,
      so 1 at 50% is 1. */
  lemma EffectivePriceExamples()
    ensures EffectivePrice(1000, 10) == 900
    ensures EffectivePrice(999, 15) == 849
    ensures EffectivePrice(1000, 15) == 850
    ensures EffectivePrice(300, 10) == 270
    ensures EffectivePrice(1, 50) == 1
  {
  }

  /** The discounted price of each item, in order. */
  function EffectivePrices(items: seq<Product>): (ps: seq<int>)
    ensures |ps| == |items|
    ensures forall i :: 0 <= i < |items| ==> ps[i] == EffectivePrice(items[i].price, items[i].discount)
  {
    if items == [] then []
    else EffectivePrices(items[..|items| - 1]) + [EffectivePrice(items[|items| - 1].price, items[|items| - 1].discount)]
  }

  /** The total of a list of items: the sum of their discounted prices. */
  function Total(items: seq<Product>): int
  {
    Seqs.Sum(EffectivePrices(items))
  }

  /** The total is additive over concatenation: the order in which two groups
      of items are added up does not matter. */
  lemma TotalAppend(a: seq<Product>, b: seq<Product>)
    ensures Total(a + b) == Total(a) + Total(b)
  {
    assert EffectivePrices(a + b) == EffectivePrices(a) + EffectivePrices(b);
    Seqs.SumAppend(EffectivePrices(a), EffectivePrices(b));
  }
}
