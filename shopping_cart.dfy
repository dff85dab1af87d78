/** The session cart: a dictionary from product name to quantity; the upgrade of
    the older list representation; and the cart page's join of entries against
    the products. Within one request the dictionary keeps insertion order, as
    Python dictionaries do; the session cookie is written with its keys sorted,
    so the next request reads the names in increasing order. */
module ShoppingCart {
  import opened Common
  import opened Catalog

  datatype Entry = Entry(name: string, qty: nat)

  /** The cart dictionary, as its entries in insertion order. */
  type Cart = seq<Entry>

  /** What the session may hold under "cart": nothing, the legacy list of repeated
      product names, or the current dictionary. */
  datatype StoredCart = Absent | Legacy(items: seq<string>) | Current(entries: Cart)

  /** The names the cart holds an entry for. */
  function Keys(c: Cart): set<string> {
    if c == [] then {} else {c[0].name} + Keys(c[1..])
  }

  /** Names are keys (no two entries share one) and every quantity is at least 1. */
  predicate WellFormed(c: Cart) {
    c == [] || (c[0].qty >= 1 && c[0].name !in Keys(c[1..]) && WellFormed(c[1..]))
  }

  /** `cart.get(name, 0)`. */
  function Qty(c: Cart, name: string): nat {
    if c == [] then 0 else if c[0].name == name then c[0].qty else Qty(c[1..], name)
  }

  /** `cart[name] = q`: an existing key keeps its place and takes the new
      quantity; a new key is appended at the end. */
  function Put(c: Cart, name: string, q: nat): (r: Cart)
    ensures Keys(r) == Keys(c) + {name}
    ensures name in Keys(c) ==> exists k :: 0 <= k < |c| && c[k].name == name && r == c[k := Entry(name, q)]
    ensures name !in Keys(c) ==> r == c + [Entry(name, q)]
  {
    if c == [] then [Entry(name, q)]
    else if c[0].name == name then [Entry(name, q)] + c[1..]
    else
      var rest := Put(c[1..], name, q);
      var r := [c[0]] + rest;
      assert r[1..] == rest;
      assert name !in Keys(c) ==> (c + [Entry(name, q)])[1..] == c[1..] + [Entry(name, q)];
      if name in Keys(c) then
        var k :| 0 <= k < |c| - 1 && c[1..][k].name == name && rest == c[1..][k := Entry(name, q)];
        UpdateAfterHead(c, k, Entry(name, q));
        r
      else
        r
  }

  /** Overwriting an entry of the tail is overwriting the next index of the cart. */
  lemma {:induction false} UpdateAfterHead(c: Cart, k: nat, e: Entry)
    requires k < |c| - 1
    ensures [c[0]] + c[1..][k := e] == c[k + 1 := e]
  {
    var r := [c[0]] + c[1..][k := e];
    assert forall i :: 0 <= i < |c| ==> r[i] == c[k + 1 := e][i];
  }

  /** `cart[name] = cart.get(name, 0) + 1`: one more unit of `name`. */
  function Increment(c: Cart, name: string): Cart {
    Put(c, name, Qty(c, name) + 1)
  }

  /** `del cart[name]`: the entry for `name` goes; the others keep their order. */
  function Delete(c: Cart, name: string): Cart {
    if c == [] then []
    else if c[0].name == name then c[1..]
    else [c[0]] + Delete(c[1..], name)
  }

  /** Writing a key changes the quantity of that key only. */
  lemma {:induction false} QtyPut(c: Cart, name: string, q: nat, other: string)
    ensures Qty(Put(c, name, q), other) == if other == name then q else Qty(c, other)
  {
    if c != [] && c[0].name != name {
      QtyPut(c[1..], name, q, other);
      assert Put(c, name, q)[1..] == Put(c[1..], name, q);
    }
  }

  lemma {:induction false} QtyPositiveIsKey(c: Cart, name: string)
    requires WellFormed(c)
    ensures Qty(c, name) > 0 <==> name in Keys(c)
  {
    if c != [] {
      QtyPositiveIsKey(c[1..], name);
    }
  }

  /** Writing a positive quantity keeps the cart well formed. */
  lemma {:induction false} PutWellFormed(c: Cart, name: string, q: nat)
    requires WellFormed(c) && q >= 1
    ensures WellFormed(Put(c, name, q))
  {
    if c != [] && c[0].name != name {
      PutWellFormed(c[1..], name, q);
      assert Put(c, name, q)[1..] == Put(c[1..], name, q);
    }
  }

  /** Adding to the cart gives `name` its old quantity (0 when absent) plus one and
      leaves every other quantity as it was; a new name goes at the end. */
  lemma {:induction false} AddToCartEffect(c: Cart, name: string)
    requires WellFormed(c)
    ensures WellFormed(Increment(c, name))
    ensures forall other :: Qty(Increment(c, name), other) == if other == name then Qty(c, name) + 1 else Qty(c, other)
    ensures Keys(Increment(c, name)) == Keys(c) + {name}
    ensures name !in Keys(c) ==> Increment(c, name) == c + [Entry(name, 1)]
  {
    var q := Qty(c, name) + 1;
    PutWellFormed(c, name, q);
    QtyPositiveIsKey(c, name);
    forall other ensures Qty(Put(c, name, q), other) == if other == name then q else Qty(c, other) {
      QtyPut(c, name, q, other);
    }
  }

  lemma {:induction false} DeleteAbsent(c: Cart, name: string)
    requires name !in Keys(c)
    ensures Delete(c, name) == c
  {
    if c != [] {
      DeleteAbsent(c[1..], name);
    }
  }

  lemma {:induction false} DeleteShape(c: Cart, name: string)
    requires WellFormed(c)
    ensures WellFormed(Delete(c, name))
    ensures Keys(Delete(c, name)) == Keys(c) - {name}
    ensures forall other :: Qty(Delete(c, name), other) == if other == name then 0 else Qty(c, other)
  {
    if c != [] {
      if c[0].name == name {
        QtyPositiveIsKey(c[1..], name);
      } else {
        DeleteShape(c[1..], name);
        assert Delete(c, name)[1..] == Delete(c[1..], name);
      }
    }
  }

  /** Removing from the cart drops `name` entirely and changes no other entry;
      when `name` is absent it is a no-op. */
  lemma {:induction false} RemoveFromCartEffect(c: Cart, name: string)
    requires WellFormed(c)
    ensures WellFormed(Delete(c, name))
    ensures Qty(Delete(c, name), name) == 0 && name !in Keys(Delete(c, name))
    ensures forall other :: other != name ==> Qty(Delete(c, name), other) == Qty(c, other)
    ensures name !in Keys(c) ==> Delete(c, name) == c
  {
    DeleteShape(c, name);
    if name !in Keys(c) {
      DeleteAbsent(c, name);
    }
  }

  /** Removing twice is the same as removing once. */
  lemma {:induction false} RemoveIdempotent(c: Cart, name: string)
    requires WellFormed(c)
    ensures Delete(Delete(c, name), name) == Delete(c, name)
  {
    DeleteShape(c, name);
    DeleteAbsent(Delete(c, name), name);
  }

  lemma {:induction false} DeleteAfterPut(c: Cart, name: string, q: nat)
    ensures Delete(Put(c, name, q), name) == Delete(c, name)
  {
    if c != [] && c[0].name != name {
      DeleteAfterPut(c[1..], name, q);
      assert Put(c, name, q) == [c[0]] + Put(c[1..], name, q);
    }
  }

  /** The cart after `times` additions of `name`. */
  function AddTimes(c: Cart, name: string, times: nat): Cart {
    if times == 0 then c else Increment(AddTimes(c, name, times - 1), name)
  }

  /** However many times `name` was added, removing it leaves no entry for it and
      the cart as removing it from the starting cart would; removing it again
      changes nothing. */
  lemma {:induction false} RemoveAfterAdds(c: Cart, name: string, times: nat)
    requires WellFormed(c)
    ensures Delete(AddTimes(c, name, times), name) == Delete(c, name)
    ensures name !in Keys(Delete(AddTimes(c, name, times), name))
    ensures Delete(Delete(AddTimes(c, name, times), name), name) == Delete(AddTimes(c, name, times), name)
  {
    var added := AddTimes(c, name, times);
    if times > 0 {
      var before := AddTimes(c, name, times - 1);
      RemoveAfterAdds(c, name, times - 1);
      assert added == Put(before, name, Qty(before, name) + 1);
      DeleteAfterPut(before, name, Qty(before, name) + 1);
    }
    assert Delete(added, name) == Delete(c, name);
    RemoveFromCartEffect(c, name);
    RemoveIdempotent(c, name);
  }

  /** Python's `<` on strings: character by character in code point order, and
      a proper prefix before the longer string. */
  predicate Below(a: string, b: string) {
    b != [] && (a == [] || a[0] < b[0] || (a[0] == b[0] && Below(a[1..], b[1..])))
  }

  lemma {:induction false} BelowIrreflexive(a: string)
    ensures !Below(a, a)
  {
    if a != [] {
      BelowIrreflexive(a[1..]);
    }
  }

  lemma {:induction false} BelowAsymmetric(a: string, b: string)
    ensures Below(a, b) ==> !Below(b, a)
  {
    if a != [] && b != [] && a[0] == b[0] {
      BelowAsymmetric(a[1..], b[1..]);
    }
  }

  lemma {:induction false} BelowTransitive(a: string, b: string, c: string)
    requires Below(a, b) && Below(b, c)
    ensures Below(a, c)
  {
    if a != [] && a[0] == b[0] && b[0] == c[0] {
      BelowTransitive(a[1..], b[1..], c[1..]);
    }
  }

  /** Any two different strings are ordered one way or the other. */
  lemma {:induction false} BelowTotal(a: string, b: string)
    ensures a == b || Below(a, b) || Below(b, a)
  {
    if a != [] && b != [] && a[0] == b[0] {
      BelowTotal(a[1..], b[1..]);
      assert a == [a[0]] + a[1..] && b == [b[0]] + b[1..];
    }
  }

  /** Each entry's name is below the names of all the entries after it. */
  predicate SortedByName(c: Cart) {
    c == [] || ((forall n :: n in Keys(c[1..]) ==> Below(c[0].name, n)) && SortedByName(c[1..]))
  }

  /** Places an entry before the first entry whose name is above its own. */
  function InsertByName(e: Entry, c: Cart): Cart {
    if c == [] || Below(e.name, c[0].name) then [e] + c
    else [c[0]] + InsertByName(e, c[1..])
  }

  /** The cart as the next request reads it back. Flask writes the session
      cookie as JSON with its keys sorted, so the dictionary returns with its
      names in increasing order. */
  function SortByName(c: Cart): Cart {
    if c == [] then [] else InsertByName(c[0], SortByName(c[1..]))
  }

  /** Inserting a new name into a sorted cart keeps it sorted and adds exactly
      that entry to the dictionary. */
  lemma {:induction false} InsertByNameSpec(e: Entry, c: Cart)
    requires SortedByName(c) && e.name !in Keys(c)
    ensures SortedByName(InsertByName(e, c))
    ensures Keys(InsertByName(e, c)) == Keys(c) + {e.name}
    ensures forall n :: Qty(InsertByName(e, c), n) == if n == e.name then e.qty else Qty(c, n)
    ensures WellFormed(c) && e.qty >= 1 ==> WellFormed(InsertByName(e, c))
  {
    var r := InsertByName(e, c);
    if c == [] || Below(e.name, c[0].name) {
      assert r[1..] == c;
      forall n | n in Keys(c) ensures Below(e.name, n) {
        if n != c[0].name {
          BelowTransitive(e.name, c[0].name, n);
        }
      }
    } else {
      BelowTotal(e.name, c[0].name);
      InsertByNameSpec(e, c[1..]);
      assert r[1..] == InsertByName(e, c[1..]);
    }
  }

  /** Sorting keeps the dictionary: the same keys with the same quantities, still
      well formed, and now in name order. */
  lemma {:induction false} SortByNameSpec(c: Cart)
    requires WellFormed(c)
    ensures SortedByName(SortByName(c)) && WellFormed(SortByName(c))
    ensures Keys(SortByName(c)) == Keys(c)
    ensures forall n :: Qty(SortByName(c), n) == Qty(c, n)
  {
    if c != [] {
      SortByNameSpec(c[1..]);
      InsertByNameSpec(c[0], SortByName(c[1..]));
    }
  }

  /** A name that is not a key has quantity 0. */
  lemma {:induction false} QtyAbsent(c: Cart, name: string)
    requires name !in Keys(c)
    ensures Qty(c, name) == 0
  {
    if c != [] {
      QtyAbsent(c[1..], name);
    }
  }

  /** A sorted, well-formed cart is determined by its dictionary: two of them
      with the same quantities are the same sequence. */
  lemma {:induction false} SortedCartsEqual(c: Cart, d: Cart)
    requires WellFormed(c) && WellFormed(d) && SortedByName(c) && SortedByName(d)
    requires forall n :: Qty(c, n) == Qty(d, n)
    ensures c == d
  {
    if c != [] && d != [] {
      var a, b := c[0].name, d[0].name;
      QtyPositiveIsKey(c, a);
      QtyPositiveIsKey(d, a);
      QtyPositiveIsKey(c, b);
      QtyPositiveIsKey(d, b);
      if a != b {
        assert Below(b, a) && Below(a, b);
        BelowAsymmetric(a, b);
        assert false;
      }
      QtyAbsent(c[1..], a);
      QtyAbsent(d[1..], a);
      forall n ensures Qty(c[1..], n) == Qty(d[1..], n) {
        if n != a {
          assert Qty(c, n) == Qty(c[1..], n) && Qty(d, n) == Qty(d[1..], n);
        }
      }
      SortedCartsEqual(c[1..], d[1..]);
      assert c == [c[0]] + c[1..] && d == [d[0]] + d[1..];
    } else if c != [] {
      QtyPositiveIsKey(d, c[0].name);
    } else if d != [] {
      QtyPositiveIsKey(c, d[0].name);
    }
  }

  /** What the next request reads depends only on the dictionary, not on the
      order its keys were added in. */
  lemma {:induction false} SavedCartIsDictionary(c: Cart, d: Cart)
    requires WellFormed(c) && WellFormed(d)
    requires forall n :: Qty(c, n) == Qty(d, n)
    ensures SortByName(c) == SortByName(d)
  {
    SortByNameSpec(c);
    SortByNameSpec(d);
    SortedCartsEqual(SortByName(c), SortByName(d));
  }

  /** A cart already in name order comes back unchanged. */
  lemma {:induction false} SortSorted(c: Cart)
    requires WellFormed(c) && SortedByName(c)
    ensures SortByName(c) == c
  {
    SortByNameSpec(c);
    SortedCartsEqual(SortByName(c), c);
  }

  /** Removing a name keeps a sorted cart sorted. */
  lemma {:induction false} DeleteKeepsSorted(c: Cart, name: string)
    requires WellFormed(c) && SortedByName(c)
    ensures SortedByName(Delete(c, name))
  {
    if c != [] && c[0].name != name {
      DeleteKeepsSorted(c[1..], name);
      DeleteShape(c[1..], name);
      assert Delete(c, name)[1..] == Delete(c[1..], name);
    }
  }

  /** Adding "Yoga Mat" and then "Football" to an empty cart: the next request
      reads Football first. */
  lemma SavedOrderExample()
    ensures Increment(Increment([], "Yoga Mat"), "Football") == [Entry("Yoga Mat", 1), Entry("Football", 1)]
    ensures SortByName(Increment(Increment([], "Yoga Mat"), "Football")) == [Entry("Football", 1), Entry("Yoga Mat", 1)]
  {
    var yoga, football := Entry("Yoga Mat", 1), Entry("Football", 1);
    assert Increment([], "Yoga Mat") == [yoga];
    assert "Football" !in Keys([yoga]);
    assert Increment([yoga], "Football") == [yoga, football];
    assert [yoga, football][1..] == [football];
    assert Below("Football", "Yoga Mat");
    assert SortByName([football]) == [football];
  }

  /** Occurrences of `name` in the legacy list. */
  function Count(items: seq<string>, name: string): nat {
    if items == [] then 0
    else Count(items[..|items| - 1], name) + (if items[|items| - 1] == name then 1 else 0)
  }

  /** The dictionary the legacy list upgrades to: each item in turn added once. */
  function Upgrade(items: seq<string>): Cart {
    if items == [] then [] else Increment(Upgrade(items[..|items| - 1]), items[|items| - 1])
  }

  /** The upgraded cart holds each listed name with its number of occurrences, so
      every stored quantity is at least 1 and no name appears twice. */
  lemma {:induction false} UpgradeCounts(items: seq<string>)
    ensures WellFormed(Upgrade(items))
    ensures forall name :: Qty(Upgrade(items), name) == Count(items, name)
    ensures forall name :: name in Keys(Upgrade(items)) <==> name in items
  {
    if items != [] {
      var front := items[..|items| - 1];
      var last := items[|items| - 1];
      UpgradeCounts(front);
      AddToCartEffect(Upgrade(front), last);
      assert items == front + [last];
    }
  }

  /** `["Football", "Football", "Yoga Mat"]` upgrades to `{Football: 2, "Yoga Mat": 1}`. */
  lemma UpgradeExample()
    ensures Upgrade(["Football", "Football", "Yoga Mat"]) == [Entry("Football", 2), Entry("Yoga Mat", 1)]
  {
    UpgradeRepeat("Football", "Yoga Mat");
  }

  /** A name listed twice and then another name upgrade to quantities 2 and 1. */
  lemma {:induction false} UpgradeRepeat(x: string, y: string)
    requires x != y
    ensures Upgrade([x, x, y]) == [Entry(x, 2), Entry(y, 1)]
  {
    var items := [x, x, y];
    assert items[..2] == [x, x];
    assert items[..2][..1] == [x];
    assert items[..2][..1][..0] == [];
    assert Upgrade([x]) == [Entry(x, 1)];
    assert Upgrade([x, x]) == [Entry(x, 2)];
    assert y !in Keys([Entry(x, 2)]);
    assert Qty([Entry(x, 2)], y) == 0;
    assert Upgrade(items) == Put([Entry(x, 2)], y, 1);
  }

  /** The loop of `add_to_cart` and `cart` that rebuilds a legacy list as a
      dictionary. */
  method UpgradeLegacy(items: seq<string>) returns (c: Cart)
    ensures c == Upgrade(items)
  {
    c := [];
    for i := 0 to |items|
      invariant c == Upgrade(items[..i])
    {
      assert items[..i + 1][..i] == items[..i];
      c := Put(c, items[i], Qty(c, items[i]) + 1);
    }
    assert items[..|items|] == items;
  }

  /** The cart the handlers work on: a missing cart is empty and a legacy list is
      upgraded. */
  function Entries(stored: StoredCart): Cart {
    match stored
    case Absent => []
    case Legacy(items) => Upgrade(items)
    case Current(c) => c
  }

  /** One row of the cart page: a product, the quantity of its entry and
      quantity times price. */
  datatype Line = Line(product: Product, qty: nat, subtotal: real)

  datatype CartView = CartView(lines: seq<Line>, total: real)

  /** `qty * price`, the price added up `qty` times. */
  function Times(qty: nat, price: real): real {
    if qty == 0 then 0.0 else Times(qty - 1, price) + price
  }

  /** Adding up the price `qty` times is multiplying it by `qty`. */
  lemma {:induction false} TimesIsProduct(qty: nat, price: real)
    ensures Times(qty, price) == qty as real * price
  {
    if qty > 0 {
      TimesIsProduct(qty - 1, price);
      assert (qty - 1) as real * price + price == qty as real * price;
    }
  }

  /** Multiplying by a quantity distributes over a sum of prices. */
  lemma {:induction false} TimesAdd(qty: nat, a: real, b: real)
    ensures Times(qty, a + b) == Times(qty, a) + Times(qty, b)
  {
    if qty > 0 {
      TimesAdd(qty - 1, a, b);
    }
  }

  lemma {:induction false} TimesZero(qty: nat)
    ensures Times(qty, 0.0) == 0.0
  {
    if qty > 0 {
      TimesZero(qty - 1);
    }
  }

  /** The numeric value of a price (text prices never reach a line). */
  function PriceValue(p: Product): real {
    match p.price
    case Num(v) => v
    case TextPrice(_) => 0.0
  }

  /** The lines for one entry: one per product whose name equals the entry's,
      in product order. */
  function EntryLines(e: Entry, products: seq<Product>): seq<Line> {
    if products == [] then []
    else
      var p := products[|products| - 1];
      EntryLines(e, products[..|products| - 1])
        + (if p.name == e.name then [Line(p, e.qty, Times(e.qty, PriceValue(p)))] else [])
  }

  /** The cart page's lines: entries in cart order, each joined with the products. */
  function CartLines(c: Cart, products: seq<Product>): seq<Line> {
    if c == [] then [] else CartLines(c[..|c| - 1], products) + EntryLines(c[|c| - 1], products)
  }

  function LinesTotal(lines: seq<Line>): real {
    if lines == [] then 0.0 else LinesTotal(lines[..|lines| - 1]) + lines[|lines| - 1].subtotal
  }

  /** Some product with the entry's name has a price stored as text. */
  predicate HitsTextPrice(e: Entry, products: seq<Product>) {
    exists j :: 0 <= j < |products| && products[j].name == e.name && products[j].price.TextPrice?
  }

  /** Some entry of the cart joins with a product whose price is text. */
  predicate TextPriceInCart(c: Cart, products: seq<Product>) {
    c != [] && (TextPriceInCart(c[..|c| - 1], products) || HitsTextPrice(c[|c| - 1], products))
  }

  /** The sum of the prices of the products called `name`. */
  function MatchingPriceSum(products: seq<Product>, name: string): real {
    if products == [] then 0.0
    else
      var p := products[|products| - 1];
      MatchingPriceSum(products[..|products| - 1], name) + (if p.name == name then PriceValue(p) else 0.0)
  }

  /** The number of products called `name`. */
  function MatchCount(products: seq<Product>, name: string): nat {
    if products == [] then 0
    else
      var p := products[|products| - 1];
      MatchCount(products[..|products| - 1], name) + (if p.name == name then 1 else 0)
  }

  /** The sum over entries of quantity times the prices of all the products
      sharing the entry's name. */
  function WeightedTotal(c: Cart, products: seq<Product>): real {
    if c == [] then 0.0
    else
      var e := c[|c| - 1];
      WeightedTotal(c[..|c| - 1], products) + Times(e.qty, MatchingPriceSum(products, e.name))
  }

  lemma {:induction false} LinesTotalAppend(a: seq<Line>, b: seq<Line>)
    ensures LinesTotal(a + b) == LinesTotal(a) + LinesTotal(b)
  {
    if b == [] {
      assert a + b == a;
    } else {
      assert (a + b)[..|a + b| - 1] == a + b[..|b| - 1];
      LinesTotalAppend(a, b[..|b| - 1]);
    }
  }

  /** One entry yields one line per product of its name, and its lines add up to
      its quantity times those products' prices. */
  lemma {:induction false} EntryLinesSum(e: Entry, products: seq<Product>)
    ensures |EntryLines(e, products)| == MatchCount(products, e.name)
    ensures LinesTotal(EntryLines(e, products)) == Times(e.qty, MatchingPriceSum(products, e.name))
  {
    TimesZero(e.qty);
    if products != [] {
      var front := products[..|products| - 1];
      var p := products[|products| - 1];
      EntryLinesSum(e, front);
      var extra := if p.name == e.name then [Line(p, e.qty, Times(e.qty, PriceValue(p)))] else [];
      LinesTotalAppend(EntryLines(e, front), extra);
      assert LinesTotal(extra) == (if p.name == e.name then Times(e.qty, PriceValue(p)) else 0.0) by {
        if p.name == e.name {
          assert extra[..0] == [];
        }
      }
      TimesAdd(e.qty, MatchingPriceSum(front, e.name), if p.name == e.name then PriceValue(p) else 0.0);
      assert Times(e.qty, MatchingPriceSum(products, e.name))
          == Times(e.qty, MatchingPriceSum(front, e.name)) + Times(e.qty, if p.name == e.name then PriceValue(p) else 0.0);
    }
  }

  /** The cart total adds up, over the entries, the quantity times the prices of
      the products of that name. */
  lemma {:induction false} CartTotalIsWeighted(c: Cart, products: seq<Product>)
    ensures LinesTotal(CartLines(c, products)) == WeightedTotal(c, products)
  {
    if c != [] {
      var i := |c| - 1;
      CartStep(c, products, i);
      assert c[..i + 1] == c;
      CartTotalIsWeighted(c[..i], products);
      EntryLinesSum(c[i], products);
      LinesTotalAppend(CartLines(c[..i], products), EntryLines(c[i], products));
    }
  }

  /** An entry whose name no product has contributes no line and nothing to the total. */
  lemma {:induction false} OrphanEntry(e: Entry, products: seq<Product>)
    requires forall p :: p in products ==> p.name != e.name
    ensures EntryLines(e, products) == []
    ensures Times(e.qty, MatchingPriceSum(products, e.name)) == 0.0
  {
    EntryLinesSum(e, products);
    NoMatches(products, e.name);
    TimesZero(e.qty);
  }

  lemma {:induction false} NoMatches(products: seq<Product>, name: string)
    requires forall p :: p in products ==> p.name != name
    ensures MatchCount(products, name) == 0 && MatchingPriceSum(products, name) == 0.0
  {
    if products != [] {
      assert products[|products| - 1] in products;
      NoMatches(products[..|products| - 1], name);
    }
  }

  /** Two Footballs at 499 come to 998; once the Football product is gone the
      cart shows nothing and totals 0. */
  lemma CartExample()
    ensures var football := Product(1, "Football", Num(499.0), "Outdoor", "football.jpeg");
      && CartLines([Entry("Football", 2)], [football]) == [Line(football, 2, 998.0)]
      && LinesTotal(CartLines([Entry("Football", 2)], [football])) == 998.0
      && CartLines([Entry("Football", 2)], []) == []
      && LinesTotal(CartLines([Entry("Football", 2)], [])) == 0.0
  {
    var football := Product(1, "Football", Num(499.0), "Outdoor", "football.jpeg");
    var e := Entry("Football", 2);
    var line := Line(football, 2, 998.0);
    assert [e][..0] == [] && [football][..0] == [] && [line][..0] == [];
    assert EntryLines(e, [football]) == EntryLines(e, []) + [line];
    assert CartLines([e], [football]) == CartLines([], [football]) + EntryLines(e, [football]);
    assert LinesTotal([line]) == LinesTotal([]) + 998.0;
    assert CartLines([e], []) == CartLines([], []) + EntryLines(e, []);
  }

  lemma {:induction false} EntryLinesStep(e: Entry, products: seq<Product>, j: nat)
    requires j < |products|
    ensures EntryLines(e, products[..j + 1]) == EntryLines(e, products[..j])
      + (if products[j].name == e.name then [Line(products[j], e.qty, Times(e.qty, PriceValue(products[j])))] else [])
  {
    assert products[..j + 1][..j] == products[..j];
  }

  lemma {:induction false} CartStep(c: Cart, products: seq<Product>, i: nat)
    requires i < |c|
    ensures CartLines(c[..i + 1], products) == CartLines(c[..i], products) + EntryLines(c[i], products)
    ensures TextPriceInCart(c[..i + 1], products) <==> TextPriceInCart(c[..i], products) || HitsTextPrice(c[i], products)
    ensures WeightedTotal(c[..i + 1], products) == WeightedTotal(c[..i], products) + Times(c[i].qty, MatchingPriceSum(products, c[i].name))
  {
    assert c[..i + 1][..i] == c[..i];
  }

  /** A text price met in the first `n` entries is met in the whole cart. */
  lemma {:induction false} TextPricePrefix(c: Cart, products: seq<Product>, n: nat)
    requires n <= |c| && TextPriceInCart(c[..n], products)
    ensures TextPriceInCart(c, products)
  {
    if n == |c| {
      assert c[..n] == c;
    } else {
      var front := c[..|c| - 1];
      assert front[..n] == c[..n];
      TextPricePrefix(front, products, n);
    }
  }

  /** The inner loop of the `cart` view for one entry: a line with its subtotal
      for each product of the entry's name, and their running sum. Adding a text
      price to the running number raises a TypeError. */
  method RenderEntry(e: Entry, products: seq<Product>) returns (r: Result<CartView>)
    ensures r.Raised? <==> HitsTextPrice(e, products)
    ensures r.Raised? ==> r.exception == "TypeError"
    ensures r.Ok? ==> r.value == CartView(EntryLines(e, products), Times(e.qty, MatchingPriceSum(products, e.name)))
  {
    var lines: seq<Line> := [];
    var sum := 0.0;
    for j := 0 to |products|
      invariant lines == EntryLines(e, products[..j])
      invariant sum == LinesTotal(lines)
      invariant forall k :: 0 <= k < j && products[k].name == e.name ==> products[k].price.Num?
    {
      var p := products[j];
      EntryLinesStep(e, products, j);
      if p.name == e.name {
        match p.price
        case TextPrice(_) =>
          return Raised("TypeError");
        case Num(v) =>
          assert PriceValue(p) == v;
          var line := Line(p, e.qty, Times(e.qty, v));
          assert line == Line(products[j], e.qty, Times(e.qty, PriceValue(products[j])));
          assert EntryLines(e, products[..j + 1]) == lines + [line];
          LinesTotalAppend(lines, [line]);
          assert [line][..0] == [];
          lines := lines + [line];
          sum := sum + line.subtotal;
      }
    }
    assert products[..|products|] == products;
    EntryLinesSum(e, products);
    return Ok(CartView(lines, sum));
  }

  /** The nested loop of the `cart` view: each entry in cart order joined with the
      products, and the running total. */
  method RenderCart(c: Cart, products: seq<Product>) returns (r: Result<CartView>)
    ensures r.Raised? <==> TextPriceInCart(c, products)
    ensures r.Raised? ==> r.exception == "TypeError"
    ensures r.Ok? ==> r.value == CartView(CartLines(c, products), WeightedTotal(c, products))
  {
    var lines: seq<Line> := [];
    var total := 0.0;
    for i := 0 to |c|
      invariant lines == CartLines(c[..i], products)
      invariant total == WeightedTotal(c[..i], products)
      invariant !TextPriceInCart(c[..i], products)
    {
      var part := RenderEntry(c[i], products);
      CartStep(c, products, i);
      if part.Raised? {
        TextPricePrefix(c, products, i + 1);
        return part;
      }
      lines := lines + part.value.lines;
      total := total + part.value.total;
    }
    assert c[..|c|] == c;
    return Ok(CartView(lines, total));
  }
}
