/** Products as the store keeps them, and the catalog listing of `/products`:
    an optional case-insensitive name search (SQL `name LIKE '%q%'`) and an
    optional exact category, in storage order. */
module Catalog {
  import opened Common
  import opened Text

  /** A stored price. The price column has REAL affinity: SQLite stores text that
      is a decimal literal as that number and keeps any other text as text. */
  datatype Price = Num(value: real) | TextPrice(raw: string)

  datatype Product = Product(id: int, name: string, price: Price, category: string, image: string)

  /** The value the price column holds after the form's price string is written. */
  function StoredPrice(raw: string): (p: Price)
    ensures p.TextPrice? ==> p.raw == raw
  {
    match DecimalLiteral(raw)
    case Some(v) => Num(v)
    case None => TextPrice(raw)
  }

  /** The column keeps as a number exactly the prices `float` reads as a finite
      number, with the same value; text that `float` reads as NaN or an infinity
      stays text. */
  lemma {:induction false} StoredPriceAgreesWithFloat(raw: string)
    ensures StoredPrice(raw).Num? <==> ParseNumber(raw).Some? && ParseNumber(raw).value.Finite?
    ensures StoredPrice(raw).Num? ==> StoredPrice(raw).value == ParseNumber(raw).value.value
    ensures StoredPrice(raw).TextPrice? ==> StoredPrice(raw).raw == raw
  {
  }

  /** A price written as an integer numeral is stored as that number. */
  lemma {:induction false} StoredPriceOfNumeral(n: int)
    ensures StoredPrice(Numeral(n)) == Num(n as real)
  {
    ParseNumberRoundTrip(n);
  }

  /** "19.99" is stored as the number 19.99, while "nan", which `float` accepts,
      stays text. */
  lemma StoredPriceExamples()
    ensures StoredPrice("19.99") == Num(19.99)
    ensures StoredPrice("nan") == TextPrice("nan")
  {
    ExampleDecimalPrice();
    WordIsNotLiteral("nan");
  }

  /** Rows come back in storage order, which is increasing id order. */
  predicate IdsIncreasing(rows: seq<Product>) {
    forall i, j :: 0 <= i < j < |rows| ==> rows[i].id < rows[j].id
  }

  /** SQLite's case-insensitive comparison of two characters: only ASCII letters fold. */
  predicate SameLetter(a: char, b: char) {
    LowerChar(a) == LowerChar(b)
  }

  /** SQLite's `s LIKE p` without an ESCAPE clause: `%` matches any run of
      characters, `_` matches exactly one, anything else one character up to
      ASCII case. */
  predicate Like(s: string, p: string)
    decreases |p|, |s|
  {
    if p == [] then s == []
    else if p[0] == '%' then Like(s, p[1..]) || (s != [] && Like(s[1..], p))
    else s != [] && (p[0] == '_' || SameLetter(p[0], s[0])) && Like(s[1..], p[1..])
  }

  predicate NoWildcards(q: string) {
    forall i :: 0 <= i < |q| ==> q[i] != '%' && q[i] != '_'
  }

  /** `needle` occurs in `hay` as a contiguous run of characters. */
  predicate Contains(hay: string, needle: string) {
    exists i :: 0 <= i <= |hay| - |needle| && hay[i..][..|needle|] == needle
  }

  /** The name condition `name LIKE '%' || q || '%'` of the catalog query. */
  predicate NameMatches(name: string, query: string) {
    Like(name, "%" + query + "%")
  }

  /** The WHERE clause of the catalog query; an empty input drops its condition. */
  predicate Matches(p: Product, query: string, category: string) {
    (query == [] || NameMatches(p.name, query)) && (category == [] || p.category == category)
  }

  /** The rows that satisfy the WHERE clause, in their storage order. */
  function Select(rows: seq<Product>, query: string, category: string): (r: seq<Product>)
    ensures forall p :: p in r <==> p in rows && Matches(p, query, category)
    ensures |r| <= |rows|
    ensures IdsIncreasing(rows) ==> IdsIncreasing(r)
  {
    if rows == [] then []
    else
      var rest := Select(rows[1..], query, category);
      LaterIdsLarger(rows);
      if Matches(rows[0], query, category) then [rows[0]] + rest else rest
  }

  lemma {:induction false} LaterIdsLarger(rows: seq<Product>)
    requires rows != []
    ensures IdsIncreasing(rows) ==> forall p :: p in rows[1..] ==> rows[0].id < p.id
  {
    if IdsIncreasing(rows) {
      forall p | p in rows[1..] ensures rows[0].id < p.id {
        var k :| 0 <= k < |rows| - 1 && rows[1..][k] == p;
        assert rows[k + 1] == p;
      }
    }
  }

  /** `/products?q=…&category=…`: both inputs are stripped before filtering. */
  function ProductPage(rows: seq<Product>, rawQuery: string, rawCategory: string): seq<Product> {
    Select(rows, Strip(rawQuery), Strip(rawCategory))
  }

  lemma {:induction false} SelectEverything(rows: seq<Product>)
    ensures Select(rows, "", "") == rows
  {
    if rows != [] {
      SelectEverything(rows[1..]);
    }
  }

  /** With both inputs blank the listing is the whole table, in order. */
  lemma {:induction false} ProductPageUnfiltered(rows: seq<Product>, rawQuery: string, rawCategory: string)
    requires AllSpace(rawQuery) && AllSpace(rawCategory)
    ensures ProductPage(rows, rawQuery, rawCategory) == rows
  {
    StripSpec(rawQuery);
    StripSpec(rawCategory);
    SelectEverything(rows);
  }

  lemma {:induction false} LikeAnything(s: string)
    ensures Like(s, "%")
  {
    if s != [] {
      LikeAnything(s[1..]);
    }
  }

  lemma {:induction false} LowerTail(x: string)
    requires x != []
    ensures Lower(x) == [LowerChar(x[0])] + Lower(x[1..])
  {
  }

  lemma {:induction false} LowerSlice(x: string, i: nat, n: nat)
    requires i + n <= |x|
    ensures Lower(x[i..][..n]) == Lower(x)[i..][..n]
  {
  }

  /** A literal pattern followed by `%` matches exactly the strings that start
      with that literal, up to ASCII case. */
  lemma {:induction false} LikeLiteralPrefix(t: string, q: string)
    requires NoWildcards(q)
    ensures Like(t, q + "%") <==> |q| <= |t| && Lower(t[..|q|]) == Lower(q)
  {
    if q == [] {
      assert q + "%" == "%";
      LikeAnything(t);
    } else {
      var p := q + "%";
      assert p[0] == q[0] && p[1..] == q[1..] + "%";
      assert q[0] != '%' && q[0] != '_';
      if t != [] {
        LikeLiteralPrefix(t[1..], q[1..]);
        if |q| <= |t| {
          LowerTail(t[..|q|]);
          LowerTail(q);
          assert t[..|q|][1..] == t[1..][..|q| - 1];
          assert Lower(t[..|q|]) == Lower(q) <==>
            SameLetter(q[0], t[0]) && Lower(t[1..][..|q| - 1]) == Lower(q[1..]);
        }
      }
    }
  }

  /** A pattern that starts with `%` matches exactly when the rest matches some
      suffix. */
  lemma {:induction false} LikeLeadingPercent(s: string, r: string)
    ensures Like(s, "%" + r) <==> exists i :: 0 <= i <= |s| && Like(s[i..], r)
  {
    var p := "%" + r;
    assert p[0] == '%' && p[1..] == r;
    if Like(s, p) {
      if Like(s, r) {
        assert s[0..] == s;
      } else {
        LikeLeadingPercent(s[1..], r);
        var i :| 0 <= i <= |s| - 1 && Like(s[1..][i..], r);
        assert s[1..][i..] == s[i + 1..];
      }
    }
    if exists i :: 0 <= i <= |s| && Like(s[i..], r) {
      var i :| 0 <= i <= |s| && Like(s[i..], r);
      if i == 0 {
        assert s[0..] == s;
      } else {
        assert s[1..][i - 1..] == s[i..];
        LikeLeadingPercent(s[1..], r);
      }
    }
  }

  /** For a search term without wildcards the name condition is a case-insensitive
      (ASCII) substring test. */
  lemma {:induction false} NameMatchesIsSubstring(name: string, query: string)
    requires NoWildcards(query)
    ensures NameMatches(name, query) <==> Contains(Lower(name), Lower(query))
  {
    var tail := query + "%";
    assert "%" + query + "%" == "%" + tail;
    LikeLeadingPercent(name, tail);
    var low := Lower(name);
    if NameMatches(name, query) {
      var i :| 0 <= i <= |name| && Like(name[i..], tail);
      LikeLiteralPrefix(name[i..], query);
      LowerSlice(name, i, |query|);
      assert low[i..][..|Lower(query)|] == Lower(query);
    }
    if Contains(low, Lower(query)) {
      var i :| 0 <= i <= |low| - |Lower(query)| && low[i..][..|Lower(query)|] == Lower(query);
      LikeLiteralPrefix(name[i..], query);
      LowerSlice(name, i, |query|);
      assert Like(name[i..], tail);
    }
  }

  /** The catalog listing for a search term without wildcards: exactly the rows
      whose name contains the stripped term (ignoring ASCII case) and whose
      category equals the stripped category, each input ignored when blank. */
  lemma {:induction false} ProductPageMembership(rows: seq<Product>, rawQuery: string, rawCategory: string, p: Product)
    requires NoWildcards(Strip(rawQuery))
    ensures p in ProductPage(rows, rawQuery, rawCategory) <==>
      && p in rows
      && (AllSpace(rawQuery) || Contains(Lower(p.name), Lower(Strip(rawQuery))))
      && (AllSpace(rawCategory) || p.category == Strip(rawCategory))
  {
    StripSpec(rawQuery);
    StripSpec(rawCategory);
    NameMatchesIsSubstring(p.name, Strip(rawQuery));
  }
}
