/** The string primitives the request handlers rely on: Python's `str.strip()`,
    ASCII lower-casing, suffix tests, and reading a price with `float`. */
module Text {
  import opened Common

  /** The characters Python's `str.isspace()` accepts, which `str.strip()` with no
      argument removes from both ends: tab through carriage return, the four
      separators U+001C..U+001F, space, U+0085, U+00A0, U+1680, U+2000..U+200A,
      U+2028, U+2029, U+202F, U+205F and U+3000. */
  predicate IsSpace(c: char) {
    || '\t' <= c <= '\r'
    || '\U{001C}' <= c <= '\U{001F}'
    || c == ' ' || c == '\U{0085}' || c == '\U{00A0}' || c == '\U{1680}'
    || '\U{2000}' <= c <= '\U{200A}'
    || c == '\U{2028}' || c == '\U{2029}' || c == '\U{202F}' || c == '\U{205F}' || c == '\U{3000}'
  }

  predicate AllSpace(s: string) {
    forall i :: 0 <= i < |s| ==> IsSpace(s[i])
  }

  /** How many whitespace characters `s` starts with. */
  function LeadingSpaces(s: string): (n: nat)
    ensures n <= |s|
  {
    if s != [] && IsSpace(s[0]) then 1 + LeadingSpaces(s[1..]) else 0
  }

  /** How many whitespace characters `s` ends with. */
  function TrailingSpaces(s: string): (n: nat)
    ensures n <= |s|
  {
    if s != [] && IsSpace(s[|s| - 1]) then 1 + TrailingSpaces(s[..|s| - 1]) else 0
  }

  /** `s.lstrip()`: the suffix of `s` left after its leading whitespace. */
  function StripStart(s: string): string {
    s[LeadingSpaces(s)..]
  }

  /** `s.rstrip()`: the prefix of `s` left before its trailing whitespace. */
  function StripEnd(s: string): string {
    s[..|s| - TrailingSpaces(s)]
  }

  /** `s.strip()`: whitespace comes off the front, then off the back. */
  function Strip(s: string): string {
    StripEnd(StripStart(s))
  }

  /** The leading run is whitespace, and the character after it is not. */
  lemma {:induction false} LeadingSpacesSpec(s: string)
    ensures AllSpace(s[..LeadingSpaces(s)])
    ensures LeadingSpaces(s) < |s| ==> !IsSpace(s[LeadingSpaces(s)])
  {
    if s != [] && IsSpace(s[0]) {
      var n := LeadingSpaces(s[1..]);
      LeadingSpacesSpec(s[1..]);
      var run := s[..n + 1];
      forall i | 0 <= i < |run| ensures IsSpace(run[i]) {
        if i > 0 {
          assert run[i] == s[1..][..n][i - 1];
        }
      }
      if n + 1 < |s| {
        assert s[1..][n] == s[n + 1];
      }
    }
  }

  /** The trailing run is whitespace, and the character before it is not. */
  lemma {:induction false} TrailingSpacesSpec(s: string)
    ensures AllSpace(s[|s| - TrailingSpaces(s)..])
    ensures TrailingSpaces(s) < |s| ==> !IsSpace(s[|s| - 1 - TrailingSpaces(s)])
  {
    if s != [] && IsSpace(s[|s| - 1]) {
      var front := s[..|s| - 1];
      var n := TrailingSpaces(front);
      TrailingSpacesSpec(front);
      forall i | |s| - 1 - n <= i < |s| ensures IsSpace(s[i]) {
        if i < |s| - 1 {
          assert s[i] == front[|front| - n..][i - (|front| - n)];
        }
      }
      assert s[|s| - 1 - n..] == s[|s| - (n + 1)..];
      if n < |front| {
        assert front[|front| - 1 - n] == s[|s| - 1 - (n + 1)];
      }
    }
  }

  /** What `s.strip()` leaves is the infix of `s` framed by whitespace on both
      sides that neither starts nor ends with whitespace; it is empty exactly when
      `s` is all whitespace. */
  lemma {:induction false} StripSpec(s: string)
    ensures var r := Strip(s);
      && (exists k :: 0 <= k <= |s| - |r| && s[k..][..|r|] == r && AllSpace(s[..k]) && AllSpace(s[k..][|r|..]))
      && (r == [] || (!IsSpace(r[0]) && !IsSpace(r[|r| - 1])))
      && (r == [] <==> AllSpace(s))
  {
    var k := LeadingSpaces(s);
    var t := s[k..];
    var r := Strip(s);
    LeadingSpacesSpec(s);
    TrailingSpacesSpec(t);
    assert r == t[..|t| - TrailingSpaces(t)];
    assert s[k..][..|r|] == r && AllSpace(s[..k]) && AllSpace(s[k..][|r|..]);
    if r != [] {
      assert r[0] == s[k];
      assert r[|r| - 1] == t[|t| - 1 - TrailingSpaces(t)];
    }
    StripBlank(s);
  }

  /** `s.strip()` is empty exactly when `s` is all whitespace. */
  lemma {:induction false} StripBlank(s: string)
    ensures Strip(s) == [] <==> AllSpace(s)
  {
    var k := LeadingSpaces(s);
    var t := s[k..];
    LeadingSpacesSpec(s);
    TrailingSpacesSpec(t);
    if Strip(s) == [] {
      assert t[|t| - TrailingSpaces(t)..] == t;
      BlankOnlyIfAllSpace(s, k);
    }
  }

  /** If the text after the leading whitespace is all whitespace, so is the whole. */
  lemma {:induction false} BlankOnlyIfAllSpace(s: string, k: nat)
    requires k <= |s| && AllSpace(s[..k])
    ensures AllSpace(s[k..]) ==> AllSpace(s)
  {
    if AllSpace(s[k..]) {
      forall i | 0 <= i < |s| ensures IsSpace(s[i]) {
        if i < k {
          assert s[..k][i] == s[i];
        } else {
          assert s[k..][i - k] == s[i];
        }
      }
    }
  }

  /** A string that is already stripped is left as it is, so stripping twice is
      the same as stripping once. */
  lemma {:induction false} StripTrimmed(s: string)
    requires s == [] || (!IsSpace(s[0]) && !IsSpace(s[|s| - 1]))
    ensures Strip(s) == s
  {
    assert LeadingSpaces(s) == 0;
    assert s[0..] == s;
    assert TrailingSpaces(s) == 0;
  }

  lemma {:induction false} StripIdempotent(s: string)
    ensures Strip(Strip(s)) == Strip(s)
  {
    StripSpec(s);
    StripTrimmed(Strip(s));
  }

  function LowerChar(c: char): char {
    if 'A' <= c <= 'Z' then (c as int + 32) as char else c
  }

  /** ASCII lower-casing, character by character. */
  function Lower(s: string): (r: string)
    ensures |r| == |s|
    ensures forall i :: 0 <= i < |s| ==> r[i] == LowerChar(s[i])
  {
    seq(|s|, i requires 0 <= i < |s| => LowerChar(s[i]))
  }

  predicate EndsWith(s: string, suffix: string) {
    |suffix| <= |s| && s[|s| - |suffix|..] == suffix
  }

  predicate IsDigit(c: char) {
    '0' <= c <= '9'
  }

  predicate AllDigits(s: string) {
    forall i :: 0 <= i < |s| ==> IsDigit(s[i])
  }

  function DigitValue(c: char): nat
    requires IsDigit(c)
  {
    c as int - '0' as int
  }

  function DigitChar(d: nat): (c: char)
    requires d < 10
    ensures IsDigit(c) && DigitValue(c) == d
  {
    ('0' as int + d) as char
  }

  /** The value of a string of decimal digits, most significant first. */
  function DigitsValue(ds: string): nat
    requires AllDigits(ds)
  {
    if ds == [] then 0 else DigitsValue(ds[..|ds| - 1]) * 10 + DigitValue(ds[|ds| - 1])
  }

  /** The value of the digits after a decimal point, most significant first:
      ".d" followed by more digits is d plus their value, over ten. */
  function FractionDigits(f: string): real
    requires AllDigits(f)
  {
    if f == [] then 0.0 else (DigitValue(f[0]) as real + FractionDigits(f[1..])) / 10.0
  }

  /** The digits of a numeral once an optional leading sign is removed. */
  function Unsigned(s: string): (r: string)
    ensures |r| <= |s|
  {
    if s != [] && (s[0] == '+' || s[0] == '-') then s[1..] else s
  }

  /** An integer numeral: an optional sign followed by at least one decimal digit. */
  predicate IsIntegerNumeral(s: string) {
    Unsigned(s) != [] && AllDigits(Unsigned(s))
  }

  /** The value of an integer numeral, or None when `s` is not one. */
  function ParseInteger(s: string): (r: Option<int>)
    ensures r.Some? <==> IsIntegerNumeral(s)
    ensures r.Some? && r.value < 0 ==> s[0] == '-'
  {
    var body := Unsigned(s);
    if body != [] && AllDigits(body) then
      var magnitude: int := DigitsValue(body);
      Some(if s[0] == '-' then -magnitude else magnitude)
    else
      None
  }

  /** The index of the first character of `s` that is one of `marks`, or `|s|`
      when there is none. */
  function FirstOf(s: string, marks: string): (k: nat)
    ensures k <= |s|
    ensures k < |s| ==> s[k] in marks
  {
    if s == [] || s[0] in marks then 0 else 1 + FirstOf(s[1..], marks)
  }

  function Pow10(n: nat): (p: nat)
    ensures p >= 1
  {
    if n == 0 then 1 else 10 * Pow10(n - 1)
  }

  function Pow2(n: nat): (p: nat)
    ensures p >= 1
  {
    if n == 0 then 1 else 2 * Pow2(n - 1)
  }

  /** `x` times ten to the power `e`, one decimal place at a time. */
  function Shift(x: real, e: int): real
    decreases if e >= 0 then e else -e
  {
    if e == 0 then x else if e > 0 then Shift(x * 10.0, e - 1) else Shift(x / 10.0, e + 1)
  }

  /** A mantissa split at its first decimal point: the digits before it and the
      digits after it (none when there is no point). */
  function SplitPoint(m: string): (string, string) {
    var p := FirstOf(m, ".");
    (m[..p], if p < |m| then m[p + 1..] else [])
  }

  /** An unsigned literal split at its first `e` or `E`: the mantissa, and the
      exponent's value (0 when there is no mark, None when what follows the mark
      is not an integer numeral). */
  function SplitExponent(body: string): (string, Option<int>) {
    var k := FirstOf(body, "eE");
    (body[..k], if k < |body| then ParseInteger(body[k + 1..]) else Some(0))
  }

  /** The value of an unsigned decimal literal: at least one digit, at most one
      decimal point, and an optional integer exponent. */
  function Magnitude(body: string): Option<real> {
    var exponent := SplitExponent(body).1;
    var whole, fraction := SplitPoint(SplitExponent(body).0).0, SplitPoint(SplitExponent(body).0).1;
    if whole + fraction != [] && AllDigits(whole + fraction) && exponent.Some? then
      Some(Shift(DigitsValue(whole + fraction) as real, exponent.value - |fraction|))
    else
      None
  }

  /** The number a decimal literal denotes: an optional sign; digits with at most
      one decimal point and at least one digit in all; then optionally `e` or `E`
      and an integer exponent. Python's `float` and SQLite's conversion to a
      number both accept exactly this form. `float` also reads the names "nan",
      "inf" and "infinity" (see ParseNumber), underscores between digits and
      non-ASCII decimal digits; the last two are not part of the model. The
      value is exact: the rounding to the nearest double is not part of the
      model. None when `s` is not a decimal literal. */
  function DecimalLiteral(s: string): (r: Option<real>) {
    if s == [] then None
    else
      match Magnitude(Unsigned(s))
      case Some(m) => Some(if s[0] == '-' then -m else m)
      case None => None
  }

  /** What `float` returns: a finite number, an infinity or NaN. */
  datatype Float = Finite(value: real) | Infinite(negative: bool) | NaN

  /** The largest real that `float` rounds to 0.0: half the smallest positive
      double, which is 2 to the power -1074. A smaller positive real is nearer to
      0.0 than to that double, and at the bound itself the tie goes to 0.0, the
      neighbour with the even significand. */
  const UnderflowBound: real := 1.0 / Pow2(UnderflowExponent) as real

  /** 1074 places for the smallest positive double, and one more for half of it. */
  const UnderflowExponent: nat := 1075

  /** The underflow bound is positive and below ten to the power -k for every k
      up to 300, so a price of at least that size survives as a positive
      double. */
  lemma {:induction false} ModestPowerSurvives(k: nat)
    requires k <= 300
    ensures 0.0 < UnderflowBound < 1.0 / Pow10(k) as real
  {
    var j := 100;
    Pow10Grows(k, 3 * j);
    Pow10BelowPow2(j);
    Pow2Grows(10 * j, UnderflowExponent - 1);
    assert Pow2(UnderflowExponent) == 2 * Pow2(UnderflowExponent - 1);
    ReciprocalShrinks(Pow10(k), Pow2(UnderflowExponent));
  }

  /** So every finite price of at least 1 survives, and 0.0 is at most the bound. */
  lemma UnderflowBoundBelowOne()
    ensures 0.0 < UnderflowBound < 1.0
  {
    ModestPowerSurvives(0);
  }

  /** Ten to the power -k is at most the underflow bound once k is at least
      359, so `float` reads "1e-k" as 0.0. */
  lemma {:induction false} TinyPowerUnderflows(k: nat)
    requires k >= 359
    ensures 1.0 / Pow10(k) as real <= UnderflowBound
  {
    Pow2Grows(UnderflowExponent, 3 * k);
    Pow2BelowPow10(k);
    ReciprocalShrinks(Pow2(UnderflowExponent), Pow10(k));
  }

  /** Eight is at most ten, so 2 to the power 3k is at most 10 to the power k. */
  lemma {:induction false} Pow2BelowPow10(k: nat)
    ensures Pow2(3 * k) <= Pow10(k)
  {
    if k > 0 {
      Pow2BelowPow10(k - 1);
      var n := 3 * (k - 1);
      assert Pow2(n + 3) == 2 * Pow2(n + 2) && Pow2(n + 2) == 2 * Pow2(n + 1) && Pow2(n + 1) == 2 * Pow2(n);
      assert Pow10(k) == 10 * Pow10(k - 1);
    }
  }

  /** 1000 is at most 1024, so 10 to the power 3k is at most 2 to the power 10k. */
  lemma {:induction false} Pow10BelowPow2(k: nat)
    ensures Pow10(3 * k) <= Pow2(10 * k)
  {
    if k > 0 {
      Pow10BelowPow2(k - 1);
      var n := 3 * (k - 1);
      assert Pow10(n + 3) == 10 * Pow10(n + 2) && Pow10(n + 2) == 10 * Pow10(n + 1) && Pow10(n + 1) == 10 * Pow10(n);
      Pow2Times1024(10 * (k - 1));
    }
  }

  lemma {:induction false} Pow2Times1024(n: nat)
    ensures Pow2(n + 10) == 1024 * Pow2(n)
  {
    assert Pow2(n + 10) == 2 * Pow2(n + 9);
    assert Pow2(n + 9) == 2 * Pow2(n + 8);
    assert Pow2(n + 8) == 2 * Pow2(n + 7);
    assert Pow2(n + 7) == 2 * Pow2(n + 6);
    assert Pow2(n + 6) == 2 * Pow2(n + 5);
    assert Pow2(n + 5) == 2 * Pow2(n + 4);
    assert Pow2(n + 4) == 2 * Pow2(n + 3);
    assert Pow2(n + 3) == 2 * Pow2(n + 2);
    assert Pow2(n + 2) == 2 * Pow2(n + 1);
    assert Pow2(n + 1) == 2 * Pow2(n);
  }

  lemma {:induction false} Pow10Grows(a: nat, b: nat)
    requires a <= b
    ensures Pow10(a) <= Pow10(b)
    decreases b - a
  {
    if a < b {
      Pow10Grows(a, b - 1);
    }
  }

  lemma {:induction false} Pow2Grows(a: nat, b: nat)
    requires a <= b
    ensures Pow2(a) <= Pow2(b)
    decreases b - a
  {
    if a < b {
      Pow2Grows(a, b - 1);
    }
  }

  lemma ReciprocalShrinks(x: nat, y: nat)
    requires 1 <= x <= y
    ensures 0.0 < 1.0 / y as real <= 1.0 / x as real
    ensures x < y ==> 1.0 / y as real < 1.0 / x as real
  {
  }

  /** The names `float` reads as NaN or an infinity, once lower-cased. */
  predicate SpecialName(name: string) {
    name == "nan" || name == "inf" || name == "infinity"
  }

  /** `float(s)` on a stripped string: a decimal literal, or, ignoring case and
      after an optional sign, "nan", "inf" or "infinity". None stands for the
      `ValueError` that `float` raises. */
  function ParseNumber(s: string): (r: Option<Float>)
    ensures r.Some? && r.value.Finite? <==> DecimalLiteral(s).Some?
    ensures r.Some? && !r.value.Finite? <==> DecimalLiteral(s).None? && SpecialName(Lower(Unsigned(s)))
    ensures r.Some? && r.value.Finite? ==> r.value.value == DecimalLiteral(s).value
    ensures r == Some(NaN) <==> DecimalLiteral(s).None? && Lower(Unsigned(s)) == "nan"
    ensures r.Some? && r.value.Infinite? ==> r.value.negative == (s[0] == '-')
  {
    match DecimalLiteral(s)
    case Some(v) => Some(Finite(v))
    case None =>
      var name := Lower(Unsigned(s));
      if name == "nan" then Some(NaN)
      else if SpecialName(name) then Some(Infinite(s[0] == '-'))
      else None
  }

  /** The shortest decimal rendering of a natural number. */
  function Decimal(n: nat): (r: string)
    ensures r != [] && AllDigits(r)
  {
    if n < 10 then [DigitChar(n)] else Decimal(n / 10) + [DigitChar(n % 10)]
  }

  /** The decimal rendering of any integer, with a '-' sign when negative. */
  function Numeral(n: int): string {
    if n < 0 then "-" + Decimal(-n) else Decimal(n)
  }

  lemma {:induction false} DecimalValue(n: nat)
    ensures DigitsValue(Decimal(n)) == n
  {
    if n >= 10 {
      DecimalValue(n / 10);
      var r := Decimal(n);
      assert r[..|r| - 1] == Decimal(n / 10);
    }
  }

  /** Reading back the rendering of an integer gives that integer. */
  lemma {:induction false} ParseIntegerRoundTrip(n: int)
    ensures ParseInteger(Numeral(n)) == Some(n)
  {
    var m: nat := if n < 0 then -n else n;
    var digits := Decimal(m);
    DecimalValue(m);
    assert IsDigit(digits[0]);
    if n < 0 {
      var s := "-" + digits;
      assert s[0] == '-' && s[1..] == digits;
      assert Unsigned(s) == digits;
    } else {
      assert Unsigned(digits) == digits;
    }
  }

  lemma {:induction false} FirstOfAbsent(s: string, marks: string)
    requires forall i :: 0 <= i < |s| ==> s[i] !in marks
    ensures FirstOf(s, marks) == |s|
  {
    if s != [] {
      FirstOfAbsent(s[1..], marks);
    }
  }

  /** The decimal literal of an integer numeral denotes that integer. */
  lemma {:induction false} IntegerIsDecimalLiteral(s: string)
    requires IsIntegerNumeral(s)
    ensures DecimalLiteral(s) == Some(ParseInteger(s).value as real)
  {
    var body := Unsigned(s);
    PlainSplits(body);
    assert body + [] == body;
  }

  /** A run of digits has neither mark: it is the whole mantissa and its digits
      all come before the point. */
  lemma {:induction false} PlainSplits(digits: string)
    requires AllDigits(digits)
    ensures SplitExponent(digits) == (digits, Some(0))
    ensures SplitPoint(digits) == (digits, [])
  {
    FirstOfAbsent(digits, "eE");
    FirstOfAbsent(digits, ".");
    assert digits[..|digits|] == digits;
  }

  /** `float` reads the rendering of any integer as that integer. */
  lemma {:induction false} ParseNumberRoundTrip(n: int)
    ensures ParseNumber(Numeral(n)) == Some(Finite(n as real))
  {
    ParseIntegerRoundTrip(n);
    IntegerIsDecimalLiteral(Numeral(n));
  }
  lemma {:induction false} DigitsValueAppend(a: string, b: string)
    requires AllDigits(a) && AllDigits(b)
    ensures AllDigits(a + b)
    ensures DigitsValue(a + b) == DigitsValue(a) * Pow10(|b|) + DigitsValue(b)
  {
    if b == [] {
      assert a + b == a;
    } else {
      var front := b[..|b| - 1];
      DigitsValueAppend(a, front);
      DigitsValueLast(a + b, a + front);
      AppendStep(DigitsValue(a), DigitsValue(front), Pow10(|front|), DigitValue(b[|b| - 1]));
    }
  }

  /** Dropping the last digit of a run. */
  lemma {:induction false} DigitsValueLast(ds: string, front: string)
    requires ds != [] && AllDigits(ds) && front == ds[..|ds| - 1]
    ensures DigitsValue(ds) == DigitsValue(front) * 10 + DigitValue(ds[|ds| - 1])
  {
  }

  lemma {:induction false} AppendStep(x: nat, y: nat, p: nat, d: nat)
    ensures (x * p + y) * 10 + d == x * (p * 10) + (y * 10 + d)
  {
  }

  /** The first mark sits right after a run free of marks. */
  lemma {:induction false} FirstOfAfter(a: string, b: string, marks: string)
    requires forall i :: 0 <= i < |a| ==> a[i] !in marks
    requires b != [] && b[0] in marks
    ensures FirstOf(a + b, marks) == |a|
  {
    if a != [] {
      assert (a + b)[1..] == a[1..] + b;
      FirstOfAfter(a[1..], b, marks);
    }
  }

  /** Shifting left by k places multiplies by ten to the k. */
  lemma {:induction false} ShiftUp(x: real, k: nat)
    ensures Shift(x, k) == x * Pow10(k) as real
    decreases k
  {
    if k > 0 {
      ShiftUp(x * 10.0, k - 1);
      assert x * 10.0 * Pow10(k - 1) as real == x * (10 * Pow10(k - 1)) as real;
    }
  }

  /** Shifting right by k places divides by ten to the k. */
  lemma {:induction false} ShiftDown(x: real, k: nat)
    ensures Shift(x, -(k as int)) == x / Pow10(k) as real
    decreases k
  {
    if k > 0 {
      ShiftDown(x / 10.0, k - 1);
      assert x / 10.0 / Pow10(k - 1) as real == x / (10 * Pow10(k - 1)) as real;
    }
  }

  /** The value of an unsigned literal from its parts. */
  lemma {:induction false} MagnitudeOf(body: string, mantissa: string, whole: string, f: string, e: int)
    requires SplitExponent(body) == (mantissa, Some(e)) && SplitPoint(mantissa) == (whole, f)
    requires whole + f != [] && AllDigits(whole + f)
    ensures Magnitude(body) == Some(Shift(DigitsValue(whole + f) as real, e - |f|))
  {
    var exponent := SplitExponent(body).1;
    var w, g := SplitPoint(SplitExponent(body).0).0, SplitPoint(SplitExponent(body).0).1;
    assert exponent == Some(e) && w == whole && g == f;
  }

  /** An unsigned literal denotes its magnitude. */
  lemma {:induction false} UnsignedLiteral(s: string)
    requires s != [] && s[0] != '+' && s[0] != '-'
    ensures DecimalLiteral(s) == Magnitude(s)
  {
  }

  /** A literal made of digits, a point and digits has no exponent mark, and its
      point splits it into those two runs. */
  lemma {:induction false} PointSplits(whole: string, f: string)
    requires AllDigits(whole) && AllDigits(f)
    ensures SplitExponent(whole + "." + f) == (whole + "." + f, Some(0))
    ensures SplitPoint(whole + "." + f) == (whole, f)
  {
    var s := whole + "." + f;
    assert forall i :: 0 <= i < |s| ==> s[i] !in "eE";
    FirstOfAbsent(s, "eE");
    assert s[..|s|] == s;
    FirstOfAbsent(whole, ".");
    FirstOfAfter(whole, "." + f, ".");
    assert s == whole + ("." + f);
    assert s[..|whole|] == whole && s[|whole| + 1..] == f;
  }

  /** `float` and SQLite read "w.f", for digit runs w and f not both empty, as w
      plus the fraction f. */
  lemma {:induction false} DecimalPointValue(whole: string, f: string)
    requires AllDigits(whole) && AllDigits(f) && whole + f != []
    ensures DecimalLiteral(whole + "." + f) == Some(DigitsValue(whole) as real + FractionDigits(f))
  {
    PointLiteral(whole, f);
    PointShift(whole, f);
  }

  /** Moving the point left past the fraction digits leaves the whole part plus
      the fraction. */
  lemma {:induction false} PointShift(whole: string, f: string)
    requires AllDigits(whole) && AllDigits(f)
    ensures AllDigits(whole + f)
    ensures Shift(DigitsValue(whole + f) as real, -(|f| as int)) == DigitsValue(whole) as real + FractionDigits(f)
  {
    FractionShift(whole, f);
    FractionDigitsValue(f);
  }

  /** The fraction digits f are worth their value as an integer over ten to the
      number of digits. */
  lemma {:induction false} FractionDigitsValue(f: string)
    requires AllDigits(f)
    ensures FractionDigits(f) == DigitsValue(f) as real / Pow10(|f|) as real
  {
    if f != [] {
      var d, r, p := DigitValue(f[0]), DigitsValue(f[1..]), Pow10(|f| - 1);
      FractionDigitsValue(f[1..]);
      DigitsValueFirst(f);
      assert Pow10(|f|) == 10 * p;
      FractionStep(d, r, p);
    }
  }

  /** Dropping the first digit of a run. */
  lemma {:induction false} DigitsValueFirst(f: string)
    requires f != [] && AllDigits(f)
    ensures DigitsValue(f) == DigitValue(f[0]) * Pow10(|f| - 1) + DigitsValue(f[1..])
  {
    DigitsValueAppend(f[..1], f[1..]);
    assert f[..1] + f[1..] == f;
    assert f[..1][..0] == [];
  }

  lemma {:induction false} FractionStep(d: nat, r: nat, p: nat)
    requires p >= 1
    ensures (d as real + r as real / p as real) / 10.0 == (d * p + r) as real / (10 * p) as real
  {
  }

  lemma {:induction false} FractionShift(whole: string, f: string)
    requires AllDigits(whole) && AllDigits(f)
    ensures AllDigits(whole + f)
    ensures Shift(DigitsValue(whole + f) as real, -(|f| as int))
      == DigitsValue(whole) as real + DigitsValue(f) as real / Pow10(|f|) as real
  {
    FractionSplit(whole, f);
    ShiftDown(DigitsValue(whole + f) as real, |f|);
  }

  /** "w.f" denotes the digits of w and f together, shifted right by the length
      of f. */
  lemma {:induction false} PointLiteral(whole: string, f: string)
    requires AllDigits(whole) && AllDigits(f) && whole + f != []
    ensures DecimalLiteral(whole + "." + f) == Some(Shift(DigitsValue(whole + f) as real, -(|f| as int)))
  {
    var s := whole + "." + f;
    assert s[0] != '+' && s[0] != '-' by {
      if whole == [] {
        assert s[0] == '.';
      } else {
        assert s[0] == whole[0];
      }
    }
    UnsignedLiteral(s);
    PointMagnitude(whole, f);
  }

  lemma {:induction false} PointMagnitude(whole: string, f: string)
    requires AllDigits(whole) && AllDigits(f) && whole + f != []
    ensures Magnitude(whole + "." + f) == Some(Shift(DigitsValue(whole + f) as real, -(|f| as int)))
  {
    var s := whole + "." + f;
    PointSplits(whole, f);
    MagnitudeOf(s, s, whole, f, 0);
  }

  lemma {:induction false} FractionSplit(whole: string, f: string)
    requires AllDigits(whole) && AllDigits(f)
    ensures AllDigits(whole + f)
    ensures DigitsValue(whole + f) as real / Pow10(|f|) as real
      == DigitsValue(whole) as real + DigitsValue(f) as real / Pow10(|f|) as real
  {
    DigitsValueAppend(whole, f);
    FractionValue(DigitsValue(whole), DigitsValue(f), Pow10(|f|));
  }

  lemma {:induction false} FractionValue(n: nat, d: nat, p: nat)
    requires p >= 1
    ensures (n * p + d) as real / p as real == n as real + d as real / p as real
  {
  }

  /** Digits, an exponent mark and an integer numeral: the mantissa is the digits
      and the exponent is the numeral's value. */
  lemma {:induction false} ExponentSplits(whole: string, mark: char, tail: string)
    requires AllDigits(whole) && (mark == 'e' || mark == 'E')
    ensures SplitExponent(whole + [mark] + tail) == (whole, ParseInteger(tail))
  {
    var s := whole + [mark] + tail;
    FirstOfAbsent(whole, "eE");
    FirstOfAfter(whole, [mark] + tail, "eE");
    assert s == whole + ([mark] + tail);
    assert s[..|whole|] == whole && s[|whole| + 1..] == tail;
  }

  /** `float` and SQLite read digits followed by `e` or `E` and an integer k as
      the digits' value times ten to the k. */
  lemma {:induction false} ExponentValue(whole: string, mark: char, k: int)
    requires whole != [] && AllDigits(whole) && (mark == 'e' || mark == 'E')
    ensures DecimalLiteral(whole + [mark] + Numeral(k)) == Some(Shift(DigitsValue(whole) as real, k))
  {
    ParseIntegerRoundTrip(k);
    ExponentLiteral(whole, mark, Numeral(k), k);
  }

  /** Digits, an exponent mark and any exponent numeral of value k. */
  lemma {:induction false} ExponentLiteral(whole: string, mark: char, tail: string, k: int)
    requires whole != [] && AllDigits(whole) && (mark == 'e' || mark == 'E')
    requires ParseInteger(tail) == Some(k)
    ensures DecimalLiteral(whole + [mark] + tail) == Some(Shift(DigitsValue(whole) as real, k))
  {
    var s := whole + [mark] + tail;
    assert IsDigit(s[0]);
    UnsignedLiteral(s);
    ExponentMagnitude(whole, mark, tail, k);
  }

  lemma {:induction false} ExponentMagnitude(whole: string, mark: char, tail: string, k: int)
    requires whole != [] && AllDigits(whole) && (mark == 'e' || mark == 'E')
    requires ParseInteger(tail) == Some(k)
    ensures Magnitude(whole + [mark] + tail) == Some(Shift(DigitsValue(whole) as real, k))
  {
    ExponentSplits(whole, mark, tail);
    PlainSplits(whole);
    assert whole + [] == whole;
    MagnitudeOf(whole + [mark] + tail, whole, whole, [], k);
  }

  /** A string whose first character after the sign is neither a digit, a point
      nor an exponent mark is not a decimal literal. */
  lemma {:induction false} WordIsNotLiteral(s: string)
    requires Unsigned(s) != []
    requires var c := Unsigned(s)[0]; !IsDigit(c) && c != '.' && c != 'e' && c != 'E'
    ensures DecimalLiteral(s) == None
  {
    var body := Unsigned(s);
    var mantissa := SplitExponent(body).0;
    assert FirstOf(body, "eE") > 0;
    assert mantissa[0] == body[0];
    assert FirstOf(mantissa, ".") > 0;
    var whole := SplitPoint(mantissa).0;
    assert (whole + SplitPoint(mantissa).1)[0] == body[0];
  }

  /** Example prices, read as `float` reads them. Integers read as their value. */
  lemma ExampleWholePrices()
    ensures ParseNumber("0") == Some(Finite(0.0))
    ensures ParseNumber("10") == Some(Finite(10.0))
  {
    WholePrice("0", 0);
    WholePrice("10", 10);
  }

  /** A price written as the numeral of `n` reads as `n`. */
  lemma {:induction false} WholePrice(s: string, n: nat)
    requires s == Numeral(n)
    ensures ParseNumber(s) == Some(Finite(n as real))
  {
    ParseNumberRoundTrip(n);
  }

  /** A decimal price reads as its exact value. */
  lemma ExampleDecimalPrice()
    ensures ParseNumber("19.99") == Some(Finite(19.99))
  {
    DecimalExampleParts("19", "99");
    assert "19" + "." + "99" == "19.99";
  }

  /** "19.99" from its two digit runs. The runs are parameters rather than
      literals so that the verifier reasons from DecimalPointValue instead of
      evaluating the literal character by character. */
  lemma {:induction false} DecimalExampleParts(whole: string, fraction: string)
    requires whole == "19" && fraction == "99"
    ensures DecimalLiteral(whole + "." + fraction) == Some(19.99)
  {
    DecimalPointValue(whole, fraction);
    ExampleDigits();
  }

  lemma ExampleDigits()
    ensures DigitsValue("19") == 19 && FractionDigits("99") == 0.99
  {
    assert "19"[..1] == "1";
    assert "99"[1..] == "9" && "9"[1..] == [];
  }

  /** An exponent price reads as its value. */
  lemma ExampleExponentPrice()
    ensures ParseNumber("1e3") == Some(Finite(1000.0))
  {
    ExponentValue("1", 'e', 3);
    assert Numeral(3) == "3";
    assert "1" + ['e'] + "3" == "1e3";
    ShiftUp(1.0, 3);
  }

  /** The numeral of -100d, for a digit d from 1 to 9, is '-', d and two zeros. */
  lemma {:induction false} HundredsNumeral(d: nat)
    requires 1 <= d <= 9
    ensures Numeral(-100 * d) == ['-', DigitChar(d), '0', '0']
  {
    var ten, hundred := 10 * d, 100 * d;
    assert ten / 10 == d && ten % 10 == 0;
    assert hundred / 10 == ten && hundred % 10 == 0;
    assert Decimal(d) == [DigitChar(d)];
    assert Decimal(ten) == Decimal(d) + [DigitChar(0)];
    assert Decimal(hundred) == Decimal(ten) + [DigitChar(0)];
    assert DigitChar(0) == '0';
  }

  /** "1e-k" reads as ten to the power -k, a positive value. */
  lemma {:induction false} NegativePowerPrice(k: nat)
    ensures ParseNumber("1e" + Numeral(-(k as int))) == Some(Finite(1.0 / Pow10(k) as real))
    ensures 1.0 / Pow10(k) as real > 0.0
  {
    ExponentValue("1", 'e', -(k as int));
    assert "1" + ['e'] == "1e";
    assert DigitsValue("1") == 1;
    ShiftDown(1.0, k);
    ReciprocalShrinks(1, Pow10(k));
  }

  /** A word that is not a special name is refused. */
  lemma ExampleWordPrice()
    ensures ParseNumber("abc") == None
  {
    assert Unsigned("abc") == "abc" && Lower("abc") == "abc";
    WordPrice("abc");
  }

  /** A word that is neither a decimal literal nor one of the special names is
      the ValueError. */
  lemma {:induction false} WordPrice(s: string)
    requires Unsigned(s) != []
    requires var c := Unsigned(s)[0]; !IsDigit(c) && c != '.' && c != 'e' && c != 'E'
    requires !SpecialName(Lower(Unsigned(s)))
    ensures ParseNumber(s) == None
  {
    WordIsNotLiteral(s);
  }

  lemma ExampleNanPrice()
    ensures ParseNumber("nan") == Some(NaN)
  {
    assert Unsigned("nan") == "nan" && Lower("nan") == "nan";
    SpecialPrice("nan");
  }

  lemma ExampleInfinitePrice()
    ensures ParseNumber("-inf") == Some(Infinite(true))
  {
    assert Unsigned("-inf") == "inf" && Lower("inf") == "inf";
    SpecialPrice("-inf");
  }

  /** A special name, with or without a sign, is NaN or a signed infinity. */
  lemma {:induction false} SpecialPrice(s: string)
    requires Unsigned(s) != []
    requires var c := Unsigned(s)[0]; !IsDigit(c) && c != '.' && c != 'e' && c != 'E'
    requires SpecialName(Lower(Unsigned(s)))
    ensures Lower(Unsigned(s)) == "nan" ==> ParseNumber(s) == Some(NaN)
    ensures Lower(Unsigned(s)) != "nan" ==> ParseNumber(s) == Some(Infinite(s[0] == '-'))
  {
    WordIsNotLiteral(s);
  }
}
