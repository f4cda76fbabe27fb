/** Exact decimals as coefficient and scale: reading, writing, arithmetic and rounding
    (dag/map.ts, dag/filter.ts and the aggregate arithmetic of deployments/runtime.ts). */
module Decimals {
  import opened Digits
  import opened Wrappers

  datatype Decimal = Decimal(coefficient: int, scale: nat)

  ghost function Power(n: nat): (p: real)
    ensures p > 0.0
  {
    Pow10(n) as real
  }

  /** The rational number a decimal stands for. */
  ghost function Value(d: Decimal): real {
    d.coefficient as real / Power(d.scale)
  }

  // Small facts about real products, kept apart so that no other term is in sight of their proofs.

  lemma Quotient(c: real, p: real)
    requires p != 0.0
    ensures c / p * p == c
  {
  }

  lemma Cancel(x: real, y: real, p: real)
    requires p > 0.0
    ensures x < y <==> x * p < y * p
    ensures x == y <==> x * p == y * p
  {
    assert (y - x) * p == y * p - x * p;
    if x < y { assert (y - x) * p > 0.0; }
    if x > y { assert (x - y) * p > 0.0; }
  }

  lemma Associate(x: real, y: real, z: real)
    ensures x * (y * z) == (x * y) * z
  {
  }

  lemma Distribute(x: real, y: real, z: real)
    ensures (x + y) * z == x * z + y * z
    ensures (x - y) * z == x * z - y * z
  {
  }

  lemma IntegerProduct(a: int, b: int)
    ensures (a * b) as real == a as real * b as real
  {
  }

  lemma PowerSum(a: nat, b: nat)
    ensures Power(a + b) == Power(a) * Power(b)
  {
    Pow10Sum(a, b);
    IntegerProduct(Pow10(a), Pow10(b));
  }

  lemma ValueTimes(d: Decimal)
    ensures Value(d) * Power(d.scale) == d.coefficient as real
  {
    Quotient(d.coefficient as real, Power(d.scale));
  }

  lemma ValueIs(d: Decimal, x: real)
    requires x * Power(d.scale) == d.coefficient as real
    ensures Value(d) == x
  {
    ValueTimes(d);
    Cancel(Value(d), x, Power(d.scale));
  }

  // ---------------------------------------------------------------- reading and writing

  /** The first position of the decimal point, or |s| when there is none. */
  function PointAt(s: string): (i: nat)
    ensures i <= |s|
    ensures i < |s| ==> s[i] == '.'
    ensures forall j | 0 <= j < i :: s[j] != '.'
  {
    if s == "" || s[0] == '.' then 0 else 1 + PointAt(s[1..])
  }

  /** The pattern -?(0|[1-9]\d*)(\.\d+)? and the value it denotes. */
  function Parse(text: string): Option<Decimal> {
    if text != "" && text[0] == '-' then ParseUnsigned(true, text[1..]) else ParseUnsigned(false, text)
  }

  function ParseUnsigned(negative: bool, text: string): Option<Decimal> {
    var point := PointAt(text);
    var whole := text[..point];
    var fraction := if point < |text| then text[point + 1..] else "";
    if !IsWhole(whole) || (point < |text| && fraction == "") || !AllDigits(fraction) then None
    else
      NatOfConcat(whole, fraction);
      Some(Decimal(Signed(negative, NatOf(whole + fraction)), |fraction|))
  }

  function Cut(digits: string, scale: nat): (r: (string, string))
    requires |digits| > scale
    ensures AllDigits(digits) ==> AllDigits(r.0) && AllDigits(r.1)
  {
    (digits[..|digits| - scale], StripTrailingZeros(digits[|digits| - scale..]))
  }

  /** The digits before and after the point of a magnitude printed at a scale. */
  function Split(magnitude: nat, scale: nat): (r: (string, string))
    ensures AllDigits(r.0) && AllDigits(r.1)
  {
    Cut(PadStart(TextOf(magnitude), scale + 1), scale)
  }

  function Tail(fraction: string): string {
    if fraction == "" then "" else "." + fraction
  }

  function Print(d: Decimal): string {
    if d.coefficient == 0 then "0"
    else
      PrintParts(d.coefficient < 0, Split(Abs(d.coefficient), d.scale))
  }

  function PrintParts(negative: bool, parts: (string, string)): string {
    Sign(negative) + (parts.0 + Tail(parts.1))
  }

  /** No factor of ten is shared by coefficient and scale: the shortest way to write a value. */
  predicate Shortest(d: Decimal) {
    d.scale == 0 || d.coefficient % 10 != 0
  }

  function Shorten(d: Decimal): (r: Decimal)
    ensures Shortest(r)
    decreases d.scale
  {
    if Shortest(d) then d else Shorten(Decimal(d.coefficient / 10, d.scale - 1))
  }

  lemma ScaledValue(d: Decimal, c: int, scale: nat, q: real)
    requires Power(scale) == Power(d.scale) * q && c as real == d.coefficient as real * q
    ensures Value(Decimal(c, scale)) == Value(d)
  {
    ValueTimes(d);
    Associate(Value(d), Power(d.scale), q);
    ValueIs(Decimal(c, scale), Value(d));
  }

  lemma ScaleUp(d: Decimal, extra: nat)
    ensures Value(Decimal(d.coefficient * Pow10(extra), d.scale + extra)) == Value(d)
  {
    hide Value, Pow10;
    PowerSum(d.scale, extra);
    IntegerProduct(d.coefficient, Pow10(extra));
    ScaledValue(d, d.coefficient * Pow10(extra), d.scale + extra, Power(extra));
  }

  lemma {:induction false} ShortenKeepsValue(d: Decimal)
    ensures Value(Shorten(d)) == Value(d)
    decreases d.scale
  {
    if !Shortest(d) {
      var e := Decimal(d.coefficient / 10, d.scale - 1);
      ShortenKeepsValue(e);
      assert Pow10(1) == 10 * Pow10(0);
      ScaleUp(e, 1);
    }
  }

  // ---------------------------------------------------------------- alignment and order

  function Align(d: Decimal, scale: nat): int
    requires scale >= d.scale
  {
    d.coefficient * Pow10(scale - d.scale)
  }

  function MaxScale(a: Decimal, b: Decimal): (m: nat)
    ensures m >= a.scale && m >= b.scale
  {
    if a.scale > b.scale then a.scale else b.scale
  }

  /** An aligned coefficient is the value measured in units of ten to the minus scale. */
  lemma AlignIsValue(d: Decimal, scale: nat)
    requires scale >= d.scale
    ensures Align(d, scale) as real == Value(d) * Power(scale)
  {
    ScaleUp(d, scale - d.scale);
    ValueTimes(Decimal(Align(d, scale), scale));
  }

  function Compare(a: Decimal, b: Decimal): int {
    var scale := MaxScale(a, b);
    var (x, y) := (Align(a, scale), Align(b, scale));
    if x < y then -1 else if x > y then 1 else 0
  }

  lemma OrderOfScaled(x: real, y: real, p: real, a: int, b: int)
    requires p > 0.0 && a as real == x * p && b as real == y * p
    ensures x < y <==> a < b
    ensures x > y <==> a > b
  {
    Cancel(x, y, p);
    Cancel(y, x, p);
  }

  /** compareDecimals is the order of the rationals. */
  lemma CompareIsRationalOrder(a: Decimal, b: Decimal)
    ensures Compare(a, b) == (if Value(a) < Value(b) then -1 else if Value(a) > Value(b) then 1 else 0)
  {
    var scale := MaxScale(a, b);
    var x, y := Align(a, scale), Align(b, scale);
    AlignIsValue(a, scale);
    AlignIsValue(b, scale);
    OrderOfScaled(Value(a), Value(b), Power(scale), x, y);
  }

  function Add(a: Decimal, b: Decimal): Decimal {
    var scale := MaxScale(a, b);
    Decimal(Align(a, scale) + Align(b, scale), scale)
  }

  function Negate(d: Decimal): Decimal {
    Decimal(-d.coefficient, d.scale)
  }

  function Multiply(a: Decimal, b: Decimal): Decimal {
    Decimal(a.coefficient * b.coefficient, a.scale + b.scale)
  }

  lemma AddIsExact(a: Decimal, b: Decimal)
    ensures Value(Add(a, b)) == Value(a) + Value(b)
    ensures Value(Add(a, Negate(b))) == Value(a) - Value(b)
  {
    NegateIsExact(b);
    SumAt(a, b);
    SumAt(a, Negate(b));
  }

  lemma NegateIsExact(d: Decimal)
    ensures Value(Negate(d)) == -Value(d)
  {
    ValueTimes(d);
    Distribute(0.0, Value(d), Power(d.scale));
    ValueIs(Negate(d), -Value(d));
  }

  lemma SumOfScaled(x: real, y: real, p: real, a: int, b: int)
    requires a as real == x * p && b as real == y * p
    ensures (a + b) as real == (x + y) * p
  {
  }

  lemma SumAt(a: Decimal, b: Decimal)
    ensures Value(Add(a, b)) == Value(a) + Value(b)
  {
    var scale := MaxScale(a, b);
    var x, y := Align(a, scale), Align(b, scale);
    AlignIsValue(a, scale);
    AlignIsValue(b, scale);
    SumOfScaled(Value(a), Value(b), Power(scale), x, y);
    ValueIs(Decimal(x + y, scale), Value(a) + Value(b));
  }

  lemma MultiplyIsExact(a: Decimal, b: Decimal)
    ensures Value(Multiply(a, b)) == Value(a) * Value(b)
  {
    ValueTimes(a);
    ValueTimes(b);
    PowerSum(a.scale, b.scale);
    IntegerProduct(a.coefficient, b.coefficient);
    Exchange(Value(a), Value(b), Power(a.scale), Power(b.scale));
    ValueIs(Multiply(a, b), Value(a) * Value(b));
  }

  lemma Exchange(x: real, y: real, p: real, q: real)
    ensures (x * y) * (p * q) == (x * p) * (y * q)
  {
  }

  // ---------------------------------------------------------------- normal form

  /** Two values that agree have the same shortest form. */
  lemma ShortestIsUnique(a: Decimal, b: Decimal)
    requires Shortest(a) && Shortest(b) && Value(a) == Value(b)
    ensures a == b
  {
    if a.scale > b.scale {
      ShorterScale(b, a);
    } else {
      ShorterScale(a, b);
    }
  }

  lemma ShorterScale(a: Decimal, b: Decimal)
    requires a.scale <= b.scale && Shortest(b) && Value(a) == Value(b)
    ensures a == b
  {
    AlignIsValue(a, b.scale);
    ValueTimes(b);
    var gap := b.scale - a.scale;
    assert a.coefficient * Pow10(gap) == b.coefficient;
    if gap > 0 {
      TenDivides(a.coefficient, Pow10(gap - 1));
    }
  }

  lemma TenDivides(c: int, p: int)
    ensures (c * (10 * p)) % 10 == 0
  {
    assert c * (10 * p) == 10 * (c * p);
  }

  lemma TextDropsZero(m: nat)
    requires m >= 10 && m % 10 == 0
    ensures TextOf(m) == TextOf(m / 10) + "0"
  {
  }

  lemma PadDropsZero(text: string, width: nat)
    ensures PadStart(text + "0", width + 1) == PadStart(text, width) + "0"
  {
  }

  lemma CutDropsZero(fewer: string, scale: nat)
    requires |fewer| > scale
    ensures Cut(fewer + "0", scale + 1) == Cut(fewer, scale)
  {
    var digits := fewer + "0";
    var at := |fewer| - scale;
    assert digits[..at] == fewer[..at];
    var fraction := digits[at..];
    assert fraction[..|fraction| - 1] == fewer[at..];
  }

  lemma PadCutDropsZero(text: string, scale: nat)
    ensures Cut(PadStart(text + "0", scale + 2), scale + 1) == Cut(PadStart(text, scale + 1), scale)
  {
    PadDropsZero(text, scale + 1);
    CutDropsZero(PadStart(text, scale + 1), scale);
  }

  lemma SplitDropsZero(k: nat, scale: nat)
    requires k > 0
    ensures Split(k, scale) == Split(10 * k, scale + 1)
  {
    TextDropsZero(10 * k);
    PadCutDropsZero(TextOf(k), scale);
  }

  /** Dropping a shared factor of ten does not change the printed text. */
  lemma PrintDropsZero(k: int, scale: nat)
    ensures Print(Decimal(k, scale)) == Print(Decimal(10 * k, scale + 1))
  {
    var m: int := Abs(k);
    if m > 0 {
      assert Abs(10 * k) == 10 * m;
      SplitDropsZero(m, scale);
      assert Print(Decimal(10 * k, scale + 1)) == PrintParts(k < 0, Split(10 * m, scale + 1));
    }
  }

  lemma {:induction false} PrintShorten(d: Decimal)
    ensures Print(Shorten(d)) == Print(d)
    decreases d.scale
  {
    hide Print;
    if !Shortest(d) {
      var e := Decimal(d.coefficient / 10, d.scale - 1);
      PrintShorten(e);
      PrintStep(d, e);
    }
  }

  lemma PrintStep(d: Decimal, e: Decimal)
    requires d == Decimal(10 * e.coefficient, e.scale + 1)
    ensures Print(d) == Print(e)
  {
    PrintDropsZero(e.coefficient, e.scale);
  }

  lemma SplitOfShortest(m: nat, scale: nat)
    requires m > 0 && (scale == 0 || m % 10 != 0)
    ensures var (whole, fraction) := Split(m, scale);
            && IsWhole(whole) && |fraction| == scale && NatOf(whole + fraction) == m
  {
    var text := TextOf(m);
    var digits := PadStart(text, scale + 1);
    NatOfPadStart(text, scale + 1);
    assert digits[|digits| - 1] == text[|text| - 1];
    assert NatOf(text) % 10 == DigitValue(text[|text| - 1]);
    var fraction := digits[|digits| - scale..];
    assert scale > 0 ==> fraction[|fraction| - 1] != '0';
    assert digits == digits[..|digits| - scale] + fraction;
    assert TextOf(0) == "0";
  }

  lemma {:induction false} PointAfter(whole: string, rest: string)
    requires AllDigits(whole) && (rest == "" || rest[0] == '.')
    ensures PointAt(whole + rest) == |whole|
  {
    if whole == "" {
      assert whole + rest == rest;
    } else {
      PointAfter(whole[1..], rest);
      assert (whole + rest)[1..] == whole[1..] + rest;
    }
  }

  function Sign(negative: bool): string {
    if negative then "-" else ""
  }

  function Signed(negative: bool, magnitude: int): int {
    if negative then -magnitude else magnitude
  }

  lemma ParseSigned(negative: bool, unsigned: string)
    requires unsigned != "" && unsigned[0] != '-'
    ensures Parse(Sign(negative) + unsigned) == ParseUnsigned(negative, unsigned)
  {
    var text := Sign(negative) + unsigned;
    if negative {
      assert text[1..] == unsigned;
    } else {
      assert text == unsigned;
    }
  }

  /** What Parse makes of a whole part and a fraction. */
  lemma ParseParts(negative: bool, whole: string, fraction: string)
    requires IsWhole(whole) && AllDigits(fraction) && AllDigits(whole + fraction)
    ensures ParseUnsigned(negative, whole + Tail(fraction)) ==
            Some(Decimal(Signed(negative, NatOf(whole + fraction)), |fraction|))
  {
    var unsigned := whole + Tail(fraction);
    PointAfter(whole, Tail(fraction));
    assert unsigned[..|whole|] == whole;
    if fraction != "" {
      assert unsigned[|whole| + 1..] == fraction;
    }
  }

  lemma ParseWhole(text: string)
    requires IsWhole(text)
    ensures Parse(text) == Some(Decimal(NatOf(text), 0))
  {
    hide NatOf;
    assert text + "" == text && text + Tail("") == text && Sign(false) + text == text;
    ParseParts(false, text, "");
    ParseSigned(false, text);
  }

  lemma ParsePrintZero(scale: nat)
    ensures Parse(Print(Decimal(0, scale))) == Some(Decimal(0, 0))
  {
    ParseParts(false, "0", "");
    ParseSigned(false, "0");
    assert "0" + "" == "0" && "0" + Tail("") == "0" && Sign(false) + "0" == "0";
  }

  lemma ParsePrintShortest(d: Decimal)
    requires Shortest(d) && d.coefficient != 0
    ensures Parse(Print(d)) == Some(d)
  {
    var m: int, negative := Abs(d.coefficient), d.coefficient < 0;
    SplitOfShortest(m, d.scale);
    ParseSplit(negative, m, d.scale);
    assert Signed(negative, m) == d.coefficient;
    assert Print(d) == PrintParts(negative, Split(m, d.scale));
  }

  lemma ParseSplit(negative: bool, m: nat, scale: nat)
    requires var parts := Split(m, scale);
             && IsWhole(parts.0) && |parts.1| == scale && AllDigits(parts.0 + parts.1) && NatOf(parts.0 + parts.1) == m
    ensures Parse(PrintParts(negative, Split(m, scale))) == Some(Decimal(Signed(negative, m), scale))
  {
    var parts := Split(m, scale);
    ParseParts(negative, parts.0, parts.1);
    ParseSigned(negative, parts.0 + Tail(parts.1));
  }

  /** Writing a decimal and reading it back gives the same rational, in its shortest form. */
  lemma ParsePrint(d: Decimal)
    ensures Parse(Print(d)).Some?
    ensures Value(Parse(Print(d)).value) == Value(d)
    ensures Shortest(Parse(Print(d)).value)
  {
    var e := Shorten(d);
    PrintShorten(d);
    ShortenKeepsValue(d);
    if e.coefficient == 0 {
      ParsePrintZero(e.scale);
      ValueIs(e, 0.0);
      ValueIs(Decimal(0, 0), 0.0);
    } else {
      ParsePrintShortest(e);
    }
  }

  /** decimalText is a normal form: equal texts exactly for equal rationals. */
  lemma PrintIsNormalForm(a: Decimal, b: Decimal)
    ensures Print(a) == Print(b) <==> Value(a) == Value(b)
  {
    ParsePrint(a);
    ParsePrint(b);
    if Value(a) == Value(b) {
      PrintShorten(a);
      PrintShorten(b);
      ShortenKeepsValue(a);
      ShortenKeepsValue(b);
      ShortestIsUnique(Shorten(a), Shorten(b));
    }
  }

  // ---------------------------------------------------------------- rounding

  function Abs(n: int): (r: nat) {
    if n < 0 then -n else n
  }

  /** BigInt division truncates toward zero, and the remainder takes the dividend's sign. */
  function TruncDiv(n: int, d: int): int
    requires d != 0
  {
    var q: int := Abs(n) / Abs(d);
    if (n < 0) != (d < 0) then -q else q
  }

  function TruncMod(n: int, d: int): int
    requires d != 0
  {
    var r: int := Abs(n) % Abs(d);
    if n < 0 then -r else r
  }

  function RoundedQuotient(numerator: int, denominator: int): int
    requires denominator != 0
  {
    var n: int, d: int := Abs(numerator), Abs(denominator);
    var quotient := n / d;
    var comparison := n % d * 2 - d;
    var rounded: int := if comparison > 0 || (comparison == 0 && quotient % 2 != 0) then quotient + 1 else quotient;
    if (numerator < 0) != (denominator < 0) then -rounded else rounded
  }

  /** q is the nearest multiple count of d to n, an exact half going to the even one. */
  predicate NearestEven(q: int, d: int, n: int) {
    2 * Abs(q * d - n) <= Abs(d) && (2 * Abs(q * d - n) == Abs(d) ==> q % 2 == 0)
  }

  lemma NearestOfParts(n: int, d: int, q: int, r: int)
    requires d > 0 && 0 <= r < d && n == q * d + r
    ensures r * 2 - d < 0 || (r * 2 - d == 0 && q % 2 == 0) ==> NearestEven(q, d, n)
    ensures r * 2 - d > 0 || (r * 2 - d == 0 && q % 2 != 0) ==> NearestEven(q + 1, d, n)
  {
    assert (q + 1) * d == q * d + d;
  }

  lemma NearestSigns(q: int, d: int, n: int)
    ensures NearestEven(q, d, n) == NearestEven(-q, d, -n)
    ensures NearestEven(q, d, n) == NearestEven(-q, -d, n)
    ensures NearestEven(q, d, n) == NearestEven(q, -d, -n)
  {
    assert (-q) * d == -(q * d) && (-q) * (-d) == q * d && q * (-d) == -(q * d);
  }

  /** Round half to even: within half a unit, and on an exact half the result is even. */
  lemma RoundedQuotientIsNearest(n: int, d: int)
    requires d != 0
    ensures NearestEven(RoundedQuotient(n, d), d, n)
  {
    var an: int, ad: int := Abs(n), Abs(d);
    assert an == (an / ad) * ad + an % ad;
    NearestOfParts(an, ad, an / ad, an % ad);
    var rounded := RoundedQuotient(an, ad);
    assert NearestEven(rounded, ad, an);
    NearestSigns(rounded, ad, an);
  }

  datatype Rounding = Exact | Nearest | Floor | Ceil

  function ToInteger(v: Decimal, mode: Rounding): Option<int> {
    if v.scale == 0 then Some(v.coefficient)
    else
      var factor := Pow10(v.scale);
      var quotient, remainder := TruncDiv(v.coefficient, factor), TruncMod(v.coefficient, factor);
      match mode
      case Exact => if remainder != 0 then None else Some(quotient)
      case Floor => Some(if remainder != 0 && v.coefficient < 0 then quotient - 1 else quotient)
      case Ceil => Some(if remainder != 0 && v.coefficient > 0 then quotient + 1 else quotient)
      case Nearest => Some(RoundedQuotient(v.coefficient, factor))
  }

  lemma NegatedProduct(q: int, d: int)
    ensures (-q) * d == -(q * d)
  {
  }

  lemma Truncation(n: int, d: int)
    requires d > 0
    ensures n == TruncDiv(n, d) * d + TruncMod(n, d)
    ensures -d < TruncMod(n, d) < d && (TruncMod(n, d) > 0 ==> n > 0) && (TruncMod(n, d) < 0 ==> n < 0)
  {
    if n >= 0 {
      DivMod(n, d);
    } else {
      DivMod(-n, d);
      NegatedProduct((-n) / d, d);
    }
  }

  lemma DivMod(n: int, d: int)
    requires n >= 0 && d > 0
    ensures n == (n / d) * d + n % d && 0 <= n % d < d
  {
  }

  /** The distance from a value to an integer, in units of the last digit. */
  lemma Distance(v: Decimal, q: int, x: real)
    requires x == q as real - Value(v)
    ensures x * Power(v.scale) == (q * Pow10(v.scale) - v.coefficient) as real
  {
    ValueTimes(v);
    Distribute(q as real, Value(v), Power(v.scale));
    IntegerProduct(q, Pow10(v.scale));
  }

  /** An integer distance measured in units of p is the same distance in reals. */
  lemma Measured(x: real, p: real, delta: int, unit: int)
    requires p > 0.0 && unit as real == p && x * p == delta as real
    ensures x < 1.0 <==> delta < unit
    ensures x > -1.0 <==> delta > -unit
    ensures x < 0.0 <==> delta < 0
    ensures x > 0.0 <==> delta > 0
    ensures x < 0.5 <==> 2 * delta < unit
    ensures x > 0.5 <==> 2 * delta > unit
    ensures x < -0.5 <==> 2 * delta < -unit
    ensures x > -0.5 <==> 2 * delta > -unit
  {
    OrderOfScaled(x, 1.0, p, delta, unit);
    OrderOfScaled(x, -1.0, p, delta, -unit);
    OrderOfScaled(x, 0.0, p, delta, 0);
    OrderOfScaled(x + x, 1.0, p, 2 * delta, unit);
    OrderOfScaled(x + x, -1.0, p, 2 * delta, -unit);
  }

  lemma Neighbours(q: int, d: int)
    ensures (q + 1) * d == q * d + d && (q - 1) * d == q * d - d
  {
  }

  /** The integer bounds behind floor and ceil. */
  lemma FloorAndCeilUnits(v: Decimal)
    ensures ToInteger(v, Floor).Some? && ToInteger(v, Ceil).Some?
    ensures var delta := ToInteger(v, Floor).value * Pow10(v.scale) - v.coefficient;
            0 < delta + Pow10(v.scale)
            && delta <= 0
    ensures var delta := ToInteger(v, Ceil).value * Pow10(v.scale) - v.coefficient; 0 <= delta < Pow10(v.scale)
  {
    var unit := Pow10(v.scale);
    if v.scale > 0 {
      Truncation(v.coefficient, unit);
      Neighbours(TruncDiv(v.coefficient, unit), unit);
    }
  }

  /** floor and ceil are the mathematical ones, for negative values too. */
  lemma FloorAndCeil(v: Decimal)
    ensures var floor := ToInteger(v, Floor);
            floor.Some? && floor.value as real <= Value(v) < floor.value as real + 1.0
    ensures var ceil := ToInteger(v, Ceil);
            ceil.Some? && ceil.value as real - 1.0 < Value(v) <= ceil.value as real
  {
    FloorAndCeilUnits(v);
    Located(v, ToInteger(v, Floor).value);
    Located(v, ToInteger(v, Ceil).value);
  }

  /** Where an integer lies with respect to a value, read off in units of the last digit. */
  lemma Located(v: Decimal, n: int)
    ensures var delta, unit: int := n * Pow10(v.scale) - v.coefficient, Pow10(v.scale);
            var x := n as real - Value(v);
            && (x < 1.0 <==> delta < unit) && (x > -1.0 <==> delta > -unit)
            && (x <= 0.0 <==> delta <= 0) && (x >= 0.0 <==> delta >= 0)
            && (x <= 0.5 <==> 2 * delta <= unit) && (x >= -0.5 <==> 2 * delta >= -unit)
            && (x >= 0.5 <==> 2 * delta >= unit) && (x <= -0.5 <==> 2 * delta <= -unit)
  {
    var delta, x := n * Pow10(v.scale) - v.coefficient, n as real - Value(v);
    Distance(v, n, x);
    Measured(x, Power(v.scale), delta, Pow10(v.scale));
  }

  ghost predicate IsInteger(x: real) {
    x.Floor as real == x
  }

  /** The exact conversion succeeds exactly on whole values. */
  lemma ExactIsWhole(v: Decimal)
    ensures ToInteger(v, Exact).Some? <==> IsInteger(Value(v))
    ensures ToInteger(v, Exact).Some? ==> ToInteger(v, Exact).value as real == Value(v)
  {
    var unit, exact := Pow10(v.scale), ToInteger(v, Exact);
    if v.scale > 0 {
      Truncation(v.coefficient, unit);
    }
    if exact.Some? {
      Located(v, exact.value);
    }
    if IsInteger(Value(v)) && v.scale > 0 {
      var n := Value(v).Floor;
      Located(v, n);
      WholeMultiple(v.coefficient, n, TruncDiv(v.coefficient, unit), TruncMod(v.coefficient, unit), unit);
    }
  }

  lemma Monotone(a: int, b: int, d: int)
    requires d > 0
    ensures a <= b ==> a * d <= b * d
  {
  }

  lemma WholeMultiple(c: int, n: int, q: int, r: int, unit: int)
    requires unit > 0 && n * unit == c && c == q * unit + r && -unit < r < unit
    ensures r == 0
  {
    var k := n - q;
    assert k * unit == r by { assert k * unit == n * unit - q * unit; }
    Monotone(1, k, unit);
    Monotone(k, -1, unit);
  }

  /** round goes to the nearest integer, an exact half to the even one. */
  lemma RoundIsNearestEven(v: Decimal)
    ensures var near := ToInteger(v, Nearest);
            && near.Some? && -0.5 <= near.value as real - Value(v) <= 0.5
            && (near.value as real - Value(v) == 0.5 || near.value as real - Value(v) == -0.5 ==> near.value % 2 == 0)
  {
    if v.scale > 0 {
      RoundedQuotientIsNearest(v.coefficient, Pow10(v.scale));
    }
    Located(v, ToInteger(v, Nearest).value);
  }

  /** An integer distance of at most half the divisor is a real distance of at most one half. */
  lemma HalfUnit(x: real, delta: int, d: int)
    requires d != 0 && delta as real == x * d as real
    requires 2 * Abs(delta) <= Abs(d)
    ensures -0.5 <= x <= 0.5
    ensures (x == 0.5 || x == -0.5) ==> 2 * Abs(delta) == Abs(d)
  {
    if d > 0 {
      Measured(x, d as real, delta, d);
    } else {
      assert x * (-d) as real == -(x * d as real);
      Measured(x, (-d) as real, -delta, -d);
    }
  }

  const DIVIDE_SCALE: nat := 6

  lemma NonZeroProduct(a: int, b: int)
    requires a != 0 && b != 0
    ensures a * b != 0
  {
  }

  /** safe_divide: None stands for the null produced by a zero divisor. */
  function SafeDivide(a: Decimal, b: Decimal): (r: Option<Decimal>)
    ensures r.None? <==> b.coefficient == 0
  {
    if b.coefficient == 0 then None
    else
      NonZeroProduct(b.coefficient, Pow10(a.scale));
      var numerator := a.coefficient * Pow10(b.scale + DIVIDE_SCALE);
      var denominator := b.coefficient * Pow10(a.scale);
      Some(Decimal(RoundedQuotient(numerator, denominator), DIVIDE_SCALE))
  }

  lemma CrossProduct(x: real, y: real, u: real, v: real, p: real, q: real, w: real, t: real)
    requires u * p == x && v * q == y && w * v == u
    ensures (w * t) * (y * p) == x * (q * t)
  {
    assert w * y == w * (v * q) == (w * v) * q == u * q;
    assert (w * t) * (y * p) == (w * y) * (p * t);
    assert (u * q) * (p * t) == (u * p) * (q * t);
  }

  /** The integer division behind safe_divide has the true quotient w, scaled up by a million. */
  lemma TrueQuotient(a: Decimal, b: Decimal, w: real)
    requires w * Value(b) == Value(a)
    ensures (w * Power(DIVIDE_SCALE)) * (b.coefficient * Pow10(a.scale)) as real
            == (a.coefficient * Pow10(b.scale + DIVIDE_SCALE)) as real
  {
    ValueTimes(a);
    ValueTimes(b);
    PowerSum(b.scale, DIVIDE_SCALE);
    IntegerProduct(b.coefficient, Pow10(a.scale));
    IntegerProduct(a.coefficient, Pow10(b.scale + DIVIDE_SCALE));
    CrossProduct(a.coefficient as real, b.coefficient as real, Value(a), Value(b),
      Power(a.scale), Power(b.scale), w, Power(DIVIDE_SCALE));
  }

  /** How far a decimal lies from an exact result, counted in units of its own last digit. */
  ghost function ErrorOf(r: Decimal, exact: real): real {
    (Value(r) - exact) * Power(r.scale)
  }

  lemma ErrorInUnits(r: Decimal, exact: real, d: int, n: int)
    requires (exact * Power(r.scale)) * d as real == n as real
    ensures ErrorOf(r, exact) * d as real == (r.coefficient * d - n) as real
  {
    var p, q := Power(r.scale), r.coefficient as real;
    ValueTimes(r);
    Distribute(Value(r), exact, p);
    Distribute(q, exact * p, d as real);
    IntegerProduct(r.coefficient, d);
  }

  lemma NearestEvenInUnits(r: Decimal, exact: real, d: int, n: int)
    requires d != 0 && (exact * Power(r.scale)) * d as real == n as real
    requires NearestEven(r.coefficient, d, n)
    ensures -0.5 <= ErrorOf(r, exact) <= 0.5
    ensures ErrorOf(r, exact) == 0.5 || ErrorOf(r, exact) == -0.5 ==> r.coefficient % 2 == 0
  {
    ErrorInUnits(r, exact, d, n);
    HalfUnit(ErrorOf(r, exact), r.coefficient * d - n, d);
  }

  lemma SafeDivideUnits(a: Decimal, b: Decimal)
    requires b.coefficient != 0
    ensures b.coefficient * Pow10(a.scale) != 0
    ensures SafeDivide(a, b).value.scale == DIVIDE_SCALE
    ensures NearestEven(SafeDivide(a, b).value.coefficient, b.coefficient * Pow10(a.scale),
            a.coefficient * Pow10(b.scale + DIVIDE_SCALE))
  {
    NonZeroProduct(b.coefficient, Pow10(a.scale));
    RoundedQuotientIsNearest(a.coefficient * Pow10(b.scale + DIVIDE_SCALE), b.coefficient * Pow10(a.scale));
  }

  /** The result is within half of a millionth of the true quotient w, an exact half going to the even digit. */
  lemma SafeDivideIsNearestEven(a: Decimal, b: Decimal, w: real)
    requires b.coefficient != 0 && w * Value(b) == Value(a)
    ensures var r := SafeDivide(a, b).value;
            && r.scale == DIVIDE_SCALE && -0.5 <= ErrorOf(r, w) <= 0.5
            && (ErrorOf(r, w) == 0.5 || ErrorOf(r, w) == -0.5 ==> r.coefficient % 2 == 0)
  {
    hide Pow10, SafeDivide, NearestEven, Value, ErrorOf;
    TrueQuotient(a, b, w);
    SafeDivideUnits(a, b);
    NearestEvenInUnits(SafeDivide(a, b).value, w, b.coefficient * Pow10(a.scale),
      a.coefficient * Pow10(b.scale + DIVIDE_SCALE));
  }

  /** The aggregate average: half away from zero at six more digits than the sum carries. */
  function Average(sum: Decimal, count: nat): Decimal
    requires count > 0
  {
    var numerator := sum.coefficient * Pow10(DIVIDE_SCALE);
    var quotient, remainder := TruncDiv(numerator, count), TruncMod(numerator, count);
    var rounded := if Abs(remainder) * 2 >= count then quotient + (if numerator < 0 then -1 else 1) else quotient;
    Decimal(rounded, sum.scale + DIVIDE_SCALE)
  }

  lemma AverageUnits(sum: Decimal, count: nat)
    requires count > 0
    ensures var delta := Average(sum, count).coefficient * count - sum.coefficient * Pow10(DIVIDE_SCALE);
            && 2 * Abs(delta) <= count
            && (2 * delta == count ==> sum.coefficient > 0) && (2 * delta + count == 0 ==> sum.coefficient < 0)
  {
    var numerator := sum.coefficient * Pow10(DIVIDE_SCALE);
    Truncation(numerator, count);
    Neighbours(TruncDiv(numerator, count), count);
    ProductSign(sum.coefficient, Pow10(DIVIDE_SCALE));
  }

  lemma ProductSign(a: int, b: int)
    requires b > 0
    ensures a > 0 <==> a * b > 0
    ensures a < 0 <==> a * b < 0
  {
  }

  /** The integer division behind the average has the true quotient, scaled up to the result's digits. */
  lemma TrueAverage(sum: Decimal, count: nat)
    requires count > 0
    ensures ((Value(sum) / count as real) * Power(sum.scale + DIVIDE_SCALE)) * count as real
            == (sum.coefficient * Pow10(DIVIDE_SCALE)) as real
  {
    var c, v, p, u := count as real, Value(sum), Power(sum.scale), Power(DIVIDE_SCALE);
    ValueTimes(sum);
    PowerSum(sum.scale, DIVIDE_SCALE);
    IntegerProduct(sum.coefficient, Pow10(DIVIDE_SCALE));
    Quotient(v, c);
    Exchange(v / c, p * u, c, 1.0);
    Associate(v, p, u);
  }

  lemma HalfAwayInUnits(r: Decimal, exact: real, d: int, n: int)
    requires d > 0 && (exact * Power(r.scale)) * d as real == n as real
    requires 2 * Abs(r.coefficient * d - n) <= d
    ensures -0.5 <= ErrorOf(r, exact) <= 0.5
    ensures ErrorOf(r, exact) == 0.5 ==> 2 * (r.coefficient * d - n) == d
    ensures ErrorOf(r, exact) == -0.5 ==> 2 * (r.coefficient * d - n) == -d
  {
    ErrorInUnits(r, exact, d, n);
    Measured(ErrorOf(r, exact), d as real, r.coefficient * d - n, d);
  }

  /** The average is within half a unit of its last digit, an exact half moving away from zero. */
  lemma AverageIsNearest(sum: Decimal, count: nat)
    requires count > 0
    ensures var r := Average(sum, count);
            var error := ErrorOf(r, Value(sum) / count as real);
            && r.scale == sum.scale + DIVIDE_SCALE && -0.5 <= error <= 0.5
            && (error == 0.5 ==> sum.coefficient > 0) && (error == -0.5 ==> sum.coefficient < 0)
  {
    AverageUnits(sum, count);
    TrueAverage(sum, count);
    HalfAwayInUnits(Average(sum, count), Value(sum) / count as real, count, sum.coefficient * Pow10(DIVIDE_SCALE));
  }
}
