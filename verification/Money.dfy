/** HBAR amounts: the client's conversions by arithmetic (x402-cli/src/money.ts) and the backend's by
    text (http/control/deployment.controller.ts). */
module Money {
  import opened Wrappers
  import opened Digits
  import opened Decimals

  const FRACTION_DIGITS: nat := 8
  const TINYBARS_PER_HBAR: nat := 100_000_000

  /** What follows the first point, or nothing. */
  function AfterPoint(text: string): string {
    var point := PointAt(text);
    if point < |text| then text[point + 1..] else ""
  }

  /** The pattern (0|[1-9][0-9]*)(\.[0-9]{1,8})?. */
  predicate IsHbarText(text: string) {
    var point, fraction := PointAt(text), AfterPoint(text);
    IsWhole(text[..point]) && AllDigits(fraction) && |fraction| <= FRACTION_DIGITS
      && (point < |text| ==> fraction != "")
  }

  /** hbarToTinybars on trimmed text; None stands for the thrown error. */
  function HbarToTinybars(text: string): Option<nat> {
    if !IsHbarText(text) then None
    else
      var fraction := PadEnd(AfterPoint(text), FRACTION_DIGITS);
      assert AllDigits(fraction);
      assert AllDigits(text[..PointAt(text)]);
      Some(NatOf(text[..PointAt(text)]) * TINYBARS_PER_HBAR + NatOf(fraction))
  }

  function TinybarsToHbar(atomic: int): string {
    var absolute := Abs(atomic);
    var whole, rest := absolute / TINYBARS_PER_HBAR, absolute % TINYBARS_PER_HBAR;
    Sign(atomic < 0) + (TextOf(whole) + Tail(StripTrailingZeros(PadStart(TextOf(rest), FRACTION_DIGITS))))
  }

  // ---------------------------------------------------------------- the client's round trips

  lemma TinybarsArePower()
    ensures Pow10(FRACTION_DIGITS) == TINYBARS_PER_HBAR
  {
    assert Pow10(4) == 10_000;
    Pow10Sum(4, 4);
  }

  /** What an accepted text is made of. */
  lemma HbarParts(whole: string, fraction: string)
    requires IsWhole(whole) && AllDigits(fraction) && |fraction| <= FRACTION_DIGITS && AllDigits(whole)
    ensures AllDigits(PadEnd(fraction, FRACTION_DIGITS))
    ensures HbarToTinybars(whole + Tail(fraction)) ==
            Some(NatOf(whole) * TINYBARS_PER_HBAR + NatOf(PadEnd(fraction, FRACTION_DIGITS)))
  {
    hide NatOf, PadEnd;
    var text := whole + Tail(fraction);
    PointAfter(whole, Tail(fraction));
    assert text[..|whole|] == whole;
    if fraction != "" {
      assert text[|whole| + 1..] == fraction;
    }
    assert AfterPoint(text) == fraction;
  }

  lemma DigitsBound(text: string, bound: nat)
    requires IsWhole(text) && NatOf(text) < Pow10(bound) && bound > 0
    ensures |text| <= bound
    decreases bound
  {
    if bound == 1 {
      TextOfNatOf(text);
    } else if |text| > 1 {
      var front := text[..|text| - 1];
      assert NatOf(front) == NatOf(text) / 10;
      assert front[0] != '0' && IsWhole(front);
      DigitsBound(front, bound - 1);
    }
  }

  /** Stripping trailing zeros and padding them back is the identity at a fixed width. */
  lemma RestoreZeros(digits: string)
    ensures PadEnd(StripTrailingZeros(digits), |digits|) == digits
  {
    hide StripTrailingZeros, AllDigits;
    var stripped := StripTrailingZeros(digits);
    assert digits[..|stripped|] == stripped;
    assert digits[|stripped|..] == Zeros(|digits| - |stripped|);
    assert digits == digits[..|stripped|] + digits[|stripped|..];
  }

  lemma PadExactly(n: nat)
    requires n < TINYBARS_PER_HBAR
    ensures |PadStart(TextOf(n), FRACTION_DIGITS)| == FRACTION_DIGITS
    ensures AllDigits(PadStart(TextOf(n), FRACTION_DIGITS)) && NatOf(PadStart(TextOf(n), FRACTION_DIGITS)) == n
  {
    TinybarsArePower();
    DigitsBound(TextOf(n), FRACTION_DIGITS);
    NatOfPadStart(TextOf(n), FRACTION_DIGITS);
  }

  /** Writing an amount and reading it back gives the same amount. */
  lemma TinybarsRoundTrip(n: nat)
    ensures HbarToTinybars(TinybarsToHbar(n)) == Some(n)
  {
    hide NatOf, TextOf, PadStart, PadEnd, StripTrailingZeros, HbarToTinybars;
    var whole, rest := n / TINYBARS_PER_HBAR, n % TINYBARS_PER_HBAR;
    var digits := PadStart(TextOf(rest), FRACTION_DIGITS);
    var fraction := StripTrailingZeros(digits);
    PadExactly(rest);
    RestoreZeros(digits);
    HbarParts(TextOf(whole), fraction);
    assert Sign(false) + (TextOf(whole) + Tail(fraction)) == TextOf(whole) + Tail(fraction);
  }

  /** Reading a text and writing the amount gives the shortest text of the same number. */
  lemma HbarRoundTrip(text: string)
    requires HbarToTinybars(text).Some?
    ensures Parse(text).Some?
    ensures TinybarsToHbar(HbarToTinybars(text).value) == Print(Parse(text).value)
    ensures Value(Parse(text).value) == Value(Decimal(HbarToTinybars(text).value, FRACTION_DIGITS))
  {
    var n := HbarToTinybars(text).value;
    HbarIsDecimal(text);
    TinybarsArePrinted(n);
    PrintIsNormalForm(Decimal(n, FRACTION_DIGITS), Parse(text).value);
  }

  /** An accepted text is a decimal, and its amount is that decimal counted in tinybars. */
  lemma HbarIsDecimal(text: string)
    requires HbarToTinybars(text).Some?
    ensures Parse(text).Some?
    ensures Value(Parse(text).value) == Value(Decimal(HbarToTinybars(text).value, FRACTION_DIGITS))
  {
    hide NatOf, Value, PadEnd, Pow10;
    var whole, fraction := text[..PointAt(text)], AfterPoint(text);
    assert AllDigits(whole);
    NatOfConcat(whole, fraction);
    assert text[0] != '-' by { assert whole[0] == text[0]; }
    var d := Decimal(NatOf(whole + fraction), |fraction|);
    var extra := FRACTION_DIGITS - |fraction|;
    assert Parse(text) == Some(d);
    NatOfPadEnd(fraction, FRACTION_DIGITS);
    Pow10Sum(|fraction|, extra);
    TinybarsArePower();
    Regroup(NatOf(whole), NatOf(fraction), Pow10(|fraction|), Pow10(extra));
    ScaleUp(d, extra);
  }

  lemma Regroup(a: int, b: int, p: int, q: int)
    ensures (a * p + b) * q == a * (p * q) + b * q
  {
  }

  lemma {:induction false} CutDigits(digits: string, k: nat)
    requires AllDigits(digits) && k <= |digits|
    ensures AllDigits(digits[..|digits| - k]) && AllDigits(digits[|digits| - k..])
    ensures NatOf(digits) == NatOf(digits[..|digits| - k]) * Pow10(k) + NatOf(digits[|digits| - k..])
    ensures NatOf(digits[|digits| - k..]) < Pow10(k)
  {
    hide NatOf;
    var head, tail := digits[..|digits| - k], digits[|digits| - k..];
    assert digits == head + tail;
    NatOfConcat(head, tail);
    NatOfBound(tail);
  }

  lemma QuotientIs(n: nat, d: nat, q: nat, r: nat)
    requires n == q * d + r && r < d
    ensures n / d == q && n % d == r
  {
    var k := n / d - q;
    assert k * d == r - n % d by { assert (n / d) * d == n - n % d; assert k * d == (n / d) * d - q * d; }
    if k >= 1 { Monotone(1, k, d); }
    if k <= -1 { Monotone(k, -1, d); }
  }

  /** The digits of an amount, cut eight places from the end, are its whole part and its remainder. */
  lemma DigitsOfAmount(n: nat)
    ensures var digits := PadStart(TextOf(n), FRACTION_DIGITS + 1);
            var at := |digits| - FRACTION_DIGITS;
            && TextOf(n / TINYBARS_PER_HBAR) == digits[..at]
            && PadStart(TextOf(n % TINYBARS_PER_HBAR), FRACTION_DIGITS) == digits[at..]
  {
    hide NatOf, TextOf, PadStart, Pow10;
    var text := TextOf(n);
    var digits := PadStart(text, FRACTION_DIGITS + 1);
    var at := |digits| - FRACTION_DIGITS;
    NatOfPadStart(text, FRACTION_DIGITS + 1);
    CutDigits(digits, FRACTION_DIGITS);
    TinybarsArePower();
    QuotientIs(n, TINYBARS_PER_HBAR, NatOf(digits[..at]), NatOf(digits[at..]));
    HeadIsWhole(n);
    TextOfNatOf(digits[..at]);
    PadRestored(digits[at..]);
  }

  lemma TinybarsText(n: nat)
    ensures TinybarsToHbar(n) == Sign(false) + (TextOf(n / TINYBARS_PER_HBAR)
            + Tail(StripTrailingZeros(PadStart(TextOf(n % TINYBARS_PER_HBAR), FRACTION_DIGITS))))
  {
    hide NatOf, TextOf, PadStart, StripTrailingZeros, AllDigits, Sign, Tail;
    assert Abs(n) == n;
  }

  lemma PrintText(n: nat, scale: nat)
    requires n > 0
    ensures var digits := PadStart(TextOf(n), scale + 1);
            Print(Decimal(n, scale)) == Sign(false) +
              (digits[..|digits| - scale] + Tail(StripTrailingZeros(digits[|digits| - scale..])))
  {
    hide NatOf, TextOf, PadStart, StripTrailingZeros, AllDigits, Sign, Tail;
    assert Abs(n) == n;
  }

  /** Amounts are written by arithmetic exactly as exact decimals of eight digits are written from their text. */
  lemma TinybarsArePrinted(n: nat)
    ensures TinybarsToHbar(n) == Print(Decimal(n, FRACTION_DIGITS))
  {
    hide NatOf, TextOf, PadStart, StripTrailingZeros, AllDigits, Sign, Tail, Split, PrintParts;
    if n == 0 {
      ZeroText();
    } else {
      DigitsOfAmount(n);
      TinybarsText(n);
      PrintText(n, FRACTION_DIGITS);
    }
  }

  lemma HeadIsWhole(n: nat)
    ensures var digits := PadStart(TextOf(n), FRACTION_DIGITS + 1); IsWhole(digits[..|digits| - FRACTION_DIGITS])
  {
    hide NatOf;
    var text := TextOf(n);
    var digits := PadStart(text, FRACTION_DIGITS + 1);
    if |text| <= FRACTION_DIGITS {
      assert digits[..|digits| - FRACTION_DIGITS] == "0";
    }
  }

  lemma PadRestored(digits: string)
    requires AllDigits(digits) && |digits| == FRACTION_DIGITS
    ensures PadStart(TextOf(NatOf(digits)), FRACTION_DIGITS) == digits
  {
    hide NatOf, TextOf, PadStart;
    NatOfBound(digits);
    TinybarsArePower();
    PadExactly(NatOf(digits));
    SameDigits(PadStart(TextOf(NatOf(digits)), FRACTION_DIGITS), digits);
  }

  /** Digit strings of one length are equal as soon as their numbers are. */
  lemma {:induction false} SameDigits(a: string, b: string)
    requires AllDigits(a) && AllDigits(b) && |a| == |b| && NatOf(a) == NatOf(b)
    ensures a == b
  {
    if a != "" {
      var k := |a| - 1;
      assert DigitValue(a[k]) == DigitValue(b[k]);
      SameDigits(a[..k], b[..k]);
      assert a == a[..k] + [a[k]] && b == b[..k] + [b[k]];
    }
  }

  lemma {:induction false} StripOfZeros(n: nat)
    ensures StripTrailingZeros(Zeros(n)) == ""
  {
    if n > 0 {
      StripOfZeros(n - 1);
      assert Zeros(n)[..n - 1] == Zeros(n - 1);
    }
  }

  lemma PaddedZero(n: nat)
    requires n > 0
    ensures PadStart("0", n) == Zeros(n)
  {
    var padded := PadStart("0", n);
    forall i | 0 <= i < n
      ensures padded[i] == '0'
    {
    }
  }

  lemma ZeroText()
    ensures TinybarsToHbar(0) == "0"
  {
    hide StripTrailingZeros, PadStart, NatOf, TextOf, AllDigits;
    TextOfZero();
    PaddedZero(FRACTION_DIGITS);
    StripOfZeros(FRACTION_DIGITS);
    TinybarsText(0);
    assert "" + ("0" + "") == "0";
  }

  lemma TextOfZero()
    ensures TextOf(0) == "0"
  {
  }

  // ---------------------------------------------------------------- the backend's conversion

  /** The schema of a price: at most seventy whole digits and at most eight fractional ones. */
  predicate IsPriceText(text: string) {
    IsHbarText(text) && PointAt(text) <= 70
  }

  /** replace(/^0+(?=\d)/, "") on any text. */
  function DropZeros(text: string): string {
    if |text| > 1 && text[0] == '0' && IsDigit(text[1]) then DropZeros(text[1..]) else text
  }

  /** The pattern [1-9][0-9]*. */
  predicate IsPositiveWhole(text: string) {
    text != "" && AllDigits(text) && text[0] != '0'
  }

  /** hbarToTinybar: split at the points, glue whole part and padded fraction together, drop leading zeros. */
  function HbarToTinybar(text: string): Option<string> {
    var rest := AfterPoint(text);
    var fraction := rest[..PointAt(rest)];
    var atomic := DropZeros(text[..PointAt(text)] + PadEnd(fraction, FRACTION_DIGITS));
    if IsPositiveWhole(atomic) then Some(atomic) else None
  }

  /** The route's price: validated, then converted. */
  function PriceOf(trim: string -> string, text: string): Option<string> {
    if IsPriceText(trim(text)) then HbarToTinybar(trim(text)) else None
  }

  lemma {:induction false} NoPoint(text: string)
    requires AllDigits(text)
    ensures PointAt(text) == |text|
  {
    PointAfter(text, "");
    assert text + "" == text;
  }

  lemma {:induction false} DropZerosIsStrip(text: string)
    requires AllDigits(text)
    ensures DropZeros(text) == StripLeadingZeros(text)
    decreases |text|
  {
    if |text| > 1 && text[0] == '0' {
      DropZerosIsStrip(text[1..]);
    }
  }

  lemma PositiveText(text: string)
    requires IsWhole(text)
    ensures IsPositiveWhole(text) <==> NatOf(text) > 0
    ensures text == TextOf(NatOf(text))
  {
    TextOfNatOf(text);
    assert TextOf(0) == "0";
  }

  /** On every text the client accepts, the backend's text manipulation yields the client's number in
      decimal digits, or refuses it when that number is zero. */
  lemma ConversionsAgree(text: string)
    requires HbarToTinybars(text).Some?
    ensures HbarToTinybar(text) == if HbarToTinybars(text).value > 0 then Some(TextOf(HbarToTinybars(text).value))
            else None
  {
    hide NatOf, TextOf, PadEnd, Pow10, StripLeadingZeros, DropZeros;
    var whole, fraction := text[..PointAt(text)], AfterPoint(text);
    NoPoint(fraction);
    assert fraction[..|fraction|] == fraction;
    assert AllDigits(whole);
    var padded := PadEnd(fraction, FRACTION_DIGITS);
    PadEndLength(fraction);
    NatOfConcat(whole, padded);
    TinybarsArePower();
    DropZerosIsStrip(whole + padded);
    NatOfStripLeadingZeros(whole + padded);
    PositiveText(StripLeadingZeros(whole + padded));
  }

  lemma PadEndLength(fraction: string)
    requires AllDigits(fraction) && |fraction| <= FRACTION_DIGITS
    ensures |PadEnd(fraction, FRACTION_DIGITS)| == FRACTION_DIGITS && AllDigits(PadEnd(fraction, FRACTION_DIGITS))
  {
  }

  /** The backend accepts a price exactly when the client reads it as a positive amount of at most seventy
      whole digits, and then stores exactly the client's number of tinybars. */
  lemma PriceIsClientAmount(trim: string -> string, text: string)
    ensures PriceOf(trim, text).Some? <==>
              HbarToTinybars(trim(text)).Some? && HbarToTinybars(trim(text)).value > 0 && PointAt(trim(text)) <= 70
    ensures PriceOf(trim, text).Some? ==> PriceOf(trim, text) == Some(TextOf(HbarToTinybars(trim(text)).value))
  {
    hide NatOf, TextOf, HbarToTinybar;
    if IsPriceText(trim(text)) {
      ConversionsAgree(trim(text));
    }
  }

  /** Without the schema's limit the conversion alone misreads every longer fraction: each digit, however far
      behind the point, counts as a tinybar, while the client refuses the text. */
  lemma LongFractionMisread(whole: string, fraction: string)
    requires IsWhole(whole) && AllDigits(fraction) && |fraction| > FRACTION_DIGITS
    ensures var n := NatOf(whole + fraction);
            HbarToTinybar(whole + Tail(fraction)) == if n > 0 then Some(TextOf(n)) else None
    ensures HbarToTinybars(whole + Tail(fraction)) == None
  {
    hide NatOf, TextOf, StripLeadingZeros, DropZeros;
    var text, digits := whole + Tail(fraction), whole + fraction;
    PointAfter(whole, Tail(fraction));
    NoPoint(fraction);
    assert text[..|whole|] == whole && text[|whole| + 1..] == fraction;
    assert fraction[..|fraction|] == fraction;
    DropZerosIsStrip(digits);
    NatOfStripLeadingZeros(digits);
    PositiveText(StripLeadingZeros(digits));
  }
}
