/** Decimal digit strings: the arithmetic behind BigInt(text), toString, padStart, padEnd and
    the stripping of zeros, on which every exact amount in the repository is built. */
module Digits {

  function Pow10(n: nat): (p: nat)
    ensures p >= 1
  {
    if n == 0 then 1 else 10 * Pow10(n - 1)
  }

  lemma {:induction false} Pow10Sum(a: nat, b: nat)
    ensures Pow10(a + b) == Pow10(a) * Pow10(b)
  {
    if a > 0 {
      Pow10Sum(a - 1, b);
      assert Pow10(a + b) == 10 * (Pow10(a - 1) * Pow10(b));
      assert 10 * (Pow10(a - 1) * Pow10(b)) == (10 * Pow10(a - 1)) * Pow10(b);
    }
  }

  predicate IsDigit(c: char) {
    '0' <= c <= '9'
  }

  predicate AllDigits(s: string) {
    forall i | 0 <= i < |s| :: IsDigit(s[i])
  }

  /** A canonical whole number: the pattern 0 or a digit string with no leading zero. */
  predicate IsWhole(s: string) {
    |s| > 0 && AllDigits(s) && (s == "0" || s[0] != '0')
  }

  function DigitValue(c: char): (d: nat)
    requires IsDigit(c)
    ensures d < 10
  {
    (c - '0') as nat
  }

  function DigitChar(d: nat): (c: char)
    requires d < 10
    ensures IsDigit(c) && DigitValue(c) == d
  {
    '0' + d as char
  }

  /** BigInt of a digit string; the empty string counts as zero. */
  function NatOf(s: string): nat
    requires AllDigits(s)
  {
    if |s| == 0 then 0 else 10 * NatOf(s[..|s| - 1]) + DigitValue(s[|s| - 1])
  }

  /** toString of a non-negative BigInt. */
  function TextOf(n: nat): (s: string)
    ensures IsWhole(s)
    ensures NatOf(s) == n
  {
    if n < 10 then [DigitChar(n)]
    else
      var head := TextOf(n / 10);
      var text := head + [DigitChar(n % 10)];
      assert text[..|text| - 1] == head;
      assert NatOf("0") == 0;
      text
  }

  function Zeros(n: nat): (s: string)
    ensures |s| == n && AllDigits(s)
    ensures forall i | 0 <= i < n :: s[i] == '0'
  {
    seq(n, _ => '0')
  }

  function PadStart(s: string, width: nat): (r: string)
    ensures |r| >= width && |r| >= |s|
    ensures AllDigits(s) ==> AllDigits(r)
  {
    if |s| >= width then s else Zeros(width - |s|) + s
  }

  function PadEnd(s: string, width: nat): (r: string)
    ensures |r| >= width
    ensures AllDigits(s) ==> AllDigits(r)
  {
    if |s| >= width then s else s + Zeros(width - |s|)
  }

  /** replace(/0+$/, ""). */
  function StripTrailingZeros(s: string): (r: string)
    ensures r <= s
    ensures r == "" || r[|r| - 1] != '0'
    ensures forall i | |r| <= i < |s| :: s[i] == '0'
  {
    if s == "" || s[|s| - 1] != '0' then s else StripTrailingZeros(s[..|s| - 1])
  }

  /** replace(/^0+(?=\d)/, "") on a digit string. */
  function StripLeadingZeros(s: string): (r: string)
    requires AllDigits(s)
    ensures AllDigits(r)
    decreases |s|
  {
    if |s| > 1 && s[0] == '0' then StripLeadingZeros(s[1..]) else s
  }

  lemma TenTimes(a: int, b: int)
    ensures 10 * (a * b) == a * (10 * b)
  {
  }

  lemma {:induction false} NatOfConcat(a: string, b: string)
    requires AllDigits(a) && AllDigits(b)
    ensures AllDigits(a + b)
    ensures NatOf(a + b) == NatOf(a) * Pow10(|b|) + NatOf(b)
  {
    if |b| == 0 {
      assert a + b == a;
    } else {
      var front := b[..|b| - 1];
      NatOfConcat(a, front);
      assert (a + b)[..|a + b| - 1] == a + front;
      TenTimes(NatOf(a), Pow10(|front|));
    }
  }

  lemma {:induction false} NatOfZeros(n: nat)
    ensures NatOf(Zeros(n)) == 0
  {
    if n > 0 {
      NatOfZeros(n - 1);
      assert Zeros(n)[..n - 1] == Zeros(n - 1);
    }
  }

  lemma {:induction false} NatOfBound(s: string)
    requires AllDigits(s)
    ensures NatOf(s) < Pow10(|s|)
  {
    if |s| > 0 {
      NatOfBound(s[..|s| - 1]);
    }
  }

  lemma NatOfPadStart(s: string, width: nat)
    requires AllDigits(s)
    ensures NatOf(PadStart(s, width)) == NatOf(s)
  {
    if |s| < width {
      var zeros := Zeros(width - |s|);
      NatOfZeros(width - |s|);
      NatOfConcat(zeros, s);
      assert NatOf(zeros) * Pow10(|s|) == 0;
    }
  }

  lemma NatOfPadEnd(s: string, width: nat)
    requires AllDigits(s) && |s| <= width
    ensures NatOf(PadEnd(s, width)) == NatOf(s) * Pow10(width - |s|)
  {
    NatOfConcat(s, Zeros(width - |s|));
    NatOfZeros(width - |s|);
    if |s| == width {
      assert s + Zeros(0) == s;
    }
  }

  lemma {:induction false} NatOfStripLeadingZeros(s: string)
    requires AllDigits(s)
    ensures NatOf(StripLeadingZeros(s)) == NatOf(s)
    ensures |s| > 0 ==> IsWhole(StripLeadingZeros(s))
    decreases |s|
  {
    if |s| > 1 && s[0] == '0' {
      NatOfStripLeadingZeros(s[1..]);
      NatOfConcat(s[..1], s[1..]);
      assert s == s[..1] + s[1..];
      assert NatOf(s[..1]) == 0;
    }
  }

  /** Canonical whole numbers are exactly the outputs of toString: reading one back gives the same text. */
  lemma {:induction false} TextOfNatOf(s: string)
    requires IsWhole(s)
    ensures TextOf(NatOf(s)) == s
  {
    if |s| > 1 {
      var front := s[..|s| - 1];
      assert front != "0";
      TextOfNatOf(front);
      assert TextOf(0) == "0";
      assert NatOf(s) / 10 == NatOf(front) && NatOf(s) % 10 == DigitValue(s[|s| - 1]);
      assert s == front + [s[|s| - 1]];
    } else {
      assert s[..0] == "";
    }
  }
}
