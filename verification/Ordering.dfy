/** Comparison of semantic values (dag/filter.ts): compareSemanticValues, the key it really
    compares, and the total order on keys that Sort relies on. */
module Ordering {
  import opened Wrappers
  import opened Digits
  import opened Decimals
  import opened Values

  /** Built-ins of the host language that the model does not look into: text case, BigInt of a
      non-number, String of an array or object, calendar and clock parsing, ISO printing of an instant. */
  datatype Host = Host(
    lower: string -> string,
    upper: string -> string,
    trim: string -> string,
    bigInt: Value -> Option<int>,
    display: Value -> string,
    instant: string -> Option<int>,
    isoText: string -> Option<string>,
    isoOf: int -> string,
    calendarDate: string -> bool
  )

  /** String(n) of an integral number. */
  function IntText(n: int): string {
    Sign(n < 0) + TextOf(Abs(n))
  }

  /** The pattern -?(0|[1-9]\d*). */
  predicate IsIntegerText(s: string) {
    IsWhole(if s != "" && s[0] == '-' then s[1..] else s)
  }

  function IntegerOf(s: string): int
    requires IsIntegerText(s)
  {
    if s[0] == '-' then Signed(true, NatOf(s[1..])) else NatOf(s)
  }

  /** BigInt(String(v)): an integral number or its text is read here, anything else is left to the host. */
  function BigIntOf(host: Host, v: Value): Option<int> {
    if v.Int? then Some(v.n)
    else if v.Text? && IsIntegerText(v.s) then Some(IntegerOf(v.s))
    else host.bigInt(v)
  }

  function DecimalOf(v: Value): Option<Decimal> {
    match v
    case Int(n) => Some(Decimal(n, 0))
    case Text(s) => Parse(s)
    case _ => None
  }

  datatype Instant = Epoch(seconds: int) | Iso(milliseconds: int)

  function InstantOf(host: Host, v: Value): Option<Instant> {
    match v
    case Int(n) => Some(Epoch(n))
    case Text(s) =>
      if IsIntegerText(s) then Some(Epoch(IntegerOf(s)))
      else if host.instant(s).Some? then Some(Iso(host.instant(s).value)) else None
    case _ => None
  }

  function CompareInts(a: int, b: int): int {
    if a < b then -1 else if a > b then 1 else 0
  }

  /** Code-unit order of texts. */
  predicate TextLess(a: string, b: string) {
    b != "" && (a == "" || a[0] < b[0] || (a[0] == b[0] && TextLess(a[1..], b[1..])))
  }

  function CompareTexts(a: string, b: string): int {
    if a == b then 0 else if TextLess(a, b) then -1 else 1
  }

  const UNREADABLE: Error := BadValue("value cannot be read at its declared type")
  const INCOMPARABLE: Error := BadValue("values cannot be compared")

  function CompareSemanticValues(host: Host, ty: FieldType, left: Value, right: Value): Try<int> {
    match ty
    case IntegerType =>
      var (l, r) := (BigIntOf(host, left), BigIntOf(host, right));
      if l.None? || r.None? then Failure(UNREADABLE) else Success(CompareInts(l.value, r.value))
    case DecimalType =>
      var (l, r) := (DecimalOf(left), DecimalOf(right));
      if l.None? || r.None? then Failure(UNREADABLE) else Success(Compare(l.value, r.value))
    case TimestampType =>
      var (l, r) := (InstantOf(host, left), InstantOf(host, right));
      if l.None? || r.None? then Failure(UNREADABLE)
      else if l.value.Epoch? && r.value.Epoch? then Success(CompareInts(l.value.seconds, r.value.seconds))
      else if l.value.Iso? && r.value.Iso? then Success(CompareInts(l.value.milliseconds, r.value.milliseconds))
      else Failure(INCOMPARABLE)
    case DateType =>
      if left.Text? && right.Text? && host.calendarDate(left.s) && host.calendarDate(right.s)
      then Success(CompareTexts(left.s, right.s)) else Failure(UNREADABLE)
    case BooleanType =>
      if left.Bool? && right.Bool?
      then Success(if left.b == right.b then 0 else if left.b then 1 else -1) else Failure(UNREADABLE)
    case AddressType =>
      if left.Text? && right.Text?
      then Success(CompareTexts(host.lower(left.s), host.lower(right.s))) else Failure(UNREADABLE)
    case JsonType => Failure(INCOMPARABLE)
    case _ =>
      if left.Text? && right.Text? then Success(CompareTexts(left.s, right.s)) else Failure(UNREADABLE)
  }

  // ---------------------------------------------------------------- keys

  /** What a comparison looks at. A value that cannot be read at its type has the key Unreadable. */
  datatype Key = Unreadable | Number(number: real) | Clock(at: int) | Flag(b: bool) | Words(s: string)

  ghost function KeyOf(host: Host, ty: FieldType, v: Value): Key {
    match ty
    case IntegerType => var n := BigIntOf(host, v); if n.Some? then Number(n.value as real) else Unreadable
    case DecimalType => var d := DecimalOf(v); if d.Some? then Number(Decimals.Value(d.value)) else Unreadable
    case TimestampType =>
      var i := InstantOf(host, v);
      if i.None? then Unreadable
      else if i.value.Epoch? then Number(i.value.seconds as real) else Clock(i.value.milliseconds)
    case DateType => if v.Text? && host.calendarDate(v.s) then Words(v.s) else Unreadable
    case BooleanType => if v.Bool? then Flag(v.b) else Unreadable
    case AddressType => if v.Text? then Words(host.lower(v.s)) else Unreadable
    case JsonType => Unreadable
    case _ => if v.Text? then Words(v.s) else Unreadable
  }

  ghost function Rank(k: Key): nat {
    match k
    case Unreadable => 0
    case Number(_) => 1
    case Clock(_) => 2
    case Flag(_) => 3
    case Words(_) => 4
  }

  /** A strict total order on keys; keys of different kinds are ordered by kind. */
  ghost predicate KeyLess(a: Key, b: Key) {
    if Rank(a) != Rank(b) then Rank(a) < Rank(b)
    else match a
      case Unreadable => false
      case Number(x) => x < b.number
      case Clock(x) => x < b.at
      case Flag(x) => !x && b.b
      case Words(x) => TextLess(x, b.s)
  }

  ghost function KeyCompare(a: Key, b: Key): int {
    if KeyLess(a, b) then -1 else if KeyLess(b, a) then 1 else 0
  }

  lemma {:induction false} TextOrder(a: string, b: string)
    ensures a == b || TextLess(a, b) || TextLess(b, a)
    ensures !(TextLess(a, b) && TextLess(b, a))
    ensures !TextLess(a, a)
  {
    if a != "" {
      TextOrder(a[1..], if b == "" then "" else b[1..]);
      if b != "" && a[0] == b[0] && a[1..] == b[1..] {
        assert a == [a[0]] + a[1..] == b;
      }
    }
  }

  lemma {:induction false} TextTransitive(a: string, b: string, c: string)
    requires TextLess(a, b) && TextLess(b, c)
    ensures TextLess(a, c)
  {
    if a != "" && a[0] == b[0] && b[0] == c[0] {
      TextTransitive(a[1..], b[1..], c[1..]);
    }
  }

  lemma KeyOrder(a: Key, b: Key)
    ensures a == b || KeyLess(a, b) || KeyLess(b, a)
    ensures !(KeyLess(a, b) && KeyLess(b, a))
    ensures !KeyLess(a, a)
  {
    if a.Words? {
      TextOrder(a.s, if b.Words? then b.s else a.s);
    }
  }

  lemma KeyTransitive(a: Key, b: Key, c: Key)
    requires KeyLess(a, b) && KeyLess(b, c)
    ensures KeyLess(a, c)
  {
    if a.Words? && b.Words? && c.Words? {
      TextTransitive(a.s, b.s, c.s);
    }
  }

  ghost predicate Comparable(a: Key, b: Key) {
    !a.Unreadable? && Rank(a) == Rank(b)
  }

  lemma KeyCompareCases(a: Key, b: Key)
    requires Rank(a) == Rank(b)
    ensures a.Number? ==> KeyCompare(a, b) == if a.number < b.number then -1 else if a.number > b.number then 1 else 0
    ensures a.Clock? ==> KeyCompare(a, b) == CompareInts(a.at, b.at)
    ensures a.Flag? ==> KeyCompare(a, b) == if a.b == b.b then 0 else if a.b then 1 else -1
    ensures a.Words? ==> KeyCompare(a, b) == CompareTexts(a.s, b.s)
  {
    if a.Words? {
      TextOrder(a.s, b.s);
    }
  }

  /** compareSemanticValues and the keys say the same. */
  ghost predicate Agrees(host: Host, ty: FieldType, left: Value, right: Value) {
    var a, b := KeyOf(host, ty, left), KeyOf(host, ty, right);
    match CompareSemanticValues(host, ty, left, right)
    case Success(c) => Comparable(a, b) && c == KeyCompare(a, b)
    case Failure(e) => !Comparable(a, b) && e.BadValue?
  }

  lemma NumericAgrees(host: Host, ty: FieldType, left: Value, right: Value)
    requires ty.IntegerType? || ty.DecimalType?
    ensures Agrees(host, ty, left, right)
  {
    hide Compare, Decimals.Value, DecimalOf, BigIntOf, KeyCompare;
    var a, b := KeyOf(host, ty, left), KeyOf(host, ty, right);
    if Comparable(a, b) {
      KeyCompareCases(a, b);
      if ty.DecimalType? {
        CompareIsRationalOrder(DecimalOf(left).value, DecimalOf(right).value);
      }
    }
  }

  lemma TimestampAgrees(host: Host, left: Value, right: Value)
    ensures Agrees(host, TimestampType, left, right)
  {
    hide InstantOf, KeyCompare;
    var a, b := KeyOf(host, TimestampType, left), KeyOf(host, TimestampType, right);
    if Comparable(a, b) {
      KeyCompareCases(a, b);
    }
  }

  lemma OtherAgrees(host: Host, ty: FieldType, left: Value, right: Value)
    requires !ty.IntegerType? && !ty.DecimalType? && !ty.TimestampType?
    ensures Agrees(host, ty, left, right)
  {
    hide CompareTexts, KeyCompare;
    var a, b := KeyOf(host, ty, left), KeyOf(host, ty, right);
    if Comparable(a, b) {
      KeyCompareCases(a, b);
    }
  }

  /** compareSemanticValues succeeds exactly on keys of one kind, and is then the order of the keys. */
  lemma ComparisonIsKeyOrder(host: Host, ty: FieldType, left: Value, right: Value)
    ensures Agrees(host, ty, left, right)
  {
    if ty.IntegerType? || ty.DecimalType? {
      NumericAgrees(host, ty, left, right);
    } else if ty.TimestampType? {
      TimestampAgrees(host, left, right);
    } else {
      OtherAgrees(host, ty, left, right);
    }
  }
}
