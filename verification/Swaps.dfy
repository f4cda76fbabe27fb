/** Canonical swap rows (dag/runtime.ts): amounts, normalisation of provider rows, Union and the
    timestamp window that precede the cross-chain footprint. */
module Swaps {
  import opened Wrappers
  import opened Digits
  import opened Decimals
  import opened Values
  import opened Ordering
  import Expressions
  import Filtering
  import TopK

  // ---------------------------------------------------------------- amounts

  /** The sign, the digits before the point and the digits after it. */
  function Pieces(text: string): (bool, string, string) {
    var negative := text != "" && text[0] == '-';
    var unsigned := if negative then text[1..] else text;
    var point := PointAt(unsigned);
    (negative, unsigned[..point], if point < |unsigned| then unsigned[point + 1..] else "")
  }

  lemma ParsePieces(text: string)
    ensures var (negative, whole, fraction) := Pieces(text);
            Parse(text).Some? ==>
              && IsWhole(whole) && AllDigits(whole) && AllDigits(fraction) && AllDigits(whole + fraction)
              && Parse(text).value == Decimal(Signed(negative, NatOf(whole + fraction)), |fraction|)
  {
    hide NatOf, PointAt;
    var (negative, whole, fraction) := Pieces(text);
    if AllDigits(whole) && AllDigits(fraction) {
      NatOfConcat(whole, fraction);
    }
  }

  /** normalizeDecimal on text: the whole part without leading zeros, the fraction without trailing ones. */
  function NormalizeDecimal(text: string): Option<string> {
    if Parse(text).None? then None
    else
      ParsePieces(text);
      var (negative, whole, fraction) := Pieces(text);
      var normalized := StripLeadingZeros(whole) + Tail(StripTrailingZeros(fraction));
      Some(if normalized == "0" then "0" else Sign(negative) + normalized)
  }

  function ParseAmount(text: string): Option<Decimal> {
    var normalized :- NormalizeDecimal(text);
    Parse(normalized)
  }

  /** formatDecimal keeps the scale it is given, so a sum can end in zeros. */
  function FormatDecimal(d: Decimal): string {
    if d.coefficient == 0 then "0"
    else
      var digits := PadStart(TextOf(Abs(d.coefficient)), d.scale + 1);
      var at := |digits| - d.scale;
      Sign(d.coefficient < 0) + (digits[..at] + Tail(digits[at..]))
  }

  function SumFrom(total: Decimal, values: seq<Option<string>>): Option<Decimal>
    decreases values
  {
    if values == [] then Some(total)
    else if values[0].None? then SumFrom(total, values[1..])
    else
      var next :- ParseAmount(values[0].value);
      SumFrom(Add(total, next), values[1..])
  }

  /** sumDecimals; None stands for the error thrown on text that is no decimal. */
  function SumDecimals(values: seq<Option<string>>): Option<string> {
    var total :- SumFrom(Decimal(0, 0), values);
    Some(FormatDecimal(total))
  }

  lemma DropZero(digits: string)
    requires AllDigits(digits) && !IsWhole(digits) && digits != ""
    ensures digits == "0" + digits[1..] && digits[1..] != "" && AllDigits(digits[1..])
    ensures NatOf(digits) == NatOf(digits[1..])
  {
    assert digits == "0" + digits[1..];
    NatOfConcat("0", digits[1..]);
    assert NatOf("0") == 0;
  }

  lemma PadOneMore(text: string, width: nat)
    requires |text| <= width
    ensures PadStart(text, width + 1) == "0" + PadStart(text, width)
  {
    hide AllDigits;
    var zeros := Zeros(width - |text|);
    MoreZeros(width - |text|);
    assert ("0" + zeros) + text == "0" + (zeros + text);
    assert zeros == "" ==> zeros + text == text;
  }

  lemma MoreZeros(n: nat)
    ensures Zeros(n + 1) == "0" + Zeros(n)
  {
  }

  lemma PadLength(text: string, width: nat, padded: string)
    requires PadStart(text, width) == padded && |padded| == width
    ensures |text| <= width
  {
  }

  /** Digits shorter than the padding: only leading zeros were lost. */
  lemma {:induction false} PadRestores(digits: string)
    requires AllDigits(digits) && digits != ""
    ensures PadStart(TextOf(NatOf(digits)), |digits|) == digits
    decreases |digits|
  {
    hide NatOf, TextOf, IsWhole, PadStart;
    if IsWhole(digits) {
      TextOfNatOf(digits);
      PadNone(digits);
    } else {
      DropZero(digits);
      var rest := digits[1..];
      PadRestores(rest);
      PadLength(TextOf(NatOf(rest)), |rest|, rest);
      PadOneMore(TextOf(NatOf(rest)), |rest|);
    }
  }

  lemma PadNone(text: string)
    ensures PadStart(text, |text|) == text
  {
  }

  /** The normalised text is the one normal form of the value that was written. */
  lemma NormalizedIsPrinted(text: string)
    ensures NormalizeDecimal(text) == (if Parse(text).Some? then Some(Print(Parse(text).value)) else None)
  {
    hide NatOf, Print, StripLeadingZeros, StripTrailingZeros, AllDigits, IsWhole, Parse, Pieces;
    if Parse(text).Some? {
      ParsePieces(text);
      var (negative, whole, fraction) := Pieces(text);
      NormalizedParts(negative, whole, fraction);
    }
  }

  lemma NormalizedParts(negative: bool, whole: string, fraction: string)
    requires IsWhole(whole) && AllDigits(fraction) && AllDigits(whole + fraction)
    ensures StripLeadingZeros(whole) == whole
    ensures var normalized := whole + Tail(StripTrailingZeros(fraction));
            Print(Decimal(Signed(negative, NatOf(whole + fraction)), |fraction|))
            == if normalized == "0" then "0" else Sign(negative) + normalized
  {
    hide NatOf, TextOf, PadStart, StripTrailingZeros, AllDigits, Print, Split;
    assert |whole| > 1 ==> whole[0] != '0';
    SplitOfParts(whole, fraction);
    ZeroParts(whole, fraction);
    PrintOfMagnitude(negative, NatOf(whole + fraction), |fraction|);
  }

  lemma PrintOfMagnitude(negative: bool, m: nat, scale: nat)
    ensures Print(Decimal(Signed(negative, m), scale)) == if m == 0 then "0" else PrintParts(negative, Split(m, scale))
  {
  }

  lemma SplitOfParts(whole: string, fraction: string)
    requires IsWhole(whole) && AllDigits(fraction) && AllDigits(whole + fraction)
    ensures Split(NatOf(whole + fraction), |fraction|) == (whole, StripTrailingZeros(fraction))
  {
    hide NatOf, TextOf, PadStart, StripTrailingZeros, AllDigits, IsWhole;
    var all := whole + fraction;
    PadToScale(whole, fraction);
    assert all[..|all| - |fraction|] == whole && all[|all| - |fraction|..] == fraction;
  }

  lemma PadToScale(whole: string, fraction: string)
    requires IsWhole(whole) && AllDigits(fraction) && AllDigits(whole + fraction)
    ensures PadStart(TextOf(NatOf(whole + fraction)), |fraction| + 1) == whole + fraction
  {
    hide NatOf, TextOf;
    var all := whole + fraction;
    if |whole| == 1 {
      PadRestores(all);
    } else {
      assert IsWhole(all);
      TextOfNatOf(all);
    }
  }

  lemma WholeIsZero(whole: string)
    requires IsWhole(whole)
    ensures NatOf(whole) == 0 <==> whole == "0"
  {
    TextOfNatOf(whole);
    assert TextOf(0) == "0" && NatOf("0") == 0;
  }

  lemma ProductIsZero(a: nat, b: nat)
    requires b > 0
    ensures a * b == 0 <==> a == 0
  {
  }

  lemma FractionIsZero(fraction: string)
    requires AllDigits(fraction)
    ensures NatOf(fraction) == 0 <==> StripTrailingZeros(fraction) == ""
  {
    hide StripTrailingZeros, Pow10;
    var stripped := StripTrailingZeros(fraction);
    var zeros := Zeros(|fraction| - |stripped|);
    assert fraction == stripped + zeros;
    NatOfConcat(stripped, zeros);
    NatOfZeros(|zeros|);
    ProductIsZero(NatOf(stripped), Pow10(|zeros|));
    assert stripped != "" ==> DigitValue(stripped[|stripped| - 1]) > 0;
  }

  /** A written decimal is zero exactly when all that is left of it is the digit 0. */
  lemma ZeroParts(whole: string, fraction: string)
    requires IsWhole(whole) && AllDigits(fraction) && AllDigits(whole + fraction)
    ensures NatOf(whole + fraction) == 0 <==> whole + Tail(StripTrailingZeros(fraction)) == "0"
  {
    hide NatOf, Pow10, StripTrailingZeros;
    NatOfConcat(whole, fraction);
    ProductIsZero(NatOf(whole), Pow10(|fraction|));
    WholeIsZero(whole);
    FractionIsZero(fraction);
    assert whole + "" == whole;
  }

  /** The rational an amount text stands for. */
  ghost function Amount(text: string): real {
    if Parse(text).Some? then Decimals.Value(Parse(text).value) else 0.0
  }

  ghost function AmountOr(text: Option<string>): real {
    if text.Some? then Amount(text.value) else 0.0
  }

  /** An amount that may be absent but, when present, is written as a decimal. */
  predicate IsAmount(text: Option<string>) {
    text.Some? ==> Parse(text.value).Some?
  }

  /** Normalising an amount rejects exactly what is not a decimal, never changes its value, and gives
      two amounts the same text exactly when they are the same number. */
  lemma NormalizeIsNormalForm(a: string, b: string)
    ensures NormalizeDecimal(a).Some? <==> Parse(a).Some?
    ensures Parse(a).Some? ==> Amount(NormalizeDecimal(a).value) == Amount(a) && Parse(NormalizeDecimal(a).value).Some?
    ensures Parse(a).Some? && Parse(b).Some? ==>
            (NormalizeDecimal(a) == NormalizeDecimal(b) <==> Amount(a) == Amount(b))
  {
    hide Parse, Print, NormalizeDecimal, Decimals.Value;
    NormalizedIsPrinted(a);
    NormalizedIsPrinted(b);
    if Parse(a).Some? {
      ParsePrint(Parse(a).value);
      if Parse(b).Some? {
        PrintIsNormalForm(Parse(a).value, Parse(b).value);
      }
    }
  }

  lemma ParseAmountIsValue(text: string)
    ensures ParseAmount(text).Some? <==> Parse(text).Some?
    ensures ParseAmount(text).Some? ==> Decimals.Value(ParseAmount(text).value) == Amount(text)
  {
    hide Parse, NormalizeDecimal, Decimals.Value;
    NormalizeIsNormalForm(text, text);
  }

  /** formatDecimal writes every digit it holds, so what is read back is the same coefficient at the same scale. */
  lemma FormatReadsBack(d: Decimal)
    ensures Parse(FormatDecimal(d)) == Some(if d.coefficient == 0 then Decimal(0, 0) else d)
  {
    hide NatOf, TextOf, PadStart, Parse, ParseUnsigned;
    if d.coefficient == 0 {
      ZeroIsZero();
    } else {
      var m: nat, negative := Abs(d.coefficient), d.coefficient < 0;
      var digits := PadStart(TextOf(m), d.scale + 1);
      var at := |digits| - d.scale;
      FormatParts(m, d.scale);
      ParseParts(negative, digits[..at], digits[at..]);
      ParseSigned(negative, digits[..at] + Tail(digits[at..]));
    }
  }

  lemma FormatParts(m: nat, scale: nat)
    requires m > 0
    ensures var digits := PadStart(TextOf(m), scale + 1);
            var at := |digits| - scale;
            IsWhole(digits[..at]) && AllDigits(digits[at..]) && AllDigits(digits[..at] + digits[at..])
              && NatOf(digits[..at] + digits[at..]) == m
  {
    hide NatOf;
    var text := TextOf(m);
    var digits := PadStart(text, scale + 1);
    var at := |digits| - scale;
    NatOfPadStart(text, scale + 1);
    assert digits == digits[..at] + digits[at..];
    WholeIsZero(text);
    if |text| <= scale {
      assert digits[..at] == "0";
    } else {
      assert digits == text;
    }
  }

  ghost function SumOf(values: seq<Option<string>>): real {
    if values == [] then 0.0 else AmountOr(values[0]) + SumOf(values[1..])
  }

  lemma {:induction false} SumFromIsExact(total: Decimal, values: seq<Option<string>>)
    ensures SumFrom(total, values).Some? <==> forall v | v in values :: IsAmount(v)
    ensures SumFrom(total, values).Some? ==>
            Decimals.Value(SumFrom(total, values).value) == Decimals.Value(total) + SumOf(values)
    decreases values
  {
    hide Parse, ParseAmount, Decimals.Value, Amount, Add;
    if values != [] {
      assert values == [values[0]] + values[1..];
      if values[0].None? {
        SumFromIsExact(total, values[1..]);
      } else {
        ParseAmountIsValue(values[0].value);
        if ParseAmount(values[0].value).Some? {
          var next := ParseAmount(values[0].value).value;
          AddIsExact(total, next);
          SumFromIsExact(Add(total, next), values[1..]);
        } else {
          assert values[0] in values;
        }
      }
    }
  }

  /** sumDecimals throws exactly on text that is no decimal, and otherwise writes the exact sum of what is present. */
  lemma SumIsExact(values: seq<Option<string>>)
    ensures SumDecimals(values).Some? <==> forall v | v in values :: IsAmount(v)
    ensures SumDecimals(values).Some? ==>
            IsAmount(SumDecimals(values))
            && AmountOr(SumDecimals(values)) == SumOf(values)
  {
    hide Parse, FormatDecimal, Decimals.Value, SumFrom;
    SumFromIsExact(Decimal(0, 0), values);
    ValueIs(Decimal(0, 0), 0.0);
    if SumFrom(Decimal(0, 0), values).Some? {
      var total := SumFrom(Decimal(0, 0), values).value;
      FormatReadsBack(total);
      if total.coefficient == 0 {
        ValueIs(total, 0.0);
      }
    }
  }

  // ---------------------------------------------------------------- rows

  datatype Swap = Swap(
    sourceKey: string, chain: string, providerTradeId: string, tradeId: string,
    wallet: string, pool: string, timestamp: string,
    amountIn: Option<string>, amountOut: Option<string>, tokenIn: Option<string>, tokenOut: Option<string>)

  predicate IsHex(c: char) {
    IsDigit(c) || 'a' <= c <= 'f' || 'A' <= c <= 'F'
  }

  /** The pattern 0x followed by forty hexadecimal digits. */
  predicate IsAddress(s: string) {
    |s| == 42 && s[0] == '0' && s[1] == 'x' && forall i | 2 <= i < 42 :: IsHex(s[i])
  }

  /** toLowerCase, on the ASCII letters an address can hold. */
  function LowerHex(s: string): (r: string)
    ensures IsAddress(s) ==> IsAddress(r)
  {
    seq(|s|, i requires 0 <= i < |s| => if 'A' <= s[i] <= 'Z' then (s[i] as int + 32) as char else s[i])
  }

  predicate Canonical(s: Swap) {
    && s.sourceKey != "" && s.chain != "" && s.providerTradeId != "" && s.tradeId != ""
    && IsAddress(s.wallet) && IsAddress(s.pool) && s.timestamp != "" && AllDigits(s.timestamp)
    && IsAmount(s.amountIn) && IsAmount(s.amountOut)
    && (s.tokenIn.Some? ==> IsAddress(s.tokenIn.value)) && (s.tokenOut.Some? ==> IsAddress(s.tokenOut.value))
  }

  function IsPositive(amount: Option<string>): Option<bool> {
    if amount.None? then Some(false)
    else
      var d :- ParseAmount(amount.value);
      Some(d.coefficient > 0)
  }

  /** The input side when it is positive, else the output side when that is, else zero. */
  function DeriveVolume(s: Swap): Option<string> {
    var input :- IsPositive(s.amountIn);
    if input then NormalizeDecimal(s.amountIn.value)
    else
      var output :- IsPositive(s.amountOut);
      if output then NormalizeDecimal(s.amountOut.value) else Some("0")
  }

  ghost function VolumeOf(s: Swap): real {
    if AmountOr(s.amountIn) > 0.0 then AmountOr(s.amountIn)
    else if AmountOr(s.amountOut) > 0.0 then AmountOr(s.amountOut)
    else 0.0
  }

  lemma PositiveValue(d: Decimal)
    ensures Decimals.Value(d) > 0.0 <==> d.coefficient > 0
  {
    ValueTimes(d);
    Cancel(0.0, Decimals.Value(d), Power(d.scale));
  }

  lemma PositiveIs(amount: Option<string>)
    requires IsAmount(amount)
    ensures IsPositive(amount) == Some(AmountOr(amount) > 0.0)
  {
    hide Parse, ParseAmount, Decimals.Value;
    if amount.Some? {
      ParseAmountIsValue(amount.value);
      PositiveValue(ParseAmount(amount.value).value);
    }
  }

  /** A canonical row always has a volume, and it is the first positive side. */
  lemma VolumeIsDerived(s: Swap)
    requires IsAmount(s.amountIn) && IsAmount(s.amountOut)
    ensures IsAmount(DeriveVolume(s)) && DeriveVolume(s).Some? && AmountOr(DeriveVolume(s)) == VolumeOf(s)
  {
    hide Parse, NormalizeDecimal, Decimals.Value, IsPositive;
    PositiveIs(s.amountIn);
    PositiveIs(s.amountOut);
    if s.amountIn.Some? { NormalizeIsNormalForm(s.amountIn.value, ""); }
    if s.amountOut.Some? { NormalizeIsNormalForm(s.amountOut.value, ""); }
    ZeroIsZero();
  }

  lemma ZeroIsZero()
    ensures Parse("0") == Some(Decimal(0, 0)) && Amount("0") == 0.0
  {
    ParseWhole("0");
    assert NatOf("0") == 0;
    ValueIs(Decimal(0, 0), 0.0);
  }

  // ---------------------------------------------------------------- normalisation

  datatype CanonicalField = Wallet | TradeId | Pool | Timestamp | AmountInUsd | AmountOutUsd | TokenIn | TokenOut

  const CANONICAL_FIELDS := [Wallet, TradeId, Pool, Timestamp, AmountInUsd, AmountOutUsd, TokenIn, TokenOut]

  /** The column types a provider schema knows. */
  datatype ProviderType = IdColumn | AddressColumn | DecimalColumn | TimestampColumn | IntegerColumn | StringColumn

  datatype Schema = Schema(sourceKey: string, chain: string, subgraphId: string, schemaHash: string,
      fieldTypes: map<string, ProviderType>)

  /** The provider path of every canonical field. */
  datatype FieldMapping = FieldMapping(sourceKey: string, chain: string, fields: map<CanonicalField, string>)

  datatype Source = Source(schema: Schema, mapping: FieldMapping, rows: seq<Value>)

  /** expectedProviderTypes. */
  function ExpectedTypes(field: CanonicalField): set<ProviderType> {
    match field
    case Wallet | Pool | TokenIn | TokenOut => {AddressColumn, IdColumn}
    case TradeId => {IdColumn, StringColumn}
    case Timestamp => {TimestampColumn, IntegerColumn}
    case AmountInUsd | AmountOutUsd => {DecimalColumn, StringColumn}
  }

  /** Names joined by points. */
  predicate IsPath(path: string) {
    forall segment | segment in Expressions.SplitPath(path) :: Expressions.IsName(segment)
  }

  /** The segments of the path mapped to a field. */
  function PathOf(source: Source, field: CanonicalField): seq<string> {
    Expressions.SplitPath(if field in source.mapping.fields then source.mapping.fields[field] else "")
  }

  const INVALID: Error := BadValue("provider row is not a swap")

  /** readPath: own properties only; the length of an array is one. */
  function ReadPath(row: Value, path: seq<string>): Try<Value>
    decreases |path|
  {
    if path == [] then Success(row)
    else match row
      case Object(fields) => if path[0] in fields then ReadPath(fields[path[0]], path[1..])
        else Failure(MissingField(path[0]))
      case List(items) => if path[0] == "length" then ReadPath(Int(|items|), path[1..])
        else Failure(MissingField(path[0]))
      case _ => Failure(MissingField(path[0]))
  }

  predicate Blank(host: Host, text: string) {
    text == "" || host.trim(text) == ""
  }

  function ReadRequiredString(host: Host, row: Value, path: seq<string>): Try<string> {
    var v :- ReadPath(row, path);
    var text :- (match v case Text(s) => Success(s) case Int(n) => Success(IntText(n)) case _ => Failure(INVALID));
    if Blank(host, text) then Failure(INVALID) else Success(text)
  }

  function AddressOf(v: Value): (r: Try<string>)
    ensures r.Success? ==> IsAddress(r.value)
  {
    if v.Text? && IsAddress(v.s) then Success(LowerHex(v.s)) else Failure(INVALID)
  }

  function TokenOf(v: Value): Try<Option<string>> {
    if Missing(v) then Success(None)
    else
      var address :- AddressOf(v);
      Success(Some(address))
  }

  /** assertIntegerString: a digit string, rewritten without leading zeros. */
  function IntegerString(v: Value): (r: Try<string>)
    ensures r.Success? ==> IsWhole(r.value)
  {
    var text :- (match v case Text(s) => Success(s) case Int(n) => Success(IntText(n)) case _ => Failure(INVALID));
    if text != "" && AllDigits(text) then Success(TextOf(NatOf(text))) else Failure(INVALID)
  }

  function AmountText(v: Value): (r: Try<Option<string>>)
    ensures r.Success? ==> IsAmount(r.value)
  {
    if Missing(v) then Success(None)
    else
      var text :- (match v case Text(s) => Success(s) case Int(n) => Success(IntText(n)) case _ => Failure(INVALID));
      NormalizeIsNormalForm(text, text);
      if NormalizeDecimal(text).Some? then Success(NormalizeDecimal(text)) else Failure(INVALID)
  }

  function TradeIdOf(source: Source, providerTradeId: string): string {
    source.schema.sourceKey + ":" + providerTradeId
  }

  function NormalRow(host: Host, source: Source, row: Value): Try<Swap> {
    var providerTradeId :- ReadRequiredString(host, row, PathOf(source, TradeId));
    NormalFields(source, row, providerTradeId)
  }

  /** Everything about a row that is read after its trade id. */
  function NormalFields(source: Source, row: Value, providerTradeId: string): Try<Swap> {
    var walletValue :- ReadPath(row, PathOf(source, Wallet));
    var wallet :- AddressOf(walletValue);
    var poolValue :- ReadPath(row, PathOf(source, Pool));
    var pool :- AddressOf(poolValue);
    var timestampValue :- ReadPath(row, PathOf(source, Timestamp));
    var timestamp :- IntegerString(timestampValue);
    var tokenInValue :- ReadPath(row, PathOf(source, TokenIn));
    var tokenOutValue :- ReadPath(row, PathOf(source, TokenOut));
    var amountInValue :- ReadPath(row, PathOf(source, AmountInUsd));
    var amountIn :- AmountText(amountInValue);
    var amountOutValue :- ReadPath(row, PathOf(source, AmountOutUsd));
    var amountOut :- AmountText(amountOutValue);
    var tokenIn :- TokenOf(tokenInValue);
    var tokenOut :- TokenOf(tokenOutValue);
    Success(Swap(source.schema.sourceKey, source.schema.chain, providerTradeId, TradeIdOf(source, providerTradeId),
      wallet, pool, timestamp,
                 amountIn, amountOut, tokenIn, tokenOut))
  }

  predicate ValidField(source: Source, field: CanonicalField) {
    var (fields, types) := (source.mapping.fields, source.schema.fieldTypes);
    field in fields && IsPath(fields[field]) && fields[field] in types && types[fields[field]] in ExpectedTypes(field)
  }

  /** A named source whose mapping is its own and gives every canonical field a provider path of its own, of a
      type that can stand for the field. */
  predicate ValidSource(host: Host, source: Source) {
    var (schema, mapping) := (source.schema, source.mapping);
    && !Blank(host, schema.sourceKey) && !Blank(host, schema.chain) && !Blank(host, schema.subgraphId)
      && !Blank(host, schema.schemaHash)
    && mapping.sourceKey == schema.sourceKey && mapping.chain == schema.chain
    && ValidFields(source)
  }

  predicate ValidFields(source: Source) {
    var fields := source.mapping.fields;
    && (forall field: CanonicalField :: ValidField(source, field))
    && forall f: CanonicalField, g: CanonicalField | f != g && f in fields && g in fields :: fields[f] != fields[g]
  }

  lemma AllCanonical(field: CanonicalField) returns (i: nat)
    ensures i < |CANONICAL_FIELDS| && CANONICAL_FIELDS[i] == field
  {
    i := match field
      case Wallet => 0 case TradeId => 1 case Pool => 2 case Timestamp => 3
      case AmountInUsd => 4 case AmountOutUsd => 5 case TokenIn => 6 case TokenOut => 7;
  }

  /** validateSourceMapping: false where it throws. */
  method ValidateSourceMapping(host: Host, source: Source) returns (ok: bool)
    ensures ok <==> ValidSource(host, source)
  {
    hide Blank, ValidFields;
    var schema, mapping := source.schema, source.mapping;
    if Blank(host, schema.sourceKey) || Blank(host, schema.chain) || Blank(host, schema.subgraphId)
      || Blank(host, schema.schemaHash) {
      return false;
    }
    if mapping.sourceKey != schema.sourceKey || mapping.chain != schema.chain {
      return false;
    }
    ok := ValidateFields(source);
  }

  /** Its loop over the canonical fields, with the set of paths seen so far. */
  method ValidateFields(source: Source) returns (ok: bool)
    ensures ok <==> ValidFields(source)
  {
    hide IsPath, ExpectedTypes, ValidFields;
    var schema, mapping := source.schema, source.mapping;
    var paths: set<string> := {};
    for i := 0 to |CANONICAL_FIELDS|
      invariant forall k | 0 <= k < i ::
                CANONICAL_FIELDS[k] in mapping.fields
                && ValidField(source, CANONICAL_FIELDS[k])
      invariant forall k | 0 <= k < i :: mapping.fields[CANONICAL_FIELDS[k]] in paths
      invariant forall p | p in paths :: exists k :: 0 <= k < i && mapping.fields[CANONICAL_FIELDS[k]] == p
      invariant forall j, k | 0 <= j < k < i ::
                mapping.fields[CANONICAL_FIELDS[j]] != mapping.fields[CANONICAL_FIELDS[k]]
    {
      var field := CANONICAL_FIELDS[i];
      if field !in mapping.fields || !IsPath(mapping.fields[field]) {
        BadField(source, field);
        return false;
      }
      var path := mapping.fields[field];
      if path in paths {
        ghost var k :| 0 <= k < i && mapping.fields[CANONICAL_FIELDS[k]] == path;
        RepeatedPath(source, k, i);
        return false;
      }
      paths := paths + {path};
      if path !in schema.fieldTypes || schema.fieldTypes[path] !in ExpectedTypes(field) {
        BadField(source, field);
        return false;
      }
    }
    EachOnce(source);
    ok := true;
  }

  lemma BadField(source: Source, field: CanonicalField)
    requires !ValidField(source, field)
    ensures !ValidFields(source)
  {
    hide ValidField;
  }

  lemma RepeatedPath(source: Source, k: nat, i: nat)
    requires k < i < |CANONICAL_FIELDS| && CANONICAL_FIELDS[k] in source.mapping.fields
             && CANONICAL_FIELDS[i] in source.mapping.fields
    requires source.mapping.fields[CANONICAL_FIELDS[k]] == source.mapping.fields[CANONICAL_FIELDS[i]]
    ensures !ValidFields(source)
  {
    hide ValidField;
    assert CANONICAL_FIELDS[k] != CANONICAL_FIELDS[i];
  }

  /** What holds of the listed fields holds of all. */
  lemma EachOnce(source: Source)
    requires forall k | 0 <= k < |CANONICAL_FIELDS| ::
             CANONICAL_FIELDS[k] in source.mapping.fields
             && ValidField(source, CANONICAL_FIELDS[k])
    requires forall j, k | 0 <= j < k < |CANONICAL_FIELDS| ::
               source.mapping.fields[CANONICAL_FIELDS[j]] != source.mapping.fields[CANONICAL_FIELDS[k]]
    ensures ValidFields(source)
  {
    hide ValidField;
    forall field: CanonicalField
      ensures field in source.mapping.fields && ValidField(source, field)
    {
      var i := AllCanonical(field);
    }
    forall f: CanonicalField, g: CanonicalField | f != g && f in source.mapping.fields && g in source.mapping.fields
      ensures source.mapping.fields[f] != source.mapping.fields[g]
    {
      var i := AllCanonical(f);
      var j := AllCanonical(g);
    }
  }

  /** A normalised row passes Union's own check and carries its timestamp without leading zeros. */
  lemma NormalRowIsCanonical(host: Host, source: Source, row: Value)
    requires ValidSource(host, source) && NormalRow(host, source, row).Success?
    ensures var s := NormalRow(host, source, row).value;
            && Canonical(s) && IsWhole(s.timestamp) && s.sourceKey == source.schema.sourceKey
              && s.chain == source.schema.chain
            && s.tradeId == s.sourceKey + ":" + s.providerTradeId
            && ReadRequiredString(host, row, PathOf(source, TradeId)) == Success(s.providerTradeId)
  {
    hide IntegerString, AmountText, AddressOf, ReadPath, IsAddress, IsAmount, IsWhole, PathOf, ValidField, IsPath;
    var s := NormalRow(host, source, row).value;
    WholeIsDigits(s.timestamp);
  }

  /** The provider value mapped to a field. */
  function At(source: Source, row: Value, field: CanonicalField): Try<Value> {
    ReadPath(row, PathOf(source, field))
  }

  /** The same address with its letters in lower case. */
  ghost predicate IsLowered(v: Value, address: string) {
    v.Text? && |address| == |v.s| && forall i | 0 <= i < |address| ::
      !('A' <= address[i] <= 'Z')
      && (address[i] == v.s[i] || ('A' <= v.s[i] <= 'Z' && address[i] as int == v.s[i] as int + 32))
  }

  ghost predicate WrittenAs(v: Value, text: string) {
    v == Text(text) || (v.Int? && IntText(v.n) == text)
  }

  ghost predicate IsSameAmount(v: Value, amount: Option<string>) {
    if Missing(v) then amount.None?
    else exists text :: WrittenAs(v, text) && Parse(text).Some? && amount.Some? && Amount(amount.value) == Amount(text)
  }

  ghost predicate IsToken(v: Value, token: Option<string>) {
    if Missing(v) then token.None? else token.Some? && IsLowered(v, token.value)
  }

  ghost predicate IsInstant(v: Value, timestamp: string) {
    && AllDigits(timestamp)
    && exists text :: WrittenAs(v, text) && AllDigits(text) && NatOf(text) == NatOf(timestamp)
  }

  /** The row has the field, and the canonical field stands for what is there. */
  ghost predicate Stands(source: Source, row: Value, s: Swap, field: CanonicalField) {
    && At(source, row, field).Success?
    && var v := At(source, row, field).value;
       match field
       case Wallet => IsLowered(v, s.wallet)
       case Pool => IsLowered(v, s.pool)
       case TradeId => WrittenAs(v, s.providerTradeId)
       case Timestamp => IsInstant(v, s.timestamp)
       case AmountInUsd => IsSameAmount(v, s.amountIn)
       case AmountOutUsd => IsSameAmount(v, s.amountOut)
       case TokenIn => IsToken(v, s.tokenIn)
       case TokenOut => IsToken(v, s.tokenOut)
  }

  /** Every field of a normalised row stands for the value its own mapping points at: the same address in lower case,
      the same point in time, the same amount, the same token or its absence. */
  lemma NormalRowReads(host: Host, source: Source, row: Value)
    requires NormalRow(host, source, row).Success?
    ensures forall field: CanonicalField :: Stands(source, row, NormalRow(host, source, row).value, field)
  {
    hide NormalRow, Stands;
    var s := NormalRow(host, source, row).value;
    forall field: CanonicalField
      ensures Stands(source, row, s, field)
    {
      FieldReads(host, source, row, field);
    }
  }

  lemma FieldReads(host: Host, source: Source, row: Value, field: CanonicalField)
    requires NormalRow(host, source, row).Success?
    ensures Stands(source, row, NormalRow(host, source, row).value, field)
  {
    hide IntegerString, AmountText, AddressOf, TokenOf, ReadPath, IsAddress, IsAmount, IsWhole, PathOf, Blank,
      IsLowered, IsSameAmount, IsToken, IsInstant, NatOf, IntText, AllDigits, TradeIdOf, Canonical;
    var v := At(source, row, field).value;
    AddressReads(v);
    TimestampReads(v);
    AmountReads(v);
    TokenReads(v);
  }

  lemma AddressReads(v: Value)
    ensures AddressOf(v).Success? ==> IsLowered(v, AddressOf(v).value)
  {
    hide IsAddress;
  }

  lemma TokenReads(v: Value)
    ensures TokenOf(v).Success? ==> IsToken(v, TokenOf(v).value)
  {
    hide IsLowered, AddressOf;
    AddressReads(v);
  }

  lemma TimestampReads(v: Value)
    ensures IntegerString(v).Success? ==> IsInstant(v, IntegerString(v).value)
  {
    hide NatOf, TextOf, IntText;
    if IntegerString(v).Success? {
      var text := if v.Text? then v.s else IntText(v.n);
      WholeIsDigits(IntegerString(v).value);
      assert WrittenAs(v, text);
    }
  }

  lemma AmountReads(v: Value)
    ensures AmountText(v).Success? ==> IsSameAmount(v, AmountText(v).value)
  {
    hide Parse, NormalizeDecimal, Amount, IntText;
    if AmountText(v).Success? && !Missing(v) {
      var text := if v.Text? then v.s else IntText(v.n);
      NormalizeIsNormalForm(text, text);
      assert WrittenAs(v, text);
    }
  }

  lemma WholeIsDigits(s: string)
    ensures IsWhole(s) ==> s != "" && AllDigits(s)
  {
  }

  function NormalRowOf(host: Host, source: Source): Value -> Try<Swap> {
    row => NormalRow(host, source, row)
  }

  function NormalRows(host: Host, source: Source): Try<seq<Swap>> {
    TryMap(source.rows, NormalRowOf(host, source))
  }

  predicate DistinctTrades(rows: seq<Swap>) {
    forall i, j | 0 <= i < j < |rows| :: rows[i].tradeId != rows[j].tradeId
  }

  function TradeIds(rows: seq<Swap>): set<string> {
    set s | s in rows :: s.tradeId
  }

  lemma NoTrades()
    ensures TradeIds([]) == {} && DistinctTrades([])
  {
  }

  lemma TradeIdsAppend(rows: seq<Swap>, s: Swap)
    ensures TradeIds(rows + [s]) == TradeIds(rows) + {s.tradeId}
    ensures DistinctTrades(rows + [s]) <==> DistinctTrades(rows) && s.tradeId !in TradeIds(rows)
  {
    var all := rows + [s];
    assert all[|rows|] == s && forall i | 0 <= i < |rows| :: all[i] == rows[i];
    if DistinctTrades(all) {
      forall i | 0 <= i < |rows|
        ensures rows[i].tradeId != s.tradeId
      {
        assert all[i].tradeId != all[|rows|].tradeId;
      }
      forall i, j | 0 <= i < j < |rows|
        ensures rows[i].tradeId != rows[j].tradeId
      {
        assert all[i].tradeId != all[j].tradeId;
      }
    }
    if s.tradeId in TradeIds(rows) {
      var t :| t in rows && t.tradeId == s.tradeId;
    }
  }

  /** normalizeSourceRows: succeeds exactly when the source and its mapping are valid, every row reads as a swap
      and no trade id repeats. */
  method NormalizeSourceRows(host: Host, source: Source) returns (r: Try<seq<Swap>>)
    ensures r.Success? <==>
            ValidSource(host, source) && NormalRows(host, source).Success?
            && DistinctTrades(NormalRows(host, source).value)
    ensures r.Success? ==> r == NormalRows(host, source)
  {
    hide NormalFields, ReadRequiredString, Canonical, IsWhole, DistinctTrades, TradeIds, ValidSource;
    var valid := ValidateSourceMapping(host, source);
    if !valid {
      return Failure(INVALID);
    }
    var output: seq<Swap> := [];
    var tradeIds: set<string> := {};
    assert TradeIds(output) == {} && DistinctTrades(output) by { NoTrades(); }
    ghost var f := NormalRowOf(host, source);
    for index := 0 to |source.rows|
      invariant |output| == index && forall k | 0 <= k < index :: f(source.rows[k]) == Success(output[k])
      invariant tradeIds == TradeIds(output) && DistinctTrades(output)
    {
      var row := source.rows[index];
      var providerTradeId := ReadRequiredString(host, row, PathOf(source, TradeId));
      if providerTradeId.Failure? {
        TryMapFails(source.rows, f, output, index);
        return Failure(providerTradeId.error);
      }
      var tradeId := TradeIdOf(source, providerTradeId.value);
      if tradeId in tradeIds {
        RepeatedTrade(host, source, output, index);
        return Failure(INVALID);
      }
      tradeIds := tradeIds + {tradeId};
      var fields := NormalFields(source, row, providerTradeId.value);
      if fields.Failure? {
        TryMapFails(source.rows, f, output, index);
        return Failure(fields.error);
      }
      NormalRowIsCanonical(host, source, row);
      TradeIdsAppend(output, fields.value);
      output := output + [fields.value];
    }
    TryMapSucceeds(source.rows, f, output);
    r := Success(output);
  }

  lemma RepeatedTrade(host: Host, source: Source, output: seq<Swap>, index: nat)
    requires ValidSource(host, source) && |output| == index < |source.rows|
    requires forall k | 0 <= k < index :: NormalRow(host, source, source.rows[k]) == Success(output[k])
    requires var id := ReadRequiredString(host, source.rows[index], PathOf(source, TradeId));
             id.Success? && TradeIdOf(source, id.value) in TradeIds(output)
    ensures NormalRows(host, source).Failure? || !DistinctTrades(NormalRows(host, source).value)
  {
    hide NormalRow, ReadRequiredString;
    if NormalRows(host, source).Success? {
      var all := NormalRows(host, source).value;
      var f := NormalRowOf(host, source);
      assert forall k | 0 <= k < |all| :: f(source.rows[k]) == Success(all[k]);
      NormalRowIsCanonical(host, source, source.rows[index]);
      var t :| t in output && t.tradeId == all[index].tradeId;
      var k :| 0 <= k < |output| && output[k] == t;
      assert all[k] == output[k] && all[k].tradeId == all[index].tradeId;
    }
  }

  // ---------------------------------------------------------------- union

  function Concat(inputs: seq<seq<Swap>>): seq<Swap> {
    if inputs == [] then [] else Concat(inputs[..|inputs| - 1]) + inputs[|inputs| - 1]
  }

  function SourceKeys(rows: seq<Swap>): set<string> {
    set s | s in rows :: s.sourceKey
  }

  ghost function TextOrder(): TopK.Order<string> {
    (a: string, b: string) => TextLess(a, b)
  }

  function TextComparator(): TopK.Comparator<string> {
    (a: string, b: string) => Success(CompareTexts(a, b))
  }

  /** A list holds exactly the members of a set, in strictly increasing order. */
  ghost predicate SortedSet(list: seq<string>, members: set<string>) {
    && (forall x :: x in list <==> x in members)
    && forall i, j | 0 <= i < j < |list| :: TextLess(list[i], list[j])
  }

  lemma TextsAreOrdered(texts: seq<string>)
    requires forall i, j | 0 <= i < j < |texts| :: texts[i] != texts[j]
    ensures TopK.IsOrder(TextOrder()) && TopK.Strict(TextOrder(), texts)
    ensures TopK.Follows(TextComparator(), TextOrder())
  {
    hide TextLess;
    forall a: string, b: string
      ensures TextLess(a, b) || TextLess(b, a) || a == b
      ensures TextLess(a, b) ==> !TextLess(b, a) && a != b
    {
      Ordering.TextOrder(a, b);
    }
    forall a: string, b: string, c: string | TextLess(a, c)
      ensures TextLess(a, b) || TextLess(b, c)
    {
      if TextLess(b, a) {
        TextTransitive(b, a, c);
      }
    }
  }

  /** [...set].sort(), the set being kept in insertion order. */
  method SortTexts(texts: seq<string>) returns (r: seq<string>)
    requires forall i, j | 0 <= i < j < |texts| :: texts[i] != texts[j]
    ensures SortedSet(r, set x | x in texts)
  {
    hide TopK.IsOrder, TopK.Strict, TopK.Follows, TopK.Sort;
    ghost var less := TextOrder();
    var compare := TextComparator();
    TextsAreOrdered(texts);
    var sorted := TopK.NativeSort(texts, compare, less);
    if sorted.Failure? {
      assert false;
    }
    r := sorted.value;
    TopK.SortPermutes(less, texts);
    TopK.SortSorts(less, texts);
    forall x: string
      ensures x in r <==> x in texts
    {
      assert x in r <==> x in multiset(r);
    }
  }

  function AddKey(keys: seq<string>, key: string): (r: seq<string>)
    requires forall i, j | 0 <= i < j < |keys| :: keys[i] != keys[j]
    ensures forall i, j | 0 <= i < j < |r| :: r[i] != r[j]
    ensures forall x :: x in r <==> x in keys || x == key
  {
    if key in keys then keys else keys + [key]
  }

  ghost predicate Unites(rows: seq<Swap>) {
    (forall s | s in rows :: Canonical(s)) && DistinctTrades(rows)
  }

  lemma UnitesAppend(rows: seq<Swap>, s: Swap)
    ensures Unites(rows + [s]) <==> Unites(rows) && Canonical(s) && s.tradeId !in TradeIds(rows)
  {
    hide Canonical;
    TradeIdsAppend(rows, s);
    assert s in rows + [s];
  }

  lemma {:induction false} UnitesPrefix(rows: seq<Swap>, more: seq<Swap>)
    requires Unites(rows + more)
    ensures Unites(rows)
  {
    hide Canonical;
    forall i, j | 0 <= i < j < |rows|
      ensures rows[i].tradeId != rows[j].tradeId
    {
      assert (rows + more)[i] == rows[i] && (rows + more)[j] == rows[j];
    }
  }

  lemma {:induction false} ConcatSplit(inputs: seq<seq<Swap>>, i: nat, j: nat) returns (rest: seq<Swap>)
    requires i < |inputs| && j <= |inputs[i]|
    ensures Concat(inputs) == Concat(inputs[..i]) + inputs[i][..j] + rest
    decreases |inputs|
  {
    var last := inputs[|inputs| - 1];
    if i == |inputs| - 1 {
      rest := last[j..];
      assert last == last[..j] + rest;
    } else {
      var shorter := inputs[..|inputs| - 1];
      rest := ConcatSplit(shorter, i, j);
      assert shorter[..i] == inputs[..i];
      rest := rest + last;
    }
  }

  lemma Refused(inputs: seq<seq<Swap>>, i: nat, j: nat)
    requires i < |inputs| && j < |inputs[i]|
    requires !Unites(Concat(inputs[..i]) + inputs[i][..j] + [inputs[i][j]])
    ensures !Unites(Concat(inputs))
  {
    hide Unites, Concat;
    var rest := ConcatSplit(inputs, i, j + 1);
    assert inputs[i][..j + 1] == inputs[i][..j] + [inputs[i][j]];
    assert Concat(inputs[..i]) + inputs[i][..j + 1] == Concat(inputs[..i]) + inputs[i][..j] + [inputs[i][j]];
    if Unites(Concat(inputs)) {
      UnitesPrefix(Concat(inputs[..i]) + inputs[i][..j + 1], rest);
    }
  }

  /** unionRows: every input row, in order, when all are canonical and no trade id repeats; otherwise an error. */
  method UnionRows(inputs: seq<seq<Swap>>) returns (r: Try<(seq<Swap>, seq<string>)>)
    ensures r.Success? <==> inputs != [] && Unites(Concat(inputs))
    ensures r.Success? ==> r.value.0 == Concat(inputs) && SortedSet(r.value.1, SourceKeys(Concat(inputs)))
  {
    hide Canonical, SortedSet, Unites, TradeIds, SourceKeys;
    if inputs == [] {
      return Failure(INVALID);
    }
    var rows: seq<Swap> := [];
    var tradeIds: set<string> := {};
    var sourceKeys: seq<string> := [];
    NothingUnites();
    for i := 0 to |inputs|
      invariant rows == Concat(inputs[..i]) && Unites(rows) && tradeIds == TradeIds(rows)
      invariant forall a, b | 0 <= a < b < |sourceKeys| :: sourceKeys[a] != sourceKeys[b]
      invariant forall x :: x in sourceKeys <==> x in SourceKeys(rows)
    {
      var input := inputs[i];
      for j := 0 to |input|
        invariant rows == Concat(inputs[..i]) + input[..j] && Unites(rows) && tradeIds == TradeIds(rows)
        invariant forall a, b | 0 <= a < b < |sourceKeys| :: sourceKeys[a] != sourceKeys[b]
        invariant forall x :: x in sourceKeys <==> x in SourceKeys(rows)
      {
        var row := input[j];
        UnitesAppend(rows, row);
        TradeIdsAppend(rows, row);
        if !Canonical(row) || row.tradeId in tradeIds {
          Refused(inputs, i, j);
          return Failure(INVALID);
        }
        tradeIds := tradeIds + {row.tradeId};
        sourceKeys := AddKey(sourceKeys, row.sourceKey);
        SourceKeysAppend(rows, row);
        assert input[..j + 1] == input[..j] + [row];
        rows := rows + [row];
      }
      assert input[..|input|] == input && inputs[..i + 1][..i] == inputs[..i];
    }
    assert inputs[..|inputs|] == inputs;
    var sorted := SortTexts(sourceKeys);
    assert SourceKeys(rows) == set x | x in sourceKeys;
    r := Success((rows, sorted));
  }

  lemma NothingUnites()
    ensures Unites([]) && TradeIds([]) == {} && SourceKeys([]) == {}
  {
  }

  lemma SourceKeysAppend(rows: seq<Swap>, s: Swap)
    ensures SourceKeys(rows + [s]) == SourceKeys(rows) + {s.sourceKey}
  {
    assert s in rows + [s];
  }

  // ---------------------------------------------------------------- the window

  const WINDOW_SHAPE: Shape := [Field("timestamp", TimestampType, false, None)]

  function WindowPredicate(start: string, end: string): Filtering.Predicate {
    Filtering.Predicate(Filtering.All, [
      Filtering.Condition("timestamp", Filtering.Gte, Some(Text(start)), None),
      Filtering.Condition("timestamp", Filtering.Lt, Some(Text(end)), None)])
  }

  /** The only column of a swap that the window filter reads. */
  function TimestampRow(s: Swap): Row {
    map["timestamp" := Text(s.timestamp)]
  }

  function WindowKeeper(host: Host, p: Filtering.Predicate): Swap -> Try<bool> {
    (s: Swap) => Filtering.KeepRow(host, p, WINDOW_SHAPE, TimestampRow(s))
  }

  function FilterTimestampWindow(host: Host, rows: seq<Swap>, startInclusive: string,
      endExclusive: string): Try<seq<Swap>> {
    var start :- IntegerString(Text(startInclusive));
    var end :- IntegerString(Text(endExclusive));
    if NatOf(end) <= NatOf(start) then Failure(INVALID)
    else
      var p := WindowPredicate(start, end);
      if !Filtering.ValidPredicate(host, p, WINDOW_SHAPE) then Failure(InvalidConfig("FILTER_PREDICATE_INVALID"))
      else TryFilter(rows, WindowKeeper(host, p))
  }

  /** The rows whose timestamp lies in the half-open window. */
  function Windowed(rows: seq<Swap>, low: nat, high: nat): seq<Swap>
    requires forall s | s in rows :: IsWhole(s.timestamp)
  {
    if rows == [] then []
    else
      assert rows[0] in rows && IsWhole(rows[0].timestamp);
      assert AllDigits(rows[0].timestamp);
      (if low <= NatOf(rows[0].timestamp) < high then [rows[0]] else []) + Windowed(rows[1..], low, high)
  }

  /** A usable window: two digit strings in increasing order, each fitting a filter literal. */
  predicate ValidWindow(start: string, end: string) {
    && start != "" && AllDigits(start) && end != "" && AllDigits(end) && NatOf(start) < NatOf(end)
    && |TextOf(NatOf(end))| <= 512 && |TextOf(NatOf(start))| <= 512
  }

  lemma WholeTimestamp(host: Host, s: string)
    requires IsWhole(s)
    ensures InstantOf(host, Text(s)) == Some(Epoch(NatOf(s)))
  {
    assert s[0] != '-';
  }

  lemma WindowCondition(host: Host, s: Swap, op: Filtering.FilterOp, bound: string)
    requires IsWhole(s.timestamp) && IsWhole(bound) && (op.Gte? || op.Lt?)
    ensures Filtering.EvaluateCondition(host, TimestampRow(s),
            Filtering.Condition("timestamp", op, Some(Text(bound)), None), WINDOW_SHAPE[0])
            == Success(if op.Gte? then NatOf(bound) <= NatOf(s.timestamp) else NatOf(s.timestamp) < NatOf(bound))
  {
    hide InstantOf, NatOf, IsWhole;
    WholeIsDigits(s.timestamp);
    WholeIsDigits(bound);
    WholeTimestamp(host, s.timestamp);
    WholeTimestamp(host, bound);
    assert CompareSemanticValues(host, TimestampType, Text(s.timestamp), Text(bound)) ==
           Success(CompareInts(NatOf(s.timestamp), NatOf(bound)));
  }

  lemma WindowKeeps(host: Host, s: Swap, start: string, end: string)
    requires IsWhole(s.timestamp) && IsWhole(start) && IsWhole(end)
    ensures Filtering.KeepRow(host, WindowPredicate(start, end), WINDOW_SHAPE, TimestampRow(s))
            == Success(NatOf(start) <= NatOf(s.timestamp) < NatOf(end))
  {
    hide NatOf, IsWhole, Filtering.EvaluateCondition;
    WholeIsDigits(s.timestamp);
    WholeIsDigits(start);
    WholeIsDigits(end);
    var p, row := WindowPredicate(start, end), TimestampRow(s);
    WindowCondition(host, s, Filtering.Gte, start);
    WindowCondition(host, s, Filtering.Lt, end);
    var low, high := NatOf(start) <= NatOf(s.timestamp), NatOf(s.timestamp) < NatOf(end);
    assert Lookup(WINDOW_SHAPE, "timestamp") == Some(WINDOW_SHAPE[0]);
    assert p.conditions[1..][1..] == [];
    assert Filtering.EvaluateConditions(host, row, p.conditions[1..][1..], WINDOW_SHAPE) == Success([]);
    assert Filtering.EvaluateConditions(host, row, p.conditions[1..], WINDOW_SHAPE) == Success([high] + []);
    assert Filtering.EvaluateConditions(host, row, p.conditions, WINDOW_SHAPE) == Success([low] + ([high] + []));
    var results := [low] + ([high] + []);
    assert results[0] in results && results[1] in results;
  }

  lemma WindowLiteral(host: Host, text: string)
    requires IsWhole(text)
    ensures Filtering.ValidLiteral(host, WINDOW_SHAPE[0], Text(text)) <==> |text| <= 512
  {
    hide InstantOf, NatOf;
    WholeTimestamp(host, text);
  }

  lemma WindowPredicateValid(host: Host, start: string, end: string)
    requires IsWhole(start) && IsWhole(end)
    ensures Filtering.ValidPredicate(host, WindowPredicate(start, end), WINDOW_SHAPE) <==>
            |start| <= 512 && |end| <= 512
  {
    hide IsWhole, Filtering.ValidLiteral;
    WindowLiteral(host, start);
    WindowLiteral(host, end);
    var p := WindowPredicate(start, end);
    assert Lookup(WINDOW_SHAPE, "timestamp") == Some(WINDOW_SHAPE[0]);
    var shape := WINDOW_SHAPE;
    assert Filtering.ValidCondition(host, p.conditions[0], shape) <==> |start| <= 512 by { TimestampName(); }
    assert Filtering.ValidCondition(host, p.conditions[1], shape) <==> |end| <= 512 by { TimestampName(); }
  }

  lemma TimestampName()
    ensures IsIdentifier("timestamp")
  {
  }

  lemma {:induction false} WindowRows(host: Host, rows: seq<Swap>, start: string, end: string)
    requires IsWhole(start) && IsWhole(end) && forall s | s in rows :: IsWhole(s.timestamp)
    ensures var p := WindowPredicate(start, end);
            TryFilter(rows, WindowKeeper(host, p)) == Success(Windowed(rows, NatOf(start), NatOf(end)))
    decreases rows
  {
    hide Filtering.KeepRow, NatOf, IsWhole;
    WholeIsDigits(start);
    WholeIsDigits(end);
    if rows != [] {
      assert rows[0] in rows;
      WholeIsDigits(rows[0].timestamp);
      WindowKeeps(host, rows[0], start, end);
      WindowRows(host, rows[1..], start, end);
      var low, high := NatOf(start), NatOf(end);
      var rest := Windowed(rows[1..], low, high);
      assert Windowed(rows, low, high) == (if low <= NatOf(rows[0].timestamp) < high then [rows[0]] else []) + rest;
      assert [] + rest == rest;
    }
  }

  /** The generic filter, given the window as a predicate, keeps exactly the rows inside it; the window is
      refused exactly when it is not two increasing digit strings that fit a filter literal. */
  lemma WindowIsExact(host: Host, rows: seq<Swap>, start: string, end: string)
    requires forall s | s in rows :: IsWhole(s.timestamp)
    ensures FilterTimestampWindow(host, rows, start, end).Success? <==> ValidWindow(start, end)
    ensures ValidWindow(start, end) ==>
            FilterTimestampWindow(host, rows, start, end) ==
            Success(Windowed(rows, NatOf(start), NatOf(end)))
  {
    hide Filtering.KeepRow, Filtering.ValidPredicate, TryFilter, Windowed, NatOf, TextOf;
    if start != "" && AllDigits(start) && end != "" && AllDigits(end) {
      var low, high := TextOf(NatOf(start)), TextOf(NatOf(end));
      WindowPredicateValid(host, low, high);
      WindowRows(host, rows, low, high);
    }
  }
}
