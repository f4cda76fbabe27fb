/** Which comparisons an expression filter decides as the provider does, exactly; and for every other pair of
    types a pushdown that the check accepts although provider and filter disagree. These are the hypotheses of
    the pushdown theorem. */
module PushdownGaps {
  import opened Wrappers
  import opened Values
  import opened Ordering
  import opened Filtering
  import opened Expressions
  import opened ExpressionSoundness
  import opened Maps
  import opened Operators
  import opened Pushdown
  import opened PushdownSoundness
  import OperatorSoundness
  import Decimals
  import Digits

  // ---------------------------------------------------------------- comparison types, exactly

  /** Every comparison that the expression filter decides comes out as the provider's. */
  ghost predicate AlwaysAgree(host: Host, field: FieldType, literal: FieldType) {
    forall c: Comparison, v, w | !Missing(v) && ValidLiteralValue(host, literal, w)
      && CompareSemanticValues(host, Merged2(field, literal), v, w).Success? ::
      (Holds(c, CompareSemanticValues(host, Merged2(field, literal), v, w).value) <==>
        Compares(host, field, OpOf(c), v, w))
  }

  lemma AgreeWhenAlike(host: Host, field: FieldType, literal: FieldType)
    requires Compatible(field, literal) && ComparedAlike(field, literal)
    ensures AlwaysAgree(host, field, literal)
  {
    hide KeyOf, KeyCompare, CompareSemanticValues, Merged2, ComparedAlike, ValidLiteralValue;
    var m := Merged2(field, literal);
    forall c: Comparison, v, w | !Missing(v) && CompareSemanticValues(host, m, v, w).Success?
      ensures Holds(c, CompareSemanticValues(host, m, v, w).value) <==> Compares(host, field, OpOf(c), v, w)
    {
      ComparisonIsKeyOrder(host, m, v, w);
      AlikeKeys(host, field, literal, v);
      AlikeKeys(host, field, literal, w);
    }
  }

  /** A text field of type address against a literal of another text type: the filter compares the texts as they
      are written, the provider without regard to case. */
  lemma AddressDisagrees(host: Host, literal: FieldType)
    requires Textual(literal) && !literal.AddressType? && host.lower("A") == host.lower("a")
    ensures !AlwaysAgree(host, AddressType, literal)
  {
    var v, w := Text("a"), Text("A");
    assert Merged2(AddressType, literal) == StringType;
    assert CompareSemanticValues(host, StringType, v, w) == Success(1);
    KeyOrder(KeyOf(host, AddressType, v), KeyOf(host, AddressType, w));
    assert Compares(host, AddressType, Eq, v, w) && OpOf(EqOp) == Eq;
    assert !Holds(EqOp, 1);
  }

  /** An integer field against a decimal literal: the filter compares rationals, the provider cannot read a
      fraction as a value of the field. */
  lemma IntegerDisagrees(host: Host)
    requires host.bigInt(Text("1.5")) == None
    ensures !AlwaysAgree(host, IntegerType, DecimalType)
  {
    hide Decimals.Parse, Decimals.Compare;
    var v, w := Int(1), Text("1.5");
    OneIsLess();
    assert ValidLiteralValue(host, DecimalType, w);
    ComparisonIsKeyOrder(host, DecimalType, v, w);
    var c := CompareSemanticValues(host, DecimalType, v, w);
    assert Merged2(IntegerType, DecimalType) == DecimalType && c.Success? && c.value < 0;
    assert !Compares(host, IntegerType, OpOf(LtOp), v, w);
    assert Holds(LtOp, c.value);
  }

  lemma OneIsLess()
    ensures Decimals.Parse("1.5") == Some(Decimals.Decimal(15, 1))
    ensures Decimals.Compare(Decimals.Decimal(1, 0), Decimals.Decimal(15, 1)) < 0
  {
    var text := "1.5";
    assert text[1..] == ".5" && Decimals.PointAt(text[1..]) == 0 && Decimals.PointAt(text) == 1;
    assert text[..1] == "1" && text[2..] == "5" && "1" + "5" == "15";
    assert "15"[..1] == "1" && "1"[..0] == "" && Digits.NatOf("") == 0 && Digits.NatOf("1") == 1
           && Digits.NatOf("15") == 15;
    assert Digits.Pow10(0) == 1 && Digits.Pow10(1) == 10;
  }

  /** What the disagreements below need to know of the host: A and a are the same letter, 1.5 is no integer. */
  predicate Ordinary(host: Host) {
    host.lower("A") == host.lower("a") && host.bigInt(Text("1.5")) == None
  }

  /** Filter and provider agree on every value exactly when the field and the literal are compared alike. */
  lemma AlikeExactly(host: Host, field: FieldType, literal: FieldType)
    requires Compatible(field, literal) && Ordinary(host)
    ensures AlwaysAgree(host, field, literal) <==> ComparedAlike(field, literal)
  {
    hide AlwaysAgree;
    if ComparedAlike(field, literal) {
      AgreeWhenAlike(host, field, literal);
    } else if field.AddressType? {
      AddressDisagrees(host, literal);
    } else {
      IntegerDisagrees(host);
    }
  }

  // ---------------------------------------------------------------- accepted all the same

  const FIELD := "a"

  /** A boundary Map that only copies one field. */
  const COPY := MapConfig(Project, [Definition(FIELD, FieldRef(FIELD), None)])

  function ShapeOfOne(ty: FieldType): Shape {
    [Field(FIELD, ty, false, None)]
  }

  /** The comparison of that field with a literal: as an expression filter, and as a where clause. */
  function OneFilter(c: Comparison, literal: FieldType, text: string): FilterConfig {
    ByExpression(Apply(Compare(c), [FieldRef(FIELD), Literal(literal, Text(text))]))
  }

  function OneWhere(c: Comparison, text: string): Gql {
    ObjectNode([GqlField(FIELD + SuffixText(c), Scalar(text))])
  }

  function OneAtom(c: Comparison, text: string): Atom {
    Atom(FIELD + SuffixText(c), Text(text))
  }

  lemma FieldPath()
    ensures SplitPath(FIELD) == [FIELD] && IsName(FIELD) && ValidFieldPath(FIELD) && IsIdentifier(FIELD)
    ensures forall row: Row | FIELD in row :: ReadPath(row, FIELD) == Success(row[FIELD])
  {
    OperatorSoundness.NoPoint(FIELD);
    forall row: Row | FIELD in row
      ensures ReadPath(row, FIELD) == Success(row[FIELD])
    {
      assert ReadSegments(row[FIELD], [FIELD][1..], FIELD) == Success(row[FIELD]);
    }
  }

  lemma OneQuery(c: Comparison, text: string)
    ensures QueryGroups(Some(OneWhere(c, text))) == Some([[OneAtom(c, text)]])
  {
    var name := FIELD + SuffixText(c);
    assert name[0] == 'a' && |name| != 3;
    var field := GqlField(name, Scalar(text));
    var fields, none: seq<GqlField> := [field], [];
    assert fields[1..] == none && Pushdown.Without(none, CURSOR) == none && Named(none, "or") == none
           && Named(none, "and") == none;
    assert Pushdown.Without(fields, CURSOR) == [field] + none == fields;
    assert GraphField(field, "", 0) == Some([OneAtom(c, text)]) && GraphFields(none, "", 0) == Some([]);
    assert GraphFields(fields, "", 0) == Some([OneAtom(c, text)] + []);
    assert [OneAtom(c, text)] + [] == [OneAtom(c, text)];
  }

  lemma OneChain(c: Comparison, literal: FieldType, text: string)
    ensures ChainGroups([OneFilter(c, literal, text)], COPY, [], [[]]) == Some([[OneAtom(c, text)]])
  {
    hide SuffixText, IsName;
    FieldPath();
    var atom, start: seq<Group> := [OneAtom(c, text)], [[]];
    assert ProviderField(COPY, FIELD, []) == Some(FIELD);
    assert ConfigGroups(OneFilter(c, literal, text), COPY, []) == Some([atom]);
    assert start[1..] == [] && Product(start[1..], [atom]) == [];
    assert start[0] + atom == atom && Prepend(start[0], [atom]) == [atom];
    assert Product(start, [atom]) == [atom] + [] == [atom];
    assert CombineAnd(start, [atom]) == Some([atom]);
    assert [OneFilter(c, literal, text)][1..] == [];
  }

  /** The check accepts the pair, whatever the type of the literal. */
  lemma OneIsAccepted(s: Sorter, c: Comparison, literal: FieldType, text: string)
    ensures Accepts(s, Some(OneWhere(c, text)), [OneFilter(c, literal, text)], COPY, [])
  {
    OneQuery(c, text);
    OneChain(c, literal, text);
  }

  /** What the provider decides. */
  lemma OneProvided(host: Host, ty: FieldType, c: Comparison, v: Value, text: string)
    ensures WhereHolds(host, ShapeOfOne(ty), map[FIELD := v], true, OneWhere(c, text)) <==>
            Compares(host, ty, OpOf(c), v, Text(text))
  {
    hide Compares, AtomTrue, GroupTrue, NoOperatorSuffix;
    var schema, row := ShapeOfOne(ty), map[FIELD := v];
    OneQuery(c, text);
    QueryTrue(host, schema, row, Some(OneWhere(c, text)));
    assert [OneAtom(c, text)] in [[OneAtom(c, text)]];
    OnlyAtom(host, schema, row, OneAtom(c, text));
    NoSuffix(ty);
    AtomIs(host, schema, row, schema[0], OpOf(c), Text(text));
    FieldPath();
    assert Stored(row, FIELD) == v;
  }

  lemma OnlyAtom(host: Host, schema: Shape, row: Row, a: Atom)
    ensures GroupTrue(host, schema, row, [a]) <==> AtomTrue(host, schema, row, a)
  {
    hide AtomTrue;
    assert a in [a];
  }

  lemma NoSuffix(ty: FieldType)
    ensures NoOperatorSuffix(ShapeOfOne(ty)) && Unique(ShapeOfOne(ty))
  {
  }

  /** What the filter decides. */
  lemma OneFiltered(host: Host, ty: FieldType, literal: FieldType, c: Comparison, v: Value, text: string)
    requires Compatible(ty, literal) && ValidLiteralValue(host, literal, Text(text)) && !Missing(v)
    requires CompareSemanticValues(host, Merged2(ty, literal), v, Text(text)).Success?
    ensures Passes(host, [OneFilter(c, literal, text)], ShapeOfOne(ty), map[FIELD := v]) ==
              Success(Holds(c, CompareSemanticValues(host, Merged2(ty, literal), v, Text(text)).value))
  {
    hide CompareSemanticValues, Merged2, ValidLiteralValue, KeepByExpression, Compatible, MergedType;
    var shape, row := ShapeOfOne(ty), map[FIELD := v];
    var filter := OneFilter(c, literal, text);
    OneInferred(host, ty, literal, c, text);
    OneEvaluated(host, ty, literal, c, v, text);
    FieldPath();
    KeepsItsValue(host, filter.e, row, shape);
    assert [filter][1..] == [];
    assert Passes(host, [], shape, row) == Success(true);
  }

  lemma OneInferred(host: Host, ty: FieldType, literal: FieldType, c: Comparison, text: string)
    requires Compatible(ty, literal) && ValidLiteralValue(host, literal, Text(text))
    ensures InferExpression(host, OneFilter(c, literal, text).e, ShapeOfOne(ty)).Success?
    ensures InferExpression(host, FieldRef(FIELD), ShapeOfOne(ty)) == Success(Typing(ty, false, None))
    ensures InferExpression(host, Literal(literal, Text(text)), ShapeOfOne(ty)) == Success(Typing(literal, false, None))
  {
    hide ValidLiteralValue, Compatible, InferAll, DepthAll, NodesAll, ValidFieldPath;
    FieldPath();
    var shape, left, right := ShapeOfOne(ty), FieldRef(FIELD), Literal(literal, Text(text));
    LookupUnique(shape, shape[0]);
    assert Infer(host, left, shape) == Success(Typing(ty, false, None));
    assert Infer(host, right, shape) == Success(Typing(literal, false, None));
    InferBoth(host, left, right, shape);
    SizeOfBoth(left, right);
  }

  lemma InferBoth(host: Host, left: Expr, right: Expr, shape: Shape)
    requires Infer(host, left, shape).Success? && Infer(host, right, shape).Success?
    ensures InferAll(host, [left, right], shape) ==
            Success([Infer(host, left, shape).value, Infer(host, right, shape).value])
  {
    hide Infer;
    var inputs := [left, right];
    assert inputs[1..] == [right] && inputs[1..][1..] == [];
    assert InferAll(host, [], shape) == Success([]);
    var a, b := Infer(host, left, shape).value, Infer(host, right, shape).value;
    assert InferAll(host, inputs[1..], shape) == Success([b] + []);
    assert [a] + ([b] + []) == [a, b];
  }

  lemma SizeOfBoth(left: Expr, right: Expr)
    ensures NodesAll([left, right]) == Nodes(left) + Nodes(right)
    ensures DepthAll([left, right]) == if Depth(left) > Depth(right) then Depth(left) else Depth(right)
  {
    var inputs := [left, right];
    assert inputs[1..] == [right] && inputs[1..][1..] == [];
    assert NodesAll(inputs[1..]) == Nodes(right) && DepthAll(inputs[1..]) == Depth(right);
  }

  lemma OneEvaluated(host: Host, ty: FieldType, literal: FieldType, c: Comparison, v: Value, text: string)
    requires Compatible(ty, literal) && ValidLiteralValue(host, literal, Text(text)) && !Missing(v)
    requires CompareSemanticValues(host, Merged2(ty, literal), v, Text(text)).Success?
    ensures Evaluate(host, OneFilter(c, literal, text).e, map[FIELD := v], ShapeOfOne(ty)) ==
              Success(Bool(Holds(c, CompareSemanticValues(host, Merged2(ty, literal), v, Text(text)).value)))
  {
    hide CompareSemanticValues, Merged2, ValidLiteralValue, Compatible, MergedType, InferExpression, EvaluateAll, Holds;
    var shape, row, inputs := ShapeOfOne(ty), map[FIELD := v], [FieldRef(FIELD), Literal(literal, Text(text))];
    OneInferred(host, ty, literal, c, text);
    MergedPair(Typing(ty, false, None), Typing(literal, false, None));
    BothSides(host, literal, v, text, shape);
    assert forall x | x in [v, Text(text)] :: !Missing(x);
    assert EvaluateStrict(host, Compare(c), inputs, [v, Text(text)], shape) ==
           Success(Bool(Holds(c, CompareSemanticValues(host, Merged2(ty, literal), v, Text(text)).value)));
  }

  lemma BothSides(host: Host, literal: FieldType, v: Value, text: string, shape: Shape)
    ensures EvaluateAll(host, [FieldRef(FIELD), Literal(literal, Text(text))], map[FIELD := v], shape) ==
            Success([v, Text(text)])
  {
    hide ReadPath;
    FieldPath();
    var row, inputs := map[FIELD := v], [FieldRef(FIELD), Literal(literal, Text(text))];
    assert inputs[1..] == [inputs[1]] && inputs[1..][1..] == [];
    assert EvaluateAll(host, [], row, shape) == Success([]);
    assert EvaluateAll(host, inputs[1..], row, shape) == Success([Text(text)] + []);
    assert [v] + ([Text(text)] + []) == [v, Text(text)];
  }

  lemma KeepsItsValue(host: Host, e: Expr, row: Row, shape: Shape)
    requires InferExpression(host, e, shape).Success? && Evaluate(host, e, row, shape).Success?
    ensures KeepByExpression(host, e, shape, row) == Success(Evaluate(host, e, row, shape).value == Bool(true))
  {
    hide Evaluate, InferExpression;
    var d := Definition(MATCHES, e, None);
    assert IsIdentifier(MATCHES) && ValidMap(host, MapConfig(Project, [d]), shape);
    OperatorSoundness.AssignOne(host, row, d, shape);
    OperatorSoundness.TryMapOne(row, Mapper(host, MapConfig(Project, [d]), shape));
  }

  /** The Map hands the row on as it is. */
  lemma OneCopied(host: Host, ty: FieldType, v: Value)
    ensures ValidMap(host, COPY, ShapeOfOne(ty))
            && MapRow(host, map[FIELD := v], COPY, ShapeOfOne(ty)) == Success(map[FIELD := v])
    ensures MapShape(host, COPY.fields, ShapeOfOne(ty), []) == Success(ShapeOfOne(ty))
  {
    FieldPath();
    var shape, d := ShapeOfOne(ty), COPY.fields[0];
    assert Lookup(shape, FIELD) == Some(shape[0]);
    assert InferDefinition(host, d, shape) == Success(Typing(ty, false, None));
    assert forall x | x in COPY.fields :: x == d;
    OperatorSoundness.AssignOne(host, map[FIELD := v], d, shape);
    assert COPY.fields[1..] == [];
    assert SetField([], shape[0]) == shape;
    assert MapShape(host, [], shape, shape) == Success(shape);
  }

  /** For every compatible pair of types that is not compared alike there is a plan and a row on which the check
      accepts the pushdown, and the provider keeps the row or drops it while the filter does the opposite. */
  lemma UnlikeIsAccepted(host: Host, s: Sorter, field: FieldType, literal: FieldType)
      returns (c: Comparison, text: string, v: Value)
    requires Ordinary(host) && Compatible(field, literal) && !ComparedAlike(field, literal)
    ensures Accepts(s, Some(OneWhere(c, text)), [OneFilter(c, literal, text)], COPY, [])
    ensures var shape, row := ShapeOfOne(field), map[FIELD := v];
            && ValidMap(host, COPY, shape) && MapShape(host, COPY.fields, shape, []) == Success(shape)
              && MapRow(host, row, COPY, shape) == Success(row)
            && InferExpression(host, OneFilter(c, literal, text).e, shape).Success? && FitsType(ByValue, field, v)
            && Passes(host, [OneFilter(c, literal, text)], shape, row).Success?
            && (Passes(host, [OneFilter(c, literal, text)], shape, row).value <==>
              !WhereHolds(host, shape, row, true, OneWhere(c, text)))
  {
    hide Accepts, WhereHolds, Passes, KeyOf, KeyCompare, Decimals.Parse, Decimals.Compare, ValidMap, MapRow, MapShape,
      InferExpression;
    if field.AddressType? {
      c, text, v := EqOp, "A", Text("a");
      assert Merged2(field, literal) == StringType
             && CompareSemanticValues(host, StringType, v, Text(text)) == Success(1);
      SameLetter(host);
    } else {
      c, text, v := LtOp, "1.5", Int(1);
      OneIsLess();
      NoInteger(host);
      assert Merged2(field, literal) == DecimalType;
    }
    OneIsAccepted(s, c, literal, text);
    OneCopied(host, field, v);
    OneInferred(host, field, literal, c, text);
    OneFiltered(host, field, literal, c, v, text);
    OneProvided(host, field, c, v, text);
  }

  lemma SameLetter(host: Host)
    requires Ordinary(host)
    ensures Compares(host, AddressType, Eq, Text("a"), Text("A"))
  {
    KeyOrder(KeyOf(host, AddressType, Text("a")), KeyOf(host, AddressType, Text("A")));
  }

  lemma NoInteger(host: Host)
    requires Ordinary(host)
    ensures !Compares(host, IntegerType, Lt, Int(1), Text("1.5"))
  {
    assert !IsIntegerText("1.5") by {
      assert "1.5"[1] == '.';
    }
  }
}
