/** How tight type inference is (dag/map.ts, dag/compiler.ts): for one operator over columns, and for one measure,
    what is inferred beyond what rows need would be a false alarm of the compiler. */
module InferenceExact {
  import opened Wrappers
  import opened Values
  import opened Ordering
  import opened Expressions
  import opened ExpressionSoundness
  import opened ExpressionMeaning
  import opened Aggregation
  import opened OperatorSoundness
  import Decimals
  import Digits

  function Refs(names: seq<string>): (es: seq<Expr>)
    ensures |es| == |names| && forall i | 0 <= i < |es| :: es[i] == FieldRef(names[i])
  {
    seq(|names|, i requires 0 <= i < |names| => FieldRef(names[i]))
  }

  /** One operator applied to columns. */
  function Over(op: Operator, names: seq<string>): Expr {
    Apply(op, Refs(names))
  }

  /** A present value of the type. */
  function Sample(ty: FieldType, b: bool): (v: Value)
    ensures !Missing(v)
  {
    match ty
    case BooleanType => Bool(b)
    case IntegerType | DecimalType | TimestampType => Int(0)
    case _ => Text("")
  }

  lemma SampleFits(ty: FieldType, b: bool)
    ensures FitsType(ByValue, ty, Sample(ty, b))
  {
  }

  /** The row that is null wherever its shape allows, and has samples elsewhere. */
  function NullRow(shape: Shape, b: bool): Row {
    map name | name in Names(shape) ::
      var f := Lookup(shape, name);
      if f.None? || f.value.nullable then Null else Sample(f.value.ty, b)
  }

  lemma NullRowHas(shape: Shape, b: bool)
    requires Flat(shape)
    ensures RowHas(ByValue, NullRow(shape, b), shape)
  {
    hide Sample, FitsType;
    forall f | f in shape
      ensures f.name in NullRow(shape, b) && Fits(ByValue, f.ty, f.nullable, NullRow(shape, b)[f.name])
    {
      LookupUnique(shape, f);
      LookupInNames(shape, f.name);
      SampleFits(f.ty, b);
    }
  }

  /** A column reference reads its column. */
  lemma ReadsColumn(host: Host, row: Row, shape: Shape, name: string)
    requires Flat(shape) && RowHas(ByValue, row, shape) && InferExpression(host, FieldRef(name), shape).Success?
    ensures name in row && Evaluate(host, FieldRef(name), row, shape) == Success(row[name])
    ensures Lookup(shape, name).Some?
    ensures var f := Lookup(shape, name).value;
            InferExpression(host, FieldRef(name), shape) == Success(Typing(f.ty, f.nullable, f.unit))
  {
    hide Fits;
    var f := Lookup(shape, name).value;
    NoPoint(f.name);
    assert SplitPath(f.name) == [f.name];
    assert f.name in SplitPath(f.name);
    assert ReadSegments(row[f.name], [f.name][1..], f.name) == Success(row[f.name]);
  }

  /** The typings of the columns, and what a null row holds in them. */
  lemma ReadsNullRow(host: Host, op: Operator, names: seq<string>, shape: Shape, b: bool)
    requires Flat(shape) && InferExpression(host, Over(op, names), shape).Success?
    ensures InferAll(host, Refs(names), shape).Success? && |InferAll(host, Refs(names), shape).value| == |names|
    ensures ArityOk(op, |names|)
    ensures InferExpression(host, Over(op, names), shape) ==
            InferOperation(op, InferAll(host, Refs(names), shape).value)
    ensures var ts := InferAll(host, Refs(names), shape).value;
            forall i | 0 <= i < |names| ::
              Evaluate(host, Refs(names)[i], NullRow(shape, b), shape) ==
              Success(if ts[i].nullable then Null else Sample(ts[i].ty, b))
  {
    hide Infer, InferAll, InferOperation, Evaluate, NullRow, Depth, Nodes, ArityOk;
    InferOver(host, op, names, shape);
    NullRowHas(shape, b);
    forall i | 0 <= i < |names|
      ensures var ts := InferAll(host, Refs(names), shape).value;
              Evaluate(host, Refs(names)[i], NullRow(shape, b), shape) ==
              Success(if ts[i].nullable then Null else Sample(ts[i].ty, b))
    {
      InputAccepted(host, Over(op, names), shape, i);
      ReadsColumn(host, NullRow(shape, b), shape, names[i]);
      NullRowAt(shape, b, names[i]);
    }
  }

  lemma NullRowAt(shape: Shape, b: bool, name: string)
    requires Lookup(shape, name).Some? && name in NullRow(shape, b)
    ensures var f := Lookup(shape, name).value;
            NullRow(shape, b)[name] == if f.nullable then Null else Sample(f.ty, b)
  {
  }

  lemma InferOver(host: Host, op: Operator, names: seq<string>, shape: Shape)
    requires InferExpression(host, Over(op, names), shape).Success?
    ensures InferAll(host, Refs(names), shape).Success? && ArityOk(op, |names|)
    ensures InferExpression(host, Over(op, names), shape) ==
            InferOperation(op, InferAll(host, Refs(names), shape).value)
  {
    hide InferAll, InferOperation, Depth, Nodes, ArityOk;
    InferApply(host, op, Refs(names), shape);
  }

  /** Some row of the shape makes the expression null. */
  ghost predicate CanBeNull(host: Host, e: Expr, shape: Shape) {
    exists row: Row :: RowHas(ByValue, row, shape) && Evaluate(host, e, row, shape) == Success(Null)
  }

  /** Inference says nullable of an operator over columns exactly when some row of the shape makes it null. */
  lemma NullableExactly(host: Host, op: Operator, names: seq<string>, shape: Shape)
    requires Flat(shape) && InferExpression(host, Over(op, names), shape).Success?
    ensures InferExpression(host, Over(op, names), shape).value.nullable <==> CanBeNull(host, Over(op, names), shape)
  {
    hide Infer, Evaluate, RowHas, Flat, NullRow;
    var e := Over(op, names);
    if CanBeNull(host, e, shape) {
      var row: Row :| RowHas(ByValue, row, shape) && Evaluate(host, e, row, shape) == Success(Null);
      FlatRow(ByValue, row, shape, FieldsOf(e));
      EvaluateSound(ByValue, host, e, row, shape);
    }
    if InferExpression(host, e, shape).value.nullable {
      var b := NullWitness(host, op, names, shape);
      NullRowHas(shape, b);
    }
  }

  lemma NullWitness(host: Host, op: Operator, names: seq<string>, shape: Shape) returns (b: bool)
    requires Flat(shape) && InferExpression(host, Over(op, names), shape).Success?
    requires InferExpression(host, Over(op, names), shape).value.nullable
    ensures Evaluate(host, Over(op, names), NullRow(shape, b), shape) == Success(Null)
  {
    hide Infer, InferAll, Evaluate, Flat, NullRow, Depth, Nodes;
    InferOver(host, op, names, shape);
    if op.If? {
      b := IfWitness(host, names, shape);
    } else if op.Coalesce? {
      b := true;
      CoalesceWitness(host, names, shape, b);
    } else if op.And? || op.Or? {
      b := op.And?;
      LogicWitness(host, op, names, shape);
    } else {
      b := true;
      StrictWitness(host, op, names, shape, b);
    }
  }

  lemma IfWitness(host: Host, names: seq<string>, shape: Shape) returns (b: bool)
    requires Flat(shape) && InferExpression(host, Over(If, names), shape).Success?
    requires InferExpression(host, Over(If, names), shape).value.nullable
    ensures Evaluate(host, Over(If, names), NullRow(shape, b), shape) == Success(Null)
  {
    hide Infer, InferAll, Evaluate, Flat, NullRow, Depth, Nodes, MergedType;
    InferOver(host, If, names, shape);
    var ts := InferAll(host, Refs(names), shape).value;
    b := ts[1].nullable;
    ReadsNullRow(host, If, names, shape, b);
    assert ts[0] in ts && (ts[0].nullable || ts[1].nullable || ts[2].nullable);
    var es := Refs(names);
    assert es == [es[0], es[1], es[2]];
    IfMeans(host, es[0], es[1], es[2], NullRow(shape, b), shape);
  }

  lemma CoalesceWitness(host: Host, names: seq<string>, shape: Shape, b: bool)
    requires Flat(shape) && InferExpression(host, Over(Coalesce, names), shape).Success?
    requires InferExpression(host, Over(Coalesce, names), shape).value.nullable
    ensures Evaluate(host, Over(Coalesce, names), NullRow(shape, b), shape) == Success(Null)
  {
    hide Infer, InferAll, Evaluate, Flat, NullRow, Depth, Nodes, MergedType;
    ReadsNullRow(host, Coalesce, names, shape, b);
    var ts := InferAll(host, Refs(names), shape).value;
    assert forall i | 0 <= i < |ts| :: ts[i] in ts;
    CoalesceMeans(host, Refs(names), NullRow(shape, b), shape, |names|);
  }

  lemma LogicWitness(host: Host, op: Operator, names: seq<string>, shape: Shape)
    requires op.And? || op.Or?
    requires Flat(shape) && InferExpression(host, Over(op, names), shape).Success?
    requires InferExpression(host, Over(op, names), shape).value.nullable
    ensures Evaluate(host, Over(op, names), NullRow(shape, op.And?), shape) == Success(Null)
  {
    hide Infer, InferAll, Evaluate, Flat, NullRow, Depth, Nodes;
    ReadsNullRow(host, op, names, shape, op.And?);
    var ts := InferAll(host, Refs(names), shape).value;
    assert forall i | 0 <= i < |ts| :: ts[i] in ts;
    LogicMeans(host, op.And?, Refs(names), NullRow(shape, op.And?), shape, |names|);
  }

  lemma StrictWitness(host: Host, op: Operator, names: seq<string>, shape: Shape, b: bool)
    requires Strict(op) && Flat(shape) && InferExpression(host, Over(op, names), shape).Success?
    requires InferExpression(host, Over(op, names), shape).value.nullable
    ensures Evaluate(host, Over(op, names), NullRow(shape, b), shape) == Success(Null)
  {
    hide Infer, InferAll, Evaluate, Flat, NullRow, Depth, Nodes, Compatible, Decimals.Value;
    ReadsNullRow(host, op, names, shape, b);
    var ts, row, es := InferAll(host, Refs(names), shape).value, NullRow(shape, b), Refs(names);
    if i :| 0 <= i < |ts| && ts[i].nullable {
      MissingMeansNull(host, op, es, row, shape, i);
    } else {
      assert op.DivideOp?;
      assert ts[0] in ts && ts[1] in ts && es == [es[0], es[1]];
      Whole(0);
      ArithmeticMeans(host, es[0], es[1], row, shape, Int(0), Int(0), 0.0, 0.0);
    }
  }

  // ---------------------------------------------------------------- numbers

  /** Some row of the shape gives the expression a number that is not whole. */
  ghost predicate CanBeFraction(host: Host, e: Expr, shape: Shape) {
    exists row: Row, x: real :: RowHas(ByValue, row, shape) && Yields(host, e, row, shape, x) && !Decimals.IsInteger(x)
  }

  predicate IsNumberOperator(op: Operator) {
    IsArithmetic(op) || op.AbsOp? || Rounds(op)
  }

  /** The type inferred of a number operator over different columns is decimal exactly when some row of the shape
      gives it a fraction. */
  lemma NumberTypeExactly(host: Host, op: Operator, names: seq<string>, shape: Shape)
    requires Flat(shape) && InferExpression(host, Over(op, names), shape).Success? && IsNumberOperator(op)
    requires forall i, j | 0 <= i < j < |names| :: names[i] != names[j]
    ensures var t := InferExpression(host, Over(op, names), shape).value;
            Numeric(t.ty) && (t.ty.DecimalType? <==> CanBeFraction(host, Over(op, names), shape))
  {
    hide Infer, Evaluate, RowHas, Flat, Decimals.IsInteger, Depth, Nodes;
    var e := Over(op, names);
    InferOver(host, op, names, shape);
    NumberColumns(host, op, names, shape);
    if CanBeFraction(host, e, shape) {
      var row: Row, x: real :| RowHas(ByValue, row, shape) && Yields(host, e, row, shape, x) && !Decimals.IsInteger(x);
      FlatRow(ByValue, row, shape, FieldsOf(e));
      EvaluateSound(ByValue, host, e, row, shape);
      if InferExpression(host, e, shape).value.ty.IntegerType? {
        MeansPresent(Evaluate(host, e, row, shape).value, x);
        IntegerMeans(Evaluate(host, e, row, shape).value, x);
      }
    } else if InferExpression(host, e, shape).value.ty.DecimalType? {
      FractionWitness(host, op, names, shape);
    }
  }

  lemma IntegerMeans(v: Value, x: real)
    requires FitsType(ByValue, IntegerType, v) && Means(v, x)
    ensures Decimals.IsInteger(x)
  {
    hide Decimals.Parse, Decimals.Value, IsIntegerText;
    NumberReads(IntegerType, v);
    Whole(DecimalOf(v).value.coefficient);
    assert DecimalOf(v).value == Decimals.Decimal(DecimalOf(v).value.coefficient, 0);
  }

  /** A number operator has one or two inputs, and its columns hold numbers. */
  lemma NumberColumns(host: Host, op: Operator, names: seq<string>, shape: Shape)
    requires InferExpression(host, Over(op, names), shape).Success? && IsNumberOperator(op)
    ensures InferAll(host, Refs(names), shape).Success?
    ensures |names| == if IsArithmetic(op) then 2 else 1
    ensures Numeric(InferExpression(host, Over(op, names), shape).value.ty)
    ensures var ts := InferAll(host, Refs(names), shape).value;
            forall i | 0 <= i < |names| ::
              InferExpression(host, FieldRef(names[i]), shape) == Success(ts[i])
              && (op.ToIntegerOp? || Numeric(ts[i].ty))
  {
    hide Infer, InferAll, Depth, Nodes, InferOperation, Lookup;
    InferOver(host, op, names, shape);
    var ts := InferAll(host, Refs(names), shape).value;
    NumberTypings(op, ts);
    forall i | 0 <= i < |names|
      ensures InferExpression(host, FieldRef(names[i]), shape) == Success(ts[i])
    {
      InputAccepted(host, Over(op, names), shape, i);
    }
  }

  lemma NumberTypings(op: Operator, ts: seq<Typing>)
    requires IsNumberOperator(op) && ArityOk(op, |ts|) && InferOperation(op, ts).Success?
    ensures |ts| == (if IsArithmetic(op) then 2 else 1) && Numeric(InferOperation(op, ts).value.ty)
    ensures forall i | 0 <= i < |ts| :: op.ToIntegerOp? || Numeric(ts[i].ty)
  {
    assert forall i | 0 <= i < |ts| :: ts[i] in ts;
  }

  /** Samples everywhere but in the chosen columns. */
  function Chosen(shape: Shape, chosen: map<string, Value>): Row {
    map name | name in Names(shape) ::
      if name in chosen then chosen[name]
      else if Lookup(shape, name).None? then Null else Sample(Lookup(shape, name).value.ty, true)
  }

  lemma ChosenHas(shape: Shape, chosen: map<string, Value>)
    requires Flat(shape)
    requires forall f | f in shape && f.name in chosen ::
               !Missing(chosen[f.name]) && FitsType(ByValue, f.ty, chosen[f.name])
    ensures RowHas(ByValue, Chosen(shape, chosen), shape)
  {
    hide Sample, FitsType;
    forall f | f in shape
      ensures f.name in Chosen(shape, chosen) && Fits(ByValue, f.ty, f.nullable, Chosen(shape, chosen)[f.name])
    {
      LookupUnique(shape, f);
      LookupInNames(shape, f.name);
      SampleFits(f.ty, true);
    }
  }

  lemma ChosenRow(host: Host, shape: Shape, names: seq<string>, values: seq<Value>) returns (row: Row)
    requires Flat(shape) && |names| == |values|
    requires forall i, j | 0 <= i < j < |names| :: names[i] != names[j]
    requires forall i | 0 <= i < |names| ::
               && InferExpression(host, FieldRef(names[i]), shape).Success? && !Missing(values[i])
               && FitsType(ByValue, InferExpression(host, FieldRef(names[i]), shape).value.ty, values[i])
    ensures RowHas(ByValue, row, shape)
    ensures forall i | 0 <= i < |names| :: Evaluate(host, FieldRef(names[i]), row, shape) == Success(values[i])
  {
    hide Evaluate, RowHas, FitsType, Infer, Flat, Depth, Nodes;
    var chosen := map i | 0 <= i < |names| :: names[i] := values[i];
    forall f | f in shape && f.name in chosen
      ensures !Missing(chosen[f.name]) && FitsType(ByValue, f.ty, chosen[f.name])
    {
      var i :| 0 <= i < |names| && names[i] == f.name;
      TypeOfColumn(host, shape, f);
    }
    ChosenHas(shape, chosen);
    row := Chosen(shape, chosen);
    forall i | 0 <= i < |names|
      ensures Evaluate(host, FieldRef(names[i]), row, shape) == Success(values[i])
    {
      ReadsColumn(host, row, shape, names[i]);
    }
  }

  lemma TypeOfColumn(host: Host, shape: Shape, f: Field)
    requires Flat(shape) && f in shape && InferExpression(host, FieldRef(f.name), shape).Success?
    ensures InferExpression(host, FieldRef(f.name), shape).value.ty == f.ty
  {
    LookupUnique(shape, f);
  }

  const HALF := Text(Decimals.Print(Decimals.Decimal(5, 1)))

  lemma HalfMeans()
    ensures FitsType(ByValue, DecimalType, HALF) && Means(HALF, 0.5)
    ensures !Decimals.IsInteger(0.5) && !Decimals.IsInteger(-0.5)
  {
    hide Decimals.Print, Decimals.Parse, Decimals.Value;
    PrintMeans(Decimals.Decimal(5, 1));
    PrintFits(ByValue, DecimalType, Decimals.Decimal(5, 1));
    assert Digits.Pow10(1) == 10;
    Decimals.ValueIs(Decimals.Decimal(5, 1), 0.5);
    assert (0.5).Floor == 0 && (-0.5).Floor == -1;
  }

  lemma FractionWitness(host: Host, op: Operator, names: seq<string>, shape: Shape)
    requires Flat(shape) && InferExpression(host, Over(op, names), shape).Success? && IsNumberOperator(op)
    requires forall i, j | 0 <= i < j < |names| :: names[i] != names[j]
    requires InferExpression(host, Over(op, names), shape).value.ty.DecimalType?
    ensures CanBeFraction(host, Over(op, names), shape)
  {
    hide Infer, InferAll, Evaluate, Flat, RowHas, Depth, Nodes, Decimals.IsInteger, Means, Decimals.Print, Yields;
    InferOver(host, op, names, shape);
    NumberColumns(host, op, names, shape);
    var ts := InferAll(host, Refs(names), shape).value;
    if op.AbsOp? {
      AbsoluteWitness(host, names, shape);
    } else if op.DivideOp? {
      DivideWitness(host, names, shape);
    } else {
      var first := ts[0].ty.DecimalType?;
      assert first || ts[1].ty.DecimalType?;
      HalfAndInteger(host, op, names, shape, first);
    }
  }

  lemma AbsoluteWitness(host: Host, names: seq<string>, shape: Shape)
    requires Flat(shape) && |names| == 1 && InferExpression(host, FieldRef(names[0]), shape).Success?
    requires InferExpression(host, FieldRef(names[0]), shape).value.ty.DecimalType?
    ensures CanBeFraction(host, Over(AbsOp, names), shape)
  {
    hide Infer, Evaluate, Flat, RowHas, Depth, Nodes, Decimals.IsInteger, Means, Decimals.Print, Yields, FitsType;
    HalfMeans();
    var es := Refs(names);
    assert es == [es[0]];
    var row := ChosenRow(host, shape, names, [HALF]);
    RoundingMeans(host, es[0], row, shape, HALF, 0.5);
  }

  lemma DivideWitness(host: Host, names: seq<string>, shape: Shape)
    requires Flat(shape) && InferExpression(host, Over(DivideOp, names), shape).Success?
    requires forall i, j | 0 <= i < j < |names| :: names[i] != names[j]
    ensures CanBeFraction(host, Over(DivideOp, names), shape)
  {
    hide Infer, InferAll, Evaluate, Flat, RowHas, Depth, Nodes, Yields, Decimals.IsInteger, Means, Decimals.Value,
      InferOperation;
    NumberColumns(host, DivideOp, names, shape);
    var es := Refs(names);
    assert es == [es[0], es[1]];
    IntMeans(1);
    IntMeans(2);
    var row := ChosenRow(host, shape, names, [Int(1), Int(2)]);
    ArithmeticMeans(host, es[0], es[1], row, shape, Int(1), Int(2), 1.0, 2.0);
    var r: Decimals.Decimal :|
      Yields(host, Over(DivideOp, names), row, shape, Decimals.Value(r)) && Millionth(r, 1.0 / 2.0);
    NearHalf(Decimals.Value(r));
  }

  lemma IntMeans(n: int)
    ensures Means(Int(n), n as real) && FitsType(ByValue, IntegerType, Int(n)) && FitsType(ByValue, DecimalType, Int(n))
  {
    hide Decimals.Value;
    Whole(n);
  }

  lemma NearHalf(x: real)
    requires -0.5 <= (x - 1.0 / 2.0) * 1000000.0 <= 0.5
    ensures !Decimals.IsInteger(x)
  {
    assert 0.4 < x < 0.6;
    WholeMeans(x);
  }

  lemma HalfAndInteger(host: Host, op: Operator, names: seq<string>, shape: Shape, first: bool)
    requires op.AddOp? || op.SubtractOp? || op.MultiplyOp?
    requires Flat(shape) && |names| == 2 && names[0] != names[1]
    requires forall i | 0 <= i < 2 ::
               InferExpression(host, FieldRef(names[i]), shape).Success?
               && Numeric(InferExpression(host, FieldRef(names[i]), shape).value.ty)
    requires InferExpression(host, FieldRef(names[if first then 0 else 1]), shape).value.ty.DecimalType?
    ensures CanBeFraction(host, Over(op, names), shape)
  {
    hide Infer, Evaluate, Flat, RowHas, Depth, Nodes, Yields, Decimals.IsInteger, Means, Decimals.Print, FitsType,
      Sample, InferExpression, Lookup, IsArithmetic;
    HalfMeans();
    var n := if op.MultiplyOp? then 1 else 0;
    IntMeans(n);
    if first {
      var row := ChosenRow(host, shape, names, [HALF, Int(n)]);
      HalfResult(host, op, names, row, shape, HALF, Int(n), 0.5, n as real);
    } else {
      var row := ChosenRow(host, shape, names, [Int(n), HALF]);
      HalfResult(host, op, names, row, shape, Int(n), HALF, n as real, 0.5);
    }
  }

  lemma HalfResult(host: Host, op: Operator, names: seq<string>, row: Row, shape: Shape, a: Value, b: Value, x: real,
      y: real)
    requires op.AddOp? || op.SubtractOp? || op.MultiplyOp?
    requires |names| == 2 && RowHas(ByValue, row, shape) && Means(a, x) && Means(b, y)
    requires Evaluate(host, FieldRef(names[0]), row, shape) == Success(a)
             && Evaluate(host, FieldRef(names[1]), row, shape) == Success(b)
    requires (x == 0.5 && y == if op.MultiplyOp? then 1.0 else 0.0)
             || (y == 0.5 && x == if op.MultiplyOp? then 1.0 else 0.0)
    ensures CanBeFraction(host, Over(op, names), shape)
  {
    hide Evaluate, RowHas, Yields, Decimals.IsInteger, Means, Decimals.Print;
    HalfMeans();
    var es := Refs(names);
    assert es == [es[0], es[1]];
    ArithmeticMeans(host, es[0], es[1], row, shape, a, b, x, y);
    var r := if op.AddOp? then x + y else if op.SubtractOp? then x - y else x * y;
    assert r == 0.5 || r == -0.5;
    assert Yields(host, Over(op, names), row, shape, r);
  }

  // ---------------------------------------------------------------- units

  /** The operators whose result counts the same thing as their inputs. */
  predicate KeepsUnit(op: Operator) {
    op.AddOp? || op.SubtractOp? || op.AbsOp? || Rounds(op) || op.ToDecimalOp? || op.Coalesce? || op.If?
  }

  /** Over columns that all have the unit (the condition of an if aside) exactly these operators keep it, and the
      others have none; over columns without a unit no operator has one. */
  lemma UnitExactly(host: Host, op: Operator, names: seq<string>, shape: Shape, unit: Option<string>)
    requires Flat(shape) && InferExpression(host, Over(op, names), shape).Success?
    requires forall i | 0 <= i < |names| && (op.If? ==> i > 0) ::
               Lookup(shape, names[i]).Some? ==> Lookup(shape, names[i]).value.unit == unit
    ensures InferExpression(host, Over(op, names), shape).value.unit == if KeepsUnit(op) then unit else None
  {
    hide Infer, InferAll, InferOperation, Depth, Nodes, Flat, Lookup, ArityOk, KeepsUnit, NullRow, RowHas, Evaluate;
    InferOver(host, op, names, shape);
    var ts := InferAll(host, Refs(names), shape).value;
    NullRowHas(shape, true);
    forall i | 0 <= i < |names| && (op.If? ==> i > 0)
      ensures ts[i].unit == unit
    {
      InputAccepted(host, Over(op, names), shape, i);
      ReadsColumn(host, NullRow(shape, true), shape, names[i]);
    }
    UnitOfTypings(op, ts, unit);
  }

  lemma UnitOfTypings(op: Operator, ts: seq<Typing>, unit: Option<string>)
    requires ArityOk(op, |ts|) && InferOperation(op, ts).Success?
    requires forall i | 0 <= i < |ts| && (op.If? ==> i > 0) :: ts[i].unit == unit
    ensures InferOperation(op, ts).value.unit == if KeepsUnit(op) then unit else None
  {
    hide MergedType, Compatible;
    assert ts[0] in ts;
    assert forall t | t in ts && !op.If? :: t.unit == unit;
  }

  // ---------------------------------------------------------------- measures

  /** Some group of rows of the shape makes the measure null. */
  ghost predicate CanMeasureNull(host: Host, m: Measure, input: Shape) {
    exists group: seq<Row> ::
      group != [] && RowsHave(ByValue, group, input) && MeasureValue(host, m, group, input) == Success(Null)
  }

  /** Counts, min, max and average are inferred nullable exactly when some group of rows of the shape makes them null;
      a sum is never null, although it is inferred nullable over a nullable column. */
  lemma MeasureNullableExactly(host: Host, m: Measure, input: Shape)
    requires Flat(input) && MeasureField(m, input).Success?
    ensures CanMeasureNull(host, m, input) <==> MeasureField(m, input).value.nullable && !m.op.SumOf?
  {
    hide Flat, RowHas, MeasureValue, FitsType, NullRow;
    forall group: seq<Row> | group != [] && RowsHave(ByValue, group, input)
                             && MeasureValue(host, m, group, input) == Success(Null)
      ensures MeasureField(m, input).value.nullable && !m.op.SumOf?
    {
      SumIsNeverNull(host, m, group, input);
      MeasureSound(ByValue, host, m, group, input);
    }
    if MeasureField(m, input).value.nullable && !m.op.SumOf? {
      var group := [NullRow(input, true)];
      NullRowHas(input, true);
      assert RowsHave(ByValue, group, input);
      NullGroup(host, m, input);
    }
  }

  lemma NullGroup(host: Host, m: Measure, input: Shape)
    requires Flat(input) && MeasureField(m, input).Success? && !m.op.SumOf?
    requires MeasureField(m, input).value.nullable
    ensures MeasureValue(host, m, [NullRow(input, true)], input) == Success(Null)
  {
    hide NullRow, Flat, RowHas;
    NullRowHas(input, true);
    var name, row := m.field.value, NullRow(input, true);
    ColumnIsThere(input, name, row);
    NullRowAt(input, true, name);
    assert ColumnOf([row], name) == [Null];
    assert [Null][1..] == [] && Present([]) == [] && Present([Null]) == [];
  }

  lemma ColumnIsThere(input: Shape, name: string, row: Row)
    requires RowHas(ByValue, row, input) && Lookup(input, name).Some?
    ensures name in row
  {
    LookupInNames(input, name);
  }

  lemma SumIsNeverNull(host: Host, m: Measure, group: seq<Row>, input: Shape)
    ensures m.op.SumOf? ==> MeasureValue(host, m, group, input) != Success(Null)
  {
    hide SumFrom, Decimals.Print, Select;
  }
}
