/** Type soundness of the expression language: on a row that fits its shape, an expression that
    infers evaluates to a value of the inferred type and nullability, or stops on a value that
    cannot be converted; it never misses a field, meets a stray null or finds the wrong kind. */
module ExpressionSoundness {
  import opened Wrappers
  import opened Values
  import opened Ordering
  import opened Expressions
  import Decimals
  import Digits

  /** How much is asked of a value to be of a type: the right JSON kind, or also that it can be read. */
  datatype Precision = ByKind | ByValue

  /** The values a provider or an operator may use for a type. By value, numbers are also written as numbers;
      dates and timestamps are texts of any content either way. */
  ghost predicate FitsType(how: Precision, ty: FieldType, v: Value) {
    match ty
    case BooleanType => v.Bool?
    case IntegerType => v.Int? || (v.Text? && (how.ByValue? ==> IsIntegerText(v.s)))
    case DecimalType => v.Int? || (v.Text? && (how.ByValue? ==> Decimals.Parse(v.s).Some?))
    case TimestampType => v.Int? || v.Text?
    case JsonType => true
    case _ => v.Text?
  }

  ghost predicate Fits(how: Precision, ty: FieldType, nullable: bool, v: Value) {
    if Missing(v) then nullable else FitsType(how, ty, v)
  }

  /** The named fields of the shape can be read from the row, at their types. A row may lack the others. */
  ghost predicate RowFits(how: Precision, row: Row, shape: Shape, fields: set<string>) {
    forall f | f in shape && f.name in fields && ValidFieldPath(f.name) ::
      ReadPath(row, f.name).Success? && Fits(how, f.ty, f.nullable, ReadPath(row, f.name).value)
  }

  ghost predicate Sound(how: Precision, r: Try<Value>, t: Typing) {
    match r
    case Success(v) => Fits(how, t.ty, t.nullable, v)
    case Failure(e) => e.BadValue?
  }

  // ---------------------------------------------------------------- limits are inherited

  lemma {:induction false} LimitsOfInput(es: seq<Expr>, i: nat)
    requires i < |es|
    ensures Depth(es[i]) <= DepthAll(es) && Nodes(es[i]) <= NodesAll(es)
  {
    if i > 0 {
      LimitsOfInput(es[1..], i - 1);
    }
  }

  lemma {:induction false} InferAllAt(host: Host, es: seq<Expr>, shape: Shape, i: nat)
    requires i < |es| && InferAll(host, es, shape).Success?
    ensures Infer(host, es[i], shape) == Success(InferAll(host, es, shape).value[i])
  {
    if i > 0 {
      InferAllAt(host, es[1..], shape, i - 1);
    }
  }

  /** Every input of an accepted expression is accepted on its own, with the typing it had inside. */
  lemma InputAccepted(host: Host, e: Expr, shape: Shape, i: nat)
    requires e.Apply? && i < |e.inputs| && InferExpression(host, e, shape).Success?
    ensures InferAll(host, e.inputs, shape).Success?
    ensures InferExpression(host, e.inputs[i], shape) == Success(InferAll(host, e.inputs, shape).value[i])
  {
    LimitsOfInput(e.inputs, i);
    InferAllAt(host, e.inputs, shape, i);
  }

  // ---------------------------------------------------------------- types

  lemma MergedTypeFits(how: Precision, inputs: seq<Typing>, i: nat, v: Value)
    requires i < |inputs| && MergedType(inputs).Some? && FitsType(how, inputs[i].ty, v)
    ensures FitsType(how, MergedType(inputs).value, v)
  {
    hide Decimals.Parse, IsIntegerText;
    var t := inputs[i];
    assert t in inputs && Compatible(inputs[0].ty, t.ty);
    if v.Text? && t.ty.IntegerType? && how.ByValue? {
      IntegerIsDecimal(v.s);
    }
  }

  // ---------------------------------------------------------------- numbers and their texts

  /** A text is an integer exactly when it is a canonical whole number, signed or not. */
  lemma SignedWhole(negative: bool, whole: string)
    requires Digits.IsWhole(whole)
    ensures IsIntegerText(Decimals.Sign(negative) + whole)
  {
    var text := Decimals.Sign(negative) + whole;
    if negative {
      assert text[1..] == whole;
    } else {
      assert text == whole;
    }
  }

  lemma IntegerIsDecimal(s: string)
    requires IsIntegerText(s)
    ensures Decimals.Parse(s).Some? && Decimals.Parse(s).value.scale == 0
  {
    hide Digits.NatOf;
    var negative := s != "" && s[0] == '-';
    var whole := if negative then s[1..] else s;
    assert s == Decimals.Sign(negative) + whole && whole + Decimals.Tail("") == whole && whole + "" == whole;
    Decimals.ParseParts(negative, whole, "");
    Decimals.ParseSigned(negative, whole);
  }

  lemma IntTextIsInteger(n: int)
    ensures IsIntegerText(IntText(n))
  {
    hide Digits.NatOf;
    SignedWhole(n < 0, Digits.TextOf(Decimals.Abs(n)));
  }

  /** A decimal without a scale is written as an integer. */
  lemma PrintIsInteger(c: int)
    ensures IsIntegerText(Decimals.Print(Decimals.Decimal(c, 0)))
  {
    hide Digits.NatOf, Digits.TextOf, IsIntegerText;
    if c == 0 {
      SignedWhole(false, "0");
      assert Decimals.Sign(false) + "0" == "0";
    } else {
      var text := Digits.TextOf(Decimals.Abs(c));
      assert Digits.PadStart(text, 1) == text;
      assert text[..|text|] == text && text[|text|..] == "" && text + Decimals.Tail("") == text;
      SignedWhole(c < 0, text);
    }
  }

  /** A value of a numeric type reads as a decimal, and one of an integer type as a whole one. */
  lemma NumberReads(ty: FieldType, v: Value)
    requires Numeric(ty) && FitsType(ByValue, ty, v)
    ensures DecimalOf(v).Some? && (ty.IntegerType? ==> DecimalOf(v).value.scale == 0)
  {
    hide Decimals.Parse, IsIntegerText;
    if v.Text? && ty.IntegerType? {
      IntegerIsDecimal(v.s);
    }
  }

  /** What a printed decimal is good for. */
  lemma PrintFits(how: Precision, ty: FieldType, d: Decimals.Decimal)
    requires ty.DecimalType? || (ty.IntegerType? && (how.ByValue? ==> d.scale == 0))
    ensures FitsType(how, ty, Text(Decimals.Print(d)))
  {
    hide Decimals.Print, Decimals.Parse, IsIntegerText, Decimals.Value;
    Decimals.ParsePrint(d);
    if d.scale == 0 {
      PrintIsInteger(d.coefficient);
    }
  }

  predicate Rounds(op: Operator) {
    op.ToIntegerOp? || op.RoundOp? || op.FloorOp? || op.CeilOp?
  }

  lemma RoundSound(how: Precision, host: Host, op: Operator, t: Typing, v: Value)
    requires Rounds(op) && InferOperation(op, [t]).Success? && !Missing(v)
    ensures Sound(how, EvaluateUnary(host, op, v), InferOperation(op, [t]).value)
  {
    hide Decimals.Parse, Decimals.Print, IsIntegerText, Decimals.ToInteger, IntText, DecimalOf;
    assert [t][0] == t;
    var r := EvaluateUnary(host, op, v);
    if r.Success? {
      var n :| r.value == Text(IntText(n));
      IntTextIsInteger(n);
    }
  }

  lemma UnarySound(how: Precision, host: Host, op: Operator, t: Typing, v: Value)
    requires ArityOk(op, 1) && InferOperation(op, [t]).Success?
    requires !Missing(v) && FitsType(how, t.ty, v)
    ensures Sound(how, EvaluateUnary(host, op, v), InferOperation(op, [t]).value)
  {
    hide StringOf, Decimals.Parse, Decimals.Print, IsIntegerText, Decimals.ToInteger, RoundWith, DecimalOf;
    assert [t][0] == t;
    if Rounds(op) {
      RoundSound(how, host, op, t, v);
    } else if op.AbsOp? || op.ToDecimalOp? {
      if how.ByValue? && op.AbsOp? {
        NumberReads(t.ty, v);
      }
      if DecimalOf(v).Some? {
        var d := DecimalOf(v).value;
        PrintFits(how, if op.AbsOp? then t.ty
          else DecimalType, if op.AbsOp? then Decimals.Decimal(Decimals.Abs(d.coefficient), d.scale) else d);
      }
    }
  }

  /** A value that, when it reads as a decimal, reads as a whole one. */
  predicate ReadsWhole(v: Value) {
    DecimalOf(v).Some? ==> DecimalOf(v).value.scale == 0
  }

  lemma ArithmeticResult(how: Precision, op: Operator, t: Typing, a: Value, b: Value)
    requires IsArithmetic(op) && (op.DivideOp? ==> t.ty.DecimalType? && t.nullable)
    requires t.ty.DecimalType? || (t.ty.IntegerType? && (how.ByValue? ==> ReadsWhole(a) && ReadsWhole(b)))
    ensures Sound(how, EvaluateArithmetic(op, a, b), t)
  {
    hide Decimals.Print, Decimals.Parse, Arithmetic, FitsType, DecimalOf;
    if DecimalOf(a).Some? && DecimalOf(b).Some? {
      var x, y := DecimalOf(a).value, DecimalOf(b).value;
      ArithmeticScale(op, x, y);
      if Arithmetic(op, x, y).Some? {
        PrintFits(how, t.ty, Arithmetic(op, x, y).value);
      }
    }
  }

  lemma ArithmeticSound(how: Precision, op: Operator, ts: seq<Typing>, a: Value, b: Value)
    requires IsArithmetic(op)
    requires |ts| == 2 && InferOperation(op, ts).Success?
    requires FitsType(how, ts[0].ty, a) && FitsType(how, ts[1].ty, b)
    ensures Sound(how, EvaluateArithmetic(op, a, b), InferOperation(op, ts).value)
  {
    hide FitsType, DecimalOf, InferOperation, EvaluateArithmetic, Sound;
    ArithmeticTyping(op, ts);
    if how.ByValue? {
      NumberReads(ts[0].ty, a);
      NumberReads(ts[1].ty, b);
    }
    ArithmeticResult(how, op, InferOperation(op, ts).value, a, b);
  }

  lemma ArithmeticTyping(op: Operator, ts: seq<Typing>)
    requires IsArithmetic(op)
    requires |ts| == 2 && InferOperation(op, ts).Success?
    ensures Numeric(ts[0].ty) && Numeric(ts[1].ty)
    ensures var t := InferOperation(op, ts).value;
            && (t.ty.DecimalType? || (t.ty.IntegerType? && ts[0].ty.IntegerType? && ts[1].ty.IntegerType?))
            && (op.DivideOp? ==> t.ty.DecimalType? && t.nullable)
  {
    assert ts[0] in ts && ts[1] in ts;
  }

  /** Arithmetic on whole numbers stays whole; only a division can produce null. */
  lemma ArithmeticScale(op: Operator, x: Decimals.Decimal, y: Decimals.Decimal)
    requires IsArithmetic(op)
    ensures Arithmetic(op, x, y).None? ==> op.DivideOp?
    ensures !op.DivideOp? && x.scale == 0 && y.scale == 0 ==> Arithmetic(op, x, y).value.scale == 0
  {
    hide Decimals.SafeDivide;
  }

  /** The operators that evaluate all inputs first. */
  predicate Strict(op: Operator) {
    !op.And? && !op.Or? && !op.If? && !op.Coalesce?
  }

  lemma InferApply(host: Host, op: Operator, inputs: seq<Expr>, shape: Shape)
    requires Infer(host, Apply(op, inputs), shape).Success?
    ensures ArityOk(op, |inputs|) && InferAll(host, inputs, shape).Success?
    ensures Infer(host, Apply(op, inputs), shape) == InferOperation(op, InferAll(host, inputs, shape).value)
  {
  }

  lemma CompareSound(how: Precision, host: Host, op: Operator, inputs: seq<Expr>, values: seq<Value>, ts: seq<Typing>,
      shape: Shape)
    requires op.Compare? && |values| == |inputs| == |ts| && ArityOk(op, |ts|) && forall v | v in values :: !Missing(v)
    requires InferExpression(host, Apply(op, inputs), shape).Success? && InferAll(host, inputs, shape) == Success(ts)
    requires InferOperation(op, ts).Success?
    ensures Sound(how, EvaluateStrict(host, op, inputs, values, shape), InferOperation(op, ts).value)
  {
    hide CompareSemanticValues, Infer, Depth, Nodes, MergedType, Compatible, KeyOf, Comparable, KeyCompare;
    InputAccepted(host, Apply(op, inputs), shape, 0);
    InputAccepted(host, Apply(op, inputs), shape, 1);
    ComparisonIsKeyOrder(host, MergedType([ts[0], ts[1]]).GetOr(ts[0].ty), values[0], values[1]);
  }

  lemma StrictSound(how: Precision, host: Host, op: Operator, inputs: seq<Expr>, values: seq<Value>, ts: seq<Typing>,
      shape: Shape)
    requires Strict(op) && |values| == |inputs| == |ts|
    requires InferExpression(host, Apply(op, inputs), shape).Success? && InferAll(host, inputs, shape) == Success(ts)
    requires forall i | 0 <= i < |ts| :: Fits(how, ts[i].ty, ts[i].nullable, values[i])
    ensures Sound(how, EvaluateStrict(host, op, inputs, values, shape), Infer(host, Apply(op, inputs), shape).value)
  {
    InferApply(host, op, inputs, shape);
    hide CompareSemanticValues, EvaluateUnary, EvaluateArithmetic, Infer, Depth, Nodes, JoinTexts, FitsType, MergedType;
    if v :| v in values && Missing(v) {
      var i :| 0 <= i < |values| && values[i] == v;
      assert ts[i] in ts && ts[i].nullable;
    } else if op.Compare? {
      CompareSound(how, host, op, inputs, values, ts, shape);
    } else if op.Concat? {
    } else if IsArithmetic(op) {
      assert values[0] in values && values[1] in values;
      ArithmeticSound(how, op, ts, values[0], values[1]);
    } else {
      assert ts == [ts[0]];
      UnarySound(how, host, op, ts[0], values[0]);
    }
  }

  // ---------------------------------------------------------------- evaluation

  /** An expression that a Map or Filter accepts is sound on every row that fits. */
  lemma {:induction false} EvaluateSound(how: Precision, host: Host, e: Expr, row: Row, shape: Shape)
    requires InferExpression(host, e, shape).Success? && RowFits(how, row, shape, FieldsOf(e))
    ensures Sound(how, Evaluate(host, e, row, shape), InferExpression(host, e, shape).value)
    decreases e, 1
  {
    match e
    case FieldRef(path) =>
    case Literal(ty, v) =>
    case Apply(op, inputs) =>
      InferApply(host, op, inputs, shape);
      forall i | 0 <= i < |inputs|
        ensures InferExpression(host, inputs[i], shape) == Success(InferAll(host, inputs, shape).value[i])
      {
        InputAccepted(host, e, shape, i);
      }
      ApplySound(how, host, op, inputs, row, shape, InferAll(host, inputs, shape).value);
  }

  ghost predicate Typed(host: Host, es: seq<Expr>, shape: Shape, ts: seq<Typing>) {
    |es| == |ts| && forall i | 0 <= i < |es| :: InferExpression(host, es[i], shape) == Success(ts[i])
  }

  lemma ApplySound(how: Precision, host: Host, op: Operator, inputs: seq<Expr>, row: Row, shape: Shape, ts: seq<Typing>)
    requires InferExpression(host, Apply(op, inputs), shape).Success? && RowFits(how, row, shape, AllFieldsOf(inputs))
    requires Typed(host, inputs, shape, ts) && InferAll(host, inputs, shape) == Success(ts)
    ensures Sound(how, Evaluate(host, Apply(op, inputs), row, shape), Infer(host, Apply(op, inputs), shape).value)
    decreases inputs, 2
  {
    InferApply(host, op, inputs, shape);
    assert Apply(op, inputs).Apply? && FieldsOf(Apply(op, inputs)) == AllFieldsOf(inputs);
    if Strict(op) {
      StrictCase(how, host, op, inputs, row, shape, ts);
    } else {
      hide InferExpression, Infer, RowFits, FitsType;
      assert InferExpression(host, Apply(op, inputs), shape) == InferOperation(op, ts);
      if op.Coalesce? {
        CoalesceCase(how, host, inputs, row, shape, ts);
      } else if op.If? {
        IfCase(how, host, inputs, row, shape, ts);
      } else {
        LogicCase(how, host, op, inputs, row, shape, ts);
      }
    }
  }

  lemma IfCase(how: Precision, host: Host, inputs: seq<Expr>, row: Row, shape: Shape, ts: seq<Typing>)
    requires |inputs| == |ts| == 3 && RowFits(how, row, shape, AllFieldsOf(inputs))
    requires Typed(host, inputs, shape, ts) && InferOperation(If, ts).Success?
    ensures Sound(how, Evaluate(host, Apply(If, inputs), row, shape), InferOperation(If, ts).value)
    decreases inputs, 1
  {
    hide InferExpression, Infer, FitsType, Evaluate, InferOperation;
    forall i | 0 <= i < 3
      ensures Sound(how, Evaluate(host, inputs[i], row, shape), ts[i])
    {
      AllFieldsHas(inputs, i);
      EvaluateSound(how, host, inputs[i], row, shape);
    }
    IfSound(how, host, inputs, row, shape, ts);
  }

  lemma StrictCase(how: Precision, host: Host, op: Operator, inputs: seq<Expr>, row: Row, shape: Shape, ts: seq<Typing>)
    requires Strict(op) && RowFits(how, row, shape, AllFieldsOf(inputs))
    requires InferExpression(host, Apply(op, inputs), shape).Success?
    requires Typed(host, inputs, shape, ts) && InferAll(host, inputs, shape) == Success(ts)
    ensures Sound(how, Evaluate(host, Apply(op, inputs), row, shape), Infer(host, Apply(op, inputs), shape).value)
    decreases inputs, 1
  {
    hide InferExpression, Infer, RowFits, EvaluateStrict;
    AllSound(how, host, inputs, row, shape, ts);
    var values := EvaluateAll(host, inputs, row, shape);
    if values.Success? {
      StrictSound(how, host, op, inputs, values.value, ts, shape);
    }
  }

  lemma CoalesceCase(how: Precision, host: Host, inputs: seq<Expr>, row: Row, shape: Shape, ts: seq<Typing>)
    requires RowFits(how, row, shape, AllFieldsOf(inputs)) && ArityOk(Coalesce, |ts|)
    requires InferExpression(host, Apply(Coalesce, inputs), shape) == InferOperation(Coalesce, ts)
             && InferOperation(Coalesce, ts).Success?
    requires Typed(host, inputs, shape, ts)
    ensures Sound(how, Evaluate(host, Apply(Coalesce, inputs), row, shape), InferOperation(Coalesce, ts).value)
    decreases inputs, 1
  {
    hide InferExpression, Infer, RowFits, FitsType, EvaluateCoalesce, MergedType;
    forall i, v | 0 <= i < |ts| && FitsType(how, ts[i].ty, v)
      ensures FitsType(how, MergedType(ts).value, v)
    {
      MergedTypeFits(how, ts, i, v);
    }
    CoalesceSound(how, host, inputs, row, shape, ts, MergedType(ts).value);
  }

  lemma LogicCase(how: Precision, host: Host, op: Operator, inputs: seq<Expr>, row: Row, shape: Shape, ts: seq<Typing>)
    requires (op.And? || op.Or?) && RowFits(how, row, shape, AllFieldsOf(inputs)) && ArityOk(op, |ts|)
    requires InferOperation(op, ts).Success? && Typed(host, inputs, shape, ts)
    ensures Sound(how, Evaluate(host, Apply(op, inputs), row, shape), InferOperation(op, ts).value)
    decreases inputs, 1
  {
    hide InferExpression, Infer, RowFits, EvaluateLogic;
    assert forall i | 0 <= i < |ts| :: ts[i] in ts;
    LogicSound(how, host, op.And?, inputs, row, shape, ts, false);
  }

  lemma IfSound(how: Precision, host: Host, inputs: seq<Expr>, row: Row, shape: Shape, ts: seq<Typing>)
    requires |inputs| == |ts| == 3
    requires forall i | 0 <= i < 3 :: Sound(how, Evaluate(host, inputs[i], row, shape), ts[i])
    requires InferOperation(If, ts).Success?
    ensures Sound(how, Evaluate(host, Apply(If, inputs), row, shape), InferOperation(If, ts).value)
  {
    assert ts[0] in ts && ts[1] in ts && ts[2] in ts;
    var branches := ts[1..];
    assert branches[0] == ts[1] && branches[1] == ts[2];
    forall i: nat, v | i < 2 && FitsType(how, branches[i].ty, v)
      ensures FitsType(how, MergedType(branches).value, v)
    {
      MergedTypeFits(how, branches, i, v);
    }
  }

  lemma {:induction false} AllSound(how: Precision, host: Host, es: seq<Expr>, row: Row, shape: Shape, ts: seq<Typing>)
    requires |es| == |ts| && RowFits(how, row, shape, AllFieldsOf(es))
    requires Typed(host, es, shape, ts)
    ensures match EvaluateAll(host, es, row, shape)
            case Success(values) => forall i | 0 <= i < |es| :: Fits(how, ts[i].ty, ts[i].nullable, values[i])
            case Failure(e) => e.BadValue?
    decreases es, 0
  {
    if es != [] {
      EvaluateSound(how, host, es[0], row, shape);
      AllSound(how, host, es[1..], row, shape, ts[1..]);
    }
  }

  lemma CoalesceValueSound(how: Precision, host: Host, outputType: FieldType, inputType: FieldType, v: Value,
      nullable: bool)
    requires !Missing(v) && FitsType(how, outputType, v)
    ensures Sound(how, CoalesceValue(host, outputType, inputType, v), Typing(outputType, nullable, None))
  {
    hide Decimals.Print, Decimals.Parse, StringOf, IsIntegerText, DecimalOf;
    if outputType.DecimalType? && inputType.IntegerType? && DecimalOf(v).Some? {
      PrintFits(how, DecimalType, DecimalOf(v).value);
    }
  }

  lemma {:induction false} CoalesceSound(how: Precision, host: Host, es: seq<Expr>, row: Row, shape: Shape,
      ts: seq<Typing>, ty: FieldType)
    requires RowFits(how, row, shape, AllFieldsOf(es)) && Typed(host, es, shape, ts)
    requires forall i, v | 0 <= i < |ts| && FitsType(how, ts[i].ty, v) :: FitsType(how, ty, v)
    ensures Sound(how, EvaluateCoalesce(host, es, row, shape, ty), Typing(ty, forall t | t in ts :: t.nullable, None))
    decreases es, 0
  {
    if es != [] {
      hide InferExpression, RowFits, FitsType, CoalesceValue, Evaluate;
      EvaluateSound(how, host, es[0], row, shape);
      CoalesceSound(how, host, es[1..], row, shape, ts[1..], ty);
      assert ts[0] in ts && forall t | t in ts[1..] :: t in ts;
      var v := Evaluate(host, es[0], row, shape);
      if v.Success? && !Missing(v.value) {
        assert Fits(how, ts[0].ty, ts[0].nullable, v.value);
        CoalesceValueSound(how, host, ty, ts[0].ty, v.value, forall t | t in ts :: t.nullable);
      }
    }
  }

  lemma {:induction false} LogicSound(how: Precision, host: Host, conjunction: bool, es: seq<Expr>, row: Row,
      shape: Shape, ts: seq<Typing>, sawNull: bool)
    requires RowFits(how, row, shape, AllFieldsOf(es)) && Typed(host, es, shape, ts)
    requires forall i | 0 <= i < |ts| :: ts[i].ty.BooleanType?
    ensures Sound(how, EvaluateLogic(host, conjunction, es, row, shape, sawNull),
            Typing(BooleanType, sawNull || AnyNullable(ts), None))
    decreases es, 0
  {
    if es != [] {
      hide InferExpression, RowFits, Evaluate;
      EvaluateSound(how, host, es[0], row, shape);
      var v := Evaluate(host, es[0], row, shape);
      assert ts[0] in ts && forall t | t in ts[1..] :: t in ts;
      LogicSound(how, host, conjunction, es[1..], row, shape, ts[1..], sawNull || (v.Success? && Missing(v.value)));
    }
  }
}
