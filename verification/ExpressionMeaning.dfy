/** What the expressions of Map and Filter nodes compute (dag/map.ts), operator by operator and in terms of the
    values of the inputs: numbers as rationals, logic as three-valued truth, text as text. */
module ExpressionMeaning {
  import opened Wrappers
  import opened Values
  import opened Ordering
  import opened Expressions
  import opened ExpressionSoundness
  import Decimals
  import Digits

  /** The value is written as a decimal and stands for this rational. */
  ghost predicate Means(v: Value, x: real) {
    DecimalOf(v).Some? && Decimals.Value(DecimalOf(v).value) == x
  }

  ghost predicate Yields(host: Host, e: Expr, row: Row, shape: Shape, x: real) {
    var v := Evaluate(host, e, row, shape);
    v.Success? && Means(v.value, x)
  }

  lemma PrintMeans(d: Decimals.Decimal)
    ensures Means(Text(Decimals.Print(d)), Decimals.Value(d))
  {
    hide Decimals.Print, Decimals.Parse, Decimals.Value;
    Decimals.ParsePrint(d);
  }

  lemma IntTextMeans(n: int)
    ensures Means(Text(IntText(n)), n as real)
  {
    hide Decimals.Parse, Decimals.Value, Decimals.Print, DecimalOf, IntText;
    PrintMeans(Decimals.Decimal(n, 0));
    PrintOfInt(n);
    Whole(n);
  }

  lemma Whole(n: int)
    ensures Decimals.Value(Decimals.Decimal(n, 0)) == n as real
  {
    assert Digits.Pow10(0) == 1;
    Decimals.ValueIs(Decimals.Decimal(n, 0), n as real);
  }

  lemma PrintOfInt(n: int)
    ensures Decimals.Print(Decimals.Decimal(n, 0)) == IntText(n)
  {
    hide Digits.NatOf, Digits.TextOf;
    if n == 0 {
      Zero();
    } else {
      var text := Digits.TextOf(Decimals.Abs(n));
      assert Digits.PadStart(text, 1) == text;
      assert text[..|text|] == text && text[|text|..] == "" && text + Decimals.Tail("") == text;
    }
  }

  lemma Zero()
    ensures Digits.TextOf(0) == "0"
  {
  }

  // ---------------------------------------------------------------- strict operators

  lemma OneValue(host: Host, op: Operator, e: Expr, row: Row, shape: Shape, v: Value)
    requires Strict(op) && Evaluate(host, e, row, shape) == Success(v)
    ensures Evaluate(host, Apply(op, [e]), row, shape) == EvaluateStrict(host, op, [e], [v], shape)
  {
    hide EvaluateStrict;
    assert [e][1..] == [] && EvaluateAll(host, [], row, shape) == Success([]) && [v] + [] == [v];
    assert EvaluateAll(host, [e], row, shape) == Success([v]);
  }

  lemma TwoValues(host: Host, op: Operator, left: Expr, right: Expr, row: Row, shape: Shape, a: Value, b: Value)
    requires Strict(op) && Evaluate(host, left, row, shape) == Success(a)
             && Evaluate(host, right, row, shape) == Success(b)
    ensures Evaluate(host, Apply(op, [left, right]), row, shape) ==
            EvaluateStrict(host, op, [left, right], [a, b], shape)
  {
    hide EvaluateStrict;
    var es := [left, right];
    assert es[1..] == [right] && [right][1..] == [] && EvaluateAll(host, [], row, shape) == Success([]);
    assert EvaluateAll(host, [right], row, shape) == Success([b] + []);
    assert EvaluateAll(host, es, row, shape) == Success([a] + ([b] + []));
    assert [a] + ([b] + []) == [a, b];
  }

  /** The decimal of six digits next to an exact result, the even one of two. */
  ghost predicate Millionth(r: Decimals.Decimal, exact: real) {
    var error := (Decimals.Value(r) - exact) * 1000000.0;
    r.scale == 6 && -0.5 <= error <= 0.5 && (error == 0.5 || error == -0.5 ==> r.coefficient % 2 == 0)
  }

  /** Arithmetic on two present values: the exact sum, difference and product; the quotient to six digits, an exact
      half going to the even digit, and null for a zero divisor. */
  lemma ArithmeticMeans(host: Host, left: Expr, right: Expr, row: Row, shape: Shape, a: Value, b: Value, x: real,
      y: real)
    requires Evaluate(host, left, row, shape) == Success(a) && Evaluate(host, right, row, shape) == Success(b)
    requires Means(a, x) && Means(b, y)
    ensures Yields(host, Apply(AddOp, [left, right]), row, shape, x + y)
    ensures Yields(host, Apply(SubtractOp, [left, right]), row, shape, x - y)
    ensures Yields(host, Apply(MultiplyOp, [left, right]), row, shape, x * y)
    ensures y == 0.0 ==> Evaluate(host, Apply(DivideOp, [left, right]), row, shape) == Success(Null)
    ensures y != 0.0 ==>
              exists r: Decimals.Decimal ::
                && Yields(host, Apply(DivideOp, [left, right]), row, shape, Decimals.Value(r))
                && Millionth(r, x / y)
  {
    hide Decimals.Value, Decimals.Add, Decimals.Multiply, Decimals.Negate, Decimals.SafeDivide, Evaluate,
      Decimals.Print,
      Decimals.Parse;
    var p, q := DecimalOf(a).value, DecimalOf(b).value;
    Present2(host, AddOp, left, right, row, shape, a, b);
    Present2(host, SubtractOp, left, right, row, shape, a, b);
    Present2(host, MultiplyOp, left, right, row, shape, a, b);
    Present2(host, DivideOp, left, right, row, shape, a, b);
    Decimals.AddIsExact(p, q);
    Decimals.MultiplyIsExact(p, q);
    PrintMeans(Decimals.Add(p, q));
    PrintMeans(Decimals.Add(p, Decimals.Negate(q)));
    PrintMeans(Decimals.Multiply(p, q));
    ZeroValue(q);
    if y != 0.0 {
      Quotient(p, q, x, y);
      PrintMeans(Decimals.SafeDivide(p, q).value);
    }
  }

  lemma Present2(host: Host, op: Operator, left: Expr, right: Expr, row: Row, shape: Shape, a: Value, b: Value)
    requires IsArithmetic(op) && DecimalOf(a).Some? && DecimalOf(b).Some?
    requires Evaluate(host, left, row, shape) == Success(a) && Evaluate(host, right, row, shape) == Success(b)
    ensures Evaluate(host, Apply(op, [left, right]), row, shape) == EvaluateArithmetic(op, a, b)
  {
    hide Evaluate, EvaluateArithmetic;
    TwoValues(host, op, left, right, row, shape, a, b);
    assert forall v | v in [a, b] :: !Missing(v);
  }

  lemma ZeroValue(d: Decimals.Decimal)
    ensures Decimals.Value(d) == 0.0 <==> d.coefficient == 0
  {
    Decimals.ValueTimes(d);
    if d.coefficient == 0 {
      Decimals.ValueIs(d, 0.0);
    }
  }

  lemma Quotient(p: Decimals.Decimal, q: Decimals.Decimal, x: real, y: real)
    requires Decimals.Value(p) == x && Decimals.Value(q) == y && y != 0.0
    ensures Decimals.SafeDivide(p, q).Some?
    ensures Millionth(Decimals.SafeDivide(p, q).value, x / y)
  {
    hide Decimals.SafeDivide;
    ZeroValue(q);
    Cancel(x, y);
    Decimals.SafeDivideIsNearestEven(p, q, x / y);
    Million();
  }

  lemma Cancel(x: real, y: real)
    requires y != 0.0
    ensures x / y * y == x
  {
  }

  lemma Million()
    ensures Decimals.Power(6) == 1000000.0
  {
    assert Digits.Pow10(2) == 100 && Digits.Pow10(4) == 10000 && Digits.Pow10(6) == 1000000;
  }

  /** The integer next to a number, the even one of two. */
  ghost predicate NearestTo(n: int, x: real) {
    -0.5 <= n as real - x <= 0.5 && (n as real - x == 0.5 || n as real - x == -0.5 ==> n % 2 == 0)
  }

  /** Rounding, conversion and absolute value of a present value. */
  lemma RoundingMeans(host: Host, e: Expr, row: Row, shape: Shape, v: Value, x: real)
    requires Evaluate(host, e, row, shape) == Success(v) && Means(v, x)
    ensures Yields(host, Apply(AbsOp, [e]), row, shape, if x < 0.0 then -x else x)
    ensures Yields(host, Apply(ToDecimalOp, [e]), row, shape, x)
    ensures Evaluate(host, Apply(ToIntegerOp, [e]), row, shape).Success? <==> x.Floor as real == x
    ensures x.Floor as real == x ==> Yields(host, Apply(ToIntegerOp, [e]), row, shape, x)
    ensures Yields(host, Apply(FloorOp, [e]), row, shape, x.Floor as real)
    ensures Yields(host, Apply(CeilOp, [e]), row, shape, -((-x).Floor as real))
    ensures exists n: int ::
              NearestTo(n, x) && Yields(host, Apply(RoundOp, [e]), row, shape, n as real)
  {
    hide Decimals.Value, Decimals.Print, Decimals.Parse, Evaluate, Decimals.ToInteger, IntText, EvaluateUnary, Means,
      Decimals.IsInteger;
    MeansPresent(v, x);
    UnaryValue(host, AbsOp, e, row, shape, v);
    UnaryValue(host, ToDecimalOp, e, row, shape, v);
    UnaryValue(host, ToIntegerOp, e, row, shape, v);
    UnaryValue(host, FloorOp, e, row, shape, v);
    UnaryValue(host, CeilOp, e, row, shape, v);
    UnaryValue(host, RoundOp, e, row, shape, v);
    AbsoluteMeans(host, v, x);
    IntegersMean(host, v, x);
    var n: int :| NearestTo(n, x) && Means(EvaluateUnary(host, RoundOp, v).value, n as real);
    assert Yields(host, Apply(RoundOp, [e]), row, shape, n as real);
  }

  lemma UnaryValue(host: Host, op: Operator, e: Expr, row: Row, shape: Shape, v: Value)
    requires Strict(op) && ArityOk(op, 1) && Evaluate(host, e, row, shape) == Success(v) && !Missing(v)
    ensures Evaluate(host, Apply(op, [e]), row, shape) == EvaluateUnary(host, op, v)
  {
    hide Evaluate, EvaluateUnary;
    OneValue(host, op, e, row, shape, v);
  }

  lemma MeansPresent(v: Value, x: real)
    requires Means(v, x)
    ensures !Missing(v)
  {
  }

  lemma AbsoluteMeans(host: Host, v: Value, x: real)
    requires Means(v, x)
    ensures EvaluateUnary(host, AbsOp, v).Success?
    ensures Means(EvaluateUnary(host, AbsOp, v).value, if x < 0.0 then -x else x)
    ensures EvaluateUnary(host, ToDecimalOp, v).Success? && Means(EvaluateUnary(host, ToDecimalOp, v).value, x)
  {
    hide Decimals.Print, Decimals.Parse, Decimals.Value;
    var d := DecimalOf(v).value;
    SignOf(d);
    PrintMeans(d);
    PrintMeans(Decimals.Decimal(Decimals.Abs(d.coefficient), d.scale));
  }

  lemma SignOf(d: Decimals.Decimal)
    ensures var x := Decimals.Value(d);
            Decimals.Value(Decimals.Decimal(Decimals.Abs(d.coefficient), d.scale)) == if x < 0.0 then -x else x
  {
    hide Decimals.Value, Decimals.Power;
    var x := Decimals.Value(d);
    Decimals.ValueTimes(d);
    SignOfProduct(x, Decimals.Power(d.scale));
    Decimals.ValueIs(Decimals.Decimal(Decimals.Abs(d.coefficient), d.scale), if x < 0.0 then -x else x);
  }

  lemma SignOfProduct(x: real, p: real)
    requires p > 0.0
    ensures x < 0.0 <==> x * p < 0.0
    ensures (-x) * p == -(x * p)
  {
  }

  lemma IntegersMean(host: Host, v: Value, x: real)
    requires Means(v, x)
    ensures EvaluateUnary(host, ToIntegerOp, v).Success? <==> x.Floor as real == x
    ensures x.Floor as real == x ==> Means(EvaluateUnary(host, ToIntegerOp, v).value, x)
    ensures EvaluateUnary(host, FloorOp, v).Success? && Means(EvaluateUnary(host, FloorOp, v).value, x.Floor as real)
    ensures EvaluateUnary(host, CeilOp, v).Success?
            && Means(EvaluateUnary(host, CeilOp, v).value, -((-x).Floor as real))
    ensures EvaluateUnary(host, RoundOp, v).Success? && exists n: int ::
              NearestTo(n, x) && Means(EvaluateUnary(host, RoundOp, v).value, n as real)
  {
    hide RoundWith, Decimals.Value, Decimals.ToInteger, DecimalOf, Means, Decimals.IsInteger;
    Readable(v, x);
    var d := DecimalOf(v).value;
    Decimals.ExactIsWhole(d);
    Decimals.FloorAndCeil(d);
    Decimals.RoundIsNearestEven(d);
    RoundWithMeans(v, x, Decimals.Exact);
    RoundWithMeans(v, x, Decimals.Floor);
    RoundWithMeans(v, x, Decimals.Ceil);
    RoundWithMeans(v, x, Decimals.Nearest);
    WholeMeans(x);
    assert NearestTo(Decimals.ToInteger(d, Decimals.Nearest).value, x);
    FloorIs(x, Decimals.ToInteger(d, Decimals.Floor).value);
    FloorIs(-x, -Decimals.ToInteger(d, Decimals.Ceil).value);
  }

  lemma WholeMeans(x: real)
    ensures Decimals.IsInteger(x) <==> x.Floor as real == x
  {
  }

  lemma Readable(v: Value, x: real)
    requires Means(v, x)
    ensures DecimalOf(v).Some? && Decimals.Value(DecimalOf(v).value) == x
  {
    hide Decimals.Value, DecimalOf;
  }

  lemma RoundWithMeans(v: Value, x: real, mode: Decimals.Rounding)
    requires Means(v, x)
    ensures DecimalOf(v).Some?
    ensures var n := Decimals.ToInteger(DecimalOf(v).value, mode);
            && (RoundWith(v, mode).Success? <==> n.Some?)
            && (n.Some? ==> Means(RoundWith(v, mode).value, n.value as real))
  {
    hide Decimals.Parse, Decimals.Value, Decimals.ToInteger, IntText, DecimalOf;
    var n := Decimals.ToInteger(DecimalOf(v).value, mode);
    if n.Some? {
      IntTextMeans(n.value);
    }
  }

  lemma FloorIs(x: real, n: int)
    requires n as real <= x < n as real + 1.0
    ensures x.Floor == n
  {
  }

  /** A missing input makes a strict operator null. */
  lemma {:induction false} MissingMeansNull(host: Host, op: Operator, es: seq<Expr>, row: Row, shape: Shape, i: nat)
    requires Strict(op) && i < |es| && forall k | 0 <= k < |es| :: Evaluate(host, es[k], row, shape).Success?
    requires Missing(Evaluate(host, es[i], row, shape).value)
    ensures Evaluate(host, Apply(op, es), row, shape) == Success(Null)
  {
    hide Evaluate;
    ValuesOf(host, es, row, shape);
    var values := EvaluateAll(host, es, row, shape).value;
    assert values[i] in values;
    assert EvaluateStrict(host, op, es, values, shape) == Success(Null);
    StrictIs(host, op, es, row, shape);
  }

  lemma StrictIs(host: Host, op: Operator, es: seq<Expr>, row: Row, shape: Shape)
    requires Strict(op) && EvaluateAll(host, es, row, shape).Success?
    ensures Evaluate(host, Apply(op, es), row, shape) ==
              EvaluateStrict(host, op, es, EvaluateAll(host, es, row, shape).value, shape)
  {
    hide EvaluateStrict, EvaluateAll;
  }

  lemma {:induction false} ValuesOf(host: Host, es: seq<Expr>, row: Row, shape: Shape)
    requires forall k | 0 <= k < |es| :: Evaluate(host, es[k], row, shape).Success?
    ensures EvaluateAll(host, es, row, shape).Success?
    ensures forall k | 0 <= k < |es| ::
            EvaluateAll(host, es, row, shape).value[k] ==
            Evaluate(host, es[k], row, shape).value
  {
    hide Evaluate;
    if es != [] {
      ValuesOf(host, es[1..], row, shape);
    }
  }

  // ---------------------------------------------------------------- text

  /** All texts, one after the other. */
  function Joined(texts: seq<string>): string {
    if texts == [] then "" else Joined(texts[..|texts| - 1]) + texts[|texts| - 1]
  }

  /** concat of texts is the texts in order. */
  lemma ConcatMeans(host: Host, es: seq<Expr>, row: Row, shape: Shape, texts: seq<string>)
    requires 2 <= |es| == |texts| <= 8
    requires forall k | 0 <= k < |es| :: Evaluate(host, es[k], row, shape) == Success(Text(texts[k]))
    ensures Evaluate(host, Apply(Concat, es), row, shape) == Success(Text(Joined(texts)))
  {
    hide Evaluate, EvaluateAll, JoinTexts, Joined;
    ValuesOf(host, es, row, shape);
    var values := EvaluateAll(host, es, row, shape).value;
    assert forall v | v in values :: v.Text?;
    JoinIs(host, values, texts);
    StrictIs(host, Concat, es, row, shape);
  }

  lemma {:induction false} JoinIs(host: Host, values: seq<Value>, texts: seq<string>)
    requires |values| == |texts| && forall k | 0 <= k < |texts| :: values[k] == Text(texts[k])
    ensures JoinTexts(host, values) == Joined(texts)
  {
    if texts != [] {
      JoinIs(host, values[1..], texts[1..]);
      JoinedFront(texts);
    }
  }

  lemma {:induction false} JoinedFront(texts: seq<string>)
    requires texts != []
    ensures Joined(texts) == texts[0] + Joined(texts[1..])
  {
    var n := |texts| - 1;
    if n > 0 {
      JoinedFront(texts[..n]);
      assert texts[..n][1..] == texts[1..][..n - 1];
      assert (texts[0] + Joined(texts[1..][..n - 1])) + texts[n] == texts[0] + (Joined(texts[1..][..n - 1]) + texts[n]);
    } else {
      assert texts[..0] == [] && texts[1..] == [];
    }
  }

  // ---------------------------------------------------------------- choice

  /** if takes the branch its condition says, and is null without a condition. */
  lemma IfMeans(host: Host, condition: Expr, yes: Expr, no: Expr, row: Row, shape: Shape)
    ensures Evaluate(host, condition, row, shape) == Success(Bool(true)) ==>
              Evaluate(host, Apply(If, [condition, yes, no]), row, shape) == Evaluate(host, yes, row, shape)
    ensures Evaluate(host, condition, row, shape) == Success(Bool(false)) ==>
              Evaluate(host, Apply(If, [condition, yes, no]), row, shape) == Evaluate(host, no, row, shape)
    ensures Evaluate(host, condition, row, shape).Success? && Missing(Evaluate(host, condition, row, shape).value) ==>
              Evaluate(host, Apply(If, [condition, yes, no]), row, shape) == Success(Null)
  {
    hide EvaluateStrict, EvaluateAll, EvaluateCoalesce, EvaluateLogic, InferExpression, ReadPath;
  }

  /** The same value, as the type of a coalesce may want it: a number in the shortest decimal form of the same number.
      */
  ghost predicate SameAs(v: Value, w: Value) {
    v == w || (DecimalOf(w).Some? && Means(v, Decimals.Value(DecimalOf(w).value)))
  }

  /** coalesce is its first input that is not missing, whatever the later ones are; null if all are missing. */
  lemma CoalesceMeans(host: Host, es: seq<Expr>, row: Row, shape: Shape, k: nat)
    requires InferExpression(host, Apply(Coalesce, es), shape).Success? && k <= |es|
    requires forall i | 0 <= i < k ::
               Evaluate(host, es[i], row, shape).Success? && Missing(Evaluate(host, es[i], row, shape).value)
    requires k < |es| && InferExpression(host, es[k], shape).Success? ==> Fitting(host, es[k], row, shape)
    ensures Evaluate(host, Apply(Coalesce, es), row, shape).Success?
    ensures k == |es| ==> Evaluate(host, Apply(Coalesce, es), row, shape).value == Null
    ensures k < |es| ==>
              && Evaluate(host, es[k], row, shape).Success?
              && SameAs(Evaluate(host, Apply(Coalesce, es), row, shape).value, Evaluate(host, es[k], row, shape).value)
  {
    hide Evaluate, Infer, EvaluateCoalesce;
    if k < |es| {
      InputAccepted(host, Apply(Coalesce, es), shape, k);
    }
    FirstPresent(host, es, row, shape, InferExpression(host, Apply(Coalesce, es), shape).value.ty, k);
    CoalesceIs(host, es, row, shape);
  }

  /** The expression has a value of its type. */
  ghost predicate Fitting(host: Host, e: Expr, row: Row, shape: Shape)
    requires InferExpression(host, e, shape).Success?
  {
    var v := Evaluate(host, e, row, shape);
    v.Success? && !Missing(v.value) && FitsType(ByValue, InferExpression(host, e, shape).value.ty, v.value)
  }

  lemma CoalesceIs(host: Host, es: seq<Expr>, row: Row, shape: Shape)
    requires InferExpression(host, Apply(Coalesce, es), shape).Success?
    ensures Evaluate(host, Apply(Coalesce, es), row, shape) ==
              EvaluateCoalesce(host, es, row, shape, InferExpression(host, Apply(Coalesce, es), shape).value.ty)
  {
    hide EvaluateCoalesce, InferExpression;
  }

  lemma {:induction false} FirstPresent(host: Host, es: seq<Expr>, row: Row, shape: Shape, ty: FieldType, k: nat)
    requires k <= |es| && (k < |es| ==>
             InferExpression(host, es[k], shape).Success?
             && Fitting(host, es[k], row, shape))
    requires forall i | 0 <= i < k ::
               Evaluate(host, es[i], row, shape).Success? && Missing(Evaluate(host, es[i], row, shape).value)
    ensures var r := EvaluateCoalesce(host, es, row, shape, ty);
            r.Success? && if k == |es| then r.value == Null
              else SameAs(r.value, Evaluate(host, es[k], row, shape).value)
    decreases k
  {
    hide Evaluate, InferExpression, Decimals.Print, Decimals.Parse, Decimals.Value, DecimalOf, Means;
    if k > 0 {
      FirstPresent(host, es[1..], row, shape, ty, k - 1);
    } else if es != [] {
      var v := Evaluate(host, es[0], row, shape).value;
      if InferExpression(host, es[0], shape).value.ty.IntegerType? {
        NumberReads(IntegerType, v);
        PrintMeans(DecimalOf(v).value);
      }
    }
  }

  // ---------------------------------------------------------------- truth

  /** Three-valued and (or): the first false (true) input decides, whatever comes after it; without one the result is
      null if an input was, and true (false) otherwise. */
  lemma LogicMeans(host: Host, conjunction: bool, es: seq<Expr>, row: Row, shape: Shape, k: nat)
    requires k <= |es| && forall i | 0 <= i < k ::
               && Evaluate(host, es[i], row, shape).Success?
               && (Missing(Evaluate(host, es[i], row, shape).value)
                   || Evaluate(host, es[i], row, shape).value == Bool(conjunction))
    requires k < |es| ==> Evaluate(host, es[k], row, shape) == Success(Bool(!conjunction))
    ensures Evaluate(host, Apply(if conjunction then And else Or, es), row, shape) == Success(
              if k < |es| then Bool(!conjunction)
              else if exists i | 0 <= i < |es| :: Missing(Evaluate(host, es[i], row, shape).value) then Null
              else Bool(conjunction))
  {
    hide Evaluate;
    LogicFrom(host, conjunction, es, row, shape, k, false);
    LogicIs(host, conjunction, es, row, shape);
  }

  lemma LogicIs(host: Host, conjunction: bool, es: seq<Expr>, row: Row, shape: Shape)
    ensures Evaluate(host, Apply(if conjunction then And else Or, es), row, shape) ==
              EvaluateLogic(host, conjunction, es, row, shape, false)
  {
    hide EvaluateLogic;
  }

  lemma {:induction false} LogicFrom(host: Host, conjunction: bool, es: seq<Expr>, row: Row, shape: Shape, k: nat,
      sawNull: bool)
    requires k <= |es| && forall i | 0 <= i < k ::
               && Evaluate(host, es[i], row, shape).Success?
               && (Missing(Evaluate(host, es[i], row, shape).value)
                   || Evaluate(host, es[i], row, shape).value == Bool(conjunction))
    requires k < |es| ==> Evaluate(host, es[k], row, shape) == Success(Bool(!conjunction))
    ensures EvaluateLogic(host, conjunction, es, row, shape, sawNull) == Success(
              if k < |es| then Bool(!conjunction)
              else if sawNull || exists i | 0 <= i < |es| :: Missing(Evaluate(host, es[i], row, shape).value) then Null
              else Bool(conjunction))
    decreases k
  {
    hide Evaluate;
    if k > 0 {
      var rest := es[1..];
      assert es == [es[0]] + rest;
      LogicFrom(host, conjunction, rest, row, shape, k - 1, sawNull
        || Missing(Evaluate(host, es[0], row, shape).value));
      assert (exists i | 0 <= i < |es| :: Evaluate(host, es[i], row, shape).Success?
                && Missing(Evaluate(host, es[i], row, shape).value)) <==>
             || (Evaluate(host, es[0], row, shape).Success? && Missing(Evaluate(host, es[0], row, shape).value))
             || exists i | 0 <= i < |rest| :: Evaluate(host, rest[i], row, shape).Success?
                  && Missing(Evaluate(host, rest[i], row, shape).value);
    }
  }

  /** not, and a comparison of two present values, by what the values stand for at the merged type of the sides. */
  lemma ComparisonMeans(host: Host, c: Comparison, left: Expr, right: Expr, row: Row, shape: Shape, a: Value, b: Value)
    requires InferExpression(host, left, shape).Success? && InferExpression(host, right, shape).Success?
    requires Evaluate(host, left, row, shape) == Success(a) && Evaluate(host, right, row, shape) == Success(b)
    requires !Missing(a) && !Missing(b)
    requires Comparable(KeyAt(host, left, right, shape, a), KeyAt(host, left, right, shape, b))
    ensures var x, y := KeyAt(host, left, right, shape, a), KeyAt(host, left, right, shape, b);
            Evaluate(host, Apply(Compare(c), [left, right]), row, shape) == Success(Bool(
              match c
              case EqOp => x == y
              case NeOp => x != y
              case LtOp => KeyLess(x, y)
              case LteOp => x == y || KeyLess(x, y)
              case GtOp => KeyLess(y, x)
              case GteOp => x == y || KeyLess(y, x)))
  {
    hide Evaluate, InferExpression, CompareSemanticValues, KeyOf, KeyLess, MergedType;
    TwoValues(host, Compare(c), left, right, row, shape, a, b);
    assert forall v | v in [a, b] :: !Missing(v);
    var p, q := InferExpression(host, left, shape).value, InferExpression(host, right, shape).value;
    ComparisonIsKeyOrder(host, MergedType([p, q]).GetOr(p.ty), a, b);
    KeyOrder(KeyAt(host, left, right, shape, a), KeyAt(host, left, right, shape, b));
  }

  /** What a value stands for in the comparison of two expressions. */
  ghost function KeyAt(host: Host, left: Expr, right: Expr, shape: Shape, v: Value): Key
    requires InferExpression(host, left, shape).Success? && InferExpression(host, right, shape).Success?
  {
    var p, q := InferExpression(host, left, shape).value, InferExpression(host, right, shape).value;
    KeyOf(host, MergedType([p, q]).GetOr(p.ty), v)
  }

  lemma NotMeans(host: Host, e: Expr, row: Row, shape: Shape, b: bool)
    requires Evaluate(host, e, row, shape) == Success(Bool(b))
    ensures Evaluate(host, Apply(Not, [e]), row, shape) == Success(Bool(!b))
  {
    hide Evaluate;
    UnaryValue(host, Not, e, row, shape, Bool(b));
  }

  // ---------------------------------------------------------------- texts and instants

  lemma TextMeans(host: Host, e: Expr, row: Row, shape: Shape, s: string)
    requires Evaluate(host, e, row, shape) == Success(Text(s))
    ensures Evaluate(host, Apply(Trim, [e]), row, shape) == Success(Text(host.trim(s)))
    ensures Evaluate(host, Apply(Lower, [e]), row, shape) == Success(Text(host.lower(s)))
    ensures Evaluate(host, Apply(Upper, [e]), row, shape) == Success(Text(host.upper(s)))
  {
    hide Evaluate;
    UnaryValue(host, Trim, e, row, shape, Text(s));
    UnaryValue(host, Lower, e, row, shape, Text(s));
    UnaryValue(host, Upper, e, row, shape, Text(s));
  }

  /** A number of seconds or milliseconds as an instant, within the range of the calendar; the date of an instant is
      the first ten characters of its text. */
  lemma InstantMeans(host: Host, e: Expr, row: Row, shape: Shape, n: int)
    requires Evaluate(host, e, row, shape) == Success(Int(n))
             || Evaluate(host, e, row, shape) == Success(Text(IntText(n)))
    ensures -8_640_000_000_000 <= n <= 8_640_000_000_000 ==>
              && Evaluate(host, Apply(EpochSeconds, [e]), row, shape) == Success(Text(host.isoOf(1000 * n)))
              && (|host.isoOf(1000 * n)| >= 10 ==>
                    Evaluate(host, Apply(UtcDate, [e]), row, shape) == Success(Text(host.isoOf(1000 * n)[..10])))
    ensures !(-8_640_000_000_000 <= n <= 8_640_000_000_000) ==>
              Evaluate(host, Apply(EpochSeconds, [e]), row, shape).Failure?
                && Evaluate(host, Apply(UtcDate, [e]), row, shape).Failure?
    ensures if -8_640_000_000_000_000 <= n <= 8_640_000_000_000_000
            then Evaluate(host, Apply(EpochMilliseconds, [e]), row, shape) == Success(Text(host.isoOf(n)))
            else Evaluate(host, Apply(EpochMilliseconds, [e]), row, shape).Failure?
  {
    hide Evaluate, IntText, IsIntegerText, IntegerOf;
    var v := Evaluate(host, e, row, shape).value;
    IntTextIsInteger(n);
    IntegerOfText(n);
    UnaryValue(host, EpochSeconds, e, row, shape, v);
    UnaryValue(host, EpochMilliseconds, e, row, shape, v);
    UnaryValue(host, UtcDate, e, row, shape, v);
    var s := host.isoOf(1000 * n);
    assert |s| == 10 ==> s[..10] == s;
  }

  lemma IntegerOfText(n: int)
    ensures IsIntegerText(IntText(n)) && IntegerOf(IntText(n)) == n
  {
    hide Digits.NatOf, Digits.TextOf, Digits.IsWhole;
    IntTextIsInteger(n);
    var text := Digits.TextOf(Decimals.Abs(n));
    NoSign(text);
    if n < 0 {
      assert ("-" + text)[1..] == text;
    } else {
      assert Decimals.Sign(false) + text == text;
    }
  }

  lemma NoSign(text: string)
    requires Digits.IsWhole(text)
    ensures text != "" && text[0] != '-'
  {
  }
}
