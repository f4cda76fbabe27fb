/** The expression language of Map and Filter nodes (dag/map.ts): type inference and evaluation. */
module Expressions {
  import opened Wrappers
  import opened Decimals
  import opened Values
  import opened Ordering

  datatype Comparison = EqOp | NeOp | LtOp | LteOp | GtOp | GteOp

  datatype Operator =
    | Not | And | Or
    | Compare(comparison: Comparison)
    | AddOp | SubtractOp | MultiplyOp | DivideOp
    | UtcDate | ToIntegerOp | ToDecimalOp | ToTimestamp | EpochSeconds | EpochMilliseconds
    | Trim | Lower | Upper
    | AbsOp | RoundOp | FloorOp | CeilOp
    | Concat | Coalesce | If

  datatype Expr =
    | FieldRef(path: string)
    | Literal(ty: FieldType, value: Value)
    | Apply(op: Operator, inputs: seq<Expr>)

  /** What inference knows about an expression. */
  datatype Typing = Typing(ty: FieldType, nullable: bool, unit: Option<string>)

  // ---------------------------------------------------------------- field paths

  function SplitPath(s: string): (segments: seq<string>)
    ensures |segments| > 0
  {
    var point := PointAt(s);
    if point == |s| then [s] else [s[..point]] + SplitPath(s[point + 1..])
  }

  const FORBIDDEN := {"__proto__", "prototype", "constructor"}

  predicate IsName(s: string) {
    && s != "" && (s[0] == '_' || 'a' <= s[0] <= 'z' || 'A' <= s[0] <= 'Z')
    && forall i | 0 <= i < |s| :: s[i] == '_' || 'a' <= s[i] <= 'z' || 'A' <= s[i] <= 'Z' || '0' <= s[i] <= '9'
  }

  predicate ValidFieldPath(path: string) {
    forall segment | segment in SplitPath(path) :: IsName(segment) && segment !in FORBIDDEN
  }

  function ReadSegments(v: Value, segments: seq<string>, path: string): Try<Value> {
    if segments == [] then Success(v)
    else if segments[0] in FORBIDDEN || !v.Object? || segments[0] !in v.fields then Failure(MissingField(path))
    else ReadSegments(v.fields[segments[0]], segments[1..], path)
  }

  function ReadPath(row: Row, path: string): Try<Value> {
    ReadSegments(Object(row), SplitPath(path), path)
  }

  // ---------------------------------------------------------------- inference

  predicate Compatible(a: FieldType, b: FieldType) {
    a == b || (Numeric(a) && Numeric(b)) || (Textual(a) && Textual(b))
  }

  function MergedType(inputs: seq<Typing>): Option<FieldType> {
    if inputs == [] || exists t | t in inputs :: !Compatible(inputs[0].ty, t.ty) then None
    else if forall t | t in inputs :: Numeric(t.ty) then
      Some(if exists t | t in inputs :: t.ty.DecimalType? then DecimalType else IntegerType)
    else if forall t | t in inputs :: Textual(t.ty) then
      Some(if exists t | t in inputs :: t.ty != inputs[0].ty then StringType else inputs[0].ty)
    else Some(inputs[0].ty)
  }

  predicate AnyNullable(inputs: seq<Typing>) {
    exists t | t in inputs :: t.nullable
  }

  predicate ArityOk(op: Operator, n: nat) {
    match op
    case And | Or | Concat | Coalesce => 2 <= n <= 8
    case Compare(_) | AddOp | SubtractOp | MultiplyOp | DivideOp => n == 2
    case If => n == 3
    case _ => n == 1
  }

  const ILL_TYPED: Error := InvalidConfig("EXPRESSION_INVALID")

  function InferOperation(op: Operator, inputs: seq<Typing>): Try<Typing>
    requires ArityOk(op, |inputs|)
  {
    var first := inputs[0];
    match op
    case Not | And | Or =>
      if exists t | t in inputs :: !t.ty.BooleanType? then Failure(ILL_TYPED)
      else Success(Typing(BooleanType, AnyNullable(inputs), None))
    case Compare(_) =>
      if !Compatible(first.ty, inputs[1].ty) then Failure(ILL_TYPED)
      else Success(Typing(BooleanType, AnyNullable(inputs), None))
    case AddOp | SubtractOp | MultiplyOp | DivideOp =>
      if exists t | t in inputs :: !Numeric(t.ty) then Failure(ILL_TYPED)
      else Success(Typing(
          if op.DivideOp? || exists t | t in inputs :: t.ty.DecimalType? then DecimalType else IntegerType,
          AnyNullable(inputs) || op.DivideOp?,
          if op.AddOp? || op.SubtractOp? then first.unit else None))
    case UtcDate =>
      if !(first.ty.TimestampType? || first.ty.IntegerType? || first.ty.StringType?) then Failure(ILL_TYPED)
      else Success(Typing(DateType, first.nullable, None))
    case ToIntegerOp | ToDecimalOp =>
      if !(Numeric(first.ty) || first.ty.StringType?) then Failure(ILL_TYPED)
      else Success(Typing(if op.ToIntegerOp? then IntegerType else DecimalType, first.nullable, first.unit))
    case ToTimestamp =>
      if !first.ty.StringType? then Failure(ILL_TYPED) else Success(Typing(TimestampType, first.nullable, None))
    case EpochSeconds | EpochMilliseconds =>
      if !(first.ty.IntegerType? || first.ty.StringType?) then Failure(ILL_TYPED)
      else Success(Typing(TimestampType, first.nullable, None))
    case Trim | Lower | Upper =>
      if !Textual(first.ty) then Failure(ILL_TYPED) else Success(Typing(StringType, first.nullable, None))
    case AbsOp | RoundOp | FloorOp | CeilOp =>
      if !Numeric(first.ty) then Failure(ILL_TYPED)
      else Success(Typing(if op.AbsOp? then first.ty else IntegerType, first.nullable, first.unit))
    case Concat =>
      if exists t | t in inputs :: !Textual(t.ty) then Failure(ILL_TYPED)
      else Success(Typing(StringType, AnyNullable(inputs), None))
    case Coalesce =>
      var ty := MergedType(inputs);
      if ty.None? then Failure(ILL_TYPED)
      else Success(Typing(ty.value, forall t | t in inputs :: t.nullable,
          if forall t | t in inputs :: t.unit == first.unit then first.unit else None))
    case If =>
      var ty := MergedType(inputs[1..]);
      if !first.ty.BooleanType? || ty.None? then Failure(ILL_TYPED)
      else Success(Typing(ty.value, AnyNullable(inputs),
          if inputs[1].unit == inputs[2].unit then inputs[1].unit else None))
  }

  predicate ValidLiteralValue(host: Host, ty: FieldType, v: Value) {
    v.Null? ||
    match ty
    case BooleanType => v.Bool?
    case IntegerType => v.Text? && IsIntegerText(v.s)
    case DecimalType => v.Text? && Parse(v.s).Some?
    case TimestampType => v.Text? && host.isoText(v.s).Some?
    case DateType => v.Text? && host.calendarDate(v.s)
    case JsonType => v.Text? || v.Int? || v.Bool?
    case _ => v.Text?
  }

  /** Inference without the size limits. */
  function Infer(host: Host, e: Expr, shape: Shape): Try<Typing>
    decreases e, 1
  {
    match e
    case FieldRef(path) =>
      if !ValidFieldPath(path) then Failure(ILL_TYPED)
      else
        var field := Lookup(shape, path);
        if field.None? then Failure(InvalidConfig("SOURCE_FIELD_UNKNOWN"))
        else Success(Typing(field.value.ty, field.value.nullable, field.value.unit))
    case Literal(ty, v) =>
      if !ValidLiteralValue(host, ty, v) then Failure(ILL_TYPED) else Success(Typing(ty, v.Null?, None))
    case Apply(op, inputs) =>
      if !ArityOk(op, |inputs|) then Failure(ILL_TYPED)
      else
        var typings :- InferAll(host, inputs, shape);
        InferOperation(op, typings)
  }

  function InferAll(host: Host, es: seq<Expr>, shape: Shape): (r: Try<seq<Typing>>)
    ensures r.Success? ==> |r.value| == |es|
    decreases es, 0
  {
    if es == [] then Success([])
    else
      var head :- Infer(host, es[0], shape);
      var tail :- InferAll(host, es[1..], shape);
      Success([head] + tail)
  }

  const MAX_DEPTH := 8
  const MAX_NODES := 128

  function Depth(e: Expr): nat
    decreases e, 1
  {
    if e.Apply? then 1 + DepthAll(e.inputs) else 0
  }

  function DepthAll(es: seq<Expr>): nat
    decreases es, 0
  {
    if es == [] then 0
    else
      var head, tail := Depth(es[0]), DepthAll(es[1..]);
      if head > tail then head else tail
  }

  function Nodes(e: Expr): (n: nat)
    ensures n >= 1
    decreases e, 1
  {
    if e.Apply? then 1 + NodesAll(e.inputs) else 1
  }

  function NodesAll(es: seq<Expr>): nat
    decreases es, 0
  {
    if es == [] then 0 else Nodes(es[0]) + NodesAll(es[1..])
  }

  predicate WithinLimits(e: Expr) {
    Depth(e) <= MAX_DEPTH && Nodes(e) <= MAX_NODES
  }

  /** inferMapExpressionField: inference under the depth and node limits. */
  function InferExpression(host: Host, e: Expr, shape: Shape): Try<Typing> {
    if !WithinLimits(e) then Failure(InvalidConfig("EXPRESSION_LIMIT")) else Infer(host, e, shape)
  }

  // ---------------------------------------------------------------- evaluation

  function StringOf(host: Host, v: Value): string {
    match v
    case Text(s) => s
    case Int(n) => IntText(n)
    case Bool(b) => if b then "true" else "false"
    case _ => host.display(v)
  }

  predicate Truthy(v: Value) {
    match v
    case Undefined | Null => false
    case Bool(b) => b
    case Int(n) => n != 0
    case Text(s) => s != ""
    case _ => true
  }

  function ParseInteger(v: Value): Try<int> {
    match v
    case Int(n) => Success(n)
    case Text(s) => if IsIntegerText(s) then Success(IntegerOf(s)) else Failure(UNREADABLE)
    case _ => Failure(UNREADABLE)
  }

  function ParseDecimal(v: Value): Try<Decimal> {
    var d := DecimalOf(v);
    if d.Some? then Success(d.value) else Failure(UNREADABLE)
  }

  const MAX_INSTANT := 8_640_000_000_000_000

  function EpochTimestamp(host: Host, v: Value, multiplier: int): Try<string> {
    var n :- ParseInteger(v);
    var milliseconds := n * multiplier;
    if milliseconds < -MAX_INSTANT || milliseconds > MAX_INSTANT then Failure(UNREADABLE)
    else Success(host.isoOf(milliseconds))
  }

  function NormalizedTimestamp(host: Host, v: Value): Try<string> {
    if v.Text? && host.isoText(v.s).Some? then Success(host.isoText(v.s).value) else Failure(UNREADABLE)
  }

  function RoundWith(v: Value, mode: Rounding): Try<Value> {
    var d :- ParseDecimal(v);
    var n := ToInteger(d, mode);
    if n.Some? then Success(Text(IntText(n.value))) else Failure(BadValue("fraction needs an explicit rounding"))
  }

  function EvaluateUnary(host: Host, op: Operator, v: Value): Try<Value> {
    match op
    case Not => Success(Bool(!Truthy(v)))
    case Trim => Success(Text(host.trim(StringOf(host, v))))
    case Lower => Success(Text(host.lower(StringOf(host, v))))
    case Upper => Success(Text(host.upper(StringOf(host, v))))
    case ToIntegerOp => RoundWith(v, Exact)
    case RoundOp => RoundWith(v, Nearest)
    case FloorOp => RoundWith(v, Floor)
    case CeilOp => RoundWith(v, Ceil)
    case ToDecimalOp => var d :- ParseDecimal(v); Success(Text(Print(d)))
    case AbsOp => var d :- ParseDecimal(v); Success(Text(Print(Decimal(Abs(d.coefficient), d.scale))))
    case ToTimestamp => var s :- NormalizedTimestamp(host, v); Success(Text(s))
    case EpochSeconds => var s :- EpochTimestamp(host, v, 1000); Success(Text(s))
    case EpochMilliseconds => var s :- EpochTimestamp(host, v, 1); Success(Text(s))
    case UtcDate =>
      var s :- if v.Text? && !IsIntegerText(v.s) then NormalizedTimestamp(host, v) else EpochTimestamp(host, v, 1000);
      Success(Text(if |s| <= 10 then s else s[..10]))
    case _ => Failure(InvalidConfig("EXPRESSION_OPERATOR_UNKNOWN"))
  }

  predicate IsArithmetic(op: Operator) {
    op.AddOp? || op.SubtractOp? || op.MultiplyOp? || op.DivideOp?
  }

  /** None is the null that a zero divisor produces. */
  function Arithmetic(op: Operator, a: Decimal, b: Decimal): Option<Decimal> {
    match op
    case AddOp => Some(Add(a, b))
    case SubtractOp => Some(Add(a, Negate(b)))
    case MultiplyOp => Some(Multiply(a, b))
    case _ => SafeDivide(a, b)
  }

  function EvaluateArithmetic(op: Operator, left: Value, right: Value): Try<Value> {
    var a :- ParseDecimal(left);
    var b :- ParseDecimal(right);
    if !IsArithmetic(op) then Failure(InvalidConfig("EXPRESSION_OPERATOR_UNKNOWN"))
    else
      var r := Arithmetic(op, a, b);
      Success(if r.None? then Null else Text(Print(r.value)))
  }

  predicate Holds(c: Comparison, comparison: int) {
    match c
    case EqOp => comparison == 0
    case NeOp => comparison != 0
    case LtOp => comparison < 0
    case LteOp => comparison <= 0
    case GtOp => comparison > 0
    case GteOp => comparison >= 0
  }

  function JoinTexts(host: Host, values: seq<Value>): string {
    if values == [] then "" else StringOf(host, values[0]) + JoinTexts(host, values[1..])
  }

  function CoalesceValue(host: Host, outputType: FieldType, inputType: FieldType, v: Value): Try<Value> {
    if outputType.DecimalType? && inputType.IntegerType? then
      var d :- ParseDecimal(v); Success(Text(Print(d)))
    else if outputType.StringType? && Textual(inputType) then Success(Text(StringOf(host, v)))
    else Success(v)
  }

  /** The operators that look at their input values only once all of them are known. */
  function EvaluateStrict(host: Host, op: Operator, inputs: seq<Expr>, values: seq<Value>, shape: Shape): Try<Value>
    requires |values| == |inputs|
  {
    if exists v | v in values :: Missing(v) then Success(Null)
    else if !ArityOk(op, |values|) then Failure(ILL_TYPED)
    else match op
      case Concat => Success(Text(JoinTexts(host, values)))
      case Compare(c) =>
        var left :- InferExpression(host, inputs[0], shape);
        var right :- InferExpression(host, inputs[1], shape);
        var comparison :- CompareSemanticValues(host, MergedType([left, right]).GetOr(left.ty), values[0], values[1]);
        Success(Bool(Holds(c, comparison)))
      case AddOp | SubtractOp | MultiplyOp | DivideOp => EvaluateArithmetic(op, values[0], values[1])
      case _ => EvaluateUnary(host, op, values[0])
  }

  function Evaluate(host: Host, e: Expr, row: Row, shape: Shape): Try<Value>
    decreases e, 1
  {
    match e
    case FieldRef(path) => ReadPath(row, path)
    case Literal(_, v) => Success(v)
    case Apply(op, inputs) =>
      if op.Coalesce? then
        var typing :- InferExpression(host, e, shape);
        EvaluateCoalesce(host, inputs, row, shape, typing.ty)
      else if op.If? then
        if |inputs| != 3 then Failure(ILL_TYPED)
        else
          var condition :- Evaluate(host, inputs[0], row, shape);
          if Missing(condition) then Success(Null)
          else if !condition.Bool? then Failure(WrongKind("if condition"))
          else if condition.b then Evaluate(host, inputs[1], row, shape) else Evaluate(host, inputs[2], row, shape)
      else if op.And? || op.Or? then EvaluateLogic(host, op.And?, inputs, row, shape, false)
      else
        var values :- EvaluateAll(host, inputs, row, shape);
        EvaluateStrict(host, op, inputs, values, shape)
  }

  function EvaluateAll(host: Host, es: seq<Expr>, row: Row, shape: Shape): (r: Try<seq<Value>>)
    ensures r.Success? ==> |r.value| == |es|
    decreases es, 0
  {
    if es == [] then Success([])
    else
      var head :- Evaluate(host, es[0], row, shape);
      var tail :- EvaluateAll(host, es[1..], row, shape);
      Success([head] + tail)
  }

  function EvaluateCoalesce(host: Host, es: seq<Expr>, row: Row, shape: Shape, outputType: FieldType): Try<Value>
    decreases es, 0
  {
    if es == [] then Success(Null)
    else
      var v :- Evaluate(host, es[0], row, shape);
      if Missing(v) then EvaluateCoalesce(host, es[1..], row, shape, outputType)
      else
        var typing :- InferExpression(host, es[0], shape);
        CoalesceValue(host, outputType, typing.ty, v)
  }

  /** Three-valued and/or over the remaining inputs, with the short circuit of the loop in evaluate. */
  function EvaluateLogic(host: Host, conjunction: bool, es: seq<Expr>, row: Row, shape: Shape,
      sawNull: bool): Try<Value>
    decreases es, 0
  {
    if es == [] then Success(if sawNull then Null else Bool(conjunction))
    else
      var v :- Evaluate(host, es[0], row, shape);
      if Missing(v) then EvaluateLogic(host, conjunction, es[1..], row, shape, true)
      else if !v.Bool? then Failure(WrongKind("logical input"))
      else if v.b != conjunction then Success(v)
      else EvaluateLogic(host, conjunction, es[1..], row, shape, sawNull)
  }

  /** The provider paths an expression refers to. */
  function FieldsOf(e: Expr): set<string>
    decreases e, 1
  {
    match e
    case FieldRef(path) => {path}
    case Literal(_, _) => {}
    case Apply(_, inputs) => AllFieldsOf(inputs)
  }

  function AllFieldsOf(es: seq<Expr>): set<string>
    decreases es, 0
  {
    if es == [] then {} else FieldsOf(es[0]) + AllFieldsOf(es[1..])
  }

  lemma {:induction false} AllFieldsHas(es: seq<Expr>, i: nat)
    requires i < |es|
    ensures FieldsOf(es[i]) <= AllFieldsOf(es)
  {
    if i > 0 {
      AllFieldsHas(es[1..], i - 1);
    }
  }

  // ---------------------------------------------------------------- the shared budget

  /** The node counter that one inference threads through all its recursive calls. */
  class Budget {
    var nodes: nat

    constructor ()
      ensures nodes == 0
    {
      nodes := 0;
    }
  }

  /** inferExpression as written: the counter is bumped in place on entry and never reset. It succeeds
      exactly when pure inference does and the limits allow, and then has counted every node once. */
  method InferWithBudget(host: Host, e: Expr, shape: Shape, budget: Budget, depth: nat) returns (r: Try<Typing>)
    modifies budget
    ensures budget.nodes >= old(budget.nodes)
    ensures r.Success? <==>
            Infer(host, e, shape).Success? && depth + Depth(e) <= MAX_DEPTH
            && old(budget.nodes) + Nodes(e) <= MAX_NODES
    ensures r.Success? ==> r == Infer(host, e, shape) && budget.nodes == old(budget.nodes) + Nodes(e)
    decreases e, 1
  {
    if depth > MAX_DEPTH {
      return Failure(InvalidConfig("EXPRESSION_LIMIT"));
    }
    budget.nodes := budget.nodes + 1;
    if budget.nodes > MAX_NODES {
      return Failure(InvalidConfig("EXPRESSION_LIMIT"));
    }
    match e
    case FieldRef(_) | Literal(_, _) =>
      r := Infer(host, e, shape);
    case Apply(op, inputs) =>
      if !ArityOk(op, |inputs|) {
        return Failure(ILL_TYPED);
      }
      var typings := InferAllWithBudget(host, inputs, shape, budget, depth + 1);
      if typings.Failure? {
        return Failure(typings.error);
      }
      r := InferOperation(op, typings.value);
  }

  method InferAllWithBudget(host: Host, es: seq<Expr>, shape: Shape, budget: Budget, depth: nat)
      returns (r: Try<seq<Typing>>)
    modifies budget
    ensures budget.nodes >= old(budget.nodes)
    ensures r.Success? <==> InferAll(host, es, shape).Success? && (es == [] || depth + DepthAll(es) <= MAX_DEPTH)
                            && (es == [] || old(budget.nodes) + NodesAll(es) <= MAX_NODES)
    ensures r.Success? ==> r == InferAll(host, es, shape) && budget.nodes == old(budget.nodes) + NodesAll(es)
    decreases es, 0
  {
    if es == [] {
      return Success([]);
    }
    var head := InferWithBudget(host, es[0], shape, budget, depth);
    if head.Failure? {
      return Failure(head.error);
    }
    var tail := InferAllWithBudget(host, es[1..], shape, budget, depth);
    if tail.Failure? {
      return Failure(tail.error);
    }
    return Success([head.value] + tail.value);
  }
}
