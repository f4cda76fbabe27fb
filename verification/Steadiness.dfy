/** Plans that cannot fail on readable values: where every comparison is between values that always compare and
    every conversion always succeeds, the only failures left are those of a provider. */
module Steadiness {
  import opened Wrappers
  import opened Values
  import opened Ordering
  import opened Filtering
  import opened Expressions
  import opened ExpressionSoundness
  import opened Maps
  import opened Sorting
  import opened Aggregation
  import opened Joins
  import opened Operators
  import opened OperatorSoundness
  import opened Dags
  import opened PlanSoundness
  import Decimals

  // ---------------------------------------------------------------- types that always compare

  predicate Steady(ty: FieldType) {
    ty.BooleanType? || Numeric(ty) || Textual(ty)
  }

  /** The comparison can make sense of the value on its own. */
  ghost predicate Readable(host: Host, ty: FieldType, v: Value) {
    !KeyOf(host, ty, v).Unreadable?
  }

  lemma FitIsReadable(host: Host, ty: FieldType, v: Value)
    requires Steady(ty) && FitsType(ByValue, ty, v)
    ensures Readable(host, ty, v)
  {
    hide Decimals.Parse, IsIntegerText;
    if Numeric(ty) {
      NumberReads(ty, v);
    }
  }

  /** Two readable values of a steady type compare. */
  lemma ReadableCompares(host: Host, ty: FieldType, a: Value, b: Value)
    requires Steady(ty) && Readable(host, ty, a) && Readable(host, ty, b)
    ensures CompareSemanticValues(host, ty, a, b).Success?
  {
    hide BigIntOf, DecimalOf, CompareTexts, Decimals.Compare, CompareInts;
  }

  /** The steady types are exactly those whose values always compare: a date may be any text, an instant may be
      a number or a text, and nothing compares JSON. */
  lemma SteadyExactly(host: Host, ty: FieldType)
    requires !host.calendarDate("")
    ensures Steady(ty) <==>
              forall a, b | FitsType(ByValue, ty, a) && FitsType(ByValue, ty, b) ::
                CompareSemanticValues(host, ty, a, b).Success?
  {
    if Steady(ty) {
      forall a, b | FitsType(ByValue, ty, a) && FitsType(ByValue, ty, b)
        ensures CompareSemanticValues(host, ty, a, b).Success?
      {
        FitIsReadable(host, ty, a);
        FitIsReadable(host, ty, b);
        ReadableCompares(host, ty, a, b);
      }
    } else {
      assert FitsType(ByValue, ty, Text("")) && (ty.TimestampType? ==> FitsType(ByValue, ty, Int(0)));
      assert CompareSemanticValues(host, ty, if ty.TimestampType? then Int(0) else Text(""), Text("")).Failure?;
    }
  }

  // ---------------------------------------------------------------- expressions

  /** An operation that succeeds on all readable inputs of these types. */
  predicate SteadyOperation(op: Operator, ts: seq<Typing>)
    requires ArityOk(op, |ts|)
  {
    match op
    case Compare(_) => Steady(MergedType([ts[0], ts[1]]).GetOr(ts[0].ty))
    case ToIntegerOp => ts[0].ty.IntegerType?
    case ToDecimalOp => Numeric(ts[0].ty)
    case UtcDate | ToTimestamp | EpochSeconds | EpochMilliseconds => false
    case _ => true
  }

  /** Every operation in the expression is of that kind. */
  predicate SteadyExpression(host: Host, e: Expr, shape: Shape)
    decreases e, 1
  {
    e.Apply? ==>
      && (ArityOk(e.op, |e.inputs|) && InferAll(host, e.inputs, shape).Success? ==>
        SteadyOperation(e.op, InferAll(host, e.inputs, shape).value))
      && SteadyAll(host, e.inputs, shape)
  }

  predicate SteadyAll(host: Host, es: seq<Expr>, shape: Shape)
    decreases es, 0
  {
    es != [] ==> SteadyExpression(host, es[0], shape) && SteadyAll(host, es[1..], shape)
  }

  lemma {:induction false} SteadyAt(host: Host, es: seq<Expr>, shape: Shape, i: nat)
    requires SteadyAll(host, es, shape) && i < |es|
    ensures SteadyExpression(host, es[i], shape)
  {
    hide SteadyExpression;
    if i > 0 {
      SteadyAt(host, es[1..], shape, i - 1);
    }
  }

  lemma UnarySucceeds(host: Host, op: Operator, t: Typing, v: Value)
    requires Strict(op) && ArityOk(op, 1) && InferOperation(op, [t]).Success? && SteadyOperation(op, [t])
    requires FitsType(ByValue, t.ty, v)
    ensures EvaluateUnary(host, op, v).Success?
  {
    hide StringOf, Decimals.Parse, IsIntegerText, DecimalOf, Decimals.Print, Decimals.RoundedQuotient, FitsType;
    assert [t][0] == t;
    if Numeric(t.ty) {
      NumberReads(t.ty, v);
    }
  }

  lemma ArithmeticSucceeds(op: Operator, ts: seq<Typing>, a: Value, b: Value)
    requires IsArithmetic(op) && |ts| == 2 && InferOperation(op, ts).Success?
    requires FitsType(ByValue, ts[0].ty, a) && FitsType(ByValue, ts[1].ty, b)
    ensures EvaluateArithmetic(op, a, b).Success?
  {
    hide FitsType, DecimalOf, InferOperation, Arithmetic;
    ArithmeticTyping(op, ts);
    NumberReads(ts[0].ty, a);
    NumberReads(ts[1].ty, b);
  }

  lemma ComparisonSucceeds(host: Host, ts: seq<Typing>, a: Value, b: Value)
    requires |ts| == 2 && Compatible(ts[0].ty, ts[1].ty) && Steady(MergedType(ts).GetOr(ts[0].ty))
    requires FitsType(ByValue, ts[0].ty, a) && FitsType(ByValue, ts[1].ty, b)
    ensures CompareSemanticValues(host, MergedType(ts).GetOr(ts[0].ty), a, b).Success?
  {
    hide FitsType, Readable, CompareSemanticValues, Steady;
    var ty := MergedType(ts).GetOr(ts[0].ty);
    assert MergedType(ts).Some? by {
      assert forall t | t in ts :: t == ts[0] || t == ts[1];
    }
    MergedTypeFits(ByValue, ts, 0, a);
    MergedTypeFits(ByValue, ts, 1, b);
    FitIsReadable(host, ty, a);
    FitIsReadable(host, ty, b);
    ReadableCompares(host, ty, a, b);
  }

  lemma StrictSucceeds(host: Host, op: Operator, inputs: seq<Expr>, values: seq<Value>, ts: seq<Typing>, shape: Shape)
    requires Strict(op) && |values| == |inputs| == |ts| && ArityOk(op, |ts|)
    requires InferOperation(op, ts).Success? && SteadyOperation(op, ts) && Typed(host, inputs, shape, ts)
    requires forall i | 0 <= i < |ts| :: Fits(ByValue, ts[i].ty, ts[i].nullable, values[i])
    ensures EvaluateStrict(host, op, inputs, values, shape).Success?
  {
    hide CompareSemanticValues, EvaluateUnary, EvaluateArithmetic, InferExpression, JoinTexts, FitsType, MergedType,
      Steady;
    if forall v | v in values :: !Missing(v) {
      assert forall i | 0 <= i < |ts| :: values[i] in values && FitsType(ByValue, ts[i].ty, values[i]);
      if op.Compare? {
        assert ts == [ts[0], ts[1]];
        ComparisonSucceeds(host, ts, values[0], values[1]);
      } else if IsArithmetic(op) {
        ArithmeticSucceeds(op, ts, values[0], values[1]);
      } else if !op.Concat? {
        assert ts == [ts[0]];
        UnarySucceeds(host, op, ts[0], values[0]);
      }
    }
  }

  /** A steady expression that a Map or Filter accepts has a value on every row that fits. */
  lemma {:induction false} SteadySucceeds(host: Host, e: Expr, row: Row, shape: Shape)
    requires InferExpression(host, e, shape).Success? && RowFits(ByValue, row, shape, FieldsOf(e))
             && SteadyExpression(host, e, shape)
    ensures Evaluate(host, e, row, shape).Success?
    decreases e, 1
  {
    match e
    case FieldRef(path) =>
    case Literal(ty, v) =>
    case Apply(op, inputs) =>
      InferApply(host, op, inputs, shape);
      var ts := InferAll(host, inputs, shape).value;
      forall i | 0 <= i < |inputs|
        ensures InferExpression(host, inputs[i], shape) == Success(ts[i])
      {
        InputAccepted(host, e, shape, i);
      }
      assert FieldsOf(e) == AllFieldsOf(inputs);
      SteadyApply(host, op, inputs, row, shape, ts);
  }

  lemma SteadyApply(host: Host, op: Operator, inputs: seq<Expr>, row: Row, shape: Shape, ts: seq<Typing>)
    requires InferExpression(host, Apply(op, inputs), shape).Success? && ArityOk(op, |ts|)
    requires InferExpression(host, Apply(op, inputs), shape) == InferOperation(op, ts)
    requires Typed(host, inputs, shape, ts) && RowFits(ByValue, row, shape, AllFieldsOf(inputs))
    requires SteadyOperation(op, ts) && SteadyAll(host, inputs, shape)
    ensures Evaluate(host, Apply(op, inputs), row, shape).Success?
    decreases inputs, 3
  {
    hide InferExpression, RowFits, FitsType, SteadyOperation, EvaluateStrict, EvaluateCoalesce, EvaluateLogic,
      InferOperation;
    if op.Coalesce? {
      CoalesceSucceeds(host, inputs, row, shape, ts, InferOperation(op, ts).value.ty);
    } else if op.If? {
      forall i | 0 <= i < 3
        ensures Evaluate(host, inputs[i], row, shape).Success?
                && Sound(ByValue, Evaluate(host, inputs[i], row, shape), ts[i])
      {
        SteadyInput(host, inputs, row, shape, ts, i);
      }
      IfTyping(ts);
      ConditionIsBoolean(Evaluate(host, inputs[0], row, shape).value, ts[0]);
    } else if op.And? || op.Or? {
      LogicTyping(op, ts);
      LogicSucceeds(host, op.And?, inputs, row, shape, ts, false);
    } else {
      AllSucceed(host, inputs, row, shape, ts);
      AllSound(ByValue, host, inputs, row, shape, ts);
      StrictSucceeds(host, op, inputs, EvaluateAll(host, inputs, row, shape).value, ts, shape);
    }
  }

  lemma IfTyping(ts: seq<Typing>)
    requires |ts| == 3 && InferOperation(If, ts).Success?
    ensures ts[0].ty.BooleanType?
  {
  }

  lemma LogicTyping(op: Operator, ts: seq<Typing>)
    requires (op.And? || op.Or?) && ArityOk(op, |ts|) && InferOperation(op, ts).Success?
    ensures forall i | 0 <= i < |ts| :: ts[i].ty.BooleanType?
  {
    assert forall i | 0 <= i < |ts| :: ts[i] in ts;
  }

  lemma ConditionIsBoolean(v: Value, t: Typing)
    requires t.ty.BooleanType? && Fits(ByValue, t.ty, t.nullable, v)
    ensures Missing(v) || v.Bool?
  {
  }

  lemma SteadyInput(host: Host, inputs: seq<Expr>, row: Row, shape: Shape, ts: seq<Typing>, i: nat)
    requires i < |inputs| && Typed(host, inputs, shape, ts) && RowFits(ByValue, row, shape, AllFieldsOf(inputs))
             && SteadyAll(host, inputs, shape)
    ensures Evaluate(host, inputs[i], row, shape).Success?
            && Sound(ByValue, Evaluate(host, inputs[i], row, shape), ts[i])
    decreases inputs, 1
  {
    hide InferExpression, Evaluate, SteadyExpression, RowFits;
    AllFieldsHas(inputs, i);
    RowFitsFewer(ByValue, row, shape, FieldsOf(inputs[i]), AllFieldsOf(inputs));
    SteadyAt(host, inputs, shape, i);
    SteadySucceeds(host, inputs[i], row, shape);
    EvaluateSound(ByValue, host, inputs[i], row, shape);
  }

  lemma {:induction false} AllSucceed(host: Host, es: seq<Expr>, row: Row, shape: Shape, ts: seq<Typing>)
    requires Typed(host, es, shape, ts) && RowFits(ByValue, row, shape, AllFieldsOf(es)) && SteadyAll(host, es, shape)
    ensures EvaluateAll(host, es, row, shape).Success?
    decreases es, 2
  {
    if es != [] {
      hide InferExpression, Evaluate, SteadyExpression, RowFits;
      SteadyInput(host, es, row, shape, ts, 0);
      RowFitsFewer(ByValue, row, shape, AllFieldsOf(es[1..]), AllFieldsOf(es));
      AllSucceed(host, es[1..], row, shape, ts[1..]);
    }
  }

  lemma {:induction false} CoalesceSucceeds(host: Host, es: seq<Expr>, row: Row, shape: Shape, ts: seq<Typing>,
      ty: FieldType)
    requires Typed(host, es, shape, ts) && RowFits(ByValue, row, shape, AllFieldsOf(es)) && SteadyAll(host, es, shape)
    ensures EvaluateCoalesce(host, es, row, shape, ty).Success?
    decreases es, 2
  {
    if es != [] {
      hide InferExpression, Evaluate, SteadyExpression, RowFits, DecimalOf, FitsType;
      SteadyInput(host, es, row, shape, ts, 0);
      RowFitsFewer(ByValue, row, shape, AllFieldsOf(es[1..]), AllFieldsOf(es));
      CoalesceSucceeds(host, es[1..], row, shape, ts[1..], ty);
      var v := Evaluate(host, es[0], row, shape).value;
      if !Missing(v) && ts[0].ty.IntegerType? {
        NumberReads(ts[0].ty, v);
      }
    }
  }

  lemma {:induction false} LogicSucceeds(host: Host, conjunction: bool, es: seq<Expr>, row: Row, shape: Shape,
      ts: seq<Typing>, sawNull: bool)
    requires Typed(host, es, shape, ts) && RowFits(ByValue, row, shape, AllFieldsOf(es)) && SteadyAll(host, es, shape)
    requires forall i | 0 <= i < |ts| :: ts[i].ty.BooleanType?
    ensures EvaluateLogic(host, conjunction, es, row, shape, sawNull).Success?
    decreases es, 2
  {
    if es != [] {
      hide InferExpression, Evaluate, SteadyExpression, RowFits;
      SteadyInput(host, es, row, shape, ts, 0);
      RowFitsFewer(ByValue, row, shape, AllFieldsOf(es[1..]), AllFieldsOf(es));
      LogicSucceeds(host, conjunction, es[1..], row, shape, ts[1..], sawNull
        || Missing(Evaluate(host, es[0], row, shape).value));
    }
  }

  // ---------------------------------------------------------------- operators

  predicate SteadyColumn(shape: Shape, name: string) {
    var f := Lookup(shape, name);
    f.Some? ==> Steady(f.value.ty)
  }

  predicate SteadyMeasure(m: Measure, shape: Shape) {
    m.op.MinOf? || m.op.MaxOf? ==> SteadyColumn(shape, m.field.GetOr(""))
  }

  /** Every comparison of the node is on steady columns, every expression steady. */
  predicate SteadyNode(host: Host, op: Op, shapes: seq<Shape>)
    requires |shapes| == |InputPorts(op)|
  {
    match op
    case FilterPredicate(p) => forall c | c in p.conditions ::
      c.op.IsNull? || c.op.IsNotNull?
      || SteadyColumn(shapes[0], c.field)
    case FilterExpression(e) => SteadyExpression(host, e, shapes[0])
    case Mapping(config) => forall d | d in config.fields :: SteadyExpression(host, d.expr, shapes[0])
    case Aggregate(_, measures) => forall m | m in measures :: SteadyMeasure(m, shapes[0])
    case Sort(config) => forall k | k in config.orderBy :: SteadyColumn(shapes[0], k.field)
    case _ => true
  }

  lemma ColumnReads(host: Host, row: Row, shape: Shape, name: string)
    requires RowHas(ByValue, row, shape) && Lookup(shape, name).Some? && SteadyColumn(shape, name)
    ensures name in row && (Missing(row[name]) || Readable(host, Lookup(shape, name).value.ty, row[name]))
    ensures Missing(row[name]) ==> Lookup(shape, name).value.nullable
  {
    hide Readable, FitsType, Steady;
    var f := Lookup(shape, name).value;
    assert f.name in Names(shape);
    if !Missing(row[name]) {
      FitIsReadable(host, f.ty, row[name]);
    }
  }

  lemma LiteralReads(host: Host, f: Field, v: Value)
    requires ValidLiteral(host, f, v) && Steady(f.ty)
    ensures Readable(host, f.ty, v)
  {
    hide CompareSemanticValues, KeyOf;
    ComparisonIsKeyOrder(host, f.ty, v, v);
    if f.ty.BooleanType? {
      FitIsReadable(host, f.ty, v);
    }
  }

  lemma {:induction false} SomeEqualSucceeds(host: Host, f: Field, actual: Value, values: seq<Value>)
    requires Steady(f.ty) && Readable(host, f.ty, actual) && forall v | v in values :: ValidLiteral(host, f, v)
    ensures SomeEqual(host, f.ty, actual, values).Success?
  {
    if values != [] {
      hide Steady, Readable, ValidLiteral, CompareSemanticValues;
      LiteralReads(host, f, values[0]);
      ReadableCompares(host, f.ty, actual, values[0]);
      SomeEqualSucceeds(host, f, actual, values[1..]);
    }
  }

  lemma ConditionSucceeds(host: Host, row: Row, c: Condition, shape: Shape)
    requires RowHas(ByValue, row, shape) && ValidCondition(host, c, shape)
    requires c.op.IsNull? || c.op.IsNotNull? || SteadyColumn(shape, c.field)
    ensures EvaluateCondition(host, row, c, Lookup(shape, c.field).value).Success?
  {
    hide Steady, Readable, ValidLiteral, CompareSemanticValues, SomeEqual, OperatorsFor, FitsType;
    var f := Lookup(shape, c.field).value;
    assert f.name in Names(shape);
    if !c.op.IsNull? && !c.op.IsNotNull? {
      ColumnReads(host, row, shape, c.field);
      if !Missing(row[c.field]) {
        BoundsCompare(host, c, shape, row[c.field]);
      }
    }
  }

  lemma BoundsCompare(host: Host, c: Condition, shape: Shape, actual: Value)
    requires ValidCondition(host, c, shape) && !c.op.IsNull? && !c.op.IsNotNull?
    requires SteadyColumn(shape, c.field) && Readable(host, Lookup(shape, c.field).value.ty, actual)
    ensures var ty := Lookup(shape, c.field).value.ty;
            && (c.op.In? || c.op.NotIn? ==> SomeEqual(host, ty, actual, c.values.GetOr([])).Success?)
            && (c.op.Between? ==>
                  CompareSemanticValues(host, ty, actual, c.values.value[0]).Success?
                    && CompareSemanticValues(host, ty, actual, c.values.value[1]).Success?)
            && (c.value.Some? ==> CompareSemanticValues(host, ty, actual, c.value.value).Success?)
  {
    hide Steady, Readable, ValidLiteral, CompareSemanticValues, SomeEqual, OperatorsFor;
    var f := Lookup(shape, c.field).value;
    if c.op.In? || c.op.NotIn? {
      SomeEqualSucceeds(host, f, actual, c.values.value);
    } else if c.op.Between? {
      forall i | 0 <= i < 2
        ensures CompareSemanticValues(host, f.ty, actual, c.values.value[i]).Success?
      {
        assert c.values.value[i] in c.values.value;
        LiteralReads(host, f, c.values.value[i]);
        ReadableCompares(host, f.ty, actual, c.values.value[i]);
      }
    } else {
      LiteralReads(host, f, c.value.value);
      ReadableCompares(host, f.ty, actual, c.value.value);
    }
  }

  lemma {:induction false} ConditionsSucceed(host: Host, row: Row, conditions: seq<Condition>, shape: Shape)
    requires RowHas(ByValue, row, shape) && forall c | c in conditions :: ValidCondition(host, c, shape)
    requires forall c | c in conditions :: c.op.IsNull? || c.op.IsNotNull? || SteadyColumn(shape, c.field)
    ensures EvaluateConditions(host, row, conditions, shape).Success?
  {
    if conditions != [] {
      hide RowHas, SteadyColumn, EvaluateCondition, OperatorsFor, ValidLiteral;
      assert conditions[0] in conditions;
      ConditionSucceeds(host, row, conditions[0], shape);
      ConditionsSucceed(host, row, conditions[1..], shape);
    }
  }

  lemma FilterPredicateSucceeds(host: Host, rows: seq<Row>, p: Predicate, shape: Shape)
    requires RowsHave(ByValue, rows, shape) && ValidPredicate(host, p, shape)
    requires forall c | c in p.conditions :: c.op.IsNull? || c.op.IsNotNull? || SteadyColumn(shape, c.field)
    ensures FilterRows(host, rows, p, shape).Success?
  {
    hide RowHas, SteadyColumn, ValidCondition;
    var keep := Keeper(host, p, shape);
    if TryFilter(rows, keep).Failure? {
      var row := TryFilterFailure(rows, keep);
      assert RowHas(ByValue, row, shape);
      ConditionsSucceed(host, row, p.conditions, shape);
    }
  }

  lemma FilterExpressionSucceeds(host: Host, rows: seq<Row>, e: Expr, shape: Shape)
    requires RowsHave(ByValue, rows, shape) && Flat(shape) && InferExpression(host, e, shape).Success?
             && SteadyExpression(host, e, shape)
    ensures TryFilter(rows, ExpressionKeeper(host, e, shape)).Success?
  {
    hide RowHas, Flat, RowFits, SteadyExpression, InferExpression, Evaluate;
    var keep := ExpressionKeeper(host, e, shape);
    if TryFilter(rows, keep).Failure? {
      var row := TryFilterFailure(rows, keep);
      assert RowHas(ByValue, row, shape);
      FlatRow(ByValue, row, shape, FieldsOf(e));
      SteadySucceeds(host, e, row, shape);
      KeepByExpressionSound(ByValue, host, e, shape, row);
    }
  }

  lemma {:induction false} AssignSucceeds(host: Host, row: Row, definitions: seq<Definition>, input: Shape, output: Row)
    requires RowFits(ByValue, row, input, Referenced(definitions)) && DefinitionsOk(host, definitions, input)
    requires forall d | d in definitions :: SteadyExpression(host, d.expr, input)
    ensures Assign(host, row, definitions, input, output).Success?
    decreases definitions
  {
    if definitions != [] {
      hide RowFits, InferExpression, Evaluate, Annotate, SteadyExpression;
      var d := definitions[0];
      assert InferDefinition(host, d, input).Success?;
      RowFitsFewer(ByValue, row, input, FieldsOf(d.expr), Referenced(definitions));
      RowFitsFewer(ByValue, row, input, Referenced(definitions[1..]), Referenced(definitions));
      SteadySucceeds(host, d.expr, row, input);
      AssignSucceeds(host, row, definitions[1..], input, output[d.name := Evaluate(host, d.expr, row, input).value]);
    }
  }

  lemma MapSucceeds(host: Host, rows: seq<Row>, config: MapConfig, input: Shape)
    requires ValidMap(host, config, input) && RowsFit(ByValue, rows, input, Referenced(config.fields))
    requires forall d | d in config.fields :: SteadyExpression(host, d.expr, input)
    ensures MapRows(host, rows, config, input).Success?
  {
    hide RowFits, SteadyExpression, Assign, InferDefinition;
    var f := Mapper(host, config, input);
    if TryMap(rows, f).Failure? {
      var row := TryMapFailure(rows, f);
      AssignSucceeds(host, row, config.fields, input, if config.mode.Extend? then row else map[]);
    }
  }

  lemma {:induction false} CompareRowsSucceeds(host: Host, a: Decorated, b: Decorated, orderBy: seq<SortKey>,
      shape: Shape)
    requires RowHas(ByValue, a.row, shape) && RowHas(ByValue, b.row, shape)
    requires forall k | k in orderBy :: ValidKey(k, shape) && SteadyColumn(shape, k.field)
    ensures CompareRows(host, a, b, orderBy, shape).Success?
  {
    if orderBy != [] {
      hide CompareSemanticValues, RowHas, Steady, Readable;
      var name := orderBy[0].field;
      assert ValidKey(orderBy[0], shape) && SteadyColumn(shape, name);
      ColumnReads(host, a.row, shape, name);
      ColumnReads(host, b.row, shape, name);
      if !Missing(a.row[name]) && !Missing(b.row[name]) {
        ReadableCompares(host, Lookup(shape, name).value.ty, a.row[name], b.row[name]);
      }
      CompareRowsSucceeds(host, a, b, orderBy[1..], shape);
    }
  }

  lemma NeverThrows(host: Host, rows: seq<Row>, config: SortConfig, shape: Shape, e: Error)
    requires RowsHave(ByValue, rows, shape) && ValidSort(config, shape)
             && forall k | k in config.orderBy :: SteadyColumn(shape, k.field)
    ensures !Throws(host, rows, config, shape, e)
  {
    hide RowHas, SteadyColumn, ValidKey;
    var compare, d := RowComparator(host, config.orderBy, shape), Decorate(rows);
    forall i, j | 0 <= i < |d| && 0 <= j < |d|
      ensures compare(d[i], d[j]).Success?
    {
      assert RowHas(ByValue, d[i].row, shape) && RowHas(ByValue, d[j].row, shape);
      CompareRowsSucceeds(host, d[i], d[j], config.orderBy, shape);
    }
  }

  lemma {:induction false} SumSucceeds(ty: FieldType, total: Decimals.Decimal, values: seq<Value>)
    requires Numeric(ty) && forall v | v in values :: FitsType(ByValue, ty, v)
    ensures SumFrom(total, values).Success?
    decreases values
  {
    if values != [] {
      hide FitsType, DecimalOf;
      assert values[0] in values && forall v | v in values[1..] :: v in values;
      NumberReads(ty, values[0]);
      SumSucceeds(ty, if Missing(values[0]) then total
        else Decimals.Add(total, DecimalOf(values[0]).value), values[1..]);
    }
  }

  lemma {:induction false} SelectSucceeds(host: Host, ty: FieldType, least: bool, selected: Value, values: seq<Value>)
    requires Steady(ty) && FitsType(ByValue, ty, selected) && forall v | v in values :: FitsType(ByValue, ty, v)
    ensures Select(host, ty, least, selected, values).Success?
    decreases values
  {
    if values != [] {
      hide FitsType, CompareSemanticValues, Steady, Readable;
      assert values[0] in values && forall v | v in values[1..] :: v in values;
      FitIsReadable(host, ty, selected);
      FitIsReadable(host, ty, values[0]);
      ReadableCompares(host, ty, values[0], selected);
      var c := CompareSemanticValues(host, ty, values[0], selected).value;
      SelectSucceeds(host, ty, least, if (if least then c < 0 else c > 0) then values[0] else selected, values[1..]);
    }
  }

  lemma MeasureSucceeds(host: Host, m: Measure, group: seq<Row>, input: Shape)
    requires RowsHave(ByValue, group, input) && MeasureField(m, input).Success? && SteadyMeasure(m, input)
    ensures MeasureValue(host, m, group, input).Success?
  {
    hide Present, Decimals.Print, Decimals.Average, SumFrom, Select, FitsType, RowHas, Steady;
    if !m.op.CountRows? && !m.op.CountDistinct? {
      var f := Lookup(input, m.field.value).value;
      var values := Present(ColumnOf(group, m.field.value));
      ColumnFits(ByValue, group, input, f, values);
      if m.op.SumOf? || m.op.AverageOf? {
        SumSucceeds(f.ty, Decimals.Decimal(0, 0), values);
      } else if values != [] {
        assert values[0] in values && forall v | v in values[1..] :: v in values;
        SelectSucceeds(host, f.ty, m.op.MinOf?, values[0], values[1..]);
      }
    }
  }

  lemma {:induction false} MeasuredSucceeds(host: Host, measures: seq<Measure>, group: seq<Row>, input: Shape, row: Row,
      shape: Shape)
    requires RowsHave(ByValue, group, input) && MeasureFields(measures, input, shape).Success?
    requires forall m | m in measures :: SteadyMeasure(m, input)
    ensures Measured(host, measures, group, input, row).Success?
    decreases measures
  {
    if measures != [] {
      hide RowHas, MeasureValue, MeasureField, SteadyMeasure;
      MeasureSucceeds(host, measures[0], group, input);
      var f := MeasureField(measures[0], input).value;
      MeasuredSucceeds(host, measures[1..], group, input,
        row[measures[0].name := MeasureValue(host, measures[0], group, input).value], shape + [f]);
    }
  }

  lemma {:induction false} RowsOfKeysSucceed(host: Host, keys: seq<GroupKey>, rows: seq<Row>, groupBy: seq<string>,
      measures: seq<Measure>, input: Shape)
    requires RowsHave(ByValue, rows, input) && AggregateShape(groupBy, measures, input).Success?
    requires (forall key | key in keys :: Members(rows, groupBy, key) != [])
             && forall m | m in measures :: SteadyMeasure(m, input)
    ensures RowsOfKeys(host, keys, rows, groupBy, measures, input).Success?
  {
    if keys != [] {
      var group := Members(rows, groupBy, keys[0]);
      KeysAreMembers(rows, groupBy, keys[0]);
      AggregateShapeAgrees(groupBy, measures, input);
      hide RowHas, Flat, Measured, MeasureFields, RunGroupFields, AggregateShape, Members, SteadyMeasure;
      MeasuredSucceeds(host, measures, group, input, map name | name in groupBy :: Column(group[0], name),
        RunGroupFields(groupBy, input).value);
      RowsOfKeysSucceed(host, keys[1..], rows, groupBy, measures, input);
    }
  }

  /** A compiled steady operator succeeds on inputs whose values can be read. */
  lemma RunSucceeds(host: Host, op: Op, inputs: seq<Table>, shapes: seq<Shape>, lenient: bool)
    requires !op.Source? && |inputs| == |shapes| == |InputPorts(op)| && Faithful(ByValue, host, op, shapes)
    requires CompileShape(host, op, shapes).Success? && InputsFit(ByValue, op, inputs, shapes)
             && SteadyNode(host, op, shapes)
    ensures Run(host, op, inputs, lenient).Success?
  {
    hide RowHas, Flat, RowFits, MapRows, FilterRows, MapShape, RunMapShape, OutputFields, ValidSort, InferExpression,
      ValidPredicate, Trimmed, SteadyExpression,
      SteadyColumn, SteadyMeasure, JoinShape, UnionFields, UnionFaithful, JoinRows, RunJoinShape, Throws,
        AggregateShape, RunAggregateShape, RowsOfKeys;
    if op.Union? || op.Join? {
    } else {
      var rows, shape := inputs[0].rows, shapes[0];
      assert InputFits(ByValue, op, inputs[0], shape);
      match op
      case FilterPredicate(p) => FilterPredicateSucceeds(host, rows, p, shape);
      case FilterExpression(e) => FilterExpressionSucceeds(host, rows, e, shape);
      case Mapping(config) => MappingSucceeds(host, config, inputs, shapes, lenient);
      case Aggregate(groupBy, measures) =>
        AggregateShapeAgrees(groupBy, measures, shape);
        KeysHaveMembers(rows, groupBy);
        RowsOfKeysSucceed(host, Keys(rows, groupBy), rows, groupBy, measures, shape);
      case Sort(config) =>
        forall e
          ensures !Throws(host, rows, config, shape, e)
        {
          NeverThrows(host, rows, config, shape, e);
        }
      case Output(fields) =>
    }
  }

  lemma MappingSucceeds(host: Host, config: MapConfig, inputs: seq<Table>, shapes: seq<Shape>, lenient: bool)
    requires |inputs| == |shapes| == 1 && Trimmed(host, config.fields) && ValidMap(host, config, shapes[0])
    requires InputFits(ByValue, Mapping(config), inputs[0], shapes[0])
             && forall d | d in config.fields :: SteadyExpression(host, d.expr, shapes[0])
    ensures Run(host, Mapping(config), inputs, lenient).Success?
  {
    hide RowHas, Flat, RowFits, MapRows, MapShape, RunMapShape, Trimmed, SteadyExpression, ValidMap;
    var rows, shape := inputs[0].rows, shapes[0];
    if config.mode.Extend? {
      FlatRows(ByValue, rows, shape, Referenced(config.fields));
    }
    MapSound(ByValue, host, rows, config, shape);
    MapSucceeds(host, rows, config, shape);
  }

  // ---------------------------------------------------------------- plans

  ghost predicate SteadyPlan(host: Host, dag: Dag)
    requires Wired(dag) && Acyclic(dag)
  {
    forall n | n in dag.nodes && !n.op.Source? && ShapesInto(host, dag, n.id).Success? ::
      SteadyNode(host, n.op, ShapesInto(host, dag, n.id).value)
  }

  ghost predicate AllAnswer(dag: Dag, answers: Answers) {
    forall n | n in dag.nodes && n.op.Source? :: Answer(answers, n.id).Success?
  }

  /** Progress: a compiled, faithful and steady plan has a strict meaning at every node whenever every provider
      answers with values that can be read at the types their Map relies on. */
  lemma {:induction false} SteadyPlanSucceeds(host: Host, dag: Dag, answers: Answers, lenient: bool, id: string)
    requires WellFormed(host, dag) && Wired(dag) && Acyclic(dag) && Known(dag.nodes, id)
    requires FaithfulPlan(ByValue, host, dag) && ProviderFits(ByValue, dag, answers) && SteadyPlan(host, dag)
             && AllAnswer(dag, answers)
    requires ShapeOf(host, dag, id).Success?
    ensures Denote(host, dag, answers, lenient, id).Success?
    decreases LevelsOf(dag)[id]
  {
    hide WellFormed, Wired, Acyclic, Levels, Find, FaithfulPlan, ProviderFits, SteadyPlan, InputSound, TableFits,
      RunNode, CompileShape;
    if NodeOf(dag, id).op.Source? {
      SourceSucceeds(host, dag, answers, lenient, id);
    } else {
      MeaningUnfolds(dag, ShapeStep(host), id);
      forall k: nat | k < Arity(dag, id)
        ensures ShapesInto(host, dag, id).Success? && InputSound(ByValue, host, dag, answers, lenient, id, k)
        ensures Denote(host, dag, answers, lenient, Feeder(dag, id, k)).Success?
      {
        assert MeaningInputs(dag, ShapeStep(host), id)[k].Success?;
        PlanSound(ByValue, host, dag, answers, lenient, Feeder(dag, id, k));
        InputIsSound(ByValue, host, dag, answers, lenient, id, k);
        SteadyPlanSucceeds(host, dag, answers, lenient, Feeder(dag, id, k));
      }
      NodeSucceeds(host, dag, answers, lenient, id);
    }
  }

  lemma SourceSucceeds(host: Host, dag: Dag, answers: Answers, lenient: bool, id: string)
    requires Wired(dag) && Acyclic(dag) && Known(dag.nodes, id) && NodeOf(dag, id).op.Source? && AllAnswer(dag, answers)
    requires ShapeOf(host, dag, id).Success?
    ensures Denote(host, dag, answers, lenient, id).Success?
  {
    hide Run, ValidSchema, Wired, Acyclic, Find, Meaning;
    MeaningUnfolds(dag, ShapeStep(host), id);
    SourceTable(host, dag, answers, lenient, id, NodeOf(dag, id).op.schema.value);
  }

  lemma NodeSucceeds(host: Host, dag: Dag, answers: Answers, lenient: bool, id: string)
    requires Wired(dag) && Acyclic(dag) && Known(dag.nodes, id) && FaithfulPlan(ByValue, host, dag)
             && SteadyPlan(host, dag)
    requires !NodeOf(dag, id).op.Source? && ShapeOf(host, dag, id).Success?
    requires ShapesInto(host, dag, id).Success?
             && forall k: nat | k < Arity(dag, id) :: InputSound(ByValue, host, dag, answers, lenient, id, k)
    requires forall k: nat | k < Arity(dag, id) :: Denote(host, dag, answers, lenient, Feeder(dag, id, k)).Success?
    ensures Denote(host, dag, answers, lenient, id).Success?
  {
    hide Wired, Acyclic, Find, CompileShape, Run, FaithfulPlan, InputSound, InputsFit, Faithful, SteadyNode, Meaning;
    MeaningUnfolds(dag, ShapeStep(host), id);
    MeaningUnfolds(dag, RunStep(host, answers, lenient), id);
    FaithfulAt(ByValue, host, dag, id);
    InputsFitIn(ByValue, host, dag, answers, lenient, id);
    var inputs := MeaningInputs(dag, RunStep(host, answers, lenient), id);
    assert forall k | 0 <= k < |inputs| :: inputs[k].Success?;
    var tables := TablesInto(host, dag, answers, lenient, id);
    RunSucceeds(host, NodeOf(dag, id).op, tables.value, ShapesInto(host, dag, id).value, lenient);
  }
}
