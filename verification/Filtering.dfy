/** Predicate filters (dag/filter.ts): validation, evaluation of one condition, and filterRows. */
module Filtering {
  import opened Wrappers
  import opened Values
  import opened Ordering

  datatype FilterOp = Eq | Ne | Lt | Lte | Gt | Gte | In | NotIn | Between | IsNull | IsNotNull

  datatype Condition = Condition(field: string, op: FilterOp, value: Option<Value>, values: Option<seq<Value>>)

  datatype Combinator = All | Any

  datatype Predicate = Predicate(combinator: Combinator, conditions: seq<Condition>)

  function OperatorsFor(f: Field): set<FilterOp> {
    var nullable := if f.nullable then {IsNull, IsNotNull} else {};
    match f.ty
    case BooleanType => {Eq, Ne} + nullable
    case IntegerType | DecimalType | TimestampType | DateType =>
      {Eq, Ne, In, NotIn, Lt, Lte, Gt, Gte, Between} + nullable
    case StringType | IdType | AddressType | BytesType => {Eq, Ne, In, NotIn} + nullable
    case JsonType => {}
  }

  predicate ValidLiteral(host: Host, f: Field, v: Value) {
    if f.ty.BooleanType? then v.Bool?
    else v.Text? && 1 <= |v.s| <= 512 && CompareSemanticValues(host, f.ty, v, v).Success?
  }

  predicate ValidCondition(host: Host, c: Condition, shape: Shape) {
    var field := Lookup(shape, c.field);
    && IsIdentifier(c.field) && field.Some? && c.op in OperatorsFor(field.value)
    && match c.op {
         case IsNull | IsNotNull => c.value.None? && c.values.None?
         case In | NotIn =>
           && c.value.None? && c.values.Some? && 1 <= |c.values.value| <= 50
           && forall v | v in c.values.value :: ValidLiteral(host, field.value, v)
         case Between =>
           && c.value.None? && c.values.Some? && |c.values.value| == 2
           && forall v | v in c.values.value :: ValidLiteral(host, field.value, v)
         case _ => c.values.None? && c.value.Some? && ValidLiteral(host, field.value, c.value.value)
       }
  }

  predicate ValidPredicate(host: Host, p: Predicate, shape: Shape) {
    && 1 <= |p.conditions| <= 32
    && forall i | 0 <= i < |p.conditions| :: ValidCondition(host, p.conditions[i], shape)
  }

  /** validateFilterPredicate: the issue list is empty exactly on valid predicates. */
  method ValidateFilterPredicate(host: Host, p: Predicate, shape: Shape) returns (issues: seq<string>)
    ensures issues == [] <==> ValidPredicate(host, p, shape)
  {
    issues := [];
    if |p.conditions| < 1 || |p.conditions| > 32 {
      return ["FILTER_CONDITION_COUNT_INVALID"];
    }
    for index := 0 to |p.conditions|
      invariant issues == [] <==> forall i | 0 <= i < index :: ValidCondition(host, p.conditions[i], shape)
    {
      var c := p.conditions[index];
      var field := Lookup(shape, c.field);
      if !IsIdentifier(c.field) || field.None? {
        issues := issues + ["FILTER_FIELD_UNKNOWN"];
        continue;
      }
      if c.op !in OperatorsFor(field.value) {
        issues := issues + ["FILTER_OPERATOR_INVALID"];
        continue;
      }
      if c.op.IsNull? || c.op.IsNotNull? {
        if c.value.Some? || c.values.Some? {
          issues := issues + ["FILTER_CONDITION_INVALID"];
        }
        continue;
      }
      if c.op.In? || c.op.NotIn? || c.op.Between? {
        if c.value.Some? || c.values.None? {
          issues := issues + ["FILTER_VALUES_INVALID"];
          continue;
        }
        var count := |c.values.value|;
        if (c.op.Between? && count != 2) || (!c.op.Between? && (count < 1 || count > 50)) {
          issues := issues + ["FILTER_VALUES_INVALID"];
          continue;
        }
        if exists v | v in c.values.value :: !ValidLiteral(host, field.value, v) {
          issues := issues + ["FILTER_VALUE_TYPE_INVALID"];
        }
        continue;
      }
      if c.values.Some? || c.value.None? {
        issues := issues + ["FILTER_VALUE_INVALID"];
        continue;
      }
      if !ValidLiteral(host, field.value, c.value.value) {
        issues := issues + ["FILTER_VALUE_TYPE_INVALID"];
      }
    }
  }

  /** values.some(...): the first equal literal stops the scan, a comparison that throws aborts it. */
  function SomeEqual(host: Host, ty: FieldType, actual: Value, values: seq<Value>): Try<bool> {
    if values == [] then Success(false)
    else
      var c :- CompareSemanticValues(host, ty, actual, values[0]);
      if c == 0 then Success(true) else SomeEqual(host, ty, actual, values[1..])
  }

  function EvaluateCondition(host: Host, row: Row, c: Condition, f: Field): Try<bool> {
    if c.field !in row then Failure(MissingField(c.field))
    else
      var actual := row[c.field];
      if c.op.IsNull? then Success(Missing(actual))
      else if c.op.IsNotNull? then Success(!Missing(actual))
      else if Missing(actual) then Success(false)
      else if c.op.In? || c.op.NotIn? then
        var matched :- SomeEqual(host, f.ty, actual, c.values.GetOr([]));
        Success(if c.op.In? then matched else !matched)
      else if c.op.Between? then
        var bounds := c.values.GetOr([]);
        if |bounds| < 2 then Success(false)
        else
          var low :- CompareSemanticValues(host, f.ty, actual, bounds[0]);
          if low < 0 then Success(false)
          else
            var high :- CompareSemanticValues(host, f.ty, actual, bounds[1]);
            Success(high <= 0)
      else
        var comparison :- CompareSemanticValues(host, f.ty, actual, c.value.GetOr(Undefined));
        Success(match c.op
                case Eq => comparison == 0
                case Ne => comparison != 0
                case Lt => comparison < 0
                case Lte => comparison <= 0
                case Gt => comparison > 0
                case _ => comparison >= 0)
  }

  /** All conditions are evaluated before they are combined, so any of them may abort the filter. */
  function EvaluateConditions(host: Host, row: Row, conditions: seq<Condition>, shape: Shape): Try<seq<bool>> {
    if conditions == [] then Success([])
    else
      var field := Lookup(shape, conditions[0].field);
      if field.None? then Failure(InvalidConfig("FILTER_FIELD_UNKNOWN"))
      else
        var head :- EvaluateCondition(host, row, conditions[0], field.value);
        var tail :- EvaluateConditions(host, row, conditions[1..], shape);
        Success([head] + tail)
  }

  predicate Combine(combinator: Combinator, results: seq<bool>) {
    if combinator.All? then forall b | b in results :: b else exists b | b in results :: b
  }

  function KeepRow(host: Host, p: Predicate, shape: Shape, row: Row): Try<bool> {
    var results :- EvaluateConditions(host, row, p.conditions, shape);
    Success(Combine(p.combinator, results))
  }

  function FilterRows(host: Host, rows: seq<Row>, p: Predicate, shape: Shape): Try<seq<Row>> {
    if !ValidPredicate(host, p, shape) then Failure(InvalidConfig("FILTER_PREDICATE_INVALID"))
    else TryFilter(rows, Keeper(host, p, shape))
  }

  function Keeper(host: Host, p: Predicate, shape: Shape): Row -> Try<bool> {
    row => KeepRow(host, p, shape, row)
  }
}
