/** The relational operators of a plan: their configuration, the shape the compiler derives for each
    (dag/compiler.ts), and the rows and shape the live executor computes (deployments/runtime.ts). */
module Operators {
  import opened Wrappers
  import opened Values
  import opened Ordering
  import opened Filtering
  import opened Expressions
  import opened Maps
  import opened Sorting
  import opened Aggregation
  import opened Joins

  datatype Op =
    | Source(sourceId: Option<string>, sourceKey: Option<string>, limit: Option<int>, schema: Option<Shape>)
    | FilterPredicate(predicate_: Predicate)
    | FilterExpression(expression: Expr)
    | Mapping(config: MapConfig)
    | Aggregate(groupBy: seq<string>, measures: seq<Measure>)
    | Sort(sort: SortConfig)
    | Union(discriminator: Option<string>)
    | Join(join: JoinConfig)
    | Output(fields: seq<string>)

  /** The input ports of an operator, in order. */
  function InputPorts(op: Op): seq<string> {
    match op
    case Source(_, _, _, _) => []
    case Union(_) | Join(_) => ["left", "right"]
    case _ => ["rows"]
  }

  datatype Table = Table(rows: seq<Row>, shape: Shape)

  // ---------------------------------------------------------------- compile-time shapes

  /** A source column may be a dotted provider path. */
  predicate IsProviderField(name: string) {
    forall segment | segment in SplitPath(name) :: IsName(segment)
  }

  /** fieldsToShape. */
  predicate ValidSchema(fields: Shape, providerPaths: bool) {
    && 1 <= |fields| <= 1024
    && (forall f | f in fields :: if providerPaths then IsProviderField(f.name) else IsIdentifier(f.name))
    && Unique(fields)
  }

  /** Setting an entry of an insertion-ordered Map. */
  function SetField(shape: Shape, f: Field): (r: Shape)
    ensures |r| <= |shape| + 1
  {
    if shape == [] then [f]
    else if shape[0].name == f.name then [f] + shape[1..]
    else [shape[0]] + SetField(shape[1..], f)
  }

  function MapShape(host: Host, definitions: seq<Definition>, input: Shape, output: Shape): Try<Shape> {
    if definitions == [] then Success(output)
    else
      var t :- InferDefinition(host, definitions[0], input);
      MapShape(host, definitions[1..], input, SetField(output, Field(definitions[0].name, t.ty, t.nullable, t.unit)))
  }

  function UnionField(left: Field, right: Field): Field {
    Field(left.name, left.ty, left.nullable || right.nullable, if left.unit == right.unit then left.unit else None)
  }

  function UnionFields(left: Shape, right: Shape): Try<Shape> {
    if left == [] then Success([])
    else
      var r := Lookup(right, left[0].name);
      if r.None? || !CompilerCompatible(left[0].ty, r.value.ty) then Failure(InvalidConfig("UNION_SCHEMA_INCOMPATIBLE"))
      else
        var tail :- UnionFields(left[1..], right);
        Success([UnionField(left[0], r.value)] + tail)
  }

  function OutputFields(fields: seq<string>, input: Shape): Try<Shape> {
    if fields == [] then Success([])
    else
      var f := Lookup(input, fields[0]);
      if !IsIdentifier(fields[0]) || f.None?
        || fields[0] in fields[1..] then Failure(InvalidConfig("OUTPUT_FIELD_INVALID"))
      else
        var tail :- OutputFields(fields[1..], input);
        Success([f.value] + tail)
  }

  /** deriveNodeShape: the shape of a node from the shapes on its ports, or the reason it does not compile. */
  function CompileShape(host: Host, op: Op, inputs: seq<Shape>): Try<Shape>
    requires |inputs| == |InputPorts(op)|
  {
    match op
    case Source(_, _, _, schema) =>
      if schema.None? || !ValidSchema(schema.value, true) then Failure(InvalidConfig("SOURCE_SCHEMA_INVALID"))
      else Success(schema.value)
    case FilterPredicate(p) =>
      if !ValidPredicate(host, p, inputs[0]) then Failure(InvalidConfig("FILTER_PREDICATE_INVALID"))
        else Success(inputs[0])
    case FilterExpression(e) =>
      var t :- InferExpression(host, e, inputs[0]);
      if !t.ty.BooleanType? then Failure(InvalidConfig("FILTER_EXPRESSION_INVALID")) else Success(inputs[0])
    case Mapping(config) =>
      if !ValidMap(host, config, inputs[0]) then Failure(InvalidConfig("MAP_CONFIG_INVALID"))
      else MapShape(host, config.fields, inputs[0], if config.mode.Extend? then inputs[0] else [])
    case Aggregate(groupBy, measures) => AggregateShape(groupBy, measures, inputs[0])
    case Sort(config) =>
      if !ValidSort(config, inputs[0]) then Failure(InvalidConfig("SORT_CONFIG_INVALID")) else Success(inputs[0])
    case Union(discriminator) =>
      if |inputs[0]| != |inputs[1]| then Failure(InvalidConfig("UNION_SCHEMA_INCOMPATIBLE"))
      else
        var fields :- UnionFields(inputs[0], inputs[1]);
        if discriminator.None? then Success(fields)
        else if !IsIdentifier(discriminator.value)
          || Lookup(fields, discriminator.value).Some? then Failure(InvalidConfig("UNION_DISCRIMINATOR_INVALID"))
        else Success(fields + [Field(discriminator.value, StringType, false, None)])
    case Join(config) => JoinShape(config, inputs[0], inputs[1])
    case Output(fields) =>
      if |fields| < 1 || |fields| > 32 then Failure(InvalidConfig("OUTPUT_CONFIG_INVALID"))
        else OutputFields(fields, inputs[0])
  }

  // ---------------------------------------------------------------- run-time shapes and rows

  /** The executor keeps the annotation as written, where the compiler trims it. */
  function RunMapShape(host: Host, definitions: seq<Definition>, input: Shape, output: Shape): Try<Shape> {
    if definitions == [] then Success(output)
    else
      var d := definitions[0];
      var t :- InferExpression(host, d.expr, input);
      RunMapShape(host, definitions[1..], input,
        SetField(output, Field(d.name, t.ty, t.nullable, if d.unit.Some? then d.unit else t.unit)))
  }

  function WithColumn(rows: seq<Row>, name: string, v: Value): (r: seq<Row>)
    ensures |r| == |rows| && forall i | 0 <= i < |r| :: r[i] == rows[i][name := v]
  {
    seq(|rows|, i requires 0 <= i < |rows| => rows[i][name := v])
  }

  function PickColumns(row: Row, fields: seq<string>): Row {
    map name | name in fields :: Column(row, name)
  }

  function PickRows(rows: seq<Row>, fields: seq<string>): (r: seq<Row>)
    ensures |r| == |rows| && forall i | 0 <= i < |r| :: r[i] == PickColumns(rows[i], fields)
  {
    seq(|rows|, i requires 0 <= i < |rows| => PickColumns(rows[i], fields))
  }

  function PickShape(shape: Shape, fields: seq<string>): Shape {
    if shape == [] then []
    else (if shape[0].name in fields then [shape[0]] else []) + PickShape(shape[1..], fields)
  }

  const MATCHES := "matches"

  /** An expression filter maps the single row to one column and keeps the row if it is the Boolean true. */
  function KeepByExpression(host: Host, e: Expr, shape: Shape, row: Row): Try<bool> {
    var mapped :- MapRows(host, [row], MapConfig(Project, [Definition(MATCHES, e, None)]), shape);
    Success(mapped != [] && Column(mapped[0], MATCHES) == Bool(true))
  }

  function ExpressionKeeper(host: Host, e: Expr, shape: Shape): Row -> Try<bool> {
    row => KeepByExpression(host, e, shape, row)
  }

  /** The rows and shape of a node from the tables on its ports. For Sort the result is the first K rows of
      the full stable sort when no comparison of two rows throws; Source rows are fetched, not computed. */
  ghost function Run(host: Host, op: Op, inputs: seq<Table>, lenient: bool): Try<Table>
    requires |inputs| == |InputPorts(op)| && !op.Source?
  {
    match op
    case FilterPredicate(p) =>
      var rows :- FilterRows(host, inputs[0].rows, p, inputs[0].shape);
      Success(Table(rows, inputs[0].shape))
    case FilterExpression(e) =>
      var rows :- TryFilter(inputs[0].rows, ExpressionKeeper(host, e, inputs[0].shape));
      Success(Table(rows, inputs[0].shape))
    case Mapping(config) =>
      var shape :- RunMapShape(host, config.fields, inputs[0].shape, if config.mode.Extend? then inputs[0].shape
        else []);
      var rows :- MapRows(host, inputs[0].rows, config, inputs[0].shape);
      Success(Table(rows, shape))
    case Aggregate(groupBy, measures) =>
      var rows :- AggregateRows(host, inputs[0].rows, groupBy, measures, inputs[0].shape);
      var shape :- RunAggregateShape(groupBy, measures, inputs[0].shape);
      Success(Table(rows, shape))
    case Sort(config) =>
      if !ValidSort(config, inputs[0].shape) then Failure(InvalidConfig("SORT_CONFIG_INVALID"))
      else if !lenient && exists e :: Throws(host, inputs[0].rows, config, inputs[0].shape, e) then
        var e :| Throws(host, inputs[0].rows, config, inputs[0].shape, e); Failure(e)
      else Success(Table(Sorted(host, inputs[0].rows, config, inputs[0].shape), inputs[0].shape))
    case Union(discriminator) =>
      var (left, right) := (inputs[0], inputs[1]);
      if discriminator.None? then Success(Table(left.rows + right.rows, left.shape))
      else Success(Table(
          WithColumn(left.rows, discriminator.value, Text("left")) + WithColumn(right.rows, discriminator.value,
            Text("right")),
          left.shape + [Field(discriminator.value, StringType, false, None)]))
    case Join(config) =>
      Success(Table(JoinRows(inputs[0].rows, inputs[1].rows, config),
        RunJoinShape(config, inputs[0].shape, inputs[1].shape)))
    case Output(fields) =>
      Success(Table(PickRows(inputs[0].rows, fields), PickShape(inputs[0].shape, fields)))
  }
}
