/** Map nodes (dag/map.ts): unit annotations, validation, and row mapping. */
module Maps {
  import opened Wrappers
  import opened Values
  import opened Ordering
  import opened Expressions

  datatype Definition = Definition(name: string, expr: Expr, unit: Option<string>)

  datatype Mode = Extend | Project

  datatype MapConfig = MapConfig(mode: Mode, fields: seq<Definition>)

  predicate IsControl(c: char) {
    c as int <= 0x1f || c as int == 0x7f
  }

  /** applyMapUnitAnnotation: the annotation is trimmed and must not contradict an inferred unit. */
  function Annotate(host: Host, t: Typing, annotation: Option<string>): Try<Typing> {
    if annotation.None? then Success(t)
    else
      var unit := host.trim(annotation.value);
      if |unit| < 1 || |unit| > 40 || exists c | c in unit :: IsControl(c)
        then Failure(InvalidConfig("MAP_UNIT_INVALID"))
      else if t.unit.Some? && t.unit.value != unit then Failure(InvalidConfig("MAP_UNIT_CONFLICT"))
      else Success(t.(unit := Some(unit)))
  }

  /** The type of one output column, as compilation sees it. */
  function InferDefinition(host: Host, d: Definition, shape: Shape): Try<Typing> {
    var t :- InferExpression(host, d.expr, shape);
    Annotate(host, t, d.unit)
  }

  predicate ValidMap(host: Host, config: MapConfig, shape: Shape) {
    && 1 <= |config.fields| <= 32
    && (forall d | d in config.fields :: IsIdentifier(d.name) && InferDefinition(host, d, shape).Success?)
    && forall i, j | 0 <= i < j < |config.fields| :: config.fields[i].name != config.fields[j].name
  }

  /** The provider paths that the definitions of a Map refer to. */
  function Referenced(definitions: seq<Definition>): set<string> {
    if definitions == [] then {} else FieldsOf(definitions[0].expr) + Referenced(definitions[1..])
  }

  /** validateMapConfig: a definition with a bad or repeated name is reported and its expression skipped. */
  method ValidateMapConfig(host: Host, config: MapConfig, shape: Shape) returns (issues: seq<string>)
    ensures issues == [] <==> ValidMap(host, config, shape)
  {
    if |config.fields| < 1 || |config.fields| > 32 {
      return ["MAP_FIELD_COUNT_INVALID"];
    }
    issues := [];
    var names: set<string> := {};
    for index := 0 to |config.fields|
      invariant issues == [] ==> names == set i | 0 <= i < index :: config.fields[i].name
      invariant issues == [] <==>
                && (forall i | 0 <= i < index ::
                      IsIdentifier(config.fields[i].name) && InferDefinition(host, config.fields[i], shape).Success?)
                && forall i, j | 0 <= i < j < index :: config.fields[i].name != config.fields[j].name
    {
      var d := config.fields[index];
      if !IsIdentifier(d.name) {
        issues := issues + ["MAP_FIELD_NAME_INVALID"];
      } else if d.name in names {
        issues := issues + ["MAP_FIELD_NAME_DUPLICATED"];
      } else {
        names := names + {d.name};
        var inferred := InferDefinition(host, d, shape);
        if inferred.Failure? {
          issues := issues + [match inferred.error case InvalidConfig(code) => code case _ => "MAP_EXPRESSION_INVALID"];
        }
      }
    }
  }

  /** Assigns the definitions in order on top of a starting row; every expression reads the input row. */
  function Assign(host: Host, row: Row, definitions: seq<Definition>, shape: Shape, output: Row): Try<Row> {
    if definitions == [] then Success(output)
    else
      var v :- Evaluate(host, definitions[0].expr, row, shape);
      Assign(host, row, definitions[1..], shape, output[definitions[0].name := v])
  }

  function MapRow(host: Host, row: Row, config: MapConfig, shape: Shape): Try<Row> {
    Assign(host, row, config.fields, shape, if config.mode.Extend? then row else map[])
  }

  function MapRows(host: Host, rows: seq<Row>, config: MapConfig, shape: Shape): Try<seq<Row>> {
    if !ValidMap(host, config, shape) then Failure(InvalidConfig("MAP_CONFIG_INVALID"))
    else TryMap(rows, Mapper(host, config, shape))
  }

  function Mapper(host: Host, config: MapConfig, shape: Shape): Row -> Try<Row> {
    row => MapRow(host, row, config, shape)
  }

  /** One output record, filled definition by definition. */
  method FillRow(host: Host, row: Row, config: MapConfig, shape: Shape) returns (r: Try<Row>)
    ensures r == MapRow(host, row, config, shape)
  {
    var output: Row := if config.mode.Extend? then row else map[];
    ghost var start := output;
    for j := 0 to |config.fields|
      invariant Assign(host, row, config.fields, shape, start) == Assign(host, row, config.fields[j..], shape, output)
    {
      var v := Evaluate(host, config.fields[j].expr, row, shape);
      if v.Failure? {
        return Failure(v.error);
      }
      assert config.fields[j..][1..] == config.fields[j + 1..];
      output := output[config.fields[j].name := v.value];
    }
    r := Success(output);
  }

  /** mapRows as written: validation, then one record per row. */
  method MapRowsLoop(host: Host, rows: seq<Row>, config: MapConfig, shape: Shape) returns (r: Try<seq<Row>>)
    ensures r.Success? <==> MapRows(host, rows, config, shape).Success?
    ensures r.Success? ==> r == MapRows(host, rows, config, shape)
    ensures ValidMap(host, config, shape) ==> r == MapRows(host, rows, config, shape)
  {
    var issues := ValidateMapConfig(host, config, shape);
    if issues != [] {
      return Failure(InvalidConfig(issues[0]));
    }
    var done: seq<Row> := [];
    ghost var f := Mapper(host, config, shape);
    hide MapRow;
    for i := 0 to |rows|
      invariant |done| == i
      invariant forall k | 0 <= k < i :: f(rows[k]) == Success(done[k])
    {
      var output := FillRow(host, rows[i], config, shape);
      if output.Failure? {
        TryMapFails(rows, f, done, i);
        return Failure(output.error);
      }
      done := done + [output.value];
    }
    TryMapSucceeds(rows, f, done);
    r := Success(done);
  }
}
