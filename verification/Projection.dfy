/** Projection pruning (deployments/live-plan.ts, deployments/runtime.ts): a source fetches only the provider
    paths its boundary Map refers to, and rebuilds each row from them. */
module Projection {
  import opened Wrappers
  import opened Values
  import opened Ordering
  import opened Expressions
  import opened Maps
  import OperatorSoundness

  const NETWORK := "data_network"

  // ---------------------------------------------------------------- referenced fields

  /** collectExpressionFields: adds to the set that the whole Map shares. */
  method CollectExpressionFields(e: Expr, before: set<string>) returns (fields: set<string>)
    ensures fields == before + FieldsOf(e)
    decreases e
  {
    fields := before;
    match e
    case FieldRef(path) => fields := fields + {path};
    case Literal(_, _) =>
    case Apply(_, inputs) =>
      assert inputs[0..] == inputs;
      for i := 0 to |inputs|
        invariant fields + AllFieldsOf(inputs[i..]) == before + AllFieldsOf(inputs)
      {
        assert inputs[i..][0] == inputs[i] && inputs[i..][1..] == inputs[i + 1..];
        fields := CollectExpressionFields(inputs[i], fields);
      }
  }

  method CollectReferenced(definitions: seq<Definition>) returns (fields: set<string>)
    ensures fields == Referenced(definitions)
  {
    fields := {};
    assert definitions[0..] == definitions;
    for i := 0 to |definitions|
      invariant fields + Referenced(definitions[i..]) == Referenced(definitions)
    {
      assert definitions[i..][0] == definitions[i] && definitions[i..][1..] == definitions[i + 1..];
      fields := CollectExpressionFields(definitions[i].expr, fields);
    }
  }

  lemma {:induction false} ReferencedBy(definitions: seq<Definition>, d: Definition)
    requires d in definitions
    ensures FieldsOf(d.expr) <= Referenced(definitions)
  {
    if d != definitions[0] {
      ReferencedBy(definitions[1..], d);
    }
  }

  // ---------------------------------------------------------------- reading and writing nested paths

  /** pathValue, along the segments of a path. */
  function Get(v: Value, segments: seq<string>): Option<Value> {
    if segments == [] then Some(v)
    else if !v.Object? || segments[0] !in v.fields then None
    else Get(v.fields[segments[0]], segments[1..])
  }

  /** setPath: missing objects on the way are created, anything else on the way is a conflict. */
  function Set(fields: Row, segments: seq<string>, v: Value): Option<Row>
    requires segments != []
    decreases segments
  {
    var name := segments[0];
    if |segments| == 1 then Some(fields[name := v])
    else
      var child := if name in fields && !fields[name].Undefined? then fields[name] else Object(map[]);
      if !child.Object? then None
      else
        var inner :- Set(child.fields, segments[1..], v);
        Some(fields[name := Object(inner)])
  }

  /** Only parts of a value: some fields of its objects, the rest as it is. */
  ghost predicate Partial(a: Value, b: Value)
    decreases a
  {
    a == b || (a.Object? && b.Object? && !a.Undefined? && forall k | k in a.fields ::
      k in b.fields
      && Partial(a.fields[k], b.fields[k]))
  }

  /** Writing back what a value already holds changes nothing. */
  lemma {:induction false} SetSame(fields: Row, segments: seq<string>, v: Value)
    requires segments != [] && Get(Object(fields), segments) == Some(v)
    ensures Set(fields, segments, v) == Some(fields)
    decreases segments
  {
    var name := segments[0];
    assert fields[name := fields[name]] == fields;
    if |segments| > 1 {
      SetSame(fields[name].fields, segments[1..], v);
    }
  }

  /** Writing a path of the full value into a part of it succeeds, stays a part of it, and reads back. */
  lemma {:induction false} SetPart(part: Row, full: Row, segments: seq<string>, v: Value)
    requires segments != [] && Partial(Object(part), Object(full)) && Get(Object(full), segments) == Some(v)
    ensures var r := Set(part, segments, v);
            r.Some? && Partial(Object(r.value), Object(full)) && Get(Object(r.value), segments) == Some(v)
    decreases segments
  {
    var name := segments[0];
    if |segments| == 1 {
      assert Get(v, []) == Some(v);
      assert Partial(v, v);
      assert Get(full[name], segments[1..]) == Some(full[name]);
      PartWith(part, full, name, v);
    } else {
      var child := if name in part && !part[name].Undefined? then part[name] else Object(map[]);
      assert full[name].Object?;
      assert Partial(child, full[name]) by {
        if name in part && !part[name].Undefined? {
          if part == full { assert Partial(part[name], full[name]); }
        }
      }
      SetPart(child.fields, full[name].fields, segments[1..], v);
      PartWith(part, full, name, Object(Set(child.fields, segments[1..], v).value));
    }
  }

  lemma PartWith(part: Row, full: Row, name: string, v: Value)
    requires Partial(Object(part), Object(full)) && name in full && Partial(v, full[name])
    ensures Partial(Object(part[name := v]), Object(full))
  {
    var more := part[name := v];
    forall k | k in more
      ensures k in full && Partial(more[k], full[k])
    {
      if k != name && part == full { assert Partial(part[k], full[k]); }
    }
  }

  /** A path that already reads as in the full value keeps doing so, whether it lies beside, above or below. */
  lemma {:induction false} SetKeeps(part: Row, full: Row, segments: seq<string>, v: Value, other: seq<string>)
    requires segments != [] && Partial(Object(part), Object(full)) && Get(Object(full), segments) == Some(v)
    requires Get(Object(part), other).Some? && Get(Object(part), other) == Get(Object(full), other)
    ensures Set(part, segments, v).Some? && Get(Object(Set(part, segments, v).value), other) == Get(Object(full), other)
    decreases segments
  {
    SetPart(part, full, segments, v);
    var after := Set(part, segments, v).value;
    if other == [] {
      SetSame(part, segments, v);
    } else if other[0] == segments[0] {
      var name := segments[0];
      if |segments| == 1 {
        assert after[name] == v && Get(full[name], segments[1..]) == Some(full[name]);
      } else {
        var w := Get(Object(full), other).value;
        assert Get(part[name], other[1..]) == Some(w) == Get(full[name], other[1..]);
        assert Partial(part[name], full[name]) by {
          if part == full { assert Partial(part[name], full[name]); }
        }
        SetKeeps(part[name].fields, full[name].fields, segments[1..], v, other[1..]);
      }
    } else {
      assert after[other[0]] == part[other[0]];
    }
  }

  // ---------------------------------------------------------------- one rebuilt row

  function GetPath(item: Row, path: string): Option<Value> {
    Get(Object(item), SplitPath(path))
  }

  /** The row of the projections applied so far, from the row with only the network on it. */
  function Rebuild(item: Row, row: Row, paths: seq<string>): Option<Row> {
    if paths == [] then Some(row)
    else
      var before :- Rebuild(item, row, paths[..|paths| - 1]);
      var path := paths[|paths| - 1];
      var v :- GetPath(item, path);
      Set(before, SplitPath(path), v)
  }

  function Start(network: string): Row {
    map[NETWORK := Text(network)]
  }

  /** The inner loop of fetchLiveSource: None where the loop throws. */
  method ProjectRow(item: Row, network: string, paths: seq<string>) returns (r: Option<Row>)
    ensures r == Rebuild(item, Start(network), paths)
  {
    hide Set, GetPath;
    var row := Start(network);
    for i := 0 to |paths|
      invariant Rebuild(item, Start(network), paths[..i]) == Some(row)
    {
      assert paths[..i + 1][..i] == paths[..i];
      var v := GetPath(item, paths[i]);
      if v.None? {
        NoneStays(item, Start(network), paths, i);
        return None;
      }
      var next := Set(row, SplitPath(paths[i]), v.value);
      if next.None? {
        NoneStays(item, Start(network), paths, i);
        return None;
      }
      row := next.value;
    }
    assert paths[..|paths|] == paths;
    r := Some(row);
  }

  lemma {:induction false} NoneStays(item: Row, row: Row, paths: seq<string>, i: nat)
    requires i < |paths| && Rebuild(item, row, paths[..i + 1]).None?
    ensures Rebuild(item, row, paths).None?
  {
    if i + 1 < |paths| {
      assert paths[..|paths| - 1][..i + 1] == paths[..i + 1];
      NoneStays(item, row, paths[..|paths| - 1], i);
    } else {
      assert paths[..i + 1] == paths;
    }
  }

  /** The provider row as the whole Map would see it. */
  function FullRow(item: Row, network: string): Row {
    item[NETWORK := Text(network)]
  }

  lemma GetFull(item: Row, network: string, segments: seq<string>)
    requires segments != [] && segments[0] != NETWORK
    ensures Get(Object(FullRow(item, network)), segments) == Get(Object(item), segments)
  {
  }

  /** A path below the network text cannot be written. */
  lemma BelowNetwork(part: Row, network: string, segments: seq<string>, v: Value)
    requires NETWORK in part && part[NETWORK] == Text(network) && |segments| > 1 && segments[0] == NETWORK
    ensures Set(part, segments, v).None?
  {
  }

  predicate Projectable(item: Row, path: string) {
    GetPath(item, path).Some? && SplitPath(path)[0] != NETWORK
  }

  ghost predicate ReadsAs(row: Row, full: Row, paths: seq<string>) {
    forall p | p in paths :: GetPath(row, p).Some? && GetPath(row, p) == GetPath(full, p)
  }

  /** A row is rebuilt exactly when every path can be read from the entity and none goes through the network
      column; then each path reads in it as in the full row. */
  lemma {:induction false} RebuildIs(item: Row, network: string, paths: seq<string>)
    requires forall p | p in paths :: SplitPath(p) != [NETWORK]
    ensures Rebuild(item, Start(network), paths).Some? <==> forall p | p in paths :: Projectable(item, p)
    ensures Rebuild(item, Start(network), paths).Some? ==>
              var row, full := Rebuild(item, Start(network), paths).value, FullRow(item, network);
              Partial(Object(row), Object(full)) && NETWORK in row && row[NETWORK] == Text(network)
                && ReadsAs(row, full, paths)
  {
    hide Partial;
    var full := FullRow(item, network);
    if paths == [] {
      StartIsPart(item, network);
    } else {
      var init, path := paths[..|paths| - 1], paths[|paths| - 1];
      assert paths == init + [path] && path in paths && forall p | p in init :: p in paths;
      RebuildIs(item, network, init);
      var before := Rebuild(item, Start(network), init);
      assert forall p | p in paths :: p in init || p == path;
      if before.Some? && GetPath(item, path).Some? {
        RebuildStep(item, network, before.value, init, path);
      }
    }
  }

  lemma StartIsPart(item: Row, network: string)
    ensures Partial(Object(Start(network)), Object(FullRow(item, network)))
  {
    var part, full := Start(network), FullRow(item, network);
    forall k | k in part
      ensures k in full && Partial(part[k], full[k])
    {
    }
  }

  lemma RebuildStep(item: Row, network: string, before: Row, init: seq<string>, path: string)
    requires Partial(Object(before), Object(FullRow(item, network))) && NETWORK in before
             && before[NETWORK] == Text(network)
    requires ReadsAs(before, FullRow(item, network), init) && SplitPath(path) != [NETWORK]
    requires GetPath(item, path).Some?
    ensures var next := Set(before, SplitPath(path), GetPath(item, path).value);
            && (next.Some? <==> Projectable(item, path))
            && (next.Some? ==>
                  && Partial(Object(next.value), Object(FullRow(item, network))) && NETWORK in next.value
                    && next.value[NETWORK] == Text(network)
                  && ReadsAs(next.value, FullRow(item, network), init)
                    && ReadsAs(next.value, FullRow(item, network), [path]))
  {
    hide Partial;
    var full, segments, v := FullRow(item, network), SplitPath(path), GetPath(item, path).value;
    if segments[0] == NETWORK {
      assert |segments| > 1;
      BelowNetwork(before, network, segments, v);
    } else {
      GetFull(item, network, segments);
      SetPart(before, full, segments, v);
      forall p | p in init
        ensures GetPath(Set(before, segments, v).value, p) == GetPath(full, p)
      {
        SetKeeps(before, full, segments, v, SplitPath(p));
      }
    }
  }

  // ---------------------------------------------------------------- evaluation

  /** Two rows that an expression cannot tell apart. */
  ghost predicate SameReads(a: Row, b: Row, fields: set<string>) {
    forall f | f in fields :: ReadPath(a, f) == ReadPath(b, f)
  }

  lemma {:induction false} EvaluateReads(host: Host, e: Expr, a: Row, b: Row, shape: Shape)
    requires SameReads(a, b, FieldsOf(e))
    ensures Evaluate(host, e, a, shape) == Evaluate(host, e, b, shape)
    decreases e, 1
  {
    match e
    case FieldRef(path) =>
    case Literal(_, _) =>
    case Apply(op, inputs) =>
      forall i | 0 <= i < |inputs|
        ensures Evaluate(host, inputs[i], a, shape) == Evaluate(host, inputs[i], b, shape)
      {
        AllFieldsHas(inputs, i);
        EvaluateReads(host, inputs[i], a, b, shape);
      }
      AllReads(host, op.And?, inputs, a, b, shape);
  }

  lemma {:induction false} AllReads(host: Host, conjunction: bool, es: seq<Expr>, a: Row, b: Row, shape: Shape)
    requires forall i | 0 <= i < |es| :: Evaluate(host, es[i], a, shape) == Evaluate(host, es[i], b, shape)
    ensures EvaluateAll(host, es, a, shape) == EvaluateAll(host, es, b, shape)
    ensures forall sawNull ::
            EvaluateLogic(host, conjunction, es, a, shape, sawNull) ==
            EvaluateLogic(host, conjunction, es, b, shape, sawNull)
    ensures forall ty :: EvaluateCoalesce(host, es, a, shape, ty) == EvaluateCoalesce(host, es, b, shape, ty)
    decreases es, 0
  {
    if es != [] {
      forall i | 0 <= i < |es[1..]|
        ensures Evaluate(host, es[1..][i], a, shape) == Evaluate(host, es[1..][i], b, shape)
      {
        assert es[1..][i] == es[i + 1];
      }
      AllReads(host, conjunction, es[1..], a, b, shape);
    }
  }

  lemma {:induction false} AssignReads(host: Host, a: Row, b: Row, definitions: seq<Definition>, shape: Shape,
      output: Row)
    requires SameReads(a, b, Referenced(definitions))
    ensures Assign(host, a, definitions, shape, output) == Assign(host, b, definitions, shape, output)
    decreases definitions
  {
    if definitions != [] {
      EvaluateReads(host, definitions[0].expr, a, b, shape);
      hide Evaluate;
      var v := Evaluate(host, definitions[0].expr, a, shape);
      if v.Success? {
        AssignReads(host, a, b, definitions[1..], shape, output[definitions[0].name := v.value]);
      }
    }
  }

  lemma {:induction false} ReadIsGet(v: Value, segments: seq<string>, path: string)
    requires forall s | s in segments :: s !in FORBIDDEN
    ensures ReadSegments(v, segments, path) == match Get(v, segments) case Some(w) => Success(w) case None =>
            Failure(MissingField(path))
  {
    if segments != [] {
      assert segments == [segments[0]] + segments[1..];
      if v.Object? && segments[0] in v.fields {
        ReadIsGet(v.fields[segments[0]], segments[1..], path);
      }
    }
  }

  lemma NetworkPath()
    ensures SplitPath(NETWORK) == [NETWORK]
  {
    OperatorSoundness.NoPoint(NETWORK);
  }

  /** The paths include those of the fields, but for the network column that the executor fills in itself. */
  ghost predicate Covers(paths: seq<string>, fields: set<string>) {
    NETWORK !in paths && forall p | p in fields && p != NETWORK :: p in paths
  }

  /** What was rebuilt from paths that cover some fields, fetched in whatever order, reads at those fields like the
      full provider row. */
  lemma RebuiltReads(item: Row, network: string, fields: set<string>, paths: seq<string>)
    requires Covers(paths, fields) && forall p | p in fields :: ValidFieldPath(p)
    requires Rebuild(item, Start(network), paths).Some?
    ensures SameReads(Rebuild(item, Start(network), paths).value, FullRow(item, network), fields)
  {
    hide Get, Rebuild, Start, Partial, ReadSegments, SplitPath, ValidFieldPath;
    var row, full := Rebuild(item, Start(network), paths).value, FullRow(item, network);
    forall p | p in paths
      ensures SplitPath(p) != [NETWORK]
    {
      SplitOne(p);
    }
    RebuildIs(item, network, paths);
    forall p | p in fields
      ensures ReadPath(row, p) == ReadPath(full, p)
    {
      if p == NETWORK {
        ReadsNetwork(row, full, network);
      } else {
        assert p in paths;
        SamePath(row, full, p);
      }
    }
  }

  /** Projection pruning: the boundary Map gives the same row on what was rebuilt from paths that cover those it
      refers to, fetched in whatever order, as on the full provider row. */
  lemma PruningIsInvisible(host: Host, item: Row, network: string, config: MapConfig, schema: Shape, paths: seq<string>)
    requires config.mode.Project? && Covers(paths, Referenced(config.fields))
    requires forall p | p in Referenced(config.fields) :: ValidFieldPath(p)
    requires Rebuild(item, Start(network), paths).Some?
    ensures MapRow(host, Rebuild(item, Start(network), paths).value, config, schema) ==
            MapRow(host, FullRow(item, network), config, schema)
  {
    hide Rebuild, MapRow, SameReads;
    RebuiltReads(item, network, Referenced(config.fields), paths);
    MapReads(host, Rebuild(item, Start(network), paths).value, FullRow(item, network), config, schema);
  }

  lemma MapReads(host: Host, a: Row, b: Row, config: MapConfig, schema: Shape)
    requires config.mode.Project? && SameReads(a, b, Referenced(config.fields))
    ensures MapRow(host, a, config, schema) == MapRow(host, b, config, schema)
  {
    AssignReads(host, a, b, config.fields, schema, map[]);
  }

  lemma SamePath(a: Row, b: Row, p: string)
    requires ValidFieldPath(p) && GetPath(a, p) == GetPath(b, p)
    ensures ReadPath(a, p) == ReadPath(b, p)
  {
    ReadIsGet(Object(a), SplitPath(p), p);
    ReadIsGet(Object(b), SplitPath(p), p);
  }

  lemma ReadsNetwork(a: Row, b: Row, network: string)
    requires NETWORK in a && NETWORK in b && a[NETWORK] == Text(network) == b[NETWORK]
    ensures ReadPath(a, NETWORK) == ReadPath(b, NETWORK)
  {
    NetworkPath();
  }

  /** A path of one segment is that segment. */
  lemma SplitOne(path: string)
    ensures |SplitPath(path)| == 1 ==> SplitPath(path)[0] == path
  {
  }
}
