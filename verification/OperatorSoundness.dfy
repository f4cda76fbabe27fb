/** Shape soundness, one operator at a time: if a node compiles and its input rows fit the compiled
    input shapes, its output rows have exactly the compiled columns, each of its compiled type and
    nullability, and the only error it can raise is an unreadable value. */
module OperatorSoundness {
  import opened Wrappers
  import opened Values
  import opened Ordering
  import opened Filtering
  import opened Expressions
  import opened ExpressionSoundness
  import opened Maps
  import opened Sorting
  import opened Aggregation
  import opened Joins
  import opened Operators
  import TopK
  import Decimals
  import Digits

  /** Shapes below the source boundary: distinct lowercase identifiers, so no dotted paths. */
  ghost predicate Flat(shape: Shape) {
    Unique(shape) && forall f | f in shape :: IsIdentifier(f.name)
  }

  /** Exactly the columns of the shape, every one of its type and nullability. */
  ghost predicate RowHas(how: Precision, row: Row, shape: Shape) {
    && row.Keys == Names(shape)
    && forall f | f in shape :: Fits(how, f.ty, f.nullable, row[f.name])
  }

  ghost predicate RowsHave(how: Precision, rows: seq<Row>, shape: Shape) {
    forall row | row in rows :: RowHas(how, row, shape)
  }

  /** The named fields can be read from every row. */
  ghost predicate RowsFit(how: Precision, rows: seq<Row>, shape: Shape, fields: set<string>) {
    forall row | row in rows :: RowFits(how, row, shape, fields)
  }

  lemma {:induction false} NoPoint(s: string)
    requires forall i | 0 <= i < |s| :: s[i] != '.'
    ensures Decimals.PointAt(s) == |s|
  {
    if s != "" {
      NoPoint(s[1..]);
    }
  }

  /** On a flat row a field reference reads the column of that name. */
  lemma FlatRow(how: Precision, row: Row, shape: Shape, fields: set<string>)
    requires Flat(shape) && RowHas(how, row, shape)
    ensures RowFits(how, row, shape, fields)
  {
    forall f | f in shape && ValidFieldPath(f.name)
      ensures ReadPath(row, f.name) == Success(row[f.name])
    {
      NoPoint(f.name);
      assert SplitPath(f.name) == [f.name];
      assert f.name in SplitPath(f.name);
      assert ReadSegments(row[f.name], [f.name][1..], f.name) == Success(row[f.name]);
    }
  }

  lemma FlatRows(how: Precision, rows: seq<Row>, shape: Shape, fields: set<string>)
    requires Flat(shape) && RowsHave(how, rows, shape)
    ensures RowsFit(how, rows, shape, fields)
  {
    hide Flat, RowHas, RowFits;
    forall row | row in rows
      ensures RowFits(how, row, shape, fields)
    {
      FlatRow(how, row, shape, fields);
    }
  }

  lemma RowFitsFewer(how: Precision, row: Row, shape: Shape, few: set<string>, many: set<string>)
    requires few <= many && RowFits(how, row, shape, many)
    ensures RowFits(how, row, shape, few)
  {
  }

  // ---------------------------------------------------------------- filters

  lemma {:induction false} SomeEqualSound(host: Host, ty: FieldType, actual: Value, values: seq<Value>)
    ensures SomeEqual(host, ty, actual, values).Failure? ==> SomeEqual(host, ty, actual, values).error.BadValue?
  {
    if values != [] {
      ComparisonIsKeyOrder(host, ty, actual, values[0]);
      SomeEqualSound(host, ty, actual, values[1..]);
    }
  }

  lemma ConditionSound(host: Host, row: Row, c: Condition, f: Field)
    requires c.field in row
    ensures EvaluateCondition(host, row, c, f).Failure? ==> EvaluateCondition(host, row, c, f).error.BadValue?
  {
    hide CompareSemanticValues;
    var actual, bounds := row[c.field], c.values.GetOr([]);
    SomeEqualSound(host, f.ty, actual, bounds);
    if |bounds| >= 2 {
      ComparisonIsKeyOrder(host, f.ty, actual, bounds[0]);
      ComparisonIsKeyOrder(host, f.ty, actual, bounds[1]);
    }
    ComparisonIsKeyOrder(host, f.ty, actual, c.value.GetOr(Undefined));
  }

  lemma {:induction false} ConditionsSound(how: Precision, host: Host, row: Row, conditions: seq<Condition>,
      shape: Shape)
    requires RowHas(how, row, shape) && forall c | c in conditions :: Lookup(shape, c.field).Some?
    ensures EvaluateConditions(host, row, conditions, shape).Failure? ==>
            EvaluateConditions(host, row, conditions, shape).error.BadValue?
  {
    if conditions != [] {
      var f := Lookup(shape, conditions[0].field).value;
      assert f.name in Names(shape);
      ConditionSound(host, row, conditions[0], f);
      ConditionsSound(how, host, row, conditions[1..], shape);
    }
  }

  lemma FilterPredicateSound(how: Precision, host: Host, rows: seq<Row>, p: Predicate, shape: Shape)
    requires RowsHave(how, rows, shape) && ValidPredicate(host, p, shape)
    ensures match FilterRows(host, rows, p, shape)
            case Success(out) => RowsHave(how, out, shape)
            case Failure(e) => e.BadValue?
  {
    var keep := Keeper(host, p, shape);
    if TryFilter(rows, keep).Failure? {
      var row := TryFilterFailure(rows, keep);
      assert RowHas(how, row, shape);
      assert forall c | c in p.conditions :: Lookup(shape, c.field).Some?;
      ConditionsSound(how, host, row, p.conditions, shape);
    }
  }

  lemma KeepByExpressionSound(how: Precision, host: Host, e: Expr, shape: Shape, row: Row)
    requires RowFits(how, row, shape, FieldsOf(e)) && InferExpression(host, e, shape).Success?
    ensures KeepByExpression(host, e, shape, row).Failure? ==> KeepByExpression(host, e, shape, row).error.BadValue?
    ensures Evaluate(host, e, row, shape).Success? ==>
              KeepByExpression(host, e, shape, row) == Success(Evaluate(host, e, row, shape).value == Bool(true))
    ensures Evaluate(host, e, row, shape).Failure? ==> KeepByExpression(host, e, shape, row).Failure?
  {
    hide Evaluate, InferExpression, RowFits;
    EvaluateSound(how, host, e, row, shape);
    var d := Definition(MATCHES, e, None);
    var config := MapConfig(Project, [d]);
    assert IsIdentifier(MATCHES);
    assert ValidMap(host, config, shape);
    AssignOne(host, row, d, shape);
    TryMapOne(row, Mapper(host, config, shape));
  }

  lemma AssignOne(host: Host, row: Row, d: Definition, shape: Shape)
    ensures Assign(host, row, [d], shape, map[])
            == match Evaluate(host, d.expr, row, shape) case Success(v) => Success(map[d.name := v]) case Failure(e) =>
              Failure(e)
  {
    assert [d][1..] == [];
    var v := Evaluate(host, d.expr, row, shape);
    if v.Success? {
      var out: Row := map[][d.name := v.value];
      assert Assign(host, row, [], shape, out) == Success(out);
      assert out == map[d.name := v.value];
    }
  }

  lemma TryMapOne<A(!new), B>(a: A, f: A -> Try<B>)
    ensures TryMap([a], f) == match f(a) case Success(b) => Success([b]) case Failure(e) => Failure(e)
  {
    assert [a][1..] == [];
    assert TryMap<A, B>([], f) == Success([]);
    assert f(a).Success? ==> [f(a).value] + [] == [f(a).value];
  }

  lemma FilterExpressionSound(how: Precision, host: Host, rows: seq<Row>, e: Expr, shape: Shape)
    requires RowsHave(how, rows, shape) && Flat(shape) && InferExpression(host, e, shape).Success?
    ensures match TryFilter(rows, ExpressionKeeper(host, e, shape))
            case Success(out) => RowsHave(how, out, shape)
            case Failure(e) => e.BadValue?
  {
    var keep := ExpressionKeeper(host, e, shape);
    if TryFilter(rows, keep).Failure? {
      var row := TryFilterFailure(rows, keep);
      assert RowHas(how, row, shape);
      FlatRow(how, row, shape, FieldsOf(e));
      KeepByExpressionSound(how, host, e, shape, row);
    }
  }

  // ---------------------------------------------------------------- maps

  lemma {:induction false} SetFieldIs(shape: Shape, f: Field)
    requires Unique(shape)
    ensures Unique(SetField(shape, f))
    ensures forall g :: g in SetField(shape, f) <==> g == f || (g in shape && g.name != f.name)
    decreases shape
  {
    if shape != [] && shape[0].name != f.name {
      SetFieldIs(shape[1..], f);
      assert shape == [shape[0]] + shape[1..];
      var rest := SetField(shape[1..], f);
      assert forall i | 0 <= i < |rest| :: rest[i] in rest;
    } else if shape != [] {
      assert shape == [shape[0]] + shape[1..];
    }
  }

  lemma SetColumn(how: Precision, row: Row, shape: Shape, f: Field, v: Value)
    requires Flat(shape) && RowHas(how, row, shape) && Fits(how, f.ty, f.nullable, v) && IsIdentifier(f.name)
    ensures Flat(SetField(shape, f)) && RowHas(how, row[f.name := v], SetField(shape, f))
  {
    SetFieldIs(shape, f);
    var out := SetField(shape, f);
    assert f in out;
    forall name | name in row || name == f.name
      ensures name in Names(out)
    {
      if name != f.name {
        var g :| g in shape && g.name == name;
        assert g in out;
      }
    }
  }

  lemma AnnotateKeepsType(host: Host, t: Typing, annotation: Option<string>)
    requires Annotate(host, t, annotation).Success?
    ensures Annotate(host, t, annotation).value.ty == t.ty && Annotate(host, t, annotation).value.nullable == t.nullable
  {
  }

  ghost predicate DefinitionsOk(host: Host, definitions: seq<Definition>, input: Shape) {
    forall d | d in definitions :: IsIdentifier(d.name) && InferDefinition(host, d, input).Success?
  }

  lemma {:induction false} AssignSound(how: Precision, host: Host, row: Row, definitions: seq<Definition>, input: Shape,
      output: Row, shape: Shape)
    requires RowFits(how, row, input, Referenced(definitions)) && DefinitionsOk(host, definitions, input)
    requires Flat(shape) && RowHas(how, output, shape)
    ensures MapShape(host, definitions, input, shape).Success? && Flat(MapShape(host, definitions, input, shape).value)
    ensures match Assign(host, row, definitions, input, output)
            case Success(out) => RowHas(how, out, MapShape(host, definitions, input, shape).value)
            case Failure(e) => e.BadValue?
    decreases definitions
  {
    if definitions != [] {
      hide RowFits, InferExpression, Evaluate, Annotate, Fits, RowHas, Flat;
      var d := definitions[0];
      assert InferDefinition(host, d, input).Success?;
      RowFitsFewer(how, row, input, FieldsOf(d.expr), Referenced(definitions));
      RowFitsFewer(how, row, input, Referenced(definitions[1..]), Referenced(definitions));
      EvaluateSound(how, host, d.expr, row, input);
      var t := InferExpression(host, d.expr, input).value;
      AnnotateKeepsType(host, t, d.unit);
      var a := Annotate(host, t, d.unit).value;
      var f := Field(d.name, a.ty, a.nullable, a.unit);
      var v := Evaluate(host, d.expr, row, input);
      MapShapeFlat(host, definitions, input, shape);
      if v.Success? {
        SetColumn(how, output, shape, f, v.value);
        AssignSound(how, host, row, definitions[1..], input, output[d.name := v.value], SetField(shape, f));
      }
    }
  }

  lemma {:induction false} MapShapeFlat(host: Host, definitions: seq<Definition>, input: Shape, shape: Shape)
    requires DefinitionsOk(host, definitions, input) && Flat(shape)
    ensures MapShape(host, definitions, input, shape).Success? && Flat(MapShape(host, definitions, input, shape).value)
    decreases definitions
  {
    if definitions != [] {
      hide InferExpression, Annotate;
      var d := definitions[0];
      var t := InferDefinition(host, d, input).value;
      var f := Field(d.name, t.ty, t.nullable, t.unit);
      SetFieldIs(shape, f);
      MapShapeFlat(host, definitions[1..], input, SetField(shape, f));
    }
  }

  /** Every annotation is already trimmed: then the executor's untrimmed copy is the compiler's. */
  ghost predicate Trimmed(host: Host, definitions: seq<Definition>) {
    forall d | d in definitions :: d.unit.Some? ==> host.trim(d.unit.value) == d.unit.value
  }

  lemma {:induction false} RunMapShapeAgrees(host: Host, definitions: seq<Definition>, input: Shape, output: Shape)
    requires Trimmed(host, definitions) && DefinitionsOk(host, definitions, input)
    ensures RunMapShape(host, definitions, input, output) == MapShape(host, definitions, input, output)
    decreases definitions
  {
    if definitions != [] {
      hide InferExpression;
      assert InferDefinition(host, definitions[0], input).Success?;
      var t := InferDefinition(host, definitions[0], input).value;
      RunMapShapeAgrees(host, definitions[1..], input,
        SetField(output, Field(definitions[0].name, t.ty, t.nullable, t.unit)));
    }
  }

  lemma MapSound(how: Precision, host: Host, rows: seq<Row>, config: MapConfig, input: Shape)
    requires ValidMap(host, config, input) && Trimmed(host, config.fields)
    requires RowsFit(how, rows, input, Referenced(config.fields))
             && (config.mode.Extend? ==> Flat(input) && RowsHave(how, rows, input))
    ensures var start := if config.mode.Extend? then input else [];
            var shape := MapShape(host, config.fields, input, start);
            && shape.Success? && Flat(shape.value) && RunMapShape(host, config.fields, input, start) == shape
            && match MapRows(host, rows, config, input)
               case Success(out) => RowsHave(how, out, shape.value)
               case Failure(e) => e.BadValue?
  {
    hide RowFits, Flat, RowHas, Assign, InferDefinition, MapShape, RunMapShape;
    var start: Shape := if config.mode.Extend? then input else [];
    EmptyRow(how);
    MapShapeFlat(host, config.fields, input, start);
    RunMapShapeAgrees(host, config.fields, input, start);
    var f := Mapper(host, config, input);
    forall row | row in rows
      ensures match f(row)
              case Success(out) => RowHas(how, out, MapShape(host, config.fields, input, start).value)
              case Failure(e) => e.BadValue?
    {
      AssignSound(how, host, row, config.fields, input, if config.mode.Extend? then row else map[], start);
    }
    if TryMap(rows, f).Failure? {
      var row := TryMapFailure(rows, f);
    } else {
      forall out | out in TryMap(rows, f).value
        ensures RowHas(how, out, MapShape(host, config.fields, input, start).value)
      {
        var i :| 0 <= i < |rows| && TryMap(rows, f).value[i] == out;
        assert f(rows[i]) == Success(out);
      }
    }
  }

  lemma EmptyRow(how: Precision)
    ensures Flat([]) && RowHas(how, map[], [])
  {
  }

  // ---------------------------------------------------------------- sort

  lemma {:induction false} CompareRowsSound(how: Precision, host: Host, a: Decorated, b: Decorated,
      orderBy: seq<SortKey>, shape: Shape)
    requires RowHas(how, a.row, shape) && RowHas(how, b.row, shape) && forall k | k in orderBy :: ValidKey(k, shape)
    ensures CompareRows(host, a, b, orderBy, shape).Failure? ==> CompareRows(host, a, b, orderBy, shape).error.BadValue?
  {
    if orderBy != [] {
      hide CompareSemanticValues;
      assert ValidKey(orderBy[0], shape);
      var f := Lookup(shape, orderBy[0].field).value;
      assert f.name in Names(shape) && f in shape;
      ComparisonIsKeyOrder(host, f.ty, a.row[f.name], b.row[f.name]);
      CompareRowsSound(how, host, a, b, orderBy[1..], shape);
    }
  }

  lemma ThrowsOnlyBadValues(how: Precision, host: Host, rows: seq<Row>, config: SortConfig, shape: Shape, e: Error)
    requires RowsHave(how, rows, shape) && ValidSort(config, shape) && Throws(host, rows, config, shape, e)
    ensures e.BadValue?
  {
    var compare, d := RowComparator(host, config.orderBy, shape), Decorate(rows);
    var i, j :| 0 <= i < |d| && 0 <= j < |d| && compare(d[i], d[j]) == Failure(e);
    assert RowHas(how, d[i].row, shape) && RowHas(how, d[j].row, shape);
    CompareRowsSound(how, host, d[i], d[j], config.orderBy, shape);
  }

  lemma SortedSound(how: Precision, host: Host, rows: seq<Row>, config: SortConfig, shape: Shape)
    requires RowsHave(how, rows, shape)
    ensures RowsHave(how, Sorted(host, rows, config, shape), shape)
  {
    hide RowHas;
    StableSortIsStable(host, rows, config.orderBy, shape);
    var d := TopK.Sort(RowOrder(host, config.orderBy, shape), Decorate(rows));
    forall i | 0 <= i < |d|
      ensures RowHas(how, Undecorate(d)[i], shape)
    {
      assert d[i] in multiset(Decorate(rows));
      var j :| 0 <= j < |rows| && Decorate(rows)[j] == d[i];
    }
  }

  // ---------------------------------------------------------------- union

  /** Every value of the right type is one of the left type, for types the compiler takes as compatible. */
  predicate TypeFollows(how: Precision, left: FieldType, right: FieldType) {
    || left.JsonType? || left == right || (Textual(left) && Textual(right))
    || (Numeric(left) && Numeric(right) && (how.ByKind? || left.DecimalType?))
  }

  /** The executor keeps the left field of a union: it is the compiled one, and speaks for the right values too,
      under exactly these conditions. */
  predicate FollowsLeft(how: Precision, left: Field, right: Field) {
    && (right.nullable ==> left.nullable)
    && (left.unit.None? || right.unit == left.unit)
    && TypeFollows(how, left.ty, right.ty)
  }

  predicate UnionFaithful(how: Precision, left: Shape, right: Shape) {
    forall f | f in left :: Lookup(right, f.name).Some? ==> FollowsLeft(how, f, Lookup(right, f.name).value)
  }

  lemma {:induction false} UnionFieldsIsLeft(how: Precision, left: Shape, right: Shape)
    requires UnionFields(left, right).Success? && UnionFaithful(how, left, right)
    ensures UnionFields(left, right).value == left
    ensures forall f | f in left ::
            Lookup(right, f.name).Some?
            && CompilerCompatible(f.ty, Lookup(right, f.name).value.ty)
  {
    if left != [] {
      hide TypeFollows;
      assert FollowsLeft(how, left[0], Lookup(right, left[0].name).value);
      UnionFieldsIsLeft(how, left[1..], right);
      assert left == [left[0]] + left[1..];
    }
  }

  lemma {:induction false} NamesCount(shape: Shape)
    requires Unique(shape)
    ensures |Names(shape)| == |shape|
  {
    if shape != [] {
      NamesCount(shape[1..]);
      assert Names(shape) == {shape[0].name} + Names(shape[1..]);
      assert shape[0].name !in Names(shape[1..]);
    }
  }

  lemma SubsetOfSameSize(a: set<string>, b: set<string>)
    requires a <= b && |a| == |b|
    ensures a == b
  {
    assert b * a == a;
    assert |b - a| + |b * a| == |b|;
  }

  lemma UnionNames(left: Shape, right: Shape)
    requires Unique(left) && Unique(right) && |left| == |right|
    requires forall f | f in left :: Lookup(right, f.name).Some?
    ensures Names(left) == Names(right)
  {
    NamesCount(left);
    NamesCount(right);
    forall name | name in Names(left)
      ensures name in Names(right)
    {
      LookupInNames(right, name);
    }
    SubsetOfSameSize(Names(left), Names(right));
  }

  lemma RightFieldFits(how: Precision, f: Field, g: Field, v: Value)
    requires FollowsLeft(how, f, g) && Fits(how, g.ty, g.nullable, v)
    ensures Fits(how, f.ty, f.nullable, v)
  {
    hide IsIntegerText, Decimals.Parse;
    if v.Text? && g.ty.IntegerType? && how.ByValue? {
      IntegerIsDecimal(v.s);
    }
  }

  lemma UnionRowSound(how: Precision, row: Row, left: Shape, right: Shape)
    requires Flat(left) && Flat(right) && |left| == |right| && UnionFaithful(how, left, right)
    requires UnionFields(left, right).Success? && RowHas(how, row, right)
    ensures RowHas(how, row, left)
  {
    UnionFieldsIsLeft(how, left, right);
    UnionNames(left, right);
    hide UnionFields, Fits, CompilerCompatible, FollowsLeft;
    forall f | f in left
      ensures Fits(how, f.ty, f.nullable, row[f.name])
    {
      var g := Lookup(right, f.name).value;
      RightFieldFits(how, f, g, row[f.name]);
    }
  }

  lemma AppendColumn(how: Precision, row: Row, shape: Shape, f: Field, v: Value)
    requires Flat(shape) && RowHas(how, row, shape) && Fits(how, f.ty, f.nullable, v) && IsIdentifier(f.name)
             && Lookup(shape, f.name).None?
    ensures Flat(shape + [f]) && RowHas(how, row[f.name := v], shape + [f])
  {
    LookupInNames(shape, f.name);
    assert Names(shape + [f]) == Names(shape) + {f.name};
  }

  lemma UnionSound(how: Precision, left: seq<Row>, right: seq<Row>, l: Shape, r: Shape)
    requires Flat(l) && Flat(r) && |l| == |r| && UnionFaithful(how, l, r) && UnionFields(l, r).Success?
    requires RowsHave(how, left, l) && RowsHave(how, right, r)
    ensures RowsHave(how, left + right, l)
  {
    hide RowHas, UnionFields, Flat;
    forall row | row in right
      ensures RowHas(how, row, l)
    {
      UnionRowSound(how, row, l, r);
    }
  }

  lemma WithColumnSound(how: Precision, rows: seq<Row>, shape: Shape, name: string, v: Value)
    requires Flat(shape) && RowsHave(how, rows, shape) && IsIdentifier(name) && Lookup(shape, name).None? && v.Text?
    ensures RowsHave(how, WithColumn(rows, name, v), shape + [Field(name, StringType, false, None)])
  {
    hide RowHas, Flat;
    forall row | row in rows
      ensures RowHas(how, row[name := v], shape + [Field(name, StringType, false, None)])
    {
      AppendColumn(how, row, shape, Field(name, StringType, false, None), v);
    }
    var out := WithColumn(rows, name, v);
    assert forall i | 0 <= i < |out| :: rows[i] in rows && out[i] == rows[i][name := v];
  }

  lemma DiscriminatedUnionSound(how: Precision, left: seq<Row>, right: seq<Row>, l: Shape, r: Shape, name: string)
    requires Flat(l) && Flat(r) && |l| == |r| && UnionFaithful(how, l, r) && UnionFields(l, r).Success?
    requires RowsHave(how, left, l) && RowsHave(how, right, r)
    requires IsIdentifier(name) && Lookup(l, name).None?
    ensures RowsHave(how, WithColumn(left, name, Text("left")) + WithColumn(right, name, Text("right")),
            l + [Field(name, StringType, false, None)])
  {
    hide RowHas, UnionFields, Flat, WithColumn;
    UnionSound(how, [], right, l, r);
    assert [] + right == right;
    WithColumnSound(how, left, l, name, Text("left"));
    WithColumnSound(how, right, l, name, Text("right"));
  }

  lemma FlatAppend(shape: Shape, f: Field)
    requires Flat(shape) && IsIdentifier(f.name) && Lookup(shape, f.name).None?
    ensures Flat(shape + [f])
  {
  }

  // ---------------------------------------------------------------- join

  lemma {:induction false} RenameRightIs(config: JoinConfig, left: Shape, right: Shape, output: Shape)
    requires Flat(output) && RenameRight(config, left, right, output).Success?
    ensures RenameRight(config, left, right, output).value == output + RunRenameRight(config, left, right)
    ensures Flat(RenameRight(config, left, right, output).value)
    decreases right
  {
    if right != [] {
      var f := right[0];
      if !(f.name in RightNames(config.keys) && Lookup(left, f.name).Some?) {
        var g := Field(config.prefix + f.name, f.ty, config.kind.LeftJoin? || f.nullable, f.unit);
        FlatAppend(output, g);
        RenameRightIs(config, left, right[1..], output + [g]);
      } else {
        RenameRightIs(config, left, right[1..], output);
      }
    }
  }

  predicate Skipped(config: JoinConfig, left: Shape, name: string) {
    name in RightNames(config.keys) && Lookup(left, name).Some?
  }

  function RenamedField(config: JoinConfig, f: Field): Field {
    Field(config.prefix + f.name, f.ty, config.kind.LeftJoin? || f.nullable, f.unit)
  }

  lemma {:induction false} RenameMembers(config: JoinConfig, left: Shape, right: Shape)
    ensures forall f | f in right && !Skipped(config, left, f.name) ::
            RenamedField(config, f) in RunRenameRight(config, left, right)
    ensures forall g | g in RunRenameRight(config, left, right) ::
              exists f :: f in right && !Skipped(config, left, f.name) && g == RenamedField(config, f)
  {
    if right != [] {
      RenameMembers(config, left, right[1..]);
      assert right == [right[0]] + right[1..];
    }
  }

  lemma SkippedIsNotCopied(how: Precision, config: JoinConfig, left: Row, l: Shape, n: string)
    requires RowHas(how, left, l)
    ensures Copied(config, left, n) <==> !Skipped(config, l, n)
  {
    LookupInNames(l, n);
  }

  lemma RenamedNames(how: Precision, config: JoinConfig, left: Row, l: Shape, right: Row, r: Shape)
    requires RowHas(how, left, l) && RowHas(how, right, r)
    ensures forall name | name in Renamed(config, left, right) :: name in Names(RunRenameRight(config, l, r))
  {
    RenameMembers(config, l, r);
    hide Fits, RunRenameRight, Renamed, Copied, Skipped;
    forall name | name in Renamed(config, left, right)
      ensures name in Names(RunRenameRight(config, l, r))
    {
      var n :| n in right && Copied(config, left, n) && name == config.prefix + n;
      SkippedIsNotCopied(how, config, left, l, n);
      var f :| f in r && f.name == n;
      assert RenamedField(config, f) in RunRenameRight(config, l, r);
    }
  }

  lemma FitsNullable(how: Precision, ty: FieldType, nullable: bool, v: Value)
    requires Fits(how, ty, nullable, v)
    ensures Fits(how, ty, true, v)
  {
  }

  /** The columns copied from a right row are exactly the renamed right fields, and fit them. */
  lemma RenamedSound(how: Precision, config: JoinConfig, left: Row, l: Shape, right: Row, r: Shape)
    requires RowHas(how, left, l) && RowHas(how, right, r)
    ensures RowHas(how, Renamed(config, left, right), RunRenameRight(config, l, r))
  {
    RenameMembers(config, l, r);
    RenamedNames(how, config, left, l, right, r);
    hide Fits, RunRenameRight, Renamed, Copied, Skipped;
    var added, columns := RunRenameRight(config, l, r), Renamed(config, left, right);
    forall g | g in added
      ensures g.name in columns && Fits(how, g.ty, g.nullable, columns[g.name])
    {
      var f :| f in r && !Skipped(config, l, f.name) && g == RenamedField(config, f);
      RenamedFieldFits(how, config, left, l, right, r, f);
    }
  }

  lemma RenamedFieldFits(how: Precision, config: JoinConfig, left: Row, l: Shape, right: Row, r: Shape, f: Field)
    requires RowHas(how, left, l) && RowHas(how, right, r) && f in r && !Skipped(config, l, f.name)
    ensures var g, columns := RenamedField(config, f), Renamed(config, left, right);
            g.name in columns && Fits(how, g.ty, g.nullable, columns[g.name])
  {
    hide Fits, Renamed, Copied, Skipped;
    SkippedIsNotCopied(how, config, left, l, f.name);
    assert f.name in right && Renamed(config, left, right)[config.prefix + f.name] == right[f.name];
    FitsNullable(how, f.ty, f.nullable, right[f.name]);
  }

  lemma UniqueAcross(l: Shape, r: Shape, f: Field, g: Field)
    requires Unique(l + r) && f in l && g in r
    ensures f.name != g.name
  {
    var i :| 0 <= i < |l| && l[i] == f;
    var j :| 0 <= j < |r| && r[j] == g;
    assert (l + r)[i] == f && (l + r)[|l| + j] == g;
  }

  lemma AppendRows(how: Precision, left: Row, l: Shape, right: Row, r: Shape)
    requires RowHas(how, left, l) && RowHas(how, right, r) && Unique(l + r)
    ensures RowHas(how, left + right, l + r)
  {
    hide Fits;
    assert Names(l + r) == Names(l) + Names(r);
    forall f | f in l
      ensures f.name !in right
    {
      forall g | g in r
        ensures g.name != f.name
      {
        UniqueAcross(l, r, f, g);
      }
    }
  }

  lemma MergeSound(how: Precision, config: JoinConfig, left: Row, l: Shape, right: Row, r: Shape)
    requires RowHas(how, left, l) && RowHas(how, right, r)
    requires Flat(RunJoinShape(config, l, r))
    ensures RowHas(how, Merge(config, left, right), RunJoinShape(config, l, r))
  {
    hide Renamed, RunRenameRight, RowHas;
    RenamedSound(how, config, left, l, right, r);
    AppendRows(how, left, l, Renamed(config, left, right), RunRenameRight(config, l, r));
  }

  lemma {:induction false} JoinSound(how: Precision, config: JoinConfig, left: seq<Row>, l: Shape, right: seq<Row>,
      r: Shape)
    requires RowsHave(how, left, l) && RowsHave(how, right, r) && Flat(r) && config.kind.Inner?
    requires Flat(RunJoinShape(config, l, r))
    ensures RowsHave(how, JoinRows(left, right, config), RunJoinShape(config, l, r))
  {
    if left != [] {
      hide RowHas, Merge, RunJoinShape, Flat;
      JoinSound(how, config, left[1..], l, right, r);
      var found := FindLast(right, RightNames(config.keys), GroupKeyOf(left[0], LeftNames(config.keys)));
      if found.Some? {
        MergeSound(how, config, left[0], l, found.value, r);
      }
    }
  }

  // ---------------------------------------------------------------- output

  lemma {:induction false} OutputFieldsIs(fields: seq<string>, input: Shape)
    requires OutputFields(fields, input).Success?
    ensures var out := OutputFields(fields, input).value;
            && |out| == |fields|
            && forall i | 0 <= i < |out| :: out[i] in input && out[i].name == fields[i] && IsIdentifier(fields[i])
  {
    if fields != [] {
      OutputFieldsIs(fields[1..], input);
    }
  }

  lemma {:induction false} OutputFieldsDistinct(fields: seq<string>, input: Shape)
    requires OutputFields(fields, input).Success?
    ensures forall i, j | 0 <= i < j < |fields| :: fields[i] != fields[j]
  {
    if fields != [] {
      OutputFieldsDistinct(fields[1..], input);
    }
  }

  lemma OutputSound(how: Precision, rows: seq<Row>, fields: seq<string>, input: Shape)
    requires Flat(input) && RowsHave(how, rows, input) && OutputFields(fields, input).Success?
    ensures Flat(OutputFields(fields, input).value)
            && RowsHave(how, PickRows(rows, fields), OutputFields(fields, input).value)
  {
    OutputFieldsIs(fields, input);
    OutputFieldsDistinct(fields, input);
    var out := OutputFields(fields, input).value;
    assert Names(out) == set name | name in fields by {
      assert forall name | name in fields :: exists i :: 0 <= i < |out| && out[i].name == name;
    }
    forall row | row in rows
      ensures RowHas(how, PickColumns(row, fields), out)
    {
      forall f | f in out
        ensures Fits(how, f.ty, f.nullable, PickColumns(row, fields)[f.name])
      {
        assert f.name in Names(out) && f in input;
      }
    }
  }

  // ---------------------------------------------------------------- aggregate

  lemma {:induction false} GroupFieldsIs(groupBy: seq<string>, input: Shape, output: Shape)
    requires Flat(output) && GroupFields(groupBy, input, output).Success?
    ensures RunGroupFields(groupBy, input).Success?
    ensures GroupFields(groupBy, input, output).value == output + RunGroupFields(groupBy, input).value
    ensures Flat(GroupFields(groupBy, input, output).value)
    decreases groupBy
  {
    if groupBy != [] {
      var f := Lookup(input, groupBy[0]).value;
      FlatAppend(output, f);
      GroupFieldsIs(groupBy[1..], input, output + [f]);
    }
  }

  lemma {:induction false} GroupFieldsFrom(groupBy: seq<string>, input: Shape)
    requires RunGroupFields(groupBy, input).Success?
    ensures var out := RunGroupFields(groupBy, input).value;
            |out| == |groupBy| && forall i | 0 <= i < |out| :: out[i] in input && out[i].name == groupBy[i]
  {
    if groupBy != [] {
      GroupFieldsFrom(groupBy[1..], input);
    }
  }

  lemma MeasureFieldAgrees(m: Measure, input: Shape)
    requires MeasureField(m, input).Success?
    ensures RunMeasureField(m, input) == MeasureField(m, input) && MeasureField(m, input).value.name == m.name
  {
  }

  lemma {:induction false} MeasureFieldsIs(measures: seq<Measure>, input: Shape, output: Shape)
    requires Flat(output) && MeasureFields(measures, input, output).Success?
    ensures RunMeasureFields(measures, input).Success?
    ensures MeasureFields(measures, input, output).value == output + RunMeasureFields(measures, input).value
    ensures Flat(MeasureFields(measures, input, output).value)
    decreases measures
  {
    if measures != [] {
      hide Flat, MeasureField, RunMeasureField;
      MeasureFieldAgrees(measures[0], input);
      var f := MeasureField(measures[0], input).value;
      FlatAppend(output, f);
      MeasureFieldsIs(measures[1..], input, output + [f]);
    }
  }

  /** Executor and compiler derive the same aggregate shape. */
  lemma AggregateShapeAgrees(groupBy: seq<string>, measures: seq<Measure>, input: Shape)
    requires AggregateShape(groupBy, measures, input).Success?
    ensures Flat(AggregateShape(groupBy, measures, input).value)
    ensures RunAggregateShape(groupBy, measures, input) == AggregateShape(groupBy, measures, input)
    ensures RunGroupFields(groupBy, input).Success? && Flat(RunGroupFields(groupBy, input).value)
    ensures MeasureFields(measures, input, RunGroupFields(groupBy, input).value) ==
            AggregateShape(groupBy, measures, input)
  {
    assert Flat([]);
    GroupFieldsIs(groupBy, input, []);
    var groups := RunGroupFields(groupBy, input).value;
    assert [] + groups == groups;
    MeasureFieldsIs(measures, input, groups);
  }

  lemma {:induction false} PresentIs(values: seq<Value>)
    ensures forall v | v in Present(values) :: v in values && !Missing(v)
    ensures (forall v | v in values :: !Missing(v)) ==> Present(values) == values
  {
    if values != [] {
      PresentIs(values[1..]);
    }
  }

  /** A sum fails only on an unreadable value; whole numbers add up to a whole number. */
  lemma {:induction false} SumSound(total: Decimals.Decimal, values: seq<Value>)
    ensures SumFrom(total, values).Failure? ==> SumFrom(total, values).error.BadValue?
    ensures SumFrom(total, values).Success? && total.scale == 0 && (forall v | v in values :: ReadsWhole(v)) ==>
            SumFrom(total, values).value.scale == 0
    decreases values
  {
    if values != [] {
      hide Decimals.Parse, DecimalOf;
      assert values[0] in values && forall v | v in values[1..] :: v in values;
      if Missing(values[0]) {
        SumSound(total, values[1..]);
      } else if DecimalOf(values[0]).Some? {
        SumSound(Decimals.Add(total, DecimalOf(values[0]).value), values[1..]);
      }
    }
  }

  lemma {:induction false} SelectSound(host: Host, ty: FieldType, least: bool, selected: Value, values: seq<Value>)
    ensures match Select(host, ty, least, selected, values)
            case Success(v) => v == selected || v in values
            case Failure(e) => e.BadValue?
    decreases values
  {
    if values != [] {
      ComparisonIsKeyOrder(host, ty, values[0], selected);
      var c := CompareSemanticValues(host, ty, values[0], selected);
      if c.Success? {
        SelectSound(host, ty, least, if (if least then c.value < 0 else c.value > 0) then values[0]
          else selected, values[1..]);
      }
    }
  }

  lemma ColumnFits(how: Precision, group: seq<Row>, input: Shape, f: Field, values: seq<Value>)
    requires RowsHave(how, group, input) && f in input && values == Present(ColumnOf(group, f.name))
    ensures forall v | v in values :: FitsType(how, f.ty, v)
    ensures group != [] && values == [] ==> f.nullable
  {
    hide FitsType;
    var column := ColumnOf(group, f.name);
    PresentIs(column);
    forall i | 0 <= i < |column|
      ensures Fits(how, f.ty, f.nullable, column[i])
    {
      assert RowHas(how, group[i], input);
    }
    if group != [] {
      assert column[0] in column;
    }
  }

  lemma CountFits(how: Precision, n: nat)
    ensures FitsType(how, IntegerType, Text(Digits.TextOf(n)))
  {
    hide Digits.NatOf, Digits.TextOf, Digits.IsWhole;
    SignedWhole(false, Digits.TextOf(n));
    assert Decimals.Sign(false) + Digits.TextOf(n) == Digits.TextOf(n);
  }

  lemma SumFits(how: Precision, f: Field, values: seq<Value>)
    requires Numeric(f.ty) && forall v | v in values :: FitsType(how, f.ty, v)
    ensures match SumFrom(Decimals.Decimal(0, 0), values)
            case Success(total) => FitsType(how, f.ty, Text(Decimals.Print(total)))
            case Failure(e) => e.BadValue?
  {
    hide FitsType, Decimals.Print, DecimalOf, SumFrom;
    if how.ByValue? {
      forall v | v in values
        ensures f.ty.IntegerType? ==> ReadsWhole(v)
      {
        NumberReads(f.ty, v);
      }
    }
    SumSound(Decimals.Decimal(0, 0), values);
    if SumFrom(Decimals.Decimal(0, 0), values).Success? {
      PrintFits(how, f.ty, SumFrom(Decimals.Decimal(0, 0), values).value);
    }
  }

  lemma MeasureSound(how: Precision, host: Host, m: Measure, group: seq<Row>, input: Shape)
    requires RowsHave(how, group, input) && group != [] && MeasureField(m, input).Success?
    ensures var f := MeasureField(m, input).value;
            match MeasureValue(host, m, group, input)
            case Success(v) => Fits(how, f.ty, f.nullable, v)
            case Failure(e) => e.BadValue?
  {
    hide Present, Decimals.Print, Decimals.Average, SumFrom, Select, Digits.TextOf, FitsType;
    if m.op.CountRows? {
      CountFits(how, |group|);
    } else {
      var f := Lookup(input, m.field.value).value;
      var values := Present(ColumnOf(group, m.field.value));
      ColumnFits(how, group, input, f, values);
      if m.op.CountDistinct? {
        CountFits(how, |set v | v in values|);
      } else if m.op.SumOf? || m.op.AverageOf? {
        SumFits(how, f, values);
        var total := SumFrom(Decimals.Decimal(0, 0), values);
        if m.op.AverageOf? && values != [] && total.Success? {
          PrintFits(how, DecimalType, Decimals.Average(total.value, |values|));
        }
      } else if values != [] {
        SelectSound(host, f.ty, m.op.MinOf?, values[0], values[1..]);
        PresentIs(ColumnOf(group, m.field.value));
        assert values[0] in values && forall v | v in values[1..] :: v in values;
      }
    }
  }

  lemma {:induction false} MeasuredSound(how: Precision, host: Host, measures: seq<Measure>, group: seq<Row>,
      input: Shape, row: Row, shape: Shape)
    requires RowsHave(how, group, input) && group != [] && Flat(shape) && RowHas(how, row, shape)
    requires MeasureFields(measures, input, shape).Success?
    ensures match Measured(host, measures, group, input, row)
            case Success(out) => RowHas(how, out, MeasureFields(measures, input, shape).value)
            case Failure(e) => e.BadValue?
    decreases measures
  {
    if measures != [] {
      hide RowHas, Flat, MeasureValue, Fits, MeasureField;
      var f := MeasureField(measures[0], input).value;
      MeasureFieldAgrees(measures[0], input);
      MeasureSound(how, host, measures[0], group, input);
      var v := MeasureValue(host, measures[0], group, input);
      if v.Success? {
        AppendColumn(how, row, shape, f, v.value);
        MeasuredSound(how, host, measures[1..], group, input, row[f.name := v.value], shape + [f]);
      }
    }
  }

  lemma GroupRowStart(how: Precision, row: Row, groupBy: seq<string>, input: Shape)
    requires RowHas(how, row, input) && RunGroupFields(groupBy, input).Success?
    ensures RowHas(how, map name | name in groupBy :: Column(row, name), RunGroupFields(groupBy, input).value)
  {
    GroupFieldsFrom(groupBy, input);
    var shape := RunGroupFields(groupBy, input).value;
    hide RunGroupFields, Fits;
    forall name | name in groupBy
      ensures name in Names(shape)
    {
      var i :| 0 <= i < |groupBy| && groupBy[i] == name;
      assert shape[i] in shape;
    }
    forall f | f in shape
      ensures f.name in groupBy && Column(row, f.name) == row[f.name] && f in input
    {
      var i :| 0 <= i < |shape| && shape[i] == f;
      assert f.name in Names(input);
    }
  }

  lemma {:induction false} RowsOfKeysSound(how: Precision, host: Host, keys: seq<GroupKey>, rows: seq<Row>,
      groupBy: seq<string>, measures: seq<Measure>, input: Shape)
    requires RowsHave(how, rows, input) && AggregateShape(groupBy, measures, input).Success?
    requires forall key | key in keys :: Members(rows, groupBy, key) != []
    ensures match RowsOfKeys(host, keys, rows, groupBy, measures, input)
            case Success(out) => RowsHave(how, out, AggregateShape(groupBy, measures, input).value)
            case Failure(e) => e.BadValue?
  {
    if keys != [] {
      var group := Members(rows, groupBy, keys[0]);
      KeysAreMembers(rows, groupBy, keys[0]);
      AggregateShapeAgrees(groupBy, measures, input);
      hide RowHas, Flat, Measured, MeasureFields, RunGroupFields, AggregateShape, Members;
      assert group[0] in group;
      GroupRowStart(how, group[0], groupBy, input);
      MeasuredSound(how, host, measures, group, input, map name | name in groupBy :: Column(group[0], name),
        RunGroupFields(groupBy, input).value);
      RowsOfKeysSound(how, host, keys[1..], rows, groupBy, measures, input);
    }
  }

  // ---------------------------------------------------------------- one operator

  /** Where the executor is known to follow the compiler: trimmed unit annotations, unions whose right
      fields fit the left ones, inner joins. */
  ghost predicate Faithful(how: Precision, host: Host, op: Op, inputs: seq<Shape>)
    requires |inputs| == |InputPorts(op)|
  {
    match op
    case Mapping(config) => Trimmed(host, config.fields)
    case Union(_) => UnionFaithful(how, inputs[0], inputs[1])
    case Join(config) => config.kind.Inner?
    case _ => true
  }

  /** What a node may rely on: flat inputs with exactly the compiled columns; a projecting Map, which may stand
      behind a source, relies only on the fields it reads. */
  ghost predicate InputFits(how: Precision, op: Op, input: Table, shape: Shape) {
    && input.shape == shape
    && if op.Mapping? && op.config.mode.Project? then RowsFit(how, input.rows, shape, Referenced(op.config.fields))
       else Flat(shape) && RowsHave(how, input.rows, shape)
  }

  ghost predicate InputsFit(how: Precision, op: Op, inputs: seq<Table>, shapes: seq<Shape>)
    requires |inputs| == |shapes|
  {
    forall i | 0 <= i < |inputs| :: InputFits(how, op, inputs[i], shapes[i])
  }

  ghost predicate OutputFits(how: Precision, op: Op, result: Try<Table>, shape: Shape) {
    match result
    case Success(t) => RowsHave(how, t.rows, shape) && (op.Output? || t.shape == shape)
    case Failure(e) => e.BadValue?
  }

  lemma JoinCase(how: Precision, host: Host, config: JoinConfig, inputs: seq<Table>, shapes: seq<Shape>, lenient: bool)
    requires |inputs| == |shapes| == 2 && config.kind.Inner?
    requires CompileShape(host, Join(config), shapes).Success? && InputsFit(how, Join(config), inputs, shapes)
    ensures Flat(CompileShape(host, Join(config), shapes).value)
    ensures OutputFits(how, Join(config), Run(host, Join(config), inputs, lenient),
            CompileShape(host, Join(config), shapes).value)
  {
    hide JoinRows, RenameRight, RunRenameRight, RowHas, KeyCompiles, Flat, RowsFit;
    RenameRightIs(config, shapes[0], shapes[1], shapes[0]);
    JoinSound(how, config, inputs[0].rows, shapes[0], inputs[1].rows, shapes[1]);
  }

  lemma UnionCase(how: Precision, host: Host, discriminator: Option<string>, inputs: seq<Table>, shapes: seq<Shape>,
      lenient: bool)
    requires |inputs| == |shapes| == 2 && UnionFaithful(how, shapes[0], shapes[1])
    requires CompileShape(host, Union(discriminator), shapes).Success?
             && InputsFit(how, Union(discriminator), inputs, shapes)
    ensures Flat(CompileShape(host, Union(discriminator), shapes).value)
    ensures OutputFits(how, Union(discriminator), Run(host, Union(discriminator), inputs, lenient),
            CompileShape(host, Union(discriminator), shapes).value)
  {
    hide UnionFields, RowHas, WithColumn, Flat, UnionFaithful, RowsFit;
    UnionFieldsIsLeft(how, shapes[0], shapes[1]);
    if discriminator.None? {
      UnionSound(how, inputs[0].rows, inputs[1].rows, shapes[0], shapes[1]);
    } else {
      FlatAppend(shapes[0], Field(discriminator.value, StringType, false, None));
      DiscriminatedUnionSound(how, inputs[0].rows, inputs[1].rows, shapes[0], shapes[1], discriminator.value);
    }
  }

  lemma AggregateCase(how: Precision, host: Host, groupBy: seq<string>, measures: seq<Measure>, inputs: seq<Table>,
      shapes: seq<Shape>, lenient: bool)
    requires |inputs| == |shapes| == 1
    requires CompileShape(host, Aggregate(groupBy, measures), shapes).Success?
             && InputsFit(how, Aggregate(groupBy, measures), inputs, shapes)
    ensures Flat(CompileShape(host, Aggregate(groupBy, measures), shapes).value)
    ensures OutputFits(how, Aggregate(groupBy, measures), Run(host, Aggregate(groupBy, measures), inputs, lenient),
              CompileShape(host, Aggregate(groupBy, measures), shapes).value)
  {
    hide RowHas, AggregateShape, RunAggregateShape, Flat, RowsFit;
    AggregateShapeAgrees(groupBy, measures, shapes[0]);
    KeysHaveMembers(inputs[0].rows, groupBy);
    RowsOfKeysSound(how, host, Keys(inputs[0].rows, groupBy), inputs[0].rows, groupBy, measures, shapes[0]);
  }

  lemma UnaryCase(how: Precision, host: Host, op: Op, inputs: seq<Table>, shapes: seq<Shape>, lenient: bool)
    requires op.FilterPredicate? || op.FilterExpression? || op.Mapping? || op.Sort? || op.Output?
    requires |inputs| == |shapes| == 1 && Faithful(how, host, op, shapes)
    requires CompileShape(host, op, shapes).Success? && InputsFit(how, op, inputs, shapes)
    ensures Flat(CompileShape(host, op, shapes).value)
    ensures OutputFits(how, op, Run(host, op, inputs, lenient), CompileShape(host, op, shapes).value)
  {
    hide RowHas, Flat, RowFits, MapRows, FilterRows, MapShape, RunMapShape, OutputFields, PickRows, ValidSort,
      InferExpression, ValidPredicate, Trimmed;
    var rows, shape := inputs[0].rows, shapes[0];
    match op
    case FilterPredicate(p) => FilterPredicateSound(how, host, rows, p, shape);
    case FilterExpression(e) => FilterExpressionSound(how, host, rows, e, shape);
    case Mapping(config) =>
      if config.mode.Extend? {
        FlatRows(how, rows, shape, Referenced(config.fields));
      }
      MapSound(how, host, rows, config, shape);
    case Sort(config) =>
      SortedSound(how, host, rows, config, shape);
      forall e | Throws(host, rows, config, shape, e)
        ensures e.BadValue?
      {
        ThrowsOnlyBadValues(how, host, rows, config, shape, e);
      }
    case Output(fields) => OutputSound(how, rows, fields, shape);
  }

  /** Shape soundness of one compiled operator. */
  lemma RunSound(how: Precision, host: Host, op: Op, inputs: seq<Table>, shapes: seq<Shape>, lenient: bool)
    requires !op.Source? && |inputs| == |shapes| == |InputPorts(op)| && Faithful(how, host, op, shapes)
    requires CompileShape(host, op, shapes).Success? && InputsFit(how, op, inputs, shapes)
    ensures Flat(CompileShape(host, op, shapes).value)
    ensures OutputFits(how, op, Run(host, op, inputs, lenient), CompileShape(host, op, shapes).value)
  {
    hide CompileShape, Run, Flat, InputsFit, OutputFits;
    match op
    case Aggregate(groupBy, measures) => AggregateCase(how, host, groupBy, measures, inputs, shapes, lenient);
    case Union(discriminator) => UnionCase(how, host, discriminator, inputs, shapes, lenient);
    case Join(config) => JoinCase(how, host, config, inputs, shapes, lenient);
    case _ => UnaryCase(how, host, op, inputs, shapes, lenient);
  }
}
