/** Where the live executor does not follow the compiler, and exactly when it does: left joins, unions
    and unit annotations. These are the hypotheses of the shape soundness theorem. */
module Gaps {
  import opened Wrappers
  import opened Values
  import opened Ordering
  import opened ExpressionSoundness
  import opened Expressions
  import opened Maps
  import opened Aggregation
  import opened Joins
  import opened Operators
  import opened OperatorSoundness
  import Decimals
  import Digits

  // ---------------------------------------------------------------- left joins

  predicate Matched(config: JoinConfig, left: Row, right: seq<Row>) {
    exists row | row in right :: Matches(config, left, row)
  }

  lemma JoinedRowIs(config: JoinConfig, left: Row, right: seq<Row>)
    ensures Matched(config, left, right) ==>
            exists row | row in right :: JoinedRow(left, right, config) == [Merge(config, left, row)]
    ensures !Matched(config, left, right) ==>
            JoinedRow(left, right, config) == if config.kind.Inner? then [] else [left]
  {
    var found := FindLast(right, RightNames(config.keys), GroupKeyOf(left, LeftNames(config.keys)));
    if found.Some? {
      assert found.value in right && Matches(config, left, found.value);
    }
  }

  lemma UnmatchedRow(how: Precision, config: JoinConfig, left: Row, l: Shape, r: Shape)
    requires RowHas(how, left, l) && Unique(RunJoinShape(config, l, r))
    ensures RowHas(how, left, RunJoinShape(config, l, r)) <==> RunRenameRight(config, l, r) == []
  {
    hide Fits, RunRenameRight;
    var added := RunRenameRight(config, l, r);
    if added != [] {
      var g := added[0];
      assert (l + added)[|l|] == g;
      forall f | f in l
        ensures f.name != g.name
      {
        UniqueAcross(l, added, f, g);
      }
      assert g in l + added && g.name !in Names(l);
    } else {
      assert l + added == l;
    }
  }

  lemma JoinedRowExact(how: Precision, config: JoinConfig, left: Row, l: Shape, right: seq<Row>, r: Shape)
    requires RowHas(how, left, l) && RowsHave(how, right, r) && Flat(RunJoinShape(config, l, r))
    ensures RowsHave(how, JoinedRow(left, right, config), RunJoinShape(config, l, r)) <==>
              config.kind.Inner? || RunRenameRight(config, l, r) == [] || Matched(config, left, right)
  {
    hide RowHas, Merge, RunRenameRight, Matches, RunJoinShape;
    JoinedRowIs(config, left, right);
    if Matched(config, left, right) {
      var row :| row in right && JoinedRow(left, right, config) == [Merge(config, left, row)];
      MergeSound(how, config, left, l, row, r);
    } else if config.kind.LeftJoin? {
      UnmatchedRow(how, config, left, l, r);
      assert JoinedRow(left, right, config)[0] == left;
    }
  }

  /** Exactly when a join yields the columns the compiler promised: an inner join always; a left join only if
      it adds no column or every left row finds a match, since an unmatched row carries no right column at all,
      not even a null one. */
  lemma {:induction false} JoinFollowsCompilerExactly(how: Precision, config: JoinConfig, left: seq<Row>, l: Shape,
      right: seq<Row>, r: Shape)
    requires RowsHave(how, left, l) && RowsHave(how, right, r) && Flat(RunJoinShape(config, l, r))
    ensures RowsHave(how, JoinRows(left, right, config), RunJoinShape(config, l, r)) <==>
              config.kind.Inner? || RunRenameRight(config, l, r) == []
                || forall row | row in left :: Matched(config, row, right)
  {
    if left != [] {
      hide RowHas, RunRenameRight, Matched, RunJoinShape, JoinedRow;
      assert left == [left[0]] + left[1..];
      JoinedRowExact(how, config, left[0], l, right, r);
      JoinFollowsCompilerExactly(how, config, left[1..], l, right, r);
      var shape, first, rest := RunJoinShape(config, l, r), JoinedRow(left[0], right, config),
        JoinRows(left[1..], right, config);
      assert JoinRows(left, right, config) == first + rest;
      assert RowsHave(how, first + rest, shape) <==> RowsHave(how, first, shape) && RowsHave(how, rest, shape) by {
        AppendHave(how, first, rest, shape);
      }
    }
  }

  lemma JoinShapesAgree(config: JoinConfig, l: Shape, r: Shape)
    requires Flat(l) && JoinShape(config, l, r).Success?
    ensures JoinShape(config, l, r) == Success(RunJoinShape(config, l, r)) && Flat(RunJoinShape(config, l, r))
  {
    hide Flat, KeyCompiles, RenameRight, RunRenameRight;
    RenameRightIs(config, l, r, l);
  }

  /** Read column by column, every join keeps the promise, left joins included: whatever a later node reads under a
      compiled name is of the compiled type, and null or missing only where the compiler said nullable. */
  lemma {:induction false} JoinColumnsRead(how: Precision, config: JoinConfig, left: seq<Row>, l: Shape,
      right: seq<Row>, r: Shape, row: Row, f: Field)
    requires RowsHave(how, left, l) && RowsHave(how, right, r) && Flat(l) && JoinShape(config, l, r).Success?
    requires row in JoinRows(left, right, config) && f in JoinShape(config, l, r).value
    ensures Fits(how, f.ty, f.nullable, Column(row, f.name))
  {
    hide RowHas, Flat, JoinShape, RunJoinShape, JoinedRow, Fits;
    if row in JoinedRow(left[0], right, config) {
      JoinShapesAgree(config, l, r);
      JoinedColumnReads(how, config, left[0], l, right, r, row, f);
    } else {
      JoinColumnsRead(how, config, left[1..], l, right, r, row, f);
    }
  }

  lemma JoinedColumnReads(how: Precision, config: JoinConfig, left: Row, l: Shape, right: seq<Row>, r: Shape, row: Row,
      f: Field)
    requires RowHas(how, left, l) && RowsHave(how, right, r) && Flat(RunJoinShape(config, l, r))
    requires row in JoinedRow(left, right, config) && f in RunJoinShape(config, l, r)
    ensures Fits(how, f.ty, f.nullable, Column(row, f.name))
  {
    hide RowHas, Merge, RunRenameRight, Matches, JoinedRow, Fits, Flat;
    JoinedRowIs(config, left, right);
    JoinedRowExact(how, config, left, l, right, r);
    if RowsHave(how, JoinedRow(left, right, config), RunJoinShape(config, l, r)) {
      PresentColumn(how, row, RunJoinShape(config, l, r), f);
    } else {
      assert row == left;
      if f in l {
        PresentColumn(how, left, l, f);
      } else {
        AbsentColumn(how, config, left, l, r, f);
      }
    }
  }

  lemma PresentColumn(how: Precision, row: Row, shape: Shape, f: Field)
    requires RowHas(how, row, shape) && f in shape
    ensures f.name in row && Fits(how, f.ty, f.nullable, Column(row, f.name))
  {
    hide Fits;
    assert f.name in Names(shape);
  }

  lemma AbsentColumn(how: Precision, config: JoinConfig, left: Row, l: Shape, r: Shape, f: Field)
    requires RowHas(how, left, l) && Flat(RunJoinShape(config, l, r)) && config.kind.LeftJoin?
    requires f in RunRenameRight(config, l, r)
    ensures Fits(how, f.ty, f.nullable, Column(left, f.name))
  {
    hide RunRenameRight, FitsType;
    RenameMembers(config, l, r);
    forall g | g in l
      ensures g.name != f.name
    {
      UniqueAcross(l, RunRenameRight(config, l, r), g, f);
    }
    assert f.name !in Names(l);
  }

  lemma AppendHave(how: Precision, a: seq<Row>, b: seq<Row>, shape: Shape)
    ensures RowsHave(how, a + b, shape) <==> RowsHave(how, a, shape) && RowsHave(how, b, shape)
  {
    hide RowHas;
    assert forall row :: row in a + b <==> row in a || row in b;
  }

  // ---------------------------------------------------------------- unions

  /** Exactly when the executor's union shape, the left shape alone, is the compiled one. */
  lemma {:induction false} UnionShapeExactly(left: Shape, right: Shape)
    requires UnionFields(left, right).Success?
    ensures UnionFields(left, right).value == left <==>
              forall f | f in left :: Lookup(right, f.name).Some? && UnionField(f, Lookup(right, f.name).value) == f
  {
    if left != [] {
      UnionShapeExactly(left[1..], right);
      var rest := UnionFields(left[1..], right).value;
      assert left == [left[0]] + left[1..];
      assert UnionFields(left, right).value[1..] == rest;
    }
  }

  lemma {:induction false} UnionTypes(left: Shape, right: Shape, f: Field)
    requires UnionFields(left, right).Success? && f in left
    ensures Lookup(right, f.name).Some? && CompilerCompatible(f.ty, Lookup(right, f.name).value.ty)
  {
    if f != left[0] {
      UnionTypes(left[1..], right, f);
    }
  }

  /** A value of one type that is none of the other, where there is one. */
  function Foreign(right: FieldType): Value {
    if right.JsonType? then List([]) else Text("1.5")
  }

  lemma OneAndAHalf(how: Precision)
    ensures FitsType(how, DecimalType, Text("1.5")) && !FitsType(ByValue, IntegerType, Text("1.5"))
  {
    assert "1.5"[..1] == "1" && "1.5"[2..] == "5" && Decimals.PointAt("1.5") == 1;
  }

  /** For compatible types: the right values are left values exactly under TypeFollows. */
  lemma TypeFollowsExactly(how: Precision, left: FieldType, right: FieldType)
    requires CompilerCompatible(left, right)
    ensures TypeFollows(how, left, right) ==> forall v | FitsType(how, right, v) :: FitsType(how, left, v)
    ensures !TypeFollows(how, left, right) ==>
            FitsType(how, right, Foreign(right))
            && !FitsType(how, left, Foreign(right))
  {
    hide IsIntegerText, Decimals.Parse;
    OneAndAHalf(how);
    forall v | TypeFollows(how, left, right) && FitsType(how, right, v)
      ensures FitsType(how, left, v)
    {
      if v.Text? && right.IntegerType? && how.ByValue? {
        IntegerIsDecimal(v.s);
      }
    }
  }

  /** A row of any flat shape. */
  function Sample(ty: FieldType): Value {
    if ty.BooleanType? then Bool(true) else Text("0")
  }

  function SampleRow(shape: Shape): Row
    requires Unique(shape)
  {
    map name | name in Names(shape) :: Sample(Lookup(shape, name).GetOr(Field(name, StringType, false, None)).ty)
  }

  lemma SampleFits(how: Precision, ty: FieldType)
    ensures FitsType(how, ty, Sample(ty)) && !Missing(Sample(ty))
  {
    hide Digits.NatOf;
    assert IsIntegerText("0");
    IntegerIsDecimal("0");
  }

  lemma SampleRowHas(how: Precision, shape: Shape, g: Field, v: Value)
    requires Unique(shape) && g in shape && Fits(how, g.ty, g.nullable, v)
    ensures RowHas(how, SampleRow(shape)[g.name := v], shape)
  {
    hide FitsType;
    var row := SampleRow(shape)[g.name := v];
    assert g.name in Names(shape) && row.Keys == Names(shape);
    forall f | f in shape
      ensures Fits(how, f.ty, f.nullable, row[f.name])
    {
      LookupUnique(shape, f);
      LookupUnique(shape, g);
      assert f.name in Names(shape);
      SampleFits(how, f.ty);
    }
  }

  /** What a union promises of its right rows: the run-time shape is the compiled one, and they have it. */
  ghost predicate UnionKept(how: Precision, left: Shape, right: Shape)
    requires UnionFields(left, right).Success?
  {
    var compiled := UnionFields(left, right).value;
    compiled == left && forall row | RowHas(how, row, right) :: RowHas(how, row, compiled)
  }

  /** Exactly when a union keeps the compiler's promise, over all rows: field by field, the right side is no more
      nullable, does not lose a unit, and has only values of the left type. */
  lemma UnionFollowsCompilerExactly(how: Precision, left: Shape, right: Shape)
    requires Flat(left) && Flat(right) && |left| == |right| && UnionFields(left, right).Success?
    ensures UnionKept(how, left, right) <==>
              forall f | f in left :: Lookup(right, f.name).Some? && FollowsLeft(how, f, Lookup(right, f.name).value)
  {
    hide UnionFields, RowHas, FollowsLeft, Flat;
    UnionShapeExactly(left, right);
    if UnionKept(how, left, right) {
      forall f | f in left
        ensures Lookup(right, f.name).Some? && FollowsLeft(how, f, Lookup(right, f.name).value)
      {
        UnionFieldFollows(how, left, right, f);
      }
    }
    if forall f | f in left :: Lookup(right, f.name).Some? && FollowsLeft(how, f, Lookup(right, f.name).value) {
      UnionFieldsIsLeft(how, left, right);
      forall row | RowHas(how, row, right)
        ensures RowHas(how, row, left)
      {
        UnionRowSound(how, row, left, right);
      }
    }
  }

  lemma UnionFieldFollows(how: Precision, left: Shape, right: Shape, f: Field)
    requires Flat(left) && Flat(right) && UnionFields(left, right).Success? && UnionKept(how, left, right) && f in left
    ensures Lookup(right, f.name).Some? && FollowsLeft(how, f, Lookup(right, f.name).value)
  {
    hide UnionFields, FitsType, TypeFollows;
    UnionShapeExactly(left, right);
    UnionTypes(left, right, f);
    var g := Lookup(right, f.name).value;
    TypeFollowsExactly(how, f.ty, g.ty);
    if !TypeFollows(how, f.ty, g.ty) {
      SampleRowHas(how, right, g, Foreign(g.ty));
      assert false;
    }
  }

  function Column1(name: string, ty: FieldType, nullable: bool): Shape {
    [Field(name, ty, nullable, None)]
  }

  /** The executor appends the right rows under the compiled shape. */
  lemma UnionOfColumns(host: Host, name: string, left: FieldType, right: FieldType, nullable: bool, row: Row)
    requires CompilerCompatible(left, right)
    ensures var l, r := Column1(name, left, false), Column1(name, right, nullable);
            && CompileShape(host, Union(None), [l, r]) == Success(Column1(name, left, nullable))
            && Run(host, Union(None), [Table([], l), Table([row], r)], true) == Success(Table([row], l))
  {
    var l, r := Column1(name, left, false), Column1(name, right, nullable);
    LookupUnique(r, r[0]);
    assert UnionFields(l[1..], r) == Success([]);
    var f := UnionField(l[0], r[0]);
    assert [f] == Column1(name, left, nullable) && [f] + [] == [f];
    assert UnionFields(l, r) == Success([f] + []);
    assert [] + [row] == [row];
  }

  lemma ColumnHas(how: Precision, name: string, ty: FieldType, nullable: bool, row: Row)
    requires row.Keys == {name}
    ensures RowHas(how, row, Column1(name, ty, nullable)) <==> Fits(how, ty, nullable, row[name])
  {
    hide FitsType;
    var shape := Column1(name, ty, nullable);
    assert Names(shape) == {name} && shape[0] in shape;
  }

  /** Two compatible inputs whose union compiles to a nullable column, while the executor goes on to treat the
      column as never null: a right row with a null does not fit its shape, and sorting by the column, which
      compiles, aborts on that row. */
  lemma UnionHidesNulls(how: Precision, host: Host, name: string, row: Row)
    requires IsIdentifier(name) && row.Keys == {name} && row[name].Null?
    ensures var l, r := Column1(name, IntegerType, false), Column1(name, IntegerType, true);
            && RowHas(how, row, r) && !RowHas(how, row, l)
            && CompileShape(host, Union(None), [l, r]) == Success(r)
            && Run(host, Union(None), [Table([], l), Table([row], r)], true) == Success(Table([row], l))
            && Sorting.RowValue(row, r[0]).Success? && Sorting.RowValue(row, l[0]) == Failure(UnexpectedNull(name))
  {
    UnionOfColumns(host, name, IntegerType, IntegerType, true, row);
    ColumnHas(how, name, IntegerType, true, row);
    ColumnHas(how, name, IntegerType, false, row);
  }

  /** A JSON column under an integer one compiles to the integer column, and then holds whatever the JSON did. */
  lemma UnionTakesJson(how: Precision, host: Host, name: string, row: Row)
    requires row.Keys == {name} && row[name] == Bool(true)
    ensures var l, r := Column1(name, IntegerType, false), Column1(name, JsonType, false);
            && CompileShape(host, Union(None), [l, r]) == Success(l)
            && Run(host, Union(None), [Table([], l), Table([row], r)], true) == Success(Table([row], l))
            && RowHas(how, row, r) && !RowHas(how, row, l)
  {
    UnionOfColumns(host, name, IntegerType, JsonType, false, row);
    ColumnHas(how, name, JsonType, false, row);
    ColumnHas(how, name, IntegerType, false, row);
  }

  /** A decimal column under an integer one compiles to the integer column, and then holds a fraction that no
      integer comparison can read. */
  lemma UnionTakesFractions(host: Host, name: string, row: Row, other: Value)
    requires row.Keys == {name} && row[name] == Text("1.5") && host.bigInt(Text("1.5")) == None
    ensures var l, r := Column1(name, IntegerType, false), Column1(name, DecimalType, false);
            && CompileShape(host, Union(None), [l, r]) == Success(l)
            && Run(host, Union(None), [Table([], l), Table([row], r)], true) == Success(Table([row], l))
            && RowHas(ByValue, row, r) && !RowHas(ByValue, row, l)
            && CompareSemanticValues(host, IntegerType, row[name], other).Failure?
  {
    UnionOfColumns(host, name, IntegerType, DecimalType, false, row);
    ColumnHas(ByValue, name, DecimalType, false, row);
    ColumnHas(ByValue, name, IntegerType, false, row);
    OneAndAHalf(ByValue);
  }

  // ---------------------------------------------------------------- unit annotations

  lemma {:induction false} LaterNamesKeep(host: Host, definitions: seq<Definition>, input: Shape, a: Shape, b: Shape,
      name: string)
    requires MapShape(host, definitions, input, a).Success? && RunMapShape(host, definitions, input, b).Success?
    requires forall d | d in definitions :: d.name != name
    requires Unique(a) && Unique(b) && Lookup(a, name).Some? && Lookup(b, name).Some?
             && Lookup(a, name) != Lookup(b, name)
    ensures MapShape(host, definitions, input, a) != RunMapShape(host, definitions, input, b)
    decreases definitions
  {
    hide InferDefinition, InferExpression, Unique, Lookup;
    if definitions != [] {
      var d := definitions[0];
      assert d in definitions;
      var t, u := InferDefinition(host, d, input).value, InferExpression(host, d.expr, input).value;
      var f := Field(d.name, t.ty, t.nullable, t.unit);
      var g := Field(d.name, u.ty, u.nullable, if d.unit.Some? then d.unit else u.unit);
      KeepsOthers(a, f, name);
      KeepsOthers(b, g, name);
      LaterNamesKeep(host, definitions[1..], input, SetField(a, f), SetField(b, g), name);
    }
  }

  lemma KeepsOthers(shape: Shape, f: Field, name: string)
    requires Unique(shape) && f.name != name && Lookup(shape, name).Some?
    ensures Unique(SetField(shape, f)) && Lookup(SetField(shape, f), name) == Lookup(shape, name)
  {
    SetFieldIs(shape, f);
    var kept := Lookup(shape, name).value;
    LookupUnique(SetField(shape, f), kept);
  }

  lemma SetsField(shape: Shape, f: Field)
    requires Unique(shape)
    ensures Unique(SetField(shape, f)) && Lookup(SetField(shape, f), f.name) == Some(f)
  {
    SetFieldIs(shape, f);
    LookupUnique(SetField(shape, f), f);
  }

  /** Exactly when the executor derives the shape the compiler derived: every unit annotation is written
      without surrounding white space. */
  lemma {:induction false} MapShapeExactly(host: Host, definitions: seq<Definition>, input: Shape, output: Shape)
    requires DefinitionsOk(host, definitions, input) && Unique(output)
    requires forall i, j | 0 <= i < j < |definitions| :: definitions[i].name != definitions[j].name
    ensures MapShape(host, definitions, input, output).Success?
            && RunMapShape(host, definitions, input, output).Success?
    ensures RunMapShape(host, definitions, input, output) == MapShape(host, definitions, input, output) <==>
            Trimmed(host, definitions)
    decreases definitions
  {
    hide InferExpression, Unique, SetField, Lookup, IsIdentifier;
    if definitions != [] {
      var d, rest := definitions[0], definitions[1..];
      assert definitions == [d] + rest && d in definitions;
      assert forall e | e in rest :: e in definitions;
      var t, u := InferDefinition(host, d, input).value, InferExpression(host, d.expr, input).value;
      var f := Field(d.name, t.ty, t.nullable, t.unit);
      var g := Field(d.name, u.ty, u.nullable, if d.unit.Some? then d.unit else u.unit);
      SetsField(output, f);
      SetsField(output, g);
      MapShapeExactly(host, rest, input, SetField(output, f));
      MapShapeExactly(host, rest, input, SetField(output, g));
      if f != g {
        LaterDiffer(definitions);
        LaterNamesKeep(host, rest, input, SetField(output, f), SetField(output, g), d.name);
      }
    }
  }

  lemma LaterDiffer(definitions: seq<Definition>)
    requires definitions != [] && forall i, j | 0 <= i < j < |definitions| :: definitions[i].name != definitions[j].name
    ensures forall e | e in definitions[1..] :: e.name != definitions[0].name
  {
    forall e | e in definitions[1..]
      ensures e.name != definitions[0].name
    {
      var j :| 0 <= j < |definitions| - 1 && definitions[1..][j] == e;
      assert definitions[0].name != definitions[j + 1].name;
    }
  }
}
