/** Aggregate nodes (deployments/runtime.ts, dag/compiler.ts): grouping, measures and their shape. */
module Aggregation {
  import opened Wrappers
  import opened Digits
  import opened Decimals
  import opened Values
  import opened Ordering
  import Expressions

  datatype MeasureOp = CountRows | CountDistinct | SumOf | MinOf | MaxOf | AverageOf

  datatype Measure = Measure(name: string, op: MeasureOp, field: Option<string>)

  // ---------------------------------------------------------------- shapes

  const MAX_GROUPS := 16
  const MAX_MEASURES := 32

  function GroupFields(groupBy: seq<string>, input: Shape, output: Shape): Try<Shape> {
    if groupBy == [] then Success(output)
    else
      var f := Lookup(input, groupBy[0]);
      if !IsIdentifier(groupBy[0]) || f.None? then Failure(InvalidConfig("FIELD_UNKNOWN"))
      else if Lookup(output, groupBy[0]).Some? then Failure(InvalidConfig("AGGREGATE_GROUP_FIELD_DUPLICATED"))
      else GroupFields(groupBy[1..], input, output + [f.value])
  }

  function MeasureField(m: Measure, input: Shape): Try<Field> {
    if m.op.CountRows? then
      if m.field.Some? then Failure(InvalidConfig("AGGREGATE_FIELD_UNEXPECTED"))
        else Success(Field(m.name, IntegerType, false, None))
    else if m.field.None? || !IsIdentifier(m.field.value)
      || Lookup(input, m.field.value).None? then Failure(InvalidConfig("FIELD_UNKNOWN"))
    else
      var f := Lookup(input, m.field.value).value;
      if (m.op.SumOf? || m.op.AverageOf?) && !Numeric(f.ty) then Failure(InvalidConfig("AGGREGATE_FIELD_TYPE_INVALID"))
      else if m.op.CountDistinct? then Success(Field(m.name, IntegerType, false, None))
      else Success(Field(m.name, if m.op.AverageOf? then DecimalType else f.ty, f.nullable, f.unit))
  }

  function MeasureFields(measures: seq<Measure>, input: Shape, output: Shape): Try<Shape> {
    if measures == [] then Success(output)
    else if !IsIdentifier(measures[0].name) then Failure(InvalidConfig("AGGREGATE_OUTPUT_NAME_INVALID"))
    else if Lookup(output, measures[0].name).Some? then Failure(InvalidConfig("AGGREGATE_OUTPUT_NAME_DUPLICATED"))
    else
      var f :- MeasureField(measures[0], input);
      MeasureFields(measures[1..], input, output + [f])
  }

  function AggregateShape(groupBy: seq<string>, measures: seq<Measure>, input: Shape): Try<Shape> {
    if |groupBy| > MAX_GROUPS || |measures| < 1
      || |measures| > MAX_MEASURES then Failure(InvalidConfig("AGGREGATE_COUNT_INVALID"))
    else
      var groups :- GroupFields(groupBy, input, []);
      MeasureFields(measures, input, groups)
  }

  /** The executor repeats the derivation without the checks; an unknown field stops it. */
  function RunMeasureField(m: Measure, input: Shape): Try<Field> {
    if m.op.CountRows? || m.op.CountDistinct? then Success(Field(m.name, IntegerType, false, None))
    else
      var f := Lookup(input, m.field.GetOr(""));
      if f.None? then Failure(MissingField(m.name))
      else Success(Field(m.name, if m.op.AverageOf? then DecimalType else f.value.ty, f.value.nullable, f.value.unit))
  }

  function RunMeasureFields(measures: seq<Measure>, input: Shape): Try<Shape> {
    if measures == [] then Success([])
    else
      var head :- RunMeasureField(measures[0], input);
      var tail :- RunMeasureFields(measures[1..], input);
      Success([head] + tail)
  }

  function RunGroupFields(groupBy: seq<string>, input: Shape): Try<Shape> {
    if groupBy == [] then Success([])
    else
      var f := Lookup(input, groupBy[0]);
      if f.None? then Failure(MissingField(groupBy[0]))
      else
        var tail :- RunGroupFields(groupBy[1..], input);
        Success([f.value] + tail)
  }

  function RunAggregateShape(groupBy: seq<string>, measures: seq<Measure>, input: Shape): Try<Shape> {
    var groups :- RunGroupFields(groupBy, input);
    var fields :- RunMeasureFields(measures, input);
    Success(groups + fields)
  }

  // ---------------------------------------------------------------- grouping

  /** row[field] in JavaScript: a missing column reads as undefined. */
  function Column(row: Row, name: string): Value {
    if name in row then row[name] else Undefined
  }

  /** JSON.stringify of a list writes undefined as null. */
  function KeyPart(v: Value): Value {
    if v.Undefined? then Null else v
  }

  type GroupKey = seq<Value>

  function GroupKeyOf(row: Row, fields: seq<string>): (key: GroupKey)
    ensures |key| == |fields|
  {
    seq(|fields|, i requires 0 <= i < |fields| => KeyPart(Column(row, fields[i])))
  }

  /** The distinct keys, in order of first occurrence. */
  function Keys(rows: seq<Row>, fields: seq<string>): seq<GroupKey> {
    if rows == [] then []
    else
      var before, key := Keys(rows[..|rows| - 1], fields), GroupKeyOf(rows[|rows| - 1], fields);
      if key in before then before else before + [key]
  }

  /** The rows of one group, in input order. */
  function Members(rows: seq<Row>, fields: seq<string>, key: GroupKey): seq<Row> {
    if rows == [] then []
    else
      var before := Members(rows[..|rows| - 1], fields, key);
      if GroupKeyOf(rows[|rows| - 1], fields) == key then before + [rows[|rows| - 1]] else before
  }

  /** The insertion-ordered Map from keys to rows that aggregateRows fills. */
  class GroupMap {
    var order: seq<GroupKey>
    var members: map<GroupKey, seq<Row>>

    constructor ()
      ensures order == [] && members == map[]
    {
      order := [];
      members := map[];
    }

    /** groups.get(key) ?? [], push, groups.set. */
    method Add(key: GroupKey, row: Row)
      requires order == [] <==> members == map[]
      modifies this
      ensures order == if key in old(members) then old(order) else old(order) + [key]
      ensures members == old(members)[key := (if key in old(members) then old(members)[key] else []) + [row]]
    {
      var group := if key in members then members[key] else [];
      if key !in members {
        order := order + [key];
      }
      members := members[key := group + [row]];
    }
  }

  lemma {:induction false} KeysAreMembers(rows: seq<Row>, fields: seq<string>, key: GroupKey)
    ensures key in Keys(rows, fields) <==> Members(rows, fields, key) != []
    ensures forall row | row in Members(rows, fields, key) :: row in rows && GroupKeyOf(row, fields) == key
  {
    if rows != [] {
      KeysAreMembers(rows[..|rows| - 1], fields, key);
    }
  }

  lemma {:induction false} KeysDistinct(rows: seq<Row>, fields: seq<string>)
    ensures forall i, j | 0 <= i < j < |Keys(rows, fields)| :: Keys(rows, fields)[i] != Keys(rows, fields)[j]
  {
    if rows != [] {
      KeysDistinct(rows[..|rows| - 1], fields);
    }
  }

  /** The grouping loop computes, for every key, exactly the rows with that key. */
  method GroupRows(rows: seq<Row>, fields: seq<string>) returns (groups: GroupMap)
    ensures fresh(groups)
    ensures groups.order == Keys(rows, fields)
    ensures groups.members.Keys == set key | key in groups.order
    ensures forall key | key in groups.order :: groups.members[key] == Members(rows, fields, key)
  {
    groups := new GroupMap();
    for i := 0 to |rows|
      invariant fresh(groups)
      invariant groups.order == Keys(rows[..i], fields)
      invariant groups.members.Keys == set key | key in groups.order
      invariant forall key | key in groups.order :: groups.members[key] == Members(rows[..i], fields, key)
      invariant groups.order == [] <==> groups.members == map[]
    {
      var key := GroupKeyOf(rows[i], fields);
      assert rows[..i + 1][..i] == rows[..i];
      KeysAreMembers(rows[..i], fields, key);
      groups.Add(key, rows[i]);
    }
    assert rows[..|rows|] == rows;
  }

  // ---------------------------------------------------------------- measures

  function Present(values: seq<Value>): seq<Value> {
    if values == [] then [] else (if Missing(values[0]) then [] else [values[0]]) + Present(values[1..])
  }

  function ColumnOf(rows: seq<Row>, name: string): (values: seq<Value>)
    ensures |values| == |rows|
  {
    seq(|rows|, i requires 0 <= i < |rows| => Column(rows[i], name))
  }

  function SumFrom(total: Decimal, values: seq<Value>): Try<Decimal>
    decreases values
  {
    if values == [] then Success(total)
    else if Missing(values[0]) then SumFrom(total, values[1..])
    else
      var next :- Expressions.ParseDecimal(values[0]);
      SumFrom(Add(total, next), values[1..])
  }

  /** decimalSum, with the accumulator rescaled in place. */
  method DecimalSum(values: seq<Value>) returns (r: Try<Decimal>)
    ensures r == SumFrom(Decimal(0, 0), values)
  {
    var result := Decimal(0, 0);
    assert values[0..] == values;
    for i := 0 to |values|
      invariant SumFrom(Decimal(0, 0), values) == SumFrom(result, values[i..])
    {
      assert values[i..][1..] == values[i + 1..];
      if Missing(values[i]) {
        continue;
      }
      var next := Expressions.ParseDecimal(values[i]);
      if next.Failure? {
        return Failure(next.error);
      }
      var scale := MaxScale(result, next.value);
      result := Decimal(Align(result, scale) + Align(next.value, scale), scale);
    }
    r := Success(result);
  }

  /** values.reduce for min and max: a later value replaces the selected one only when strictly better. */
  function Select(host: Host, ty: FieldType, least: bool, selected: Value, values: seq<Value>): Try<Value>
    decreases values
  {
    if values == [] then Success(selected)
    else
      var c :- CompareSemanticValues(host, ty, values[0], selected);
      Select(host, ty, least, if (if least then c < 0 else c > 0) then values[0] else selected, values[1..])
  }

  function MeasureValue(host: Host, m: Measure, group: seq<Row>, input: Shape): Try<Value> {
    var values := if m.field.Some? then Present(ColumnOf(group, m.field.value)) else [];
    match m.op
    case CountRows => Success(Text(TextOf(|group|)))
    case CountDistinct => Success(Text(TextOf(|set v | v in values|)))
    case SumOf => var total :- SumFrom(Decimal(0, 0), values); Success(Text(Print(total)))
    case AverageOf =>
      if values == [] then Success(Null)
      else var total :- SumFrom(Decimal(0, 0), values); Success(Text(Print(Average(total, |values|))))
    case MinOf | MaxOf =>
      if values == [] then Success(Null)
      else
        var f := Lookup(input, m.field.GetOr(""));
        if f.None? then Failure(MissingField(m.name))
        else Select(host, f.value.ty, m.op.MinOf?, values[0], values[1..])
  }

  function Measured(host: Host, measures: seq<Measure>, group: seq<Row>, input: Shape, row: Row): Try<Row> {
    if measures == [] then Success(row)
    else
      var v :- MeasureValue(host, measures[0], group, input);
      Measured(host, measures[1..], group, input, row[measures[0].name := v])
  }

  function GroupRow(host: Host, group: seq<Row>, groupBy: seq<string>, measures: seq<Measure>, input: Shape): Try<Row>
    requires group != []
  {
    Measured(host, measures, group, input, map name | name in groupBy :: Column(group[0], name))
  }

  function RowsOfKeys(host: Host, keys: seq<GroupKey>, rows: seq<Row>, groupBy: seq<string>, measures: seq<Measure>,
      input: Shape): Try<seq<Row>>
    requires forall key | key in keys :: Members(rows, groupBy, key) != []
  {
    if keys == [] then Success([])
    else
      var head :- GroupRow(host, Members(rows, groupBy, keys[0]), groupBy, measures, input);
      var tail :- RowsOfKeys(host, keys[1..], rows, groupBy, measures, input);
      Success([head] + tail)
  }

  lemma KeysHaveMembers(rows: seq<Row>, fields: seq<string>)
    ensures forall key | key in Keys(rows, fields) :: Members(rows, fields, key) != []
  {
    forall key | key in Keys(rows, fields)
      ensures Members(rows, fields, key) != []
    {
      KeysAreMembers(rows, fields, key);
    }
  }

  /** One output row per distinct key, in order of first occurrence. */
  function AggregateRows(host: Host, rows: seq<Row>, groupBy: seq<string>, measures: seq<Measure>,
      input: Shape): Try<seq<Row>> {
    KeysHaveMembers(rows, groupBy);
    RowsOfKeys(host, Keys(rows, groupBy), rows, groupBy, measures, input)
  }

  /** aggregateRows as written: fill the group map, then summarise each group in turn. */
  method AggregateLoop(host: Host, rows: seq<Row>, groupBy: seq<string>, measures: seq<Measure>, input: Shape)
      returns (r: Try<seq<Row>>)
    ensures r.Success? <==> AggregateRows(host, rows, groupBy, measures, input).Success?
    ensures r.Success? ==> r == AggregateRows(host, rows, groupBy, measures, input)
    ensures r.Failure? ==> AggregateRows(host, rows, groupBy, measures, input) == Failure(r.error)
  {
    hide GroupRow, Members, Keys;
    KeysHaveMembers(rows, groupBy);
    var groups := GroupRows(rows, groupBy);
    var keys := groups.order;
    var done: seq<Row> := [];
    ghost var all := RowsOfKeys(host, keys, rows, groupBy, measures, input);
    assert keys[0..] == keys && (all.Success? ==> [] + all.value == all.value);
    for i := 0 to |keys|
      invariant match RowsOfKeys(host, keys[i..], rows, groupBy, measures, input)
                case Success(rest) => AggregateRows(host, rows, groupBy, measures, input) == Success(done + rest)
                case Failure(e) => AggregateRows(host, rows, groupBy, measures, input) == Failure(e)
    {
      assert keys[i..][0] == keys[i] && keys[i..][1..] == keys[i + 1..];
      var row := GroupRow(host, groups.members[keys[i]], groupBy, measures, input);
      if row.Failure? {
        return Failure(row.error);
      }
      ghost var rest := RowsOfKeys(host, keys[i + 1..], rows, groupBy, measures, input);
      assert rest.Success? ==> done + ([row.value] + rest.value) == (done + [row.value]) + rest.value;
      done := done + [row.value];
    }
    assert done + [] == done;
    r := Success(done);
  }

  // ---------------------------------------------------------------- conservation

  /** The sum of a weight over rows, for any weight. */
  ghost function Weigh(rows: seq<Row>, w: Row -> real): real {
    if rows == [] then 0.0 else w(rows[0]) + Weigh(rows[1..], w)
  }

  ghost function WeighGroups(keys: seq<GroupKey>, rows: seq<Row>, fields: seq<string>, w: Row -> real): real {
    if keys == [] then 0.0 else Weigh(Members(rows, fields, keys[0]), w) + WeighGroups(keys[1..], rows, fields, w)
  }

  lemma {:induction false} WeighAppend(rows: seq<Row>, row: Row, w: Row -> real)
    ensures Weigh(rows + [row], w) == Weigh(rows, w) + w(row)
  {
    if rows != [] {
      WeighAppend(rows[1..], row, w);
      assert (rows + [row])[1..] == rows[1..] + [row];
    }
  }

  lemma {:induction false} WeighGroupsAppendRow(keys: seq<GroupKey>, rows: seq<Row>, fields: seq<string>, row: Row,
      w: Row -> real)
    requires forall i, j | 0 <= i < j < |keys| :: keys[i] != keys[j]
    ensures WeighGroups(keys, rows + [row], fields, w)
            == WeighGroups(keys, rows, fields, w) + (if GroupKeyOf(row, fields) in keys then w(row) else 0.0)
  {
    if keys != [] {
      assert (rows + [row])[..|rows|] == rows;
      WeighAppend(Members(rows, fields, keys[0]), row, w);
      WeighGroupsAppendRow(keys[1..], rows, fields, row, w);
      assert keys == [keys[0]] + keys[1..];
    }
  }

  lemma {:induction false} WeighGroupsAppendKey(keys: seq<GroupKey>, key: GroupKey, rows: seq<Row>, fields: seq<string>,
      w: Row -> real)
    ensures WeighGroups(keys + [key], rows, fields, w) ==
            WeighGroups(keys, rows, fields, w) + Weigh(Members(rows, fields, key), w)
  {
    if keys == [] {
      assert WeighGroups([key][1..], rows, fields, w) == 0.0;
    } else {
      assert (keys + [key])[1..] == keys[1..] + [key];
      WeighGroupsAppendKey(keys[1..], key, rows, fields, w);
    }
  }

  /** The groups partition the rows: no weight is lost or counted twice, whatever is weighed. */
  lemma {:induction false} GroupsPartition(rows: seq<Row>, fields: seq<string>, w: Row -> real)
    ensures WeighGroups(Keys(rows, fields), rows, fields, w) == Weigh(rows, w)
  {
    if rows != [] {
      var before, row := rows[..|rows| - 1], rows[|rows| - 1];
      var keys, key := Keys(before, fields), GroupKeyOf(row, fields);
      assert rows == before + [row];
      GroupsPartition(before, fields, w);
      KeysDistinct(before, fields);
      WeighAppend(before, row, w);
      WeighGroupsAppendRow(keys, before, fields, row, w);
      if key !in keys {
        KeysAreMembers(before, fields, key);
        WeighGroupsAppendKey(keys, key, rows, fields, w);
        assert Members(rows, fields, key) == [row];
        assert Weigh([row][1..], w) == 0.0;
      }
    }
  }

  /** The number a measure prints. */
  ghost function Reading(v: Value): real {
    if DecimalOf(v).Some? then Decimals.Value(DecimalOf(v).value) else 0.0
  }

  /** What one row contributes to a count or to a sum. */
  ghost function Contribution(m: Measure): Row -> real {
    (row: Row) => if m.op.CountRows? then 1.0 else if m.field.Some? then Reading(Column(row, m.field.value)) else 0.0
  }

  lemma {:induction false} CountIsWeight(group: seq<Row>, m: Measure)
    requires m.op.CountRows?
    ensures Weigh(group, Contribution(m)) == |group| as real
  {
    if group != [] {
      CountIsWeight(group[1..], m);
    }
  }

  lemma {:induction false} SumIsWeight(total: Decimal, group: seq<Row>, m: Measure)
    requires m.op.SumOf? && m.field.Some?
    requires SumFrom(total, Present(ColumnOf(group, m.field.value))).Success?
    ensures Decimals.Value(SumFrom(total, Present(ColumnOf(group, m.field.value))).value) ==
            Decimals.Value(total) + Weigh(group, Contribution(m))
    decreases group
  {
    if group != [] {
      var values, v := ColumnOf(group, m.field.value), Column(group[0], m.field.value);
      assert values[1..] == ColumnOf(group[1..], m.field.value);
      if Missing(v) {
        assert Present(values) == Present(values[1..]);
        SumIsWeight(total, group[1..], m);
      } else {
        assert Present(values) == [v] + Present(values[1..]);
        assert ([v] + Present(values[1..]))[1..] == Present(values[1..]);
        var next := DecimalOf(v).value;
        AddIsExact(total, next);
        SumIsWeight(Add(total, next), group[1..], m);
      }
    }
  }

  /** A count or sum measure prints exactly the weight of its group. */
  lemma MeasureIsWeight(host: Host, m: Measure, group: seq<Row>, input: Shape)
    requires m.op.CountRows? || (m.op.SumOf? && m.field.Some?)
    requires MeasureValue(host, m, group, input).Success?
    ensures Reading(MeasureValue(host, m, group, input).value) == Weigh(group, Contribution(m))
  {
    hide Decimals.Value, Print, Parse, Weigh, TextOf;
    if m.op.CountRows? {
      CountIsWeight(group, m);
      CountReadsBack(|group|);
    } else {
      SumIsWeight(Decimal(0, 0), group, m);
      ValueIs(Decimal(0, 0), 0.0);
      ParsePrint(SumFrom(Decimal(0, 0), Present(ColumnOf(group, m.field.value))).value);
    }
  }

  lemma CountReadsBack(n: nat)
    ensures Reading(Text(TextOf(n))) == n as real
  {
    hide NatOf, TextOf, Parse, Decimals.Value;
    ParseWhole(TextOf(n));
    ValueIs(Decimal(n, 0), n as real);
  }

  lemma {:induction false} MeasuredKeeps(host: Host, measures: seq<Measure>, group: seq<Row>, input: Shape, row: Row,
      name: string)
    requires Measured(host, measures, group, input, row).Success? && forall m | m in measures :: m.name != name
    ensures var r := Measured(host, measures, group, input, row).value; name in row ==>
            name in r
            && r[name] == row[name]
    decreases measures
  {
    if measures != [] {
      var v := MeasureValue(host, measures[0], group, input).value;
      MeasuredKeeps(host, measures[1..], group, input, row[measures[0].name := v], name);
    }
  }

  lemma {:induction false} MeasuredAt(host: Host, measures: seq<Measure>, group: seq<Row>, input: Shape, row: Row,
      k: nat)
    requires Measured(host, measures, group, input, row).Success? && k < |measures|
    requires forall i, j | 0 <= i < j < |measures| :: measures[i].name != measures[j].name
    ensures var r := Measured(host, measures, group, input, row).value;
            measures[k].name in r && MeasureValue(host, measures[k], group, input) == Success(r[measures[k].name])
    decreases measures
  {
    var v := MeasureValue(host, measures[0], group, input).value;
    if k == 0 {
      MeasuredKeeps(host, measures[1..], group, input, row[measures[0].name := v], measures[0].name);
    } else {
      MeasuredAt(host, measures[1..], group, input, row[measures[0].name := v], k - 1);
    }
  }

  ghost function SumOfColumn(rows: seq<Row>, name: string): real {
    if rows == [] then 0.0 else Reading(Column(rows[0], name)) + SumOfColumn(rows[1..], name)
  }

  lemma {:induction false} ColumnIsWeights(host: Host, keys: seq<GroupKey>, rows: seq<Row>, groupBy: seq<string>,
      measures: seq<Measure>, input: Shape, k: nat)
    requires forall key | key in keys :: Members(rows, groupBy, key) != []
    requires k < |measures| && (measures[k].op.CountRows? || (measures[k].op.SumOf? && measures[k].field.Some?))
    requires forall i, j | 0 <= i < j < |measures| :: measures[i].name != measures[j].name
    requires RowsOfKeys(host, keys, rows, groupBy, measures, input).Success?
    ensures var out := RowsOfKeys(host, keys, rows, groupBy, measures, input).value;
            && |out| == |keys|
            && SumOfColumn(out, measures[k].name) == WeighGroups(keys, rows, groupBy, Contribution(measures[k]))
  {
    if keys != [] {
      hide MeasureValue, Members, Reading, Contribution;
      var group := Members(rows, groupBy, keys[0]);
      var start: Row := map name | name in groupBy :: Column(group[0], name);
      MeasuredAt(host, measures, group, input, start, k);
      MeasureIsWeight(host, measures[k], group, input);
      ColumnIsWeights(host, keys[1..], rows, groupBy, measures, input, k);
      var out := RowsOfKeys(host, keys, rows, groupBy, measures, input).value;
      assert out[1..] == RowsOfKeys(host, keys[1..], rows, groupBy, measures, input).value;
    }
  }

  /** Over a whole Aggregate: the printed counts add up to the number of input rows, and the printed
      per-group sums add up exactly to the sum of the input column. */
  lemma AggregateConserves(host: Host, rows: seq<Row>, groupBy: seq<string>, measures: seq<Measure>, input: Shape,
      k: nat)
    requires k < |measures| && forall i, j | 0 <= i < j < |measures| :: measures[i].name != measures[j].name
    requires measures[k].op.CountRows? || (measures[k].op.SumOf? && measures[k].field.Some?)
    requires AggregateRows(host, rows, groupBy, measures, input).Success?
    ensures var out := AggregateRows(host, rows, groupBy, measures, input).value;
            SumOfColumn(out, measures[k].name) == if measures[k].op.CountRows? then |rows| as real
              else SumOfColumn(rows, measures[k].field.value)
  {
    KeysHaveMembers(rows, groupBy);
    ColumnIsWeights(host, Keys(rows, groupBy), rows, groupBy, measures, input, k);
    GroupsPartition(rows, groupBy, Contribution(measures[k]));
    if measures[k].op.CountRows? {
      CountIsWeight(rows, measures[k]);
    } else {
      ColumnWeight(rows, measures[k]);
    }
  }

  lemma {:induction false} ColumnWeight(rows: seq<Row>, m: Measure)
    requires m.op.SumOf? && m.field.Some?
    ensures Weigh(rows, Contribution(m)) == SumOfColumn(rows, m.field.value)
  {
    if rows != [] {
      ColumnWeight(rows[1..], m);
    }
  }
}
