/** What the operators of a plan compute (deployments/runtime.ts, dag/filter.ts, dag/map.ts), row by row and value
    by value: which rows a filter, a union and a join give and in which order, and what their columns hold. */
module OperatorMeaning {
  import opened Wrappers
  import opened Values
  import opened Ordering
  import opened Filtering
  import opened Expressions
  import opened Maps
  import opened Sorting
  import opened Aggregation
  import opened Joins
  import opened Operators
  import Decimals
  import Digits
  import TopK

  // ---------------------------------------------------------------- filters

  /** Positions in a list, one after the other. */
  ghost predicate Ascending(positions: seq<nat>, n: nat) {
    && (forall k | 0 <= k < |positions| :: positions[k] < n)
    && forall j, k | 0 <= j < k < |positions| :: positions[j] < positions[k]
  }

  /** The list is the rows at the positions, and the positions are those of the rows with the property. */
  ghost predicate Selects(rows: seq<Row>, has: Row -> bool, out: seq<Row>, positions: seq<nat>) {
    && Ascending(positions, |rows|) && |out| == |positions|
    && (forall k | 0 <= k < |out| :: out[k] == rows[positions[k]])
    && forall i: nat | i < |rows| :: i in positions <==> has(rows[i])
  }

  lemma SelectsNext(init: seq<Row>, last: Row, has: Row -> bool, out: seq<Row>, positions: seq<nat>)
    requires Selects(init, has, out, positions)
    ensures if has(last) then Selects(init + [last], has, out + [last], positions + [|init|])
            else Selects(init + [last], has, out, positions)
  {
    var n := |init|;
    assert n !in positions;
    assert forall i: nat | i < n :: (init + [last])[i] == init[i] && (i in positions + [n] <==> i in positions);
  }

  function Kept(keep: Row -> Try<bool>): Row -> bool {
    row => keep(row) == Success(true)
  }

  function WithKey(groupBy: seq<string>, key: GroupKey): Row -> bool {
    row => GroupKeyOf(row, groupBy) == key
  }

  /** A filter returns exactly the rows it keeps, in their order. */
  lemma {:induction false} FilterKeepsInOrder(rows: seq<Row>, keep: Row -> Try<bool>) returns (positions: seq<nat>)
    requires TryFilter(rows, keep).Success?
    ensures Selects(rows, Kept(keep), TryFilter(rows, keep).value, positions)
  {
    if rows == [] {
      positions := [];
    } else {
      hide Selects, TryFilter;
      var n := |rows| - 1;
      assert rows == rows[..n] + [rows[n]];
      TryFilterAppend(rows[..n], rows[n], keep);
      positions := FilterKeepsInOrder(rows[..n], keep);
      SelectsNext(rows[..n], rows[n], Kept(keep), TryFilter(rows[..n], keep).value, positions);
      if keep(rows[n]).value {
        positions := positions + [n];
      }
    }
  }

  lemma {:induction false} TryFilterAppend(init: seq<Row>, last: Row, keep: Row -> Try<bool>)
    requires TryFilter(init + [last], keep).Success?
    ensures TryFilter(init, keep).Success? && keep(last).Success?
    ensures TryFilter(init + [last], keep).value == TryFilter(init, keep).value + (if keep(last).value then [last]
            else [])
  {
    if init == [] {
      assert (init + [last])[1..] == [] && TryFilter([], keep) == Success([]);
    } else {
      assert (init + [last])[1..] == init[1..] + [last];
      TryFilterAppend(init[1..], last, keep);
    }
  }

  /** The condition holds of the row. */
  ghost predicate Satisfies(host: Host, row: Row, c: Condition, shape: Shape) {
    var f := Lookup(shape, c.field);
    f.Some? && EvaluateCondition(host, row, c, f.value) == Success(true)
  }

  lemma {:induction false} ResultsAre(host: Host, row: Row, conditions: seq<Condition>, shape: Shape)
    requires EvaluateConditions(host, row, conditions, shape).Success?
    ensures var results := EvaluateConditions(host, row, conditions, shape).value;
            |results| == |conditions| && forall i | 0 <= i < |results| ::
              results[i] <==> Satisfies(host, row, conditions[i], shape)
  {
    if conditions != [] {
      hide EvaluateCondition;
      ResultsAre(host, row, conditions[1..], shape);
    }
  }

  /** A predicate keeps the rows that satisfy all of its conditions, or one of them, as its combinator says. */
  lemma PredicateMeans(host: Host, p: Predicate, shape: Shape, row: Row)
    requires KeepRow(host, p, shape, row).Success?
    ensures KeepRow(host, p, shape, row).value <==>
              if p.combinator.All? then forall c | c in p.conditions :: Satisfies(host, row, c, shape)
              else exists c :: c in p.conditions && Satisfies(host, row, c, shape)
  {
    hide EvaluateConditions, Satisfies;
    ResultsAre(host, row, p.conditions, shape);
    var results := EvaluateConditions(host, row, p.conditions, shape).value;
    assert forall i | 0 <= i < |results| :: results[i] in results && p.conditions[i] in p.conditions;
  }

  /** One condition, by what the row's value and the literals stand for at the type of the column. */
  lemma ConditionMeans(host: Host, row: Row, c: Condition, f: Field)
    requires c.field in row && EvaluateCondition(host, row, c, f).Success?
    ensures var v, b := row[c.field], EvaluateCondition(host, row, c, f).value;
            var x := KeyOf(host, f.ty, v);
            match c.op
            case IsNull => b <==> Missing(v)
            case IsNotNull => b <==> !Missing(v)
            case In => c.values.Some? ==>
              (b <==> !Missing(v) && exists w | w in c.values.value :: x == KeyOf(host, f.ty, w))
            case NotIn => c.values.Some? ==>
              (b <==> !Missing(v) && forall w | w in c.values.value :: x != KeyOf(host, f.ty, w))
            case Between => c.values.Some? && |c.values.value| == 2 ==>
              var low, high := KeyOf(host, f.ty, c.values.value[0]), KeyOf(host, f.ty, c.values.value[1]);
              (b <==> !Missing(v) && !KeyLess(x, low) && !KeyLess(high, x))
            case _ => c.value.Some? ==>
              var y := KeyOf(host, f.ty, c.value.value);
              (b <==> !Missing(v) && match c.op
                 case Eq => x == y
                 case Ne => x != y
                 case Lt => KeyLess(x, y)
                 case Lte => !KeyLess(y, x)
                 case Gt => KeyLess(y, x)
                 case _ => !KeyLess(x, y))
  {
    hide CompareSemanticValues, KeyOf, KeyLess, SomeEqual, KeyCompare;
    var v := row[c.field];
    if !Missing(v) {
      if c.op.In? || c.op.NotIn? {
        SomeEqualMeans(host, f.ty, v, c.values.GetOr([]));
      } else if c.op.Between? {
        if c.values.Some? && |c.values.value| == 2 {
          var low, high := c.values.value[0], c.values.value[1];
          PairMeans(host, f.ty, v, low);
          PairMeans(host, f.ty, v, high);
          BetweenMeans(host, row, c, f);
        }
      } else if c.value.Some? {
        PairMeans(host, f.ty, v, c.value.value);
      }
    }
  }

  lemma PairMeans(host: Host, ty: FieldType, v: Value, w: Value)
    ensures var x, y, r := KeyOf(host, ty, v), KeyOf(host, ty, w), CompareSemanticValues(host, ty, v, w);
            && !(KeyLess(x, y) && KeyLess(y, x)) && (x == y ==> !KeyLess(x, y))
            && (r.Success? ==>
                  && (r.value < 0 <==> KeyLess(x, y)) && (r.value > 0 <==> KeyLess(y, x)) && (r.value == 0 <==> x == y))
  {
    hide CompareSemanticValues, KeyOf, KeyLess;
    ComparisonIsKeyOrder(host, ty, v, w);
    KeyOrder(KeyOf(host, ty, v), KeyOf(host, ty, w));
  }

  lemma BetweenMeans(host: Host, row: Row, c: Condition, f: Field)
    requires c.field in row && c.op.Between? && c.values.Some? && |c.values.value| == 2 && !Missing(row[c.field])
    requires EvaluateCondition(host, row, c, f).Success?
    ensures var v := row[c.field];
            var low, high := CompareSemanticValues(host, f.ty, v, c.values.value[0]),
              CompareSemanticValues(host, f.ty, v, c.values.value[1]);
            && low.Success? && (low.value >= 0 ==> high.Success?)
            && (EvaluateCondition(host, row, c, f).value <==> low.value >= 0 && high.value <= 0)
  {
    hide CompareSemanticValues;
  }

  lemma {:induction false} SomeEqualMeans(host: Host, ty: FieldType, v: Value, values: seq<Value>)
    requires SomeEqual(host, ty, v, values).Success?
    ensures SomeEqual(host, ty, v, values).value <==> exists w | w in values :: KeyOf(host, ty, v) == KeyOf(host, ty, w)
  {
    if values != [] {
      hide CompareSemanticValues, KeyOf, KeyLess;
      assert values == [values[0]] + values[1..];
      PairMeans(host, ty, v, values[0]);
      if CompareSemanticValues(host, ty, v, values[0]).value != 0 {
        SomeEqualMeans(host, ty, v, values[1..]);
      }
    }
  }

  // ---------------------------------------------------------------- maps

  lemma {:induction false} AssignedAt(host: Host, row: Row, definitions: seq<Definition>, shape: Shape, output: Row,
      k: nat)
    requires Assign(host, row, definitions, shape, output).Success? && k < |definitions|
    requires forall i, j | 0 <= i < j < |definitions| :: definitions[i].name != definitions[j].name
    ensures var out := Assign(host, row, definitions, shape, output).value;
            definitions[k].name in out && Evaluate(host, definitions[k].expr, row, shape) ==
              Success(out[definitions[k].name])
    decreases definitions
  {
    hide Evaluate;
    var v := Evaluate(host, definitions[0].expr, row, shape).value;
    var next := output[definitions[0].name := v];
    if k == 0 {
      AssignKeeps(host, row, definitions[1..], shape, next, definitions[0].name);
    } else {
      AssignedAt(host, row, definitions[1..], shape, next, k - 1);
    }
  }

  lemma {:induction false} AssignKeeps(host: Host, row: Row, definitions: seq<Definition>, shape: Shape, output: Row,
      name: string)
    requires Assign(host, row, definitions, shape, output).Success? && forall d | d in definitions :: d.name != name
    ensures var out := Assign(host, row, definitions, shape, output).value;
            (name in out <==> name in output) && (name in output ==> out[name] == output[name])
    decreases definitions
  {
    if definitions != [] {
      hide Evaluate;
      assert definitions[0] in definitions && forall d | d in definitions[1..] :: d in definitions;
      AssignKeeps(host, row, definitions[1..], shape,
        output[definitions[0].name := Evaluate(host, definitions[0].expr, row, shape).value], name);
    }
  }

  /** A Map gives one row per row, in order: every defined column holds the value of its expression on the input row,
      an extending Map keeps the other columns, a projecting one has no others. */
  lemma MapMeans(host: Host, rows: seq<Row>, config: MapConfig, shape: Shape, i: nat)
    requires MapRows(host, rows, config, shape).Success? && i < |rows|
    ensures |MapRows(host, rows, config, shape).value| == |rows|
    ensures var out := MapRows(host, rows, config, shape).value[i];
            && (forall d | d in config.fields ::
                  d.name in out && Evaluate(host, d.expr, rows[i], shape) == Success(out[d.name]))
            && (forall name | forall d | d in config.fields :: d.name != name ::
                  && (name in out <==> config.mode.Extend? && name in rows[i])
                  && (name in out ==> out[name] == rows[i][name]))
  {
    hide Evaluate, Assign;
    var out := MapRows(host, rows, config, shape).value[i];
    var start := if config.mode.Extend? then rows[i] else map[];
    assert Mapper(host, config, shape)(rows[i]) == Success(out);
    assert Assign(host, rows[i], config.fields, shape, start) == Success(out);
    forall d | d in config.fields
      ensures d.name in out && Evaluate(host, d.expr, rows[i], shape) == Success(out[d.name])
    {
      var k: nat :| k < |config.fields| && config.fields[k] == d;
      AssignedAt(host, rows[i], config.fields, shape, start, k);
    }
    forall name | forall d | d in config.fields :: d.name != name
      ensures name in out <==> config.mode.Extend? && name in rows[i]
      ensures name in out ==> out[name] == rows[i][name]
    {
      AssignKeeps(host, rows[i], config.fields, shape, start, name);
    }
  }

  // ---------------------------------------------------------------- sorts, unions, outputs

  /** A sort gives a first stretch of the stable sort, as long as its limit says. */
  lemma SortMeans(host: Host, rows: seq<Row>, config: SortConfig, shape: Shape)
    requires ValidSort(config, shape)
    ensures var out := Sorted(host, rows, config, shape);
            && out <= StableSort(host, rows, config.orderBy, shape)
            && |out| == if config.limit.Some? && config.limit.value < |rows| then config.limit.value else |rows|
  {
    StableSortIsStable(host, rows, config.orderBy, shape);
    SameLength(StableSort(host, rows, config.orderBy, shape), rows, host, config.orderBy, shape);
  }

  lemma SameLength(sorted: seq<Row>, rows: seq<Row>, host: Host, orderBy: seq<SortKey>, shape: Shape)
    requires sorted == StableSort(host, rows, orderBy, shape)
    ensures |sorted| == |rows|
  {
    StableSortIsStable(host, rows, orderBy, shape);
    var d := TopK.Sort(RowOrder(host, orderBy, shape), Decorate(rows));
    assert |multiset(d)| == |d| && |multiset(Decorate(rows))| == |rows|;
  }

  /** A union is the left rows, then the right rows, each with its side's name if a discriminator was asked for. */
  lemma UnionMeans(host: Host, discriminator: Option<string>, left: Table, right: Table, lenient: bool)
    ensures Run(host, Union(discriminator), [left, right], lenient).Success?
    ensures var out := Run(host, Union(discriminator), [left, right], lenient).value.rows;
            && |out| == |left.rows| + |right.rows|
            && (forall i | 0 <= i < |left.rows| ::
                  out[i] == if discriminator.Some? then left.rows[i][discriminator.value := Text("left")]
                    else left.rows[i])
            && (forall i | 0 <= i < |right.rows| ::
                  out[|left.rows| + i] ==
                  if discriminator.Some? then right.rows[i][discriminator.value := Text("right")] else right.rows[i])
  {
  }

  lemma {:induction false} PickedFields(shape: Shape, fields: seq<string>)
    ensures forall f :: f in PickShape(shape, fields) <==> f in shape && f.name in fields
  {
    if shape != [] {
      assert shape == [shape[0]] + shape[1..];
      PickedFields(shape[1..], fields);
    }
  }

  /** An Output hands on every row in order, cut to the listed columns, and so its shape. */
  lemma OutputMeans(host: Host, fields: seq<string>, input: Table, lenient: bool, i: nat)
    requires i < |input.rows|
    ensures Run(host, Output(fields), [input], lenient).Success?
    ensures |Run(host, Output(fields), [input], lenient).value.rows| == |input.rows|
    ensures var out := Run(host, Output(fields), [input], lenient).value.rows[i];
            && out.Keys == (set name | name in fields)
            && forall name | name in fields :: out[name] == if name in input.rows[i] then input.rows[i][name]
              else Undefined
    ensures forall f :: f in Run(host, Output(fields), [input], lenient).value.shape <==>
            f in input.shape && f.name in fields
  {
    PickedFields(input.shape, fields);
  }

  // ---------------------------------------------------------------- joins

  /** The keys of a left and a right row are equal, null and missing being the same. */
  ghost predicate SameKeys(config: JoinConfig, left: Row, right: Row) {
    forall k | k in config.keys ::
      var u, v := Column(left, k.left), Column(right, k.right);
      u == v || (Missing(u) && Missing(v))
  }

  lemma MatchesMeans(config: JoinConfig, left: Row, right: Row)
    ensures Matches(config, left, right) <==> SameKeys(config, left, right)
  {
    var a, b := GroupKeyOf(left, LeftNames(config.keys)), GroupKeyOf(right, RightNames(config.keys));
    if SameKeys(config, left, right) {
      forall i | 0 <= i < |config.keys|
        ensures a[i] == b[i]
      {
        assert config.keys[i] in config.keys;
      }
    }
    if a == b {
      forall k | k in config.keys
        ensures var u, v := Column(left, k.left), Column(right, k.right); u == v || (Missing(u) && Missing(v))
      {
        var i :| 0 <= i < |config.keys| && config.keys[i] == k;
        assert a[i] == b[i];
      }
    }
  }

  /** Row by row. */
  lemma {:induction false} JoinDistributes(a: seq<Row>, b: seq<Row>, right: seq<Row>, config: JoinConfig)
    ensures JoinRows(a + b, right, config) == JoinRows(a, right, config) + JoinRows(b, right, config)
  {
    hide JoinedRow;
    if a == [] {
      assert a + b == b && JoinRows(a, right, config) + JoinRows(b, right, config) == JoinRows(b, right, config);
    } else {
      assert (a + b)[1..] == a[1..] + b;
      JoinDistributes(a[1..], b, right, config);
    }
  }

  /** A right key column of a name that the left row has too. */
  ghost predicate Repeated(config: JoinConfig, left: Row, name: string) {
    name in left && exists k | k in config.keys :: k.right == name
  }

  /** The columns of a joined row. */
  ghost predicate Combines(config: JoinConfig, left: Row, right: Row, out: Row) {
    && (forall name | name in right && !Repeated(config, left, name) ::
          config.prefix + name in out && out[config.prefix + name] == right[name])
    && (forall name | name in left && !(exists other | other in right :: config.prefix + other == name) ::
          name in out && out[name] == left[name])
    && forall name | name in out && name !in left :: exists other | other in right :: config.prefix + other == name
  }

  /** What one left row contributes: the last right row with its keys decides. The joined row has the left columns and,
      under the prefix, the right ones but for key columns that the left row has already. */
  lemma JoinMeans(left: Row, right: seq<Row>, config: JoinConfig, last: nat)
    requires last <= |right| && forall j | last < j < |right| :: !SameKeys(config, left, right[j])
    requires last < |right| ==> SameKeys(config, left, right[last])
    requires last == |right| ==> forall j | 0 <= j < |right| :: !SameKeys(config, left, right[j])
    ensures last == |right| ==> JoinRows([left], right, config) == if config.kind.Inner? then [] else [left]
    ensures last < |right| ==>
              && |JoinRows([left], right, config)| == 1
              && Combines(config, left, right[last], JoinRows([left], right, config)[0])
  {
    hide GroupKeyOf, SameKeys;
    LastIs(left, right, config, last);
    assert [left][1..] == [] && JoinRows([], right, config) == [];
    assert JoinRows([left], right, config) == JoinedRow(left, right, config) + [];
    if last < |right| {
      MergeMeans(config, left, right[last]);
    }
  }

  lemma MergeMeans(config: JoinConfig, left: Row, right: Row)
    ensures Combines(config, left, right, Merge(config, left, right))
  {
    forall name | name in right && !Repeated(config, left, name)
      ensures Copied(config, left, name)
    {
      if name in RightNames(config.keys) {
        var i :| 0 <= i < |config.keys| && config.keys[i].right == name;
        assert config.keys[i] in config.keys;
      }
    }
  }

  lemma {:induction false} LastIs(left: Row, right: seq<Row>, config: JoinConfig, last: nat)
    requires last <= |right| && forall j | last < j < |right| :: !SameKeys(config, left, right[j])
    requires last < |right| ==> SameKeys(config, left, right[last])
    requires last == |right| ==> forall j | 0 <= j < |right| :: !SameKeys(config, left, right[j])
    ensures FindLast(right, RightNames(config.keys), GroupKeyOf(left, LeftNames(config.keys))) ==
              if last < |right| then Some(right[last]) else None
  {
    hide GroupKeyOf, SameKeys;
    if right != [] {
      var n := |right| - 1;
      MatchesMeans(config, left, right[n]);
      if last != n {
        LastIs(left, right[..n], config, if last == |right| then n else last);
      }
    }
  }

  // ---------------------------------------------------------------- aggregates

  lemma {:induction false} RowOfKey(host: Host, keys: seq<GroupKey>, rows: seq<Row>, groupBy: seq<string>,
      measures: seq<Measure>, input: Shape, k: nat)
    requires forall key | key in keys :: Members(rows, groupBy, key) != []
    requires RowsOfKeys(host, keys, rows, groupBy, measures, input).Success? && k < |keys|
    ensures var out := RowsOfKeys(host, keys, rows, groupBy, measures, input).value;
            && |out| == |keys|
            && GroupRow(host, Members(rows, groupBy, keys[k]), groupBy, measures, input) == Success(out[k])
  {
    hide GroupRow, Members;
    if k > 0 {
      RowOfKey(host, keys[1..], rows, groupBy, measures, input, k - 1);
    } else if |keys| > 1 {
      RowOfKey(host, keys[1..], rows, groupBy, measures, input, 0);
    }
  }

  /** The members of a group are exactly the rows with its key, in their order. */
  lemma {:induction false} GroupKeepsInOrder(rows: seq<Row>, groupBy: seq<string>, key: GroupKey)
      returns (positions: seq<nat>)
    ensures Selects(rows, WithKey(groupBy, key), Members(rows, groupBy, key), positions)
  {
    if rows == [] {
      positions := [];
    } else {
      hide GroupKeyOf, Selects;
      var n := |rows| - 1;
      assert rows == rows[..n] + [rows[n]];
      positions := GroupKeepsInOrder(rows[..n], groupBy, key);
      SelectsNext(rows[..n], rows[n], WithKey(groupBy, key), Members(rows[..n], groupBy, key), positions);
      if GroupKeyOf(rows[n], groupBy) == key {
        positions := positions + [n];
      }
    }
  }

  lemma {:induction false} HasKey(rows: seq<Row>, groupBy: seq<string>, key: GroupKey)
    ensures key in Keys(rows, groupBy) <==> exists i :: 0 <= i < |rows| && GroupKeyOf(rows[i], groupBy) == key
  {
    hide GroupKeyOf;
    if rows != [] {
      var n := |rows| - 1;
      HasKey(rows[..n], groupBy, key);
      assert forall i | 0 <= i < n :: rows[..n][i] == rows[i];
      assert (exists i :: 0 <= i < |rows| && GroupKeyOf(rows[i], groupBy) == key) <==>
             || GroupKeyOf(rows[n], groupBy) == key
             || exists i :: 0 <= i < n && GroupKeyOf(rows[..n][i], groupBy) == key;
    }
  }

  /** The groups come in the order of their first rows: a row of the earlier group comes before every row of the later
      one. */
  lemma {:induction false} GroupsByFirstRow(rows: seq<Row>, groupBy: seq<string>, k: nat, l: nat) returns (first: nat)
    requires k < l < |Keys(rows, groupBy)|
    ensures first < |rows| && GroupKeyOf(rows[first], groupBy) == Keys(rows, groupBy)[k]
    ensures forall j | 0 <= j <= first :: GroupKeyOf(rows[j], groupBy) != Keys(rows, groupBy)[l]
  {
    hide GroupKeyOf;
    var n := |rows| - 1;
    var before := Keys(rows[..n], groupBy);
    if l < |before| {
      first := GroupsByFirstRow(rows[..n], groupBy, k, l);
      assert forall j | 0 <= j <= first :: rows[..n][j] == rows[j];
    } else {
      HasKey(rows[..n], groupBy, before[k]);
      HasKey(rows[..n], groupBy, Keys(rows, groupBy)[l]);
      first :| 0 <= first < n && GroupKeyOf(rows[..n][first], groupBy) == before[k];
      assert forall j | 0 <= j < n :: rows[..n][j] == rows[j];
    }
  }

  /** One output row per group, in the order of their keys: the group columns are those of its first row, every other
      column the value of its measure over the rows of the group. */
  lemma AggregateMeans(host: Host, rows: seq<Row>, groupBy: seq<string>, measures: seq<Measure>, input: Shape, k: nat)
    requires AggregateRows(host, rows, groupBy, measures, input).Success? && k < |Keys(rows, groupBy)|
    requires forall i, j | 0 <= i < j < |measures| :: measures[i].name != measures[j].name
    ensures |AggregateRows(host, rows, groupBy, measures, input).value| == |Keys(rows, groupBy)|
    ensures var out, group := AggregateRows(host, rows, groupBy, measures, input).value[k],
            Members(rows, groupBy, Keys(rows, groupBy)[k]);
            && group != []
            && (forall name | name in groupBy && forall m | m in measures :: m.name != name ::
                  name in out && out[name] == Column(group[0], name))
            && forall m | m in measures :: m.name in out && MeasureValue(host, m, group, input) == Success(out[m.name])
  {
    hide Members, MeasureValue, Keys;
    KeysHaveMembers(rows, groupBy);
    var keys := Keys(rows, groupBy);
    RowOfKey(host, keys, rows, groupBy, measures, input, k);
    var group := Members(rows, groupBy, keys[k]);
    assert keys[k] in keys;
    var out := AggregateRows(host, rows, groupBy, measures, input).value[k];
    var start: Row := map name | name in groupBy :: Column(group[0], name);
    forall name | name in groupBy && forall m | m in measures :: m.name != name
      ensures name in out && out[name] == Column(group[0], name)
    {
      MeasuredKeeps(host, measures, group, input, start, name);
    }
    forall m | m in measures
      ensures m.name in out && MeasureValue(host, m, group, input) == Success(out[m.name])
    {
      var i: nat :| i < |measures| && measures[i] == m;
      MeasuredAt(host, measures, group, input, start, i);
    }
  }

  /** The values of a column that are not missing. */
  ghost predicate InColumn(group: seq<Row>, name: string, v: Value) {
    !Missing(v) && exists row | row in group :: Column(row, name) == v
  }

  lemma {:induction false} PresentInColumn(group: seq<Row>, name: string)
    ensures forall v :: v in Present(ColumnOf(group, name)) <==> InColumn(group, name, v)
  {
    if group != [] {
      var values := ColumnOf(group, name);
      assert values[1..] == ColumnOf(group[1..], name) && group == [group[0]] + group[1..];
      PresentInColumn(group[1..], name);
    }
  }

  /** min is a least value of the column, max a greatest, in the order of the column's type; null if all are missing. */
  lemma ExtremeMeans(host: Host, m: Measure, group: seq<Row>, input: Shape, f: Field)
    requires m.op.MinOf? || m.op.MaxOf?
    requires m.field.Some? && Lookup(input, m.field.value) == Some(f) && MeasureValue(host, m, group, input).Success?
    ensures var r := MeasureValue(host, m, group, input).value;
            if forall v :: !InColumn(group, f.name, v) then r == Null
            else
              && InColumn(group, f.name, r)
              && forall v | InColumn(group, f.name, v) ::
                   if m.op.MinOf? then !KeyLess(KeyOf(host, f.ty, v), KeyOf(host, f.ty, r))
                   else !KeyLess(KeyOf(host, f.ty, r), KeyOf(host, f.ty, v))
  {
    hide Present, KeyOf, KeyLess, Select, InColumn;
    PresentInColumn(group, f.name);
    var values := Present(ColumnOf(group, f.name));
    if values != [] {
      assert values[0] in values && values == [values[0]] + values[1..];
      SelectMeans(host, f.ty, m.op.MinOf?, values[0], values[1..]);
    }
  }

  lemma {:induction false} SelectMeans(host: Host, ty: FieldType, least: bool, selected: Value, values: seq<Value>)
    requires Select(host, ty, least, selected, values).Success?
    ensures var r := Select(host, ty, least, selected, values).value;
            && (r == selected || r in values)
            && forall v | v == selected || v in values ::
                 if least then !KeyLess(KeyOf(host, ty, v), KeyOf(host, ty, r))
                 else !KeyLess(KeyOf(host, ty, r), KeyOf(host, ty, v))
    decreases values
  {
    hide CompareSemanticValues, KeyOf, KeyLess;
    if values == [] {
      PairMeans(host, ty, selected, selected);
    } else {
      assert values == [values[0]] + values[1..];
      var c := CompareSemanticValues(host, ty, values[0], selected).value;
      var next := if (if least then c < 0 else c > 0) then values[0] else selected;
      SelectMeans(host, ty, least, next, values[1..]);
      var r := Select(host, ty, least, selected, values).value;
      PairMeans(host, ty, values[0], selected);
      Between(host, ty, r, next, selected);
      Between(host, ty, r, next, values[0]);
      Between(host, ty, selected, next, r);
      Between(host, ty, values[0], next, r);
    }
  }

  /** The order is total: what is not beaten by the middle is not beaten at all. */
  lemma Between(host: Host, ty: FieldType, a: Value, b: Value, c: Value)
    ensures var x, y, z := KeyOf(host, ty, a), KeyOf(host, ty, b), KeyOf(host, ty, c);
            KeyLess(x, z) ==> KeyLess(x, y) || KeyLess(y, z)
  {
    hide KeyOf, KeyLess;
    var x, y, z := KeyOf(host, ty, a), KeyOf(host, ty, b), KeyOf(host, ty, c);
    KeyOrder(x, y);
    KeyOrder(y, z);
    if KeyLess(y, x) && KeyLess(x, z) {
      KeyTransitive(y, x, z);
    }
  }

  /** count_rows and count_distinct. */
  lemma CountsMean(host: Host, m: Measure, group: seq<Row>, input: Shape)
    requires m.op.CountRows? || (m.op.CountDistinct? && m.field.Some?)
    ensures MeasureValue(host, m, group, input).Success?
    ensures m.op.CountRows? ==> Reading(MeasureValue(host, m, group, input).value) == |group| as real
    ensures m.op.CountDistinct? ==> exists distinct: set<Value> ::
              && (forall v :: v in distinct <==> InColumn(group, m.field.value, v))
              && Reading(MeasureValue(host, m, group, input).value) == |distinct| as real
  {
    hide Present, InColumn, Reading, Digits.TextOf;
    if m.op.CountRows? {
      CountReadsBack(|group|);
    } else {
      PresentInColumn(group, m.field.value);
      var values := Present(ColumnOf(group, m.field.value));
      var distinct := set v | v in values;
      CountReadsBack(|distinct|);
    }
  }

  /** How many values of a column are not missing. */
  ghost function PresentCount(group: seq<Row>, name: string): nat {
    if group == [] then 0 else (if Missing(Column(group[0], name)) then 0 else 1) + PresentCount(group[1..], name)
  }

  lemma {:induction false} CountIsPresent(group: seq<Row>, name: string)
    ensures |Present(ColumnOf(group, name))| == PresentCount(group, name)
  {
    if group != [] {
      assert ColumnOf(group, name)[1..] == ColumnOf(group[1..], name);
      CountIsPresent(group[1..], name);
    }
  }

  /** average is the sum of the column over the number of its present values, to half a unit of its last digit, of which
      there are at least six; null if all are missing. */
  lemma AverageMeans(host: Host, m: Measure, group: seq<Row>, input: Shape)
    requires m.op.AverageOf? && m.field.Some? && MeasureValue(host, m, group, input).Success?
    ensures PresentCount(group, m.field.value) == 0 ==> MeasureValue(host, m, group, input).value == Null
    ensures PresentCount(group, m.field.value) > 0 ==> exists r: Decimals.Decimal ::
              && Reading(MeasureValue(host, m, group, input).value) == Decimals.Value(r) && r.scale >= 6
              && -0.5 <= Decimals.ErrorOf(r, SumOfColumn(group, m.field.value) / PresentCount(group,
                m.field.value) as real) <= 0.5
  {
    hide Present, Decimals.Value, Decimals.Print, Decimals.Parse, Decimals.Average, SumFrom, PresentCount, SumOfColumn,
      Decimals.ErrorOf;
    CountIsPresent(group, m.field.value);
    var values := Present(ColumnOf(group, m.field.value));
    if values != [] {
      var sum := Measure("", SumOf, m.field);
      SumIsWeight(Decimals.Decimal(0, 0), group, sum);
      ColumnWeight(group, sum);
      Decimals.ValueIs(Decimals.Decimal(0, 0), 0.0);
      var total := SumFrom(Decimals.Decimal(0, 0), values).value;
      Decimals.AverageIsNearest(total, |values|);
      Decimals.ParsePrint(Decimals.Average(total, |values|));
    }
  }
}
