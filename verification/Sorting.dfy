/** Sort nodes (dag/sort.ts): the multi-key row comparator, the order it decides, and sortRows. */
module Sorting {
  import opened Wrappers
  import opened Values
  import opened Ordering
  import opened TopK

  datatype Direction = Asc | Desc

  datatype NullPlacement = First | Last

  datatype SortKey = SortKey(field: string, direction: Direction, nulls: NullPlacement)

  datatype SortConfig = SortConfig(orderBy: seq<SortKey>, limit: Option<int>)

  const MAX_ORDER_KEYS := 8
  const MAX_TOP_K := 10_000

  predicate ValidKey(k: SortKey, shape: Shape) {
    IsIdentifier(k.field) && Lookup(shape, k.field).Some? && !Lookup(shape, k.field).value.ty.JsonType?
  }

  predicate ValidSort(config: SortConfig, shape: Shape) {
    && 1 <= |config.orderBy| <= MAX_ORDER_KEYS
    && (config.limit.Some? ==> 1 <= config.limit.value <= MAX_TOP_K)
    && (forall k | k in config.orderBy :: ValidKey(k, shape))
    && forall i, j | 0 <= i < j < |config.orderBy| :: config.orderBy[i].field != config.orderBy[j].field
  }

  /** A row with its input position, which breaks ties and so makes the sort stable. */
  datatype Decorated = Decorated(row: Row, index: nat)

  function Decorate(rows: seq<Row>): (d: seq<Decorated>)
    ensures |d| == |rows| && forall i | 0 <= i < |d| :: d[i] == Decorated(rows[i], i)
  {
    seq(|rows|, i requires 0 <= i < |rows| => Decorated(rows[i], i))
  }

  function Undecorate(d: seq<Decorated>): (rows: seq<Row>)
    ensures |rows| == |d| && forall i | 0 <= i < |d| :: rows[i] == d[i].row
  {
    seq(|d|, i requires 0 <= i < |d| => d[i].row)
  }

  function RowValue(row: Row, f: Field): Try<Value> {
    if f.name !in row then Failure(MissingField(f.name))
    else if Missing(row[f.name]) && !f.nullable then Failure(UnexpectedNull(f.name))
    else Success(row[f.name])
  }

  function CompareRows(host: Host, left: Decorated, right: Decorated, orderBy: seq<SortKey>, shape: Shape): Try<int> {
    if orderBy == [] then Success(left.index - right.index)
    else
      var ordering, field := orderBy[0], Lookup(shape, orderBy[0].field);
      if field.None? then Failure(InvalidConfig("SORT_FIELD_UNKNOWN"))
      else
        var l :- RowValue(left.row, field.value);
        var r :- RowValue(right.row, field.value);
        if Missing(l) && Missing(r) then CompareRows(host, left, right, orderBy[1..], shape)
        else if Missing(l) || Missing(r) then Success(if Missing(l) == ordering.nulls.First? then -1 else 1)
        else
          var comparison :- CompareSemanticValues(host, field.value.ty, l, r);
          if comparison != 0 then Success(if ordering.direction.Asc? then comparison else -comparison)
          else CompareRows(host, left, right, orderBy[1..], shape)
  }

  // ---------------------------------------------------------------- the order the comparator decides

  /** What one sort key sees in a row; Absent covers exactly the rows on which it throws. */
  datatype Slot = Absent | NullSlot | Keyed(key: Key)

  ghost function SlotOf(host: Host, row: Row, shape: Shape, k: SortKey): Slot {
    var f := Lookup(shape, k.field);
    if f.None? || RowValue(row, f.value).Failure? then Absent
    else if Missing(row[k.field]) then NullSlot
    else Keyed(KeyOf(host, f.value.ty, row[k.field]))
  }

  ghost predicate SlotLess(k: SortKey, a: Slot, b: Slot) {
    match (a, b)
    case (Absent, _) => !b.Absent?
    case (_, Absent) => false
    case (NullSlot, NullSlot) => false
    case (NullSlot, Keyed(_)) => k.nulls.First?
    case (Keyed(_), NullSlot) => k.nulls.Last?
    case (Keyed(x), Keyed(y)) => if k.direction.Asc? then KeyLess(x, y) else KeyLess(y, x)
  }

  ghost predicate RowLess(host: Host, orderBy: seq<SortKey>, shape: Shape, a: Decorated, b: Decorated) {
    if orderBy == [] then a.index < b.index
    else
      var x, y := SlotOf(host, a.row, shape, orderBy[0]), SlotOf(host, b.row, shape, orderBy[0]);
      SlotLess(orderBy[0], x, y) || (!SlotLess(orderBy[0], y, x) && RowLess(host, orderBy[1..], shape, a, b))
  }

  ghost function RowOrder(host: Host, orderBy: seq<SortKey>, shape: Shape): Order<Decorated> {
    (a, b) => RowLess(host, orderBy, shape, a, b)
  }

  function RowComparator(host: Host, orderBy: seq<SortKey>, shape: Shape): Comparator<Decorated> {
    (a, b) => CompareRows(host, a, b, orderBy, shape)
  }

  lemma SlotOrder(k: SortKey, a: Slot, b: Slot, c: Slot)
    ensures SlotLess(k, a, b) ==> !SlotLess(k, b, a)
    ensures SlotLess(k, a, c) ==> SlotLess(k, a, b) || SlotLess(k, b, c)
  {
    hide KeyLess;
    if a.Keyed? && b.Keyed? {
      KeyOrder(a.key, b.key);
      if c.Keyed? {
        KeyOrder(b.key, c.key);
        if KeyLess(b.key, a.key) && KeyLess(a.key, c.key) { KeyTransitive(b.key, a.key, c.key); }
        if KeyLess(c.key, a.key) && KeyLess(a.key, b.key) { KeyTransitive(c.key, a.key, b.key); }
      }
    }
  }

  lemma {:induction false} RowLessOrder(host: Host, orderBy: seq<SortKey>, shape: Shape, a: Decorated, b: Decorated,
      c: Decorated)
    ensures RowLess(host, orderBy, shape, a, b) ==> !RowLess(host, orderBy, shape, b, a)
    ensures RowLess(host, orderBy, shape, a, c) ==>
            RowLess(host, orderBy, shape, a, b) || RowLess(host, orderBy, shape, b, c)
    ensures a.index != b.index ==> RowLess(host, orderBy, shape, a, b) || RowLess(host, orderBy, shape, b, a)
  {
    if orderBy != [] {
      hide SlotLess, SlotOf;
      var k := orderBy[0];
      var x, y, z := SlotOf(host, a.row, shape, k), SlotOf(host, b.row, shape, k), SlotOf(host, c.row, shape, k);
      SlotOrder(k, x, y, z);
      SlotOrder(k, y, x, z);
      SlotOrder(k, y, z, x);
      SlotOrder(k, z, x, y);
      RowLessOrder(host, orderBy[1..], shape, a, b, c);
    }
  }

  /** The values of one sort column can be compared in both rows. */
  ghost predicate Ranked(row: Row, k: SortKey, shape: Shape) {
    var f := Lookup(shape, k.field);
    f.Some? && k.field in row && (Missing(row[k.field]) ==> f.value.nullable)
  }

  /** Neither row comes first by this column: both lack it, or they hold equal values. */
  ghost predicate Ties(host: Host, k: SortKey, shape: Shape, a: Row, b: Row)
    requires Ranked(a, k, shape) && Ranked(b, k, shape)
  {
    if Missing(a[k.field]) || Missing(b[k.field]) then Missing(a[k.field]) && Missing(b[k.field])
    else
      var ty := Lookup(shape, k.field).value.ty;
      KeyOf(host, ty, a[k.field]) == KeyOf(host, ty, b[k.field])
  }

  /** One row comes first by this column: nulls where they were asked for, values in the asked direction. */
  ghost predicate ComesFirst(host: Host, k: SortKey, shape: Shape, a: Row, b: Row)
    requires Ranked(a, k, shape) && Ranked(b, k, shape)
  {
    if Missing(a[k.field]) then k.nulls.First? && !Missing(b[k.field])
    else if Missing(b[k.field]) then k.nulls.Last?
    else
      var ty := Lookup(shape, k.field).value.ty;
      if k.direction.Asc? then KeyLess(KeyOf(host, ty, a[k.field]), KeyOf(host, ty, b[k.field]))
      else KeyLess(KeyOf(host, ty, b[k.field]), KeyOf(host, ty, a[k.field]))
  }

  /** The row order, column by column: the first column that does not tie decides, the input position if all tie. */
  lemma {:induction false} RowLessIsLexicographic(host: Host, orderBy: seq<SortKey>, shape: Shape, a: Decorated,
      b: Decorated)
    requires forall k | k in orderBy :: Ranked(a.row, k, shape) && Ranked(b.row, k, shape)
    ensures RowLess(host, orderBy, shape, a, b) <==>
              || (exists q | 0 <= q < |orderBy| ::
                    ComesFirst(host, orderBy[q], shape, a.row, b.row)
                    && forall p | 0 <= p < q :: Ties(host, orderBy[p], shape, a.row, b.row))
              || (a.index < b.index && forall p | 0 <= p < |orderBy| :: Ties(host, orderBy[p], shape, a.row, b.row))
  {
    if orderBy != [] {
      hide KeyOf, KeyLess;
      var k, rest := orderBy[0], orderBy[1..];
      assert orderBy == [k] + rest && k in orderBy && forall x | x in rest :: x in orderBy;
      SlotSays(host, k, shape, a.row, b.row);
      RowLessIsLexicographic(host, rest, shape, a, b);
      hide SlotLess, SlotOf, ComesFirst, Ties, Ranked;
      assert forall q | 0 <= q < |rest| :: rest[q] == orderBy[q + 1];
      if ComesFirst(host, k, shape, a.row, b.row) {
        assert ComesFirst(host, orderBy[0], shape, a.row, b.row);
      } else if Ties(host, k, shape, a.row, b.row) {
        assert forall p | 1 <= p < |orderBy| :: orderBy[p] == rest[p - 1];
      }
    }
  }

  lemma SlotSays(host: Host, k: SortKey, shape: Shape, a: Row, b: Row)
    requires Ranked(a, k, shape) && Ranked(b, k, shape)
    ensures var x, y := SlotOf(host, a, shape, k), SlotOf(host, b, shape, k);
            && (SlotLess(k, x, y) <==> ComesFirst(host, k, shape, a, b))
            && (SlotLess(k, y, x) <==> ComesFirst(host, k, shape, b, a))
            && (Ties(host, k, shape, a, b) <==> !SlotLess(k, x, y) && !SlotLess(k, y, x))
  {
    hide KeyLess, KeyOf;
    var f := Lookup(shape, k.field).value;
    KeyOrder(KeyOf(host, f.ty, a[k.field]), KeyOf(host, f.ty, b[k.field]));
  }

  lemma RowOrderIsOrder(host: Host, orderBy: seq<SortKey>, shape: Shape)
    ensures IsOrder(RowOrder(host, orderBy, shape))
  {
    forall a: Decorated, b: Decorated, c: Decorated
      ensures RowLess(host, orderBy, shape, a, b) ==> !RowLess(host, orderBy, shape, b, a)
      ensures RowLess(host, orderBy, shape, a, c) ==>
              RowLess(host, orderBy, shape, a, b) || RowLess(host, orderBy, shape, b, c)
    {
      RowLessOrder(host, orderBy, shape, a, b, c);
    }
  }

  lemma DecoratedIsStrict(host: Host, orderBy: seq<SortKey>, shape: Shape, rows: seq<Row>)
    ensures Strict(RowOrder(host, orderBy, shape), Decorate(rows))
  {
    var d := Decorate(rows);
    forall i, j | 0 <= i < |d| && 0 <= j < |d| && i != j
      ensures RowLess(host, orderBy, shape, d[i], d[j]) || RowLess(host, orderBy, shape, d[j], d[i])
    {
      RowLessOrder(host, orderBy, shape, d[i], d[j], d[i]);
    }
  }

  /** One key of a comparison that answers: its sign is the order of the two slots. */
  lemma SlotComparison(host: Host, shape: Shape, k: SortKey, l: Row, r: Row)
    requires var f := Lookup(shape, k.field);
             f.Some? && RowValue(l, f.value).Success? && RowValue(r, f.value).Success?
    ensures var f := Lookup(shape, k.field).value;
            var x, y := SlotOf(host, l, shape, k), SlotOf(host, r, shape, k);
            var u, v := l[k.field], r[k.field];
            && (Missing(u) && Missing(v) ==> !SlotLess(k, x, y) && !SlotLess(k, y, x))
            && (Missing(u) != Missing(v) ==>
              (SlotLess(k, x, y) <==> Missing(u) == k.nulls.First?)
              && SlotLess(k, y, x) == !SlotLess(k, x, y))
            && (!Missing(u) && !Missing(v) ==>
                  var c := CompareSemanticValues(host, f.ty, u, v);
                  c.Success? ==>
                    && (SlotLess(k, x, y) <==> if k.direction.Asc? then c.value < 0 else c.value > 0)
                    && (SlotLess(k, y, x) <==> if k.direction.Asc? then c.value > 0 else c.value < 0))
  {
    hide KeyLess, KeyOf, CompareSemanticValues;
    var f := Lookup(shape, k.field).value;
    var u, v := l[k.field], r[k.field];
    ComparisonIsKeyOrder(host, f.ty, u, v);
    KeyOrder(KeyOf(host, f.ty, u), KeyOf(host, f.ty, v));
  }

  /** compareRows decides exactly the multi-key order, ties broken by input position. */
  lemma {:induction false} CompareRowsDecides(host: Host, a: Decorated, b: Decorated, orderBy: seq<SortKey>,
      shape: Shape)
    requires CompareRows(host, a, b, orderBy, shape).Success?
    ensures CompareRows(host, a, b, orderBy, shape).value < 0 <==> RowLess(host, orderBy, shape, a, b)
    ensures CompareRows(host, a, b, orderBy, shape).value > 0 <==> RowLess(host, orderBy, shape, b, a)
  {
    if orderBy != [] {
      hide SlotLess, SlotOf, CompareSemanticValues;
      SlotComparison(host, shape, orderBy[0], a.row, b.row);
      if CompareRows(host, a, b, orderBy[1..], shape).Success? {
        CompareRowsDecides(host, a, b, orderBy[1..], shape);
      }
    }
  }

  lemma ComparatorFollows(host: Host, orderBy: seq<SortKey>, shape: Shape)
    ensures Follows(RowComparator(host, orderBy, shape), RowOrder(host, orderBy, shape))
  {
    var compare, less := RowComparator(host, orderBy, shape), RowOrder(host, orderBy, shape);
    forall a: Decorated, b: Decorated | compare(a, b).Success?
      ensures (compare(a, b).value < 0 <==> less(a, b)) && (compare(a, b).value > 0 <==> less(b, a))
    {
      CompareRowsDecides(host, a, b, orderBy, shape);
    }
  }

  // ---------------------------------------------------------------- sortRows

  /** The full stable sort of the rows. */
  ghost function StableSort(host: Host, rows: seq<Row>, orderBy: seq<SortKey>, shape: Shape): seq<Row> {
    Undecorate(Sort(RowOrder(host, orderBy, shape), Decorate(rows)))
  }

  ghost function Take(rows: seq<Row>, limit: Option<int>): seq<Row> {
    if limit.Some? && 0 <= limit.value < |rows| then rows[..limit.value] else rows
  }

  /** What a Sort node means: the first K rows of the full stable sort. */
  ghost function Sorted(host: Host, rows: seq<Row>, config: SortConfig, shape: Shape): seq<Row> {
    Take(StableSort(host, rows, config.orderBy, shape), config.limit)
  }

  ghost predicate Throws(host: Host, rows: seq<Row>, config: SortConfig, shape: Shape, e: Error) {
    Raises(RowComparator(host, config.orderBy, shape), Decorate(rows), e)
  }

  /** sortRows: whenever it returns, it returns the first K rows of the full stable sort, through the heap
      or not; it throws only for an invalid configuration or when two of the rows cannot be compared. */
  method SortRows(host: Host, rows: seq<Row>, config: SortConfig, shape: Shape) returns (r: Try<seq<Row>>)
    ensures r.Success? ==> ValidSort(config, shape) && r.value == Sorted(host, rows, config, shape)
    ensures r.Success? ==>
              && r.value <= StableSort(host, rows, config.orderBy, shape)
              && |r.value| == if config.limit.Some? && config.limit.value < |rows| then config.limit.value else |rows|
    ensures r.Failure? ==> !ValidSort(config, shape) || Throws(host, rows, config, shape, r.error)
  {
    if !ValidSort(config, shape) {
      return Failure(InvalidConfig("SORT_CONFIG_INVALID"));
    }
    var compare := RowComparator(host, config.orderBy, shape);
    ghost var less := RowOrder(host, config.orderBy, shape);
    RowOrderIsOrder(host, config.orderBy, shape);
    ComparatorFollows(host, config.orderBy, shape);
    DecoratedIsStrict(host, config.orderBy, shape, rows);
    var decorated := Decorate(rows);
    var sorted: Try<seq<Decorated>>;
    hide IsOrder, Follows, Strict, Sort;
    SortPermutes(less, decorated);
    if config.limit.None? || config.limit.value >= |decorated| {
      sorted := NativeSort(decorated, compare, less);
    } else {
      sorted := SelectFirst(decorated, config.limit.value, compare, less);
    }
    if sorted.Failure? {
      return Failure(sorted.error);
    }
    r := Success(Undecorate(sorted.value));
    assert |Sort(less, decorated)| == |rows|;
    assert r.value == Sorted(host, rows, config, shape);
  }

  /** The specification is a stable sort: a rearrangement of the rows with their positions, in key order,
      rows with equal keys staying in input order. */
  lemma StableSortIsStable(host: Host, rows: seq<Row>, orderBy: seq<SortKey>, shape: Shape)
    ensures var d := Sort(RowOrder(host, orderBy, shape), Decorate(rows));
            && StableSort(host, rows, orderBy, shape) == Undecorate(d)
            && multiset(d) == multiset(Decorate(rows))
            && forall i, j | 0 <= i < j < |d| :: RowLess(host, orderBy, shape, d[i], d[j])
  {
    var less := RowOrder(host, orderBy, shape);
    RowOrderIsOrder(host, orderBy, shape);
    DecoratedIsStrict(host, orderBy, shape, rows);
    SortSorts(less, Decorate(rows));
    SortPermutes(less, Decorate(rows));
    var d := Sort(less, Decorate(rows));
    assert forall i, j | 0 <= i < j < |d| :: less(d[i], d[j]);
  }
}
