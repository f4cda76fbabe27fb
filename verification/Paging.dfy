/** Cursor pagination of one source (deployments/runtime.ts, fetchLiveSource). */
module Paging {
  import opened Wrappers
  import opened Values
  import opened Projection
  import TopK

  /** What fetching one source yields. */
  datatype Fetched = Fetched(rows: seq<Row>, requests: nat, rowLimitReached: bool)

  datatype LiveSource = LiveSource(
    network: string,
    paths: seq<string>,
    initialCursor: string,
    pageSize: nat,
    maxRequests: nat,
    maxRows: nat,
    rowLimit: Option<nat>
  )

  function Min(a: nat, b: nat): nat {
    if a < b then a else b
  }

  /** The most rows a fetch may return: both limits hold, and one of them is met. */
  function Ceiling(source: LiveSource): (c: nat)
    ensures c <= source.maxRows && (source.rowLimit.Some? ==> c <= source.rowLimit.value)
    ensures c == source.maxRows || source.rowLimit == Some(c)
  {
    Min(source.rowLimit.GetOr(source.maxRows), source.maxRows)
  }

  /** A provider: its answer to the n-th request, for that many rows after a cursor. */
  type Responder = (nat, nat, string) -> Try<seq<Value>>

  predicate IsEntity(item: Value) {
    item.Object? && "id" in item.fields && item.fields["id"].Text?
  }

  function IdOf(item: Value): string
    requires IsEntity(item)
  {
    item.fields["id"].s
  }

  function Projected(source: LiveSource, item: Value): Option<Row> {
    if IsEntity(item) then Rebuild(item.fields, Start(source.network), source.paths) else None
  }

  function ProjectedAll(source: LiveSource, items: seq<Value>): (r: Option<seq<Row>>)
    ensures r.Some? ==>
            |r.value| == |items|
            && forall i | 0 <= i < |items| :: Projected(source, items[i]) == Some(r.value[i])
  {
    if items == [] then Some([])
    else
      var before :- ProjectedAll(source, items[..|items| - 1]);
      var last :- Projected(source, items[|items| - 1]);
      Some(before + [last])
  }

  const BAD_ROW: Error := Unavailable("Graph row cannot be read")
  const BAD_CURSOR: Error := Unavailable("Graph cursor did not advance")
  const TOO_MANY_REQUESTS: Error := Unavailable("Graph source exceeded the compiled request limit")

  function Finish(source: LiveSource, requests: nat, rows: seq<Row>, full: bool): Try<Fetched> {
    if requests >= source.maxRequests && |rows| < Ceiling(source) && full then Failure(TOO_MANY_REQUESTS)
    else Success(Fetched(rows, requests, |rows| >= Ceiling(source) && full))
  }

  /** The loop from a given state on. */
  function FetchFrom(source: LiveSource, respond: Responder, requests: nat, rows: seq<Row>, cursor: string,
      full: bool): Try<Fetched>
    decreases source.maxRequests - requests
  {
    if requests >= source.maxRequests || |rows| >= Ceiling(source) then Finish(source, requests, rows, full)
    else
      var first := Min(source.pageSize, Ceiling(source) - |rows|);
      var batch :- respond(requests, first, cursor);
      var accepted := batch[..Min(first, |batch|)];
      var projected := ProjectedAll(source, accepted);
      if projected.None? then Failure(BAD_ROW)
      else if |batch| < first then Finish(source, requests + 1, rows + projected.value, false)
      else if accepted == [] || IdOf(accepted[|accepted| - 1]) == cursor then Failure(BAD_CURSOR)
      else FetchFrom(source, respond, requests + 1, rows + projected.value, IdOf(accepted[|accepted| - 1]), true)
  }

  /** fetchLiveSource as written. */
  method FetchLiveSource(source: LiveSource, respond: Responder) returns (r: Try<Fetched>)
    ensures r == FetchFrom(source, respond, 0, [], source.initialCursor, false)
  {
    hide Rebuild, ProjectedAll;
    var rows: seq<Row> := [];
    var cursor, requests, full := source.initialCursor, 0, false;
    var ceiling := Ceiling(source);
    while requests < source.maxRequests && |rows| < ceiling
      invariant requests >= 0
      invariant FetchFrom(source, respond, 0, [], source.initialCursor, false) ==
                FetchFrom(source, respond, requests, rows, cursor, full)
      decreases source.maxRequests - requests
    {
      var first := Min(source.pageSize, ceiling - |rows|);
      var response := respond(requests, first, cursor);
      if response.Failure? {
        return Failure(response.error);
      }
      var batch := response.value;
      var accepted := batch[..Min(first, |batch|)];
      var projected := ProjectBatch(source, accepted);
      if projected.None? {
        return Failure(BAD_ROW);
      }
      requests := requests + 1;
      full := |batch| >= first;
      rows := rows + projected.value;
      if |batch| < first {
        return Finish(source, requests, rows, full);
      }
      if accepted == [] || IdOf(accepted[|accepted| - 1]) == cursor {
        return Failure(BAD_CURSOR);
      }
      cursor := IdOf(accepted[|accepted| - 1]);
    }
    r := Finish(source, requests, rows, full);
  }

  method ProjectBatch(source: LiveSource, items: seq<Value>) returns (r: Option<seq<Row>>)
    ensures r == ProjectedAll(source, items)
  {
    hide Rebuild;
    var rows: seq<Row> := [];
    for i := 0 to |items|
      invariant ProjectedAll(source, items[..i]) == Some(rows)
    {
      assert items[..i + 1][..i] == items[..i];
      if !IsEntity(items[i]) {
        NoneLater(source, items, i);
        return None;
      }
      var row := ProjectRow(items[i].fields, source.network, source.paths);
      if row.None? {
        NoneLater(source, items, i);
        return None;
      }
      rows := rows + [row.value];
    }
    assert items[..|items|] == items;
    r := Some(rows);
  }

  lemma {:induction false} NoneLater(source: LiveSource, items: seq<Value>, i: nat)
    requires i < |items| && Projected(source, items[i]).None?
    ensures ProjectedAll(source, items).None?
  {
    hide Projected;
    if i + 1 < |items| {
      NoneLater(source, items[..|items| - 1], i);
    }
  }

  /** Whatever the provider does: never more requests or rows than the plan allows. */
  lemma {:induction false} WithinBudget(source: LiveSource, respond: Responder, requests: nat, rows: seq<Row>,
      cursor: string, full: bool)
    requires requests <= source.maxRequests && |rows| <= Ceiling(source)
    requires FetchFrom(source, respond, requests, rows, cursor, full).Success?
    ensures var r := FetchFrom(source, respond, requests, rows, cursor, full).value;
            r.requests <= source.maxRequests && |r.rows| <= Ceiling(source)
              && (r.rowLimitReached ==> |r.rows| == Ceiling(source))
    decreases source.maxRequests - requests
  {
    hide ProjectedAll;
    if requests < source.maxRequests && |rows| < Ceiling(source) {
      var first := Min(source.pageSize, Ceiling(source) - |rows|);
      var batch := respond(requests, first, cursor).value;
      var accepted := batch[..Min(first, |batch|)];
      var projected := ProjectedAll(source, accepted).value;
      if |batch| >= first {
        WithinBudget(source, respond, requests + 1, rows + projected, IdOf(accepted[|accepted| - 1]), true);
      }
    }
  }

  // ---------------------------------------------------------------- an id-ordered provider

  ghost predicate Increasing(less: TopK.Order<string>, entities: seq<Value>) {
    && (forall e | e in entities :: IsEntity(e))
    && forall i, j | 0 <= i < j < |entities| :: less(IdOf(entities[i]), IdOf(entities[j]))
  }

  /** The entities past a cursor. */
  ghost function After(less: TopK.Order<string>, entities: seq<Value>, cursor: string): seq<Value> {
    if entities == [] then []
    else (if IsEntity(entities[0]) && less(cursor, IdOf(entities[0])) then [entities[0]]
      else []) + After(less, entities[1..], cursor)
  }

  /** Every request is answered from the same entities, in identifier order. */
  ghost predicate Ordered(less: TopK.Order<string>, entities: seq<Value>, respond: Responder)
    requires Increasing(less, entities)
  {
    forall n: nat, first: nat, cursor: string ::
      var after := After(less, entities, cursor); respond(n, first, cursor) == Success(after[..Min(first, |after|)])
  }

  lemma {:induction false} AfterIsSuffix(less: TopK.Order<string>, entities: seq<Value>, cursor: string)
      returns (s: nat)
    requires TopK.IsOrder(less) && Increasing(less, entities)
    ensures s <= |entities| && After(less, entities, cursor) == entities[s..]
    ensures s < |entities| ==> less(cursor, IdOf(entities[s]))
  {
    s := 0;
    if entities != [] {
      var e := entities[0];
      assert e in entities && forall x | x in entities[1..] :: x in entities;
      if less(cursor, IdOf(e)) {
        AllAfter(less, entities, cursor);
        assert entities[0..] == entities;
      } else {
        var rest := AfterIsSuffix(less, entities[1..], cursor);
        s := rest + 1;
        assert entities[1..][rest..] == entities[s..];
      }
    }
  }

  lemma IncreasingRest(less: TopK.Order<string>, entities: seq<Value>)
    requires Increasing(less, entities) && entities != []
    ensures IsEntity(entities[0]) && Increasing(less, entities[1..])
    ensures |entities| > 1 ==> IsEntity(entities[1]) && less(IdOf(entities[0]), IdOf(entities[1]))
  {
    hide IsEntity, IdOf;
    assert forall x | x in entities[1..] :: x in entities;
  }

  lemma {:induction false} AllAfter(less: TopK.Order<string>, entities: seq<Value>, cursor: string)
    requires TopK.IsOrder(less) && Increasing(less, entities) && entities != [] && less(cursor, IdOf(entities[0]))
    ensures After(less, entities, cursor) == entities
  {
    hide TopK.IsOrder, IsEntity, IdOf, Increasing;
    var rest := entities[1..];
    IncreasingRest(less, entities);
    if rest != [] {
      TopK.Transitive(less, cursor, IdOf(entities[0]), IdOf(rest[0]));
      AllAfter(less, rest, cursor);
    }
    assert entities == [entities[0]] + rest;
  }

  /** Past the id of an entity come exactly the entities behind it. */
  lemma {:induction false} AfterEntity(less: TopK.Order<string>, entities: seq<Value>, k: nat)
    requires TopK.IsOrder(less) && Increasing(less, entities) && k < |entities|
    ensures After(less, entities, IdOf(entities[k])) == entities[k + 1..]
  {
    var cursor, rest := IdOf(entities[k]), entities[1..];
    assert forall x | x in rest :: x in entities;
    if k == 0 {
      TopK.Irreflexive(less, cursor);
      if rest != [] {
        AllAfter(less, rest, cursor);
      }
    } else {
      TopK.Asymmetric(less, IdOf(entities[0]), cursor);
      AfterEntity(less, rest, k - 1);
      assert rest[k..] == entities[k + 1..];
    }
  }

  lemma {:induction false} AfterIsPast(less: TopK.Order<string>, entities: seq<Value>, cursor: string)
    ensures forall e | e in After(less, entities, cursor) :: e in entities && IsEntity(e) && less(cursor, IdOf(e))
  {
    if entities != [] {
      assert entities == [entities[0]] + entities[1..];
      AfterIsPast(less, entities[1..], cursor);
    }
  }

  lemma {:induction false} ProjectedConcat(source: LiveSource, a: seq<Value>, b: seq<Value>)
    ensures ProjectedAll(source, a + b) ==
              if ProjectedAll(source, a).Some? && ProjectedAll(source, b).Some?
              then Some(ProjectedAll(source, a).value + ProjectedAll(source, b).value) else None
  {
    hide Projected;
    if b == [] {
      assert a + b == a;
      assert ProjectedAll(source, a).Some? ==> ProjectedAll(source, a).value + [] == ProjectedAll(source, a).value;
    } else {
      var init, last := b[..|b| - 1], b[|b| - 1];
      assert (a + b)[..|a + b| - 1] == a + init && (a + b)[|a + b| - 1] == last;
      ProjectedConcat(source, a, init);
      var x, y, z := ProjectedAll(source, a), ProjectedAll(source, init), Projected(source, last);
      assert x.Some? && y.Some? && z.Some? ==> (x.value + y.value) + [z.value] == x.value + (y.value + [z.value]);
    }
  }

  /** A stretch that can be projected, and the next one. */
  lemma ProjectedNext(source: LiveSource, all: seq<Value>, i: nat, j: nat)
    requires i <= j <= |all| && ProjectedAll(source, all[..i]).Some?
    ensures ProjectedAll(source, all[..j]) ==
              if ProjectedAll(source, all[i..j]).None? then None
              else Some(ProjectedAll(source, all[..i]).value + ProjectedAll(source, all[i..j]).value)
  {
    assert all[..j] == all[..i] + all[i..j];
    ProjectedConcat(source, all[..i], all[i..j]);
  }

  /** What cannot be projected stays so in a longer stretch. */
  lemma UnprojectedStays(source: LiveSource, all: seq<Value>, i: nat, j: nat)
    requires i <= j <= |all| && ProjectedAll(source, all[..i]).None?
    ensures ProjectedAll(source, all[..j]).None?
  {
    assert all[..j] == all[..i] + all[i..j];
    ProjectedConcat(source, all[..i], all[i..j]);
  }

  /** The fetch so far, over an ordered provider: every request was answered in full. */
  ghost predicate OnTrack(less: TopK.Order<string>, entities: seq<Value>, all: seq<Value>, source: LiveSource,
      requests: nat, rows: seq<Row>, cursor: string, full: bool)
  {
    && requests <= source.maxRequests && |rows| <= |all| && |rows| == Min(requests * source.pageSize, Ceiling(source))
    && ProjectedAll(source, all[..|rows|]) == Some(rows) && (full <==> requests > 0)
    && After(less, entities, cursor) == all[|rows|..]
    && (requests > 0 ==> (requests - 1) * source.pageSize < Ceiling(source))
  }

  lemma MulOrder(a: nat, b: nat, p: nat)
    requires a <= b
    ensures a * p <= b * p && (a + 1) * p == a * p + p
  {
  }

  lemma LastOfPage(less: TopK.Order<string>, entities: seq<Value>, s: nat, cursor: string, n: nat, first: nat)
    requires TopK.IsOrder(less) && Increasing(less, entities) && first >= 1 && s + n + first <= |entities|
    requires After(less, entities, cursor) == entities[s + n..]
    ensures var last := entities[s + n + first - 1];
            IsEntity(last) && IdOf(last) != cursor && After(less, entities, IdOf(last)) == entities[s + n + first..]
  {
    hide TopK.IsOrder, After, IsEntity, IdOf;
    var last := entities[s + n + first - 1];
    AfterEntity(less, entities, s + n + first - 1);
    AfterIsPast(less, entities, cursor);
    assert last == entities[s + n..][first - 1];
    TopK.Irreflexive(less, cursor);
  }

  /** One more full page. */
  lemma NextPage(less: TopK.Order<string>, entities: seq<Value>, s: nat, all: seq<Value>, source: LiveSource,
      requests: nat, rows: seq<Row>, cursor: string, full: bool, first: nat)
    requires TopK.IsOrder(less) && Increasing(less, entities) && s <= |entities| && all == entities[s..]
    requires OnTrack(less, entities, all, source, requests, rows, cursor, full)
    requires requests < source.maxRequests && |rows| < Ceiling(source) && source.pageSize >= 1
    requires first == Min(source.pageSize, Ceiling(source) - |rows|) && |all| - |rows| >= first
    requires ProjectedAll(source, all[|rows|..|rows| + first]).Some?
    ensures var accepted := all[|rows|..|rows| + first];
            && accepted != [] && IsEntity(accepted[first - 1]) && IdOf(accepted[first - 1]) != cursor
            && OnTrack(less, entities, all, source, requests + 1, rows + ProjectedAll(source, accepted).value,
              IdOf(accepted[first - 1]), true)
  {
    hide TopK.IsOrder, Projected, ProjectedAll, After, Increasing, IsEntity, IdOf;
    var n := |rows|;
    ProjectedNext(source, all, n, n + first);
    MulOrder(requests, source.maxRequests, source.pageSize);
    assert all[n..] == entities[s + n..] && all[n + first..] == entities[s + n + first..];
    LastOfPage(less, entities, s, cursor, n, first);
    assert all[n..n + first][first - 1] == all[n + first - 1] == entities[s + n + first - 1];
  }

  /** When the plan's requests cannot cover its row ceiling and the provider has more to give. */
  predicate RunsOut(source: LiveSource, available: nat) {
    source.maxRequests * source.pageSize < Ceiling(source) && available >= source.maxRequests * source.pageSize
  }

  /** The entities that a plan with enough requests reads. */
  function Reached(source: LiveSource, all: seq<Value>): seq<Value> {
    all[..Min(Ceiling(source), |all|)]
  }

  /** The number of pages: every page before the last was full and left the ceiling unreached, and the last one
      reaches the ceiling or is not full. */
  predicate Pages(source: LiveSource, available: nat, requests: nat) {
    && requests >= 1
    && (requests - 1) * source.pageSize < Ceiling(source) && (requests - 1) * source.pageSize <= available
    && (requests * source.pageSize >= Ceiling(source) || requests * source.pageSize > available)
  }

  /** What a fetch over an ordered provider ends with: exactly the rows of the entities it reaches, or a failure
      because the requests run out before that, or because one of those entities cannot be read. */
  ghost predicate Ends(source: LiveSource, all: seq<Value>, r: Try<Fetched>) {
    match r
    case Success(f) =>
      && !RunsOut(source, |all|) && Some(f.rows) == ProjectedAll(source, Reached(source, all))
      && (f.rowLimitReached <==> |all| >= Ceiling(source)) && Pages(source, |all|, f.requests)
    case Failure(e) => RunsOut(source, |all|) || ProjectedAll(source, Reached(source, all)).None?
  }

  /** The page that exhausts the provider. */
  lemma LastPage(source: LiveSource, all: seq<Value>, requests: nat, rows: seq<Row>)
    requires requests < source.maxRequests && |rows| <= |all| && |rows| == requests * source.pageSize < Ceiling(source)
    requires ProjectedAll(source, all[..|rows|]) == Some(rows) && ProjectedAll(source, all[|rows|..]).Some?
    requires |all| - |rows| < Min(source.pageSize, Ceiling(source) - |rows|)
    ensures Ends(source, all, Finish(source, requests + 1, rows + ProjectedAll(source, all[|rows|..]).value, false))
  {
    hide ProjectedAll;
    ProjectedNext(source, all, |rows|, |all|);
    assert all[..|all|] == all && all[|rows|..|all|] == all[|rows|..];
    MulOrder(requests + 1, source.maxRequests, source.pageSize);
    MulOrder(requests, requests, source.pageSize);
  }

  /** A page with an entity that cannot be read. */
  lemma BadPage(source: LiveSource, respond: Responder, all: seq<Value>, requests: nat, rows: seq<Row>, cursor: string,
      full: bool, first: nat, size: nat)
    requires requests < source.maxRequests && |rows| < Ceiling(source) && |rows| <= |all|
    requires first == Min(source.pageSize, Ceiling(source) - |rows|) && size == Min(first, |all| - |rows|)
    requires ProjectedAll(source, all[..|rows|]) == Some(rows)
    requires respond(requests, first, cursor) == Success(all[|rows|..|rows| + size])
             && ProjectedAll(source, all[|rows|..|rows| + size]).None?
    ensures Ends(source, all, FetchFrom(source, respond, requests, rows, cursor, full))
  {
    hide ProjectedAll, Finish;
    var batch := all[|rows|..|rows| + size];
    assert batch[..Min(first, |batch|)] == batch;
    ProjectedNext(source, all, |rows|, |rows| + size);
    UnprojectedStays(source, all, |rows| + size, Min(Ceiling(source), |all|));
  }

  /** No further request: the ceiling is reached, or the requests are used up. */
  lemma NoPage(source: LiveSource, all: seq<Value>, requests: nat, rows: seq<Row>, full: bool)
    requires requests <= source.maxRequests && |rows| <= |all|
             && |rows| == Min(requests * source.pageSize, Ceiling(source))
    requires source.maxRequests >= 1 && Ceiling(source) >= 1 && ProjectedAll(source, all[..|rows|]) == Some(rows)
             && (full <==> requests > 0)
    requires requests > 0 ==> (requests - 1) * source.pageSize < Ceiling(source)
    requires requests >= source.maxRequests || |rows| >= Ceiling(source)
    ensures Ends(source, all, Finish(source, requests, rows, full))
  {
    hide ProjectedAll;
    MulOrder(requests, source.maxRequests, source.pageSize);
  }

  /** One turn of the loop, on a batch that is no longer than asked for. */
  lemma FetchTurn(source: LiveSource, respond: Responder, requests: nat, rows: seq<Row>, cursor: string, full: bool,
      first: nat, batch: seq<Value>)
    requires requests < source.maxRequests && |rows| < Ceiling(source)
             && first == Min(source.pageSize, Ceiling(source) - |rows|)
    requires respond(requests, first, cursor) == Success(batch) && |batch| <= first && ProjectedAll(source, batch).Some?
    ensures |batch| < first ==>
              FetchFrom(source, respond, requests, rows, cursor, full) ==
                Finish(source, requests + 1, rows + ProjectedAll(source, batch).value, false)
    ensures |batch| == first > 0 && IsEntity(batch[first - 1]) && IdOf(batch[first - 1]) != cursor ==>
              FetchFrom(source, respond, requests, rows, cursor, full) ==
              FetchFrom(source, respond, requests + 1, rows + ProjectedAll(source, batch).value, IdOf(batch[first - 1]),
                true)
  {
    hide ProjectedAll, IsEntity, Finish;
    assert batch[..Min(first, |batch|)] == batch;
  }

  lemma {:induction false} FetchesPrefix(less: TopK.Order<string>, entities: seq<Value>, s: nat, all: seq<Value>,
      source: LiveSource, respond: Responder,
      requests: nat, rows: seq<Row>, cursor: string, full: bool)
    requires TopK.IsOrder(less) && Increasing(less, entities) && Ordered(less, entities, respond) && s <= |entities|
             && all == entities[s..]
    requires source.pageSize >= 1 && source.maxRequests >= 1 && Ceiling(source) >= 1
    requires OnTrack(less, entities, all, source, requests, rows, cursor, full)
    ensures Ends(source, all, FetchFrom(source, respond, requests, rows, cursor, full))
    decreases source.maxRequests - requests
  {
    hide TopK.IsOrder, Projected, ProjectedAll, Increasing, After, IsEntity, IdOf, Ends, Ordered, Finish, FetchFrom;
    if requests < source.maxRequests && |rows| < Ceiling(source) {
      var first := Min(source.pageSize, Ceiling(source) - |rows|);
      Responds(less, entities, respond, requests, first, cursor);
      var size := Min(first, |all| - |rows|);
      var batch := all[|rows|..|rows| + size];
      assert all[|rows|..][..size] == batch;
      if ProjectedAll(source, batch).None? {
        BadPage(source, respond, all, requests, rows, cursor, full, first, size);
      } else if size == first {
        NextPage(less, entities, s, all, source, requests, rows, cursor, full, first);
        FetchTurn(source, respond, requests, rows, cursor, full, first, batch);
        FetchesPrefix(less, entities, s, all, source, respond, requests + 1, rows + ProjectedAll(source, batch).value,
          IdOf(batch[first - 1]), true);
      } else {
        assert batch == all[|rows|..];
        LastPage(source, all, requests, rows);
        FetchTurn(source, respond, requests, rows, cursor, full, first, batch);
      }
    } else {
      NoPage(source, all, requests, rows, full);
      FetchStops(source, respond, requests, rows, cursor, full);
    }
  }

  lemma FetchStops(source: LiveSource, respond: Responder, requests: nat, rows: seq<Row>, cursor: string, full: bool)
    requires requests >= source.maxRequests || |rows| >= Ceiling(source)
    ensures FetchFrom(source, respond, requests, rows, cursor, full) == Finish(source, requests, rows, full)
  {
  }

  lemma Responds(less: TopK.Order<string>, entities: seq<Value>, respond: Responder, n: nat, first: nat, cursor: string)
    requires Increasing(less, entities) && Ordered(less, entities, respond)
    ensures var after := After(less, entities, cursor);
            respond(n, first, cursor) ==
            Success(after[..Min(first, |after|)])
  {
    hide Increasing, After;
  }

  /** Pagination over an identifier-ordered provider: a fetch that returns has exactly the first `ceiling` rows past
      the initial cursor, in order, without gaps or duplicates; if it does not report the row limit, these are all.
      It fails exactly when the plan's requests cannot reach that far or one of those rows cannot be read; what lies
      beyond them does not matter. */
  lemma PaginationIsExact(less: TopK.Order<string>, entities: seq<Value>, source: LiveSource, respond: Responder)
    requires TopK.IsOrder(less) && Increasing(less, entities) && Ordered(less, entities, respond)
    requires source.pageSize >= 1 && source.maxRequests >= 1 && Ceiling(source) >= 1
    ensures var all, r := After(less, entities, source.initialCursor),
            FetchFrom(source, respond, 0, [], source.initialCursor, false);
            && (r.Failure? <==> RunsOut(source, |all|) || ProjectedAll(source, Reached(source, all)).None?)
            && (r.Success? ==>
                  && Some(r.value.rows) == ProjectedAll(source, Reached(source, all))
                  && (r.value.rowLimitReached <==> |all| >= Ceiling(source))
                  && Pages(source, |all|, r.value.requests))
  {
    hide TopK.IsOrder, Projected, FetchFrom;
    var all := After(less, entities, source.initialCursor);
    var s := AfterIsSuffix(less, entities, source.initialCursor);
    assert all[..0] == [] && all[0..] == all && 0 * source.pageSize == 0;
    FetchesPrefix(less, entities, s, all, source, respond, 0, [], source.initialCursor, false);
  }

  /** A plan without requests, or with a ceiling of zero, returns no rows and still does not report a limit. */
  lemma NothingAsked(source: LiveSource, respond: Responder)
    requires source.maxRequests == 0 || Ceiling(source) == 0
    ensures FetchFrom(source, respond, 0, [], source.initialCursor, false) == Success(Fetched([], 0, false))
  {
  }
}
