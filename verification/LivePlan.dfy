/** The compiled sources of a plan (deployments/live-plan.ts) and the rows they fetch: each source asks for the
    paths its boundary Map refers to, and everything beyond the source means the same as on full provider rows. */
module LivePlan {
  import opened Wrappers
  import opened Values
  import opened Ordering
  import opened Expressions
  import opened ExpressionSoundness
  import opened Maps
  import opened Operators
  import opened OperatorSoundness
  import opened Dags
  import opened PlanSoundness
  import opened Projection
  import opened Paging
  import opened LiveRun

  // ---------------------------------------------------------------- planned projections

  /** String(config.sourceId ?? config.sourceKey ?? ""). */
  function SourceName(op: Op): string
    requires op.Source?
  {
    op.sourceId.GetOr(op.sourceKey.GetOr(""))
  }

  function FindSource(nodes: seq<Node>, sourceId: string): (r: Option<Node>)
    ensures r.Some? ==> r.value in nodes && r.value.op.Source? && SourceName(r.value.op) == sourceId
    ensures r.None? ==> forall n | n in nodes && n.op.Source? :: SourceName(n.op) != sourceId
  {
    if nodes == [] then None
    else if nodes[0].op.Source? && SourceName(nodes[0].op) == sourceId then Some(nodes[0])
    else FindSource(nodes[1..], sourceId)
  }

  /** The first Map with an identifier. */
  function FindMap(nodes: seq<Node>, id: string): (r: Option<Node>)
    ensures r.Some? ==> r.value in nodes && r.value.id == id && r.value.op.Mapping?
    ensures r.None? ==> forall n | n in nodes && n.op.Mapping? :: n.id != id
  {
    if nodes == [] then None
    else if nodes[0].id == id && nodes[0].op.Mapping? then Some(nodes[0])
    else FindMap(nodes[1..], id)
  }

  /** The source of the plan with that name, and the Map its rows go to. */
  function SourceAndMap(dag: Dag, sourceId: string): (r: Option<(Node, Node)>)
    ensures r.Some? ==> r.value.0.op.Source? && r.value.0.op.schema.Some? && r.value.1.op.Mapping?
  {
    var source :- FindSource(dag.nodes, sourceId);
    var targets := Targets(dag.edges, source.id);
    if source.op.schema.None? || |targets| != 1 then None
    else
      var boundary :- FindMap(dag.nodes, targets[0]);
      if boundary.op.config.mode.Project? then Some((source, boundary)) else None
  }

  /** When a source can be planned: its Map consumes something, and only declared provider paths. */
  predicate Plannable(dag: Dag, sourceId: string) {
    var found := SourceAndMap(dag, sourceId);
    && found.Some?
    && var fields := Referenced(found.value.1.op.config.fields);
    && fields != {}
    && forall p | p in fields && p != NETWORK :: p in Names(found.value.0.op.schema.value) && IsProviderField(p)
  }

  /** The paths are exactly the fields, but for the network column that the executor fills in itself. */
  ghost predicate Selects(paths: seq<string>, fields: set<string>) {
    forall p :: p in paths <==> p in fields && p != NETWORK
  }

  /** sourceProjections: the paths to fetch for a source, or an error. */
  method SourceProjections(dag: Dag, sourceId: string) returns (r: Option<seq<string>>)
    ensures r.Some? <==> Plannable(dag, sourceId)
    ensures r.Some? ==> Selects(r.value, Referenced(SourceAndMap(dag, sourceId).value.1.op.config.fields))
  {
    hide Targets, Referenced, IsProviderField;
    var source := FindSource(dag.nodes, sourceId);
    if source.None? || source.value.op.schema.None? {
      return None;
    }
    var schema, outgoing := source.value.op.schema.value, Targets(dag.edges, source.value.id);
    if |outgoing| != 1 {
      return None;
    }
    var boundary := FindMap(dag.nodes, outgoing[0]);
    if boundary.None? || !boundary.value.op.config.mode.Project? {
      return None;
    }
    var referenced := CollectReferenced(boundary.value.op.config.fields);
    var rest, paths: seq<string> := referenced, [];
    while rest != {}
      invariant rest <= referenced
      invariant forall p :: p in paths <==> p in referenced && p !in rest && p != NETWORK
      invariant forall p | p in paths :: p in Names(schema) && IsProviderField(p)
      decreases |rest|
    {
      var path :| path in rest;
      rest := rest - {path};
      if path == NETWORK {
        continue;
      }
      if path !in Names(schema) || !IsProviderField(path) {
        assert path in referenced && !Plannable(dag, sourceId);
        return None;
      }
      paths := paths + [path];
    }
    assert forall p | p in referenced && p != NETWORK :: p in paths;
    if paths == [] && NETWORK !in referenced {
      assert referenced == {};
      return None;
    }
    assert referenced != {} by {
      if paths != [] {
        assert paths[0] in paths;
      }
    }
    r := Some(paths);
  }

  // ---------------------------------------------------------------- fetched rows and the entities behind them

  /** The entities whose rows a fetch returns, page after page. */
  ghost function EntitiesFrom(source: LiveSource, respond: Responder, requests: nat, count: nat,
      cursor: string): seq<Value>
    decreases source.maxRequests - requests
  {
    if requests >= source.maxRequests || count >= Ceiling(source) then []
    else
      var first := Min(source.pageSize, Ceiling(source) - count);
      var batch := respond(requests, first, cursor);
      if batch.Failure? then []
      else
        var accepted := batch.value[..Min(first, |batch.value|)];
        if |batch.value| < first || accepted == [] || !IsEntity(accepted[|accepted| - 1]) then accepted
        else accepted + EntitiesFrom(source, respond, requests + 1, count + |accepted|, IdOf(accepted[|accepted| - 1]))
  }

  /** A successful fetch projects exactly those entities. */
  lemma {:induction false} FetchProjects(source: LiveSource, respond: Responder, requests: nat, rows: seq<Row>,
      cursor: string, full: bool)
    requires FetchFrom(source, respond, requests, rows, cursor, full).Success?
    ensures var projected := ProjectedAll(source, EntitiesFrom(source, respond, requests, |rows|, cursor));
            projected.Some? && FetchFrom(source, respond, requests, rows, cursor, full).value.rows ==
              rows + projected.value
    decreases source.maxRequests - requests
  {
    hide ProjectedAll, IsEntity, IdOf, FetchFrom, EntitiesFrom, Ceiling;
    FetchUnfolds(source, respond, requests, rows, cursor, full);
    if requests < source.maxRequests && |rows| < Ceiling(source) {
      var accepted := PageOf(source, respond, requests, |rows|, cursor).value;
      var projected := ProjectedAll(source, accepted).value;
      if !Short(source, respond, requests, |rows|, cursor) {
        var next := IdOf(accepted[|accepted| - 1]);
        FetchProjects(source, respond, requests + 1, rows + projected, next, true);
        var later := EntitiesFrom(source, respond, requests + 1, |rows + projected|, next);
        ProjectedConcat(source, accepted, later);
        assert (rows + projected) + ProjectedAll(source, later).value ==
               rows + (projected + ProjectedAll(source, later).value);
      }
    } else {
      NothingProjected(source);
      assert rows + [] == rows;
    }
  }

  /** What one request adds. */
  ghost function PageOf(source: LiveSource, respond: Responder, requests: nat, count: nat,
      cursor: string): Try<seq<Value>>
    requires count < Ceiling(source)
  {
    var first := Min(source.pageSize, Ceiling(source) - count);
    var batch :- respond(requests, first, cursor);
    Success(batch[..Min(first, |batch|)])
  }

  ghost predicate Short(source: LiveSource, respond: Responder, requests: nat, count: nat, cursor: string)
    requires count < Ceiling(source)
  {
    var first := Min(source.pageSize, Ceiling(source) - count);
    var batch := respond(requests, first, cursor);
    batch.Success? && |batch.value| < first
  }

  /** One turn of a fetch that succeeds, beside one turn of what it read. */
  lemma FetchUnfolds(source: LiveSource, respond: Responder, requests: nat, rows: seq<Row>, cursor: string, full: bool)
    requires FetchFrom(source, respond, requests, rows, cursor, full).Success?
    ensures requests >= source.maxRequests || |rows| >= Ceiling(source) ==>
              && FetchFrom(source, respond, requests, rows, cursor, full).value.rows == rows
              && EntitiesFrom(source, respond, requests, |rows|, cursor) == []
    ensures requests < source.maxRequests && |rows| < Ceiling(source) ==>
              && PageOf(source, respond, requests, |rows|, cursor).Success?
              && var page := PageOf(source, respond, requests, |rows|, cursor).value;
              && ProjectedAll(source, page).Some?
              && var next := rows + ProjectedAll(source, page).value;
              if Short(source, respond, requests, |rows|, cursor) then
                && FetchFrom(source, respond, requests, rows, cursor, full).value.rows == next
                && EntitiesFrom(source, respond, requests, |rows|, cursor) == page
              else
                && page != [] && IsEntity(page[|page| - 1])
                && var last := IdOf(page[|page| - 1]);
                && FetchFrom(source, respond, requests, rows, cursor, full) ==
                  FetchFrom(source, respond, requests + 1, next, last, true)
                && EntitiesFrom(source, respond, requests, |rows|, cursor) ==
                  page + EntitiesFrom(source, respond, requests + 1, |next|, last)
  {
    hide ProjectedAll, IsEntity, Ceiling;
    if requests < source.maxRequests && |rows| < Ceiling(source) {
      var page := PageOf(source, respond, requests, |rows|, cursor).value;
      if page != [] {
        LastIsEntity(source, page);
      }
    }
  }

  lemma NothingProjected(source: LiveSource)
    ensures ProjectedAll(source, []) == Some([])
  {
  }

  lemma LastIsEntity(source: LiveSource, items: seq<Value>)
    requires items != [] && ProjectedAll(source, items).Some?
    ensures IsEntity(items[|items| - 1])
  {
    assert Projected(source, items[|items| - 1]).Some?;
  }

  /** Whatever the provider is asked, it answers, or fails as a provider. */
  ghost predicate IsProvider(respond: Responder) {
    forall n: nat, first: nat, cursor: string :: respond(n, first, cursor).Failure? ==>
      respond(n, first, cursor).error.Unavailable?
  }

  /** In every entity the provider may return, the given fields have their declared types. */
  ghost predicate FeedFits(how: Precision, feed: LiveFeed, schema: Shape, fields: set<string>) {
    forall n: nat, first: nat, cursor: string, item | feed.respond(n, first, cursor).Success?
      && item in feed.respond(n, first, cursor).value ::
      IsEntity(item) ==> RowFits(how, FullRow(item.fields, feed.source.network), schema, fields)
  }

  /** The same for the entities of one fetch. */
  lemma {:induction false} EntitiesFit(how: Precision, feed: LiveFeed, schema: Shape, fields: set<string>,
      requests: nat, count: nat, cursor: string)
    requires FeedFits(how, feed, schema, fields)
    ensures forall item | item in EntitiesFrom(feed.source, feed.respond, requests, count, cursor) && IsEntity(item) ::
              RowFits(how, FullRow(item.fields, feed.source.network), schema, fields)
    decreases feed.source.maxRequests - requests
  {
    hide RowFits;
    var source := feed.source;
    if requests < source.maxRequests && count < Ceiling(source) {
      var first := Min(source.pageSize, Ceiling(source) - count);
      var batch := feed.respond(requests, first, cursor);
      if batch.Success? {
        var accepted := batch.value[..Min(first, |batch.value|)];
        assert forall item | item in accepted :: item in batch.value;
        if |batch.value| >= first && accepted != [] && IsEntity(accepted[|accepted| - 1]) {
          EntitiesFit(how, feed, schema, fields, requests + 1, count + |accepted|, IdOf(accepted[|accepted| - 1]));
        }
      }
    }
  }

  lemma {:induction false} FetchFails(feed: LiveFeed, requests: nat, rows: seq<Row>, cursor: string, full: bool)
    requires IsProvider(feed.respond)
    ensures var r := FetchFrom(feed.source, feed.respond, requests, rows, cursor, full); r.Failure? ==>
            r.error.Unavailable?
    decreases feed.source.maxRequests - requests
  {
    hide ProjectedAll;
    var source := feed.source;
    if requests < source.maxRequests && |rows| < Ceiling(source) {
      var first := Min(source.pageSize, Ceiling(source) - |rows|);
      var batch := feed.respond(requests, first, cursor);
      if batch.Success? {
        var accepted := batch.value[..Min(first, |batch.value|)];
        var projected := ProjectedAll(source, accepted);
        if projected.Some? && |batch.value| >= first && accepted != [] {
          LastIsEntity(source, accepted);
          FetchFails(feed, requests + 1, rows + projected.value, IdOf(accepted[|accepted| - 1]), true);
        }
      }
    }
  }

  lemma SameReadsFit(how: Precision, a: Row, b: Row, schema: Shape, fields: set<string>)
    requires SameReads(a, b, fields) && RowFits(how, b, schema, fields)
    ensures RowFits(how, a, schema, fields)
  {
  }

  /** The provider row of an entity. */
  ghost function FullOf(network: string, item: Value): Row {
    if IsEntity(item) then FullRow(item.fields, network) else map[]
  }

  ghost function FullRows(network: string, items: seq<Value>): (r: seq<Row>)
    ensures |r| == |items| && forall i | 0 <= i < |items| :: r[i] == FullOf(network, items[i])
  {
    seq(|items|, i requires 0 <= i < |items| => FullOf(network, items[i]))
  }

  /** Row by row, a fetch that covers some fields reads at them like the full provider rows. */
  lemma FetchedReads(feed: LiveFeed, fields: set<string>)
    requires Covers(feed.source.paths, fields) && forall p | p in fields :: ValidFieldPath(p)
    requires FetchFrom(feed.source, feed.respond, 0, [], feed.source.initialCursor, false).Success?
    ensures var rows := FetchFrom(feed.source, feed.respond, 0, [], feed.source.initialCursor, false).value.rows;
            var items := EntitiesFrom(feed.source, feed.respond, 0, 0, feed.source.initialCursor);
            && |rows| == |items|
            && forall i | 0 <= i < |items| ::
              IsEntity(items[i])
              && SameReads(rows[i], FullOf(feed.source.network, items[i]), fields)
  {
    hide FetchFrom, EntitiesFrom, SameReads, Rebuild, ValidFieldPath;
    FetchProjects(feed.source, feed.respond, 0, [], feed.source.initialCursor, false);
    var rows := FetchFrom(feed.source, feed.respond, 0, [], feed.source.initialCursor, false).value.rows;
    var items := EntitiesFrom(feed.source, feed.respond, 0, 0, feed.source.initialCursor);
    assert [] + ProjectedAll(feed.source, items).value == ProjectedAll(feed.source, items).value;
    forall i | 0 <= i < |items|
      ensures IsEntity(items[i]) && SameReads(rows[i], FullOf(feed.source.network, items[i]), fields)
    {
      assert Projected(feed.source, items[i]) == Some(rows[i]);
      RebuiltReads(items[i].fields, feed.source.network, fields, feed.source.paths);
    }
  }

  /** The rows of a fetch fit wherever the provider's entities do. */
  lemma FetchedFit(how: Precision, feed: LiveFeed, schema: Shape, fields: set<string>)
    requires FeedFits(how, feed, schema, fields) && Covers(feed.source.paths, fields)
             && forall p | p in fields :: ValidFieldPath(p)
    ensures var r := FetchFrom(feed.source, feed.respond, 0, [], feed.source.initialCursor, false);
            r.Success? ==> RowsFit(how, r.value.rows, schema, fields)
  {
    hide FetchFrom, EntitiesFrom, SameReads, RowFits, ValidFieldPath, Covers, FeedFits;
    var r := FetchFrom(feed.source, feed.respond, 0, [], feed.source.initialCursor, false);
    if r.Success? {
      FetchedReads(feed, fields);
      EntitiesFit(how, feed, schema, fields, 0, 0, feed.source.initialCursor);
      var items := EntitiesFrom(feed.source, feed.respond, 0, 0, feed.source.initialCursor);
      forall row | row in r.value.rows
        ensures RowFits(how, row, schema, fields)
      {
        var i :| 0 <= i < |items| && r.value.rows[i] == row;
        SameReadsFit(how, row, FullOf(feed.source.network, items[i]), schema, fields);
      }
    }
  }

  // ---------------------------------------------------------------- planned sources

  /** The feed of every source asks for what sourceProjections planned for the source of that name. */
  ghost predicate Planned(dag: Dag, feeds: map<string, LiveFeed>) {
    forall n | n in dag.nodes && n.op.Source? ::
      && n.id in feeds && Plannable(dag, SourceName(n.op))
      && Selects(feeds[n.id].source.paths, Referenced(SourceAndMap(dag, SourceName(n.op)).value.1.op.config.fields))
  }

  /** The feed of every source asks for whatever its boundary Map reads. */
  ghost predicate Sufficient(dag: Dag, feeds: map<string, LiveFeed>)
    requires Wired(dag)
  {
    forall id | Known(dag.nodes, id) && IsBoundary(dag, id) ::
      var from := Feeder(dag, id, 0);
      from in feeds && Covers(feeds[from].source.paths, Referenced(NodeOf(dag, id).op.config.fields))
  }

  /** Where several Source nodes name one source, the Map of the first of them reads whatever the others read. */
  ghost predicate SharedReads(dag: Dag)
    requires Wired(dag)
  {
    forall id | Known(dag.nodes, id) && IsBoundary(dag, id) :: ReadsShared(dag, id)
  }

  ghost predicate ReadsShared(dag: Dag, id: string)
    requires Wired(dag) && Known(dag.nodes, id) && IsBoundary(dag, id)
  {
    var first := SourceAndMap(dag, SourceName(NodeOf(dag, Feeder(dag, id, 0)).op));
    first.Some? ==>
      Referenced(NodeOf(dag, id).op.config.fields) <= Referenced(first.value.1.op.config.fields) + {NETWORK}
  }

  /** Planning source by source, each by name, gives every boundary Map what it reads exactly then. */
  lemma PlanIsSufficientExactly(dag: Dag, feeds: map<string, LiveFeed>)
    requires Wired(dag) && Planned(dag, feeds)
    ensures Sufficient(dag, feeds) <==> SharedReads(dag)
  {
    hide Wired, Find, Referenced, SourceAndMap, Plannable, ReadsShared;
    forall id | Known(dag.nodes, id) && IsBoundary(dag, id)
      ensures Feeder(dag, id, 0) in feeds
      ensures ReadsShared(dag, id) <==>
              Covers(feeds[Feeder(dag, id, 0)].source.paths, Referenced(NodeOf(dag, id).op.config.fields))
    {
      PlannedAt(dag, feeds, id);
    }
  }

  lemma PlannedAt(dag: Dag, feeds: map<string, LiveFeed>, id: string)
    requires Wired(dag) && Planned(dag, feeds) && Known(dag.nodes, id) && IsBoundary(dag, id)
    ensures Feeder(dag, id, 0) in feeds
    ensures ReadsShared(dag, id) <==>
            Covers(feeds[Feeder(dag, id, 0)].source.paths, Referenced(NodeOf(dag, id).op.config.fields))
  {
    hide Wired, Find, Referenced, SourceAndMap, IsProviderField;
    var source, fields := NodeOf(dag, Feeder(dag, id, 0)), Referenced(NodeOf(dag, id).op.config.fields);
    assert Plannable(dag, SourceName(source.op));
    var planned := Referenced(SourceAndMap(dag, SourceName(source.op)).value.1.op.config.fields);
    var paths := feeds[source.id].source.paths;
    assert fields <= planned + {NETWORK} <==> forall p | p in fields && p != NETWORK :: p in planned;
    assert Selects(paths, planned);
  }

  /** No two Source nodes name the same source. */
  ghost predicate DistinctSources(nodes: seq<Node>) {
    forall m, n | m in nodes && n in nodes && m.op.Source? && n.op.Source? && SourceName(m.op) == SourceName(n.op) ::
      m == n
  }

  lemma SourceIsFound(dag: Dag, n: Node)
    requires n in dag.nodes && n.op.Source? && DistinctSources(dag.nodes)
    ensures FindSource(dag.nodes, SourceName(n.op)) == Some(n)
  {
  }

  lemma MapIsFound(dag: Dag, n: Node)
    requires n in dag.nodes && n.op.Mapping? && UniqueIds(dag.nodes)
    ensures FindMap(dag.nodes, n.id) == Some(n)
  {
    var m := FindMap(dag.nodes, n.id).value;
    FindUnique(dag.nodes, m);
    FindUnique(dag.nodes, n);
  }

  /** So it is if every Source node names a source of its own. */
  lemma DistinctSourcesRead(host: Host, dag: Dag)
    requires WellFormed(host, dag) && Wired(dag) && DistinctSources(dag.nodes)
    ensures SharedReads(dag)
  {
    hide WellFormed, Targets, Referenced, DistinctSources, Find;
    forall id | Known(dag.nodes, id) && IsBoundary(dag, id)
      ensures ReadsShared(dag, id)
    {
      var source, boundary := NodeOf(dag, Feeder(dag, id, 0)), NodeOf(dag, id);
      SourceIsFound(dag, source);
      MapIsFound(dag, boundary);
      OnlyTarget(host, dag, source, id);
    }
  }

  lemma OnlyTarget(host: Host, dag: Dag, source: Node, id: string)
    requires WellFormed(host, dag) && Wired(dag) && source in dag.nodes && source.op.Source?
    requires Known(dag.nodes, id) && Arity(dag, id) == 1 && InputPorts(NodeOf(dag, id).op) == ["rows"]
             && Feeder(dag, id, 0) == source.id
    ensures Targets(dag.edges, source.id) == [id]
  {
    hide Acyclic, Leads, IsNodeId, Outputs, Feeds, Targets, AtPort, Find, SourceIdentified, Version;
    FeederIsEdge(dag.edges, id, "rows", source.id);
    assert SourceOk(host, dag, source);
    TargetIsEdge(dag.edges, source.id, id);
  }

  /** What an accepted expression refers to are field paths. */
  lemma {:induction false} InferredPaths(host: Host, e: Expr, shape: Shape)
    requires Infer(host, e, shape).Success?
    ensures forall p | p in FieldsOf(e) :: ValidFieldPath(p)
    decreases e, 1
  {
    if e.Apply? {
      InferredAllPaths(host, e.inputs, shape);
    }
  }

  lemma {:induction false} InferredAllPaths(host: Host, es: seq<Expr>, shape: Shape)
    requires InferAll(host, es, shape).Success?
    ensures forall p | p in AllFieldsOf(es) :: ValidFieldPath(p)
    decreases es, 0
  {
    if es != [] {
      InferredPaths(host, es[0], shape);
      InferredAllPaths(host, es[1..], shape);
    }
  }

  lemma {:induction false} ReferencedPaths(host: Host, definitions: seq<Definition>, shape: Shape)
    requires forall d | d in definitions :: InferDefinition(host, d, shape).Success?
    ensures forall p | p in Referenced(definitions) :: ValidFieldPath(p)
  {
    if definitions != [] {
      hide Infer, ValidFieldPath;
      assert InferDefinition(host, definitions[0], shape).Success?;
      InferredPaths(host, definitions[0].expr, shape);
      ReferencedPaths(host, definitions[1..], shape);
    }
  }

  /** The fields a Map of a compiled plan reads are field paths. */
  lemma BoundaryPaths(host: Host, dag: Dag, id: string)
    requires Wired(dag) && Acyclic(dag) && Known(dag.nodes, id) && NodeOf(dag, id).op.Mapping?
             && ShapeOf(host, dag, id).Success?
    ensures forall p | p in Referenced(NodeOf(dag, id).op.config.fields) :: ValidFieldPath(p)
  {
    hide Wired, Acyclic, Find, Meaning, MapShape, InferDefinition, ValidFieldPath;
    MeaningUnfolds(dag, ShapeStep(host), id);
    ReferencedPaths(host, NodeOf(dag, id).op.config.fields, ShapesInto(host, dag, id).value[0]);
  }

  /** Providers that fail as providers, and whose entities have the declared types in the fields their Map reads. */
  ghost predicate FeedsFit(how: Precision, dag: Dag, feeds: map<string, LiveFeed>)
    requires Wired(dag)
  {
    && (forall id | id in feeds :: IsProvider(feeds[id].respond))
    && forall id | Known(dag.nodes, id) && IsBoundary(dag, id) && Feeder(dag, id, 0) in feeds ::
      FeedFitsAt(how, dag, feeds, id)
  }

  ghost predicate FeedFitsAt(how: Precision, dag: Dag, feeds: map<string, LiveFeed>, id: string)
    requires Wired(dag) && Known(dag.nodes, id) && IsBoundary(dag, id) && Feeder(dag, id, 0) in feeds
  {
    var source := NodeOf(dag, Feeder(dag, id, 0));
    source.op.schema.Some? ==>
      FeedFits(how, feeds[source.id], source.op.schema.value, Referenced(NodeOf(dag, id).op.config.fields))
  }

  /** In a compiled plan every node has its shape. */
  lemma AllShapes(host: Host, dag: Dag, id: string)
    requires WellFormed(host, dag) && Wired(dag) && Acyclic(dag) && Known(dag.nodes, id)
    requires Known(dag.nodes, OutputId(dag)) && ShapeOf(host, dag, OutputId(dag)).Success?
    ensures ShapeOf(host, dag, id).Success?
  {
    hide Wired, Acyclic, Find, Meaning, WellFormed, CompileNode;
    ShapeStepDemands(host);
    OutputNeedsAll(host, dag, ShapeStep(host), NodeOf(dag, id));
  }

  /** The rows the executor fetches fit: of a source schema, only the columns that are read need to be there. */
  lemma FetchedRowsFit(how: Precision, host: Host, dag: Dag, feeds: map<string, LiveFeed>)
    requires WellFormed(host, dag) && Wired(dag) && Acyclic(dag)
    requires Known(dag.nodes, OutputId(dag)) && ShapeOf(host, dag, OutputId(dag)).Success?
    requires Sufficient(dag, feeds) && FeedsFit(how, dag, feeds)
    ensures ProviderFits(how, dag, RowAnswers(feeds))
  {
    hide Wired, WellFormed, Acyclic, Find, Meaning, FetchFrom, Covers, FeedFits, RowsFit, ValidFieldPath, RowAnswers;
    var answers := RowAnswers(feeds);
    forall n | n in dag.nodes && n.op.Source? && Answer(answers, n.id).Failure?
      ensures Answer(answers, n.id).error.Unavailable?
    {
      if n.id in feeds {
        FetchFails(feeds[n.id], 0, [], feeds[n.id].source.initialCursor, false);
      }
    }
    forall id | Known(dag.nodes, id) && IsBoundary(dag, id)
      ensures SourceFits(how, dag, answers, id)
    {
      AllShapes(host, dag, id);
      BoundaryPaths(host, dag, id);
      var source := NodeOf(dag, Feeder(dag, id, 0));
      assert FeedFitsAt(how, dag, feeds, id);
      if source.op.schema.Some? {
        FetchedFit(how, feeds[source.id], source.op.schema.value, Referenced(NodeOf(dag, id).op.config.fields));
      }
    }
  }

  // ---------------------------------------------------------------- pruned plans

  /** What the sources would be if every entity came whole. */
  ghost function FullAnswers(feeds: map<string, LiveFeed>): (r: Answers)
    ensures forall id :: Answer(r, id) == FullAnswer(feeds, id)
  {
    map id | id in feeds :: FullAnswer(feeds, id)
  }

  ghost function FullAnswer(feeds: map<string, LiveFeed>, id: string): Try<seq<Row>> {
    var fetched :- Fetch1(feeds, id);
    if id !in feeds then Success([])
    else
      var source := feeds[id].source;
      Success(FullRows(source.network, EntitiesFrom(source, feeds[id].respond, 0, 0, source.initialCursor)))
  }

  lemma {:induction false} TryMapSame<A(!new), B>(a: seq<A>, b: seq<A>, f: A -> Try<B>)
    requires |a| == |b| && forall i | 0 <= i < |a| :: f(a[i]) == f(b[i])
    ensures TryMap(a, f) == TryMap(b, f)
  {
    if a != [] {
      TryMapSame(a[1..], b[1..], f);
    }
  }

  /** A projecting Map gives the same table on rows it cannot tell apart. */
  lemma SameTable(host: Host, config: MapConfig, a: seq<Row>, b: seq<Row>, schema: Shape, lenient: bool)
    requires config.mode.Project? && |a| == |b|
    requires forall i | 0 <= i < |a| :: SameReads(a[i], b[i], Referenced(config.fields))
    ensures Run(host, Mapping(config), [Table(a, schema)], lenient) ==
            Run(host, Mapping(config), [Table(b, schema)], lenient)
  {
    hide MapRow, SameReads, RunMapShape, ValidMap;
    forall i | 0 <= i < |a|
      ensures Mapper(host, config, schema)(a[i]) == Mapper(host, config, schema)(b[i])
    {
      MapReads(host, a[i], b[i], config, schema);
    }
    TryMapSame(a, b, Mapper(host, config, schema));
  }

  /** A boundary Map denotes the same on what was fetched as on the whole entities. */
  lemma BoundarySame(host: Host, dag: Dag, feeds: map<string, LiveFeed>, lenient: bool, id: string)
    requires Wired(dag) && Acyclic(dag) && Known(dag.nodes, id) && IsBoundary(dag, id) && Sufficient(dag, feeds)
    requires NodeOf(dag, id).op.config.mode.Project? && NodeOf(dag, Feeder(dag, id, 0)).op.schema.Some?
    requires forall p | p in Referenced(NodeOf(dag, id).op.config.fields) :: ValidFieldPath(p)
    ensures Denote(host, dag, RowAnswers(feeds), lenient, id) == Denote(host, dag, FullAnswers(feeds), lenient, id)
  {
    hide Wired, Acyclic, Find, Meaning, FetchFrom, Covers, ValidFieldPath, RowAnswers, FullAnswers, Run, EntitiesFrom,
      Denote, FullRows, SameReads;
    var from, config := Feeder(dag, id, 0), NodeOf(dag, id).op.config;
    var schema := NodeOf(dag, from).op.schema.value;
    OneInput(host, dag, RowAnswers(feeds), lenient, id, from);
    OneInput(host, dag, FullAnswers(feeds), lenient, id, from);
    SourceTable(host, dag, RowAnswers(feeds), lenient, from, schema);
    SourceTable(host, dag, FullAnswers(feeds), lenient, from, schema);
    if Fetch1(feeds, from).Success? {
      FetchedReads(feeds[from], Referenced(config.fields));
      SameTable(host, config, Answer(RowAnswers(feeds), from).value, Answer(FullAnswers(feeds), from).value, schema,
        lenient);
    }
  }

  /** Projection pruning, for the whole plan: beyond the sources every node of a compiled plan denotes the same
      table, or the same failure, on the rows rebuilt from the planned paths as on the whole provider rows. */
  lemma {:induction false} PrunedPlanMeansTheSame(host: Host, dag: Dag, feeds: map<string, LiveFeed>, lenient: bool,
      id: string)
    requires WellFormed(host, dag) && Wired(dag) && Acyclic(dag) && Sufficient(dag, feeds)
    requires Known(dag.nodes, OutputId(dag)) && ShapeOf(host, dag, OutputId(dag)).Success?
    requires Known(dag.nodes, id) && !NodeOf(dag, id).op.Source?
    ensures Denote(host, dag, RowAnswers(feeds), lenient, id) == Denote(host, dag, FullAnswers(feeds), lenient, id)
    decreases LevelsOf(dag)[id]
  {
    hide WellFormed, Wired, Acyclic, Find, Meaning, Levels, RunNode, RowAnswers, FullAnswers, ValidFieldPath,
      Sufficient, CompileNode;
    if IsBoundary(dag, id) {
      FeederKinds(host, dag, id, 0);
      AllShapes(host, dag, id);
      BoundaryPaths(host, dag, id);
      SourceSchema(host, dag, Feeder(dag, id, 0));
      BoundarySame(host, dag, feeds, lenient, id);
    } else {
      var a, b := RunStep(host, RowAnswers(feeds), lenient), RunStep(host, FullAnswers(feeds), lenient);
      MeaningUnfolds(dag, a, id);
      MeaningUnfolds(dag, b, id);
      forall k: nat | k < Arity(dag, id)
        ensures MeaningInputs(dag, a, id)[k] == MeaningInputs(dag, b, id)[k]
      {
        FeederKinds(host, dag, id, k);
        PrunedPlanMeansTheSame(host, dag, feeds, lenient, Feeder(dag, id, k));
      }
      assert MeaningInputs(dag, a, id) == MeaningInputs(dag, b, id);
      NotFetched(host, RowAnswers(feeds), FullAnswers(feeds), NodeOf(dag, id), MeaningInputs(dag, a, id), lenient);
    }
  }

  lemma SourceSchema(host: Host, dag: Dag, id: string)
    requires WellFormed(host, dag) && Wired(dag) && Acyclic(dag) && Known(dag.nodes, id) && NodeOf(dag, id).op.Source?
    requires Known(dag.nodes, OutputId(dag)) && ShapeOf(host, dag, OutputId(dag)).Success?
    ensures NodeOf(dag, id).op.schema.Some?
  {
    hide WellFormed, Wired, Acyclic, Find, Meaning, ValidSchema;
    AllShapes(host, dag, id);
    MeaningUnfolds(dag, ShapeStep(host), id);
  }

  lemma NotFetched(host: Host, a: Answers, b: Answers, n: Node, inputs: seq<Try<Table>>, lenient: bool)
    requires !n.op.Source?
    ensures RunStep(host, a, lenient)(n, inputs) == RunStep(host, b, lenient)(n, inputs)
  {
    hide Run;
  }
}
