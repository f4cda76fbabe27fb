/** The live executor (deployments/runtime.ts): its pending-set schedule, proved to compute the recursive
    meaning of the plan, to fetch every source once, and to stop. */
module LiveRun {
  import opened Wrappers
  import opened Values
  import opened Ordering
  import opened Expressions
  import opened Maps
  import opened Sorting
  import opened Filtering
  import opened Aggregation
  import opened Joins
  import opened Operators
  import opened Dags
  import opened Paging
  import Graphs

  /** A source of the plan and the provider behind it: what it will answer to each request of this run. */
  datatype LiveFeed = LiveFeed(source: LiveSource, respond: Responder)

  /** The graph clients of a run, and the fetches made so far. */
  class LiveGraph {
    const feeds: map<string, LiveFeed>
    var log: seq<string>

    constructor (feeds: map<string, LiveFeed>)
      ensures this.feeds == feeds && log == []
    {
      this.feeds := feeds;
      log := [];
    }

    method Fetch(id: string) returns (r: Try<Fetched>)
      modifies this
      ensures log == old(log) + [id]
      ensures r == Fetch1(feeds, id)
    {
      log := log + [id];
      if id in feeds {
        r := FetchLiveSource(feeds[id].source, feeds[id].respond);
      } else {
        r := Failure(Unavailable(id));
      }
    }
  }

  function Fetch1(feeds: map<string, LiveFeed>, id: string): Try<Fetched> {
    if id in feeds then FetchFrom(feeds[id].source, feeds[id].respond, 0, [], feeds[id].source.initialCursor, false)
    else Failure(Unavailable(id))
  }

  /** The rows that fetching each source yields. */
  function RowAnswers(feeds: map<string, LiveFeed>): (r: Answers)
    ensures forall id :: Answer(r, id) == match Fetch1(feeds, id) case Success(f) => Success(f.rows) case Failure(e) =>
            Failure(e)
  {
    map id | id in feeds :: match Fetch1(feeds, id) case Success(f) => Success(f.rows) case Failure(e) => Failure(e)
  }

  datatype Totals = Totals(requests: nat, rows: nat, rowLimitReached: bool)

  function Tally(t: Totals, f: Fetched): Totals {
    Totals(t.requests + f.requests, t.rows + |f.rows|, t.rowLimitReached || f.rowLimitReached)
  }

  function TotalsOf(feeds: map<string, LiveFeed>, log: seq<string>): Totals {
    if log == [] then Totals(0, 0, false)
    else
      var before, last := TotalsOf(feeds, log[..|log| - 1]), Fetch1(feeds, log[|log| - 1]);
      if last.Success? then Tally(before, last.value) else before
  }

  ghost predicate AllFetched(feeds: map<string, LiveFeed>, log: seq<string>) {
    forall id | id in log :: Fetch1(feeds, id).Success?
  }

  ghost function Sum(s: seq<nat>): nat {
    if s == [] then 0 else Sum(s[..|s| - 1]) + s[|s| - 1]
  }

  /** What a run reports about its sources: all their requests, all their rows, and whether one of them
      reached its row limit. */
  ghost predicate Sums(feeds: map<string, LiveFeed>, log: seq<string>, t: Totals)
    requires AllFetched(feeds, log)
  {
    && t.requests == Sum(seq(|log|, i requires 0 <= i < |log| => Fetch1(feeds, log[i]).value.requests))
    && t.rows == Sum(seq(|log|, i requires 0 <= i < |log| => |Fetch1(feeds, log[i]).value.rows|))
    && (t.rowLimitReached <==> exists id :: id in log && Fetch1(feeds, id).value.rowLimitReached)
  }

  lemma SumNext(s: seq<nat>, t: seq<nat>)
    requires |t| == |s| + 1 && forall i | 0 <= i < |s| :: t[i] == s[i]
    ensures Sum(t) == Sum(s) + t[|s|]
  {
    assert t[..|t| - 1] == s;
  }

  /** The running tally adds up every fetch. */
  lemma {:induction false} TalliesAreSums(feeds: map<string, LiveFeed>, log: seq<string>)
    requires AllFetched(feeds, log)
    ensures Sums(feeds, log, TotalsOf(feeds, log))
  {
    if log != [] {
      hide Fetch1, Sum;
      var init, id := log[..|log| - 1], log[|log| - 1];
      assert log == init + [id];
      TalliesAreSums(feeds, init);
      SumNext(seq(|init|, i requires 0 <= i < |init| => Fetch1(feeds, init[i]).value.requests),
        seq(|log|, i requires 0 <= i < |log| => Fetch1(feeds, log[i]).value.requests));
      SumNext(seq(|init|, i requires 0 <= i < |init| => |Fetch1(feeds, init[i]).value.rows|),
        seq(|log|, i requires 0 <= i < |log| => |Fetch1(feeds, log[i]).value.rows|));
    }
  }

  datatype LiveResult = LiveResult(rows: seq<Row>, totals: Totals)

  // ---------------------------------------------------------------- one operator

  /** The errors an operator may abort with. */
  ghost predicate CanFail(host: Host, op: Op, inputs: seq<Table>, e: Error)
    requires |inputs| == |InputPorts(op)| && !op.Source?
  {
    && Run(host, op, inputs, false).Failure?
    && match op
       case Sort(config) => !ValidSort(config, inputs[0].shape)
         || Throws(host, inputs[0].rows, config, inputs[0].shape, e)
       case Mapping(config) => !ValidMap(host, config, inputs[0].shape) || Run(host, op, inputs, false).error == e
       case _ => Run(host, op, inputs, false).error == e
  }

  method MapOutputShape(host: Host, config: MapConfig, input: Shape) returns (r: Try<Shape>)
    ensures r == RunMapShape(host, config.fields, input, if config.mode.Extend? then input else [])
  {
    var output: Shape := if config.mode.Extend? then input else [];
    ghost var start := output;
    hide InferExpression, SetField;
    assert config.fields[0..] == config.fields;
    for j := 0 to |config.fields|
      invariant RunMapShape(host, config.fields, input, start) == RunMapShape(host, config.fields[j..], input, output)
    {
      var d := config.fields[j];
      assert config.fields[j..][0] == d && config.fields[j..][1..] == config.fields[j + 1..];
      var inferred := InferExpression(host, d.expr, input);
      if inferred.Failure? {
        return Failure(inferred.error);
      }
      var t := inferred.value;
      output := SetField(output, Field(d.name, t.ty, t.nullable, if d.unit.Some? then d.unit else t.unit));
    }
    r := Success(output);
  }

  /** A node that is not a source, from the tables on its ports. */
  method RunOperator(host: Host, op: Op, inputs: seq<Table>) returns (r: Try<Table>)
    requires |inputs| == |InputPorts(op)| && !op.Source?
    ensures r.Success? ==> Run(host, op, inputs, true) == r
    ensures r.Failure? ==> CanFail(host, op, inputs, r.error)
  {
    hide FilterRows, TryFilter, RunMapShape, MapRows, ValidMap, AggregateRows, RunAggregateShape, ValidSort, Throws,
      JoinRows, RunJoinShape, PickRows, PickShape;
    match op
    case FilterPredicate(p) =>
      var rows := FilterRows(host, inputs[0].rows, p, inputs[0].shape);
      r := if rows.Failure? then Failure(rows.error) else Success(Table(rows.value, inputs[0].shape));
    case FilterExpression(e) =>
      var rows := TryFilter(inputs[0].rows, ExpressionKeeper(host, e, inputs[0].shape));
      r := if rows.Failure? then Failure(rows.error) else Success(Table(rows.value, inputs[0].shape));
    case Mapping(config) =>
      var shape := MapOutputShape(host, config, inputs[0].shape);
      if shape.Failure? {
        return Failure(shape.error);
      }
      var rows := MapRowsLoop(host, inputs[0].rows, config, inputs[0].shape);
      r := if rows.Failure? then Failure(rows.error) else Success(Table(rows.value, shape.value));
    case Aggregate(groupBy, measures) =>
      var rows := AggregateLoop(host, inputs[0].rows, groupBy, measures, inputs[0].shape);
      var shape := RunAggregateShape(groupBy, measures, inputs[0].shape);
      r := if rows.Failure? then Failure(rows.error) else if shape.Failure? then Failure(shape.error)
        else Success(Table(rows.value, shape.value));
    case Sort(config) =>
      var rows := SortRows(host, inputs[0].rows, config, inputs[0].shape);
      r := if rows.Failure? then Failure(rows.error) else Success(Table(rows.value, inputs[0].shape));
    case Union(discriminator) =>
      var left, right := inputs[0], inputs[1];
      if discriminator.None? {
        r := Success(Table(left.rows + right.rows, left.shape));
      } else {
        r := Success(Table(
            WithColumn(left.rows, discriminator.value, Text("left")) + WithColumn(right.rows, discriminator.value,
              Text("right")),
            left.shape + [Field(discriminator.value, StringType, false, None)]));
      }
    case Join(config) =>
      var rows := HashJoin(inputs[0].rows, inputs[1].rows, config);
      r := Success(Table(rows, RunJoinShape(config, inputs[0].shape, inputs[1].shape)));
    case Output(fields) =>
      r := Success(Table(PickRows(inputs[0].rows, fields), PickShape(inputs[0].shape, fields)));
  }

  // ---------------------------------------------------------------- the schedule

  /** incomingFor: a Map from port to node, so that a later connection of a port would win. */
  function PortMap(feeds: seq<Feed>): map<string, string> {
    if feeds == [] then map[]
    else PortMap(feeds[..|feeds| - 1])[feeds[|feeds| - 1].port := feeds[|feeds| - 1].from]
  }

  function IncomingFor(dag: Dag, id: string): map<string, string> {
    PortMap(Feeds(dag.edges, id))
  }

  lemma {:induction false} PortMapIs(feeds: seq<Feed>, port: string)
    ensures port in PortMap(feeds) <==> AtPort(feeds, port) != []
    ensures port in PortMap(feeds) ==> PortMap(feeds)[port] == AtPort(feeds, port)[|AtPort(feeds, port)| - 1]
  {
    if feeds != [] {
      PortMapIs(feeds[..|feeds| - 1], port);
    }
  }

  /** In a wired graph the incoming map is exactly the feeders of the ports. */
  lemma IncomingIs(dag: Dag, id: string)
    requires Wired(dag) && Known(dag.nodes, id)
    ensures var ports := InputPorts(NodeOf(dag, id).op);
            && (forall port :: port in IncomingFor(dag, id) <==> port in ports)
            && forall k: nat | k < |ports| :: IncomingFor(dag, id)[ports[k]] == Feeder(dag, id, k)
  {
    hide Feeds, AtPort, PortMap, Find, UniqueIds;
    var ports := InputPorts(NodeOf(dag, id).op);
    forall port
      ensures port in IncomingFor(dag, id) <==> port in ports
    {
      PortMapIs(Feeds(dag.edges, id), port);
      if Feeders(dag.edges, id, port) != [] {
        var from := Feeders(dag.edges, id, port)[0];
        assert from in Feeders(dag.edges, id, port);
        FeederIsEdge(dag.edges, id, port, from);
        var e :| e in dag.edges && e.toNode == id && e.toPort == port && e.fromNode == from;
        assert ConnectionOk(dag.nodes, e);
      }
    }
    forall k: nat | k < |ports|
      ensures IncomingFor(dag, id)[ports[k]] == Feeder(dag, id, k)
    {
      PortMapIs(Feeds(dag.edges, id), ports[k]);
    }
  }

  lemma IncomingReady(dag: Dag, id: string, done: set<string>)
    requires Wired(dag) && Known(dag.nodes, id)
    ensures (forall port | port in IncomingFor(dag, id) :: IncomingFor(dag, id)[port] in done) <==> Ready(dag, id, done)
  {
    hide Wired, Find, Feeder, IncomingFor;
    IncomingIs(dag, id);
  }

  /** Every node that feeds it has its rows. */
  ghost predicate Ready(dag: Dag, id: string, done: set<string>)
    requires Wired(dag) && Known(dag.nodes, id)
  {
    forall k: nat | k < Arity(dag, id) :: Feeder(dag, id, k) in done
  }

  ghost function Tables(rowsByNode: map<string, seq<Row>>, shapes: map<string, Shape>): (r: map<string, Try<Table>>)
    requires rowsByNode.Keys == shapes.Keys
    ensures r.Keys == rowsByNode.Keys && forall id | id in r :: r[id] == Success(Table(rowsByNode[id], shapes[id]))
  {
    map id | id in rowsByNode :: Success(Table(rowsByNode[id], shapes[id]))
  }

  lemma TablesNext(rowsByNode: map<string, seq<Row>>, shapes: map<string, Shape>, id: string, table: Table)
    requires rowsByNode.Keys == shapes.Keys
    ensures rowsByNode[id := table.rows].Keys == shapes[id := table.shape].Keys == rowsByNode.Keys + {id}
    ensures Tables(rowsByNode[id := table.rows], shapes[id := table.shape]) == Tables(rowsByNode, shapes)[id :=
            Success(table)]
  {
  }

  /** Why a run stops at a node whose inputs were all computed. */
  ghost predicate NodeFails(host: Host, dag: Dag, answers: Answers, id: string, e: Error)
    requires Wired(dag) && Acyclic(dag)
  {
    && Known(dag.nodes, id)
    && var op, inputs := NodeOf(dag, id).op, Collect(MeaningInputs(dag, RunStep(host, answers, true), id));
    && inputs.Success? && |inputs.value| == |InputPorts(op)|
    && if op.Source? then Answer(answers, id) == Failure(e) || (op.schema.None? && e.Unavailable?)
       else CanFail(host, op, inputs.value, e)
  }

  const UNSCHEDULABLE: Error := Unavailable("Compiled DAG could not be scheduled")

  function Without(s: seq<string>, id: string): (r: seq<string>)
    ensures forall x :: x in r <==> x in s && x != id
    ensures id in s ==> |r| < |s|
    ensures id !in s ==> r == s
    ensures Graphs.Distinct(s) ==> Graphs.Distinct(r)
  {
    if s == [] then []
    else if s[0] == id then Without(s[1..], id)
    else
      var rest := Without(s[1..], id);
      assert s == [s[0]] + s[1..];
      assert Graphs.Distinct(s) ==> Graphs.Distinct(s[1..]) && s[0] !in s[1..];
      [s[0]] + rest
  }

  /** Every node was computed after the nodes that feed it. */
  ghost predicate InOrder(dag: Dag, at: map<string, nat>, clock: nat)
    requires Wired(dag)
  {
    && (forall id | id in at :: Known(dag.nodes, id) && at[id] < clock)
    && forall id, k: nat | id in at && k < Arity(dag, id) :: Feeder(dag, id, k) in at && at[Feeder(dag, id, k)] < at[id]
  }

  lemma InOrderNext(dag: Dag, at: map<string, nat>, clock: nat, id: string)
    requires Wired(dag) && InOrder(dag, at, clock) && Known(dag.nodes, id) && id !in at && Ready(dag, id, at.Keys)
    ensures InOrder(dag, at[id := clock], clock + 1)
  {
    hide Wired, Find, Feeder;
  }

  /** The pending nodes, each once, and the computed ones make up the graph. */
  ghost predicate Split(dag: Dag, pending: seq<string>, done: set<string>) {
    Graphs.Distinct(pending) && forall id :: id in pending <==> Known(dag.nodes, id) && id !in done
  }

  lemma SplitNext(dag: Dag, pending: seq<string>, done: set<string>, id: string)
    requires Split(dag, pending, done)
    ensures Split(dag, Without(pending, id), done + {id})
  {
    hide Find;
  }

  /** Every computed source was fetched, nothing else was, and nothing twice. */
  ghost predicate FetchedOnce(dag: Dag, log: seq<string>, done: set<string>) {
    && Graphs.Distinct(log)
    && forall id :: id in log <==> id in done && Known(dag.nodes, id) && NodeOf(dag, id).op.Source?
  }

  lemma FetchedNext(dag: Dag, log: seq<string>, done: set<string>, id: string)
    requires FetchedOnce(dag, log, done) && Known(dag.nodes, id) && id !in done
    ensures FetchedOnce(dag, if NodeOf(dag, id).op.Source? then log + [id] else log, done + {id})
  {
    hide Find;
  }

  class LiveExecutor {
    const host: Host
    const dag: Dag
    const graph: LiveGraph
    ghost const answers: Answers
    var pending: seq<string>
    var rowsByNode: map<string, seq<Row>>
    var shapes: map<string, Shape>
    var totals: Totals
    /** When each node was computed. */
    ghost var at: map<string, nat>
    ghost var clock: nat

    ghost predicate Valid()
      reads this, graph
    {
      && Wired(dag) && answers == RowAnswers(graph.feeds)
      && rowsByNode.Keys == shapes.Keys == at.Keys && Split(dag, pending, rowsByNode.Keys)
      && Computed(dag, RunStep(host, answers, true), Tables(rowsByNode, shapes))
      && InOrder(dag, at, clock)
      && FetchedOnce(dag, graph.log, rowsByNode.Keys)
      && AllFetched(graph.feeds, graph.log) && totals == TotalsOf(graph.feeds, graph.log)
    }

    constructor (host: Host, dag: Dag, graph: LiveGraph)
      requires Wired(dag) && graph.log == []
      ensures Valid() && this.host == host && this.dag == dag && this.graph == graph
      ensures |pending| == |dag.nodes|
    {
      this.host, this.dag, this.graph := host, dag, graph;
      answers := RowAnswers(graph.feeds);
      pending := Ids(dag.nodes);
      rowsByNode, shapes := map[], map[];
      totals := Totals(0, 0, false);
      at, clock := map[], 0;
      new;
      hide Wired, Find;
      forall id
        ensures id in Ids(dag.nodes) <==> Known(dag.nodes, id)
      {
        IdsAreKnown(dag.nodes, id);
      }
    }

    /** The tables on the ports of a ready node. */
    method Inputs(id: string) returns (inputs: seq<Table>)
      requires Valid() && Known(dag.nodes, id) && Ready(dag, id, rowsByNode.Keys)
      ensures |inputs| == Arity(dag, id)
      ensures Collect(Gather(dag, Tables(rowsByNode, shapes), id)) == Success(inputs)
    {
      hide Wired, Find, Feeder, IncomingFor, Computed, InOrder, FetchedOnce, TotalsOf, RunNode;
      IncomingIs(dag, id);
      var incoming, ports := IncomingFor(dag, id), InputPorts(NodeOf(dag, id).op);
      inputs := [];
      for k := 0 to |ports|
        invariant |inputs| == k
        invariant forall j: nat | j < k :: Gather(dag, Tables(rowsByNode, shapes), id)[j] == Success(inputs[j])
      {
        var from := incoming[ports[k]];
        inputs := inputs + [Table(rowsByNode[from], shapes[from])];
      }
      CollectAll(Gather(dag, Tables(rowsByNode, shapes), id), inputs);
    }

    /** rowsByNode.set, shapes.set and pending.delete, once the table of a ready node is known. */
    method Record(id: string, table: Table)
      requires Wired(dag) && answers == RowAnswers(graph.feeds)
      requires Known(dag.nodes, id) && id !in rowsByNode && Ready(dag, id, rowsByNode.Keys)
      requires rowsByNode.Keys == shapes.Keys == at.Keys && Split(dag, pending, rowsByNode.Keys)
      requires Computed(dag, RunStep(host, answers, true), Tables(rowsByNode, shapes)[id := Success(table)])
               && InOrder(dag, at, clock)
      requires FetchedOnce(dag, graph.log, rowsByNode.Keys + {id})
      requires AllFetched(graph.feeds, graph.log) && totals == TotalsOf(graph.feeds, graph.log)
      modifies this`pending, this`rowsByNode, this`shapes, this`at, this`clock
      ensures Valid() && pending == Without(old(pending), id) && rowsByNode.Keys == old(rowsByNode.Keys) + {id}
    {
      hide Wired, Find, Feeder, RunStep, RunNode, TotalsOf, AllFetched, Computed, RowAnswers, InOrder, Split,
        FetchedOnce, Without,
        Ready, Gather, Tables, Valid;
      InOrderNext(dag, at, clock, id);
      SplitNext(dag, pending, rowsByNode.Keys, id);
      TablesNext(rowsByNode, shapes, id, table);
      rowsByNode, shapes := rowsByNode[id := table.rows], shapes[id := table.shape];
      pending := Without(pending, id);
      at, clock := at[id := clock], clock + 1;
      Assembled();
    }

    lemma Assembled()
      requires Wired(dag) && answers == RowAnswers(graph.feeds)
      requires rowsByNode.Keys == shapes.Keys == at.Keys && Split(dag, pending, rowsByNode.Keys)
      requires Computed(dag, RunStep(host, answers, true), Tables(rowsByNode, shapes)) && InOrder(dag, at, clock)
      requires FetchedOnce(dag, graph.log, rowsByNode.Keys)
      requires AllFetched(graph.feeds, graph.log) && totals == TotalsOf(graph.feeds, graph.log)
      ensures Valid()
    {
      hide Wired, Find, RunStep, TotalsOf, AllFetched, Computed, RowAnswers, InOrder, Split, FetchedOnce, Tables;
    }

    method ComputeSource(id: string) returns (error: Option<Error>)
      requires Valid() && Known(dag.nodes, id) && id !in rowsByNode && NodeOf(dag, id).op.Source?
      modifies this, graph
      ensures error.None? ==>
              Valid() && pending == Without(old(pending), id)
              && rowsByNode.Keys == old(rowsByNode.Keys) + {id}
      ensures error.Some? && Acyclic(dag) ==> NodeFails(host, dag, answers, id, error.value)
    {
      hide Wired, Find, Feeder, RunStep, Acyclic, Computed, InOrder, NodeFails, RowAnswers, Split, FetchedOnce;
      FetchedNext(dag, graph.log, rowsByNode.Keys, id);
      var op := NodeOf(dag, id).op;
      ghost var values := Tables(rowsByNode, shapes);
      assert Gather(dag, values, id) == [];
      SourceFailure(id);
      if op.schema.None? {
        return Some(Unavailable(id));
      }
      var fetched := graph.Fetch(id);
      if fetched.Failure? {
        return Some(fetched.error);
      }
      totals := Tally(totals, fetched.value);
      var table := Table(fetched.value.rows, op.schema.value);
      assert Answer(answers, id) == Success(fetched.value.rows);
      SourceStep(host, answers, NodeOf(dag, id));
      ExtendComputed(dag, RunStep(host, answers, true), values, id);
      assert graph.log[..|graph.log| - 1] == old(graph.log);
      Record(id, table);
      error := None;
    }

    lemma SourceFailure(id: string)
      requires Wired(dag) && Known(dag.nodes, id) && NodeOf(dag, id).op.Source?
      ensures Acyclic(dag) ==> forall e :: Answer(answers, id) == Failure(e) ==> NodeFails(host, dag, answers, id, e)
      ensures Acyclic(dag) && NodeOf(dag, id).op.schema.None? ==> NodeFails(host, dag, answers, id, Unavailable(id))
    {
      hide Wired, Find, RunNode, Acyclic, Meaning;
      if Acyclic(dag) {
        assert MeaningInputs(dag, RunStep(host, answers, true), id) == [];
        CollectAll<Table>([], []);
      }
    }

    method ComputeOperator(id: string) returns (error: Option<Error>)
      requires Valid() && Known(dag.nodes, id) && id !in rowsByNode && !NodeOf(dag, id).op.Source?
      requires Ready(dag, id, rowsByNode.Keys)
      modifies this
      ensures error.None? ==>
              Valid() && pending == Without(old(pending), id)
              && rowsByNode.Keys == old(rowsByNode.Keys) + {id}
      ensures error.Some? && Acyclic(dag) ==> NodeFails(host, dag, answers, id, error.value)
    {
      hide Wired, Find, Feeder, RunStep, Run, Acyclic, Computed, InOrder, Meaning, CanFail, TotalsOf, RowAnswers, Split,
        FetchedOnce;
      FetchedNext(dag, graph.log, rowsByNode.Keys, id);
      ghost var values := Tables(rowsByNode, shapes);
      var inputs := Inputs(id);
      var table := RunOperator(host, NodeOf(dag, id).op, inputs);
      if table.Failure? {
        if Acyclic(dag) {
          GatheredIsMeaning(dag, RunStep(host, answers, true), values, id);
        }
        return Some(table.error);
      }
      OperatorStep(host, answers, NodeOf(dag, id), Gather(dag, values, id), inputs);
      ExtendComputed(dag, RunStep(host, answers, true), values, id);
      Record(id, table.value);
      error := None;
    }

    /** The body of the inner loop for a ready node. */
    method Compute(id: string) returns (error: Option<Error>)
      requires Valid() && id in pending && Ready(dag, id, rowsByNode.Keys)
      modifies this, graph
      ensures error.None? ==>
              Valid() && pending == Without(old(pending), id)
              && rowsByNode.Keys == old(rowsByNode.Keys) + {id}
      ensures error.Some? && Acyclic(dag) ==> NodeFails(host, dag, answers, id, error.value)
    {
      hide Wired, Find, Feeder, RunStep, RunNode, TotalsOf, AllFetched, Computed, RowAnswers, InOrder, FetchedOnce,
        Without, Ready,
        Gather, Tables, NodeFails, Acyclic;
      if NodeOf(dag, id).op.Source? {
        error := ComputeSource(id);
      } else {
        error := ComputeOperator(id);
      }
    }

    /** One pass over a snapshot of the pending set. Without progress, no pending node was ready. */
    method Pass() returns (progressed: bool, error: Option<Error>, ghost failing: string)
      requires Valid()
      modifies this, graph
      ensures error.None? ==> Valid() && (progressed ==> |pending| < |old(pending)|)
      ensures error.None? && !progressed ==>
              pending == old(pending)
              && forall id | id in pending :: Known(dag.nodes, id) && !Ready(dag, id, rowsByNode.Keys)
      ensures error.Some? && Acyclic(dag) ==> NodeFails(host, dag, answers, failing, error.value)
    {
      hide Wired, Find, Feeder, RunStep, RunNode, TotalsOf, AllFetched, Computed, RowAnswers, InOrder, FetchedOnce,
        Ready, Gather,
        Tables, NodeFails, Acyclic, IncomingFor;
      var snapshot := pending;
      progressed, error, failing := false, None, "";
      for i := 0 to |snapshot|
        invariant Valid() && error.None?
        invariant forall j | i <= j < |snapshot| :: snapshot[j] in pending
        invariant progressed ==> |pending| < |snapshot|
        invariant !progressed ==> pending == snapshot
        invariant !progressed ==>
                  forall j | 0 <= j < i :: Known(dag.nodes, snapshot[j]) && !Ready(dag, snapshot[j], rowsByNode.Keys)
      {
        var id := snapshot[i];
        IncomingReady(dag, id, rowsByNode.Keys);
        var incoming := IncomingFor(dag, id);
        if exists port | port in incoming :: incoming[port] !in rowsByNode {
          continue;
        }
        error := Compute(id);
        if error.Some? {
          failing := id;
          return;
        }
        progressed := true;
      }
    }
  }

  /** On an acyclic graph some pending node is always ready. */
  lemma {:induction false} SomeReady(dag: Dag, pending: seq<string>, done: set<string>, level: map<string, nat>,
      id: string)
    requires Wired(dag) && Levels(dag, level) && Split(dag, pending, done) && id in pending
    requires forall x | x in pending :: Known(dag.nodes, x) && !Ready(dag, x, done)
    ensures false
    decreases if id in level then level[id] else 0
  {
    hide Wired, Find, Feeder, Levels;
    var k: nat :| k < Arity(dag, id) && Feeder(dag, id, k) !in done;
    SomeReady(dag, pending, done, level, Feeder(dag, id, k));
  }

  lemma SourceStep(host: Host, answers: Answers, n: Node)
    requires n.op.Source? && n.op.schema.Some? && Answer(answers, n.id).Success?
    ensures RunStep(host, answers, true)(n, []) == Success(Table(Answer(answers, n.id).value, n.op.schema.value))
  {
    hide Run;
    CollectAll<Table>([], []);
  }

  lemma OperatorStep(host: Host, answers: Answers, n: Node, inputs: seq<Try<Table>>, tables: seq<Table>)
    requires !n.op.Source? && Collect(inputs) == Success(tables) && |tables| == |InputPorts(n.op)|
    ensures RunStep(host, answers, true)(n, inputs) == Run(host, n.op, tables, true)
  {
    hide Run;
  }

  lemma OrderIsLevels(dag: Dag, at: map<string, nat>, clock: nat)
    requires Wired(dag) && InOrder(dag, at, clock) && forall id :: Known(dag.nodes, id) ==> id in at
    ensures Acyclic(dag)
  {
    hide Wired, Find, Feeder;
    forall n | n in dag.nodes
      ensures n.id in at
    {
      assert Known(dag.nodes, n.id);
    }
    forall e | e in dag.edges
      ensures e.fromNode in at && e.toNode in at && at[e.fromNode] < at[e.toNode]
    {
      var k := EdgeIsFeeder(dag, e);
    }
    assert Levels(dag, at);
  }

  /** executeLivePlan. It returns exactly when the graph is acyclic and no node fails, and then it returns the
      rows the plan means, having fetched every source once; a failing run stopped at a node whose inputs were
      all computed. */
  method ExecuteLivePlan(host: Host, dag: Dag, graph: LiveGraph) returns (r: Try<LiveResult>, ghost failing: string)
    requires Wired(dag) && |Outputs(dag.nodes)| == 1 && graph.log == []
    modifies graph
    ensures Known(dag.nodes, OutputId(dag))
    ensures r.Success? ==> Acyclic(dag)
    ensures r.Success? ==>
              var meaning := Denote(host, dag, RowAnswers(graph.feeds), true, OutputId(dag));
              meaning.Success? && r.value.rows == meaning.value.rows
    ensures r.Success? ==> FetchedOnce(dag, graph.log, set n | n in dag.nodes :: n.id)
    ensures r.Success? ==> AllFetched(graph.feeds, graph.log) && Sums(graph.feeds, graph.log, r.value.totals)
    ensures r.Failure? && Acyclic(dag) ==> NodeFails(host, dag, RowAnswers(graph.feeds), failing, r.error)
  {
    hide Wired, Find, Feeder, RunStep, RunNode, TotalsOf, AllFetched, Computed, RowAnswers, InOrder, Ready, Gather,
      NodeFails,
      Acyclic, Outputs, Meaning, Sums;
    OutputIsNode(dag);
    failing := "";
    var executor := new LiveExecutor(host, dag, graph);
    while executor.pending != []
      invariant fresh(executor) && executor.Valid() && executor.host == host && executor.dag == dag
                && executor.graph == graph
      decreases |executor.pending|
    {
      var progressed, error;
      progressed, error, failing := executor.Pass();
      if error.Some? {
        return Failure(error.value), failing;
      }
      if !progressed {
        Stuck(dag, executor.pending, executor.rowsByNode.Keys);
        return Failure(UNSCHEDULABLE), failing;
      }
    }
    var output := Outputs(dag.nodes)[0];
    AllComputed(host, dag, executor.answers, executor.rowsByNode, executor.shapes, executor.at, executor.clock);
    TalliesAreSums(graph.feeds, graph.log);
    r := Success(LiveResult(executor.rowsByNode[output.id], executor.totals));
  }

  lemma Stuck(dag: Dag, pending: seq<string>, done: set<string>)
    requires Wired(dag) && Split(dag, pending, done) && pending != []
    requires forall x | x in pending :: Known(dag.nodes, x) && !Ready(dag, x, done)
    ensures !Acyclic(dag)
  {
    hide Wired, Find, Ready;
    forall level | Levels(dag, level)
      ensures false
    {
      SomeReady(dag, pending, done, level, pending[0]);
    }
  }

  lemma AllComputed(host: Host, dag: Dag, answers: Answers, rowsByNode: map<string, seq<Row>>, shapes: map<string,
      Shape>, at: map<string, nat>, clock: nat)
    requires Wired(dag) && |Outputs(dag.nodes)| == 1
    requires rowsByNode.Keys == shapes.Keys == at.Keys && InOrder(dag, at, clock) && Split(dag, [], rowsByNode.Keys)
    requires Computed(dag, RunStep(host, answers, true), Tables(rowsByNode, shapes))
    ensures Acyclic(dag) && Known(dag.nodes, OutputId(dag)) && OutputId(dag) in rowsByNode
    ensures Denote(host, dag, answers, true, OutputId(dag)) ==
            Success(Table(rowsByNode[OutputId(dag)], shapes[OutputId(dag)]))
    ensures rowsByNode.Keys == set n | n in dag.nodes :: n.id
  {
    hide Wired, Find, Computed, RunStep, Meaning, Acyclic, Outputs;
    OutputIsNode(dag);
    OrderIsLevels(dag, at, clock);
    ComputedIsMeaning(dag, RunStep(host, answers, true), Tables(rowsByNode, shapes), OutputId(dag));
    assert forall n | n in dag.nodes :: Known(dag.nodes, n.id);
  }
}
