/** A structured DAG as the compiler and the live executor see it (dag/compiler.ts): nodes, connections,
    the conditions of the graph checks, and the meaning of a plan as a recursion along its connections. */
module Dags {
  import opened Wrappers
  import opened Values
  import opened Ordering
  import opened Maps
  import opened Operators

  datatype Node = Node(id: string, op: Op, version: string)

  datatype Edge = Edge(fromNode: string, fromPort: string, toNode: string, toPort: string)

  datatype Dag = Dag(nodes: seq<Node>, edges: seq<Edge>)

  /** What arrives at a node: a port and the node connected to it. */
  datatype Feed = Feed(port: string, from: string)

  const MAX_NODES := 32
  const MAX_EDGES := 64
  const MAX_SOURCE_LIMIT := 10_000

  /** The pattern [a-z][a-z0-9_-]{0,99}. */
  predicate IsNodeId(s: string) {
    && 1 <= |s| <= 100 && 'a' <= s[0] <= 'z'
    && forall i | 0 <= i < |s| :: 'a' <= s[i] <= 'z' || '0' <= s[i] <= '9' || s[i] == '_' || s[i] == '-'
  }

  function Version(op: Op): string {
    match op
    case Source(_, _, _, _) | Sort(_) => "1"
    case Output(_) => "3"
    case _ => "2"
  }

  function OutputPorts(op: Op): seq<string> {
    if op.Output? then [] else ["rows"]
  }

  // ---------------------------------------------------------------- nodes and connections

  function Ids(nodes: seq<Node>): (ids: seq<string>)
    ensures |ids| == |nodes| && forall i | 0 <= i < |ids| :: ids[i] == nodes[i].id
  {
    seq(|nodes|, i requires 0 <= i < |nodes| => nodes[i].id)
  }

  lemma IdsAreKnown(nodes: seq<Node>, id: string)
    ensures id in Ids(nodes) <==> Known(nodes, id)
  {
    if id in Ids(nodes) {
      var i :| 0 <= i < |nodes| && Ids(nodes)[i] == id;
      assert nodes[i] in nodes;
    }
    if Known(nodes, id) {
      var i :| 0 <= i < |nodes| && nodes[i] == Find(nodes, id).value;
      assert Ids(nodes)[i] == id;
    }
  }

  /** The first node with an identifier. */
  function Find(nodes: seq<Node>, id: string): (r: Option<Node>)
    ensures r.Some? ==> r.value in nodes && r.value.id == id
    ensures r.None? ==> forall n | n in nodes :: n.id != id
  {
    if nodes == [] then None
    else if nodes[0].id == id then Some(nodes[0])
    else Find(nodes[1..], id)
  }

  predicate Known(nodes: seq<Node>, id: string) {
    Find(nodes, id).Some?
  }

  predicate UniqueIds(nodes: seq<Node>) {
    forall i, j | 0 <= i < j < |nodes| :: nodes[i].id != nodes[j].id
  }

  lemma {:induction false} FindUnique(nodes: seq<Node>, n: Node)
    requires UniqueIds(nodes) && n in nodes
    ensures Find(nodes, n.id) == Some(n)
  {
    if nodes[0] != n {
      FindUnique(nodes[1..], n);
    }
  }

  /** Connections into a node, in order. */
  function Feeds(edges: seq<Edge>, id: string): seq<Feed> {
    if edges == [] then []
    else
      var before, e := Feeds(edges[..|edges| - 1], id), edges[|edges| - 1];
      if e.toNode == id then before + [Feed(e.toPort, e.fromNode)] else before
  }

  /** Connections out of a node, in order. */
  function Targets(edges: seq<Edge>, id: string): seq<string> {
    if edges == [] then []
    else
      var before, e := Targets(edges[..|edges| - 1], id), edges[|edges| - 1];
      if e.fromNode == id then before + [e.toNode] else before
  }

  function AtPort(feeds: seq<Feed>, port: string): seq<string> {
    if feeds == [] then []
    else
      var before, f := AtPort(feeds[..|feeds| - 1], port), feeds[|feeds| - 1];
      if f.port == port then before + [f.from] else before
  }

  /** The nodes connected to one input port. */
  function Feeders(edges: seq<Edge>, id: string, port: string): seq<string> {
    AtPort(Feeds(edges, id), port)
  }

  lemma {:induction false} FeedIsEdge(edges: seq<Edge>, id: string, f: Feed)
    ensures f in Feeds(edges, id) <==> exists e | e in edges :: e.toNode == id && f == Feed(e.toPort, e.fromNode)
  {
    if edges != [] {
      var init, last := edges[..|edges| - 1], edges[|edges| - 1];
      assert edges == init + [last];
      FeedIsEdge(init, id, f);
    }
  }

  lemma {:induction false} TargetIsEdge(edges: seq<Edge>, id: string, t: string)
    ensures t in Targets(edges, id) <==> exists e | e in edges :: e.fromNode == id && t == e.toNode
  {
    if edges != [] {
      var init, last := edges[..|edges| - 1], edges[|edges| - 1];
      assert edges == init + [last];
      TargetIsEdge(init, id, t);
    }
  }

  lemma {:induction false} AtPortIsFeed(feeds: seq<Feed>, port: string, from: string)
    ensures from in AtPort(feeds, port) <==> Feed(port, from) in feeds
  {
    if feeds != [] {
      var init, last := feeds[..|feeds| - 1], feeds[|feeds| - 1];
      assert feeds == init + [last];
      AtPortIsFeed(init, port, from);
    }
  }

  lemma FeederIsEdge(edges: seq<Edge>, id: string, port: string, from: string)
    ensures from in Feeders(edges, id, port) <==>
            exists e | e in edges :: e.toNode == id && e.toPort == port && e.fromNode == from
  {
    AtPortIsFeed(Feeds(edges, id), port, from);
    FeedIsEdge(edges, id, Feed(port, from));
  }

  // ---------------------------------------------------------------- well-formed graphs

  predicate ConnectionOk(nodes: seq<Node>, e: Edge) {
    var (source, target) := (Find(nodes, e.fromNode), Find(nodes, e.toNode));
    && source.Some? && target.Some? && e.fromNode != e.toNode
    && e.fromPort in OutputPorts(source.value.op) && e.toPort in InputPorts(target.value.op)
  }

  predicate SourceIdentified(host: Host, op: Op)
    requires op.Source?
  {
    || (op.sourceId.Some? && host.trim(op.sourceId.value) != "")
    || (op.sourceKey.Some? && host.trim(op.sourceKey.value) != "")
  }

  /** A source feeds one projecting Map and nothing else. */
  predicate Bounded(dag: Dag, id: string) {
    var targets := Targets(dag.edges, id);
    && |targets| == 1
    && var boundary := Find(dag.nodes, targets[0]);
    && boundary.Some? && boundary.value.op.Mapping? && boundary.value.op.config.mode.Project?
    && Feeders(dag.edges, boundary.value.id, "rows") != [] && Feeders(dag.edges, boundary.value.id, "rows")[0] == id
  }

  predicate SourceOk(host: Host, dag: Dag, n: Node)
    requires n.op.Source?
  {
    && SourceIdentified(host, n.op)
    && (n.op.limit.Some? ==> 1 <= n.op.limit.value <= MAX_SOURCE_LIMIT)
    && Bounded(dag, n.id)
  }

  /** Every identifier is used once and every input port is fed by exactly one node of the graph. */
  ghost predicate Wired(dag: Dag) {
    && UniqueIds(dag.nodes)
    && (forall n, port | n in dag.nodes && port in InputPorts(n.op) :: |Feeders(dag.edges, n.id, port)| == 1)
    && forall e | e in dag.edges :: ConnectionOk(dag.nodes, e)
  }

  /** A stratification: every connection leads from a lower to a higher level. */
  ghost predicate Levels(dag: Dag, level: map<string, nat>) {
    && (forall n | n in dag.nodes :: n.id in level)
    && forall e | e in dag.edges :: e.fromNode in level && e.toNode in level && level[e.fromNode] < level[e.toNode]
  }

  ghost predicate Acyclic(dag: Dag) {
    exists level :: Levels(dag, level)
  }

  function Outputs(nodes: seq<Node>): seq<Node> {
    if nodes == [] then []
    else
      var before := Outputs(nodes[..|nodes| - 1]);
      if nodes[|nodes| - 1].op.Output? then before + [nodes[|nodes| - 1]] else before
  }

  lemma {:induction false} OutputsAre(nodes: seq<Node>)
    ensures forall n :: n in Outputs(nodes) <==> n in nodes && n.op.Output?
  {
    if nodes != [] {
      OutputsAre(nodes[..|nodes| - 1]);
      assert nodes == nodes[..|nodes| - 1] + [nodes[|nodes| - 1]];
    }
  }

  predicate Connected(edges: seq<Edge>, a: string, b: string) {
    exists e | e in edges :: e.fromNode == a && e.toNode == b
  }

  /** A walk along connections from a node to another. */
  ghost predicate IsRoute(edges: seq<Edge>, p: seq<string>) {
    |p| > 0 && forall i | 0 <= i < |p| - 1 :: Connected(edges, p[i], p[i + 1])
  }

  ghost predicate Leads(edges: seq<Edge>, a: string, b: string) {
    exists p :: IsRoute(edges, p) && p[0] == a && p[|p| - 1] == b
  }

  /** Everything the compiler checks before it derives shapes. */
  ghost predicate WellFormed(host: Host, dag: Dag) {
    && 1 <= |dag.nodes| <= MAX_NODES && |dag.edges| <= MAX_EDGES
    && (forall n | n in dag.nodes :: IsNodeId(n.id) && n.version == Version(n.op))
    && |Outputs(dag.nodes)| == 1
    && Wired(dag)
    && (forall n | n in dag.nodes && n.op.Source? :: SourceOk(host, dag, n))
    && Acyclic(dag)
    && forall n | n in dag.nodes :: Leads(dag.edges, n.id, Outputs(dag.nodes)[0].id)
  }

  // ---------------------------------------------------------------- meaning along the connections

  function NodeOf(dag: Dag, id: string): (n: Node)
    requires Known(dag.nodes, id)
    ensures n in dag.nodes && n.id == id
  {
    Find(dag.nodes, id).value
  }

  function Arity(dag: Dag, id: string): nat
    requires Known(dag.nodes, id)
  {
    |InputPorts(NodeOf(dag, id).op)|
  }

  /** The node connected to the k-th input port. */
  ghost function Feeder(dag: Dag, id: string, k: nat): (from: string)
    requires Wired(dag) && Known(dag.nodes, id) && k < Arity(dag, id)
    ensures Known(dag.nodes, from)
    ensures forall level | Levels(dag, level) :: from in level && id in level && level[from] < level[id]
  {
    var n := NodeOf(dag, id);
    var feeders := Feeders(dag.edges, id, InputPorts(n.op)[k]);
    assert feeders[0] in feeders;
    FeederIsEdge(dag.edges, id, InputPorts(n.op)[k], feeders[0]);
    feeders[0]
  }

  /** The value of a node, computed from the values of the nodes that feed it. */
  ghost function Fold<T>(dag: Dag, level: map<string, nat>, step: (Node, seq<T>) -> T, id: string): T
    requires Wired(dag) && Levels(dag, level) && Known(dag.nodes, id)
    decreases level[id], 1
  {
    step(NodeOf(dag, id), FoldInputs(dag, level, step, id))
  }

  ghost function FoldInputs<T>(dag: Dag, level: map<string, nat>, step: (Node, seq<T>) -> T, id: string): (r: seq<T>)
    requires Wired(dag) && Levels(dag, level) && Known(dag.nodes, id)
    ensures |r| == Arity(dag, id)
    decreases level[id], 0
  {
    seq(Arity(dag, id), k requires 0 <= k < Arity(dag, id) => Fold(dag, level, step, Feeder(dag, id, k)))
  }

  ghost function LevelsOf(dag: Dag): (level: map<string, nat>)
    requires Acyclic(dag)
    ensures Levels(dag, level)
  {
    var level :| Levels(dag, level);
    level
  }

  ghost function Meaning<T>(dag: Dag, step: (Node, seq<T>) -> T, id: string): T
    requires Wired(dag) && Acyclic(dag) && Known(dag.nodes, id)
  {
    Fold(dag, LevelsOf(dag), step, id)
  }

  ghost function Gather<T>(dag: Dag, values: map<string, T>, id: string): (r: seq<T>)
    requires Wired(dag) && Known(dag.nodes, id)
    requires forall k: nat | k < Arity(dag, id) :: Feeder(dag, id, k) in values
    ensures |r| == Arity(dag, id) && forall k: nat | k < |r| :: r[k] == values[Feeder(dag, id, k)]
  {
    seq(Arity(dag, id), k requires 0 <= k < Arity(dag, id) => values[Feeder(dag, id, k)])
  }

  /** Values of some nodes, each computed after and from the nodes that feed it. */
  ghost predicate Computed<T(!new)>(dag: Dag, step: (Node, seq<T>) -> T, values: map<string, T>)
    requires Wired(dag)
  {
    forall id | id in values ::
      && Known(dag.nodes, id)
      && (forall k: nat | k < Arity(dag, id) :: Feeder(dag, id, k) in values)
      && values[id] == step(NodeOf(dag, id), Gather(dag, values, id))
  }

  /** Confluence: whatever the schedule, a value computed from the values of its feeders is the
      recursive meaning of the node. */
  lemma {:induction false} ComputedIsFold<T(!new)>(dag: Dag, level: map<string, nat>, step: (Node, seq<T>) -> T,
      values: map<string, T>, id: string)
    requires Wired(dag) && Levels(dag, level) && Computed(dag, step, values) && id in values
    ensures Known(dag.nodes, id) && values[id] == Fold(dag, level, step, id)
    decreases level[id]
  {
    forall k: nat | k < Arity(dag, id)
      ensures values[Feeder(dag, id, k)] == Fold(dag, level, step, Feeder(dag, id, k))
    {
      ComputedIsFold(dag, level, step, values, Feeder(dag, id, k));
    }
    assert Gather(dag, values, id) == FoldInputs(dag, level, step, id);
  }

  lemma {:induction false} FoldAnyLevels<T(!new)>(dag: Dag, a: map<string, nat>, b: map<string, nat>,
      step: (Node, seq<T>) -> T, id: string)
    requires Wired(dag) && Levels(dag, a) && Levels(dag, b) && Known(dag.nodes, id)
    ensures Fold(dag, a, step, id) == Fold(dag, b, step, id)
    decreases a[id]
  {
    forall k: nat | k < Arity(dag, id)
      ensures Fold(dag, a, step, Feeder(dag, id, k)) == Fold(dag, b, step, Feeder(dag, id, k))
    {
      FoldAnyLevels(dag, a, b, step, Feeder(dag, id, k));
    }
    assert FoldInputs(dag, a, step, id) == FoldInputs(dag, b, step, id);
  }

  lemma ComputedIsMeaning<T(!new)>(dag: Dag, step: (Node, seq<T>) -> T, values: map<string, T>, id: string)
    requires Wired(dag) && Acyclic(dag) && Computed(dag, step, values) && id in values
    ensures Known(dag.nodes, id) && values[id] == Meaning(dag, step, id)
  {
    ComputedIsFold(dag, LevelsOf(dag), step, values, id);
  }

  /** One more node, computed from values already there. */
  lemma ExtendComputed<T(!new)>(dag: Dag, step: (Node, seq<T>) -> T, values: map<string, T>, id: string)
    requires Wired(dag) && Computed(dag, step, values) && Known(dag.nodes, id) && id !in values
    requires forall k: nat | k < Arity(dag, id) :: Feeder(dag, id, k) in values
    ensures Computed(dag, step, values[id := step(NodeOf(dag, id), Gather(dag, values, id))])
  {
    hide Wired, Find, Feeder;
    var more := values[id := step(NodeOf(dag, id), Gather(dag, values, id))];
    forall x | x in more
      ensures Known(dag.nodes, x) && (forall k: nat | k < Arity(dag, x) :: Feeder(dag, x, k) in more)
      ensures more[x] == step(NodeOf(dag, x), Gather(dag, more, x))
    {
      assert Gather(dag, more, x) == Gather(dag, values, x);
    }
  }

  lemma GatheredIsMeaning<T(!new)>(dag: Dag, step: (Node, seq<T>) -> T, values: map<string, T>, id: string)
    requires Wired(dag) && Acyclic(dag) && Computed(dag, step, values) && Known(dag.nodes, id)
    requires forall k: nat | k < Arity(dag, id) :: Feeder(dag, id, k) in values
    ensures Gather(dag, values, id) == MeaningInputs(dag, step, id)
  {
    hide Wired, Acyclic, Find, Meaning, Computed;
    forall k: nat | k < Arity(dag, id)
      ensures values[Feeder(dag, id, k)] == MeaningInputs(dag, step, id)[k]
    {
      ComputedIsMeaning(dag, step, values, Feeder(dag, id, k));
    }
  }

  /** What the next step computes is the meaning of its node. */
  lemma StepIsMeaning<T(!new)>(dag: Dag, step: (Node, seq<T>) -> T, values: map<string, T>, id: string)
    requires Wired(dag) && Acyclic(dag) && Computed(dag, step, values) && Known(dag.nodes, id)
    requires forall k: nat | k < Arity(dag, id) :: Feeder(dag, id, k) in values
    ensures step(NodeOf(dag, id), Gather(dag, values, id)) == Meaning(dag, step, id)
  {
    hide Wired, Acyclic, Find, Meaning, Computed;
    MeaningUnfolds(dag, step, id);
    GatheredIsMeaning(dag, step, values, id);
  }

  ghost function MeaningInputs<T>(dag: Dag, step: (Node, seq<T>) -> T, id: string): (r: seq<T>)
    requires Wired(dag) && Acyclic(dag) && Known(dag.nodes, id)
    ensures |r| == Arity(dag, id) && forall k: nat | k < |r| :: r[k] == Meaning(dag, step, Feeder(dag, id, k))
  {
    seq(Arity(dag, id), k requires 0 <= k < Arity(dag, id) => Meaning(dag, step, Feeder(dag, id, k)))
  }

  /** The equation the meaning satisfies at every node. */
  lemma MeaningUnfolds<T>(dag: Dag, step: (Node, seq<T>) -> T, id: string)
    requires Wired(dag) && Acyclic(dag) && Known(dag.nodes, id)
    ensures Meaning(dag, step, id) == step(NodeOf(dag, id), MeaningInputs(dag, step, id))
  {
    assert FoldInputs(dag, LevelsOf(dag), step, id) == MeaningInputs(dag, step, id);
  }

  // ---------------------------------------------------------------- failures spread along connections

  /** A step that fails whenever one of its inputs failed. */
  ghost predicate Demanding<T(!new)>(step: (Node, seq<Try<T>>) -> Try<T>) {
    forall n: Node, inputs: seq<Try<T>>, i: nat | i < |inputs| && step(n, inputs).Success? :: inputs[i].Success?
  }

  lemma EdgeIsFeeder(dag: Dag, e: Edge) returns (k: nat)
    requires Wired(dag) && e in dag.edges
    ensures Known(dag.nodes, e.toNode) && k < Arity(dag, e.toNode) && Feeder(dag, e.toNode, k) == e.fromNode
  {
    var n := NodeOf(dag, e.toNode);
    FindUnique(dag.nodes, n);
    k :| 0 <= k < |InputPorts(n.op)| && InputPorts(n.op)[k] == e.toPort;
    FeederIsEdge(dag.edges, n.id, e.toPort, e.fromNode);
  }

  lemma {:induction false} SuccessAlong<T(!new)>(dag: Dag, step: (Node, seq<Try<T>>) -> Try<T>, p: seq<string>)
    requires Wired(dag) && Acyclic(dag) && Demanding(step)
    requires IsRoute(dag.edges, p) && Known(dag.nodes, p[0]) && Known(dag.nodes, p[|p| - 1])
    requires Meaning(dag, step, p[|p| - 1]).Success?
    ensures Meaning(dag, step, p[0]).Success?
  {
    if |p| > 1 {
      assert Connected(dag.edges, p[0], p[1]);
      var e :| e in dag.edges && e.fromNode == p[0] && e.toNode == p[1];
      var k := EdgeIsFeeder(dag, e);
      RouteTail(dag.edges, p);
      SuccessAlong(dag, step, p[1..]);
      MeaningUnfolds(dag, step, p[1]);
      assert MeaningInputs(dag, step, p[1])[k].Success?;
    }
  }

  lemma RouteTail(edges: seq<Edge>, p: seq<string>)
    requires IsRoute(edges, p) && |p| > 1
    ensures IsRoute(edges, p[1..])
  {
    var q := p[1..];
    forall i | 0 <= i < |q| - 1
      ensures Connected(edges, q[i], q[i + 1])
    {
      assert Connected(edges, p[i + 1], p[i + 1 + 1]);
    }
  }

  /** In a well-formed graph the Output has a meaning only if every node has. */
  lemma OutputNeedsAll<T(!new)>(host: Host, dag: Dag, step: (Node, seq<Try<T>>) -> Try<T>, n: Node)
    requires WellFormed(host, dag) && Demanding(step) && n in dag.nodes
    ensures Known(dag.nodes, OutputId(dag)) && Known(dag.nodes, n.id)
    ensures Meaning(dag, step, OutputId(dag)).Success? ==> Meaning(dag, step, n.id).Success?
  {
    OutputIsNode(dag);
    var p :| IsRoute(dag.edges, p) && p[0] == n.id && p[|p| - 1] == OutputId(dag);
    if Meaning(dag, step, OutputId(dag)).Success? {
      SuccessAlong(dag, step, p);
    }
  }

  ghost function OutputId(dag: Dag): string
    requires |Outputs(dag.nodes)| == 1
  {
    Outputs(dag.nodes)[0].id
  }

  lemma OutputIsNode(dag: Dag)
    requires |Outputs(dag.nodes)| == 1
    ensures Known(dag.nodes, OutputId(dag)) && Outputs(dag.nodes)[0] in dag.nodes && Outputs(dag.nodes)[0].op.Output?
  {
    OutputsAre(dag.nodes);
    assert Outputs(dag.nodes)[0] in Outputs(dag.nodes);
  }

  // ---------------------------------------------------------------- shapes and tables

  function Collect<T>(inputs: seq<Try<T>>): (r: Try<seq<T>>)
    ensures r.Success? ==> |r.value| == |inputs| && forall i | 0 <= i < |inputs| :: inputs[i] == Success(r.value[i])
    ensures r.Failure? ==> exists i :: 0 <= i < |inputs| && inputs[i].Failure? && inputs[i].error == r.error
  {
    if inputs == [] then Success([])
    else if inputs[0].Failure? then Failure(inputs[0].error)
    else
      var tail := Collect(inputs[1..]);
      if tail.Failure? then
        ghost var i :| 0 <= i < |inputs[1..]| && inputs[1..][i].Failure? && inputs[1..][i].error == tail.error;
        assert inputs[i + 1].error == tail.error;
        Failure(tail.error)
      else Success([inputs[0].value] + tail.value)
  }

  lemma {:induction false} CollectAll<T>(inputs: seq<Try<T>>, values: seq<T>)
    requires |inputs| == |values| && forall i | 0 <= i < |inputs| :: inputs[i] == Success(values[i])
    ensures Collect(inputs) == Success(values)
  {
    if inputs != [] {
      CollectAll(inputs[1..], values[1..]);
      assert values == [values[0]] + values[1..];
    }
  }

  const NO_INPUT: Error := InvalidConfig("INPUT_SCHEMA_UNAVAILABLE")

  /** The compiled shape of a node from those of its inputs. */
  function CompileNode(host: Host, n: Node, inputs: seq<Try<Shape>>): Try<Shape> {
    var shapes :- Collect(inputs);
    if |shapes| != |InputPorts(n.op)| then Failure(NO_INPUT) else CompileShape(host, n.op, shapes)
  }

  function ShapeStep(host: Host): (Node, seq<Try<Shape>>) -> Try<Shape> {
    (n, inputs) => CompileNode(host, n, inputs)
  }

  /** What the provider returns for each Source node. */
  type Answers = map<string, Try<seq<Row>>>

  function Answer(answers: Answers, id: string): Try<seq<Row>> {
    if id in answers then answers[id] else Failure(Unavailable(id))
  }

  /** The table of a node from those of its inputs. */
  ghost function RunNode(host: Host, answers: Answers, lenient: bool, n: Node, inputs: seq<Try<Table>>): Try<Table> {
    var tables :- Collect(inputs);
    if |tables| != |InputPorts(n.op)| then Failure(NO_INPUT)
    else if n.op.Source? then
      if n.op.schema.None? then Failure(Unavailable(n.id))
      else
        var rows :- Answer(answers, n.id);
        Success(Table(rows, n.op.schema.value))
    else Run(host, n.op, tables, lenient)
  }

  ghost function RunStep(host: Host, answers: Answers, lenient: bool): (Node, seq<Try<Table>>) -> Try<Table> {
    (n, inputs) => RunNode(host, answers, lenient, n, inputs)
  }

  lemma ShapeStepDemands(host: Host)
    ensures Demanding(ShapeStep(host))
  {
  }

  lemma RunStepDemands(host: Host, answers: Answers, lenient: bool)
    ensures Demanding(RunStep(host, answers, lenient))
  {
    hide Run;
  }

  /** The compiled shape of a node of the graph. */
  ghost function ShapeOf(host: Host, dag: Dag, id: string): Try<Shape>
    requires Wired(dag) && Acyclic(dag) && Known(dag.nodes, id)
  {
    Meaning(dag, ShapeStep(host), id)
  }

  /** The meaning of a node: its table, or an error. A lenient meaning sorts also where comparing two rows
      would throw. */
  ghost function Denote(host: Host, dag: Dag, answers: Answers, lenient: bool, id: string): Try<Table>
    requires Wired(dag) && Acyclic(dag) && Known(dag.nodes, id)
  {
    Meaning(dag, RunStep(host, answers, lenient), id)
  }

  lemma RunLenient(host: Host, op: Op, inputs: seq<Table>)
    requires |inputs| == |InputPorts(op)| && !op.Source? && Run(host, op, inputs, false).Success?
    ensures Run(host, op, inputs, true) == Run(host, op, inputs, false)
  {
  }

  /** Where the strict meaning is defined the lenient one agrees with it. */
  lemma {:induction false} DenoteLenient(host: Host, dag: Dag, answers: Answers, id: string)
    requires Wired(dag) && Acyclic(dag) && Known(dag.nodes, id)
    requires Denote(host, dag, answers, false, id).Success?
    ensures Denote(host, dag, answers, true, id) == Denote(host, dag, answers, false, id)
    decreases LevelsOf(dag)[id]
  {
    hide Run;
    var strict, lenient := RunStep(host, answers, false), RunStep(host, answers, true);
    MeaningUnfolds(dag, strict, id);
    MeaningUnfolds(dag, lenient, id);
    RunStepDemands(host, answers, false);
    var inputs := MeaningInputs(dag, strict, id);
    forall k: nat | k < Arity(dag, id)
      ensures MeaningInputs(dag, lenient, id)[k] == inputs[k]
    {
      assert inputs[k].Success?;
      DenoteLenient(host, dag, answers, Feeder(dag, id, k));
    }
    assert MeaningInputs(dag, lenient, id) == inputs;
    if !NodeOf(dag, id).op.Source? {
      RunLenient(host, NodeOf(dag, id).op, Collect(inputs).value);
    }
  }

  /** The meaning of a node with one input port. */
  lemma OneInput(host: Host, dag: Dag, answers: Answers, lenient: bool, id: string, from: string)
    requires Wired(dag) && Acyclic(dag) && Known(dag.nodes, id) && InputPorts(NodeOf(dag, id).op) == ["rows"]
             && Feeder(dag, id, 0) == from
    ensures Known(dag.nodes, from)
    ensures Denote(host, dag, answers, lenient, id) ==
              match Denote(host, dag, answers, lenient, from)
              case Success(t) => Run(host, NodeOf(dag, id).op, [t], lenient)
              case Failure(e) => Failure(e)
  {
    hide Wired, Acyclic, Find, Run, Meaning, Feeder;
    MeaningUnfolds(dag, RunStep(host, answers, lenient), id);
    var inputs := MeaningInputs(dag, RunStep(host, answers, lenient), id);
    assert inputs[0] == Denote(host, dag, answers, lenient, from) && inputs == [inputs[0]];
    if inputs[0].Success? {
      CollectAll(inputs, [inputs[0].value]);
    }
  }

  /** The meaning of a source. */
  lemma SourceTable(host: Host, dag: Dag, answers: Answers, lenient: bool, id: string, schema: Shape)
    requires Wired(dag) && Acyclic(dag) && Known(dag.nodes, id) && NodeOf(dag, id).op.Source?
             && NodeOf(dag, id).op.schema == Some(schema)
    ensures Denote(host, dag, answers, lenient, id) ==
              match Answer(answers, id)
              case Success(rows) => Success(Table(rows, schema))
              case Failure(e) => Failure(e)
  {
    hide Wired, Acyclic, Find, Run, Meaning;
    MeaningUnfolds(dag, RunStep(host, answers, lenient), id);
    assert MeaningInputs(dag, RunStep(host, answers, lenient), id) == [];
    CollectAll<Table>([], []);
  }
}
