/** compileStructuredDag (dag/compiler.ts): the graph checks, the scheduling queue and the comparison
    with the declared output, proved to accept exactly the plans that the specification accepts. */
module Compiler {
  import opened Wrappers
  import opened Values
  import opened Ordering
  import opened Maps
  import opened Operators
  import opened Dags
  import opened Graphs

  const MAX_ISSUES := 32

  function Add(issues: seq<string>, code: string): (r: seq<string>)
    requires |issues| <= MAX_ISSUES
    ensures r != [] && |r| <= MAX_ISSUES
  {
    if |issues| < MAX_ISSUES then issues + [code] else issues
  }

  // ---------------------------------------------------------------- nodes

  lemma {:induction false} FindAppend(nodes: seq<Node>, n: Node, id: string)
    ensures Find(nodes + [n], id) == if Find(nodes, id).Some? then Find(nodes, id) else if n.id == id then Some(n)
            else None
  {
    if nodes != [] {
      assert (nodes + [n])[1..] == nodes[1..] + [n];
      FindAppend(nodes[1..], n, id);
    }
  }

  ghost predicate NodesOk(nodes: seq<Node>) {
    UniqueIds(nodes) && forall n | n in nodes :: IsNodeId(n.id) && n.version == Version(n.op)
  }

  method CheckNodes(nodes: seq<Node>, before: seq<string>) returns (issues: seq<string>, byId: map<string, Node>)
    requires |before| <= MAX_ISSUES
    ensures |issues| <= MAX_ISSUES && (issues == [] <==> before == [] && NodesOk(nodes))
    ensures forall id :: id in byId <==> Known(nodes, id)
    ensures forall id | id in byId :: Find(nodes, id) == Some(byId[id])
  {
    issues, byId := before, map[];
    hide IsNodeId, Version, Find, NodesOk;
    NothingFound();
    for i := 0 to |nodes|
      invariant |issues| <= MAX_ISSUES && (issues == [] <==> before == [] && NodesOk(nodes[..i]))
      invariant forall id :: id in byId <==> Known(nodes[..i], id)
      invariant forall id | id in byId :: Find(nodes[..i], id) == Some(byId[id])
    {
      var node := nodes[i];
      assert nodes[..i + 1] == nodes[..i] + [node];
      forall id
        ensures Find(nodes[..i + 1], id) == if Find(nodes[..i], id).Some? then Find(nodes[..i], id)
                else if node.id == id then Some(node) else None
      {
        FindAppend(nodes[..i], node, id);
      }
      NodesOkAppend(nodes[..i], node);
      if !IsNodeId(node.id) {
        issues := Add(issues, "NODE_ID_INVALID");
      }
      if node.id in byId {
        issues := Add(issues, "NODE_ID_DUPLICATED");
      } else {
        byId := byId[node.id := node];
      }
      if node.version != Version(node.op) {
        issues := Add(issues, "OPERATOR_VERSION_INVALID");
      }
    }
    assert nodes[..|nodes|] == nodes;
  }

  lemma NothingFound()
    ensures NodesOk([]) && forall id :: Find([], id) == None
  {
  }

  lemma NodesOkAppend(nodes: seq<Node>, n: Node)
    ensures NodesOk(nodes + [n]) <==>
            NodesOk(nodes) && IsNodeId(n.id) && n.version == Version(n.op)
            && !Known(nodes, n.id)
  {
    hide IsNodeId, Version;
    var all := nodes + [n];
    assert all[|nodes|] == n;
    if NodesOk(all) {
      forall i, j | 0 <= i < j < |nodes|
        ensures nodes[i].id != nodes[j].id
      {
        assert all[i].id != all[j].id;
      }
      forall m | m in nodes
        ensures IsNodeId(m.id) && m.version == Version(m.op) && m.id != n.id
      {
        assert m in all;
        var i :| 0 <= i < |nodes| && nodes[i] == m;
        assert all[i].id != all[|nodes|].id;
      }
    }
  }

  // ---------------------------------------------------------------- connections

  ghost predicate EdgesOk(nodes: seq<Node>, edges: seq<Edge>) {
    && (forall e | e in edges :: ConnectionOk(nodes, e))
    && forall id, port :: |Feeders(edges, id, port)| <= 1
  }

  lemma FeedersAppend(edges: seq<Edge>, e: Edge, id: string, port: string)
    ensures Feeders(edges + [e], id, port) == Feeders(edges, id, port) + (if e.toNode == id
            && e.toPort == port then [e.fromNode] else [])
  {
    assert (edges + [e])[..|edges|] == edges;
    var feeds := Feeds(edges, id);
    assert (feeds + [Feed(e.toPort, e.fromNode)])[..|feeds|] == feeds;
  }

  lemma EdgesOkAppend(nodes: seq<Node>, edges: seq<Edge>, e: Edge)
    ensures EdgesOk(nodes, edges + [e]) <==>
            EdgesOk(nodes, edges) && ConnectionOk(nodes, e) && Feeders(edges, e.toNode, e.toPort) == []
  {
    hide ConnectionOk, Feeders;
    var all := edges + [e];
    assert e in all && forall x | x in edges :: x in all;
    forall id, port
      ensures Feeders(all, id, port) == Feeders(edges, id, port) + (if e.toNode == id
              && e.toPort == port then [e.fromNode] else [])
    {
      FeedersAppend(edges, e, id, port);
    }
    if EdgesOk(nodes, all) {
      assert |Feeders(all, e.toNode, e.toPort)| <= 1;
      forall id, port
        ensures |Feeders(edges, id, port)| <= 1
      {
        assert |Feeders(all, id, port)| <= 1;
      }
    }
  }

  type Incoming = map<string, seq<Feed>>

  /** The two adjacency maps hold the connections, and never a node that does not exist. */
  ghost predicate Adjacent(nodes: seq<Node>, edges: seq<Edge>, incoming: Incoming, outgoing: Adjacency) {
    && (forall id :: id in incoming <==> Known(nodes, id))
    && (forall id :: id in outgoing <==> Known(nodes, id))
    && (forall id, f | id in incoming && f in incoming[id] :: Known(nodes, f.from))
    && (forall a, b | Arrow(outgoing, a, b) :: Known(nodes, b))
    && (EdgesOk(nodes, edges) ==> forall id | id in incoming ::
      incoming[id] == Feeds(edges, id)
      && outgoing[id] == Targets(edges, id))
  }

  lemma AdjacentSkip(nodes: seq<Node>, edges: seq<Edge>, e: Edge, incoming: Incoming, outgoing: Adjacency)
    requires Adjacent(nodes, edges, incoming, outgoing) && !(Known(nodes, e.fromNode) && Known(nodes, e.toNode))
    ensures Adjacent(nodes, edges + [e], incoming, outgoing)
  {
    hide Feeders, Feeds, Targets, Find;
    EdgesOkAppend(nodes, edges, e);
  }

  lemma AdjacentPush(nodes: seq<Node>, edges: seq<Edge>, e: Edge, incoming: Incoming, outgoing: Adjacency,
      kept: Incoming)
    requires Adjacent(nodes, edges, incoming, outgoing) && Known(nodes, e.fromNode) && Known(nodes, e.toNode)
    requires kept == incoming[e.toNode := incoming[e.toNode] + [Feed(e.toPort, e.fromNode)]]
             || (kept == incoming && !EdgesOk(nodes, edges + [e]))
    ensures Adjacent(nodes, edges + [e], kept, outgoing[e.fromNode := outgoing[e.fromNode] + [e.toNode]])
  {
    hide Feeders, Feeds, Targets, Find, ConnectionOk;
    EdgesOkAppend(nodes, edges, e);
    var pushed := outgoing[e.fromNode := outgoing[e.fromNode] + [e.toNode]];
    forall id | id in kept && EdgesOk(nodes, edges + [e])
      ensures kept[id] == Feeds(edges + [e], id) && pushed[id] == Targets(edges + [e], id)
    {
      FeedsAppend(edges, e, id);
    }
    forall a, b | Arrow(pushed, a, b)
      ensures Known(nodes, b)
    {
      assert b == e.toNode || Arrow(outgoing, a, b);
    }
  }

  lemma FeedsAppend(edges: seq<Edge>, e: Edge, id: string)
    ensures Feeds(edges + [e], id) == Feeds(edges, id) + if e.toNode == id then [Feed(e.toPort, e.fromNode)] else []
    ensures Targets(edges + [e], id) == Targets(edges, id) + if e.fromNode == id then [e.toNode] else []
  {
    assert (edges + [e])[..|edges|] == edges;
  }

  predicate HasPort(feeds: seq<Feed>, port: string) {
    exists f | f in feeds :: f.port == port
  }

  lemma {:induction false} HasPortIsFed(feeds: seq<Feed>, port: string)
    ensures HasPort(feeds, port) <==> AtPort(feeds, port) != []
  {
    if feeds != [] {
      var init, last := feeds[..|feeds| - 1], feeds[|feeds| - 1];
      assert feeds == init + [last];
      HasPortIsFed(init, port);
    }
  }

  /** The tests of the loop read the connections made so far. */
  lemma FedOrNot(nodes: seq<Node>, edges: seq<Edge>, e: Edge, incoming: Incoming, outgoing: Adjacency)
    requires Adjacent(nodes, edges, incoming, outgoing) && EdgesOk(nodes, edges) && Known(nodes, e.toNode)
    ensures HasPort(incoming[e.toNode], e.toPort) <==> Feeders(edges, e.toNode, e.toPort) != []
    ensures e in edges ==> Feeders(edges, e.toNode, e.toPort) != []
  {
    hide Feeds, Targets, Find, ConnectionOk;
    HasPortIsFed(Feeds(edges, e.toNode), e.toPort);
    FeederIsEdge(edges, e.toNode, e.toPort, e.fromNode);
  }

  /** One connection between two nodes of the graph. */
  method ConnectOne(nodes: seq<Node>, byId: map<string, Node>, ghost done: seq<Edge>, e: Edge, repeated: bool,
      incoming: Incoming, outgoing: Adjacency, before: seq<string>)
    returns (issues: seq<string>, incoming': Incoming, outgoing': Adjacency)
    requires |before| <= MAX_ISSUES && e.fromNode in byId && e.toNode in byId
    requires forall id | id in byId :: Find(nodes, id) == Some(byId[id])
    requires Adjacent(nodes, done, incoming, outgoing) && (repeated ==> e in done)
    requires before == [] ==> EdgesOk(nodes, done)
    ensures |issues| <= MAX_ISSUES && (issues == [] <==> before == [] && EdgesOk(nodes, done + [e]))
    ensures Adjacent(nodes, done + [e], incoming', outgoing')
  {
    hide EdgesOk, Find, Feeders, Feeds, Targets, Adjacent;
    issues := before;
    var source, target := byId[e.fromNode], byId[e.toNode];
    EdgesOkAppend(nodes, done, e);
    if EdgesOk(nodes, done) {
      FedOrNot(nodes, done, e, incoming, outgoing);
    }
    if e.fromNode == e.toNode {
      issues := Add(issues, "DAG_CYCLE");
    }
    if e.fromPort !in OutputPorts(source.op) {
      issues := Add(issues, "OUTPUT_PORT_UNKNOWN");
    }
    if e.toPort !in InputPorts(target.op) {
      issues := Add(issues, "INPUT_PORT_UNKNOWN");
    }
    if repeated {
      issues := Add(issues, "CONNECTION_DUPLICATED");
    }
    KnownAdjacent(nodes, done, incoming, outgoing);
    incoming' := incoming;
    if HasPort(incoming[e.toNode], e.toPort) {
      issues := Add(issues, "INPUT_PORT_MULTIPLE");
    } else {
      incoming' := incoming[e.toNode := incoming[e.toNode] + [Feed(e.toPort, e.fromNode)]];
    }
    AdjacentPush(nodes, done, e, incoming, outgoing, incoming');
    outgoing' := outgoing[e.fromNode := outgoing[e.fromNode] + [e.toNode]];
  }

  lemma KnownAdjacent(nodes: seq<Node>, edges: seq<Edge>, incoming: Incoming, outgoing: Adjacency)
    requires Adjacent(nodes, edges, incoming, outgoing)
    ensures forall id :: Known(nodes, id) <==> id in incoming
    ensures forall id :: Known(nodes, id) <==> id in outgoing
  {
  }

  method Connect(nodes: seq<Node>, byId: map<string, Node>, edges: seq<Edge>, before: seq<string>)
    returns (issues: seq<string>, incoming: Incoming, outgoing: Adjacency)
    requires |before| <= MAX_ISSUES
    requires forall id :: id in byId <==> Known(nodes, id)
    requires forall id | id in byId :: Find(nodes, id) == Some(byId[id])
    ensures |issues| <= MAX_ISSUES && (issues == [] <==> before == [] && EdgesOk(nodes, edges))
    ensures Adjacent(nodes, edges, incoming, outgoing)
  {
    issues := before;
    incoming := map id | id in byId :: [];
    outgoing := map id | id in byId :: [];
    var edgeKeys: set<Edge> := {};
    hide EdgesOk, Find, Feeders, Feeds, Targets;
    EdgesOkNone(nodes);
    for k := 0 to |edges|
      invariant |issues| <= MAX_ISSUES && (issues == [] <==> before == [] && EdgesOk(nodes, edges[..k]))
      invariant Adjacent(nodes, edges[..k], incoming, outgoing)
      invariant edgeKeys <= set e | e in edges[..k]
    {
      var e := edges[k];
      ghost var done := edges[..k];
      assert edges[..k + 1] == done + [e];
      EdgesOkAppend(nodes, done, e);
      if e.fromNode !in byId || e.toNode !in byId {
        AdjacentSkip(nodes, done, e, incoming, outgoing);
        issues := Add(issues, "CONNECTION_NODE_UNKNOWN");
        continue;
      }
      var repeated := e in edgeKeys;
      edgeKeys := edgeKeys + {e};
      issues, incoming, outgoing := ConnectOne(nodes, byId, done, e, repeated, incoming, outgoing, issues);
    }
    assert edges[..|edges|] == edges;
  }

  lemma EdgesOkNone(nodes: seq<Node>)
    ensures EdgesOk(nodes, []) && forall id :: Feeds([], id) == [] && Targets([], id) == []
  {
  }

  // ---------------------------------------------------------------- ports and sources

  /** incoming.get(id).get(port). */
  function At(feeds: seq<Feed>, port: string): Option<string> {
    if AtPort(feeds, port) == [] then None else Some(AtPort(feeds, port)[0])
  }

  ghost predicate PortsFed(dag: Dag, nodes: seq<Node>) {
    forall n, port | n in nodes && port in InputPorts(n.op) :: Feeders(dag.edges, n.id, port) != []
  }

  method CheckPorts(dag: Dag, incoming: Incoming, outgoing: Adjacency, before: seq<string>)
      returns (issues: seq<string>)
    requires |before| <= MAX_ISSUES && Adjacent(dag.nodes, dag.edges, incoming, outgoing)
    requires before == [] ==> EdgesOk(dag.nodes, dag.edges)
    ensures |issues| <= MAX_ISSUES && (issues == [] <==> before == [] && PortsFed(dag, dag.nodes))
  {
    issues := before;
    hide EdgesOk, Find, Feeders, Feeds, Targets, AtPort;
    KnownAdjacent(dag.nodes, dag.edges, incoming, outgoing);
    for i := 0 to |dag.nodes|
      invariant |issues| <= MAX_ISSUES && (issues == [] <==> before == [] && PortsFed(dag, dag.nodes[..i]))
    {
      var n := dag.nodes[i];
      var ports := InputPorts(n.op);
      assert dag.nodes[..i + 1] == dag.nodes[..i] + [n];
      assert Known(dag.nodes, n.id);
      ghost var sofar := issues;
      for j := 0 to |ports|
        invariant |issues| <= MAX_ISSUES
        invariant issues == [] <==>
                  sofar == []
                  && forall port | port in ports[..j] :: Feeders(dag.edges, n.id, port) != []
      {
        if EdgesOk(dag.nodes, dag.edges) {
          FedIsAt(dag, incoming, outgoing, n.id, ports[j]);
        }
        assert ports[..j + 1] == ports[..j] + [ports[j]];
        if At(incoming[n.id], ports[j]).None? {
          issues := Add(issues, "INPUT_PORT_MISSING");
        }
      }
      assert ports[..|ports|] == ports;
    }
    assert dag.nodes[..|dag.nodes|] == dag.nodes;
  }

  lemma FedIsAt(dag: Dag, incoming: Incoming, outgoing: Adjacency, id: string, port: string)
    requires Adjacent(dag.nodes, dag.edges, incoming, outgoing) && EdgesOk(dag.nodes, dag.edges) && id in incoming
    ensures At(incoming[id], port) == if Feeders(dag.edges, id, port) == [] then None
            else Some(Feeders(dag.edges, id, port)[0])
    ensures id in outgoing && outgoing[id] == Targets(dag.edges, id)
  {
    hide Feeds, Targets, AtPort, Find, EdgesOk;
  }

  ghost predicate SourcesOk(host: Host, dag: Dag, nodes: seq<Node>) {
    forall n | n in nodes && n.op.Source? :: SourceOk(host, dag, n)
  }

  method CheckSources(host: Host, dag: Dag, byId: map<string, Node>, incoming: Incoming, outgoing: Adjacency,
      before: seq<string>)
    returns (issues: seq<string>)
    requires |before| <= MAX_ISSUES && Adjacent(dag.nodes, dag.edges, incoming, outgoing)
    requires forall id :: id in byId <==> Known(dag.nodes, id)
    requires forall id | id in byId :: Find(dag.nodes, id) == Some(byId[id])
    requires before == [] ==> EdgesOk(dag.nodes, dag.edges)
    ensures |issues| <= MAX_ISSUES && (issues == [] <==> before == [] && SourcesOk(host, dag, dag.nodes))
  {
    issues := before;
    hide EdgesOk, Find, Feeders, Feeds, Targets, AtPort;
    KnownAdjacent(dag.nodes, dag.edges, incoming, outgoing);
    for i := 0 to |dag.nodes|
      invariant |issues| <= MAX_ISSUES && (issues == [] <==> before == [] && SourcesOk(host, dag, dag.nodes[..i]))
    {
      var n := dag.nodes[i];
      assert dag.nodes[..i + 1] == dag.nodes[..i] + [n];
      assert Known(dag.nodes, n.id);
      if n.op.Source? {
        if !SourceIdentified(host, n.op) {
          issues := Add(issues, "SOURCE_CONFIG_INVALID");
        }
        if n.op.limit.Some? && (n.op.limit.value < 1 || n.op.limit.value > MAX_SOURCE_LIMIT) {
          issues := Add(issues, "SOURCE_LIMIT_INVALID");
        }
        var bounded := CheckBoundary(dag, byId, incoming, outgoing, n.id);
        if !bounded {
          issues := Add(issues, "SOURCE_NORMALIZATION_MAP_REQUIRED");
        }
      }
    }
    assert dag.nodes[..|dag.nodes|] == dag.nodes;
  }

  method CheckBoundary(dag: Dag, byId: map<string, Node>, incoming: Incoming, outgoing: Adjacency, id: string)
      returns (ok: bool)
    requires Adjacent(dag.nodes, dag.edges, incoming, outgoing) && id in outgoing
    requires forall id :: id in byId <==> Known(dag.nodes, id)
    requires forall id | id in byId :: Find(dag.nodes, id) == Some(byId[id])
    ensures EdgesOk(dag.nodes, dag.edges) ==> (ok <==> Bounded(dag, id))
  {
    hide EdgesOk, Find, Feeders, Feeds, Targets, AtPort;
    KnownAdjacent(dag.nodes, dag.edges, incoming, outgoing);
    var targets := outgoing[id];
    if EdgesOk(dag.nodes, dag.edges) {
      FedIsAt(dag, incoming, outgoing, id, "rows");
    }
    if |targets| != 1 || targets[0] !in byId {
      return false;
    }
    var boundary := byId[targets[0]];
    if EdgesOk(dag.nodes, dag.edges) {
      FedIsAt(dag, incoming, outgoing, boundary.id, "rows");
    }
    ok := boundary.op.Mapping? && boundary.op.config.mode.Project? && At(incoming[boundary.id], "rows") == Some(id);
  }

  // ---------------------------------------------------------------- cycles and reachability

  ghost predicate Exact(dag: Dag, incoming: Incoming, outgoing: Adjacency) {
    && (forall id :: id in incoming <==> Known(dag.nodes, id))
    && (forall id :: id in outgoing <==> Known(dag.nodes, id))
    && (forall id | id in incoming :: incoming[id] == Feeds(dag.edges, id) && outgoing[id] == Targets(dag.edges, id))
    && forall e | e in dag.edges :: Known(dag.nodes, e.fromNode) && Known(dag.nodes, e.toNode)
  }

  lemma ArrowsAreEdges(dag: Dag, incoming: Incoming, outgoing: Adjacency, a: string, b: string)
    requires Exact(dag, incoming, outgoing)
    ensures Arrow(outgoing, a, b) <==> Connected(dag.edges, a, b)
    ensures Arrow(Back(incoming), b, a) <==> Connected(dag.edges, a, b)
  {
    hide Feeds, Targets, Find;
    TargetIsEdge(dag.edges, a, b);
    if Connected(dag.edges, a, b) {
      var e :| e in dag.edges && e.fromNode == a && e.toNode == b;
      FeedIsEdge(dag.edges, b, Feed(e.toPort, a));
      assert Known(dag.nodes, a) && Known(dag.nodes, b);
      FromsAre(incoming[b], a);
    } else if b in incoming {
      FromsAre(incoming[b], a);
      forall f | f in incoming[b]
        ensures f.from != a
      {
        FeedIsEdge(dag.edges, b, f);
      }
    }
  }

  lemma FromsAre(feeds: seq<Feed>, from: string)
    ensures from in Froms(feeds) <==> exists f | f in feeds :: f.from == from
  {
    if from in Froms(feeds) {
      var i :| 0 <= i < |feeds| && Froms(feeds)[i] == from;
      assert feeds[i] in feeds;
    } else {
      forall f | f in feeds
        ensures f.from != from
      {
        var i :| 0 <= i < |feeds| && feeds[i] == f;
        assert Froms(feeds)[i] == f.from;
      }
    }
  }

  /** incoming.get(id).values(). */
  function Froms(feeds: seq<Feed>): (r: seq<string>)
    ensures |r| == |feeds| && forall i | 0 <= i < |r| :: r[i] == feeds[i].from
  {
    seq(|feeds|, i requires 0 <= i < |feeds| => feeds[i].from)
  }

  function Back(incoming: Incoming): (r: Adjacency)
    ensures r.Keys == incoming.Keys
  {
    map id | id in incoming :: Froms(incoming[id])
  }

  lemma RankedIsAcyclic(dag: Dag, incoming: Incoming, outgoing: Adjacency, rank: map<string, nat>, bound: nat)
    requires Exact(dag, incoming, outgoing) && rank.Keys == outgoing.Keys && Descends(outgoing, rank)
    requires forall a | a in rank :: rank[a] < bound
    ensures Acyclic(dag)
  {
    hide Feeds, Targets, Find;
    var level: map<string, nat> := map a | a in rank :: bound - rank[a];
    forall n | n in dag.nodes
      ensures n.id in level
    {
      assert Known(dag.nodes, n.id);
    }
    forall e | e in dag.edges
      ensures e.fromNode in level && e.toNode in level && level[e.fromNode] < level[e.toNode]
    {
      assert Connected(dag.edges, e.fromNode, e.toNode);
      ArrowsAreEdges(dag, incoming, outgoing, e.fromNode, e.toNode);
    }
    assert Levels(dag, level);
  }

  lemma {:induction false} Climbs(dag: Dag, incoming: Incoming, outgoing: Adjacency, level: map<string, nat>,
      p: seq<string>)
    requires Exact(dag, incoming, outgoing) && Levels(dag, level) && IsPath(outgoing, p) && |p| >= 2
    ensures p[0] in level && p[|p| - 1] in level && level[p[0]] < level[p[|p| - 1]]
  {
    hide Exact, Find;
    assert Arrow(outgoing, p[0], p[1]);
    ArrowsAreEdges(dag, incoming, outgoing, p[0], p[1]);
    var e :| e in dag.edges && e.fromNode == p[0] && e.toNode == p[1];
    if |p| > 2 {
      PathSuffix(outgoing, p, 1);
      Climbs(dag, incoming, outgoing, level, p[1..]);
    }
  }

  lemma CyclicIsNotAcyclic(dag: Dag, incoming: Incoming, outgoing: Adjacency)
    requires Exact(dag, incoming, outgoing) && HasCycle(outgoing)
    ensures !Acyclic(dag)
  {
    hide Exact;
    forall level | Levels(dag, level)
      ensures false
    {
      var p :| IsCycle(outgoing, p);
      Climbs(dag, incoming, outgoing, level, p);
    }
  }

  function Reversed(p: seq<string>): (r: seq<string>)
    ensures |r| == |p| && forall i | 0 <= i < |r| :: r[i] == p[|p| - 1 - i]
  {
    seq(|p|, i requires 0 <= i < |p| => p[|p| - 1 - i])
  }

  lemma BackwardsIsLeads(dag: Dag, incoming: Incoming, outgoing: Adjacency, a: string, b: string)
    requires Exact(dag, incoming, outgoing)
    ensures Reachable(Back(incoming), b, a) <==> Leads(dag.edges, a, b)
  {
    hide Exact, Back;
    if Reachable(Back(incoming), b, a) {
      var p :| Connects(Back(incoming), p, b, a);
      var q := Reversed(p);
      forall i | 0 <= i < |q| - 1
        ensures Connected(dag.edges, q[i], q[i + 1])
      {
        var j := |p| - 2 - i;
        assert Arrow(Back(incoming), p[j], p[j + 1]);
        ArrowsAreEdges(dag, incoming, outgoing, q[i], q[i + 1]);
      }
      assert IsRoute(dag.edges, q);
    }
    if Leads(dag.edges, a, b) {
      var q :| IsRoute(dag.edges, q) && q[0] == a && q[|q| - 1] == b;
      var p := Reversed(q);
      forall i | 0 <= i < |p| - 1
        ensures Arrow(Back(incoming), p[i], p[i + 1])
      {
        var j := |q| - 2 - i;
        assert Connected(dag.edges, q[j], q[j + 1]);
        ArrowsAreEdges(dag, incoming, outgoing, q[j], q[j + 1]);
      }
      assert Connects(Back(incoming), p, b, a);
    }
  }

  // ---------------------------------------------------------------- all graph checks

  lemma ExactWhenOk(dag: Dag, incoming: Incoming, outgoing: Adjacency)
    requires Adjacent(dag.nodes, dag.edges, incoming, outgoing) && EdgesOk(dag.nodes, dag.edges)
    ensures Exact(dag, incoming, outgoing)
  {
    hide Feeders, Feeds, Targets, Find;
  }

  lemma WiredWhenOk(dag: Dag)
    ensures UniqueIds(dag.nodes) && EdgesOk(dag.nodes, dag.edges) && PortsFed(dag, dag.nodes) <==> Wired(dag)
  {
    hide Find;
    if Wired(dag) {
      forall id, port
        ensures |Feeders(dag.edges, id, port)| <= 1
      {
        if Feeders(dag.edges, id, port) != [] {
          OnlyPortsAreFed(dag, id, port);
        }
      }
    }
  }

  lemma OnlyPortsAreFed(dag: Dag, id: string, port: string)
    requires Wired(dag) && Feeders(dag.edges, id, port) != []
    ensures |Feeders(dag.edges, id, port)| == 1
  {
    hide Feeds, AtPort;
    var from := Feeders(dag.edges, id, port)[0];
    assert from in Feeders(dag.edges, id, port);
    FeederIsEdge(dag.edges, id, port, from);
    var e :| e in dag.edges && e.toNode == id && e.toPort == port && e.fromNode == from;
    assert ConnectionOk(dag.nodes, e);
    var n := Find(dag.nodes, id).value;
    assert port in InputPorts(n.op);
  }

  lemma ClosedAdjacency(dag: Dag, incoming: Incoming, outgoing: Adjacency)
    requires Adjacent(dag.nodes, dag.edges, incoming, outgoing)
    ensures Closed(outgoing) && Closed(Back(incoming))
    ensures Elements(Ids(dag.nodes)) == outgoing.Keys == incoming.Keys
  {
    hide Feeders, Feeds, Targets, EdgesOk;
    forall a, b | Arrow(Back(incoming), a, b)
      ensures b in incoming
    {
      FromsAre(incoming[a], b);
    }
    forall id
      ensures id in Ids(dag.nodes) <==> Known(dag.nodes, id)
    {
      IdsAreKnown(dag.nodes, id);
    }
    assert forall id :: id in Elements(Ids(dag.nodes)) <==> id in outgoing.Keys;
    assert forall id :: id in outgoing.Keys <==> id in incoming.Keys;
  }

  /** The cycle test, on exact adjacency. */
  method CheckCycles(dag: Dag, incoming: Incoming, outgoing: Adjacency, before: seq<string>)
    returns (issues: seq<string>, ghost rank: map<string, nat>, ghost bound: nat)
    requires |before| <= MAX_ISSUES && Adjacent(dag.nodes, dag.edges, incoming, outgoing)
    requires before == [] ==> EdgesOk(dag.nodes, dag.edges)
    ensures |issues| <= MAX_ISSUES && (issues == [] <==> before == [] && Acyclic(dag))
    ensures issues == [] ==> Descends(outgoing, rank) && forall a | a in rank :: rank[a] < bound
  {
    hide EdgesOk, Adjacent, Exact, Acyclic, HasCycle, Descends, Find;
    issues := before;
    ClosedAdjacency(dag, incoming, outgoing);
    var cyclic;
    cyclic, rank, bound := FindCycle(outgoing, Ids(dag.nodes));
    if EdgesOk(dag.nodes, dag.edges) {
      ExactWhenOk(dag, incoming, outgoing);
      if cyclic {
        CyclicIsNotAcyclic(dag, incoming, outgoing);
      } else {
        RankedIsAcyclic(dag, incoming, outgoing, rank, bound);
      }
    }
    if cyclic {
      issues := Add(issues, "DAG_CYCLE");
    }
  }

  ghost predicate AllLead(dag: Dag, id: string) {
    forall n | n in dag.nodes :: Leads(dag.edges, n.id, id)
  }

  method CheckReach(dag: Dag, output: string, incoming: Incoming, outgoing: Adjacency, before: seq<string>)
      returns (issues: seq<string>)
    requires |before| <= MAX_ISSUES && Adjacent(dag.nodes, dag.edges, incoming, outgoing) && Known(dag.nodes, output)
    requires before == [] ==> EdgesOk(dag.nodes, dag.edges) && UniqueIds(dag.nodes)
    ensures |issues| <= MAX_ISSUES && (issues == [] <==> before == [] && AllLead(dag, output))
  {
    hide EdgesOk, Adjacent, Exact, Reachable, Leads, Find;
    issues := before;
    ClosedAdjacency(dag, incoming, outgoing);
    IdsAreKnown(dag.nodes, output);
    var reached := Reach(Back(incoming), output);
    if EdgesOk(dag.nodes, dag.edges) && UniqueIds(dag.nodes) {
      ExactWhenOk(dag, incoming, outgoing);
      CountIds(dag.nodes);
      ReachedAll(dag, incoming, outgoing, output, reached);
    }
    if |reached| != |dag.nodes| {
      issues := Add(issues, "DAG_DISCONNECTED");
    }
  }

  lemma ReachedAll(dag: Dag, incoming: Incoming, outgoing: Adjacency, output: string, reached: set<string>)
    requires Exact(dag, incoming, outgoing) && UniqueIds(dag.nodes)
    requires forall x :: x in reached <==> Reachable(Back(incoming), output, x)
    requires reached <= incoming.Keys && incoming.Keys == Elements(Ids(dag.nodes))
             && |Elements(Ids(dag.nodes))| == |dag.nodes|
    ensures |reached| == |dag.nodes| <==> AllLead(dag, output)
  {
    hide Exact, Reachable, Leads;
    forall n | n in dag.nodes
      ensures n.id in reached <==> Leads(dag.edges, n.id, output)
    {
      BackwardsIsLeads(dag, incoming, outgoing, n.id, output);
    }
    forall n | n in dag.nodes
      ensures n.id in Elements(Ids(dag.nodes))
    {
      IdsAreKnown(dag.nodes, n.id);
    }
    if |reached| == |dag.nodes| {
      SameSize(reached, Elements(Ids(dag.nodes)));
    }
    if AllLead(dag, output) {
      forall id | id in Elements(Ids(dag.nodes))
        ensures id in reached
      {
        IdsAreKnown(dag.nodes, id);
      }
      assert reached == Elements(Ids(dag.nodes));
    }
  }

  lemma SameSize(a: set<string>, b: set<string>)
    requires a <= b && |a| == |b|
    ensures a == b
  {
    if x :| x in b && x !in a {
      assert a <= b - {x};
      SetSize(a, b - {x});
    }
  }

  lemma {:induction false} SetSize(a: set<string>, b: set<string>)
    requires a <= b
    ensures |a| <= |b|
    decreases a
  {
    if x :| x in a {
      SetSize(a - {x}, b - {x});
    }
  }

  lemma {:induction false} CountIds(nodes: seq<Node>)
    requires UniqueIds(nodes)
    ensures |Elements(Ids(nodes))| == |nodes| && Distinct(Ids(nodes))
  {
    if nodes != [] {
      var init, last := nodes[..|nodes| - 1], nodes[|nodes| - 1];
      CountIds(init);
      assert Ids(nodes) == Ids(init) + [last.id];
      assert Elements(Ids(nodes)) == Elements(Ids(init)) + {last.id};
    }
  }

  /** Every check before shapes are derived: no issue exactly on well-formed graphs. */
  method CheckGraph(host: Host, dag: Dag)
    returns (issues: seq<string>, byId: map<string, Node>, incoming: Incoming, outgoing: Adjacency,
      ghost rank: map<string, nat>, ghost bound: nat)
    ensures |issues| <= MAX_ISSUES && (issues == [] <==> WellFormed(host, dag))
    ensures forall id :: id in byId <==> Known(dag.nodes, id)
    ensures forall id | id in byId :: Find(dag.nodes, id) == Some(byId[id])
    ensures issues == [] ==>
            Exact(dag, incoming, outgoing) && Closed(outgoing)
            && Elements(Ids(dag.nodes)) == outgoing.Keys
    ensures issues == [] ==> Descends(outgoing, rank) && forall a | a in rank :: rank[a] < bound
  {
    hide IsNodeId, UniqueIds, EdgesOk, PortsFed, SourcesOk, Acyclic, AllLead, Wired, Adjacent, Exact, Descends, Closed,
      Find, Outputs;
    issues := [];
    if |dag.nodes| < 1 || |dag.nodes| > Dags.MAX_NODES {
      issues := Add(issues, "DAG_NODE_COUNT_INVALID");
    }
    if |dag.edges| > MAX_EDGES {
      issues := Add(issues, "DAG_EDGE_COUNT_INVALID");
    }
    issues, byId := CheckNodes(dag.nodes, issues);
    var outputs := Outputs(dag.nodes);
    if |outputs| != 1 {
      issues := Add(issues, "OUTPUT_CARDINALITY_INVALID");
    }
    issues, incoming, outgoing := Connect(dag.nodes, byId, dag.edges, issues);
    issues := CheckPorts(dag, incoming, outgoing, issues);
    issues := CheckSources(host, dag, byId, incoming, outgoing, issues);
    issues, rank, bound := CheckCycles(dag, incoming, outgoing, issues);
    if |outputs| == 1 {
      OutputIsNode(dag);
      issues := CheckReach(dag, outputs[0].id, incoming, outgoing, issues);
    }
    WiredWhenOk(dag);
    ClosedAdjacency(dag, incoming, outgoing);
    if EdgesOk(dag.nodes, dag.edges) {
      ExactWhenOk(dag, incoming, outgoing);
    }
    ChecksAreWellFormed(host, dag);
  }

  /** The checks, put together, are the definition of a well-formed graph. */
  lemma ChecksAreWellFormed(host: Host, dag: Dag)
    ensures WellFormed(host, dag) <==>
              && 1 <= |dag.nodes| <= Dags.MAX_NODES && |dag.edges| <= MAX_EDGES
              && NodesOk(dag.nodes) && |Outputs(dag.nodes)| == 1
              && Wired(dag) && SourcesOk(host, dag, dag.nodes) && Acyclic(dag) && AllLead(dag, Outputs(dag.nodes)[0].id)
  {
    hide Acyclic, Leads, SourceOk, IsNodeId, Version, Feeders, ConnectionOk;
  }

  // ---------------------------------------------------------------- shapes, in queue order

  lemma {:induction false} OccursAppend(s: seq<string>, x: string, t: string)
    ensures Occurs(s + [x], t) == Occurs(s, t) + if x == t then 1 else 0
  {
    if s != [] {
      assert (s + [x])[1..] == s[1..] + [x];
      OccursAppend(s[1..], x, t);
    }
  }

  lemma {:induction false} OpenPush(nodes: seq<string>, adj: Adjacency, wider: Adjacency, s: string, x: string,
      t: string)
    requires Distinct(nodes) && adj.Keys == wider.Keys && (forall a | a in nodes :: a in adj) && s in adj
    requires wider == adj[s := adj[s] + [x]]
    ensures Open(nodes, wider, {}, t) == Open(nodes, adj, {}, t) + if s in nodes && x == t then 1 else 0
  {
    if nodes != [] {
      OpenPush(nodes[1..], adj, wider, s, x, t);
      OccursAppend(adj[s], x, t);
    }
  }

  ghost function AdjacencyOf(ids: seq<string>, edges: seq<Edge>): (adj: Adjacency)
    ensures adj.Keys == Elements(ids) && forall id | id in adj :: adj[id] == Targets(edges, id)
  {
    map id | id in Elements(ids) :: Targets(edges, id)
  }

  lemma {:induction false} NoneOpen(nodes: seq<string>, adj: Adjacency, t: string)
    requires forall a | a in nodes :: a in adj && adj[a] == []
    ensures Open(nodes, adj, {}, t) == 0
  {
    if nodes != [] {
      NoneOpen(nodes[1..], adj, t);
    }
  }

  /** Each counter starts as the number of connections into its node. */
  lemma {:induction false} OpenIsFeeds(ids: seq<string>, edges: seq<Edge>, t: string)
    requires Distinct(ids) && forall e | e in edges :: e.fromNode in ids
    ensures Open(ids, AdjacencyOf(ids, edges), {}, t) == |Feeds(edges, t)|
  {
    if edges == [] {
      NoneOpen(ids, AdjacencyOf(ids, []), t);
    } else {
      var init, e := edges[..|edges| - 1], edges[|edges| - 1];
      assert edges == init + [e];
      OpenIsFeeds(ids, init, t);
      var adj, wider := AdjacencyOf(ids, init), AdjacencyOf(ids, edges);
      FeedsAppend(init, e, t);
      forall id | id in wider
        ensures wider[id] == adj[e.fromNode := adj[e.fromNode] + [e.toNode]][id]
      {
        FeedsAppend(init, e, id);
      }
      assert wider == adj[e.fromNode := adj[e.fromNode] + [e.toNode]];
      OpenPush(ids, adj, wider, e.fromNode, e.toNode, t);
    }
  }

  lemma CountersStart(dag: Dag, incoming: Incoming, outgoing: Adjacency)
    requires Exact(dag, incoming, outgoing) && UniqueIds(dag.nodes) && Elements(Ids(dag.nodes)) == outgoing.Keys
    ensures Distinct(Ids(dag.nodes))
    ensures forall t | t in outgoing :: Open(Ids(dag.nodes), outgoing, {}, t) == |incoming[t]|
  {
    hide Feeds, Targets, Find, Open;
    CountIds(dag.nodes);
    forall e | e in dag.edges
      ensures e.fromNode in Ids(dag.nodes)
    {
      IdsAreKnown(dag.nodes, e.fromNode);
    }
    assert outgoing == AdjacencyOf(Ids(dag.nodes), dag.edges);
    forall t | t in outgoing
      ensures Open(Ids(dag.nodes), outgoing, {}, t) == |incoming[t]|
    {
      OpenIsFeeds(Ids(dag.nodes), dag.edges, t);
    }
  }

  function ShapeAt(shapes: map<string, Shape>, id: Option<string>): Try<Shape> {
    if id.Some? && id.value in shapes then Success(shapes[id.value]) else Failure(NO_INPUT)
  }

  /** The inputs map of the loop, port by port. */
  function InputShapes(shapes: map<string, Shape>, feeds: seq<Feed>, ports: seq<string>): (r: seq<Try<Shape>>)
    ensures |r| == |ports| && forall k | 0 <= k < |r| :: r[k] == ShapeAt(shapes, At(feeds, ports[k]))
  {
    seq(|ports|, k requires 0 <= k < |ports| => ShapeAt(shapes, At(feeds, ports[k])))
  }

  ghost function Wrap(shapes: map<string, Shape>): (r: map<string, Try<Shape>>)
    ensures r.Keys == shapes.Keys && forall id | id in r :: r[id] == Success(shapes[id])
  {
    map id | id in shapes :: Success(shapes[id])
  }

  lemma InputsAreGathered(dag: Dag, incoming: Incoming, outgoing: Adjacency, shapes: map<string, Shape>, id: string)
    requires Exact(dag, incoming, outgoing) && Wired(dag) && Known(dag.nodes, id)
    requires forall a | Arrow(outgoing, a, id) :: a in shapes
    ensures forall k: nat | k < Arity(dag, id) :: Feeder(dag, id, k) in Wrap(shapes)
    ensures InputShapes(shapes, incoming[id], InputPorts(NodeOf(dag, id).op)) == Gather(dag, Wrap(shapes), id)
  {
    hide Feeds, Targets, AtPort, Find, ConnectionOk, UniqueIds;
    var ports := InputPorts(NodeOf(dag, id).op);
    forall k: nat | k < |ports|
      ensures Feeder(dag, id, k) in shapes && At(incoming[id], ports[k]) == Some(Feeder(dag, id, k))
    {
      var from := Feeder(dag, id, k);
      assert from in Feeders(dag.edges, id, ports[k]);
      FeederIsEdge(dag.edges, id, ports[k], from);
      assert Connected(dag.edges, from, id);
      ArrowsAreEdges(dag, incoming, outgoing, from, id);
    }
  }

  /** Source shapes are their declared schemas. */
  method SourceShapes(host: Host, nodes: seq<Node>) returns (r: Try<map<string, Shape>>)
    requires UniqueIds(nodes)
    ensures r.Success? ==> forall id :: id in r.value <==> Known(nodes, id) && Find(nodes, id).value.op.Source?
    ensures r.Success? ==> forall n | n in nodes && n.op.Source? ::
            n.id in r.value
            && CompileShape(host, n.op, []) == Success(r.value[n.id])
    ensures r.Failure? ==> exists n | n in nodes :: n.op.Source? && CompileShape(host, n.op, []).Failure?
  {
    var shapes: map<string, Shape> := map[];
    hide CompileShape, Find;
    for i := 0 to |nodes|
      invariant forall id | id in shapes :: exists n | n in nodes[..i] :: n.op.Source? && n.id == id
      invariant forall n | n in nodes[..i] && n.op.Source? ::
                n.id in shapes
                && CompileShape(host, n.op, []) == Success(shapes[n.id])
    {
      var node := nodes[i];
      assert nodes[..i + 1] == nodes[..i] + [node];
      if node.op.Source? {
        var shape := CompileShape(host, node.op, []);
        if shape.Failure? {
          return Failure(shape.error);
        }
        assert forall n | n in nodes[..i] :: n.id != node.id;
        shapes := shapes[node.id := shape.value];
      }
    }
    assert nodes[..|nodes|] == nodes;
    forall n | n in nodes
      ensures Find(nodes, n.id) == Some(n)
    {
      FindUnique(nodes, n);
    }
    r := Success(shapes);
  }

  ghost predicate ShapesSoFar(host: Host, dag: Dag, done: set<string>, shapes: map<string, Shape>)
    requires Wired(dag)
  {
    && (forall id :: id in shapes <==> id in done || (Known(dag.nodes, id) && NodeOf(dag, id).op.Source?))
    && Computed(dag, ShapeStep(host), Wrap(shapes))
  }

  lemma SourcesFirst(host: Host, dag: Dag, shapes: map<string, Shape>)
    requires Wired(dag)
    requires forall id :: id in shapes <==> Known(dag.nodes, id) && NodeOf(dag, id).op.Source?
    requires forall n | n in dag.nodes && n.op.Source? ::
             n.id in shapes
             && CompileShape(host, n.op, []) == Success(shapes[n.id])
    ensures ShapesSoFar(host, dag, {}, shapes)
  {
    hide CompileShape, Find, Wired;
    forall id | id in shapes
      ensures Arity(dag, id) == 0 && Wrap(shapes)[id] == ShapeStep(host)(NodeOf(dag, id), Gather(dag, Wrap(shapes), id))
    {
      assert Gather(dag, Wrap(shapes), id) == [];
      assert Collect<Shape>([]) == Success([]);
    }
  }

  /** One turn of the queue: the shape of a node whose predecessors are done, or the failure of its meaning. */
  method DeriveOne(host: Host, dag: Dag, id: string, byId: map<string, Node>, incoming: Incoming, outgoing: Adjacency,
      ghost done: set<string>, shapes: map<string, Shape>)
    returns (r: Try<map<string, Shape>>)
    requires Wired(dag) && Acyclic(dag) && Exact(dag, incoming, outgoing) && ShapesSoFar(host, dag, done, shapes)
    requires Known(dag.nodes, id) && id !in done && forall a | Arrow(outgoing, a, id) :: a in done
    requires id in byId && byId[id] == NodeOf(dag, id)
    ensures r.Success? ==> ShapesSoFar(host, dag, done + {id}, r.value)
    ensures r.Failure? ==> ShapeOf(host, dag, id).Failure?
  {
    hide Wired, Acyclic, Find, Feeds, Targets, CompileShape, Computed, Meaning;
    var node := byId[id];
    if node.op.Source? {
      return Success(shapes);
    }
    InputsAreGathered(dag, incoming, outgoing, shapes, id);
    StepIsMeaning(dag, ShapeStep(host), Wrap(shapes), id);
    ExtendComputed(dag, ShapeStep(host), Wrap(shapes), id);
    var shape := CompileNode(host, node, InputShapes(shapes, incoming[id], InputPorts(node.op)));
    assert shape == ShapeOf(host, dag, id);
    if shape.Failure? {
      return Failure(shape.error);
    }
    assert Wrap(shapes[id := shape.value]) == Wrap(shapes)[id := shape];
    r := Success(shapes[id := shape.value]);
  }

  /** The scheduling loop: every node gets its shape after its predecessors, or some node has none. */
  method RunQueue(host: Host, dag: Dag, byId: map<string, Node>, incoming: Incoming, outgoing: Adjacency,
      queue: KahnQueue, sources: map<string, Shape>)
    returns (r: Try<map<string, Shape>>, ghost failing: string)
    requires Wired(dag) && Acyclic(dag) && Exact(dag, incoming, outgoing)
    requires forall id :: id in byId <==> Known(dag.nodes, id)
    requires forall id | id in byId :: Find(dag.nodes, id) == Some(byId[id])
    requires queue.Valid() && queue.adj == outgoing && queue.done == {} && ShapesSoFar(host, dag, {}, sources)
    modifies queue
    ensures r.Success? ==> queue.Valid() && queue.queue == [] && ShapesSoFar(host, dag, queue.done, r.value)
    ensures r.Failure? ==> Known(dag.nodes, failing) && ShapeOf(host, dag, failing).Failure?
  {
    hide Wired, Acyclic, Find, Feeds, Targets, CompileNode, ShapeOf, Open, ShapesSoFar;
    var shapes := sources;
    failing := "";
    while queue.queue != []
      invariant queue.Valid() && ShapesSoFar(host, dag, queue.done, shapes)
      decreases outgoing.Keys - queue.done
    {
      ghost var done := queue.done;
      var id := queue.Advance();
      var next := DeriveOne(host, dag, id, byId, incoming, outgoing, done, shapes);
      if next.Failure? {
        failing := id;
        return Failure(next.error), failing;
      }
      shapes := next.value;
    }
    r := Success(shapes);
  }

  lemma ExactKeys(dag: Dag, incoming: Incoming, outgoing: Adjacency)
    requires Exact(dag, incoming, outgoing)
    ensures forall id :: id in outgoing <==> Known(dag.nodes, id)
  {
  }

  /** The queue at the start: every counter is the number of the node's incoming edges. */
  method StartQueue(dag: Dag, incoming: Incoming, outgoing: Adjacency) returns (queue: KahnQueue)
    requires Exact(dag, incoming, outgoing) && Closed(outgoing) && UniqueIds(dag.nodes)
             && Elements(Ids(dag.nodes)) == outgoing.Keys
    ensures fresh(queue) && queue.Valid() && queue.adj == outgoing && queue.done == {}
  {
    hide Find, Feeds, Targets, Open;
    CountersStart(dag, incoming, outgoing);
    var indegree: map<string, int> := map id | id in incoming :: |incoming[id]|;
    queue := new KahnQueue(Ids(dag.nodes), outgoing, indegree);
  }

  /** The derived Output shape is the recursive one, and a failure to derive shapes is a failure of it. */
  method DeriveShapes(host: Host, dag: Dag, byId: map<string, Node>, incoming: Incoming, outgoing: Adjacency,
      ghost rank: map<string, nat>, ghost bound: nat)
    returns (r: Try<Shape>)
    requires WellFormed(host, dag) && Exact(dag, incoming, outgoing) && Closed(outgoing)
             && Elements(Ids(dag.nodes)) == outgoing.Keys
    requires Descends(outgoing, rank) && forall a | a in rank :: rank[a] < bound
    requires forall id :: id in byId <==> Known(dag.nodes, id)
    requires forall id | id in byId :: Find(dag.nodes, id) == Some(byId[id])
    ensures Known(dag.nodes, OutputId(dag))
    ensures r.Success? ==> r == ShapeOf(host, dag, OutputId(dag))
    ensures r.Failure? ==> ShapeOf(host, dag, OutputId(dag)).Failure?
  {
    hide Wired, Acyclic, WellFormed, Find, CompileShape, ShapeOf, Descends, ShapesSoFar, Outputs, KahnQueue.Valid,
      Exact, Closed;
    assert forall id :: id in outgoing <==> Known(dag.nodes, id) by { ExactKeys(dag, incoming, outgoing); }
    WellFormedIds(host, dag);
    OutputIsNode(dag);
    assert Known(dag.nodes, OutputId(dag));
    var sources := SourceShapes(host, dag.nodes);
    if sources.Failure? {
      SourceFails(host, dag);
      return Failure(sources.error);
    }
    SourcesFirst(host, dag, sources.value);
    var queue := StartQueue(dag, incoming, outgoing);
    var shapes, failing := RunQueue(host, dag, byId, incoming, outgoing, queue, sources.value);
    if shapes.Failure? {
      NodeFails(host, dag, failing);
      return Failure(shapes.error);
    }
    queue.Drained(rank, bound);
    AllDerived(host, dag, queue.done, shapes.value, OutputId(dag));
    r := Success(shapes.value[Outputs(dag.nodes)[0].id]);
  }

  lemma WellFormedIds(host: Host, dag: Dag)
    requires WellFormed(host, dag)
    ensures Wired(dag) && Acyclic(dag) && UniqueIds(dag.nodes) && |Outputs(dag.nodes)| == 1
  {
    hide Acyclic, Leads, SourceOk, IsNodeId, Version, Feeders, ConnectionOk;
  }

  lemma NodeFails(host: Host, dag: Dag, id: string)
    requires WellFormed(host, dag) && Known(dag.nodes, id) && ShapeOf(host, dag, id).Failure?
    ensures Known(dag.nodes, OutputId(dag)) && ShapeOf(host, dag, OutputId(dag)).Failure?
  {
    hide Wired, Acyclic, Find, CompileNode, Meaning, WellFormed;
    WellFormedIds(host, dag);
    ShapeStepDemands(host);
    OutputNeedsAll(host, dag, ShapeStep(host), NodeOf(dag, id));
  }

  lemma SourceFails(host: Host, dag: Dag)
    requires WellFormed(host, dag) && exists n | n in dag.nodes :: n.op.Source? && CompileShape(host, n.op, []).Failure?
    ensures Known(dag.nodes, OutputId(dag)) && ShapeOf(host, dag, OutputId(dag)).Failure?
  {
    hide Wired, Acyclic, Find, CompileShape, Meaning, WellFormed;
    WellFormedIds(host, dag);
    var n :| n in dag.nodes && n.op.Source? && CompileShape(host, n.op, []).Failure?;
    FindUnique(dag.nodes, n);
    MeaningUnfolds(dag, ShapeStep(host), n.id);
    assert MeaningInputs(dag, ShapeStep(host), n.id) == [];
    NodeFails(host, dag, n.id);
  }

  lemma AllDerived(host: Host, dag: Dag, done: set<string>, shapes: map<string, Shape>, id: string)
    requires Wired(dag) && Acyclic(dag) && ShapesSoFar(host, dag, done, shapes) && id in done && Known(dag.nodes, id)
    ensures id in shapes && Success(shapes[id]) == ShapeOf(host, dag, id)
  {
    hide Wired, Acyclic, Find, CompileNode, Meaning, Computed;
    ComputedIsMeaning(dag, ShapeStep(host), Wrap(shapes), id);
  }

  // ---------------------------------------------------------------- the declared output

  /** Every compiled field is declared with its type and unit, and declared nullable if it may be null. */
  predicate Promised(declared: Shape, compiled: Shape) {
    && ValidSchema(declared, false) && |declared| == |compiled|
    && forall f | f in compiled ::
         var p := Lookup(declared, f.name);
         p.Some? && p.value.ty == f.ty && (f.nullable ==> p.value.nullable) && p.value.unit == f.unit
  }

  method CheckDeclared(declared: Shape, compiled: Shape) returns (ok: bool)
    ensures ok <==> Promised(declared, compiled)
  {
    if !ValidSchema(declared, false) || |declared| != |compiled| {
      return false;
    }
    for i := 0 to |compiled|
      invariant forall f | f in compiled[..i] ::
          var p := Lookup(declared, f.name);
          p.Some? && p.value.ty == f.ty && (f.nullable ==> p.value.nullable) && p.value.unit == f.unit
    {
      var actual := compiled[i];
      assert actual in compiled && compiled[..i + 1] == compiled[..i] + [actual];
      var promised := Lookup(declared, actual.name);
      if promised.None? || promised.value.ty != actual.ty || (!promised.value.nullable && actual.nullable)
        || promised.value.unit != actual.unit {
        return false;
      }
    }
    assert compiled[..|compiled|] == compiled;
    ok := true;
  }

  datatype Compilation = Passed(output: Shape) | Rejected(issues: seq<string>)

  /** What compilation accepts, without any order of checks or nodes. */
  ghost predicate Compiles(host: Host, dag: Dag, declared: Shape) {
    && WellFormed(host, dag) && Known(dag.nodes, OutputId(dag))
    && ShapeOf(host, dag, OutputId(dag)).Success?
    && Promised(declared, ShapeOf(host, dag, OutputId(dag)).value)
  }

  /** compileStructuredDag: passes exactly the plans that compile, with the recursive Output shape. */
  method Compile(host: Host, dag: Dag, declared: Shape) returns (r: Compilation)
    ensures r.Passed? <==> Compiles(host, dag, declared)
    ensures r.Passed? ==> ShapeOf(host, dag, OutputId(dag)) == Success(r.output)
    ensures r.Rejected? ==> 1 <= |r.issues| <= MAX_ISSUES
  {
    hide WellFormed, Wired, Acyclic, Find, CompileNode, Meaning, Exact, Closed, Descends, Promised;
    var issues, byId, incoming, outgoing;
    ghost var rank, bound;
    issues, byId, incoming, outgoing, rank, bound := CheckGraph(host, dag);
    if issues != [] {
      return Rejected(issues);
    }
    WellFormedIds(host, dag);
    var shape := DeriveShapes(host, dag, byId, incoming, outgoing, rank, bound);
    if shape.Failure? {
      return Rejected(["COMPILATION_FAILED"]);
    }
    var ok := CheckDeclared(declared, shape.value);
    r := if ok then Passed(shape.value) else Rejected(["OUTPUT_SCHEMA_INVALID"]);
  }
}
