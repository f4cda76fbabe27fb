/** The residual rewrite (agent/pushdown.ts): deleting pushed filter and sort nodes from a plan. */
module Residual {
  import opened Wrappers
  import opened Values
  import opened Ordering
  import opened Filtering
  import opened Expressions
  import opened Sorting
  import opened Operators
  import opened Dags
  import opened Compiler
  import opened DagOrder

  // ---------------------------------------------------------------- the rewrite on lists

  function Keep(edges: seq<Edge>, keep: Edge -> bool): (r: seq<Edge>)
    ensures forall e :: e in r <==> e in edges && keep(e)
  {
    if edges == [] then []
    else
      assert edges == edges[..|edges| - 1] + [edges[|edges| - 1]];
      Keep(edges[..|edges| - 1], keep) + (if keep(edges[|edges| - 1]) then [edges[|edges| - 1]] else [])
  }

  function Into(edges: seq<Edge>, id: string): seq<Edge> {
    Keep(edges, (e: Edge) => e.toNode == id && e.toPort == "rows")
  }

  function OutOf(edges: seq<Edge>, id: string): seq<Edge> {
    Keep(edges, (e: Edge) => e.fromNode == id)
  }

  function Apart(edges: seq<Edge>, id: string): seq<Edge> {
    Keep(edges, (e: Edge) => e.toNode != id && e.fromNode != id)
  }

  /** Connections moved to start at another node. */
  function Redirect(edges: seq<Edge>, from: string): (r: seq<Edge>)
    ensures |r| == |edges| && forall i | 0 <= i < |r| :: r[i] == edges[i].(fromNode := from, fromPort := "rows")
  {
    seq(|edges|, i requires 0 <= i < |edges| => edges[i].(fromNode := from, fromPort := "rows"))
  }

  function IndexOf(nodes: seq<Node>, id: string): (i: nat)
    requires Known(nodes, id)
    ensures i < |nodes| && nodes[i].id == id
  {
    if nodes[0].id == id then 0 else 1 + IndexOf(nodes[1..], id)
  }

  /** removeUnaryNode on a value: nothing unless exactly one connection enters the rows port. */
  function Removed(dag: Dag, id: string): Dag
    requires Known(dag.nodes, id)
  {
    var incoming := Into(dag.edges, id);
    if |incoming| != 1 then dag
    else
      var at := IndexOf(dag.nodes, id);
      Dag(dag.nodes[..at] + dag.nodes[at + 1..],
        Apart(dag.edges, id) + Redirect(OutOf(dag.edges, id), incoming[0].fromNode))
  }

  class MutableDag {
    var nodes: seq<Node>
    var edges: seq<Edge>

    constructor (dag: Dag)
      ensures nodes == dag.nodes && edges == dag.edges
    {
      nodes, edges := dag.nodes, dag.edges;
    }

    function Value(): Dag
      reads this
    {
      Dag(nodes, edges)
    }

    /** removeUnaryNode: the two lists are spliced in place. */
    method RemoveUnaryNode(id: string) returns (removed: bool)
      requires Known(nodes, id)
      modifies this
      ensures Value() == Removed(old(Value()), id)
      ensures removed <==> |Into(old(edges), id)| == 1
    {
      var incoming := Into(edges, id);
      if |incoming| != 1 {
        return false;
      }
      var outgoing, retained := OutOf(edges, id), Apart(edges, id);
      ghost var apart, moved := retained, Redirect(outgoing, incoming[0].fromNode);
      for k := 0 to |outgoing|
        invariant nodes == old(nodes) && edges == old(edges)
        invariant retained == apart + moved[..k]
      {
        retained := retained + [outgoing[k].(fromNode := incoming[0].fromNode, fromPort := "rows")];
      }
      assert moved[..|outgoing|] == moved;
      var at := IndexOf(nodes, id);
      nodes := nodes[..at] + nodes[at + 1..];
      edges := retained;
      removed := true;
    }
  }

  // ---------------------------------------------------------------- what the rewrite keeps

  /** The node has one rows port and is not the Output: the shape of every node that is removed. */
  ghost predicate Unary(dag: Dag, id: string)
    requires Known(dag.nodes, id)
  {
    InputPorts(NodeOf(dag, id).op) == ["rows"] && !NodeOf(dag, id).op.Output?
  }

  lemma {:induction false} IntoIsFeeders(edges: seq<Edge>, id: string)
    ensures |Into(edges, id)| == |Feeders(edges, id, "rows")|
    ensures forall i | 0 <= i < |Into(edges, id)| :: Into(edges, id)[i].fromNode == Feeders(edges, id, "rows")[i]
  {
    if edges != [] {
      var init, e := edges[..|edges| - 1], edges[|edges| - 1];
      assert edges == init + [e];
      IntoIsFeeders(init, id);
      FeedersAppend(init, e, id, "rows");
    }
  }

  /** The node that takes over the consumers of the removed one. */
  ghost function Heir(dag: Dag, id: string): string
    requires Wired(dag) && Known(dag.nodes, id) && Unary(dag, id)
  {
    Feeder(dag, id, 0)
  }

  lemma RemovedIs(dag: Dag, id: string)
    requires Wired(dag) && Known(dag.nodes, id) && Unary(dag, id)
    ensures var at := IndexOf(dag.nodes, id);
            Removed(dag, id) == Dag(dag.nodes[..at] + dag.nodes[at + 1..],
              Apart(dag.edges, id) + Redirect(OutOf(dag.edges, id), Heir(dag, id)))
  {
    hide Feeders, Find;
    IntoIsFeeders(dag.edges, id);
  }

  lemma HeirIsOther(dag: Dag, id: string)
    requires Wired(dag) && Known(dag.nodes, id) && Unary(dag, id)
    ensures Heir(dag, id) != id && !NodeOf(dag, Heir(dag, id)).op.Output?
  {
    hide Feeders, Find, UniqueIds;
    var from := Heir(dag, id);
    assert from in Feeders(dag.edges, id, "rows");
    FeederIsEdge(dag.edges, id, "rows", from);
    var e :| e in dag.edges && e.toNode == id && e.toPort == "rows" && e.fromNode == from;
    assert ConnectionOk(dag.nodes, e);
  }

  function Pick(ids: seq<string>, id: string, same: bool): seq<string> {
    if ids == [] then []
    else Pick(ids[..|ids| - 1], id, same) + (if (ids[|ids| - 1] == id) == same then [ids[|ids| - 1]] else [])
  }

  lemma PickAppend(ids: seq<string>, more: seq<string>, id: string, same: bool)
    requires |more| <= 1
    ensures Pick(ids + more, id, same) == Pick(ids, id, same) + Pick(more, id, same)
  {
    if more == [] {
      assert ids + more == ids;
    } else {
      assert (ids + more)[..|ids|] == ids && more[..0] == [];
    }
  }

  lemma PartsAppend(init: seq<Edge>, e: Edge, id: string)
    ensures Apart(init + [e], id) == Apart(init, id) + (if e.toNode != id && e.fromNode != id then [e] else [])
    ensures OutOf(init + [e], id) == OutOf(init, id) + (if e.fromNode == id then [e] else [])
  {
    assert (init + [e])[..|init|] == init;
  }

  lemma FeedersMaybe(edges: seq<Edge>, e: Edge, added: bool, n: string, port: string)
    ensures Feeders(edges + (if added then [e] else []), n, port) ==
              Feeders(edges, n, port) + (if added && e.toNode == n && e.toPort == port then [e.fromNode] else [])
  {
    if added {
      FeedersAppend(edges, e, n, port);
    } else {
      assert edges + [] == edges;
    }
  }

  lemma {:induction false} FeedersOfParts(edges: seq<Edge>, id: string, n: string, port: string)
    requires n != id
    ensures Feeders(Apart(edges, id), n, port) == Pick(Feeders(edges, n, port), id, false)
    ensures Feeders(OutOf(edges, id), n, port) == Pick(Feeders(edges, n, port), id, true)
  {
    if edges == [] {
      assert Feeders([], n, port) == [];
    } else {
      hide Feeders, Apart, OutOf;
      var init, e := edges[..|edges| - 1], edges[|edges| - 1];
      assert edges == init + [e];
      FeedersOfParts(init, id, n, port);
      PartsAppend(init, e, id);
      FeedersMaybe(init, e, true, n, port);
      FeedersMaybe(Apart(init, id), e, e.toNode != id && e.fromNode != id, n, port);
      FeedersMaybe(OutOf(init, id), e, e.fromNode == id, n, port);
      var more := if e.toNode == n && e.toPort == port then [e.fromNode] else [];
      PickAppend(Feeders(init, n, port), more, id, true);
      PickAppend(Feeders(init, n, port), more, id, false);
    }
  }

  lemma {:induction false} FeedersRedirected(edges: seq<Edge>, from: string, n: string, port: string)
    ensures |Feeders(Redirect(edges, from), n, port)| == |Feeders(edges, n, port)|
    ensures forall x | x in Feeders(Redirect(edges, from), n, port) :: x == from
  {
    if edges != [] {
      hide Feeders;
      var init, e := edges[..|edges| - 1], edges[|edges| - 1];
      assert edges == init + [e] && Redirect(edges, from) ==
             Redirect(init, from) + [e.(fromNode := from, fromPort := "rows")];
      FeedersRedirected(init, from, n, port);
      FeedersAppend(init, e, n, port);
      FeedersAppend(Redirect(init, from), e.(fromNode := from, fromPort := "rows"), n, port);
    } else {
      assert Feeders([], n, port) == [];
      assert Redirect(edges, from) == [];
    }
  }

  /** After the rewrite every port is still fed by one node: the same one, or the heir of the removed one. */
  lemma FeedersRemoved(dag: Dag, id: string, n: string, port: string)
    requires Wired(dag) && Known(dag.nodes, id) && Unary(dag, id) && n != id && |Feeders(dag.edges, n, port)| == 1
    ensures var x := Feeders(dag.edges, n, port)[0];
            Feeders(Removed(dag, id).edges, n, port) == [if x == id then Heir(dag, id) else x]
  {
    hide Feeders, Find, Removed, Apart, OutOf, Redirect;
    RemovedIs(dag, id);
    var moved := Redirect(OutOf(dag.edges, id), Heir(dag, id));
    FeedersOfParts(dag.edges, id, n, port);
    FeedersRedirected(OutOf(dag.edges, id), Heir(dag, id), n, port);
    FeedersConcat(Apart(dag.edges, id), moved, n, port);
    var ids := Feeders(dag.edges, n, port);
    assert ids[..0] == [] && Pick([], id, true) == [] && Pick([], id, false) == [];
    assert Pick(ids, id, true) == [] + (if ids[0] == id then ids else []);
    assert Pick(ids, id, false) == [] + (if ids[0] == id then [] else ids);
    var redirected := Feeders(moved, n, port);
    if ids[0] == id {
      assert redirected[0] in redirected && redirected == [Heir(dag, id)];
    } else {
      assert redirected == [] && Feeders(Apart(dag.edges, id), n, port) == ids == [ids[0]];
    }
  }

  lemma WithoutOne(nodes: seq<Node>, at: nat, n: Node)
    requires UniqueIds(nodes) && at < |nodes|
    ensures n in nodes[..at] + nodes[at + 1..] <==> n in nodes && n.id != nodes[at].id
    ensures UniqueIds(nodes[..at] + nodes[at + 1..])
  {
    var rest := nodes[..at] + nodes[at + 1..];
    assert nodes == nodes[..at] + [nodes[at]] + nodes[at + 1..];
    forall i, j | 0 <= i < j < |rest|
      ensures rest[i].id != rest[j].id
    {
      assert nodes[if i < at then i else i + 1].id != nodes[if j < at then j else j + 1].id;
    }
    if n in rest {
      var i :| 0 <= i < |rest| && rest[i] == n;
      var j := if i < at then i else i + 1;
      assert nodes[j] == n && j != at;
      assert if j < at then nodes[j].id != nodes[at].id else nodes[at].id != nodes[j].id;
    }
  }

  lemma RemovedNodes(dag: Dag, id: string, n: Node)
    requires Wired(dag) && Known(dag.nodes, id) && Unary(dag, id)
    ensures n in Removed(dag, id).nodes <==> n in dag.nodes && n.id != id
    ensures UniqueIds(Removed(dag, id).nodes)
  {
    hide Feeders, Find, Apart, OutOf, Redirect, Removed, UniqueIds;
    RemovedIs(dag, id);
    WithoutOne(dag.nodes, IndexOf(dag.nodes, id), n);
  }

  lemma RemovedFind(dag: Dag, id: string, n: string)
    requires Wired(dag) && Known(dag.nodes, id) && Unary(dag, id)
    ensures Find(Removed(dag, id).nodes, n) == if n == id then None else Find(dag.nodes, n)
  {
    hide Feeders, Find, Removed, ConnectionOk;
    var found, left := Find(dag.nodes, n), Find(Removed(dag, id).nodes, n);
    if left.Some? {
      RemovedNodes(dag, id, left.value);
      FindUnique(dag.nodes, left.value);
    } else if found.Some? {
      RemovedNodes(dag, id, found.value);
    }
  }

  /** Which connections the rewritten plan has. */
  lemma RemovedEdge(dag: Dag, id: string, e: Edge)
    requires Wired(dag) && Known(dag.nodes, id) && Unary(dag, id) && e in Removed(dag, id).edges
    ensures e.toNode != id && e.fromNode != id
    ensures e in dag.edges || (e.fromNode == Heir(dag, id) && e.fromPort == "rows"
            && exists old_ | old_ in dag.edges ::
            old_.fromNode == id && old_.toNode == e.toNode
            && old_.toPort == e.toPort)
  {
    hide Feeders, Find, Removed;
    RemovedIs(dag, id);
    HeirIsOther(dag, id);
    if e !in Apart(dag.edges, id) {
      var moved := Redirect(OutOf(dag.edges, id), Heir(dag, id));
      var i :| 0 <= i < |moved| && moved[i] == e;
      var old_ := OutOf(dag.edges, id)[i];
      assert old_ in OutOf(dag.edges, id) && ConnectionOk(dag.nodes, old_);
    }
  }

  lemma LevelOfEdge(dag: Dag, level: map<string, nat>, e: Edge)
    requires Levels(dag, level) && e in dag.edges
    ensures e.fromNode in level && e.toNode in level && level[e.fromNode] < level[e.toNode]
  {
  }

  lemma RemovedConnection(dag: Dag, level: map<string, nat>, id: string, e: Edge)
    requires Wired(dag) && Levels(dag, level) && Known(dag.nodes, id) && Unary(dag, id) && e in Removed(dag, id).edges
    ensures ConnectionOk(Removed(dag, id).nodes, e)
    ensures e.fromNode in level && e.toNode in level && level[e.fromNode] < level[e.toNode]
  {
    hide Feeders, Find, Removed, UniqueIds, Levels;
    RemovedEdge(dag, id, e);
    RemovedFind(dag, id, e.fromNode);
    RemovedFind(dag, id, e.toNode);
    HeirIsOther(dag, id);
    if e in dag.edges {
      assert ConnectionOk(dag.nodes, e);
      LevelOfEdge(dag, level, e);
    } else {
      var old_ :| old_ in dag.edges && old_.fromNode == id && old_.toNode == e.toNode && old_.toPort == e.toPort;
      assert ConnectionOk(dag.nodes, old_);
      LevelOfEdge(dag, level, old_);
      assert level[Heir(dag, id)] < level[id];
    }
  }

  /** The rewritten plan is wired and keeps the same stratification, so it stays acyclic. */
  lemma RemovedKeeps(dag: Dag, level: map<string, nat>, id: string)
    requires Wired(dag) && Levels(dag, level) && Known(dag.nodes, id) && Unary(dag, id)
    ensures Wired(Removed(dag, id)) && Levels(Removed(dag, id), level)
    ensures forall n :: Known(Removed(dag, id).nodes, n) <==> Known(dag.nodes, n) && n != id
  {
    hide Feeders, Find, Removed, UniqueIds, ConnectionOk;
    var dag' := Removed(dag, id);
    forall n, port | n in dag'.nodes && port in InputPorts(n.op)
      ensures |Feeders(dag'.edges, n.id, port)| == 1
    {
      RemovedNodes(dag, id, n);
      FeedersRemoved(dag, id, n.id, port);
    }
    forall n | n in dag'.nodes
      ensures n.id in level
    {
      RemovedNodes(dag, id, n);
    }
    RemovedNodes(dag, id, NodeOf(dag, id));
    forall e | e in dag'.edges
      ensures ConnectionOk(dag'.nodes, e)
      ensures e.fromNode in level && e.toNode in level && level[e.fromNode] < level[e.toNode]
    {
      RemovedConnection(dag, level, id, e);
    }
    forall n
      ensures Known(dag'.nodes, n) <==> Known(dag.nodes, n) && n != id
    {
      RemovedFind(dag, id, n);
    }
  }

  // ---------------------------------------------------------------- reachability

  /** A connection that survives, or the detour through the removed node. */
  lemma StepAround(dag: Dag, id: string, a: string, b: string)
    requires Wired(dag) && Known(dag.nodes, id) && Unary(dag, id) && Connected(dag.edges, a, b)
    ensures a != id && b != id ==> Connected(Removed(dag, id).edges, a, b)
    ensures a == id ==> Connected(Removed(dag, id).edges, Heir(dag, id), b)
    ensures b == id ==> a == Heir(dag, id)
  {
    hide Feeders, Find, Removed, Apart, OutOf;
    RemovedIs(dag, id);
    var e :| e in dag.edges && e.fromNode == a && e.toNode == b;
    assert ConnectionOk(dag.nodes, e);
    if a == id {
      var i := OutIndex(dag.edges, id, e);
      var moved := Redirect(OutOf(dag.edges, id), Heir(dag, id))[i];
      assert moved in Removed(dag, id).edges && moved.fromNode == Heir(dag, id) && moved.toNode == b;
    } else if b == id {
      FindUnique(dag.nodes, NodeOf(dag, id));
      FeederIsEdge(dag.edges, id, "rows", a);
    } else {
      ApartHas(dag.edges, id, e);
    }
  }

  lemma OutIndex(edges: seq<Edge>, id: string, e: Edge) returns (i: nat)
    requires e in edges && e.fromNode == id
    ensures i < |OutOf(edges, id)| && OutOf(edges, id)[i] == e
  {
    assert e in OutOf(edges, id);
    i :| 0 <= i < |OutOf(edges, id)| && OutOf(edges, id)[i] == e;
  }

  lemma ApartHas(edges: seq<Edge>, id: string, e: Edge)
    requires e in edges && e.fromNode != id && e.toNode != id
    ensures e in Apart(edges, id)
  {
  }

  /** Every node that reached the Output still does. */
  lemma {:induction false} RouteAround(dag: Dag, id: string, p: seq<string>)
    requires Wired(dag) && Known(dag.nodes, id) && Unary(dag, id)
    requires IsRoute(dag.edges, p) && p[|p| - 1] != id
    ensures Leads(Removed(dag, id).edges, if p[0] == id then Heir(dag, id) else p[0], p[|p| - 1])
  {
    hide Removed, Feeders, Find, Wired;
    HeirIsOther(dag, id);
    var edges, goal := Removed(dag, id).edges, p[|p| - 1];
    if |p| == 1 {
      assert IsRoute(edges, p);
    } else {
      assert Connected(dag.edges, p[0], p[1]);
      StepAround(dag, id, p[0], p[1]);
      RouteTail(dag.edges, p);
      RouteAround(dag, id, p[1..]);
      var start := if p[0] == id then Heir(dag, id) else p[0];
      if p[1] != id {
        LeadsFrom(edges, start, p[1], goal);
      }
    }
  }

  lemma LeadsFrom(edges: seq<Edge>, a: string, b: string, c: string)
    requires Connected(edges, a, b) && Leads(edges, b, c)
    ensures Leads(edges, a, c)
  {
    var p :| IsRoute(edges, p) && p[0] == b && p[|p| - 1] == c;
    var q := [a] + p;
    forall i | 0 <= i < |q| - 1
      ensures Connected(edges, q[i], q[i + 1])
    {
      if i > 0 { assert Connected(edges, p[i - 1], p[i - 1 + 1]); }
    }
    assert IsRoute(edges, q) && q[|q| - 1] == c;
  }

  // ---------------------------------------------------------------- meaning

  /** Removing a node that passes its input on unchanged leaves the meaning of every other node unchanged. */
  lemma {:induction false} RemovedMeaning<T(!new)>(dag: Dag, level: map<string, nat>, step: (Node, seq<T>) -> T,
      id: string, n: string)
    requires Wired(dag) && Levels(dag, level) && Known(dag.nodes, id) && Unary(dag, id)
    requires Wired(Removed(dag, id)) && Levels(Removed(dag, id), level)
    requires Fold(dag, level, step, id) == Fold(dag, level, step, Heir(dag, id))
    requires Known(dag.nodes, n) && n != id
    ensures Known(Removed(dag, id).nodes, n) && Fold(Removed(dag, id), level, step, n) == Fold(dag, level, step, n)
    decreases level[n]
  {
    hide Feeders, Find, Removed, Levels;
    var dag' := Removed(dag, id);
    RemovedFind(dag, id, n);
    HeirIsOther(dag, id);
    var ports := InputPorts(NodeOf(dag, n).op);
    forall k: nat | k < Arity(dag, n)
      ensures Fold(dag', level, step, Feeder(dag', n, k)) == Fold(dag, level, step, Feeder(dag, n, k))
    {
      FeedersRemoved(dag, id, n, ports[k]);
      assert Feeder(dag', n, k) == if Feeder(dag, n, k) == id then Heir(dag, id) else Feeder(dag, n, k);
      RemovedMeaning(dag, level, step, id, Feeder(dag', n, k));
    }
    assert FoldInputs(dag', level, step, n) == FoldInputs(dag, level, step, n);
  }

  // ---------------------------------------------------------------- compiled plans stay compiled

  /** The two operators that may move into a provider query. */
  predicate Pushable(op: Op) {
    op.FilterPredicate? || op.FilterExpression? || op.Sort?
  }

  lemma PushableIsUnary(dag: Dag, id: string)
    requires Known(dag.nodes, id) && Pushable(NodeOf(dag, id).op)
    ensures Unary(dag, id)
  {
  }

  /** A filter or sort that compiles has the shape of its input. */
  lemma PushedShape(host: Host, dag: Dag, id: string)
    requires Wired(dag) && Acyclic(dag) && Known(dag.nodes, id) && Pushable(NodeOf(dag, id).op)
             && ShapeOf(host, dag, id).Success?
    ensures Unary(dag, id) && ShapeOf(host, dag, id) == ShapeOf(host, dag, Heir(dag, id))
  {
    hide Wired, Acyclic, Find, Meaning, Feeder, ValidPredicate, InferExpression, ValidSort;
    PushableIsUnary(dag, id);
    MeaningUnfolds(dag, ShapeStep(host), id);
    var inputs := MeaningInputs(dag, ShapeStep(host), id);
    assert inputs[0] == ShapeOf(host, dag, Heir(dag, id));
    assert inputs[0].Success?;
    CollectAll(inputs, [inputs[0].value]);
  }

  lemma {:induction false} TargetsOfRedirect(edges: seq<Edge>, from: string, id: string)
    requires id != from
    ensures Targets(Redirect(edges, from), id) == []
  {
    var moved := Redirect(edges, from);
    if edges != [] {
      assert moved[..|edges| - 1] == Redirect(edges[..|edges| - 1], from);
      TargetsOfRedirect(edges[..|edges| - 1], from, id);
    }
  }

  lemma {:induction false} TargetsOfApart(edges: seq<Edge>, id: string, n: string)
    requires n != id && id !in Targets(edges, n)
    ensures Targets(Apart(edges, id), n) == Targets(edges, n)
  {
    if edges == [] {
      assert Targets([], n) == [];
    } else {
      hide Targets, Apart;
      var init, e := edges[..|edges| - 1], edges[|edges| - 1];
      assert edges == init + [e];
      FeedsAppend(init, e, n);
      TargetsOfApart(init, id, n);
      PartsAppend(init, e, id);
      if e.toNode != id && e.fromNode != id {
        FeedsAppend(Apart(init, id), e, n);
      } else {
        assert Apart(init, id) + [] == Apart(init, id);
      }
    }
  }

  /** The boundary of a source survives: neither the source nor its projecting Map is removed. */
  lemma RemovedSource(host: Host, dag: Dag, id: string, n: Node)
    requires Wired(dag) && Known(dag.nodes, id) && Pushable(NodeOf(dag, id).op) && Unary(dag, id)
    requires n in dag.nodes && n.op.Source? && SourceOk(host, dag, n)
    ensures SourceOk(host, Removed(dag, id), n)
  {
    hide Feeders, Find, Removed, Targets, SourceIdentified, Wired, UniqueIds;
    RemovedIs(dag, id);
    var b := Find(dag.nodes, Targets(dag.edges, n.id)[0]).value;
    assert Targets(dag.edges, n.id) == [b.id];
    FindOfNode(dag, n);
    FeedsOfNode(dag, id, n.id, b.id);
    HeirNotSource(dag, id, n, b.id);
    TargetsOfApart(dag.edges, id, n.id);
    TargetsOfRedirect(OutOf(dag.edges, id), Heir(dag, id), n.id);
    TargetsConcat(Apart(dag.edges, id), Redirect(OutOf(dag.edges, id), Heir(dag, id)), n.id);
    RemovedFind(dag, id, b.id);
  }

  lemma FindOfNode(dag: Dag, n: Node)
    requires Wired(dag) && n in dag.nodes
    ensures Find(dag.nodes, n.id) == Some(n)
  {
    FindUnique(dag.nodes, n);
  }

  lemma FeedsOfNode(dag: Dag, id: string, source: string, b: string)
    requires Wired(dag) && Known(dag.nodes, id) && Unary(dag, id) && Known(dag.nodes, b) && NodeOf(dag, b).op.Mapping?
             && b != id
    requires Feeders(dag.edges, b, "rows") != [] && Feeders(dag.edges, b, "rows")[0] == source && source != id
    ensures Feeders(Removed(dag, id).edges, b, "rows") == [source]
  {
    hide Feeders, Find, Removed, UniqueIds, ConnectionOk;
    assert "rows" in InputPorts(NodeOf(dag, b).op);
    FeedersRemoved(dag, id, b, "rows");
  }

  lemma HeirNotSource(dag: Dag, id: string, n: Node, b: string)
    requires Wired(dag) && Known(dag.nodes, id) && Unary(dag, id) && n in dag.nodes && Targets(dag.edges, n.id) == [b]
             && b != id
    ensures Heir(dag, id) != n.id
  {
    hide Feeders, Find, UniqueIds, ConnectionOk;
    assert Heir(dag, id) in Feeders(dag.edges, id, "rows");
    FeederIsEdge(dag.edges, id, "rows", Heir(dag, id));
    if Heir(dag, id) == n.id {
      TargetIsEdge(dag.edges, n.id, id);
    }
  }

  lemma NotOutput(n: Node)
    requires !n.op.Output?
    ensures Outputs([n]) == []
  {
    assert [n][..0] == [];
  }

  lemma OutputsWithout(nodes: seq<Node>, at: nat)
    requires at < |nodes| && !nodes[at].op.Output?
    ensures Outputs(nodes[..at] + nodes[at + 1..]) == Outputs(nodes)
  {
    hide Outputs;
    NotOutput(nodes[at]);
    OutputsConcat(nodes[..at], nodes[at + 1..]);
    OutputsConcat(nodes[..at], [nodes[at]] + nodes[at + 1..]);
    OutputsConcat([nodes[at]], nodes[at + 1..]);
    assert nodes == nodes[..at] + ([nodes[at]] + nodes[at + 1..]);
  }

  lemma {:induction false} SplitCount(edges: seq<Edge>, id: string)
    ensures |Apart(edges, id)| + |OutOf(edges, id)| <= |edges|
  {
    if edges != [] {
      var init, e := edges[..|edges| - 1], edges[|edges| - 1];
      assert edges == init + [e];
      SplitCount(init, id);
      PartsAppend(init, e, id);
    }
  }

  lemma RemovedSizes(dag: Dag, id: string)
    requires Wired(dag) && Known(dag.nodes, id) && Pushable(NodeOf(dag, id).op) && Unary(dag, id)
    ensures |Removed(dag, id).nodes| == |dag.nodes| - 1 && |Removed(dag, id).edges| <= |dag.edges|
    ensures Outputs(Removed(dag, id).nodes) == Outputs(dag.nodes)
  {
    hide Feeders, Find, Removed, Outputs, ConnectionOk;
    RemovedIs(dag, id);
    SplitCount(dag.edges, id);
    var at := IndexOf(dag.nodes, id);
    FindUnique(dag.nodes, dag.nodes[at]);
    OutputsWithout(dag.nodes, at);
  }

  /** Removing a filter or sort from a well-formed plan leaves a well-formed plan. */
  lemma RemovedWellFormed(host: Host, dag: Dag, id: string)
    requires WellFormed(host, dag) && Known(dag.nodes, id) && Pushable(NodeOf(dag, id).op)
    ensures WellFormed(host, Removed(dag, id)) && Outputs(Removed(dag, id).nodes) == Outputs(dag.nodes)
  {
    hide Wired, Levels, Leads, SourceOk, IsNodeId, Version, Outputs, Removed, Find;
    PushableIsUnary(dag, id);
    var level :| Levels(dag, level);
    RemovedKeeps(dag, level, id);
    RemovedSizes(dag, id);
    OutputIsNode(dag);
    var dag', goal := Removed(dag, id), Outputs(dag.nodes)[0].id;
    OutputStays(dag, id);
    forall n | n in dag'.nodes
      ensures n in dag.nodes && IsNodeId(n.id) && n.version == Version(n.op) && Leads(dag'.edges, n.id, goal)
      ensures n.op.Source? ==> SourceOk(host, dag', n)
    {
      RemovedNodes(dag, id, n);
      LeadsAround(dag, id, n.id, goal);
      if n.op.Source? {
        RemovedSource(host, dag, id, n);
      }
    }
    OutputNonEmpty(dag', Outputs(dag.nodes)[0]);
  }

  lemma OutputNonEmpty(dag: Dag, n: Node)
    requires Outputs(dag.nodes) == [n] || (|Outputs(dag.nodes)| == 1 && Outputs(dag.nodes)[0] == n)
    ensures |dag.nodes| >= 1
  {
    OutputsAre(dag.nodes);
    assert Outputs(dag.nodes)[0] in Outputs(dag.nodes);
  }

  lemma OutputStays(dag: Dag, id: string)
    requires |Outputs(dag.nodes)| == 1 && Known(dag.nodes, id) && Wired(dag) && Pushable(NodeOf(dag, id).op)
    ensures OutputId(dag) != id
  {
    hide Outputs;
    OutputIsNode(dag);
    FindUnique(dag.nodes, Outputs(dag.nodes)[0]);
  }

  lemma LeadsAround(dag: Dag, id: string, n: string, goal: string)
    requires Wired(dag) && Known(dag.nodes, id) && Unary(dag, id) && n != id && goal != id && Leads(dag.edges, n, goal)
    ensures Leads(Removed(dag, id).edges, n, goal)
  {
    var p :| IsRoute(dag.edges, p) && p[0] == n && p[|p| - 1] == goal;
    hide Wired, Removed, Find;
    RouteAround(dag, id, p);
  }

  lemma AnyLevels<T(!new)>(dag: Dag, level: map<string, nat>, step: (Node, seq<T>) -> T, n: string)
    requires Wired(dag) && Levels(dag, level) && Known(dag.nodes, n)
    ensures Acyclic(dag) && Fold(dag, level, step, n) == Meaning(dag, step, n)
  {
    hide Wired, Find, Levels, Fold;
    FoldAnyLevels(dag, level, LevelsOf(dag), step, n);
  }

  /** The same for meanings, whatever the stratification. */
  lemma RemovedMeans<T(!new)>(dag: Dag, step: (Node, seq<T>) -> T, id: string, n: string)
    requires Wired(dag) && Acyclic(dag) && Known(dag.nodes, id) && Unary(dag, id)
    requires Meaning(dag, step, id) == Meaning(dag, step, Heir(dag, id))
    requires Known(dag.nodes, n) && n != id
    ensures Wired(Removed(dag, id)) && Acyclic(Removed(dag, id)) && Known(Removed(dag, id).nodes, n)
    ensures Meaning(Removed(dag, id), step, n) == Meaning(dag, step, n)
  {
    hide Wired, Find, Levels, Fold, Removed;
    var level := LevelsOf(dag);
    RemovedKeeps(dag, level, id);
    RemovedMeaning(dag, level, step, id, n);
    AnyLevels(Removed(dag, id), level, step, n);
  }

  /** A compiled plan still compiles, to the same output schema, when a filter or sort is removed from it. */
  lemma RemovedCompiles(host: Host, dag: Dag, id: string, declared: Shape)
    requires Compiles(host, dag, declared) && Known(dag.nodes, id) && Pushable(NodeOf(dag, id).op)
    ensures Compiles(host, Removed(dag, id), declared)
    ensures ShapeOf(host, Removed(dag, id), OutputId(Removed(dag, id))) == ShapeOf(host, dag, OutputId(dag))
  {
    hide Wired, Acyclic, Find, Removed, Outputs, Promised, Meaning, CompileNode, WellFormed;
    WellFormedIds(host, dag);
    RemovedWellFormed(host, dag, id);
    ShapeStepDemands(host);
    OutputNeedsAll(host, dag, ShapeStep(host), NodeOf(dag, id));
    PushedShape(host, dag, id);
    OutputStays(dag, id);
    RemovedMeans(dag, ShapeStep(host), id, OutputId(dag));
  }

  // ---------------------------------------------------------------- all pushed operations

  datatype Pushed = Pushed(filter: bool, role: string)

  datatype PushedSource = PushedSource(id: string, operations: seq<Pushed>)

  predicate SourceNodes(nodes: seq<Node>, sourceId: string) {
    exists n | n in nodes :: n.op.Source? && n.op.sourceId == Some(sourceId)
  }

  predicate OfKind(op: Op, filter: bool) {
    if filter then op.FilterPredicate? || op.FilterExpression? else op.Sort?
  }

  function ApplyOne(dag: Dag, operation: Pushed): Dag {
    var found := Find(dag.nodes, operation.role);
    if found.Some? && OfKind(found.value.op, operation.filter) then Removed(dag, found.value.id) else dag
  }

  function ApplyAll(dag: Dag, operations: seq<Pushed>): Dag
    decreases operations
  {
    if operations == [] then dag else ApplyAll(ApplyOne(dag, operations[0]), operations[1..])
  }

  function Residualized(dag: Dag, sources: seq<PushedSource>): Dag
    decreases sources
  {
    if sources == [] then dag
    else Residualized(if SourceNodes(dag.nodes, sources[0].id) then ApplyAll(dag, sources[0].operations)
      else dag, sources[1..])
  }

  /** residualizeAgentPushdowns: every pushed filter or sort of a source that has a node is removed in place. */
  method Residualize(dag: Dag, sources: seq<PushedSource>) returns (r: Dag)
    ensures r == Residualized(dag, sources)
  {
    hide Removed;
    var draft := new MutableDag(dag);
    assert sources[0..] == sources;
    for i := 0 to |sources|
      invariant fresh(draft) && Residualized(dag, sources) == Residualized(draft.Value(), sources[i..])
    {
      assert sources[i..][0] == sources[i] && sources[i..][1..] == sources[i + 1..];
      if exists n | n in draft.nodes :: n.op.Source? && n.op.sourceId == Some(sources[i].id) {
        var operations := sources[i].operations;
        ghost var all := ApplyAll(draft.Value(), operations);
        assert operations[0..] == operations;
        for j := 0 to |operations|
          invariant fresh(draft) && all == ApplyAll(draft.Value(), operations[j..])
        {
          assert operations[j..][0] == operations[j] && operations[j..][1..] == operations[j + 1..];
          var found := Find(draft.nodes, operations[j].role);
          if found.Some? && OfKind(found.value.op, operations[j].filter) {
            var removed := draft.RemoveUnaryNode(found.value.id);
          }
        }
      }
    }
    r := draft.Value();
  }

  // ---------------------------------------------------------------- exactly which nodes go

  /** A pushed operation names the node, and is of its kind. */
  ghost predicate Names(o: Pushed, n: Node) {
    o.role == n.id && if o.filter then n.op.FilterPredicate? || n.op.FilterExpression? else n.op.Sort?
  }

  lemma ApplyOneNodes(host: Host, dag: Dag, o: Pushed)
    requires WellFormed(host, dag) && Wired(dag)
    ensures WellFormed(host, ApplyOne(dag, o)) && Wired(ApplyOne(dag, o))
    ensures forall n :: n in ApplyOne(dag, o).nodes <==> n in dag.nodes && !Names(o, n)
  {
    hide WellFormed, Wired, Removed, Find;
    var found := Find(dag.nodes, o.role);
    if found.Some? && OfKind(found.value.op, o.filter) {
      RemovedWellFormed(host, dag, o.role);
      WellFormedIds(host, ApplyOne(dag, o));
      forall n
        ensures n in ApplyOne(dag, o).nodes <==> n in dag.nodes && !Names(o, n)
      {
        OnlyThatNode(dag, o.role, n);
      }
    } else {
      NothingNamed(dag, o);
    }
  }

  lemma OnlyThatNode(dag: Dag, id: string, n: Node)
    requires Wired(dag) && Known(dag.nodes, id) && Pushable(NodeOf(dag, id).op)
    ensures n in Removed(dag, id).nodes <==> n in dag.nodes && n.id != id
    ensures n in dag.nodes && n.id == id ==> n == NodeOf(dag, id)
  {
    hide Feeders, Removed, ConnectionOk;
    PushableIsUnary(dag, id);
    RemovedNodes(dag, id, n);
    if n in dag.nodes {
      FindUnique(dag.nodes, n);
    }
  }

  lemma NothingNamed(dag: Dag, o: Pushed)
    requires Wired(dag)
    requires var found := Find(dag.nodes, o.role); found.None? || !OfKind(found.value.op, o.filter)
    ensures forall n | n in dag.nodes :: !Names(o, n)
  {
    hide Feeders, ConnectionOk;
    forall n | n in dag.nodes
      ensures !Names(o, n)
    {
      FindUnique(dag.nodes, n);
    }
  }

  lemma {:induction false} ApplyAllNodes(host: Host, dag: Dag, operations: seq<Pushed>)
    requires WellFormed(host, dag) && Wired(dag)
    ensures var r := ApplyAll(dag, operations);
            && WellFormed(host, r) && Wired(r)
            && forall n :: n in r.nodes <==> n in dag.nodes && forall o | o in operations :: !Names(o, n)
    decreases operations
  {
    hide WellFormed, Wired, ApplyOne, Names;
    if operations != [] {
      assert operations == [operations[0]] + operations[1..];
      ApplyOneNodes(host, dag, operations[0]);
      ApplyAllNodes(host, ApplyOne(dag, operations[0]), operations[1..]);
    }
  }

  /** Exactly the nodes are gone that a pushed operation of a source with a node names, a filter operation a filter
      and a sort operation a sort. */
  lemma {:induction false} ResidualNodes(host: Host, dag: Dag, sources: seq<PushedSource>)
    requires WellFormed(host, dag) && Wired(dag)
    ensures var r := Residualized(dag, sources);
            && WellFormed(host, r) && Wired(r)
            && forall n :: n in r.nodes <==>
                 && n in dag.nodes
                 && !exists s, m, o | s in sources && m in dag.nodes && o in s.operations ::
                      && m.op.Source? && m.op.sourceId == Some(s.id) && o.role == n.id
                      && if o.filter then n.op.FilterPredicate? || n.op.FilterExpression? else n.op.Sort?
    decreases sources
  {
    hide WellFormed, Wired, ApplyAll;
    if sources != [] {
      var s, rest := sources[0], sources[1..];
      assert sources == [s] + rest;
      var next := if SourceNodes(dag.nodes, s.id) then ApplyAll(dag, s.operations) else dag;
      if SourceNodes(dag.nodes, s.id) {
        ApplyAllNodes(host, dag, s.operations);
      }
      ResidualNodes(host, next, rest);
      assert forall m: Node | m.op.Source? :: m in next.nodes <==> m in dag.nodes;
    }
  }

  /** Every filter and sort that may be removed is the identity on its input. */
  ghost predicate Passive<T(!new)>(dag: Dag, step: (Node, seq<T>) -> T, ids: set<string>)
    requires Wired(dag) && Acyclic(dag)
  {
    forall id | id in ids && Known(dag.nodes, id) && Pushable(NodeOf(dag, id).op) ::
      Unary(dag, id) && Meaning(dag, step, id) == Meaning(dag, step, Heir(dag, id))
  }

  function Roles(operations: seq<Pushed>): (r: set<string>)
    ensures forall o | o in operations :: o.role in r
  {
    set o | o in operations :: o.role
  }

  lemma HeirAfter(dag: Dag, id: string, other: string)
    requires Wired(dag) && Known(dag.nodes, id) && Unary(dag, id) && Known(dag.nodes, other) && Unary(dag, other)
             && other != id
    requires Wired(Removed(dag, id)) && Known(Removed(dag, id).nodes, other)
    ensures Unary(Removed(dag, id), other)
    ensures Heir(Removed(dag, id), other) == if Heir(dag, other) == id then Heir(dag, id) else Heir(dag, other)
  {
    hide Feeders, Find, Removed, UniqueIds, ConnectionOk;
    RemovedFind(dag, id, other);
    FeedersRemoved(dag, id, other, "rows");
  }

  /** One removal keeps the others removable and every meaning. */
  lemma ApplyOneKeeps<T(!new)>(host: Host, dag: Dag, step: (Node, seq<T>) -> T, operation: Pushed, ids: set<string>)
    requires WellFormed(host, dag) && Wired(dag) && Acyclic(dag) && Passive(dag, step, ids) && operation.role in ids
    ensures var dag' := ApplyOne(dag, operation);
            && WellFormed(host, dag') && Wired(dag') && Acyclic(dag') && Passive(dag', step, ids)
            && Outputs(dag'.nodes) == Outputs(dag.nodes)
            && forall n | Known(dag.nodes, n) && (n !in ids || !Pushable(NodeOf(dag, n).op)) ::
                 Known(dag'.nodes, n) && NodeOf(dag', n) == NodeOf(dag, n)
                   && Meaning(dag', step, n) == Meaning(dag, step, n)
  {
    hide Wired, Acyclic, WellFormed, Removed, Outputs, Meaning, Find, Feeder;
    var dag' := ApplyOne(dag, operation);
    var found := Find(dag.nodes, operation.role);
    if found.Some? && OfKind(found.value.op, operation.filter) {
      var id := operation.role;
      RemovedWellFormed(host, dag, id);
      forall n | Known(dag.nodes, n) && n != id
        ensures Wired(dag') && Acyclic(dag') && Known(dag'.nodes, n) && NodeOf(dag', n) == NodeOf(dag, n)
                && Meaning(dag', step, n) == Meaning(dag, step, n)
      {
        RemovedMeans(dag, step, id, n);
        RemovedFind(dag, id, n);
      }
      WellFormedIds(host, dag');
      forall other | other in ids && Known(dag'.nodes, other) && Pushable(NodeOf(dag', other).op)
        ensures Unary(dag', other) && Meaning(dag', step, other) == Meaning(dag', step, Heir(dag', other))
      {
        RemovedFind(dag, id, other);
        HeirAfter(dag, id, other);
        HeirIsOther(dag, id);
        RemovedMeans(dag, step, id, Heir(dag', other));
      }
    }
  }

  /** The rest of a plan: well formed, the same Output, and every node that could not be removed means the same. */
  ghost predicate SameRest<T(!new)>(host: Host, dag: Dag, dag': Dag, step: (Node, seq<T>) -> T, ids: set<string>)
    requires Wired(dag) && Acyclic(dag)
  {
    && WellFormed(host, dag') && Wired(dag') && Acyclic(dag') && Passive(dag', step, ids)
    && Outputs(dag'.nodes) == Outputs(dag.nodes)
    && forall n | Known(dag.nodes, n) && (n !in ids || !Pushable(NodeOf(dag, n).op)) ::
         Known(dag'.nodes, n) && NodeOf(dag', n) == NodeOf(dag, n) && Meaning(dag', step, n) == Meaning(dag, step, n)
  }

  lemma SameRestSteps<T(!new)>(host: Host, a: Dag, b: Dag, c: Dag, step: (Node, seq<T>) -> T, ids: set<string>)
    requires Wired(a) && Acyclic(a) && Wired(b) && Acyclic(b)
    requires SameRest(host, a, b, step, ids) && SameRest(host, b, c, step, ids)
    ensures SameRest(host, a, c, step, ids)
  {
    hide Wired, Acyclic, WellFormed, Outputs, Meaning, Find, Passive;
  }

  lemma {:induction false} ApplyAllKeeps<T(!new)>(host: Host, dag: Dag, step: (Node, seq<T>) -> T,
      operations: seq<Pushed>, ids: set<string>)
    requires WellFormed(host, dag) && Wired(dag) && Acyclic(dag) && Passive(dag, step, ids) && Roles(operations) <= ids
    ensures SameRest(host, dag, ApplyAll(dag, operations), step, ids)
    decreases operations
  {
    hide Wired, Acyclic, WellFormed, Outputs, Meaning, Find, Passive, ApplyOne;
    if operations != [] {
      assert operations[0] in operations && forall o | o in operations[1..] :: o in operations;
      var next := ApplyOne(dag, operations[0]);
      ApplyOneKeeps(host, dag, step, operations[0], ids);
      ApplyAllKeeps(host, next, step, operations[1..], ids);
      SameRestSteps(host, dag, next, ApplyAll(next, operations[1..]), step, ids);
    }
  }

  function AllRoles(sources: seq<PushedSource>): set<string> {
    if sources == [] then {} else Roles(sources[0].operations) + AllRoles(sources[1..])
  }

  lemma {:induction false} ResidualKeeps<T(!new)>(host: Host, dag: Dag, step: (Node, seq<T>) -> T,
      sources: seq<PushedSource>, ids: set<string>)
    requires WellFormed(host, dag) && Wired(dag) && Acyclic(dag) && Passive(dag, step, ids) && AllRoles(sources) <= ids
    ensures SameRest(host, dag, Residualized(dag, sources), step, ids)
    decreases sources
  {
    hide Wired, Acyclic, WellFormed, Outputs, Meaning, Find, Passive, ApplyAll;
    if sources != [] {
      var next := if SourceNodes(dag.nodes, sources[0].id) then ApplyAll(dag, sources[0].operations) else dag;
      if SourceNodes(dag.nodes, sources[0].id) {
        ApplyAllKeeps(host, dag, step, sources[0].operations, ids);
      }
      assert SameRest(host, dag, next, step, ids);
      ResidualKeeps(host, next, step, sources[1..], ids);
      SameRestSteps(host, dag, next, Residualized(next, sources[1..]), step, ids);
    }
  }

  /** The residual plan: still well formed, so acyclic with every port fed once and every node reaching Output,
      and with the same Output meaning whenever each node it may remove is the identity on its input. */
  lemma ResidualMeansTheSame(host: Host, dag: Dag, answers: Answers, lenient: bool, sources: seq<PushedSource>)
    requires WellFormed(host, dag) && Wired(dag) && Acyclic(dag)
    requires Passive(dag, RunStep(host, answers, lenient), AllRoles(sources))
    ensures var residual := Residualized(dag, sources);
            && WellFormed(host, residual) && Wired(residual) && Acyclic(residual)
            && OutputId(residual) == OutputId(dag) && Known(dag.nodes, OutputId(dag))
              && Known(residual.nodes, OutputId(dag))
            && Denote(host, residual, answers, lenient, OutputId(dag)) ==
              Denote(host, dag, answers, lenient, OutputId(dag))
  {
    hide Wired, Acyclic, WellFormed, Outputs, Meaning, Find, Passive, Residualized, RunStep;
    WellFormedIds(host, dag);
    OutputIsNode(dag);
    OutputNotPushable(dag);
    ResidualKeeps(host, dag, RunStep(host, answers, lenient), sources, AllRoles(sources));
  }

  lemma OutputNotPushable(dag: Dag)
    requires |Outputs(dag.nodes)| == 1 && Wired(dag) && Known(dag.nodes, OutputId(dag))
    ensures !Pushable(NodeOf(dag, OutputId(dag)).op)
  {
    hide Outputs;
    OutputIsNode(dag);
    FindUnique(dag.nodes, Outputs(dag.nodes)[0]);
  }

  /** A compiled plan stays compiled, with the same output schema. */
  lemma ResidualCompiles(host: Host, dag: Dag, sources: seq<PushedSource>, declared: Shape)
    requires Compiles(host, dag, declared)
    ensures Compiles(host, Residualized(dag, sources), declared)
  {
    hide Wired, Acyclic, WellFormed, Outputs, Meaning, Find, Passive, Residualized, Promised, CompileNode;
    WellFormedIds(host, dag);
    OutputIsNode(dag);
    OutputNotPushable(dag);
    ShapeStepDemands(host);
    forall id | id in AllRoles(sources) && Known(dag.nodes, id) && Pushable(NodeOf(dag, id).op)
      ensures Unary(dag, id) && ShapeOf(host, dag, id) == ShapeOf(host, dag, Heir(dag, id))
    {
      OutputNeedsAll(host, dag, ShapeStep(host), NodeOf(dag, id));
      PushedShape(host, dag, id);
    }
    ShapesPassive(host, dag, AllRoles(sources));
    ResidualKeeps(host, dag, ShapeStep(host), sources, AllRoles(sources));
  }

  lemma ShapesPassive(host: Host, dag: Dag, ids: set<string>)
    requires Wired(dag) && Acyclic(dag)
    requires forall id | id in ids && Known(dag.nodes, id) && Pushable(NodeOf(dag, id).op) ::
               Unary(dag, id) && ShapeOf(host, dag, id) == ShapeOf(host, dag, Heir(dag, id))
    ensures Passive(dag, ShapeStep(host), ids)
  {
    hide Wired, Acyclic, Find, Meaning, CompileNode;
  }
}
