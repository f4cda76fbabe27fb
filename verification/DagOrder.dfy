/** Compilation does not depend on the order in which nodes and connections are listed. */
module DagOrder {
  import opened Wrappers
  import opened Values
  import opened Ordering
  import opened Operators
  import opened Dags
  import opened Compiler
  import TopK

  /** The same nodes and the same connections, listed in another order. */
  ghost predicate Permuted(a: Dag, b: Dag) {
    multiset(a.nodes) == multiset(b.nodes) && multiset(a.edges) == multiset(b.edges)
  }

  lemma SameMembers<T>(a: seq<T>, b: seq<T>, x: T)
    requires multiset(a) == multiset(b)
    ensures x in a <==> x in b
  {
    assert x in multiset(a) <==> x in multiset(b);
  }

  lemma SameLength<T>(a: seq<T>, b: seq<T>)
    requires multiset(a) == multiset(b)
    ensures |a| == |b|
  {
    assert |multiset(a)| == |a|;
  }

  /** A collection that grows by the parts of a concatenation does not depend on the order. */
  ghost predicate Additive<A(!new), B(!new)>(f: seq<A> -> multiset<B>) {
    f([]) == multiset{} && forall s, t :: f(s + t) == f(s) + f(t)
  }

  lemma Split3<A(!new), B(!new)>(f: seq<A> -> multiset<B>, s: seq<A>, i: nat)
    requires Additive(f) && i < |s|
    ensures f(s) == f([s[i]]) + f(s[..i] + s[i + 1..])
    ensures multiset(s[..i] + s[i + 1..]) == multiset(s) - multiset{s[i]}
  {
    assert s == s[..i] + ([s[i]] + s[i + 1..]);
    assert f(s) == f(s[..i]) + (f([s[i]]) + f(s[i + 1..]));
    assert f(s[..i] + s[i + 1..]) == f(s[..i]) + f(s[i + 1..]);
  }

  lemma {:induction false} AdditivePermuted<A(!new), B(!new)>(f: seq<A> -> multiset<B>, a: seq<A>, b: seq<A>)
    requires Additive(f) && multiset(a) == multiset(b)
    ensures f(a) == f(b)
    decreases |a|
  {
    SameLength(a, b);
    if a != [] {
      hide Additive;
      SameMembers(a, b, a[0]);
      var i :| 0 <= i < |b| && b[i] == a[0];
      Split3(f, a, 0);
      Split3(f, b, i);
      AdditivePermuted(f, a[..0] + a[1..], b[..i] + b[i + 1..]);
    }
  }

  // ---------------------------------------------------------------- connections

  lemma FeedersNone(id: string, port: string)
    ensures Feeders([], id, port) == []
  {
  }

  lemma {:induction false} FeedersConcat(a: seq<Edge>, b: seq<Edge>, id: string, port: string)
    ensures Feeders(a + b, id, port) == Feeders(a, id, port) + Feeders(b, id, port)
  {
    hide Feeders;
    if b == [] {
      FeedersNone(id, port);
      assert a + b == a;
    } else {
      var init, last := b[..|b| - 1], b[|b| - 1];
      assert a + b == (a + init) + [last] && b == init + [last];
      FeedersConcat(a, init, id, port);
      FeedersAppend(a + init, last, id, port);
      FeedersAppend(init, last, id, port);
    }
  }

  lemma {:induction false} TargetsConcat(a: seq<Edge>, b: seq<Edge>, id: string)
    ensures Targets(a + b, id) == Targets(a, id) + Targets(b, id)
  {
    if b == [] {
      assert a + b == a;
    } else {
      var init, last := b[..|b| - 1], b[|b| - 1];
      assert a + b == (a + init) + [last] && b == init + [last];
      TargetsConcat(a, init, id);
      FeedsAppend(a + init, last, id);
      FeedsAppend(init, last, id);
    }
  }

  lemma {:induction false} OutputsConcat(a: seq<Node>, b: seq<Node>)
    ensures Outputs(a + b) == Outputs(a) + Outputs(b)
  {
    if b == [] {
      assert a + b == a;
    } else {
      var init, last := b[..|b| - 1], b[|b| - 1];
      assert (a + b)[..|a + b| - 1] == a + init && b == init + [last];
      OutputsConcat(a, init);
    }
  }

  lemma FeedersPermuted(a: seq<Edge>, b: seq<Edge>, id: string, port: string)
    requires multiset(a) == multiset(b)
    ensures multiset(Feeders(a, id, port)) == multiset(Feeders(b, id, port))
    ensures |Feeders(a, id, port)| == |Feeders(b, id, port)|
    ensures |Feeders(a, id, port)| == 1 ==> Feeders(a, id, port) == Feeders(b, id, port)
  {
    var f := (s: seq<Edge>) => multiset(Feeders(s, id, port));
    forall s, t
      ensures f(s + t) == f(s) + f(t)
    {
      FeedersConcat(s, t, id, port);
    }
    AdditivePermuted(f, a, b);
    SameList(Feeders(a, id, port), Feeders(b, id, port));
  }

  lemma SameList<T>(a: seq<T>, b: seq<T>)
    requires multiset(a) == multiset(b)
    ensures |a| == |b| && (|a| == 1 ==> a == b)
  {
    SameLength(a, b);
    if |a| == 1 {
      SameMembers(a, b, a[0]);
    }
  }

  lemma TargetsPermuted(a: seq<Edge>, b: seq<Edge>, id: string)
    requires multiset(a) == multiset(b)
    ensures |Targets(a, id)| == |Targets(b, id)|
    ensures |Targets(a, id)| == 1 ==> Targets(a, id) == Targets(b, id)
  {
    var f := (s: seq<Edge>) => multiset(Targets(s, id));
    forall s, t
      ensures f(s + t) == f(s) + f(t)
    {
      TargetsConcat(s, t, id);
    }
    AdditivePermuted(f, a, b);
    SameList(Targets(a, id), Targets(b, id));
  }

  lemma OutputsPermuted(a: seq<Node>, b: seq<Node>)
    requires multiset(a) == multiset(b)
    ensures |Outputs(a)| == |Outputs(b)|
    ensures |Outputs(a)| == 1 ==> Outputs(a) == Outputs(b)
  {
    var f := (s: seq<Node>) => multiset(Outputs(s));
    forall s, t
      ensures f(s + t) == f(s) + f(t)
    {
      OutputsConcat(s, t);
    }
    AdditivePermuted(f, a, b);
    SameList(Outputs(a), Outputs(b));
  }

  // ---------------------------------------------------------------- nodes

  lemma UniquePermuted(a: seq<Node>, b: seq<Node>)
    requires multiset(a) == multiset(b) && UniqueIds(a)
    ensures UniqueIds(b)
  {
    forall i, j | 0 <= i < j < |b|
      ensures b[i].id != b[j].id
    {
      SameMembers(a, b, b[i]);
      SameMembers(a, b, b[j]);
      if b[i].id == b[j].id {
        TopK.CountsTwice(b, i, j);
        var k, l := TopK.FoundTwice(a, b[i]);
      }
    }
  }

  lemma FindPermuted(a: seq<Node>, b: seq<Node>, id: string)
    requires multiset(a) == multiset(b) && UniqueIds(a)
    ensures Find(a, id) == Find(b, id)
  {
    UniquePermuted(a, b);
    if Find(a, id).Some? {
      SameMembers(a, b, Find(a, id).value);
      FindUnique(b, Find(a, id).value);
    } else if Find(b, id).Some? {
      SameMembers(a, b, Find(b, id).value);
    }
  }

  // ---------------------------------------------------------------- the graph

  lemma WiredPermuted(a: Dag, b: Dag)
    requires Permuted(a, b) && Wired(a)
    ensures Wired(b)
  {
    hide Feeders, Find, UniqueIds, ConnectionOk;
    UniquePermuted(a.nodes, b.nodes);
    forall n, port | n in b.nodes && port in InputPorts(n.op)
      ensures |Feeders(b.edges, n.id, port)| == 1
    {
      SameMembers(a.nodes, b.nodes, n);
      FeedersPermuted(a.edges, b.edges, n.id, port);
    }
    forall e | e in b.edges
      ensures ConnectionOk(b.nodes, e)
    {
      SameMembers(a.edges, b.edges, e);
      ConnectionPermuted(a.nodes, b.nodes, e);
    }
  }

  lemma ConnectionPermuted(a: seq<Node>, b: seq<Node>, e: Edge)
    requires multiset(a) == multiset(b) && UniqueIds(a) && ConnectionOk(a, e)
    ensures ConnectionOk(b, e)
  {
    FindPermuted(a, b, e.fromNode);
    FindPermuted(a, b, e.toNode);
  }

  lemma LevelsPermuted(a: Dag, b: Dag, level: map<string, nat>)
    requires Permuted(a, b) && Levels(a, level)
    ensures Levels(b, level)
  {
    forall n | n in b.nodes
      ensures n.id in level
    {
      SameMembers(a.nodes, b.nodes, n);
    }
    forall e | e in b.edges
      ensures e.fromNode in level && e.toNode in level && level[e.fromNode] < level[e.toNode]
    {
      SameMembers(a.edges, b.edges, e);
    }
  }

  lemma LeadsPermuted(a: Dag, b: Dag, from: string, to: string)
    requires Permuted(a, b) && Leads(a.edges, from, to)
    ensures Leads(b.edges, from, to)
  {
    var p :| IsRoute(a.edges, p) && p[0] == from && p[|p| - 1] == to;
    forall i | 0 <= i < |p| - 1
      ensures Connected(b.edges, p[i], p[i + 1])
    {
      assert Connected(a.edges, p[i], p[i + 1]);
      var e :| e in a.edges && e.fromNode == p[i] && e.toNode == p[i + 1];
      SameMembers(a.edges, b.edges, e);
    }
    assert IsRoute(b.edges, p);
  }

  lemma SourcePermuted(host: Host, a: Dag, b: Dag, n: Node)
    requires Permuted(a, b) && Wired(a) && n in a.nodes && n.op.Source? && SourceOk(host, a, n)
    ensures SourceOk(host, b, n)
  {
    hide Feeders, Find, UniqueIds, ConnectionOk, SourceIdentified, Targets;
    TargetsPermuted(a.edges, b.edges, n.id);
    var target := Targets(a.edges, n.id)[0];
    FindPermuted(a.nodes, b.nodes, target);
    var boundary := Find(a.nodes, target).value;
    assert "rows" in InputPorts(boundary.op);
    FeedersPermuted(a.edges, b.edges, boundary.id, "rows");
  }

  lemma WellFormedPermuted(host: Host, a: Dag, b: Dag)
    requires Permuted(a, b) && WellFormed(host, a)
    ensures WellFormed(host, b) && Outputs(a.nodes) == Outputs(b.nodes)
  {
    hide Wired, Leads, SourceOk, IsNodeId, Version, Outputs, Levels;
    SameLength(a.nodes, b.nodes);
    SameLength(a.edges, b.edges);
    OutputsPermuted(a.nodes, b.nodes);
    WiredPermuted(a, b);
    var level :| Levels(a, level);
    LevelsPermuted(a, b, level);
    forall n | n in b.nodes
      ensures IsNodeId(n.id) && n.version == Version(n.op) && Leads(b.edges, n.id, Outputs(b.nodes)[0].id)
      ensures n.op.Source? ==> SourceOk(host, b, n)
    {
      SameMembers(a.nodes, b.nodes, n);
      LeadsPermuted(a, b, n.id, Outputs(a.nodes)[0].id);
      if n.op.Source? {
        SourcePermuted(host, a, b, n);
      }
    }
  }

  lemma {:induction false} FoldPermuted<T(!new)>(a: Dag, b: Dag, level: map<string, nat>, step: (Node, seq<T>) -> T,
      id: string)
    requires Permuted(a, b) && Wired(a) && Wired(b) && Levels(a, level) && Levels(b, level) && Known(a.nodes, id)
    ensures Known(b.nodes, id) && Fold(a, level, step, id) == Fold(b, level, step, id)
    decreases level[id]
  {
    hide Feeders, Find, ConnectionOk, Levels;
    FindPermuted(a.nodes, b.nodes, id);
    forall k: nat | k < Arity(a, id)
      ensures Feeder(a, id, k) == Feeder(b, id, k)
              && Fold(a, level, step, Feeder(a, id, k)) == Fold(b, level, step, Feeder(b, id, k))
    {
      FeedersPermuted(a.edges, b.edges, id, InputPorts(NodeOf(a, id).op)[k]);
      FoldPermuted(a, b, level, step, Feeder(a, id, k));
    }
    assert FoldInputs(a, level, step, id) == FoldInputs(b, level, step, id);
  }

  /** Any meaning of a node: shapes and tables alike. */
  lemma MeaningPermuted<T(!new)>(a: Dag, b: Dag, step: (Node, seq<T>) -> T, id: string)
    requires Permuted(a, b) && Wired(a) && Acyclic(a) && Known(a.nodes, id)
    ensures Wired(b) && Acyclic(b) && Known(b.nodes, id) && Meaning(a, step, id) == Meaning(b, step, id)
  {
    hide Wired, Find, Levels, Fold;
    WiredPermuted(a, b);
    LevelsPermuted(a, b, LevelsOf(a));
    FoldPermuted(a, b, LevelsOf(a), step, id);
    FoldAnyLevels(b, LevelsOf(a), LevelsOf(b), step, id);
  }

  lemma CompilesPermuted(host: Host, a: Dag, b: Dag, declared: Shape)
    requires Permuted(a, b) && Compiles(host, a, declared)
    ensures Compiles(host, b, declared)
    ensures ShapeOf(host, a, OutputId(a)) == ShapeOf(host, b, OutputId(b))
  {
    hide Wired, Acyclic, Find, Outputs, Promised, Meaning, CompileNode;
    WellFormedPermuted(host, a, b);
    MeaningPermuted(a, b, ShapeStep(host), OutputId(a));
  }

  // ---------------------------------------------------------------- the hashed document

  /** The normalised document: nodes in identifier order, connections in text order, and the output schema. */
  datatype Document = Document(nodes: seq<Node>, edges: seq<Edge>, output: Shape)

  ghost function Normalised(host: Host, dag: Dag, declared: Shape, byId: TopK.Order<Node>,
      byText: TopK.Order<Edge>): Document
    requires Compiles(host, dag, declared)
  {
    Document(TopK.Sort(byId, dag.nodes), TopK.Sort(byText, dag.edges), ShapeOf(host, dag, OutputId(dag)).value)
  }

  lemma SortPermuted<T(!new)>(less: TopK.Order<T>, a: seq<T>, b: seq<T>)
    requires multiset(a) == multiset(b) && TopK.IsOrder(less) && TopK.Strict(less, a) && TopK.Strict(less, b)
    ensures TopK.Sort(less, a) == TopK.Sort(less, b)
  {
    TopK.SortSorts(less, a);
    TopK.SortSorts(less, b);
    TopK.SortPermutes(less, a);
    TopK.SortPermutes(less, b);
    TopK.SortedIsUnique(less, TopK.Sort(less, a), TopK.Sort(less, b));
  }

  /** Identifiers are compared; different identifiers never tie. */
  ghost predicate OrdersIds(less: TopK.Order<Node>) {
    TopK.IsOrder(less) && forall m: Node, n: Node | m.id != n.id :: less(m, n) || less(n, m)
  }

  ghost predicate OrdersTexts(less: TopK.Order<Edge>) {
    TopK.IsOrder(less) && forall d: Edge, e: Edge | d != e :: less(d, e) || less(e, d)
  }

  lemma {:induction false} FeedersCount(edges: seq<Edge>, e: Edge)
    ensures |Feeders(edges, e.toNode, e.toPort)| >= multiset(edges)[e]
  {
    if edges != [] {
      var init, last := edges[..|edges| - 1], edges[|edges| - 1];
      assert edges == init + [last];
      FeedersCount(init, e);
      FeedersAppend(init, last, e.toNode, e.toPort);
    }
  }

  lemma EdgesDistinct(dag: Dag)
    requires Wired(dag)
    ensures forall i, j | 0 <= i < j < |dag.edges| :: dag.edges[i] != dag.edges[j]
  {
    hide Feeders, Find;
    forall i, j | 0 <= i < j < |dag.edges|
      ensures dag.edges[i] != dag.edges[j]
    {
      var e := dag.edges[i];
      assert ConnectionOk(dag.nodes, e);
      var n := NodeOf(dag, e.toNode);
      assert |Feeders(dag.edges, n.id, e.toPort)| == 1;
      FeedersCount(dag.edges, e);
      if dag.edges[j] == e {
        TopK.CountsTwice(dag.edges, i, j);
      }
    }
  }

  lemma StrictLists(dag: Dag, byId: TopK.Order<Node>, byText: TopK.Order<Edge>)
    requires Wired(dag) && OrdersIds(byId) && OrdersTexts(byText)
    ensures TopK.Strict(byId, dag.nodes) && TopK.Strict(byText, dag.edges)
  {
    hide Feeders, Find, ConnectionOk, TopK.IsOrder;
    EdgesDistinct(dag);
    forall i, j | 0 <= i < |dag.nodes| && 0 <= j < |dag.nodes| && i != j
      ensures byId(dag.nodes[i], dag.nodes[j]) || byId(dag.nodes[j], dag.nodes[i])
    {
      assert if i < j then dag.nodes[i].id != dag.nodes[j].id else dag.nodes[j].id != dag.nodes[i].id;
    }
    forall i, j | 0 <= i < |dag.edges| && 0 <= j < |dag.edges| && i != j
      ensures byText(dag.edges[i], dag.edges[j]) || byText(dag.edges[j], dag.edges[i])
    {
      assert if i < j then dag.edges[i] != dag.edges[j] else dag.edges[j] != dag.edges[i];
    }
  }

  /** Compilation is order independent: listing the nodes and connections differently changes neither whether
      the plan compiles, nor its output schema, nor the document that is hashed. */
  lemma OrderIndependent(host: Host, a: Dag, b: Dag, declared: Shape, byId: TopK.Order<Node>, byText: TopK.Order<Edge>)
    requires Permuted(a, b) && OrdersIds(byId) && OrdersTexts(byText)
    ensures Compiles(host, a, declared) <==> Compiles(host, b, declared)
    ensures Compiles(host, a, declared) ==>
              Normalised(host, a, declared, byId, byText) == Normalised(host, b, declared, byId, byText)
  {
    hide Wired, Acyclic, Find, WellFormed, Promised, ShapeOf, TopK.Sort, TopK.Strict, TopK.IsOrder;
    assert Permuted(b, a);
    if Compiles(host, b, declared) {
      CompilesPermuted(host, b, a, declared);
    }
    if Compiles(host, a, declared) {
      CompilesPermuted(host, a, b, declared);
      WellFormedIds(host, a);
      WellFormedIds(host, b);
      StrictLists(a, byId, byText);
      StrictLists(b, byId, byText);
      SortPermuted(byId, a.nodes, b.nodes);
      SortPermuted(byText, a.edges, b.edges);
    }
  }

  /** The document lists the nodes and connections of the plan in one order, with the schema the plan compiles
      to, which its declared schema promises. */
  lemma DocumentLists(host: Host, dag: Dag, declared: Shape, byId: TopK.Order<Node>, byText: TopK.Order<Edge>)
    requires Compiles(host, dag, declared) && OrdersIds(byId) && OrdersTexts(byText)
    ensures var d := Normalised(host, dag, declared, byId, byText);
            && multiset(d.nodes) == multiset(dag.nodes) && TopK.Sorted(byId, d.nodes)
            && multiset(d.edges) == multiset(dag.edges) && TopK.Sorted(byText, d.edges)
            && Success(d.output) == ShapeOf(host, dag, OutputId(dag)) && Promised(declared, d.output)
  {
    hide Wired, Acyclic, Find, WellFormed, Promised, ShapeOf, TopK.Sort, TopK.Strict, TopK.IsOrder;
    WellFormedIds(host, dag);
    StrictLists(dag, byId, byText);
    TopK.SortPermutes(byId, dag.nodes);
    TopK.SortPermutes(byText, dag.edges);
    TopK.SortSorts(byId, dag.nodes);
    TopK.SortSorts(byText, dag.edges);
  }

  /** Two compiling plans have one document exactly when they are one plan up to the order of its lists; then
      they also have one output schema. */
  lemma DocumentDecides(host: Host, a: Dag, declaredA: Shape, b: Dag, declaredB: Shape, byId: TopK.Order<Node>,
      byText: TopK.Order<Edge>)
    requires Compiles(host, a, declaredA) && Compiles(host, b, declaredB) && OrdersIds(byId) && OrdersTexts(byText)
    ensures Normalised(host, a, declaredA, byId, byText) == Normalised(host, b, declaredB, byId, byText) <==>
            Permuted(a, b)
    ensures Permuted(a, b) ==> ShapeOf(host, a, OutputId(a)) == ShapeOf(host, b, OutputId(b))
  {
    hide Wired, Acyclic, Find, WellFormed, Promised, ShapeOf, TopK.Sort, TopK.Strict, TopK.IsOrder;
    if Permuted(a, b) {
      CompilesPermuted(host, a, b, declaredA);
      OrderIndependent(host, a, b, declaredA, byId, byText);
    }
    if Normalised(host, a, declaredA, byId, byText) == Normalised(host, b, declaredB, byId, byText) {
      TopK.SortPermutes(byId, a.nodes);
      TopK.SortPermutes(byId, b.nodes);
      TopK.SortPermutes(byText, a.edges);
      TopK.SortPermutes(byText, b.edges);
    }
  }
}
