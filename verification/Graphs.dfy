/** The two graph searches of the compiler (dag/compiler.ts): the three-colour depth-first cycle
    search and the backward breadth-first reachability search, proved exact. */
module Graphs {

  type Adjacency = map<string, seq<string>>

  predicate Arrow(adj: Adjacency, a: string, b: string) {
    a in adj && b in adj[a]
  }

  /** Every target is itself a node. */
  ghost predicate Closed(adj: Adjacency) {
    forall a, b | Arrow(adj, a, b) :: b in adj
  }

  ghost predicate IsPath(adj: Adjacency, p: seq<string>) {
    |p| > 0 && forall i | 0 <= i < |p| - 1 :: Arrow(adj, p[i], p[i + 1])
  }

  /** A walk of at least one arrow back to its start. */
  ghost predicate IsCycle(adj: Adjacency, p: seq<string>) {
    IsPath(adj, p) && |p| >= 2 && p[0] == p[|p| - 1]
  }

  ghost predicate HasCycle(adj: Adjacency) {
    exists p :: IsCycle(adj, p)
  }

  /** Every arrow leads from a larger to a smaller rank. */
  ghost predicate Descends(adj: Adjacency, rank: map<string, nat>) {
    forall a, b | Arrow(adj, a, b) :: a in rank && b in rank && rank[b] < rank[a]
  }

  lemma PathSuffix(adj: Adjacency, p: seq<string>, from: nat)
    requires IsPath(adj, p) && from < |p|
    ensures IsPath(adj, p[from..])
  {
    var q := p[from..];
    forall i | 0 <= i < |q| - 1
      ensures Arrow(adj, q[i], q[i + 1])
    {
      assert Arrow(adj, p[from + i], p[from + i + 1]);
    }
  }

  lemma PathExtend(adj: Adjacency, p: seq<string>, next: string)
    requires IsPath(adj, p) && Arrow(adj, p[|p| - 1], next)
    ensures IsPath(adj, p + [next])
  {
    var q := p + [next];
    forall i | 0 <= i < |q| - 1
      ensures Arrow(adj, q[i], q[i + 1])
    {
      if i < |p| - 1 { assert Arrow(adj, p[i], p[i + 1]); }
    }
  }

  lemma {:induction false} PathDescends(adj: Adjacency, rank: map<string, nat>, p: seq<string>)
    requires Descends(adj, rank) && IsPath(adj, p) && |p| >= 2
    ensures p[0] in rank && p[|p| - 1] in rank && rank[p[|p| - 1]] < rank[p[0]]
  {
    assert Arrow(adj, p[0], p[1]);
    if |p| > 2 {
      PathSuffix(adj, p, 1);
      PathDescends(adj, rank, p[1..]);
    }
  }

  lemma RankedHasNoCycle(adj: Adjacency, rank: map<string, nat>)
    requires Descends(adj, rank)
    ensures !HasCycle(adj)
  {
    forall p | IsCycle(adj, p)
      ensures false
    {
      PathDescends(adj, rank, p);
    }
  }

  // ---------------------------------------------------------------- depth-first search

  function Elements(s: seq<string>): (r: set<string>)
    ensures forall x :: x in r <==> x in s
  {
    set x | x in s
  }

  lemma CloseCycle(adj: Adjacency, stack: seq<string>, id: string)
    requires IsPath(adj, stack + [id]) && id in stack
    ensures HasCycle(adj)
  {
    var i :| 0 <= i < |stack| && stack[i] == id;
    PathSuffix(adj, stack + [id], i);
    var p := (stack + [id])[i..];
    assert p[0] == id && p[|p| - 1] == id;
    assert IsCycle(adj, p);
  }

  class CycleSearch {
    const adj: Adjacency
    var seen: set<string>
    var visiting: set<string>
    ghost var rank: map<string, nat>
    ghost var clock: nat

    constructor (adj: Adjacency)
      ensures this.adj == adj && seen == {} && visiting == {} && rank == map[]
    {
      this.adj := adj;
      seen, visiting, rank, clock := {}, {}, map[], 0;
    }

    /** Finished nodes only lead to finished nodes of smaller rank. */
    ghost predicate Finished()
      reads this
    {
      && (forall a | a in rank :: rank[a] < clock)
      && rank.Keys == seen && seen <= adj.Keys && seen !! visiting
      && forall a, b | a in seen && Arrow(adj, a, b) :: b in seen && rank[b] < rank[a]
    }

    /** visit: true when the node is on the current stack, false when it was finished before. The stack is
        the list of nodes being visited, innermost last. */
    method Visit(id: string, ghost stack: seq<string>) returns (cyclic: bool)
      requires Closed(adj) && id in adj
      requires Finished() && Elements(stack) == visiting && IsPath(adj, stack + [id])
      modifies this
      ensures cyclic ==> HasCycle(adj)
      ensures !cyclic ==> Finished() && visiting == old(visiting) && old(seen) <= seen && id in seen
      decreases adj.Keys - seen - visiting
    {
      if id in visiting {
        CloseCycle(adj, stack, id);
        return true;
      }
      if id in seen {
        return false;
      }
      visiting := visiting + {id};
      var targets := adj[id];
      for k := 0 to |targets|
        invariant Finished() && visiting == old(visiting) + {id} && old(seen) <= seen && id !in seen
        invariant forall j | 0 <= j < k :: targets[j] in seen
      {
        assert Arrow(adj, id, targets[k]);
        PathExtend(adj, stack + [id], targets[k]);
        cyclic := Visit(targets[k], stack + [id]);
        if cyclic {
          return true;
        }
      }
      visiting := visiting - {id};
      seen := seen + {id};
      rank, clock := rank[id := clock], clock + 1;
      cyclic := false;
    }
  }

  /** The compiler's cycle test: some node starts a cyclic visit exactly when the graph has a cycle; otherwise
      the order in which nodes finished ranks the graph. */
  method FindCycle(adj: Adjacency, nodes: seq<string>)
      returns (cyclic: bool, ghost rank: map<string, nat>, ghost bound: nat)
    requires Closed(adj) && Elements(nodes) == adj.Keys
    ensures cyclic <==> HasCycle(adj)
    ensures !cyclic ==> rank.Keys == adj.Keys && Descends(adj, rank) && forall a | a in rank :: rank[a] < bound
  {
    var search := new CycleSearch(adj);
    rank, bound := map[], 0;
    for i := 0 to |nodes|
      invariant fresh(search) && search.adj == adj && search.Finished() && search.visiting == {}
      invariant forall j | 0 <= j < i :: nodes[j] in search.seen
    {
      assert IsPath(adj, [] + [nodes[i]]);
      cyclic := search.Visit(nodes[i], []);
      if cyclic {
        return;
      }
    }
    rank, bound := search.rank, search.clock;
    assert search.seen == adj.Keys;
    RankedHasNoCycle(adj, rank);
    cyclic := false;
  }

  // ---------------------------------------------------------------- breadth-first search

  ghost predicate Connects(adj: Adjacency, p: seq<string>, a: string, b: string) {
    IsPath(adj, p) && p[0] == a && p[|p| - 1] == b
  }

  ghost predicate Reachable(adj: Adjacency, a: string, b: string) {
    exists p :: Connects(adj, p, a, b)
  }

  lemma ReachableSelf(adj: Adjacency, a: string)
    ensures Reachable(adj, a, a)
  {
    assert Connects(adj, [a], a, a);
  }

  lemma ReachableStep(adj: Adjacency, a: string, b: string, c: string)
    requires Reachable(adj, a, b) && Arrow(adj, b, c)
    ensures Reachable(adj, a, c)
  {
    var p :| Connects(adj, p, a, b);
    PathExtend(adj, p, c);
    assert Connects(adj, p + [c], a, c);
  }

  lemma {:induction false} StaysInside(adj: Adjacency, inside: set<string>, p: seq<string>)
    requires IsPath(adj, p) && p[0] in inside
    requires forall a, b | a in inside && Arrow(adj, a, b) :: b in inside
    ensures p[|p| - 1] in inside
  {
    if |p| > 1 {
      assert Arrow(adj, p[0], p[1]);
      PathSuffix(adj, p, 1);
      StaysInside(adj, inside, p[1..]);
    }
  }

  /** The queue-driven search: exactly the nodes that a path from `start` leads to. */
  method Reach(adj: Adjacency, start: string) returns (reached: set<string>)
    requires Closed(adj) && start in adj
    ensures forall x :: x in reached <==> Reachable(adj, start, x)
    ensures reached <= adj.Keys
  {
    reached := {start};
    var pending := [start];
    ReachableSelf(adj, start);
    while pending != []
      invariant start in reached && reached <= adj.Keys
      invariant forall x | x in reached :: Reachable(adj, start, x)
      invariant forall x | x in pending :: x in reached
      invariant forall a, b | a in reached && a !in pending && Arrow(adj, a, b) :: b in reached
      decreases adj.Keys - reached, |pending|
    {
      var current := pending[0];
      ghost var before := reached;
      pending := pending[1..];
      ghost var rest := pending;
      var next := adj[current];
      for k := 0 to |next|
        invariant before <= reached <= adj.Keys
        invariant forall x | x in reached :: Reachable(adj, start, x)
        invariant forall x | x in pending :: x in reached
        invariant forall j | 0 <= j < k :: next[j] in reached
        invariant forall a, b | a in reached && a !in pending && a != current && Arrow(adj, a, b) :: b in reached
        invariant reached == before ==> pending == rest
      {
        if next[k] !in reached {
          assert Arrow(adj, current, next[k]);
          ReachableStep(adj, start, current, next[k]);
          reached := reached + {next[k]};
          pending := pending + [next[k]];
        }
      }
    }
    forall x | Reachable(adj, start, x)
      ensures x in reached
    {
      var p :| Connects(adj, p, start, x);
      StaysInside(adj, reached, p);
    }
  }

  // ---------------------------------------------------------------- Kahn's queue

  predicate Distinct(s: seq<string>) {
    forall i, j | 0 <= i < j < |s| :: s[i] != s[j]
  }

  function Occurs(s: seq<string>, t: string): nat {
    if s == [] then 0 else (if s[0] == t then 1 else 0) + Occurs(s[1..], t)
  }

  /** How many arrows into t still come from nodes that are not done. */
  ghost function Open(nodes: seq<string>, adj: Adjacency, done: set<string>, t: string): nat
    requires forall a | a in nodes :: a in adj
  {
    if nodes == [] then 0
    else (if nodes[0] in done then 0 else Occurs(adj[nodes[0]], t)) + Open(nodes[1..], adj, done, t)
  }

  lemma {:induction false} OccursIn(s: seq<string>, t: string)
    ensures Occurs(s, t) > 0 <==> t in s
  {
    if s != [] {
      OccursIn(s[1..], t);
    }
  }

  lemma {:induction false} OpenAfter(nodes: seq<string>, adj: Adjacency, done: set<string>, id: string, t: string)
    requires Distinct(nodes) && (forall a | a in nodes :: a in adj) && id !in done && id in adj
    ensures Open(nodes, adj, done, t) == Open(nodes, adj, done + {id}, t) + (if id in nodes then Occurs(adj[id], t)
            else 0)
  {
    if nodes != [] {
      OpenAfter(nodes[1..], adj, done, id, t);
    }
  }

  lemma {:induction false} OpenIsZero(nodes: seq<string>, adj: Adjacency, done: set<string>, t: string)
    requires forall a | a in nodes :: a in adj
    ensures Open(nodes, adj, done, t) == 0 <==> forall a | a in nodes && Arrow(adj, a, t) :: a in done
  {
    if nodes != [] {
      OpenIsZero(nodes[1..], adj, done, t);
      OccursIn(adj[nodes[0]], t);
    }
  }

  function Zeros(nodes: seq<string>, indegree: map<string, int>): seq<string>
    requires forall a | a in nodes :: a in indegree
  {
    if nodes == [] then []
    else (if indegree[nodes[0]] == 0 then [nodes[0]] else []) + Zeros(nodes[1..], indegree)
  }

  lemma {:induction false} ZerosAre(nodes: seq<string>, indegree: map<string, int>)
    requires Distinct(nodes) && forall a | a in nodes :: a in indegree
    ensures forall t :: t in Zeros(nodes, indegree) <==> t in nodes && indegree[t] == 0
    ensures Distinct(Zeros(nodes, indegree))
  {
    if nodes != [] {
      ZerosAre(nodes[1..], indegree);
      assert nodes[0] !in nodes[1..];
    }
  }

  /** The scheduling queue of the compiler. */
  class KahnQueue {
    const nodes: seq<string>
    const adj: Adjacency
    var indegree: map<string, int>
    var queue: seq<string>
    ghost var done: set<string>

    /** Every counter is the number of arrows from nodes not yet done, the queue holds exactly the
        waiting nodes whose counter is zero, each once, and done nodes have done predecessors. */
    ghost predicate Valid()
      reads this
    {
      && Distinct(nodes) && Elements(nodes) == adj.Keys && Closed(adj)
      && indegree.Keys == adj.Keys && done <= adj.Keys
      && (forall t | t in adj :: indegree[t] == Open(nodes, adj, done, t))
      && Distinct(queue)
      && (forall t :: t in queue <==> t in adj && t !in done && indegree[t] == 0)
      && forall a, b | Arrow(adj, a, b) && b in done :: a in done
    }

    constructor (nodes: seq<string>, adj: Adjacency, indegree: map<string, int>)
      requires Distinct(nodes) && Elements(nodes) == adj.Keys && Closed(adj) && indegree.Keys == adj.Keys
      requires forall t | t in adj :: indegree[t] == Open(nodes, adj, {}, t)
      ensures Valid() && done == {} && this.nodes == nodes && this.adj == adj
    {
      this.nodes, this.adj, this.indegree := nodes, adj, indegree;
      queue := Zeros(nodes, indegree);
      done := {};
      new;
      ZerosAre(nodes, indegree);
    }

    /** Every counter is ahead by the arrows of the node just taken. */
    ghost predicate Counts(after: set<string>, targets: seq<string>)
      reads this
      requires forall a | a in nodes :: a in adj
    {
      && indegree.Keys == adj.Keys
      && forall t | t in adj :: indegree[t] == Open(nodes, adj, after, t) + Occurs(targets, t)
    }

    ghost predicate Waiting(after: set<string>)
      reads this
      requires indegree.Keys == adj.Keys
    {
      Distinct(queue) && forall t :: t in queue <==> t in adj && t !in after && indegree[t] == 0
    }

    /** Lowers one counter and queues its node when it reaches zero. */
    method Lower(target: string, ghost rest: seq<string>, ghost after: set<string>)
      requires (forall a | a in nodes :: a in adj) && target in adj && target !in after
      requires Counts(after, [target] + rest) && Waiting(after)
      modifies this`indegree, this`queue
      ensures indegree.Keys == adj.Keys && Counts(after, rest) && Waiting(after)
    {
      hide Open, Occurs;
      OccursFirst(target, rest);
      indegree := indegree[target := indegree[target] - 1];
      if indegree[target] == 0 {
        queue := queue + [target];
      }
    }

    method Release(id: string, ghost after: set<string>)
      requires id in adj && (forall a | a in nodes :: a in adj)
      requires indegree.Keys == adj.Keys && Counts(after, adj[id]) && Waiting(after)
      requires forall t | Arrow(adj, id, t) :: t in adj && t !in after
      modifies this`indegree, this`queue
      ensures indegree.Keys == adj.Keys && Counts(after, []) && Waiting(after)
    {
      var targets := adj[id];
      hide Counts, Waiting;
      assert targets[0..] == targets;
      for k := 0 to |targets|
        invariant indegree.Keys == adj.Keys && Counts(after, targets[k..]) && Waiting(after)
      {
        assert Arrow(adj, id, targets[k]);
        assert targets[k..] == [targets[k]] + targets[k + 1..];
        Lower(targets[k], targets[k + 1..], after);
      }
      assert targets[|targets|..] == [];
    }

    /** One turn of the loop: take the first waiting node and release its targets. */
    method Advance() returns (id: string)
      requires Valid() && queue != []
      modifies this
      ensures Valid() && id in adj && id !in old(done) && done == old(done) + {id}
      ensures forall a | Arrow(adj, a, id) :: a in old(done)
    {
      id := queue[0];
      hide Open, Occurs;
      OpenIsZero(nodes, adj, done, id);
      queue := queue[1..];
      ghost var after := done + {id};
      TakeNode(id, after);
      Release(id, after);
      OccursNone();
      done := after;
    }

    lemma TakeNode(id: string, after: set<string>)
      requires Distinct(nodes) && Elements(nodes) == adj.Keys && id in adj && id !in done && after == done + {id}
      requires indegree.Keys == adj.Keys && forall t | t in adj :: indegree[t] == Open(nodes, adj, done, t)
      ensures Counts(after, adj[id])
    {
      forall t | t in adj
        ensures Open(nodes, adj, done, t) == Open(nodes, adj, after, t) + Occurs(adj[id], t)
      {
        OpenAfter(nodes, adj, done, id, t);
      }
    }

    /** On an acyclic graph the queue runs dry only when every node is done. */
    lemma Drained(rank: map<string, nat>, bound: nat)
      requires Valid() && queue == [] && Descends(adj, rank) && forall a | a in rank :: rank[a] < bound
      ensures done == adj.Keys
    {
      forall t | t in adj
        ensures t in done
      {
        if t !in done {
          Stuck(t, rank, bound);
        }
      }
    }

    lemma {:induction false} Stuck(t: string, rank: map<string, nat>, bound: nat)
      requires Valid() && queue == [] && Descends(adj, rank) && forall a | a in rank :: rank[a] < bound
      requires t in adj && t !in done
      ensures false
      decreases bound - (if t in rank then rank[t] else 0)
    {
      OpenIsZero(nodes, adj, done, t);
      var a :| a in nodes && Arrow(adj, a, t) && a !in done;
      assert a in rank && t in rank && rank[t] < rank[a] < bound;
      Stuck(a, rank, bound);
    }
  }

  lemma OccursFirst(first: string, rest: seq<string>)
    ensures Occurs([first] + rest, first) == 1 + Occurs(rest, first)
    ensures forall t | t != first :: Occurs([first] + rest, t) == Occurs(rest, t)
  {
    assert ([first] + rest)[1..] == rest;
  }

  lemma OccursNone()
    ensures forall t :: Occurs([], t) == 0
  {
  }
}
