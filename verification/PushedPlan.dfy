/** A pushed plan: the provider filters, the residual plan runs, and the Output is that of the full plan. */
module PushedPlan {
  import opened Wrappers
  import opened Values
  import opened Ordering
  import opened Filtering
  import opened Maps
  import opened Operators
  import opened Dags
  import opened Compiler
  import opened Residual
  import opened Pushdown
  import opened PushdownSoundness

  /** A source, its boundary Map and the filters that follow it, feeding nothing but one another. */
  datatype Lane = Lane(source: string, boundary: string, filters: seq<string>)

  /** One pushdown: a lane of the plan, the configurations of its nodes, and the where clause that took the filters
      over. */
  datatype Push = Push(lane: Lane, config: MapConfig, filters: seq<FilterConfig>, schema: Shape, where: Gql,
      evidence: seq<Evidence>)

  /** The node behind the first i filters. */
  function Upto(lane: Lane, i: nat): string
    requires i <= |lane.filters|
  {
    if i == 0 then lane.boundary else lane.filters[i - 1]
  }

  function Last(lane: Lane): string {
    Upto(lane, |lane.filters|)
  }

  function FilterNodes(lane: Lane): set<string> {
    set i | 0 <= i < |lane.filters| :: lane.filters[i]
  }

  /** The nodes whose tables only the lane itself sees. */
  function Inside(lane: Lane): set<string> {
    {lane.source} + set i | 0 <= i < |lane.filters| :: Upto(lane, i)
  }

  ghost predicate IsLane(dag: Dag, p: Push)
    requires Wired(dag)
  {
    var lane := p.lane;
    && |lane.filters| == |p.filters| > 0
    && Known(dag.nodes, lane.source) && NodeOf(dag, lane.source).op.Source?
      && NodeOf(dag, lane.source).op.schema == Some(p.schema)
    && Known(dag.nodes, lane.boundary) && NodeOf(dag, lane.boundary).op == Mapping(p.config)
      && Feeder(dag, lane.boundary, 0) == lane.source
    && (forall i | 0 <= i < |p.filters| ::
          && Known(dag.nodes, lane.filters[i]) && NodeOf(dag, lane.filters[i]).op == FilterOpOf(p.filters[i])
          && Feeder(dag, lane.filters[i], 0) == Upto(lane, i))
    && forall n, k: nat | Known(dag.nodes, n) && k < Arity(dag, n) && Feeder(dag, n, k) in Inside(lane) ::
      n in Inside(lane) + {Last(lane)}
  }

  // ---------------------------------------------------------------- tables along the lane

  lemma {:induction false} ChainExtend(host: Host, filters: seq<FilterConfig>, last: FilterConfig, t: Table,
      lenient: bool)
    ensures Chain(host, filters + [last], t, lenient) ==
              match Chain(host, filters, t, lenient)
              case Success(u) => Run(host, FilterOpOf(last), [u], lenient)
              case Failure(e) => Failure(e)
    decreases filters
  {
    hide Run;
    var all := filters + [last];
    if filters == [] {
      assert all[1..] == [];
      var r := Run(host, FilterOpOf(last), [t], lenient);
      assert r.Success? ==> Chain(host, [], r.value, lenient) == Success(r.value);
    } else {
      assert all[0] == filters[0] && all[1..] == filters[1..] + [last];
      var next := Run(host, FilterOpOf(filters[0]), [t], lenient);
      if next.Success? {
        ChainExtend(host, filters[1..], last, next.value, lenient);
      }
    }
  }

  lemma LaneStart(dag: Dag, p: Push)
    requires Wired(dag) && IsLane(dag, p)
    ensures |p.lane.filters| == |p.filters| > 0
    ensures Known(dag.nodes, p.lane.source) && NodeOf(dag, p.lane.source).op.Source?
            && NodeOf(dag, p.lane.source).op.schema == Some(p.schema)
    ensures Known(dag.nodes, p.lane.boundary) && NodeOf(dag, p.lane.boundary).op == Mapping(p.config)
    ensures Feeder(dag, p.lane.boundary, 0) == p.lane.source
  {
    hide Wired, Find, Feeder;
  }

  lemma LaneAt(dag: Dag, p: Push, i: nat)
    requires Wired(dag) && IsLane(dag, p) && i < |p.filters|
    ensures |p.lane.filters| == |p.filters|
    ensures Known(dag.nodes, p.lane.filters[i]) && NodeOf(dag, p.lane.filters[i]).op == FilterOpOf(p.filters[i])
    ensures Arity(dag, p.lane.filters[i]) == 1 && Feeder(dag, p.lane.filters[i], 0) == Upto(p.lane, i)
  {
    hide Wired, Find, Feeder;
  }

  lemma BoundaryDenotes(host: Host, dag: Dag, answers: Answers, lenient: bool, p: Push, rows: seq<Row>)
    requires Wired(dag) && Acyclic(dag) && IsLane(dag, p) && Answer(answers, p.lane.source) == Success(rows)
    ensures Known(dag.nodes, p.lane.boundary)
    ensures Denote(host, dag, answers, lenient, p.lane.boundary) ==
            BoundaryTable(host, p.config, p.schema, rows, lenient)
  {
    hide Wired, Acyclic, Find, Run, Meaning, Feeder, Denote, IsLane;
    LaneStart(dag, p);
    SourceTable(host, dag, answers, lenient, p.lane.source, p.schema);
    OneInput(host, dag, answers, lenient, p.lane.boundary, p.lane.source);
  }

  /** What the first i filters of a lane make of the mapped source rows. */
  ghost function LaneChain(host: Host, lenient: bool, p: Push, rows: seq<Row>, i: nat): Try<Table>
    requires i <= |p.filters|
  {
    var t :- BoundaryTable(host, p.config, p.schema, rows, lenient);
    Chain(host, p.filters[..i], t, lenient)
  }

  /** That is what the i-th filter of the lane denotes. */
  lemma {:induction false} LaneTable(host: Host, dag: Dag, answers: Answers, lenient: bool, p: Push, rows: seq<Row>,
      i: nat)
    requires Wired(dag) && Acyclic(dag) && IsLane(dag, p) && Answer(answers, p.lane.source) == Success(rows)
    requires i <= |p.filters| == |p.lane.filters|
    ensures Known(dag.nodes, Upto(p.lane, i))
    ensures Denote(host, dag, answers, lenient, Upto(p.lane, i)) == LaneChain(host, lenient, p, rows, i)
    decreases i
  {
    hide Wired, Acyclic, Find, Run, Meaning, Feeder, Denote, IsLane, BoundaryTable;
    var t := BoundaryTable(host, p.config, p.schema, rows, lenient);
    if i == 0 {
      BoundaryDenotes(host, dag, answers, lenient, p, rows);
    } else {
      hide Chain;
      LaneTable(host, dag, answers, lenient, p, rows, i - 1);
      LaneAt(dag, p, i - 1);
      FilterPorts(p.filters[i - 1]);
      OneInput(host, dag, answers, lenient, p.lane.filters[i - 1], Upto(p.lane, i - 1));
      assert p.filters[..i] == p.filters[..i - 1] + [p.filters[i - 1]];
      if t.Success? {
        ChainExtend(host, p.filters[..i - 1], p.filters[i - 1], t.value, lenient);
      }
    }
  }

  lemma FilterPorts(f: FilterConfig)
    ensures InputPorts(FilterOpOf(f)) == ["rows"] && Pushable(FilterOpOf(f))
  {
  }

  // ---------------------------------------------------------------- filters that keep everything

  lemma {:induction false} TryFilterAll(rows: seq<Row>, keep: Row -> Try<bool>)
    requires forall row | row in rows :: keep(row) == Success(true)
    ensures TryFilter(rows, keep) == Success(rows)
  {
    if rows != [] {
      assert rows == [rows[0]] + rows[1..] && rows[0] in rows && forall row | row in rows[1..] :: row in rows;
      TryFilterAll(rows[1..], keep);
    }
  }

  lemma FilterKeepsAll(host: Host, f: FilterConfig, t: Table, lenient: bool)
    requires f.ByPredicate? ==> ValidPredicate(host, f.p, t.shape)
    requires forall row | row in t.rows :: Keeps(host, f, t.shape, row) == Success(true)
    ensures Run(host, FilterOpOf(f), [t], lenient) == Success(t)
  {
    hide KeepRow, KeepByExpression, ValidPredicate;
    match f
    case ByPredicate(p) => TryFilterAll(t.rows, Keeper(host, p, t.shape));
    case ByExpression(e) => TryFilterAll(t.rows, ExpressionKeeper(host, e, t.shape));
  }

  lemma {:induction false} PassedEach(host: Host, filters: seq<FilterConfig>, shape: Shape, row: Row, i: nat)
    requires Passes(host, filters, shape, row) == Success(true) && i < |filters|
    ensures Keeps(host, filters[i], shape, row) == Success(true)
  {
    hide Keeps;
    if i > 0 {
      PassedEach(host, filters[1..], shape, row, i - 1);
    }
  }

  lemma {:induction false} ChainKeepsAll(host: Host, filters: seq<FilterConfig>, t: Table, lenient: bool)
    requires Validated(host, filters, t.shape)
    requires forall i, row | 0 <= i < |filters| && row in t.rows ::
             Keeps(host, filters[i], t.shape, row) == Success(true)
    ensures Chain(host, filters, t, lenient) == Success(t)
    decreases filters
  {
    hide Keeps, Run, ValidPredicate;
    if filters != [] {
      assert filters[0] in filters && forall f | f in filters[1..] :: f in filters;
      FilterKeepsAll(host, filters[0], t, lenient);
      forall i, row | 0 <= i < |filters[1..]| && row in t.rows
        ensures Keeps(host, filters[1..][i], t.shape, row) == Success(true)
      {
        assert filters[1..][i] == filters[i + 1];
      }
      ChainKeepsAll(host, filters[1..], t, lenient);
    }
  }

  lemma {:induction false} SelectedHold(rows: seq<Row>, keep: Row -> bool)
    ensures forall row | row in Select(rows, keep) :: row in rows && keep(row)
  {
    if rows != [] {
      assert rows == [rows[0]] + rows[1..];
      SelectedHold(rows[1..], keep);
    }
  }

  /** What a chain of filters leaves, every prefix of the chain leaves unchanged. */
  lemma ChainIsIdempotent(host: Host, filters: seq<FilterConfig>, t: Table, lenient: bool, i: nat)
    requires Chain(host, filters, t, lenient).Success? && i <= |filters|
    ensures Chain(host, filters[..i], Chain(host, filters, t, lenient).value, lenient) ==
            Chain(host, filters, t, lenient)
  {
    hide Chain, Keeps, Select, Passes, ValidPredicate;
    ChainSelects(host, filters, t, lenient);
    var kept := Chain(host, filters, t, lenient).value;
    SelectedHold(t.rows, PassesTrue(host, filters, t.shape));
    forall j, row | 0 <= j < |filters[..i]| && row in kept.rows
      ensures Keeps(host, filters[..i][j], kept.shape, row) == Success(true)
    {
      PassedEach(host, filters, t.shape, row, j);
    }
    ChainKeepsAll(host, filters[..i], kept, lenient);
  }

  // ---------------------------------------------------------------- the rest of the plan

  /** Two steps that agree outside a part of the graph, and at the exit of that part, agree beyond it. */
  lemma {:induction false} AgreeBeyond<T(!new)>(dag: Dag, a: (Node, seq<T>) -> T, b: (Node, seq<T>) -> T,
      inside: set<string>, exit: string, n: string)
    requires Wired(dag) && Acyclic(dag) && Known(dag.nodes, n) && n !in inside && Known(dag.nodes, exit)
    requires forall m, inputs | m in dag.nodes && m.id !in inside :: a(m, inputs) == b(m, inputs)
    requires Meaning(dag, a, exit) == Meaning(dag, b, exit)
    requires forall m, k: nat | Known(dag.nodes, m) && k < Arity(dag, m) && Feeder(dag, m, k) in inside ::
             m in inside
             || m == exit
    ensures Meaning(dag, a, n) == Meaning(dag, b, n)
    decreases LevelsOf(dag)[n]
  {
    if n != exit {
      hide Wired, Acyclic, Find, Meaning, Levels;
      MeaningUnfolds(dag, a, n);
      MeaningUnfolds(dag, b, n);
      forall k: nat | k < Arity(dag, n)
        ensures MeaningInputs(dag, a, n)[k] == MeaningInputs(dag, b, n)[k]
      {
        AgreeBeyond(dag, a, b, inside, exit, Feeder(dag, n, k));
      }
      assert MeaningInputs(dag, a, n) == MeaningInputs(dag, b, n);
    }
  }

  /** The rows that the provider's where clause lets through. */
  ghost function Kept(host: Host, p: Push, rows: seq<Row>): seq<Row> {
    Select(rows, WhereTrue(host, p.schema, p.where))
  }

  /** What a pushdown must satisfy: the check accepted it for this lane, the schema's names and comparison types
      allow it, and running the lane locally on all rows succeeds. */
  ghost predicate Pushes(host: Host, dag: Dag, lenient: bool, s: Sorter, p: Push, rows: seq<Row>)
    requires Wired(dag)
  {
    && IsLane(dag, p) && p.config.mode.Project?
    && Sorts(s) && Accepts(s, Some(p.where), p.filters, p.config, p.evidence) && Unique(p.schema)
      && NoOperatorSuffix(p.schema)
    && BoundaryTable(host, p.config, p.schema, rows, lenient).Success?
    && ChainAlike(BoundaryTable(host, p.config, p.schema, rows, lenient).value.shape, p.filters)
    && Chain(host, p.filters, BoundaryTable(host, p.config, p.schema, rows, lenient).value, lenient).Success?
  }

  /** Over a filtering provider every node of the lane from the boundary on denotes what the last filter did. */
  lemma LaneAgrees(host: Host, dag: Dag, filtered: Answers, lenient: bool, s: Sorter, p: Push, rows: seq<Row>, i: nat)
    requires Wired(dag) && Acyclic(dag) && Pushes(host, dag, lenient, s, p, rows)
             && Answer(filtered, p.lane.source) == Success(Kept(host, p, rows))
    requires i <= |p.filters| == |p.lane.filters|
    ensures Known(dag.nodes, Upto(p.lane, i))
    ensures Denote(host, dag, filtered, lenient, Upto(p.lane, i)) == LaneChain(host, lenient, p, rows, |p.filters|)
  {
    hide Wired, Acyclic, Find, Run, Meaning, Feeder, Denote, IsLane, BoundaryTable, Chain, Sorts, Accepts,
      NoOperatorSuffix, ChainAlike, Select, WhereHolds;
    PushdownSound(host, s, Some(p.where), p.config, p.evidence, p.filters, p.schema, rows, lenient);
    LaneTable(host, dag, filtered, lenient, p, Kept(host, p, rows), i);
    assert p.filters[..|p.filters|] == p.filters;
    ChainIsIdempotent(host, p.filters, BoundaryTable(host, p.config, p.schema, rows, lenient).value, lenient, i);
  }

  lemma LaneEnds(dag: Dag, p: Push)
    requires Wired(dag) && IsLane(dag, p)
    ensures Known(dag.nodes, Last(p.lane)) && p.lane.source in Inside(p.lane)
    ensures forall m, k: nat | Known(dag.nodes, m) && k < Arity(dag, m) && Feeder(dag, m, k) in Inside(p.lane) ::
            m in Inside(p.lane) || m == Last(p.lane)
    ensures forall id | id in Inside(p.lane) && Known(dag.nodes, id) :: !NodeOf(dag, id).op.Output?
  {
    hide Wired, Find, Feeder;
    LaneAt(dag, p, |p.filters| - 1);
    forall i | 0 <= i < |p.filters|
      ensures !NodeOf(dag, p.lane.filters[i]).op.Output?
    {
      LaneAt(dag, p, i);
      FilterPorts(p.filters[i]);
    }
  }

  /** Beyond the lane nothing changes when its provider filters. */
  lemma BeyondLane(host: Host, dag: Dag, answers: Answers, filtered: Answers, lenient: bool, s: Sorter, p: Push,
      rows: seq<Row>, n: string)
    requires Wired(dag) && Acyclic(dag) && Pushes(host, dag, lenient, s, p, rows)
    requires Answer(answers, p.lane.source) == Success(rows)
             && Answer(filtered, p.lane.source) == Success(Kept(host, p, rows))
    requires forall id | id != p.lane.source :: Answer(answers, id) == Answer(filtered, id)
    requires Known(dag.nodes, n) && n !in Inside(p.lane)
    ensures Denote(host, dag, filtered, lenient, n) == Denote(host, dag, answers, lenient, n)
  {
    hide Wired, Acyclic, Find, Run, Meaning, Feeder, IsLane, BoundaryTable, Chain, Sorts, Accepts, NoOperatorSuffix,
      ChainAlike, Kept, RunStep, Inside,
      LaneChain;
    var a, b := RunStep(host, filtered, lenient), RunStep(host, answers, lenient);
    LaneStart(dag, p);
    LaneEnds(dag, p);
    LaneAgrees(host, dag, filtered, lenient, s, p, rows, |p.filters|);
    LaneTable(host, dag, answers, lenient, p, rows, |p.filters|);
    forall m, inputs | m in dag.nodes && m.id !in Inside(p.lane)
      ensures a(m, inputs) == b(m, inputs)
    {
      OtherSources(host, filtered, answers, p.lane.source, m, inputs, lenient);
    }
    AgreeBeyond(dag, a, b, Inside(p.lane), Last(p.lane), n);
  }

  lemma OtherSources(host: Host, answers: Answers, answers': Answers, source: string, n: Node, inputs: seq<Try<Table>>,
      lenient: bool)
    requires n.id != source && forall id | id != source :: Answer(answers, id) == Answer(answers', id)
    ensures RunStep(host, answers, lenient)(n, inputs) == RunStep(host, answers', lenient)(n, inputs)
  {
    hide Run;
  }

  // ---------------------------------------------------------------- several sources at once

  /** The providers of all these lanes filter. */
  ghost function Filtered(host: Host, answers: Answers, pushes: seq<Push>): Answers {
    if pushes == [] then answers
    else
      var p := pushes[|pushes| - 1];
      var before := Filtered(host, answers, pushes[..|pushes| - 1]);
      match Answer(answers, p.lane.source)
      case Success(rows) => before[p.lane.source := Success(Kept(host, p, rows))]
      case Failure(_) => before
  }

  ghost predicate DistinctLanes(pushes: seq<Push>) {
    forall i, j | 0 <= i < j < |pushes| :: pushes[i].lane.source != pushes[j].lane.source
  }

  /** Every one of them is accepted, for the rows its source answers with. */
  ghost predicate AllPush(host: Host, dag: Dag, answers: Answers, lenient: bool, s: Sorter, pushes: seq<Push>)
    requires Wired(dag)
  {
    forall p | p in pushes :: Answer(answers, p.lane.source).Success?
      && Pushes(host, dag, lenient, s, p, Answer(answers, p.lane.source).value)
  }

  function AllFilterNodes(pushes: seq<Push>): set<string> {
    set p, id | p in pushes && id in FilterNodes(p.lane) :: id
  }

  /** Filtering one more source: it answers with what is kept, the others as before. */
  lemma FilteredNext(host: Host, answers: Answers, pushes: seq<Push>)
    requires pushes != [] && Answer(answers, pushes[|pushes| - 1].lane.source).Success?
    ensures var before, after, last := Filtered(host, answers, pushes[..|pushes| - 1]), Filtered(host, answers, pushes),
            pushes[|pushes| - 1];
            && Answer(after, last.lane.source) == Success(Kept(host, last, Answer(answers, last.lane.source).value))
            && forall id | id != last.lane.source :: Answer(after, id) == Answer(before, id)
  {
    hide Kept;
  }

  lemma {:induction false} FilteredElsewhere(host: Host, answers: Answers, pushes: seq<Push>, id: string)
    requires forall i | 0 <= i < |pushes| ::
             Answer(answers, pushes[i].lane.source).Success?
             && pushes[i].lane.source != id
    ensures Answer(Filtered(host, answers, pushes), id) == Answer(answers, id)
    decreases |pushes|
  {
    if pushes != [] {
      hide Kept, Filtered, Answer;
      FilteredNext(host, answers, pushes);
      FilteredElsewhere(host, answers, pushes[..|pushes| - 1], id);
    } else {
      assert Filtered(host, answers, pushes) == answers;
    }
  }

  lemma {:induction false} FilteredAt(host: Host, answers: Answers, pushes: seq<Push>, i: nat)
    requires DistinctLanes(pushes) && i < |pushes|
    requires forall j | 0 <= j < |pushes| :: Answer(answers, pushes[j].lane.source).Success?
    ensures Answer(Filtered(host, answers, pushes), pushes[i].lane.source) ==
            Success(Kept(host, pushes[i], Answer(answers, pushes[i].lane.source).value))
    decreases |pushes|
  {
    hide Kept, Filtered, Answer;
    FilteredNext(host, answers, pushes);
    if i < |pushes| - 1 {
      FilteredAt(host, answers, pushes[..|pushes| - 1], i);
    }
  }

  lemma AllAnswered(host: Host, dag: Dag, answers: Answers, lenient: bool, s: Sorter, pushes: seq<Push>, i: nat)
    requires Wired(dag) && AllPush(host, dag, answers, lenient, s, pushes) && i < |pushes|
    ensures Answer(answers, pushes[i].lane.source).Success?
    ensures Pushes(host, dag, lenient, s, pushes[i], Answer(answers, pushes[i].lane.source).value)
  {
    hide Wired, Pushes, Answer;
    assert pushes[i] in pushes;
  }

  /** Beyond the lanes nothing changes when all their providers filter. */
  lemma {:induction false} BeyondLanes(host: Host, dag: Dag, answers: Answers, lenient: bool, s: Sorter,
      pushes: seq<Push>, n: string)
    requires Wired(dag) && Acyclic(dag) && AllPush(host, dag, answers, lenient, s, pushes) && DistinctLanes(pushes)
    requires Known(dag.nodes, n) && forall p | p in pushes :: n !in Inside(p.lane)
    ensures Denote(host, dag, Filtered(host, answers, pushes), lenient, n) == Denote(host, dag, answers, lenient, n)
    decreases |pushes|
  {
    hide Wired, Acyclic, Find, Meaning, RunStep, Kept, Pushes, Inside, Denote, Filtered, Answer;
    if pushes != [] {
      var init, last := pushes[..|pushes| - 1], pushes[|pushes| - 1];
      assert last in pushes && forall p | p in init :: p in pushes;
      BeyondLanes(host, dag, answers, lenient, s, init, n);
      forall i: nat | i < |pushes|
        ensures Answer(answers, pushes[i].lane.source).Success?
      {
        AllAnswered(host, dag, answers, lenient, s, pushes, i);
      }
      FilteredElsewhere(host, answers, init, last.lane.source);
      FilteredNext(host, answers, pushes);
      BeyondLane(host, dag, Filtered(host, answers, init), Filtered(host, answers, pushes), lenient, s, last,
        Answer(answers, last.lane.source).value, n);
    } else {
      FilteredNone(host, answers);
    }
  }

  lemma FilteredNone(host: Host, answers: Answers)
    ensures Filtered(host, answers, []) == answers
  {
  }

  /** Every filter of the lanes is the identity on what the filtering providers let through. */
  lemma LanesArePassive(host: Host, dag: Dag, answers: Answers, lenient: bool, s: Sorter, pushes: seq<Push>,
      ids: set<string>)
    requires Wired(dag) && Acyclic(dag) && AllPush(host, dag, answers, lenient, s, pushes) && DistinctLanes(pushes)
    requires ids <= AllFilterNodes(pushes)
    ensures Passive(dag, RunStep(host, Filtered(host, answers, pushes), lenient), ids)
  {
    hide Wired, Acyclic, Find, Meaning, Feeder, RunStep, Kept, Pushes, Filtered, LaneChain, Answer;
    var filtered := Filtered(host, answers, pushes);
    forall i: nat | i < |pushes|
      ensures Answer(answers, pushes[i].lane.source).Success?
    {
      AllAnswered(host, dag, answers, lenient, s, pushes, i);
    }
    forall id | id in ids && Known(dag.nodes, id) && Pushable(NodeOf(dag, id).op)
      ensures Unary(dag, id) && Meaning(dag, RunStep(host, filtered, lenient), id) ==
              Meaning(dag, RunStep(host, filtered, lenient), Heir(dag, id))
    {
      var i: nat :| i < |pushes| && id in FilterNodes(pushes[i].lane);
      AllAnswered(host, dag, answers, lenient, s, pushes, i);
      FilteredAt(host, answers, pushes, i);
      PassiveAt(host, dag, filtered, lenient, s, pushes[i], Answer(answers, pushes[i].lane.source).value, id);
    }
  }

  lemma PassiveAt(host: Host, dag: Dag, filtered: Answers, lenient: bool, s: Sorter, p: Push, rows: seq<Row>,
      id: string)
    requires Wired(dag) && Acyclic(dag) && Pushes(host, dag, lenient, s, p, rows)
             && Answer(filtered, p.lane.source) == Success(Kept(host, p, rows))
    requires id in FilterNodes(p.lane) && Known(dag.nodes, id) && Pushable(NodeOf(dag, id).op)
    ensures Unary(dag, id) && Denote(host, dag, filtered, lenient, id) ==
            Denote(host, dag, filtered, lenient, Heir(dag, id))
  {
    hide Wired, Acyclic, Find, Meaning, Feeder, IsLane, BoundaryTable, Chain, Sorts, Accepts, NoOperatorSuffix,
      ChainAlike, Kept, RunStep, LaneChain, Denote;
    LaneStart(dag, p);
    var i :| 0 <= i < |p.lane.filters| && p.lane.filters[i] == id;
    PushableIsUnary(dag, id);
    LaneAt(dag, p, i);
    LaneAgrees(host, dag, filtered, lenient, s, p, rows, i);
    LaneAgrees(host, dag, filtered, lenient, s, p, rows, i + 1);
  }

  lemma OutsideLanes(host: Host, dag: Dag, answers: Answers, lenient: bool, s: Sorter, pushes: seq<Push>, id: string)
    requires Wired(dag) && AllPush(host, dag, answers, lenient, s, pushes) && Known(dag.nodes, id)
             && NodeOf(dag, id).op.Output?
    ensures forall p | p in pushes :: id !in Inside(p.lane)
  {
    hide Wired, Find, Feeder, Inside, BoundaryTable, Chain, Accepts, NoOperatorSuffix, ChainAlike, IsLane;
    forall p | p in pushes
      ensures id !in Inside(p.lane)
    {
      LaneEnds(dag, p);
    }
  }

  /** Pushdown end to end: with the providers of any number of sources filtering by their accepted where clauses,
      the residual plan, from which all pushed filters are gone, denotes at its Output exactly what the full plan
      denoted. */
  lemma PushedPlanMeansTheSame(host: Host, dag: Dag, answers: Answers, lenient: bool, s: Sorter, pushes: seq<Push>,
      sources: seq<PushedSource>)
    requires WellFormed(host, dag) && Wired(dag) && Acyclic(dag)
    requires AllPush(host, dag, answers, lenient, s, pushes) && DistinctLanes(pushes)
             && AllRoles(sources) <= AllFilterNodes(pushes)
    ensures var residual, filtered := Residualized(dag, sources), Filtered(host, answers, pushes);
            && WellFormed(host, residual) && Wired(residual) && Acyclic(residual)
            && Known(dag.nodes, OutputId(dag)) && OutputId(residual) == OutputId(dag)
              && Known(residual.nodes, OutputId(dag))
            && Denote(host, residual, filtered, lenient, OutputId(dag)) ==
              Denote(host, dag, answers, lenient, OutputId(dag))
  {
    hide Wired, Acyclic, Find, Meaning, RunStep, WellFormed, Outputs, Passive, Residualized, Filtered, AllPush,
      DistinctLanes, AllFilterNodes;
    WellFormedIds(host, dag);
    OutputIsNode(dag);
    OutputIsOutput(dag);
    OutsideLanes(host, dag, answers, lenient, s, pushes, OutputId(dag));
    BeyondLanes(host, dag, answers, lenient, s, pushes, OutputId(dag));
    LanesArePassive(host, dag, answers, lenient, s, pushes, AllRoles(sources));
    ResidualMeansTheSame(host, dag, Filtered(host, answers, pushes), lenient, sources);
  }

  lemma OutputIsOutput(dag: Dag)
    requires |Outputs(dag.nodes)| == 1 && Wired(dag) && Known(dag.nodes, OutputId(dag))
    ensures NodeOf(dag, OutputId(dag)).op.Output?
  {
    hide Outputs;
    OutputIsNode(dag);
    FindUnique(dag.nodes, Outputs(dag.nodes)[0]);
  }
}
