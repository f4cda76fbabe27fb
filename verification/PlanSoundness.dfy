/** Shape soundness of whole plans: what compilation promises about the rows of every node. */
module PlanSoundness {
  import opened Wrappers
  import opened Values
  import opened Ordering
  import opened Expressions
  import opened ExpressionSoundness
  import opened Maps
  import opened Operators
  import opened OperatorSoundness
  import opened Dags

  /** The node is a Map that stands behind a source. */
  ghost predicate IsBoundary(dag: Dag, id: string)
    requires Wired(dag) && Known(dag.nodes, id)
  {
    NodeOf(dag, id).op.Mapping? && NodeOf(dag, Feeder(dag, id, 0)).op.Source?
  }

  /** The provider fails as a provider, or returns rows in which the fields that the boundary Map reads have their
      declared types. The rows need not hold any other column of the declared source schema. */
  ghost predicate ProviderFits(how: Precision, dag: Dag, answers: Answers)
    requires Wired(dag)
  {
    && (forall n | n in dag.nodes && n.op.Source? && Answer(answers, n.id).Failure? ::
      Answer(answers, n.id).error.Unavailable?)
    && forall id | Known(dag.nodes, id) && IsBoundary(dag, id) :: SourceFits(how, dag, answers, id)
  }

  ghost predicate SourceFits(how: Precision, dag: Dag, answers: Answers, boundary: string)
    requires Wired(dag) && Known(dag.nodes, boundary) && IsBoundary(dag, boundary)
  {
    var source := NodeOf(dag, Feeder(dag, boundary, 0));
    var answer := Answer(answers, source.id);
    answer.Success? && source.op.schema.Some? ==>
      RowsFit(how, answer.value, source.op.schema.value, Referenced(NodeOf(dag, boundary).op.config.fields))
  }

  /** Every node is one where the executor is known to follow the compiler. */
  ghost predicate FaithfulPlan(how: Precision, host: Host, dag: Dag)
    requires Wired(dag) && Acyclic(dag)
  {
    forall n | n in dag.nodes && !n.op.Source? && ShapesInto(host, dag, n.id).Success? ::
      Faithful(how, host, n.op, ShapesInto(host, dag, n.id).value)
  }

  ghost function ShapesInto(host: Host, dag: Dag, id: string): (r: Try<seq<Shape>>)
    requires Wired(dag) && Acyclic(dag) && Known(dag.nodes, id)
    ensures r.Success? ==> |r.value| == Arity(dag, id)
  {
    Collect(MeaningInputs(dag, ShapeStep(host), id))
  }

  ghost function TablesInto(host: Host, dag: Dag, answers: Answers, lenient: bool, id: string): (r: Try<seq<Table>>)
    requires Wired(dag) && Acyclic(dag) && Known(dag.nodes, id)
    ensures r.Success? ==> |r.value| == Arity(dag, id)
  {
    Collect(MeaningInputs(dag, RunStep(host, answers, lenient), id))
  }

  /** The rows of a node are of its compiled shape, those of a source whatever the provider answered; it fails only
      with an unreadable value or a provider error. */
  ghost predicate TableFits(how: Precision, answers: Answers, n: Node, result: Try<Table>, shape: Shape) {
    match result
    case Success(t) =>
      if n.op.Source? then t.shape == shape && Answer(answers, n.id) == Success(t.rows)
      else RowsHave(how, t.rows, shape) && Flat(shape) && (n.op.Output? || t.shape == shape)
    case Failure(e) => e.BadValue? || e.Unavailable?
  }

  /** A node fed by a source is its projecting boundary Map; no node is fed by an Output. */
  lemma FeederKinds(host: Host, dag: Dag, id: string, k: nat)
    requires WellFormed(host, dag) && Known(dag.nodes, id) && k < Arity(dag, id)
    ensures !NodeOf(dag, Feeder(dag, id, k)).op.Output?
    ensures NodeOf(dag, Feeder(dag, id, k)).op.Source? ==>
            NodeOf(dag, id).op.Mapping?
            && NodeOf(dag, id).op.config.mode.Project?
  {
    hide Acyclic, Leads, IsNodeId, Outputs, Feeds, Targets, AtPort, Find, SourceIdentified, Version;
    var n, from := NodeOf(dag, id), Feeder(dag, id, k);
    FeederIsEdge(dag.edges, id, InputPorts(n.op)[k], from);
    var e :| e in dag.edges && e.toNode == id && e.toPort == InputPorts(n.op)[k] && e.fromNode == from;
    assert ConnectionOk(dag.nodes, e);
    if NodeOf(dag, from).op.Source? {
      assert SourceOk(host, dag, NodeOf(dag, from));
      TargetIsEdge(dag.edges, from, id);
    }
  }

  lemma SourceSound(how: Precision, host: Host, dag: Dag, answers: Answers, lenient: bool, id: string)
    requires WellFormed(host, dag) && ProviderFits(how, dag, answers) && Known(dag.nodes, id)
             && NodeOf(dag, id).op.Source?
    requires ShapeOf(host, dag, id).Success?
    ensures TableFits(how, answers, NodeOf(dag, id), Denote(host, dag, answers, lenient, id),
            ShapeOf(host, dag, id).value)
  {
    hide Run, ValidSchema, WellFormed, Wired, Acyclic, Find, SourceFits;
    WellFormedGraph(host, dag);
    MeaningUnfolds(dag, ShapeStep(host), id);
    MeaningUnfolds(dag, RunStep(host, answers, lenient), id);
  }

  /** Shape soundness: in a compiled plan of faithful nodes, whatever rows of the source schemas the provider
      returns, every node yields rows with exactly its compiled fields, of their types and nullability. No
      missing field, unexpected null, wrong kind or invalid configuration can occur. */
  lemma {:induction false} PlanSound(how: Precision, host: Host, dag: Dag, answers: Answers, lenient: bool, id: string)
    requires WellFormed(host, dag) && Wired(dag) && Acyclic(dag) && Known(dag.nodes, id)
    requires FaithfulPlan(how, host, dag) && ProviderFits(how, dag, answers)
    requires ShapeOf(host, dag, id).Success?
    ensures TableFits(how, answers, NodeOf(dag, id), Denote(host, dag, answers, lenient, id),
            ShapeOf(host, dag, id).value)
    decreases LevelsOf(dag)[id]
  {
    hide WellFormed, Wired, Acyclic, Levels, Find, FaithfulPlan, ProviderFits, InputSound, TableFits, RunNode,
      CompileShape;
    WellFormedGraph(host, dag);
    if NodeOf(dag, id).op.Source? {
      SourceSound(how, host, dag, answers, lenient, id);
    } else {
      MeaningUnfolds(dag, ShapeStep(host), id);
      forall k: nat | k < Arity(dag, id)
        ensures ShapesInto(host, dag, id).Success? && InputSound(how, host, dag, answers, lenient, id, k)
      {
        assert MeaningInputs(dag, ShapeStep(host), id)[k].Success?;
        PlanSound(how, host, dag, answers, lenient, Feeder(dag, id, k));
        InputIsSound(how, host, dag, answers, lenient, id, k);
      }
      StepSound(how, host, dag, answers, lenient, id);
    }
  }

  lemma WellFormedGraph(host: Host, dag: Dag)
    requires WellFormed(host, dag)
    ensures Wired(dag) && Acyclic(dag)
  {
    hide Wired, Acyclic;
  }

  lemma StepSound(how: Precision, host: Host, dag: Dag, answers: Answers, lenient: bool, id: string)
    requires Wired(dag) && Acyclic(dag) && Known(dag.nodes, id) && FaithfulPlan(how, host, dag)
    requires !NodeOf(dag, id).op.Source? && ShapeOf(host, dag, id).Success?
    requires ShapesInto(host, dag, id).Success?
             && forall k: nat | k < Arity(dag, id) :: InputSound(how, host, dag, answers, lenient, id, k)
    ensures TableFits(how, answers, NodeOf(dag, id), Denote(host, dag, answers, lenient, id),
            ShapeOf(host, dag, id).value)
  {
    hide Wired, Acyclic, Find, CompileShape, Run, Flat, RowsHave, RowsFit, FaithfulPlan, InputSound, InputsFit,
      Faithful;
    MeaningUnfolds(dag, ShapeStep(host), id);
    MeaningUnfolds(dag, RunStep(host, answers, lenient), id);
    FaithfulAt(how, host, dag, id);
    InputsFitIn(how, host, dag, answers, lenient, id);
    var op, shapes, tables := NodeOf(dag, id).op, ShapesInto(host, dag, id).value,
      TablesInto(host, dag, answers, lenient, id);
    if tables.Success? {
      RunSound(how, host, op, tables.value, shapes, lenient);
    } else {
      var inputs := MeaningInputs(dag, RunStep(host, answers, lenient), id);
      var k :| 0 <= k < |inputs| && inputs[k].Failure? && inputs[k].error == tables.error;
      InputError(how, host, dag, answers, lenient, id, k);
    }
  }

  lemma InputError(how: Precision, host: Host, dag: Dag, answers: Answers, lenient: bool, id: string, k: nat)
    requires Wired(dag) && Acyclic(dag) && Known(dag.nodes, id) && k < Arity(dag, id)
    requires ShapesInto(host, dag, id).Success? && InputSound(how, host, dag, answers, lenient, id, k)
    ensures var r := MeaningInputs(dag, RunStep(host, answers, lenient), id)[k];
            r.Failure? ==> r.error.BadValue? || r.error.Unavailable?
  {
    hide Wired, Acyclic, InputFits, Meaning;
  }

  lemma FaithfulAt(how: Precision, host: Host, dag: Dag, id: string)
    requires Wired(dag) && Acyclic(dag) && Known(dag.nodes, id) && FaithfulPlan(how, host, dag)
    requires !NodeOf(dag, id).op.Source? && ShapesInto(host, dag, id).Success?
    ensures Faithful(how, host, NodeOf(dag, id).op, ShapesInto(host, dag, id).value)
  {
    hide Faithful;
  }

  /** What a node knows of its k-th input. */
  ghost predicate InputSound(how: Precision, host: Host, dag: Dag, answers: Answers, lenient: bool, id: string, k: nat)
    requires Wired(dag) && Acyclic(dag) && Known(dag.nodes, id) && k < Arity(dag, id)
    requires ShapesInto(host, dag, id).Success?
  {
    match MeaningInputs(dag, RunStep(host, answers, lenient), id)[k]
    case Success(t) => InputFits(how, NodeOf(dag, id).op, t, ShapesInto(host, dag, id).value[k])
    case Failure(e) => e.BadValue? || e.Unavailable?
  }

  lemma InputIsSound(how: Precision, host: Host, dag: Dag, answers: Answers, lenient: bool, id: string, k: nat)
    requires WellFormed(host, dag) && Wired(dag) && Known(dag.nodes, id) && k < Arity(dag, id)
             && ProviderFits(how, dag, answers)
    requires ShapesInto(host, dag, id).Success?
    requires var from := Feeder(dag, id, k);
             && ShapeOf(host, dag, from).Success?
             && TableFits(how, answers, NodeOf(dag, from), Denote(host, dag, answers, lenient, from),
               ShapeOf(host, dag, from).value)
    ensures InputSound(how, host, dag, answers, lenient, id, k)
  {
    hide WellFormed, Wired, Acyclic, Find, Flat, RowsHave, RowsFit, Meaning, InputFits, SourceFits;
    WellFormedGraph(host, dag);
    FeederKinds(host, dag, id, k);
    var from := Feeder(dag, id, k);
    var shape := ShapeOf(host, dag, from).value;
    assert MeaningInputs(dag, ShapeStep(host), id)[k] == Success(shape);
    assert ShapesInto(host, dag, id).value[k] == shape;
    var r := MeaningInputs(dag, RunStep(host, answers, lenient), id)[k];
    assert r == Denote(host, dag, answers, lenient, from);
    if r.Success? {
      if NodeOf(dag, from).op.Source? {
        assert SourceFits(how, dag, answers, id);
        SourceInput(how, host, dag, answers, id, r.value, shape);
      } else {
        FlatInput(how, NodeOf(dag, id).op, r.value, shape);
      }
    }
  }

  lemma SourceInput(how: Precision, host: Host, dag: Dag, answers: Answers, id: string, t: Table, shape: Shape)
    requires Wired(dag) && Acyclic(dag) && Known(dag.nodes, id) && IsBoundary(dag, id)
             && NodeOf(dag, id).op.config.mode.Project?
    requires SourceFits(how, dag, answers, id) && ShapeOf(host, dag, Feeder(dag, id, 0)) == Success(shape)
    requires t.shape == shape && Answer(answers, Feeder(dag, id, 0)) == Success(t.rows)
    ensures InputFits(how, NodeOf(dag, id).op, t, shape)
  {
    hide Wired, Acyclic, Find, RowsFit, Meaning, ValidSchema;
    MeaningUnfolds(dag, ShapeStep(host), Feeder(dag, id, 0));
  }

  lemma FlatInput(how: Precision, op: Op, t: Table, shape: Shape)
    requires Flat(shape) && RowsHave(how, t.rows, shape) && t.shape == shape
    ensures InputFits(how, op, t, shape)
  {
    hide Flat, RowsHave, RowsFit;
    if op.Mapping? {
      FlatRows(how, t.rows, shape, Referenced(op.config.fields));
    }
  }

  lemma InputsFitIn(how: Precision, host: Host, dag: Dag, answers: Answers, lenient: bool, id: string)
    requires Wired(dag) && Acyclic(dag) && Known(dag.nodes, id)
    requires ShapesInto(host, dag, id).Success?
    requires forall k: nat | k < Arity(dag, id) :: InputSound(how, host, dag, answers, lenient, id, k)
    ensures TablesInto(host, dag, answers, lenient, id).Success? ==>
              InputsFit(how, NodeOf(dag, id).op, TablesInto(host, dag, answers, lenient, id).value,
                ShapesInto(host, dag, id).value)
  {
    hide Wired, Acyclic, Find, Meaning, InputFits;
    if TablesInto(host, dag, answers, lenient, id).Success? {
      var op, tables, shapes := NodeOf(dag, id).op, TablesInto(host, dag, answers, lenient, id).value,
        ShapesInto(host, dag, id).value;
      forall i | 0 <= i < |tables|
        ensures InputFits(how, op, tables[i], shapes[i])
      {
        assert InputSound(how, host, dag, answers, lenient, id, i);
        assert MeaningInputs(dag, RunStep(host, answers, lenient), id)[i] == Success(tables[i]);
      }
    }
  }
}
