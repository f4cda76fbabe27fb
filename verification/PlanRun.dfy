/** A compiled plan, executed: what compilation promises about the rows a live run returns and about the
    ways it can fail. */
module PlanRun {
  import opened Wrappers
  import opened Values
  import opened Ordering
  import opened ExpressionSoundness
  import opened Maps
  import opened Sorting
  import opened Operators
  import opened OperatorSoundness
  import opened Dags
  import opened PlanSoundness
  import opened Steadiness
  import opened LiveRun
  import opened LivePlan
  import opened Compiler

  lemma WellFormedParts(host: Host, dag: Dag)
    requires WellFormed(host, dag)
    ensures Wired(dag) && Acyclic(dag) && |Outputs(dag.nodes)| == 1 && Known(dag.nodes, OutputId(dag))
  {
    hide Acyclic, Leads, SourceOk, IsNodeId, Version, Feeders, ConnectionOk, Outputs;
    OutputIsNode(dag);
  }

  /** A node at which the executor throws has no strict meaning. */
  lemma FailsStrictly(host: Host, dag: Dag, answers: Answers, id: string, e: Error)
    requires Wired(dag) && Acyclic(dag) && LiveRun.NodeFails(host, dag, answers, id, e)
    ensures Known(dag.nodes, id) && Denote(host, dag, answers, false, id).Failure?
  {
    hide Wired, Acyclic, Find, Run, Meaning, Levels;
    var strict, lenient := RunStep(host, answers, false), RunStep(host, answers, true);
    MeaningUnfolds(dag, strict, id);
    if Meaning(dag, strict, id).Success? {
      RunStepDemands(host, answers, false);
      var inputs := MeaningInputs(dag, strict, id);
      forall k: nat | k < Arity(dag, id)
        ensures MeaningInputs(dag, lenient, id)[k] == inputs[k]
      {
        assert inputs[k].Success?;
        DenoteLenient(host, dag, answers, Feeder(dag, id, k));
      }
      assert MeaningInputs(dag, lenient, id) == inputs;
    }
  }

  /** A run of a well-formed plan that fails could not have returned the rows of a strict meaning: whenever
      the plan has one, the run returns exactly its rows. */
  lemma RunFailsOnlyIfMeaningFails(host: Host, dag: Dag, answers: Answers, id: string, e: Error)
    requires WellFormed(host, dag) && Wired(dag) && Acyclic(dag) && LiveRun.NodeFails(host, dag, answers, id, e)
    ensures Known(dag.nodes, OutputId(dag)) && Denote(host, dag, answers, false, OutputId(dag)).Failure?
  {
    hide Wired, Acyclic, Find, Run, Meaning, LiveRun.NodeFails, WellFormed, RunStep;
    WellFormedParts(host, dag);
    FailsStrictly(host, dag, answers, id, e);
    RunStepDemands(host, answers, false);
    OutputNeedsAll(host, dag, RunStep(host, answers, false), NodeOf(dag, id));
  }

  lemma OperatorFailure(how: Precision, host: Host, op: Op, inputs: seq<Table>, shapes: seq<Shape>, e: Error)
    requires !op.Source? && |inputs| == |shapes| == |InputPorts(op)| && Faithful(how, host, op, shapes)
    requires CompileShape(host, op, shapes).Success? && InputsFit(how, op, inputs, shapes)
    requires CanFail(host, op, inputs, e)
    ensures e.BadValue?
  {
    hide Flat, RowsHave, RowsFit, Faithful, ValidSort, ValidMap, Throws, MapShape, RunMapShape, MapRows, OutputFields;
    RunSound(how, host, op, inputs, shapes, false);
    if op.Sort? {
      assert ValidSort(op.sort, inputs[0].shape) && RowsHave(how, inputs[0].rows, shapes[0]);
      ThrowsOnlyBadValues(how, host, inputs[0].rows, op.sort, inputs[0].shape, e);
    }
  }

  /** In a compiled plan of faithful nodes the only errors are unreadable values and provider failures. */
  lemma FailureIsBadValue(how: Precision, host: Host, dag: Dag, answers: Answers, id: string, e: Error)
    requires WellFormed(host, dag) && Wired(dag) && Acyclic(dag) && Known(dag.nodes, id)
    requires FaithfulPlan(how, host, dag) && ProviderFits(how, dag, answers) && ShapeOf(host, dag, id).Success?
    requires LiveRun.NodeFails(host, dag, answers, id, e)
    ensures e.BadValue? || e.Unavailable?
  {
    hide Wired, Acyclic, Find, Run, Meaning, CompileShape, WellFormed, FaithfulPlan, InputsFit, Faithful, CanFail,
      ProviderFits, RunNode, InputSound;
    if NodeOf(dag, id).op.Source? {
      SourceAnswers(how, host, dag, answers, id, e);
    } else {
      MeaningUnfolds(dag, ShapeStep(host), id);
      FaithfulAt(how, host, dag, id);
      AllInputsSound(how, host, dag, answers, id);
      InputsFitIn(how, host, dag, answers, true, id);
      OperatorFailure(how, host, NodeOf(dag, id).op, TablesInto(host, dag, answers, true, id).value,
        ShapesInto(host, dag, id).value, e);
    }
  }

  lemma SourceAnswers(how: Precision, host: Host, dag: Dag, answers: Answers, id: string, e: Error)
    requires Wired(dag) && Acyclic(dag) && ProviderFits(how, dag, answers) && Known(dag.nodes, id)
             && NodeOf(dag, id).op.Source?
    requires ShapeOf(host, dag, id).Success?
    requires Answer(answers, id) == Failure(e) || (NodeOf(dag, id).op.schema.None? && e.Unavailable?)
    ensures e.Unavailable?
  {
    hide Wired, Acyclic, Find, RowsFit, ValidSchema;
    MeaningUnfolds(dag, ShapeStep(host), id);
  }

  lemma AllInputsSound(how: Precision, host: Host, dag: Dag, answers: Answers, id: string)
    requires WellFormed(host, dag) && Wired(dag) && Acyclic(dag) && Known(dag.nodes, id)
    requires FaithfulPlan(how, host, dag) && ProviderFits(how, dag, answers) && ShapesInto(host, dag, id).Success?
    ensures forall k: nat | k < Arity(dag, id) :: InputSound(how, host, dag, answers, true, id, k)
  {
    hide Wired, Acyclic, Find, Run, Meaning, CompileShape, WellFormed, FaithfulPlan, ProviderFits, RunNode, InputSound,
      TableFits;
    forall k: nat | k < Arity(dag, id)
      ensures InputSound(how, host, dag, answers, true, id, k)
    {
      assert MeaningInputs(dag, ShapeStep(host), id)[k].Success?;
      PlanSound(how, host, dag, answers, true, Feeder(dag, id, k));
      InputIsSound(how, host, dag, answers, true, id, k);
    }
  }

  /** The declared output schema promises the types of the compiled one, and may only be more permissive on null. */
  lemma PromisedRows(how: Precision, rows: seq<Row>, declared: Shape, compiled: Shape)
    requires Promised(declared, compiled) && Flat(compiled) && RowsHave(how, rows, compiled)
    ensures RowsHave(how, rows, declared)
  {
    hide ValidSchema, FitsType;
    PromisedNames(declared, compiled);
    forall row | row in rows
      ensures RowHas(how, row, declared)
    {
      forall p | p in declared
        ensures Fits(how, p.ty, p.nullable, row[p.name])
      {
        LookupInNames(compiled, p.name);
        var f := Lookup(compiled, p.name).value;
        UniqueDeclared(declared);
        LookupUnique(declared, p);
      }
    }
  }

  lemma UniqueDeclared(declared: Shape)
    requires ValidSchema(declared, false)
    ensures Unique(declared)
  {
  }

  lemma PromisedNames(declared: Shape, compiled: Shape)
    requires Promised(declared, compiled) && Unique(compiled)
    ensures Names(declared) == Names(compiled)
  {
    UniqueDeclared(declared);
    NamesCount(declared);
    NamesCount(compiled);
    hide ValidSchema;
    forall name | name in Names(compiled)
      ensures name in Names(declared)
    {
      var f :| f in compiled && f.name == name;
      LookupInNames(declared, name);
    }
    SubsetOfSameSize(Names(compiled), Names(declared));
  }

  /** A steady plan over readable answers does not fail. */
  lemma SteadyNeverFails(host: Host, dag: Dag, answers: Answers, id: string, e: Error)
    requires WellFormed(host, dag) && Wired(dag) && Acyclic(dag)
    requires FaithfulPlan(ByValue, host, dag) && ProviderFits(ByValue, dag, answers)
    requires Known(dag.nodes, OutputId(dag)) && ShapeOf(host, dag, OutputId(dag)).Success?
    requires LiveRun.NodeFails(host, dag, answers, id, e)
    ensures !(SteadyPlan(host, dag) && AllAnswer(dag, answers))
  {
    hide WellFormed, Wired, Acyclic, Find, FaithfulPlan, ProviderFits, SteadyPlan, AllAnswer, LiveRun.NodeFails,
      Meaning;
    WellFormedParts(host, dag);
    RunFailsOnlyIfMeaningFails(host, dag, answers, id, e);
    if SteadyPlan(host, dag) && AllAnswer(dag, answers) {
      SteadyPlanSucceeds(host, dag, answers, false, OutputId(dag));
    }
  }

  /** Deployment end to end: a plan the compiler passed, run by the live executor over sources that fetch what was
      planned for them, page by page, from providers whose entities have the declared types in the fields that are
      read. What it returns are rows with exactly the declared output columns, and they are what the plan means on
      the whole provider rows; otherwise it fails with an unreadable value or a provider error, and only where the
      plan has no strict meaning; a steady plan fails only where a provider does. */
  method RunCompiled(ghost how: Precision, host: Host, dag: Dag, declared: Shape, graph: LiveGraph)
      returns (r: Try<LiveResult>)
    requires Compiles(host, dag, declared) && Wired(dag) && Acyclic(dag) && graph.log == []
    requires FaithfulPlan(how, host, dag) && Planned(dag, graph.feeds) && SharedReads(dag)
             && FeedsFit(how, dag, graph.feeds)
    modifies graph
    ensures Known(dag.nodes, OutputId(dag))
    ensures r.Success? ==> RowsHave(how, r.value.rows, declared)
    ensures r.Success? ==>
              var meaning := Denote(host, dag, FullAnswers(graph.feeds), true, OutputId(dag));
              meaning.Success? && r.value.rows == meaning.value.rows
    ensures r.Success? ==> FetchedOnce(dag, graph.log, set n | n in dag.nodes :: n.id)
    ensures r.Failure? ==> r.error.BadValue? || r.error.Unavailable?
    ensures r.Failure? ==> Denote(host, dag, FullAnswers(graph.feeds), false, OutputId(dag)).Failure?
    ensures how.ByValue? && SteadyPlan(host, dag) && AllAnswer(dag, RowAnswers(graph.feeds)) ==> r.Success?
  {
    hide Wired, Acyclic, Find, WellFormed, FaithfulPlan, ProviderFits, RowsHave, Meaning, RowAnswers, FullAnswers,
      Promised, LiveRun.NodeFails, FetchedOnce, SharedReads,
      TotalsOf, Flat, Sufficient, FeedsFit, Planned, SteadyPlan, AllAnswer;
    WellFormedParts(host, dag);
    ghost var answers := RowAnswers(graph.feeds);
    PlanIsSufficientExactly(dag, graph.feeds);
    FetchedRowsFit(how, host, dag, graph.feeds);
    OutputIsNode(dag);
    OutputKind(host, dag);
    ghost var failing;
    r, failing := ExecuteLivePlan(host, dag, graph);
    if r.Success? {
      PrunedPlanMeansTheSame(host, dag, graph.feeds, true, OutputId(dag));
      PlanSound(how, host, dag, answers, true, OutputId(dag));
      PromisedRows(how, r.value.rows, declared, ShapeOf(host, dag, OutputId(dag)).value);
    } else {
      RunFailsOnlyIfMeaningFails(host, dag, answers, failing, r.error);
      PrunedPlanMeansTheSame(host, dag, graph.feeds, false, OutputId(dag));
      FailingIsKnown(host, dag, answers, failing, r.error);
      AllShapes(host, dag, failing);
      FailureIsBadValue(how, host, dag, answers, failing, r.error);
      if how.ByValue? {
        SteadyNeverFails(host, dag, answers, failing, r.error);
      }
    }
  }

  lemma FailingIsKnown(host: Host, dag: Dag, answers: Answers, id: string, e: Error)
    requires Wired(dag) && Acyclic(dag) && LiveRun.NodeFails(host, dag, answers, id, e)
    ensures Known(dag.nodes, id)
  {
    hide Wired, Acyclic, Find, Run, Meaning;
  }

  lemma OutputKind(host: Host, dag: Dag)
    requires WellFormed(host, dag) && Known(dag.nodes, OutputId(dag))
    ensures NodeOf(dag, OutputId(dag)).op.Output?
  {
    hide Acyclic, Leads, SourceOk, IsNodeId, Version, Feeders, ConnectionOk, Outputs, Find;
    OutputIsNode(dag);
    FindUnique(dag.nodes, Outputs(dag.nodes)[0]);
  }
}
