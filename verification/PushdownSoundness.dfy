/** What an accepted pushdown means: filtering by the provider query before the boundary Map is filtering
    by the local filters after it. */
module PushdownSoundness {
  import opened Wrappers
  import opened Values
  import opened Ordering
  import opened Filtering
  import opened Expressions
  import opened ExpressionSoundness
  import opened Maps
  import opened Operators
  import opened Pushdown
  import OperatorSoundness

  // ---------------------------------------------------------------- the provider

  /** The value a provider entity stores at a path. */
  ghost function Stored(row: Row, path: string): Value {
    match ReadPath(row, path)
    case Success(v) => v
    case Failure(_) => Null
  }

  /** One comparison of the provider. It orders the values of a field by their keys, as the local filters do,
      and no comparison holds of null. */
  ghost predicate Compares(host: Host, ty: FieldType, op: FilterOp, v: Value, literal: Value) {
    !Missing(v) &&
    match op
    case In => literal.List? && exists item | item in literal.items ::
      KeyCompare(KeyOf(host, ty, v), KeyOf(host, ty, item)) == 0
    case NotIn => literal.List? && forall item | item in literal.items ::
      KeyCompare(KeyOf(host, ty, v), KeyOf(host, ty, item)) != 0
    case _ => Decides(op, KeyCompare(KeyOf(host, ty, v), KeyOf(host, ty, literal)))
  }

  predicate Decides(op: FilterOp, comparison: int) {
    match op
    case Eq => comparison == 0
    case Ne => comparison != 0
    case Lt => comparison < 0
    case Lte => comparison <= 0
    case Gt => comparison > 0
    case _ => comparison >= 0
  }

  predicate Prints(name: string, f: Field, op: FilterOp) {
    Suffix(op).Some? && name == f.name + Suffix(op).value
  }

  /** A named comparison of the where clause, read as a field of the schema followed by an operator suffix. */
  ghost predicate AtomTrue(host: Host, schema: Shape, row: Row, a: Atom) {
    exists f: Field, op: FilterOp | f in schema && Prints(a.name, f, op) ::
      Compares(host, f.ty, op, Stored(row, f.name), a.literal)
  }

  ghost predicate GroupTrue(host: Host, schema: Shape, row: Row, g: Group) {
    forall a | a in g :: AtomTrue(host, schema, row, a)
  }

  ghost predicate AnyTrue(host: Host, schema: Shape, row: Row, groups: seq<Group>) {
    exists g | g in groups :: GroupTrue(host, schema, row, g)
  }

  predicate EndsWith(s: string, suffix: string) {
    |suffix| <= |s| && s[|s| - |suffix|..] == suffix
  }

  /** No provider field reads like a comparison of another one. */
  ghost predicate NoOperatorSuffix(schema: Shape) {
    forall f, op: FilterOp | f in schema && Suffix(op).Some? && Suffix(op).value != "" ::
      !EndsWith(f.name, Suffix(op).value)
  }

  lemma SuffixesApart(op: FilterOp, other: FilterOp)
    requires Suffix(op).Some? && Suffix(other).Some? && op != other
    ensures Suffix(op).value != Suffix(other).value
    ensures Suffix(op).value != "" && EndsWith(Suffix(other).value, Suffix(op).value) ==>
              op.In? && other.NotIn? && Suffix(other).value == "_not" + Suffix(op).value
  {
    var a, b := Suffix(op).value, Suffix(other).value;
    match op
    case Eq =>
    case Ne => assert a[|a| - 1] == 't' && a[|a| - 2] == 'o';
    case Lt => assert a[|a| - 1] == 't' && a[|a| - 2] == 'l';
    case Lte => assert a[|a| - 1] == 'e' && a[|a| - 3] == 'l';
    case Gt => assert a[|a| - 1] == 't' && a[|a| - 2] == 'g';
    case Gte => assert a[|a| - 1] == 'e' && a[|a| - 3] == 'g';
    case In => assert a[|a| - 1] == 'n';
    case NotIn => assert a[|a| - 1] == 'n' && |a| == 7;
  }

  lemma TailOf(f: string, a: string, g: string, b: string)
    requires f + a == g + b && |a| <= |b|
    ensures EndsWith(b, a) && f == g + b[..|b| - |a|]
  {
    var cut := |b| - |a|;
    assert (f + a)[|f|..] == a && (g + b)[|f|..] == b[cut..];
    assert (f + a)[..|f|] == f && (g + b)[..|f|] == g + b[..cut];
  }

  /** Two different comparisons print alike only if one of the fields itself ends in a suffix. */
  lemma ClashEnds(f: string, op: FilterOp, g: string, other: FilterOp)
    requires Suffix(op).Some? && Suffix(other).Some? && op != other && |Suffix(op).value| <= |Suffix(other).value|
    requires f + Suffix(op).value == g + Suffix(other).value
    ensures Suffix(other).value != ""
    ensures EndsWith(f, Suffix(other).value) || EndsWith(f, "_not")
  {
    var a, b := Suffix(op).value, Suffix(other).value;
    SuffixesApart(op, other);
    TailOf(f, a, g, b);
    if a == "" {
      assert b[..|b|] == b && f[|g|..] == b;
    } else {
      assert b[..4] == "_not" && f[|g|..] == "_not";
    }
  }

  lemma PrintsOnce(schema: Shape, name: string, f: Field, op: FilterOp, g: Field, other: FilterOp)
    requires NoOperatorSuffix(schema) && f in schema && g in schema && Prints(name, f, op) && Prints(name, g, other)
    requires |Suffix(op).value| <= |Suffix(other).value|
    ensures f.name == g.name && op == other
  {
    hide EndsWith;
    assert Suffix(Ne) == Some("_not");
    if op != other {
      ClashEnds(f.name, op, g.name, other);
    } else {
      TailOf(f.name, Suffix(op).value, g.name, Suffix(other).value);
      assert g.name + Suffix(op).value[..0] == g.name;
    }
  }

  /** A printed comparison reads back as the comparison it was printed from. */
  lemma AtomIs(host: Host, schema: Shape, row: Row, f: Field, op: FilterOp, literal: Value)
    requires Unique(schema) && NoOperatorSuffix(schema) && f in schema && Suffix(op).Some?
    ensures AtomTrue(host, schema, row, Atom(f.name + Suffix(op).value, literal)) <==>
            Compares(host, f.ty, op, Stored(row, f.name), literal)
  {
    hide NoOperatorSuffix, Suffix, Compares;
    var name := f.name + Suffix(op).value;
    assert Prints(name, f, op);
    forall g: Field, other: FilterOp | g in schema && Prints(name, g, other)
      ensures g == f && other == op
    {
      if |Suffix(op).value| <= |Suffix(other).value| {
        PrintsOnce(schema, name, f, op, g, other);
      } else {
        PrintsOnce(schema, name, g, other, f, op);
      }
      LookupUnique(schema, f);
      LookupUnique(schema, g);
    }
  }

  // ---------------------------------------------------------------- the where clause

  /** A field of a where object, on a row: a comparison, or a relationship whose fields all hold. */
  ghost predicate FieldHolds(host: Host, schema: Shape, row: Row, field: GqlField, prefix: string)
    decreases field, 1
  {
    if field.value.ObjectNode? then
      field.name != "" && field.name[|field.name| - 1] == '_'
      && ObjectHolds(host, schema, row, field.value.fields, Within(prefix, field.name[..|field.name| - 1]))
    else
      var literal := GraphLiteral(field.value);
      literal.Some? && AtomTrue(host, schema, row, Atom(Within(prefix, field.name), literal.value))
  }

  ghost predicate ObjectHolds(host: Host, schema: Shape, row: Row, fields: seq<GqlField>, prefix: string)
    decreases fields, 0
  {
    fields == [] || (FieldHolds(host, schema, row, fields[0], prefix)
      && ObjectHolds(host, schema, row, fields[1..], prefix))
  }

  /** A top-level or branch field; the pagination cursor holds of the rows past it. */
  ghost predicate BranchHolds(host: Host, schema: Shape, row: Row, past: bool, branch: Gql) {
    branch.ObjectNode? && forall f | f in branch.fields :: if f.name == CURSOR then past
      else FieldHolds(host, schema, row, f, "")
  }

  ghost predicate TopHolds(host: Host, schema: Shape, row: Row, past: bool, f: GqlField) {
    if f.name == CURSOR then past
    else if f.name == "or" then f.value.ListNode?
      && exists branch | branch in f.value.items :: BranchHolds(host, schema, row, past, branch)
    else if f.name == "and" then f.value.ListNode?
      && forall branch | branch in f.value.items :: BranchHolds(host, schema, row, past, branch)
    else FieldHolds(host, schema, row, f, "")
  }

  /** The provider returns exactly the rows on which every field of the where object holds. */
  ghost predicate WhereHolds(host: Host, schema: Shape, row: Row, past: bool, where: Gql) {
    where.ObjectNode? && forall f | f in where.fields :: TopHolds(host, schema, row, past, f)
  }

  lemma {:induction false} ObjectHoldsAll(host: Host, schema: Shape, row: Row, fields: seq<GqlField>, prefix: string)
    ensures ObjectHolds(host, schema, row, fields, prefix) <==>
            forall f | f in fields :: FieldHolds(host, schema, row, f, prefix)
  {
    if fields != [] {
      ObjectHoldsAll(host, schema, row, fields[1..], prefix);
      assert fields[0] in fields && forall f :: f in fields <==> f == fields[0] || f in fields[1..];
    }
  }

  lemma GroupAppend(host: Host, schema: Shape, row: Row, g: Group, h: Group)
    ensures GroupTrue(host, schema, row, g + h) <==> GroupTrue(host, schema, row, g) && GroupTrue(host, schema, row, h)
  {
    hide AtomTrue;
    assert forall a :: a in g + h <==> a in g || a in h;
  }

  lemma GroupOne(host: Host, schema: Shape, row: Row, a: Atom)
    ensures GroupTrue(host, schema, row, [a]) <==> AtomTrue(host, schema, row, a)
  {
    hide AtomTrue;
    assert a in [a];
  }

  lemma {:induction false} GraphFieldTrue(host: Host, schema: Shape, row: Row, field: GqlField, prefix: string,
      depth: nat)
    requires GraphField(field, prefix, depth).Some?
    ensures GroupTrue(host, schema, row, GraphField(field, prefix, depth).value) <==>
            FieldHolds(host, schema, row, field, prefix)
    decreases field, 1
  {
    hide AtomTrue, GroupTrue, IsName;
    if field.value.ObjectNode? {
      GraphFieldsTrue(host, schema, row, field.value.fields, Within(prefix, field.name[..|field.name| - 1]), depth + 1);
    } else {
      GroupOne(host, schema, row, Atom(Within(prefix, field.name), GraphLiteral(field.value).value));
    }
  }

  lemma {:induction false} GraphFieldsTrue(host: Host, schema: Shape, row: Row, fields: seq<GqlField>, prefix: string,
      depth: nat)
    requires GraphFields(fields, prefix, depth).Some?
    ensures GroupTrue(host, schema, row, GraphFields(fields, prefix, depth).value) <==>
            ObjectHolds(host, schema, row, fields, prefix)
    decreases fields, 0
  {
    if fields != [] {
      hide AtomTrue, GroupTrue, FieldHolds, GraphField;
      GraphFieldTrue(host, schema, row, fields[0], prefix, depth);
      GraphFieldsTrue(host, schema, row, fields[1..], prefix, depth);
      GroupAppend(host, schema, row, GraphField(fields[0], prefix, depth).value,
        GraphFields(fields[1..], prefix, depth).value);
    }
  }

  lemma {:induction false} BranchesTrue(host: Host, schema: Shape, row: Row, branches: seq<Gql>, common: Group)
    requires BranchGroups(branches, common).Some?
    ensures AnyTrue(host, schema, row, BranchGroups(branches, common).value) <==>
              GroupTrue(host, schema, row, common)
                && exists branch | branch in branches :: BranchHolds(host, schema, row, true, branch)
  {
    if branches != [] {
      hide GroupTrue, FieldHolds, GraphFields;
      var fields := Without(branches[0].fields, CURSOR);
      var head, tail := GraphFields(fields, "", 0).value, BranchGroups(branches[1..], common).value;
      BranchesTrue(host, schema, row, branches[1..], common);
      GraphFieldsTrue(host, schema, row, fields, "", 0);
      ObjectHoldsAll(host, schema, row, fields, "");
      GroupAppend(host, schema, row, common, head);
      assert branches == [branches[0]] + branches[1..];
      AnyAppend(host, schema, row, [common + head], tail);
      assert BranchHolds(host, schema, row, true, branches[0]) <==> GroupTrue(host, schema, row, head);
    }
  }

  lemma AnyAppend(host: Host, schema: Shape, row: Row, a: seq<Group>, b: seq<Group>)
    ensures AnyTrue(host, schema, row, a + b) <==> AnyTrue(host, schema, row, a) || AnyTrue(host, schema, row, b)
    ensures |a| == 1 ==> (AnyTrue(host, schema, row, a) <==> GroupTrue(host, schema, row, a[0]))
  {
    hide GroupTrue;
    assert forall g :: g in a + b <==> g in a || g in b;
    if |a| == 1 {
      assert a == [a[0]];
    }
  }

  /** Some group, and none of them empty. */
  predicate Full(groups: seq<Group>) {
    groups != [] && forall g | g in groups :: g != []
  }

  /** The groups of a query are the where clause, unless they are the empty group of an unsupported one. */
  lemma QueryTrue(host: Host, schema: Shape, row: Row, where: Option<Gql>)
    requires QueryGroups(where).Some? && Full(QueryGroups(where).value)
    ensures AnyTrue(host, schema, row, QueryGroups(where).value) <==> WhereHolds(host, schema, row, true, where.value)
  {
    hide GroupTrue, FieldHolds, GraphFields, BranchGroups, ObjectHolds, BranchHolds;
    var fields := where.value.fields;
    var predicates := Without(fields, CURSOR);
    var disjunctions := Named(predicates, "or");
    if disjunctions != [] {
      var rest := Without(predicates, "or");
      var common := GraphFields(rest, "", 0).value;
      OneDisjunction(host, schema, row, where.value);
      GraphFieldsTrue(host, schema, row, rest, "", 0);
      ObjectHoldsAll(host, schema, row, rest, "");
      BranchesTrue(host, schema, row, disjunctions[0].value.items, common);
    } else {
      var g := GraphFields(predicates, "", 0).GetOr([]);
      assert g in QueryGroups(where).value;
      NoDisjunction(host, schema, row, where.value);
      GraphFieldsTrue(host, schema, row, predicates, "", 0);
      ObjectHoldsAll(host, schema, row, predicates, "");
      AnyAppend(host, schema, row, [g], []);
      assert [g] + [] == [g];
    }
  }

  lemma NoDisjunction(host: Host, schema: Shape, row: Row, where: Gql)
    requires where.ObjectNode? && var predicates := Without(where.fields, CURSOR);
             Named(predicates, "or") == []
             && Named(predicates, "and") == []
    ensures WhereHolds(host, schema, row, true, where) <==>
            forall f | f in Without(where.fields, CURSOR) :: FieldHolds(host, schema, row, f, "")
  {
    hide FieldHolds, BranchHolds;
    var predicates := Without(where.fields, CURSOR);
    forall f | f in where.fields && f.name != CURSOR
      ensures f in predicates && (TopHolds(host, schema, row, true, f) <==> FieldHolds(host, schema, row, f, ""))
    {
      assert f !in Named(predicates, "or") && f !in Named(predicates, "and");
    }
  }

  lemma OneDisjunction(host: Host, schema: Shape, row: Row, where: Gql)
    requires where.ObjectNode?
    requires var predicates := Without(where.fields, CURSOR);
             |Named(predicates, "or")| == 1 && Named(predicates, "and") == []
               && Named(predicates, "or")[0].value.ListNode?
    ensures var predicates := Without(where.fields, CURSOR);
            WhereHolds(host, schema, row, true, where) <==>
              && (forall f | f in Without(predicates, "or") :: FieldHolds(host, schema, row, f, ""))
              && exists branch | branch in Named(predicates, "or")[0].value.items ::
                BranchHolds(host, schema, row, true, branch)
  {
    hide FieldHolds, BranchHolds, Without, Named;
    var predicates := Without(where.fields, CURSOR);
    var disjunction := Named(predicates, "or")[0];
    assert disjunction in Named(predicates, "or");
    forall f | f in where.fields && f.name != CURSOR
      ensures f.name == "or" ==> f == disjunction
      ensures f.name != "or" ==>
              f in Without(predicates, "or")
              && (TopHolds(host, schema, row, true, f) <==> FieldHolds(host, schema, row, f, ""))
    {
      assert f !in Named(predicates, "and");
      if f.name == "or" {
        assert f in Named(predicates, "or");
      }
    }
    assert TopHolds(host, schema, row, true, disjunction) <==>
             exists branch | branch in disjunction.value.items :: BranchHolds(host, schema, row, true, branch);
    hide TopHolds;
    assert WhereHolds(host, schema, row, true, where) <==>
             forall f | f in where.fields && f.name != CURSOR :: TopHolds(host, schema, row, true, f) by {
      CursorHolds(host, schema, row, where.fields);
    }
  }

  lemma CursorHolds(host: Host, schema: Shape, row: Row, fields: seq<GqlField>)
    ensures forall f | f in fields && f.name == CURSOR :: TopHolds(host, schema, row, true, f)
  {
  }

  // ---------------------------------------------------------------- equal canonical forms

  lemma Counterpart(s: Sorter, a: seq<Group>, b: seq<Group>, g: Group) returns (h: Group)
    requires Sorts(s) && CanonicalGroups(s, a) == CanonicalGroups(s, b) && g in a
    ensures h in b && multiset(h) == multiset(g)
  {
    var x, y := SortEach(s, a), SortEach(s, b);
    assert multiset(x) == multiset(s.groups(x)) == multiset(s.groups(y)) == multiset(y);
    var i :| 0 <= i < |a| && a[i] == g;
    assert x[i] in multiset(x);
    assert x[i] in multiset(y);
    var j :| 0 <= j < |y| && y[j] == x[i];
    h := b[j];
    assert multiset(s.atoms(g)) == multiset(g) && multiset(s.atoms(h)) == multiset(h);
  }

  lemma SameAtoms(host: Host, schema: Shape, row: Row, g: Group, h: Group)
    requires multiset(g) == multiset(h)
    ensures GroupTrue(host, schema, row, g) <==> GroupTrue(host, schema, row, h)
    ensures g == [] <==> h == []
  {
    hide AtomTrue;
    assert forall a :: a in g <==> a in multiset(g);
    assert forall a :: a in h <==> a in multiset(h);
    assert |multiset(g)| == |g| && |multiset(h)| == |h|;
  }

  /** Equal canonical forms: the same truth on every row, and the same empty groups. */
  lemma CanonicalTruth(host: Host, schema: Shape, row: Row, s: Sorter, a: seq<Group>, b: seq<Group>)
    requires Sorts(s) && CanonicalGroups(s, a) == CanonicalGroups(s, b)
    ensures AnyTrue(host, schema, row, a) ==> AnyTrue(host, schema, row, b)
    ensures Full(b) ==> Full(a)
  {
    hide GroupTrue, Sorts, CanonicalGroups;
    forall g | g in a
      ensures exists h | h in b ::
              (GroupTrue(host, schema, row, g) <==> GroupTrue(host, schema, row, h))
              && (g == [] <==> h == [])
    {
      var h := Counterpart(s, a, b, g);
      SameAtoms(host, schema, row, g, h);
    }
    if Full(b) {
      var h := Counterpart(s, b, a, b[0]);
    }
  }

  // ---------------------------------------------------------------- one condition

  /** A mapped field that copies a provider path, on one row. */
  ghost predicate Copies(schema: Shape, shape: Shape, raw: Row, mapped: Row, name: string, path: string) {
    && name in mapped && ReadPath(raw, path) == Success(mapped[name])
    && Lookup(schema, path).Some? && Lookup(shape, name).Some?
    && Lookup(schema, path).value.ty == Lookup(shape, name).value.ty
  }

  lemma {:induction false} SomeEqualIs(host: Host, ty: FieldType, actual: Value, values: seq<Value>)
    requires SomeEqual(host, ty, actual, values).Success?
    ensures SomeEqual(host, ty, actual, values).value <==>
              exists item | item in values :: KeyCompare(KeyOf(host, ty, actual), KeyOf(host, ty, item)) == 0
  {
    if values != [] {
      hide CompareSemanticValues, KeyOf, KeyCompare;
      ComparisonIsKeyOrder(host, ty, actual, values[0]);
      assert values == [values[0]] + values[1..] && values[0] in values;
      if CompareSemanticValues(host, ty, actual, values[0]).value != 0 {
        SomeEqualIs(host, ty, actual, values[1..]);
      }
    }
  }

  /** A comparison that answers is the provider's. */
  lemma ConditionCompares(host: Host, mapped: Row, c: Condition, f: Field)
    requires c.field in mapped && EvaluateCondition(host, mapped, c, f).Success? && Suffix(c.op).Some?
    requires if c.op.In? || c.op.NotIn? then c.values.Some? else c.value.Some?
    ensures EvaluateCondition(host, mapped, c, f).value <==>
              Compares(host, f.ty, c.op, mapped[c.field], if c.op.In? || c.op.NotIn? then List(c.values.value)
                else c.value.value)
  {
    hide CompareSemanticValues, KeyOf, KeyCompare, SomeEqual;
    var actual := mapped[c.field];
    if !Missing(actual) {
      if c.op.In? || c.op.NotIn? {
        SomeEqualIs(host, f.ty, actual, c.values.value);
      } else {
        ComparisonIsKeyOrder(host, f.ty, actual, c.value.value);
      }
    }
  }

  lemma BetweenCompares(host: Host, mapped: Row, c: Condition, f: Field)
    requires c.field in mapped && EvaluateCondition(host, mapped, c, f).Success?
    requires c.op.Between? && c.values.Some? && |c.values.value| == 2
    ensures EvaluateCondition(host, mapped, c, f).value <==>
              && Compares(host, f.ty, Gte, mapped[c.field], c.values.value[0])
              && Compares(host, f.ty, Lte, mapped[c.field], c.values.value[1])
  {
    hide CompareSemanticValues, KeyOf, KeyCompare;
    var actual := mapped[c.field];
    if !Missing(actual) {
      ComparisonIsKeyOrder(host, f.ty, actual, c.values.value[0]);
      ComparisonIsKeyOrder(host, f.ty, actual, c.values.value[1]);
    }
  }

  /** A pushed condition: evaluated on the mapped row it is the atoms on the provider row. */
  lemma ConditionTrue(host: Host, schema: Shape, shape: Shape, raw: Row, mapped: Row, config: MapConfig,
      evidence: seq<Evidence>, c: Condition)
    requires Unique(schema) && NoOperatorSuffix(schema)
    requires ConditionAtoms(c, config, evidence).Some?
    requires Copies(schema, shape, raw, mapped, c.field, ProviderField(config, c.field, evidence).value)
    requires EvaluateCondition(host, mapped, c, Lookup(shape, c.field).value).Success?
    ensures EvaluateCondition(host, mapped, c, Lookup(shape, c.field).value).value <==>
              GroupTrue(host, schema, raw, ConditionAtoms(c, config, evidence).value)
  {
    hide NoOperatorSuffix, AtomTrue, GroupTrue, Compares, EvaluateCondition, ProviderField;
    var path := ProviderField(config, c.field, evidence).value;
    var source := Lookup(schema, path).value;
    var atoms := ConditionAtoms(c, config, evidence).value;
    if c.op.Between? {
      BetweenCompares(host, mapped, c, Lookup(shape, c.field).value);
      AtomIs(host, schema, raw, source, Gte, c.values.value[0]);
      AtomIs(host, schema, raw, source, Lte, c.values.value[1]);
      assert atoms == [atoms[0]] + [atoms[1]];
      GroupAppend(host, schema, raw, [atoms[0]], [atoms[1]]);
      GroupOne(host, schema, raw, atoms[0]);
      GroupOne(host, schema, raw, atoms[1]);
    } else {
      ConditionCompares(host, mapped, c, Lookup(shape, c.field).value);
      AtomIs(host, schema, raw, source, c.op, atoms[0].literal);
      GroupOne(host, schema, raw, atoms[0]);
    }
  }

  // ---------------------------------------------------------------- predicate filters

  /** Every field that a filter condition pushes is copied by the boundary Map on this row. */
  ghost predicate Mapped(host: Host, schema: Shape, shape: Shape, config: MapConfig, raw: Row, mapped: Row) {
    forall name, path | DefinitionOf(config.fields, name).Some?
      && DefinitionOf(config.fields, name).value.expr == FieldRef(path) ::
      Copies(schema, shape, raw, mapped, name, path)
  }

  lemma {:induction false} ConditionsTrue(host: Host, schema: Shape, shape: Shape, raw: Row, mapped: Row,
      config: MapConfig, evidence: seq<Evidence>, conditions: seq<Condition>)
    requires Unique(schema) && NoOperatorSuffix(schema) && Mapped(host, schema, shape, config, raw, mapped)
    requires AllAtoms(conditions, config, evidence).Some?
             && EvaluateConditions(host, mapped, conditions, shape).Success?
    ensures var groups, results := AllAtoms(conditions, config, evidence).value,
            EvaluateConditions(host, mapped, conditions, shape).value;
            && |groups| == |results| == |conditions|
            && forall i | 0 <= i < |groups| :: results[i] <==> GroupTrue(host, schema, raw, groups[i])
  {
    if conditions != [] {
      hide NoOperatorSuffix, GroupTrue, EvaluateCondition;
      var c := conditions[0];
      var path := ProviderField(config, c.field, evidence).value;
      assert Copies(schema, shape, raw, mapped, c.field, path);
      ConditionTrue(host, schema, shape, raw, mapped, config, evidence, c);
      ConditionsTrue(host, schema, shape, raw, mapped, config, evidence, conditions[1..]);
    }
  }

  lemma {:induction false} FlatTrue(host: Host, schema: Shape, row: Row, groups: seq<Group>)
    ensures GroupTrue(host, schema, row, Pushdown.Flat(groups)) <==>
            forall g | g in groups :: GroupTrue(host, schema, row, g)
  {
    if groups != [] {
      GroupAppend(host, schema, row, groups[0], Pushdown.Flat(groups[1..]));
      hide GroupTrue;
      FlatTrue(host, schema, row, groups[1..]);
      assert groups[0] in groups && forall g :: g in groups <==> g == groups[0] || g in groups[1..];
    } else {
      assert GroupTrue(host, schema, row, []);
    }
  }

  lemma PredicateTrue(host: Host, schema: Shape, shape: Shape, raw: Row, mapped: Row, config: MapConfig,
      evidence: seq<Evidence>, p: Predicate)
    requires Unique(schema) && NoOperatorSuffix(schema) && Mapped(host, schema, shape, config, raw, mapped)
    requires PredicateGroups(p, config, evidence).Some? && KeepRow(host, p, shape, mapped).Success?
    ensures KeepRow(host, p, shape, mapped).value <==>
            AnyTrue(host, schema, raw, PredicateGroups(p, config, evidence).value)
  {
    hide NoOperatorSuffix, GroupTrue, Mapped, EvaluateConditions, AllAtoms;
    ConditionsTrue(host, schema, shape, raw, mapped, config, evidence, p.conditions);
    var groups, results := AllAtoms(p.conditions, config, evidence).value,
      EvaluateConditions(host, mapped, p.conditions, shape).value;
    FlatTrue(host, schema, raw, groups);
    AnyAppend(host, schema, raw, [Pushdown.Flat(groups)], []);
    assert [Pushdown.Flat(groups)] + [] == [Pushdown.Flat(groups)];
    ResultsAreGroups(host, schema, raw, groups, results);
  }

  lemma ResultsAreGroups(host: Host, schema: Shape, row: Row, groups: seq<Group>, results: seq<bool>)
    requires |groups| == |results| && forall i | 0 <= i < |groups| :: results[i] <==>
             GroupTrue(host, schema, row, groups[i])
    ensures Combine(All, results) <==> forall g | g in groups :: GroupTrue(host, schema, row, g)
    ensures Combine(Any, results) <==> AnyTrue(host, schema, row, groups)
  {
    hide GroupTrue;
    if !Combine(All, results) {
      var i :| 0 <= i < |results| && !results[i];
      assert groups[i] in groups;
    }
    if Combine(Any, results) {
      var i :| 0 <= i < |results| && results[i];
      assert groups[i] in groups;
    }
    if AnyTrue(host, schema, row, groups) {
      var g :| g in groups && GroupTrue(host, schema, row, g);
      var i :| 0 <= i < |groups| && groups[i] == g;
      assert results[i] in results;
    }
    if Combine(All, results) {
      forall g | g in groups
        ensures GroupTrue(host, schema, row, g)
      {
        var i :| 0 <= i < |groups| && groups[i] == g;
        assert results[i] in results;
      }
    }
  }

  // ---------------------------------------------------------------- expression filters

  /** The type at which a comparison of two compatible types is decided. */
  function Merged2(a: FieldType, b: FieldType): FieldType {
    if Numeric(a) && Numeric(b) then (if a.DecimalType? || b.DecimalType? then DecimalType else IntegerType)
    else if Textual(a) && Textual(b) then (if a == b then a else StringType)
    else a
  }

  /** A field compared with a literal of this type is compared as the provider compares the field. */
  predicate ComparedAlike(field: FieldType, literal: FieldType) {
    || literal == field
    || (field.DecimalType? && literal.IntegerType?)
    || ((field.StringType? || field.IdType? || field.BytesType?) && Textual(literal))
  }

  lemma AlikeKeys(host: Host, field: FieldType, literal: FieldType, v: Value)
    requires Compatible(field, literal) && ComparedAlike(field, literal)
    ensures KeyOf(host, Merged2(field, literal), v) == KeyOf(host, field, v)
    ensures Merged2(literal, field) == Merged2(field, literal)
  {
  }

  lemma MergedPair(a: Typing, b: Typing)
    requires Compatible(a.ty, b.ty)
    ensures MergedType([a, b]).GetOr(a.ty) == Merged2(a.ty, b.ty)
  {
    var inputs := [a, b];
    assert inputs[0] in inputs && inputs[1] in inputs && forall t :: t in inputs <==> t == a || t == b;
  }

  lemma ComparisonSides(host: Host, e: Expr, shape: Shape)
    requires e.Apply? && e.op.Compare? && |e.inputs| == 2 && InferExpression(host, e, shape).Success?
    ensures InferExpression(host, e.inputs[0], shape).Success? && InferExpression(host, e.inputs[1], shape).Success?
    ensures var a, b := InferExpression(host, e.inputs[0], shape).value,
            InferExpression(host, e.inputs[1], shape).value;
            Compatible(a.ty, b.ty) && MergedType([a, b]).GetOr(a.ty) == Merged2(a.ty, b.ty)
  {
    hide MergedType;
    InputAccepted(host, e, shape, 0);
    InputAccepted(host, e, shape, 1);
    var typings := InferAll(host, e.inputs, shape).value;
    MergedPair(typings[0], typings[1]);
  }

  lemma TwoValues(host: Host, es: seq<Expr>, row: Row, shape: Shape)
    requires |es| == 2 && EvaluateAll(host, es, row, shape).Success?
    ensures Evaluate(host, es[0], row, shape).Success? && Evaluate(host, es[1], row, shape).Success?
    ensures EvaluateAll(host, es, row, shape).value ==
            [Evaluate(host, es[0], row, shape).value, Evaluate(host, es[1], row, shape).value]
  {
    assert es[1..][0] == es[1] && es[1..][1..] == [];
  }

  lemma KeyCompareSwaps(a: Key, b: Key)
    ensures KeyCompare(b, a) == -KeyCompare(a, b)
  {
    KeyOrder(a, b);
  }

  /** When a comparison of two non-null values is true. */
  lemma ComparisonEvaluates(host: Host, e: Expr, row: Row, shape: Shape, m: FieldType)
    requires e.Apply? && e.op.Compare? && |e.inputs| == 2 && InferExpression(host, e, shape).Success?
    requires InferExpression(host, e.inputs[0], shape).Success? && InferExpression(host, e.inputs[1], shape).Success?
    requires m == Merged2(InferExpression(host, e.inputs[0], shape).value.ty,
             InferExpression(host, e.inputs[1], shape).value.ty)
    requires Evaluate(host, e, row, shape).Success?
    ensures Evaluate(host, e.inputs[0], row, shape).Success? && Evaluate(host, e.inputs[1], row, shape).Success?
    ensures var a, b := Evaluate(host, e.inputs[0], row, shape).value, Evaluate(host, e.inputs[1], row, shape).value;
            Evaluate(host, e, row, shape).value == Bool(true) <==>
              !Missing(a) && !Missing(b) && Holds(e.op.comparison, KeyCompare(KeyOf(host, m, a), KeyOf(host, m, b)))
  {
    hide InferExpression, CompareSemanticValues, KeyOf, KeyCompare, MergedType, Merged2;
    ComparisonSides(host, e, shape);
    TwoValues(host, e.inputs, row, shape);
    var a, b := Evaluate(host, e.inputs[0], row, shape).value, Evaluate(host, e.inputs[1], row, shape).value;
    var values := EvaluateAll(host, e.inputs, row, shape).value;
    assert values[0] in values && values[1] in values && forall v | v in values :: v == a || v == b;
    ComparisonIsKeyOrder(host, m, a, b);
  }

  lemma ReadsColumn(row: Row, name: string)
    requires IsIdentifier(name) && ReadPath(row, name).Success?
    ensures name in row && ReadPath(row, name).value == row[name]
  {
    OperatorSoundness.NoPoint(name);
    assert SplitPath(name) == [name];
    assert ReadSegments(row[name], [name][1..], name) == Success(row[name]);
  }

  /** A comparison of a copied field and a literal, evaluated on the mapped row, is the atom on the provider row. */
  lemma FieldAgainstLiteral(host: Host, schema: Shape, shape: Shape, raw: Row, mapped: Row, name: string, path: string,
      ty: FieldType, literal: Value, op: Comparison)
    requires Unique(schema) && NoOperatorSuffix(schema) && Copies(schema, shape, raw, mapped, name, path)
    requires Compatible(Lookup(shape, name).value.ty, ty) && ComparedAlike(Lookup(shape, name).value.ty, ty)
    ensures var m := Merged2(Lookup(shape, name).value.ty, ty);
            GroupTrue(host, schema, raw, [Atom(path + SuffixText(op), literal)]) <==>
              !Missing(mapped[name]) && Holds(op, KeyCompare(KeyOf(host, m, mapped[name]), KeyOf(host, m, literal)))
  {
    hide NoOperatorSuffix, AtomTrue, GroupTrue, KeyOf, KeyCompare, Merged2, ComparedAlike;
    var source := Lookup(schema, path).value;
    AlikeKeys(host, source.ty, ty, mapped[name]);
    AlikeKeys(host, source.ty, ty, literal);
    AtomIs(host, schema, raw, source, OpOf(op), literal);
    GroupOne(host, schema, raw, Atom(path + SuffixText(op), literal));
  }

  /** Every field is compared as the provider would, wherever a literal decides the comparison. */
  predicate ExpressionAlike(shape: Shape, e: Expr)
    decreases e, 1
  {
    if e.Apply? && (e.op.And? || e.op.Or?) then AllAlike(shape, e.inputs)
    else if e.Apply? && e.op.Compare? && |e.inputs| == 2 then PairAlike(shape, e.inputs[0], e.inputs[1])
      && PairAlike(shape, e.inputs[1], e.inputs[0])
    else true
  }

  predicate AllAlike(shape: Shape, es: seq<Expr>)
    decreases es, 0
  {
    es == [] || (ExpressionAlike(shape, es[0]) && AllAlike(shape, es[1..]))
  }

  predicate PairAlike(shape: Shape, field: Expr, literal: Expr) {
    field.FieldRef? && literal.Literal? && Lookup(shape, field.path).Some? ==>
      ComparedAlike(Lookup(shape, field.path).value.ty, literal.ty)
  }

  lemma LeafTypes(host: Host, field: Expr, literal: Expr, shape: Shape)
    requires field.FieldRef? && literal.Literal? && InferExpression(host, field, shape).Success?
             && InferExpression(host, literal, shape).Success?
    ensures Lookup(shape, field.path).Some?
            && InferExpression(host, field, shape).value.ty == Lookup(shape, field.path).value.ty
    ensures InferExpression(host, literal, shape).value.ty == literal.ty
  {
  }

  /** A comparable field side is a copied column, and reading it on the mapped row is reading that column. */
  lemma SideCopies(host: Host, schema: Shape, shape: Shape, raw: Row, mapped: Row, config: MapConfig,
      evidence: seq<Evidence>, field: Expr)
    requires Mapped(host, schema, shape, config, raw, mapped) && forall d | d in config.fields :: IsIdentifier(d.name)
    requires SideField(field, config, evidence).Some?
    ensures field.FieldRef? && Copies(schema, shape, raw, mapped, field.path, SideField(field, config, evidence).value)
    ensures ReadPath(mapped, field.path).Success? ==> ReadPath(mapped, field.path).value == mapped[field.path]
  {
    hide ReadPath, IsIdentifier;
    var path := SideField(field, config, evidence).value;
    assert Copies(schema, shape, raw, mapped, field.path, path);
    if ReadPath(mapped, field.path).Success? {
      ReadsColumn(mapped, field.path);
    }
  }

  lemma ComparisonTrue(host: Host, schema: Shape, shape: Shape, raw: Row, mapped: Row, config: MapConfig,
      evidence: seq<Evidence>, e: Expr)
    requires Unique(schema) && NoOperatorSuffix(schema) && Mapped(host, schema, shape, config, raw, mapped)
    requires forall d | d in config.fields :: IsIdentifier(d.name)
    requires ComparisonGroups(e, config, evidence).Some? && ExpressionAlike(shape, e)
    requires InferExpression(host, e, shape).Success? && Evaluate(host, e, mapped, shape).Success?
    ensures Evaluate(host, e, mapped, shape).value == Bool(true) <==>
            AnyTrue(host, schema, raw, ComparisonGroups(e, config, evidence).value)
  {
    hide NoOperatorSuffix, GroupTrue, KeyOf, KeyCompare, InferExpression, Merged2, ComparedAlike, Compatible,
      ProviderField, IsIdentifier, Mapped, SideField, ReadPath;
    ComparisonSides(host, e, shape);
    var left, right := e.inputs[0], e.inputs[1];
    var a, b := InferExpression(host, left, shape).value, InferExpression(host, right, shape).value;
    var m := Merged2(a.ty, b.ty);
    ComparisonEvaluates(host, e, mapped, shape, m);
    var groups := ComparisonGroups(e, config, evidence).value;
    AnyAppend(host, schema, raw, groups, []);
    assert groups + [] == groups;
    if SideField(left, config, evidence).Some? && SideLiteral(right).Some? {
      var path := SideField(left, config, evidence).value;
      SideCopies(host, schema, shape, raw, mapped, config, evidence, left);
      LeafTypes(host, left, right, shape);
      FieldAgainstLiteral(host, schema, shape, raw, mapped, left.path, path, right.ty, right.value, e.op.comparison);
    } else {
      var path := SideField(right, config, evidence).value;
      SideCopies(host, schema, shape, raw, mapped, config, evidence, right);
      LeafTypes(host, right, left, shape);
      CompatibleSwaps(host, right, left, shape);
      FieldAgainstLiteral(host, schema, shape, raw, mapped, right.path, path, left.ty, left.value,
        Swap(e.op.comparison));
      KeyCompareSwaps(KeyOf(host, m, left.value), KeyOf(host, m, mapped[right.path]));
    }
  }

  lemma CompatibleSwaps(host: Host, field: Expr, literal: Expr, shape: Shape)
    requires field.FieldRef? && literal.Literal? && Lookup(shape, field.path).Some?
    requires Compatible(literal.ty, Lookup(shape, field.path).value.ty)
             && ComparedAlike(Lookup(shape, field.path).value.ty, literal.ty)
    ensures Compatible(Lookup(shape, field.path).value.ty, literal.ty)
    ensures Merged2(literal.ty, Lookup(shape, field.path).value.ty) ==
            Merged2(Lookup(shape, field.path).value.ty, literal.ty)
  {
  }

  // ---------------------------------------------------------------- and/or

  lemma {:induction false} PrependTrue(host: Host, schema: Shape, row: Row, g: Group, groups: seq<Group>)
    ensures AnyTrue(host, schema, row, Prepend(g, groups)) <==>
            GroupTrue(host, schema, row, g) && AnyTrue(host, schema, row, groups)
  {
    hide GroupTrue;
    var out := Prepend(g, groups);
    forall i | 0 <= i < |groups|
      ensures GroupTrue(host, schema, row, out[i]) <==>
              GroupTrue(host, schema, row, g) && GroupTrue(host, schema, row, groups[i])
    {
      GroupAppend(host, schema, row, g, groups[i]);
    }
    if AnyTrue(host, schema, row, out) {
      var h :| h in out && GroupTrue(host, schema, row, h);
      var i :| 0 <= i < |out| && out[i] == h;
      assert groups[i] in groups;
    }
    if GroupTrue(host, schema, row, g) && AnyTrue(host, schema, row, groups) {
      var h :| h in groups && GroupTrue(host, schema, row, h);
      var i :| 0 <= i < |groups| && groups[i] == h;
      assert out[i] in out;
    }
  }

  /** The product of two disjunctions of groups is their conjunction. */
  lemma {:induction false} ProductTrue(host: Host, schema: Shape, row: Row, left: seq<Group>, right: seq<Group>)
    ensures AnyTrue(host, schema, row, Product(left, right)) <==>
            AnyTrue(host, schema, row, left) && AnyTrue(host, schema, row, right)
  {
    if left != [] {
      hide GroupTrue, AnyTrue;
      ProductTrue(host, schema, row, left[1..], right);
      PrependTrue(host, schema, row, left[0], right);
      AnyAppend(host, schema, row, Prepend(left[0], right), Product(left[1..], right));
      AnyAppend(host, schema, row, [left[0]], left[1..]);
      assert left == [left[0]] + left[1..];
    }
  }

  lemma JoinedTrue(host: Host, schema: Shape, row: Row, conjunction: bool, result: seq<Group>, groups: seq<Group>)
    requires Joined(conjunction, result, groups).Some?
    ensures AnyTrue(host, schema, row, Joined(conjunction, result, groups).value) <==>
              if conjunction then AnyTrue(host, schema, row, result) && AnyTrue(host, schema, row, groups)
              else AnyTrue(host, schema, row, result) || AnyTrue(host, schema, row, groups)
  {
    hide AnyTrue, GroupTrue;
    ProductTrue(host, schema, row, result, groups);
    AnyAppend(host, schema, row, result, groups);
  }

  /** However the remaining inputs turn out, a conjunction only loses and a disjunction only gains truth. */
  lemma {:induction false} LogicMonotone(host: Host, schema: Shape, row: Row, conjunction: bool, es: seq<Expr>,
      config: MapConfig, evidence: seq<Evidence>, result: seq<Group>)
    requires LogicGroups(conjunction, es, config, evidence, result).Some?
    ensures var all := LogicGroups(conjunction, es, config, evidence, result).value;
            if conjunction then AnyTrue(host, schema, row, all) ==> AnyTrue(host, schema, row, result)
            else AnyTrue(host, schema, row, result) ==> AnyTrue(host, schema, row, all)
    decreases es
  {
    if es != [] {
      hide AnyTrue, ExpressionGroups, Joined;
      var groups := ExpressionGroups(es[0], config, evidence).value;
      JoinedTrue(host, schema, row, conjunction, result, groups);
      LogicMonotone(host, schema, row, conjunction, es[1..], config, evidence,
        Joined(conjunction, result, groups).value);
    }
  }

  ghost predicate AllAccepted(host: Host, es: seq<Expr>, shape: Shape) {
    forall e | e in es :: InferExpression(host, e, shape).Success?
  }

  /** An expression filter keeps a mapped row exactly when one of its groups is true of the provider row. The
      filter's three-valued result may be null or come from a short circuit; the groups only say true or not. */
  lemma {:induction false} ExpressionTrue(host: Host, schema: Shape, shape: Shape, raw: Row, mapped: Row,
      config: MapConfig, evidence: seq<Evidence>, e: Expr)
    requires Unique(schema) && NoOperatorSuffix(schema) && Mapped(host, schema, shape, config, raw, mapped)
    requires forall d | d in config.fields :: IsIdentifier(d.name)
    requires ExpressionGroups(e, config, evidence).Some? && ExpressionAlike(shape, e)
    requires InferExpression(host, e, shape).Success? && Evaluate(host, e, mapped, shape).Success?
    ensures Evaluate(host, e, mapped, shape).value == Bool(true) <==>
            AnyTrue(host, schema, raw, ExpressionGroups(e, config, evidence).value)
    decreases e, 1
  {
    if e.Apply? && (e.op.And? || e.op.Or?) {
      hide NoOperatorSuffix, GroupTrue, Mapped, IsIdentifier, InferExpression;
      forall x | x in e.inputs
        ensures InferExpression(host, x, shape).Success?
      {
        var i :| 0 <= i < |e.inputs| && e.inputs[i] == x;
        InputAccepted(host, e, shape, i);
      }
      LogicTrue(host, schema, shape, raw, mapped, config, evidence, e.op.And?, e.inputs, if e.op.And? then [[]]
        else [], false);
      StartTrue(host, schema, raw);
    } else {
      ComparisonTrue(host, schema, shape, raw, mapped, config, evidence, e);
    }
  }

  lemma StartTrue(host: Host, schema: Shape, row: Row)
    ensures AnyTrue(host, schema, row, [[]]) && !AnyTrue(host, schema, row, [])
  {
    var nothing: Group := [];
    assert nothing in [nothing] && GroupTrue(host, schema, row, nothing);
  }

  lemma {:induction false} LogicTrue(host: Host, schema: Shape, shape: Shape, raw: Row, mapped: Row, config: MapConfig,
      evidence: seq<Evidence>,
      conjunction: bool, es: seq<Expr>, result: seq<Group>, sawNull: bool)
    requires Unique(schema) && NoOperatorSuffix(schema) && Mapped(host, schema, shape, config, raw, mapped)
    requires forall d | d in config.fields :: IsIdentifier(d.name)
    requires LogicGroups(conjunction, es, config, evidence, result).Some? && AllAlike(shape, es)
             && AllAccepted(host, es, shape)
    requires EvaluateLogic(host, conjunction, es, mapped, shape, sawNull).Success?
    requires conjunction && sawNull ==> !AnyTrue(host, schema, raw, result)
    ensures var v := EvaluateLogic(host, conjunction, es, mapped, shape, sawNull).value;
            AnyTrue(host, schema, raw, LogicGroups(conjunction, es, config, evidence, result).value) <==>
              if conjunction then AnyTrue(host, schema, raw, result)
                && v == Bool(true) else AnyTrue(host, schema, raw, result) || v == Bool(true)
    ensures conjunction && sawNull ==> EvaluateLogic(host, conjunction, es, mapped, shape, sawNull).value != Bool(true)
    decreases es, 0
  {
    hide NoOperatorSuffix, AnyTrue, GroupTrue, Mapped, IsIdentifier, InferExpression, Joined, ExpressionGroups,
      ExpressionAlike, EvaluateLogic, LogicGroups, AllAlike;
    if es == [] {
      LogicEnds(host, conjunction, mapped, shape, config, evidence, result, sawNull);
    } else {
      LogicSteps(host, conjunction, es, mapped, shape, config, evidence, result, sawNull);
      var groups := ExpressionGroups(es[0], config, evidence).value;
      var next := Joined(conjunction, result, groups).value;
      assert es[0] in es && forall x | x in es[1..] :: x in es;
      ExpressionTrue(host, schema, shape, raw, mapped, config, evidence, es[0]);
      JoinedTrue(host, schema, raw, conjunction, result, groups);
      var v := Evaluate(host, es[0], mapped, shape).value;
      if Missing(v) {
        LogicTrue(host, schema, shape, raw, mapped, config, evidence, conjunction, es[1..], next, true);
      } else if v.b == conjunction {
        LogicTrue(host, schema, shape, raw, mapped, config, evidence, conjunction, es[1..], next, sawNull);
      } else {
        LogicMonotone(host, schema, raw, conjunction, es[1..], config, evidence, next);
      }
    }
  }

  lemma LogicEnds(host: Host, conjunction: bool, row: Row, shape: Shape, config: MapConfig, evidence: seq<Evidence>,
      result: seq<Group>, sawNull: bool)
    ensures LogicGroups(conjunction, [], config, evidence, result) == Some(result)
    ensures EvaluateLogic(host, conjunction, [], row, shape, sawNull) == Success(if sawNull then Null
            else Bool(conjunction))
  {
  }

  /** One turn of both loops: of the evaluation and of the translation into groups. */
  lemma LogicSteps(host: Host, conjunction: bool, es: seq<Expr>, row: Row, shape: Shape, config: MapConfig,
      evidence: seq<Evidence>, result: seq<Group>, sawNull: bool)
    requires es != [] && LogicGroups(conjunction, es, config, evidence, result).Some? && AllAlike(shape, es)
    requires EvaluateLogic(host, conjunction, es, row, shape, sawNull).Success?
    ensures ExpressionAlike(shape, es[0]) && AllAlike(shape, es[1..])
    ensures ExpressionGroups(es[0], config, evidence).Some?
    ensures var next := Joined(conjunction, result, ExpressionGroups(es[0], config, evidence).value);
            next.Some? && LogicGroups(conjunction, es[1..], config, evidence, next.value) ==
              LogicGroups(conjunction, es, config, evidence, result)
    ensures Evaluate(host, es[0], row, shape).Success?
    ensures var v := Evaluate(host, es[0], row, shape).value;
            if Missing(v) then EvaluateLogic(host, conjunction, es, row, shape, sawNull) ==
              EvaluateLogic(host, conjunction, es[1..], row, shape, true)
            else v.Bool? && EvaluateLogic(host, conjunction, es, row, shape, sawNull) ==
                              if v.b != conjunction then Success(v)
                                else EvaluateLogic(host, conjunction, es[1..], row, shape, sawNull)
  {
  }

  // ---------------------------------------------------------------- no empty group

  lemma {:induction false} ProductFull(left: seq<Group>, right: seq<Group>)
    requires left != [] && Full(right)
    ensures Full(Product(left, right))
  {
    var first := Prepend(left[0], right);
    forall g | g in first
      ensures g != []
    {
      var i :| 0 <= i < |first| && first[i] == g;
      assert right[i] in right;
    }
    if |left| > 1 {
      ProductFull(left[1..], right);
    }
    assert first[0] in first;
  }

  lemma {:induction false} AllAtomsFull(conditions: seq<Condition>, config: MapConfig, evidence: seq<Evidence>)
    requires AllAtoms(conditions, config, evidence).Some?
    ensures |AllAtoms(conditions, config, evidence).value| == |conditions|
    ensures forall g | g in AllAtoms(conditions, config, evidence).value :: g != []
  {
    if conditions != [] {
      AllAtomsFull(conditions[1..], config, evidence);
    }
  }

  /** A predicate with at least one condition, as validation demands, never yields an empty group. */
  lemma PredicateFull(p: Predicate, config: MapConfig, evidence: seq<Evidence>)
    requires |p.conditions| >= 1 && PredicateGroups(p, config, evidence).Some?
    ensures Full(PredicateGroups(p, config, evidence).value)
  {
    AllAtomsFull(p.conditions, config, evidence);
    var groups := AllAtoms(p.conditions, config, evidence).value;
    assert groups[0] in groups;
  }

  lemma {:induction false} ExpressionFull(e: Expr, config: MapConfig, evidence: seq<Evidence>)
    requires ExpressionGroups(e, config, evidence).Some?
    ensures Full(ExpressionGroups(e, config, evidence).value)
    decreases e, 1
  {
    hide ProviderField;
    if e.Apply? && (e.op.And? || e.op.Or?) {
      LogicFull(e.op.And?, e.inputs, config, evidence, if e.op.And? then [[]] else []);
    }
  }

  lemma {:induction false} LogicFull(conjunction: bool, es: seq<Expr>, config: MapConfig, evidence: seq<Evidence>,
      result: seq<Group>)
    requires LogicGroups(conjunction, es, config, evidence, result).Some?
    requires conjunction ==> result != [] && (es != [] || Full(result))
    requires !conjunction ==> (es != [] || result != []) && forall g | g in result :: g != []
    ensures Full(LogicGroups(conjunction, es, config, evidence, result).value)
    decreases es, 0
  {
    if es != [] {
      ExpressionFull(es[0], config, evidence);
      var groups := ExpressionGroups(es[0], config, evidence).value;
      if conjunction {
        ProductFull(result, groups);
      }
      hide ExpressionGroups;
      LogicFull(conjunction, es[1..], config, evidence, Joined(conjunction, result, groups).value);
    }
  }

  ghost predicate Validated(host: Host, filters: seq<FilterConfig>, shape: Shape) {
    forall f | f in filters && f.ByPredicate? :: ValidPredicate(host, f.p, shape)
  }

  lemma {:induction false} ChainFull(host: Host, shape: Shape, filters: seq<FilterConfig>, config: MapConfig,
      evidence: seq<Evidence>, result: seq<Group>)
    requires ChainGroups(filters, config, evidence, result).Some? && Validated(host, filters, shape)
    requires result != [] && (filters != [] || Full(result))
    ensures Full(ChainGroups(filters, config, evidence, result).value)
    decreases filters
  {
    if filters != [] {
      hide PredicateGroups, ExpressionGroups, ValidCondition;
      var groups := ConfigGroups(filters[0], config, evidence).value;
      match filters[0] {
        case ByPredicate(p) => PredicateFull(p, config, evidence);
        case ByExpression(e) => ExpressionFull(e, config, evidence);
      }
      ProductFull(result, groups);
      ChainFull(host, shape, filters[1..], config, evidence, CombineAnd(result, groups).value);
    }
  }

  // ---------------------------------------------------------------- the boundary Map

  lemma {:induction false} AssignKeeps(host: Host, row: Row, definitions: seq<Definition>, shape: Shape, output: Row,
      name: string)
    requires Assign(host, row, definitions, shape, output).Success? && name in output
             && forall d | d in definitions :: d.name != name
    ensures var out := Assign(host, row, definitions, shape, output).value; name in out && out[name] == output[name]
    decreases definitions
  {
    if definitions != [] {
      hide Evaluate;
      assert definitions[0] in definitions && forall d | d in definitions[1..] :: d in definitions;
      AssignKeeps(host, row, definitions[1..], shape,
        output[definitions[0].name := Evaluate(host, definitions[0].expr, row, shape).value], name);
    }
  }

  lemma {:induction false} AssignAt(host: Host, row: Row, definitions: seq<Definition>, shape: Shape, output: Row,
      d: Definition)
    requires Assign(host, row, definitions, shape, output).Success? && d in definitions
    requires forall i, j | 0 <= i < j < |definitions| :: definitions[i].name != definitions[j].name
    ensures var out := Assign(host, row, definitions, shape, output).value;
            d.name in out && Evaluate(host, d.expr, row, shape) == Success(out[d.name])
    decreases definitions
  {
    hide Evaluate;
    var rest := definitions[1..];
    var next := output[definitions[0].name := Evaluate(host, definitions[0].expr, row, shape).value];
    forall i, j | 0 <= i < j < |rest|
      ensures rest[i].name != rest[j].name
    {
      assert definitions[i + 1].name != definitions[j + 1].name;
    }
    if d == definitions[0] {
      FirstIsAlone(definitions);
      AssignKeeps(host, row, rest, shape, next, d.name);
    } else {
      AssignAt(host, row, rest, shape, next, d);
    }
  }

  lemma FirstIsAlone(definitions: seq<Definition>)
    requires definitions != [] && forall i, j | 0 <= i < j < |definitions| :: definitions[i].name != definitions[j].name
    ensures forall d | d in definitions[1..] :: d.name != definitions[0].name
  {
    forall d | d in definitions[1..]
      ensures d.name != definitions[0].name
    {
      var j :| 0 <= j < |definitions| - 1 && definitions[1..][j] == d;
      assert definitions[0].name != definitions[j + 1].name;
    }
  }

  lemma {:induction false} RunShapeKeeps(host: Host, definitions: seq<Definition>, input: Shape, output: Shape,
      name: string)
    requires RunMapShape(host, definitions, input, output).Success? && Unique(output)
    requires Lookup(output, name).Some? && forall d | d in definitions :: d.name != name
    ensures Unique(RunMapShape(host, definitions, input, output).value)
    ensures Lookup(RunMapShape(host, definitions, input, output).value, name) == Lookup(output, name)
    decreases definitions
  {
    if definitions != [] {
      hide InferExpression, Unique, Lookup;
      var d := definitions[0];
      assert d in definitions && forall x | x in definitions[1..] :: x in definitions;
      var t := InferExpression(host, d.expr, input).value;
      var f := Field(d.name, t.ty, t.nullable, if d.unit.Some? then d.unit else t.unit);
      OperatorSoundness.SetFieldIs(output, f);
      LookupUnique(SetField(output, f), Lookup(output, name).value);
      RunShapeKeeps(host, definitions[1..], input, SetField(output, f), name);
    }
  }

  lemma {:induction false} RunShapeAt(host: Host, definitions: seq<Definition>, input: Shape, output: Shape,
      d: Definition)
    requires RunMapShape(host, definitions, input, output).Success? && Unique(output) && d in definitions
    requires forall i, j | 0 <= i < j < |definitions| :: definitions[i].name != definitions[j].name
    ensures var out := RunMapShape(host, definitions, input, output).value;
            && InferExpression(host, d.expr, input).Success?
            && Lookup(out, d.name).Some? && Lookup(out, d.name).value.ty ==
              InferExpression(host, d.expr, input).value.ty
    decreases definitions
  {
    hide InferExpression, Unique, Lookup;
    var head, rest := definitions[0], definitions[1..];
    var t := InferExpression(host, head.expr, input).value;
    var f := Field(head.name, t.ty, t.nullable, if head.unit.Some? then head.unit else t.unit);
    OperatorSoundness.SetFieldIs(output, f);
    forall i, j | 0 <= i < j < |rest|
      ensures rest[i].name != rest[j].name
    {
      assert definitions[i + 1].name != definitions[j + 1].name;
    }
    if d == head {
      FirstIsAlone(definitions);
      LookupUnique(SetField(output, f), f);
      RunShapeKeeps(host, rest, input, SetField(output, f), d.name);
    } else {
      RunShapeAt(host, rest, input, SetField(output, f), d);
    }
  }

  /** Whatever a projecting Map copies from a provider path is that path's value and type. */
  lemma MapCopies(host: Host, schema: Shape, shape: Shape, config: MapConfig, raw: Row, mapped: Row)
    requires ValidMap(host, config, schema) && config.mode.Project?
    requires RunMapShape(host, config.fields, schema, []) == Success(shape)
             && MapRow(host, raw, config, schema) == Success(mapped)
    ensures Mapped(host, schema, shape, config, raw, mapped)
  {
    hide RunMapShape, Assign, InferDefinition, IsIdentifier;
    forall name, path | DefinitionOf(config.fields, name).Some?
      && DefinitionOf(config.fields, name).value.expr == FieldRef(path)
      ensures Copies(schema, shape, raw, mapped, name, path)
    {
      var d := DefinitionOf(config.fields, name).value;
      AssignAt(host, raw, config.fields, schema, map[], d);
      RunShapeAt(host, config.fields, schema, [], d);
      FieldTyping(host, schema, path);
    }
  }

  lemma FieldTyping(host: Host, schema: Shape, path: string)
    requires InferExpression(host, FieldRef(path), schema).Success?
    ensures Lookup(schema, path).Some? && InferExpression(host, FieldRef(path), schema).value.ty ==
            Lookup(schema, path).value.ty
  {
  }

  // ---------------------------------------------------------------- a chain of filters on one row

  /** Whether a filter node keeps a row. */
  function Keeps(host: Host, f: FilterConfig, shape: Shape, row: Row): Try<bool> {
    match f
    case ByPredicate(p) => KeepRow(host, p, shape, row)
    case ByExpression(e) => KeepByExpression(host, e, shape, row)
  }

  /** Whether a row gets through every filter of a chain; a later filter never sees a dropped row. */
  function Passes(host: Host, filters: seq<FilterConfig>, shape: Shape, row: Row): Try<bool> {
    if filters == [] then Success(true)
    else
      var kept :- Keeps(host, filters[0], shape, row);
      if kept then Passes(host, filters[1..], shape, row) else Success(false)
  }

  lemma KeptByExpression(host: Host, e: Expr, shape: Shape, row: Row)
    requires KeepByExpression(host, e, shape, row).Success?
    ensures InferExpression(host, e, shape).Success? && Evaluate(host, e, row, shape).Success?
    ensures KeepByExpression(host, e, shape, row).value <==> Evaluate(host, e, row, shape).value == Bool(true)
  {
    hide Evaluate, InferExpression;
    var d := Definition(MATCHES, e, None);
    assert d in [d];
    OperatorSoundness.AssignOne(host, row, d, shape);
    OperatorSoundness.TryMapOne(row, Mapper(host, MapConfig(Project, [d]), shape));
  }

  predicate ChainAlike(shape: Shape, filters: seq<FilterConfig>) {
    forall f | f in filters && f.ByExpression? :: ExpressionAlike(shape, f.e)
  }

  lemma FilterTrue(host: Host, schema: Shape, shape: Shape, raw: Row, mapped: Row, config: MapConfig,
      evidence: seq<Evidence>, f: FilterConfig)
    requires Unique(schema) && NoOperatorSuffix(schema) && Mapped(host, schema, shape, config, raw, mapped)
    requires forall d | d in config.fields :: IsIdentifier(d.name)
    requires ConfigGroups(f, config, evidence).Some? && Keeps(host, f, shape, mapped).Success?
    requires f.ByExpression? ==> ExpressionAlike(shape, f.e)
    ensures Keeps(host, f, shape, mapped).value <==> AnyTrue(host, schema, raw, ConfigGroups(f, config, evidence).value)
  {
    hide NoOperatorSuffix, AnyTrue, Mapped, IsIdentifier, PredicateGroups, ExpressionGroups, KeepRow, KeepByExpression,
      Evaluate, InferExpression, ExpressionAlike;
    match f
    case ByPredicate(p) => PredicateTrue(host, schema, shape, raw, mapped, config, evidence, p);
    case ByExpression(e) =>
      KeptByExpression(host, e, shape, mapped);
      ExpressionTrue(host, schema, shape, raw, mapped, config, evidence, e);
  }

  lemma CombineTrue(host: Host, schema: Shape, row: Row, result: seq<Group>, groups: seq<Group>)
    requires CombineAnd(result, groups).Some?
    ensures AnyTrue(host, schema, row, CombineAnd(result, groups).value) <==>
            AnyTrue(host, schema, row, result) && AnyTrue(host, schema, row, groups)
  {
    hide AnyTrue;
    ProductTrue(host, schema, row, result, groups);
  }

  lemma {:induction false} ChainOnlyLoses(host: Host, schema: Shape, row: Row, filters: seq<FilterConfig>,
      config: MapConfig, evidence: seq<Evidence>, result: seq<Group>)
    requires ChainGroups(filters, config, evidence, result).Some?
    ensures AnyTrue(host, schema, row, ChainGroups(filters, config, evidence, result).value) ==>
            AnyTrue(host, schema, row, result)
    decreases filters
  {
    if filters != [] {
      hide AnyTrue, ConfigGroups, CombineAnd;
      var groups := ConfigGroups(filters[0], config, evidence).value;
      CombineTrue(host, schema, row, result, groups);
      ChainOnlyLoses(host, schema, row, filters[1..], config, evidence, CombineAnd(result, groups).value);
    }
  }

  /** A mapped row gets through the local filters exactly when the groups of the chain are true of its provider row. */
  lemma {:induction false} ChainTrue(host: Host, schema: Shape, shape: Shape, raw: Row, mapped: Row, config: MapConfig,
      evidence: seq<Evidence>,
      filters: seq<FilterConfig>, result: seq<Group>)
    requires Unique(schema) && NoOperatorSuffix(schema) && Mapped(host, schema, shape, config, raw, mapped)
    requires forall d | d in config.fields :: IsIdentifier(d.name)
    requires ChainGroups(filters, config, evidence, result).Some? && ChainAlike(shape, filters)
             && Passes(host, filters, shape, mapped).Success?
    ensures AnyTrue(host, schema, raw, ChainGroups(filters, config, evidence, result).value) <==>
              AnyTrue(host, schema, raw, result) && Passes(host, filters, shape, mapped).value
    decreases filters
  {
    if filters != [] {
      hide NoOperatorSuffix, AnyTrue, Mapped, IsIdentifier, ConfigGroups, CombineAnd, Keeps, ExpressionAlike;
      assert filters[0] in filters && forall f | f in filters[1..] :: f in filters;
      var groups := ConfigGroups(filters[0], config, evidence).value;
      FilterTrue(host, schema, shape, raw, mapped, config, evidence, filters[0]);
      CombineTrue(host, schema, raw, result, groups);
      var next := CombineAnd(result, groups).value;
      if Keeps(host, filters[0], shape, mapped).value {
        ChainTrue(host, schema, shape, raw, mapped, config, evidence, filters[1..], next);
      } else {
        ChainOnlyLoses(host, schema, raw, filters[1..], config, evidence, next);
      }
    }
  }

  /** An accepted pushdown, on one row: the local filters keep the mapped row exactly when the where clause
      holds of the provider row, nulls included. */
  lemma KeptExactly(host: Host, s: Sorter, where: Option<Gql>, schema: Shape, shape: Shape, raw: Row, mapped: Row,
      config: MapConfig, evidence: seq<Evidence>, filters: seq<FilterConfig>)
    requires Sorts(s) && Accepts(s, where, filters, config, evidence)
    requires Unique(schema) && NoOperatorSuffix(schema) && Mapped(host, schema, shape, config, raw, mapped)
    requires forall d | d in config.fields :: IsIdentifier(d.name)
    requires Validated(host, filters, shape) && ChainAlike(shape, filters)
             && Passes(host, filters, shape, mapped).Success?
    ensures Passes(host, filters, shape, mapped).value <==> WhereHolds(host, schema, raw, true, where.value)
  {
    hide NoOperatorSuffix, AnyTrue, Mapped, IsIdentifier, WhereHolds, ChainGroups, QueryGroups, Sorts, CanonicalGroups,
      Validated, ChainAlike, Full;
    var query, local := QueryGroups(where).value, ChainGroups(filters, config, evidence, [[]]).value;
    ChainTrue(host, schema, shape, raw, mapped, config, evidence, filters, [[]]);
    StartTrue(host, schema, raw);
    ChainFull(host, shape, filters, config, evidence, [[]]);
    CanonicalTruth(host, schema, raw, s, query, local);
    CanonicalTruth(host, schema, raw, s, local, query);
    QueryTrue(host, schema, raw, where);
  }

  // ---------------------------------------------------------------- all rows

  ghost function Select(rows: seq<Row>, keep: Row -> bool): seq<Row> {
    if rows == [] then [] else (if keep(rows[0]) then [rows[0]] else []) + Select(rows[1..], keep)
  }

  function FilterOpOf(f: FilterConfig): Op {
    match f
    case ByPredicate(p) => FilterPredicate(p)
    case ByExpression(e) => FilterExpression(e)
  }

  /** Filter nodes one after the other. */
  ghost function Chain(host: Host, filters: seq<FilterConfig>, t: Table, lenient: bool): Try<Table> {
    if filters == [] then Success(t)
    else
      var next :- Run(host, FilterOpOf(filters[0]), [t], lenient);
      Chain(host, filters[1..], next, lenient)
  }

  function KeepsTrue(host: Host, f: FilterConfig, shape: Shape): Row -> bool {
    row => Keeps(host, f, shape, row) == Success(true)
  }

  function PassesTrue(host: Host, filters: seq<FilterConfig>, shape: Shape): Row -> bool {
    row => Passes(host, filters, shape, row) == Success(true)
  }

  lemma {:induction false} TryFilterSelects(rows: seq<Row>, keep: Row -> Try<bool>, kept: Row -> bool)
    requires TryFilter(rows, keep).Success? && forall row :: kept(row) <==> keep(row) == Success(true)
    ensures TryFilter(rows, keep).value == Select(rows, kept)
    ensures forall row | row in rows :: keep(row).Success?
  {
    if rows != [] {
      TryFilterSelects(rows[1..], keep, kept);
      assert rows == [rows[0]] + rows[1..];
    }
  }

  lemma FilterSelects(host: Host, f: FilterConfig, t: Table, lenient: bool)
    requires Run(host, FilterOpOf(f), [t], lenient).Success?
    ensures Run(host, FilterOpOf(f), [t], lenient).value == Table(Select(t.rows, KeepsTrue(host, f, t.shape)), t.shape)
    ensures forall row | row in t.rows :: Keeps(host, f, t.shape, row).Success?
    ensures f.ByPredicate? ==> ValidPredicate(host, f.p, t.shape)
  {
    hide KeepRow, KeepByExpression, ValidPredicate, Select;
    match f
    case ByPredicate(p) =>
      TryFilterSelects(t.rows, Keeper(host, p, t.shape), KeepsTrue(host, f, t.shape));
    case ByExpression(e) =>
      TryFilterSelects(t.rows, ExpressionKeeper(host, e, t.shape), KeepsTrue(host, f, t.shape));
  }

  lemma {:induction false} SelectTwice(rows: seq<Row>, first: Row -> bool, second: Row -> bool, both: Row -> bool)
    requires forall row | row in rows :: both(row) <==> first(row) && second(row)
    ensures Select(Select(rows, first), second) == Select(rows, both)
    ensures forall row | row in Select(rows, first) :: row in rows && first(row)
    ensures forall row | row in rows && first(row) :: row in Select(rows, first)
  {
    if rows != [] {
      assert rows == [rows[0]] + rows[1..] && rows[0] in rows && forall row | row in rows[1..] :: row in rows;
      SelectTwice(rows[1..], first, second, both);
      var rest := Select(rows[1..], first);
      if first(rows[0]) {
        assert ([rows[0]] + rest)[0] == rows[0] && ([rows[0]] + rest)[1..] == rest;
      } else {
        assert [] + rest == rest;
      }
    }
  }

  lemma {:induction false} ChainSelects(host: Host, filters: seq<FilterConfig>, t: Table, lenient: bool)
    requires Chain(host, filters, t, lenient).Success?
    ensures Chain(host, filters, t, lenient).value == Table(Select(t.rows, PassesTrue(host, filters, t.shape)), t.shape)
    ensures forall row | row in t.rows :: Passes(host, filters, t.shape, row).Success?
    ensures Validated(host, filters, t.shape)
    decreases filters
  {
    hide Run, ValidPredicate, Keeps;
    if filters == [] {
      SelectAll(t.rows, PassesTrue(host, filters, t.shape));
    } else {
      FilterSelects(host, filters[0], t, lenient);
      var kept := KeepsTrue(host, filters[0], t.shape);
      var next := Table(Select(t.rows, kept), t.shape);
      ChainSelects(host, filters[1..], next, lenient);
      SelectTwice(t.rows, kept, PassesTrue(host, filters[1..], t.shape), PassesTrue(host, filters, t.shape));
      assert filters == [filters[0]] + filters[1..];
    }
  }

  lemma {:induction false} SelectAll(rows: seq<Row>, keep: Row -> bool)
    requires forall row | row in rows :: keep(row)
    ensures Select(rows, keep) == rows
  {
    if rows != [] {
      assert rows == [rows[0]] + rows[1..] && rows[0] in rows && forall row | row in rows[1..] :: row in rows;
      SelectAll(rows[1..], keep);
    }
  }

  ghost function WhereTrue(host: Host, schema: Shape, where: Gql): Row -> bool {
    row => WhereHolds(host, schema, row, true, where)
  }

  /** Selecting before a row-wise map is selecting after it. */
  lemma {:induction false} SelectThenMap(rows: seq<Row>, f: Row -> Try<Row>, before: Row -> bool, after: Row -> bool)
    requires TryMap(rows, f).Success?
    requires forall i | 0 <= i < |rows| :: before(rows[i]) <==> after(TryMap(rows, f).value[i])
    ensures TryMap(Select(rows, before), f) == Success(Select(TryMap(rows, f).value, after))
  {
    if rows != [] {
      var out := TryMap(rows, f).value;
      assert out == [f(rows[0]).value] + TryMap(rows[1..], f).value;
      assert out[1..] == TryMap(rows[1..], f).value;
      forall i | 0 <= i < |rows[1..]|
        ensures before(rows[1..][i]) <==> after(out[1..][i])
      {
        assert before(rows[i + 1]) <==> after(out[i + 1]);
      }
      SelectThenMap(rows[1..], f, before, after);
      var rest := Select(rows[1..], before);
      assert before(rows[0]) <==> after(out[0]);
      if before(rows[0]) {
        assert ([rows[0]] + rest)[0] == rows[0] && ([rows[0]] + rest)[1..] == rest;
      } else {
        assert [] + rest == rest && [] + Select(out[1..], after) == Select(out[1..], after);
      }
    }
  }

  ghost function BoundaryTable(host: Host, config: MapConfig, schema: Shape, rows: seq<Row>,
      lenient: bool): Try<Table> {
    Run(host, Mapping(config), [Table(rows, schema)], lenient)
  }

  lemma BoundaryIs(host: Host, config: MapConfig, schema: Shape, rows: seq<Row>, lenient: bool)
    requires config.mode.Project?
    ensures BoundaryTable(host, config, schema, rows, lenient).Success? <==>
              RunMapShape(host, config.fields, schema, []).Success? && ValidMap(host, config, schema)
                && TryMap(rows, Mapper(host, config, schema)).Success?
    ensures BoundaryTable(host, config, schema, rows, lenient).Success? ==>
              BoundaryTable(host, config, schema, rows, lenient).value ==
              Table(TryMap(rows, Mapper(host, config, schema)).value,
                RunMapShape(host, config.fields, schema, []).value)
  {
    hide RunMapShape, ValidMap, TryMap;
  }

  /** Pushdown soundness: if the check accepts a query against a chain of filters directly after the boundary
      Map, and mapping and filtering all provider rows locally succeeds, then letting the provider filter by
      the where clause and only mapping gives the same table. */
  lemma PushdownSound(host: Host, s: Sorter, where: Option<Gql>, config: MapConfig, evidence: seq<Evidence>,
      filters: seq<FilterConfig>,
      schema: Shape, rows: seq<Row>, lenient: bool)
    requires Sorts(s) && Accepts(s, where, filters, config, evidence) && config.mode.Project?
    requires Unique(schema) && NoOperatorSuffix(schema)
    requires BoundaryTable(host, config, schema, rows, lenient).Success?
    requires ChainAlike(BoundaryTable(host, config, schema, rows, lenient).value.shape, filters)
    requires Chain(host, filters, BoundaryTable(host, config, schema, rows, lenient).value, lenient).Success?
    ensures BoundaryTable(host, config, schema, Select(rows, WhereTrue(host, schema, where.value)), lenient) ==
              Chain(host, filters, BoundaryTable(host, config, schema, rows, lenient).value, lenient)
  {
    hide NoOperatorSuffix, Mapped, WhereHolds, Accepts, Sorts, Validated, ChainAlike, BoundaryTable, RunMapShape,
      MapRow, TryMap, Select, Chain, Passes, ValidMap;
    AcceptedWhere(s, where, filters, config, evidence);
    var t := BoundaryTable(host, config, schema, rows, lenient).value;
    var f, before, after := Mapper(host, config, schema), WhereTrue(host, schema, where.value),
      PassesTrue(host, filters, t.shape);
    BoundaryIs(host, config, schema, rows, lenient);
    ChainSelects(host, filters, t, lenient);
    NamesOfMap(host, config, schema);
    forall i | 0 <= i < |rows|
      ensures before(rows[i]) <==> after(t.rows[i])
    {
      assert f(rows[i]) == Success(t.rows[i]) && t.rows[i] in t.rows;
      MapCopies(host, schema, t.shape, config, rows[i], t.rows[i]);
      KeptExactly(host, s, where, schema, t.shape, rows[i], t.rows[i], config, evidence, filters);
    }
    SelectThenMap(rows, f, before, after);
    BoundaryIs(host, config, schema, Select(rows, before), lenient);
  }

  lemma NamesOfMap(host: Host, config: MapConfig, schema: Shape)
    requires ValidMap(host, config, schema)
    ensures forall d | d in config.fields :: IsIdentifier(d.name)
  {
    hide InferDefinition, IsIdentifier;
  }

  lemma AcceptedWhere(s: Sorter, where: Option<Gql>, filters: seq<FilterConfig>, config: MapConfig,
      evidence: seq<Evidence>)
    requires Accepts(s, where, filters, config, evidence)
    ensures where.Some? && where.value.ObjectNode?
  {
    hide CanonicalGroups, ChainGroups;
  }

  // ---------------------------------------------------------------- what the check accepts

  function Bags(groups: seq<Group>): (r: seq<multiset<Atom>>)
    ensures |r| == |groups| && forall i | 0 <= i < |r| :: r[i] == multiset(groups[i])
  {
    seq(|groups|, i requires 0 <= i < |groups| => multiset(groups[i]))
  }

  /** The same groups of the same atoms, each as often, in whatever order. */
  ghost predicate SameUpToOrder(a: seq<Group>, b: seq<Group>) {
    BagsOf(a) == BagsOf(b)
  }

  ghost function BagsOf(groups: seq<Group>): multiset<multiset<Atom>> {
    multiset(Bags(groups))
  }

  ghost function SortedOf(s: Sorter, groups: seq<Group>): multiset<Group> {
    multiset(SortEach(s, groups))
  }

  lemma RemoveAt<T>(x: seq<T>, i: nat)
    requires i < |x|
    ensures multiset(x) == multiset(x[..i] + x[i + 1..]) + multiset{x[i]}
  {
    assert x == x[..i] + [x[i]] + x[i + 1..];
  }

  lemma TakeOne(s: Sorter, a: seq<Group>, i: nat)
    requires i < |a|
    ensures BagsOf(a) == BagsOf(a[..i] + a[i + 1..]) + multiset{multiset(a[i])}
    ensures SortedOf(s, a) == SortedOf(s, a[..i] + a[i + 1..]) + multiset{s.atoms(a[i])}
  {
    var rest, x, y := a[..i] + a[i + 1..], Bags(a), SortEach(s, a);
    RemoveAt(x, i);
    RemoveAt(y, i);
    assert Bags(rest) == x[..i] + x[i + 1..];
    assert SortEach(s, rest) == y[..i] + y[i + 1..];
  }

  lemma TakeFirst(s: Sorter, a: seq<Group>)
    requires a != []
    ensures BagsOf(a) == BagsOf(a[1..]) + multiset{multiset(a[0])}
    ensures SortedOf(s, a) == SortedOf(s, a[1..]) + multiset{s.atoms(a[0])}
  {
    hide BagsOf, SortedOf;
    TakeOne(s, a, 0);
    assert a[..0] + a[1..] == a[1..];
  }

  lemma CancelOne<T>(x: multiset<T>, y: multiset<T>, e: T)
    ensures x + multiset{e} == y + multiset{e} <==> x == y
  {
    assert x == (x + multiset{e}) - multiset{e} && y == (y + multiset{e}) - multiset{e};
  }

  lemma NoBags(s: Sorter, b: seq<Group>)
    ensures SameUpToOrder([], b) <==> SameSorting(s, [], b)
  {
    assert |multiset(Bags(b))| == |b| && |multiset(SortEach(s, b))| == |b|;
    assert b != [] ==>
           |multiset(Bags(b))| != |multiset(Bags([]))|
           && |multiset(SortEach(s, b))| != |multiset(SortEach(s, []))|;
  }

  lemma SameSorted(s: Sorter, g: Group, h: Group)
    requires Canonical(s) && multiset(g) == multiset(h)
    ensures s.atoms(g) == s.atoms(h)
  {
  }

  lemma CancelBoth<T, U>(a: multiset<T>, b: multiset<T>, e: T, c: multiset<U>, d: multiset<U>, f: U,
      a': multiset<T>, b': multiset<T>, c': multiset<U>, d': multiset<U>)
    requires a' == a + multiset{e} && b' == b + multiset{e} && c' == c + multiset{f} && d' == d + multiset{f}
    requires a == b <==> c == d
    ensures a' == b' <==> c' == d'
  {
    CancelOne(a, b, e);
    CancelOne(c, d, f);
  }

  ghost predicate SameSorting(s: Sorter, a: seq<Group>, b: seq<Group>) {
    SortedOf(s, a) == SortedOf(s, b)
  }

  lemma MatchedBag(s: Sorter, a: seq<Group>, b: seq<Group>, i: nat)
    requires Canonical(s) && a != [] && i < |b| && multiset(b[i]) == multiset(a[0])
    requires SameUpToOrder(a[1..], b[..i] + b[i + 1..]) <==> SameSorting(s, a[1..], b[..i] + b[i + 1..])
    ensures SameUpToOrder(a, b) <==> SameSorting(s, a, b)
  {
    hide Canonical, BagsOf, SortedOf;
    var other := b[..i] + b[i + 1..];
    SameSorted(s, a[0], b[i]);
    TakeFirst(s, a);
    TakeOne(s, b, i);
    CancelBoth(BagsOf(a[1..]), BagsOf(other), multiset(a[0]), SortedOf(s, a[1..]), SortedOf(s, other), s.atoms(a[0]),
      BagsOf(a), BagsOf(b), SortedOf(s, a), SortedOf(s, b));
  }

  lemma {:induction false} SortedBags(s: Sorter, a: seq<Group>, b: seq<Group>)
    requires Sorts(s) && Canonical(s)
    ensures SameUpToOrder(a, b) <==> SameSorting(s, a, b)
    decreases |a|
  {
    hide Sorts, Canonical, SameUpToOrder, SameSorting;
    if a == [] {
      NoBags(s, b);
    } else if i :| 0 <= i < |b| && multiset(b[i]) == multiset(a[0]) {
      SortedBags(s, a[1..], b[..i] + b[i + 1..]);
      MatchedBag(s, a, b, i);
    } else {
      MissingBag(s, a, b);
    }
  }

  lemma MissingBag(s: Sorter, a: seq<Group>, b: seq<Group>)
    requires Sorts(s) && a != [] && forall i | 0 <= i < |b| :: multiset(b[i]) != multiset(a[0])
    ensures !SameUpToOrder(a, b) && !SameSorting(s, a, b)
  {
    var x, y := Bags(a), SortEach(s, a);
    assert x[0] in multiset(x) && y[0] in multiset(y);
    assert multiset(s.atoms(a[0])) == multiset(a[0]);
    forall i | 0 <= i < |b|
      ensures Bags(b)[i] != x[0] && SortEach(s, b)[i] != y[0]
    {
      assert multiset(s.atoms(b[i])) == multiset(b[i]);
    }
    assert x[0] !in Bags(b) && y[0] !in SortEach(s, b);
  }

  /** With sorts that leave no ties, the check accepts exactly when the query and the chain of filters have the
      same groups of the same atoms up to order. */
  lemma AcceptsExactly(s: Sorter, where: Option<Gql>, filters: seq<FilterConfig>, config: MapConfig,
      evidence: seq<Evidence>)
    requires Sorts(s) && Canonical(s)
    ensures Accepts(s, where, filters, config, evidence) <==>
              && QueryGroups(where).Some? && filters != [] && ChainGroups(filters, config, evidence, [[]]).Some?
              && SameUpToOrder(QueryGroups(where).value, ChainGroups(filters, config, evidence, [[]]).value)
  {
    hide QueryGroups, ChainGroups, SameUpToOrder;
    if QueryGroups(where).Some? && ChainGroups(filters, config, evidence, [[]]).Some? {
      var a, b := QueryGroups(where).value, ChainGroups(filters, config, evidence, [[]]).value;
      SortedBags(s, a, b);
      var x, y := SortEach(s, a), SortEach(s, b);
      assert multiset(s.groups(x)) == multiset(x) && multiset(s.groups(y)) == multiset(y);
    }
  }

  /** Why validation matters: a predicate without conditions, which no validated filter is, matches a where clause
      the check does not understand. */
  lemma UnvalidatedIsAccepted(s: Sorter, config: MapConfig, evidence: seq<Evidence>)
    requires Sorts(s)
    ensures Accepts(s, Some(ObjectNode([GqlField("price", NullNode)])), [ByPredicate(Predicate(All, []))], config,
            evidence)
  {
    var where := ObjectNode([GqlField("price", NullNode)]);
    var none: seq<GqlField> := [];
    assert where.fields[1..] == none;
    assert Pushdown.Without(none, CURSOR) == none && Pushdown.Without(where.fields, CURSOR) == where.fields + none;
    assert Named(none, "or") == none && Named(none, "and") == none;
    assert GraphFields(where.fields, "", 0) == None;
    var filters := [ByPredicate(Predicate(All, []))];
    assert Pushdown.Flat([]) == [];
    assert ConfigGroups(filters[0], config, evidence) == Some([[]]);
    var start: seq<Group> := [[]];
    assert start[0] + start[0] == [] && Product(start, start) == Prepend(start[0], start) + Product(start[1..], start);
    assert Prepend(start[0], start) == start && Product(start[1..], start) == [];
    assert start + [] == start;
    assert CombineAnd(start, start) == Some(start);
    assert filters[1..] == [];
    assert QueryGroups(Some(where)) == Some(start);
  }
}
