/** How far the pushdown equivalence check reaches (agent/pushdown-equivalence.ts): which filters it can translate, and
    which translations a provider query can match at all. */
module PushdownReach {
  import opened Wrappers
  import opened Values
  import opened Filtering
  import opened Expressions
  import opened Maps
  import opened Pushdown
  import opened PushdownSoundness
  import Decimals

  // ---------------------------------------------------------------- which filters are translated

  /** A filter by the field can be a filter by a provider path: the Map copies it from a name, or from a path of names
      of which it is known that no list and no null is on it. */
  ghost predicate Copies(config: MapConfig, name: string, evidence: seq<Evidence>) {
    var d := DefinitionOf(config.fields, name);
    && d.Some? && d.value.expr.FieldRef?
    && var path := d.value.expr.path;
       && (forall segment | segment in SplitPath(path) :: IsName(segment))
       && (|SplitPath(path)| > 1 ==>
             EvidenceFor(evidence, path).Some? && !EvidenceFor(evidence, path).value.list
             && !EvidenceFor(evidence, path).value.nullable)
  }

  lemma {:induction false} NameHasNoPoint(s: string)
    requires IsName(s)
    ensures Decimals.PointAt(s) == |s| && SplitPath(s) == [s]
  {
  }

  lemma CopiesExactly(config: MapConfig, name: string, evidence: seq<Evidence>)
    ensures ProviderField(config, name, evidence).Some? <==> Copies(config, name, evidence)
  {
    var d := DefinitionOf(config.fields, name);
    if d.Some? && d.value.expr.FieldRef? {
      var path := d.value.expr.path;
      if IsName(path) {
        NameHasNoPoint(path);
      } else if |SplitPath(path)| == 1 {
        assert SplitPath(path) == [path];
        assert path in SplitPath(path);
      }
    }
  }

  /** A comparison with plain literals, of a field that can be filtered by at the provider. */
  ghost predicate Pushes(c: Condition, config: MapConfig, evidence: seq<Evidence>) {
    && Copies(config, c.field, evidence)
    && match c.op
       case IsNull | IsNotNull => false
       case Between => c.values.Some? && |c.values.value| == 2
       case In | NotIn => c.values.Some? && forall v | v in c.values.value :: IsPlain(v)
       case _ => c.value.Some? && (IsPlain(c.value.value)
                                   || (c.value.value.List? && forall v | v in c.value.value.items :: IsPlain(v)))
  }

  /** A predicate filter is translated exactly if every condition of it can be pushed. */
  lemma PredicateTranslatesExactly(p: Predicate, config: MapConfig, evidence: seq<Evidence>)
    ensures PredicateGroups(p, config, evidence).Some? <==> forall c | c in p.conditions :: Pushes(c, config, evidence)
  {
    hide Pushes, ConditionAtoms;
    AllTranslate(p.conditions, config, evidence);
  }

  lemma {:induction false} AllTranslate(conditions: seq<Condition>, config: MapConfig, evidence: seq<Evidence>)
    ensures AllAtoms(conditions, config, evidence).Some? <==> forall c | c in conditions :: Pushes(c, config, evidence)
  {
    if conditions != [] {
      hide Pushes, ConditionAtoms;
      assert conditions == [conditions[0]] + conditions[1..];
      ConditionTranslates(conditions[0], config, evidence);
      AllTranslate(conditions[1..], config, evidence);
    }
  }

  lemma ConditionTranslates(c: Condition, config: MapConfig, evidence: seq<Evidence>)
    ensures ConditionAtoms(c, config, evidence).Some? <==> Pushes(c, config, evidence)
  {
    hide Copies, ProviderField;
    CopiesExactly(config, c.field, evidence);
  }

  /** Comparisons of a field with a literal, on either side, under and/or of two to eight inputs. */
  ghost predicate Translatable(e: Expr, config: MapConfig, evidence: seq<Evidence>)
    decreases e, 1
  {
    if e.Apply? && (e.op.And? || e.op.Or?) then 2 <= |e.inputs| <= 8 && AllTranslatable(e.inputs, config, evidence)
    else
      && e.Apply? && e.op.Compare? && |e.inputs| == 2
      && (PushableSides(e.inputs[0], e.inputs[1], config, evidence)
          || PushableSides(e.inputs[1], e.inputs[0], config, evidence))
  }

  ghost predicate AllTranslatable(es: seq<Expr>, config: MapConfig, evidence: seq<Evidence>)
    decreases es, 0
  {
    es == [] || (Translatable(es[0], config, evidence) && AllTranslatable(es[1..], config, evidence))
  }

  ghost predicate PushableSides(field: Expr, literal: Expr, config: MapConfig, evidence: seq<Evidence>) {
    field.FieldRef? && Copies(config, field.path, evidence) && literal.Literal? && IsPlain(literal.value)
  }

  /** The number of groups of the disjunctive form: or adds, and multiplies. */
  ghost function Disjuncts(e: Expr): (n: nat)
    ensures e.Apply? && (e.op.And? || e.op.Or?) ==> n == DisjunctsOf(e.op.And?, e.inputs)
    ensures !(e.Apply? && (e.op.And? || e.op.Or?)) ==> n == 1
    decreases e, 1
  {
    if e.Apply? && (e.op.And? || e.op.Or?) then DisjunctsOf(e.op.And?, e.inputs) else 1
  }

  ghost function DisjunctsOf(conjunction: bool, es: seq<Expr>): nat
    decreases es, 0
  {
    if es == [] then (if conjunction then 1 else 0)
    else if conjunction then Disjuncts(es[0]) * DisjunctsOf(conjunction, es[1..])
    else Disjuncts(es[0]) + DisjunctsOf(conjunction, es[1..])
  }

  function Max(a: nat, b: nat): nat {
    if a > b then a else b
  }

  /** The length of its longest group: and adds, or takes the longest. */
  ghost function Width(e: Expr): nat
    decreases e, 1
  {
    if e.Apply? && (e.op.And? || e.op.Or?) then WidthOf(e.op.And?, e.inputs) else 1
  }

  ghost function WidthOf(conjunction: bool, es: seq<Expr>): nat
    decreases es, 0
  {
    if es == [] then 0
    else if conjunction then Width(es[0]) + WidthOf(conjunction, es[1..])
    else Max(Width(es[0]), WidthOf(conjunction, es[1..]))
  }

  ghost function Longest(groups: seq<Group>): nat {
    if groups == [] then 0 else Max(|groups[0]|, Longest(groups[1..]))
  }

  lemma {:induction false} LongestBounds(groups: seq<Group>, n: nat)
    ensures Longest(groups) <= n <==> forall group | group in groups :: |group| <= n
  {
    if groups != [] {
      assert groups == [groups[0]] + groups[1..];
      LongestBounds(groups[1..], n);
    }
  }

  lemma {:induction false} LongestConcat(a: seq<Group>, b: seq<Group>)
    ensures Longest(a + b) == Max(Longest(a), Longest(b))
  {
    if a == [] {
      assert a + b == b;
    } else {
      assert (a + b)[1..] == a[1..] + b;
      LongestConcat(a[1..], b);
    }
  }

  lemma {:induction false} LongestPrepend(group: Group, groups: seq<Group>)
    ensures groups != [] ==> Longest(Prepend(group, groups)) == |group| + Longest(groups)
  {
    if groups != [] {
      assert Prepend(group, groups)[1..] == Prepend(group, groups[1..]);
      LongestPrepend(group, groups[1..]);
    }
  }

  lemma MulStep(n: nat, r: nat)
    requires n > 0
    ensures r + (n - 1) * r == n * r
  {
  }

  lemma {:induction false} ProductSize(left: seq<Group>, right: seq<Group>)
    ensures |Product(left, right)| == |left| * |right|
    ensures left != [] && right != [] ==> Longest(Product(left, right)) == Longest(left) + Longest(right)
  {
    if left != [] {
      ProductSize(left[1..], right);
      MulStep(|left|, |right|);
      LongestConcat(Prepend(left[0], right), Product(left[1..], right));
      LongestPrepend(left[0], right);
    }
  }

  lemma CombineExactly(left: seq<Group>, right: seq<Group>)
    requires left != [] && right != []
    ensures CombineAnd(left, right).Some? <==>
              |left| * |right| <= MAX_GROUPS && Longest(left) + Longest(right) <= MAX_ATOMS
    ensures CombineAnd(left, right).Some? ==>
              && |CombineAnd(left, right).value| == |left| * |right|
              && Longest(CombineAnd(left, right).value) == Longest(left) + Longest(right)
  {
    hide Product, Longest;
    ProductSize(left, right);
    LongestBounds(Product(left, right), MAX_ATOMS);
  }

  ghost predicate Bounded(n: nat, width: nat) {
    n <= MAX_GROUPS && width <= MAX_ATOMS
  }

  /** An expression filter is translated exactly if it is built from pushable comparisons by and/or and its disjunctive
      form has at most 64 groups of at most 64 comparisons. */
  lemma {:induction false} ExpressionTranslatesExactly(e: Expr, config: MapConfig, evidence: seq<Evidence>)
    ensures ExpressionGroups(e, config, evidence).Some? <==>
              Translatable(e, config, evidence) && Disjuncts(e) <= MAX_GROUPS && Width(e) <= MAX_ATOMS
    ensures ExpressionGroups(e, config, evidence).Some? ==>
              && |ExpressionGroups(e, config, evidence).value| == Disjuncts(e) >= 1
              && Longest(ExpressionGroups(e, config, evidence).value) == Width(e)
    decreases e, 1
  {
    hide Copies, ProviderField, Longest, Joined;
    if e.Apply? && (e.op.And? || e.op.Or?) {
      var start: seq<Group> := if e.op.And? then [[]] else [];
      StartIsEmpty();
      LogicTranslates(e.op.And?, e.inputs, config, evidence, start);
    } else if e.Apply? && e.op.Compare? && |e.inputs| == 2 {
      SidesTranslate(e.inputs[0], e.inputs[1], config, evidence);
      SidesTranslate(e.inputs[1], e.inputs[0], config, evidence);
      OneIsLongest(e, config, evidence);
    }
  }

  lemma StartIsEmpty()
    ensures Longest([]) == 0 && Longest([[]]) == 0
  {
    var start: seq<Group> := [[]];
    assert start[1..] == [];
  }

  lemma OneIsLongest(e: Expr, config: MapConfig, evidence: seq<Evidence>)
    ensures ComparisonGroups(e, config, evidence).Some? ==>
              |ComparisonGroups(e, config, evidence).value| == 1
              && Longest(ComparisonGroups(e, config, evidence).value) == 1
  {
    hide ProviderField;
    if ComparisonGroups(e, config, evidence).Some? {
      var groups := ComparisonGroups(e, config, evidence).value;
      assert groups[1..] == [] && |groups[0]| == 1;
    }
  }

  lemma SidesTranslate(field: Expr, literal: Expr, config: MapConfig, evidence: seq<Evidence>)
    ensures SideField(field, config, evidence).Some? && SideLiteral(literal).Some? <==>
            PushableSides(field, literal, config, evidence)
  {
    hide Copies, ProviderField;
    if field.FieldRef? {
      CopiesExactly(config, field.path, evidence);
    }
  }

  /** The bounds of the fold over the inputs, from the groups found so far. */
  ghost predicate FoldBounded(conjunction: bool, es: seq<Expr>, result: seq<Group>) {
    if conjunction
    then Bounded(|result| * DisjunctsOf(true, es), Longest(result) + WidthOf(true, es))
    else Bounded(|result| + DisjunctsOf(false, es), Max(Longest(result), WidthOf(false, es)))
  }

  lemma MulGrows(a: nat, b: nat, n: nat)
    ensures a * b * n == a * (b * n)
    ensures n >= 1 ==> a * b <= a * (b * n)
    ensures a >= 1 && n >= 1 ==> b <= a * (b * n)
  {
  }

  /** One more input, with the bounds of those that follow. */
  lemma JoinBounds(conjunction: bool, result: seq<Group>, groups: seq<Group>, n: nat, width: nat)
    requires groups != [] && (conjunction ==> result != [])
    requires Longest(result) <= MAX_ATOMS && Longest(groups) <= MAX_ATOMS
    ensures conjunction && n >= 1 && Bounded(|result| * (|groups| * n), Longest(result) + (Longest(groups) + width)) ==>
              Joined(conjunction, result, groups).Some?
    ensures !conjunction && Bounded(|result| + (|groups| + n), 0) ==> Joined(conjunction, result, groups).Some?
    ensures var next := Joined(conjunction, result, groups);
            next.Some? ==>
              && next.value != [] && |next.value| <= MAX_GROUPS && Longest(next.value) <= MAX_ATOMS
              && (conjunction ==> |next.value| * n == |result| * (|groups| * n)
                                  && Longest(next.value) == Longest(result) + Longest(groups))
              && (!conjunction ==> |next.value| == |result| + |groups|
                                   && Longest(next.value) == Max(Longest(result), Longest(groups)))
  {
    hide Longest, CombineAnd;
    if conjunction {
      CombineExactly(result, groups);
      MulGrows(|result|, |groups|, n);
      MulGrows(|result|, |groups|, 1);
    } else {
      LongestConcat(result, groups);
    }
  }

  /** An input that is too large by itself makes the whole too large. */
  lemma TooLarge(conjunction: bool, es: seq<Expr>, result: seq<Group>)
    requires es != [] && !Bounded(Disjuncts(es[0]), Width(es[0]))
    requires conjunction ==> result != [] && DisjunctsOf(true, es[1..]) >= 1
    ensures !FoldBounded(conjunction, es, result)
  {
    hide Longest, Disjuncts, Width;
    if conjunction {
      MulGrows(|result|, Disjuncts(es[0]), DisjunctsOf(true, es[1..]));
    }
  }

  lemma {:induction false} LogicTranslates(conjunction: bool, es: seq<Expr>, config: MapConfig,
      evidence: seq<Evidence>, result: seq<Group>)
    requires |result| <= MAX_GROUPS && Longest(result) <= MAX_ATOMS && (conjunction ==> result != [])
    ensures LogicGroups(conjunction, es, config, evidence, result).Some? <==>
              AllTranslatable(es, config, evidence) && FoldBounded(conjunction, es, result)
    ensures var r := LogicGroups(conjunction, es, config, evidence, result);
            r.Some? ==>
              && (conjunction ==> |r.value| == |result| * DisjunctsOf(true, es)
                                  && Longest(r.value) == Longest(result) + WidthOf(true, es))
              && (!conjunction ==> |r.value| == |result| + DisjunctsOf(false, es)
                                   && Longest(r.value) == Max(Longest(result), WidthOf(false, es)))
              && (es != [] ==> r.value != [])
    decreases es, 0
  {
    hide ExpressionGroups, Translatable, Longest, CombineAnd, Disjuncts, Width;
    if es != [] {
      ExpressionTranslatesExactly(es[0], config, evidence);
      AtLeastOne(conjunction, es[1..], config, evidence);
      var groups := ExpressionGroups(es[0], config, evidence);
      if groups.Some? {
        JoinBounds(conjunction, result, groups.value, DisjunctsOf(conjunction, es[1..]),
          WidthOf(conjunction, es[1..]));
        var next := Joined(conjunction, result, groups.value);
        if next.Some? {
          LogicTranslates(conjunction, es[1..], config, evidence, next.value);
        }
      } else if AllTranslatable(es, config, evidence) {
        TooLarge(conjunction, es, result);
      }
    }
  }

  lemma {:induction false} AtLeastOne(conjunction: bool, es: seq<Expr>, config: MapConfig, evidence: seq<Evidence>)
    ensures AllTranslatable(es, config, evidence) ==>
              (conjunction || es != []) ==> DisjunctsOf(conjunction, es) >= 1
    decreases es, 0
  {
    if es != [] && AllTranslatable(es, config, evidence) {
      AtLeastOneIn(es[0], config, evidence);
      AtLeastOne(conjunction, es[1..], config, evidence);
    }
  }

  lemma {:induction false} AtLeastOneIn(e: Expr, config: MapConfig, evidence: seq<Evidence>)
    ensures Translatable(e, config, evidence) ==> Disjuncts(e) >= 1
    decreases e, 1
  {
    if e.Apply? && (e.op.And? || e.op.Or?) {
      AtLeastOne(e.op.And?, e.inputs, config, evidence);
    }
  }

  // ---------------------------------------------------------------- chains of filters

  ghost predicate ConfigTranslatable(f: FilterConfig, config: MapConfig, evidence: seq<Evidence>) {
    match f
    case ByPredicate(p) => forall c | c in p.conditions :: Pushes(c, config, evidence)
    case ByExpression(e) =>
      Translatable(e, config, evidence) && Disjuncts(e) <= MAX_GROUPS && Width(e) <= MAX_ATOMS
  }

  ghost function ConditionWidth(c: Condition): nat {
    if c.op.Between? then 2 else 1
  }

  ghost function ConditionsWidth(conjunction: bool, conditions: seq<Condition>): nat {
    if conditions == [] then 0
    else if conjunction then ConditionWidth(conditions[0]) + ConditionsWidth(conjunction, conditions[1..])
    else Max(ConditionWidth(conditions[0]), ConditionsWidth(conjunction, conditions[1..]))
  }

  ghost function ConfigDisjuncts(f: FilterConfig): nat {
    match f
    case ByPredicate(p) => if p.combinator.Any? then |p.conditions| else 1
    case ByExpression(e) => Disjuncts(e)
  }

  ghost function ConfigWidth(f: FilterConfig): nat {
    match f
    case ByPredicate(p) => ConditionsWidth(p.combinator.All?, p.conditions)
    case ByExpression(e) => Width(e)
  }

  lemma {:induction false} AtomsWidth(conditions: seq<Condition>, config: MapConfig, evidence: seq<Evidence>)
    requires AllAtoms(conditions, config, evidence).Some?
    ensures var groups := AllAtoms(conditions, config, evidence).value;
            && |groups| == |conditions| && Longest(groups) == ConditionsWidth(false, conditions)
            && |Pushdown.Flat(groups)| == ConditionsWidth(true, conditions)
  {
    hide ProviderField;
    if conditions != [] {
      var groups := AllAtoms(conditions, config, evidence).value;
      AtomsWidth(conditions[1..], config, evidence);
      assert groups[1..] == AllAtoms(conditions[1..], config, evidence).value;
    }
  }

  lemma LongestOne(group: Group)
    ensures Longest([group]) == |group|
  {
    assert [group][1..] == [];
  }

  lemma ConfigTranslates(f: FilterConfig, config: MapConfig, evidence: seq<Evidence>)
    ensures ConfigGroups(f, config, evidence).Some? <==> ConfigTranslatable(f, config, evidence)
    ensures ConfigGroups(f, config, evidence).Some? ==>
              && |ConfigGroups(f, config, evidence).value| == ConfigDisjuncts(f)
              && Longest(ConfigGroups(f, config, evidence).value) == ConfigWidth(f)
              && (f.ByExpression? ==> ConfigDisjuncts(f) >= 1)
  {
    hide Longest, AllAtoms, ExpressionGroups, Pushes, Translatable, Disjuncts, Width, ConditionsWidth, Pushdown.Flat;
    match f
    case ByExpression(e) =>
      ExpressionTranslatesExactly(e, config, evidence);
    case ByPredicate(p) =>
      PredicateTranslatesExactly(p, config, evidence);
      if AllAtoms(p.conditions, config, evidence).Some? {
        AtomsWidth(p.conditions, config, evidence);
        LongestOne(Pushdown.Flat(AllAtoms(p.conditions, config, evidence).value));
      }
  }

  ghost function ChainDisjuncts(filters: seq<FilterConfig>): nat {
    if filters == [] then 1 else ConfigDisjuncts(filters[0]) * ChainDisjuncts(filters[1..])
  }

  ghost function ChainWidth(filters: seq<FilterConfig>): nat {
    if filters == [] then 0 else ConfigWidth(filters[0]) + ChainWidth(filters[1..])
  }

  ghost predicate NoneEmpty(filters: seq<FilterConfig>) {
    forall f | f in filters && f.ByPredicate? :: f.p.conditions != []
  }

  ghost predicate ChainTranslatable(filters: seq<FilterConfig>, config: MapConfig, evidence: seq<Evidence>) {
    forall f | f in filters :: ConfigTranslatable(f, config, evidence)
  }

  lemma {:induction false} ChainAtLeastOne(filters: seq<FilterConfig>, config: MapConfig, evidence: seq<Evidence>)
    requires NoneEmpty(filters) && ChainTranslatable(filters, config, evidence)
    ensures ChainDisjuncts(filters) >= 1
  {
    if filters != [] {
      hide ConfigTranslatable, ConfigGroups, ConfigDisjuncts;
      var f, rest := filters[0], filters[1..];
      assert filters == [f] + rest;
      OneAtLeastOne(f, config, evidence);
      ChainAtLeastOne(rest, config, evidence);
      MulGrows(1, ConfigDisjuncts(f), ChainDisjuncts(rest));
    }
  }

  lemma OneAtLeastOne(f: FilterConfig, config: MapConfig, evidence: seq<Evidence>)
    requires f.ByPredicate? ==> f.p.conditions != []
    requires ConfigTranslatable(f, config, evidence)
    ensures ConfigDisjuncts(f) >= 1
  {
    hide Translatable, Disjuncts, ExpressionGroups, Pushes;
    ConfigTranslates(f, config, evidence);
  }

  /** A chain of filters is translated exactly if each of them is and their conjunction stays within the bounds. */
  lemma {:induction false} ChainTranslatesExactly(filters: seq<FilterConfig>, config: MapConfig,
      evidence: seq<Evidence>, result: seq<Group>)
    requires NoneEmpty(filters) && result != [] && Bounded(|result|, Longest(result))
    ensures ChainGroups(filters, config, evidence, result).Some? <==>
              && ChainTranslatable(filters, config, evidence)
              && Bounded(|result| * ChainDisjuncts(filters), Longest(result) + ChainWidth(filters))
    decreases filters
  {
    hide ConfigGroups, ConfigTranslatable, ConfigDisjuncts, ConfigWidth, Longest, CombineAnd;
    if filters != [] {
      var f, rest := filters[0], filters[1..];
      assert filters == [f] + rest;
      ConfigTranslates(f, config, evidence);
      if ConfigTranslatable(f, config, evidence) {
        OneAtLeastOne(f, config, evidence);
        var groups := ConfigGroups(f, config, evidence).value;
        CombineExactly(result, groups);
        MulGrows(|result|, |groups|, ChainDisjuncts(rest));
        MulGrows(|result|, |groups|, 1);
        if ChainTranslatable(rest, config, evidence) {
          ChainAtLeastOne(rest, config, evidence);
        }
        if CombineAnd(result, groups).Some? {
          ChainTranslatesExactly(rest, config, evidence, CombineAnd(result, groups).value);
        }
      }
    }
  }

  // ---------------------------------------------------------------- what a query can say

  predicate Dotless(name: string) {
    forall c | c in name :: c != '.'
  }

  /** GraphQL names have no points. */
  predicate WellNamed(g: Gql)
    decreases g
  {
    match g
    case ObjectNode(fields) => forall f | f in fields :: Dotless(f.name) && WellNamed(f.value)
    case ListNode(items) => forall item | item in items :: WellNamed(item)
    case _ => true
  }

  /** A field of the entity that is not the pagination cursor, or a field of one related entity. */
  ghost predicate Nameable(name: string) {
    || (Dotless(name) && name != CURSOR)
    || exists i :: 0 <= i < |name| && name[i] == '.' && IsName(name[..i]) && Dotless(name[i + 1..])
  }

  /** Texts, flags, variables, and lists of these. */
  predicate Writable(v: Value) {
    match v
    case Text(_) | Bool(_) => true
    case List(items) => forall item | item in items :: Writable(item)
    case Object(fields) => fields.Keys == {"variable"} && fields["variable"].Text?
    case _ => false
  }

  ghost predicate Sayable(a: Atom) {
    Nameable(a.name) && Writable(a.literal)
  }

  ghost predicate AllSayable(group: Group) {
    forall a | a in group :: Sayable(a)
  }

  lemma {:induction false} LiteralIsWritable(g: Gql)
    ensures GraphLiteral(g).Some? ==> Writable(GraphLiteral(g).value)
    decreases g, 1
  {
    if g.ListNode? {
      LiteralsAreWritable(g.items);
    }
  }

  lemma {:induction false} LiteralsAreWritable(items: seq<Gql>)
    ensures GraphLiterals(items).Some? ==> forall v | v in GraphLiterals(items).value :: Writable(v)
    decreases items, 0
  {
    if items != [] {
      LiteralIsWritable(items[0]);
      LiteralsAreWritable(items[1..]);
    }
  }

  /** The fields of the entity, or of a related one. */
  ghost predicate Level(fields: seq<GqlField>, prefix: string, depth: nat) {
    && (forall f | f in fields :: Dotless(f.name) && WellNamed(f.value))
    && if depth == 0 then prefix == "" && forall f | f in fields :: f.name != CURSOR else depth == 1 && IsName(prefix)
  }

  lemma {:induction false} FieldsAreSayable(fields: seq<GqlField>, prefix: string, depth: nat)
    requires Level(fields, prefix, depth) && GraphFields(fields, prefix, depth).Some?
    ensures AllSayable(GraphFields(fields, prefix, depth).value)
    decreases fields, 0
  {
    if fields != [] {
      hide Sayable, GraphField, Dotless;
      assert fields == [fields[0]] + fields[1..];
      FieldIsSayable(fields[0], prefix, depth);
      FieldsAreSayable(fields[1..], prefix, depth);
    }
  }

  lemma {:induction false} FieldIsSayable(field: GqlField, prefix: string, depth: nat)
    requires Level([field], prefix, depth) && GraphField(field, prefix, depth).Some?
    ensures AllSayable(GraphField(field, prefix, depth).value)
    decreases field, 1
  {
    hide Sayable, GraphFields, IsName, Writable;
    assert field in [field];
    if field.value.ObjectNode? {
      FieldsAreSayable(field.value.fields, Within(prefix, field.name[..|field.name| - 1]), depth + 1);
    } else {
      var a := Atom(Within(prefix, field.name), GraphLiteral(field.value).value);
      LiteralIsWritable(field.value);
      NameIsNameable(prefix, field.name, depth);
      assert Sayable(a) by { SayableIs(a); }
    }
  }

  lemma SayableIs(a: Atom)
    requires Nameable(a.name) && Writable(a.literal)
    ensures Sayable(a)
  {
  }

  lemma NameIsNameable(prefix: string, name: string, depth: nat)
    requires Dotless(name) && if depth == 0 then prefix == "" && name != CURSOR else IsName(prefix)
    ensures Nameable(Within(prefix, name))
  {
    if depth > 0 {
      var all := Within(prefix, name);
      assert all[..|prefix|] == prefix && all[|prefix|] == '.' && all[|prefix| + 1..] == name;
    }
  }

  lemma {:induction false} BranchesAreSayable(branches: seq<Gql>, common: Group)
    requires (forall b | b in branches :: WellNamed(b)) && AllSayable(common)
    requires BranchGroups(branches, common).Some?
    ensures forall group | group in BranchGroups(branches, common).value :: AllSayable(group)
  {
    if branches != [] {
      hide Sayable, GraphFields, WellNamed;
      assert branches == [branches[0]] + branches[1..];
      var fields := Pushdown.Without(branches[0].fields, CURSOR);
      BranchLevel(branches[0]);
      FieldsAreSayable(fields, "", 0);
      BranchesAreSayable(branches[1..], common);
    }
  }

  lemma BranchLevel(branch: Gql)
    requires WellNamed(branch) && branch.ObjectNode?
    ensures Level(Pushdown.Without(branch.fields, CURSOR), "", 0)
  {
  }

  /** Every group of a well-named query consists of atoms a query can say. */
  lemma QueryIsSayable(where: Gql)
    requires WellNamed(where) && QueryGroups(Some(where)).Some?
    ensures forall group | group in QueryGroups(Some(where)).value :: AllSayable(group)
  {
    hide Sayable, GraphFields, BranchGroups;
    var predicates := Pushdown.Without(where.fields, CURSOR);
    var disjunctions, plain := Named(predicates, "or"), Pushdown.Without(predicates, "or");
    BranchLevel(where);
    if disjunctions != [] {
      FieldsAreSayable(plain, "", 0);
      assert disjunctions[0] in predicates;
      BranchesAreSayable(disjunctions[0].value.items, GraphFields(plain, "", 0).value);
    } else if GraphFields(predicates, "", 0).Some? {
      FieldsAreSayable(predicates, "", 0);
    }
  }

  lemma SameAtoms(a: seq<Group>, b: seq<Group>)
    requires SameUpToOrder(a, b) && forall group | group in a :: AllSayable(group)
    ensures forall group | group in b :: AllSayable(group)
  {
    hide Sayable;
    forall i: nat | i < |b|
      ensures AllSayable(b[i])
    {
      assert Bags(b)[i] in multiset(Bags(b)) && Bags(b)[i] in multiset(Bags(a));
      var j :| 0 <= j < |a| && Bags(a)[j] == Bags(b)[i];
      assert a[j] in a;
      forall x | x in b[i]
        ensures Sayable(x)
      {
        assert x in multiset(b[i]) && x in multiset(a[j]);
      }
    }
  }

  // ---------------------------------------------------------------- saying it

  function Write(v: Value): (g: Gql)
    requires Writable(v)
    ensures GraphLiteral(g) == Some(v) && WellNamed(g) && !g.ObjectNode?
    decreases v, 1
  {
    match v
    case Text(s) => Scalar(s)
    case Bool(b) => Gql.Flag(b)
    case List(items) => ListNode(WriteAll(items))
    case Object(fields) =>
      assert fields == map["variable" := Text(fields["variable"].s)];
      Variable(fields["variable"].s)
    case _ => assert false; NullNode
  }

  function WriteAll(items: seq<Value>): (r: seq<Gql>)
    requires forall item | item in items :: Writable(item)
    ensures GraphLiterals(r) == Some(items) && forall g | g in r :: WellNamed(g)
    decreases items, 0
  {
    if items == [] then []
    else
      assert items == [items[0]] + items[1..];
      [Write(items[0])] + WriteAll(items[1..])
  }

  ghost function FieldFor(a: Atom): (f: GqlField)
    requires Sayable(a)
    ensures GraphField(f, "", 0) == Some([a]) && Dotless(f.name) && WellNamed(f.value) && f.name != CURSOR
  {
    hide IsName, GraphField, Writable, WellNamed;
    if Dotless(a.name) then
      assert GraphField(GqlField(a.name, Write(a.literal)), "", 0) == Some([a]) by { OwnField(a); }
      GqlField(a.name, Write(a.literal))
    else
      var i :| 0 <= i < |a.name| && a.name[i] == '.' && IsName(a.name[..i]) && Dotless(a.name[i + 1..]);
      RelatedField(a, i);
      GqlField(a.name[..i] + "_", ObjectNode([GqlField(a.name[i + 1..], Write(a.literal))]))
  }

  lemma OwnField(a: Atom)
    requires Writable(a.literal)
    ensures GraphField(GqlField(a.name, Write(a.literal)), "", 0) == Some([a])
  {
    hide Writable, WellNamed;
  }

  lemma RelatedField(a: Atom, i: nat)
    requires i < |a.name| && a.name[i] == '.' && IsName(a.name[..i]) && Dotless(a.name[i + 1..]) && Writable(a.literal)
    ensures var f := GqlField(a.name[..i] + "_", ObjectNode([GqlField(a.name[i + 1..], Write(a.literal))]));
            GraphField(f, "", 0) == Some([a]) && Dotless(f.name) && WellNamed(f.value) && f.name != CURSOR
  {
    hide IsName;
    var segment, inner := a.name[..i], GqlField(a.name[i + 1..], Write(a.literal));
    var name := segment + "_";
    assert name[..|name| - 1] == segment && name[|name| - 1] == '_';
    assert CURSOR[|CURSOR| - 1] == 't';
    NamesAreDotless(segment);
    assert Within(segment, inner.name) == a.name;
    OneField(inner, segment, 1, a);
  }

  lemma NamesAreDotless(name: string)
    requires IsName(name)
    ensures name != "" && Dotless(name)
  {
  }

  lemma OneField(field: GqlField, prefix: string, depth: nat, a: Atom)
    requires GraphField(field, prefix, depth) == Some([a])
    ensures GraphFields([field], prefix, depth) == Some([a])
  {
    hide GraphField;
    var none: seq<GqlField> := [];
    assert [field][1..] == none && GraphFields(none, prefix, depth) == Some([]);
    assert [a] + [] == [a];
  }

  ghost function FieldsFor(group: Group): (r: seq<GqlField>)
    requires AllSayable(group)
    ensures GraphFields(r, "", 0) == Some(group)
    ensures forall f | f in r :: Dotless(f.name) && WellNamed(f.value) && f.name != CURSOR
  {
    hide GraphField, Sayable;
    if group == [] then []
    else
      assert group == [group[0]] + group[1..];
      [FieldFor(group[0])] + FieldsFor(group[1..])
  }

  lemma {:induction false} NothingWithout(fields: seq<GqlField>, name: string)
    requires forall f | f in fields :: f.name != name
    ensures Pushdown.Without(fields, name) == fields && Named(fields, name) == []
  {
    if fields != [] {
      assert fields == [fields[0]] + fields[1..];
      NothingWithout(fields[1..], name);
    }
  }

  ghost function BranchesFor(groups: seq<Group>): (r: seq<Gql>)
    requires forall group | group in groups :: AllSayable(group)
    ensures BranchGroups(r, []) == Some(groups) && forall g | g in r :: WellNamed(g)
  {
    if groups == [] then []
    else
      assert groups == [groups[0]] + groups[1..];
      var fields := FieldsFor(groups[0]);
      NothingWithout(fields, CURSOR);
      assert [] + groups[0] == groups[0];
      [ObjectNode(fields)] + BranchesFor(groups[1..])
  }

  /** The where clause that says the groups: one disjunction of them. */
  ghost function WhereFor(groups: seq<Group>): (where: Gql)
    requires forall group | group in groups :: AllSayable(group)
    ensures WellNamed(where) && QueryGroups(Some(where)) == Some(groups)
  {
    var field := GqlField("or", ListNode(BranchesFor(groups)));
    OnlyDisjunction(field);
    ObjectNode([field])
  }

  lemma OnlyDisjunction(field: GqlField)
    requires field.name == "or" && field.value.ListNode?
    ensures QueryGroups(Some(ObjectNode([field]))) == BranchGroups(field.value.items, [])
  {
    hide BranchGroups;
    var fields, none: seq<GqlField> := [field], [];
    assert fields[1..] == none && Pushdown.Without(none, CURSOR) == none && Named(none, "or") == none
           && Named(none, "and") == none && Pushdown.Without(none, "or") == none;
    assert "or"[0] == 'o' && CURSOR[0] == 'i' && "and"[0] == 'a';
    assert Pushdown.Without(fields, CURSOR) == [field] + none == fields;
    assert Named(fields, "or") == [field] + none == fields;
    assert Named(fields, "and") == none && Pushdown.Without(fields, "or") == none;
    assert GraphFields(none, "", 0) == Some([]);
  }

  /** A chain that can be translated is matched by some provider query, under GraphQL's naming, exactly if every
      comparison of the translation is one a query can say: the field is one of the entity itself or of an entity
      directly related to it, the comparison is not that of the pagination cursor, and the literal can be written. */
  lemma MatchedExactly(s: Sorter, filters: seq<FilterConfig>, config: MapConfig, evidence: seq<Evidence>)
    requires Sorts(s) && Canonical(s) && filters != [] && ChainGroups(filters, config, evidence, [[]]).Some?
    ensures (exists where :: WellNamed(where) && Accepts(s, Some(where), filters, config, evidence)) <==>
              forall group | group in ChainGroups(filters, config, evidence, [[]]).value :: AllSayable(group)
  {
    hide ChainGroups, QueryGroups, Sorts, Canonical, SameUpToOrder, Sayable, CanonicalGroups, WellNamed;
    var local := ChainGroups(filters, config, evidence, [[]]).value;
    forall where | WellNamed(where) && Accepts(s, Some(where), filters, config, evidence)
      ensures forall group | group in local :: AllSayable(group)
    {
      AcceptsExactly(s, Some(where), filters, config, evidence);
      QueryIsSayable(where);
      SameAtoms(QueryGroups(Some(where)).value, local);
    }
    if forall group | group in local :: AllSayable(group) {
      var where := WhereFor(local);
      assert Accepts(s, Some(where), filters, config, evidence);
    }
  }

  /** So a filter for greater identifiers, whose translation reads like the cursor, is never pushed; nor is one by a
      field two relations away, although inspection may have proved its path. */
  lemma NeverMatched(s: Sorter, where: Gql, filters: seq<FilterConfig>, config: MapConfig, evidence: seq<Evidence>,
      group: Group, a: Atom)
    requires Sorts(s) && Canonical(s) && WellNamed(where) && filters != []
    requires ChainGroups(filters, config, evidence, [[]]).Some?
    requires group in ChainGroups(filters, config, evidence, [[]]).value && a in group
    requires a.name == CURSOR || exists i, j :: 0 <= i < j < |a.name| && a.name[i] == '.' && a.name[j] == '.'
    ensures !Accepts(s, Some(where), filters, config, evidence)
  {
    hide ChainGroups, QueryGroups, Sorts, Canonical, CanonicalGroups, WellNamed, Accepts;
    MatchedExactly(s, filters, config, evidence);
    Unsayable(a);
  }

  lemma Unsayable(a: Atom)
    requires a.name == CURSOR || exists i, j :: 0 <= i < j < |a.name| && a.name[i] == '.' && a.name[j] == '.'
    ensures !Sayable(a)
  {
    hide Writable, IsName;
    if a.name == CURSOR {
      CursorHasNoPoint();
    } else {
      var i, j :| 0 <= i < j < |a.name| && a.name[i] == '.' && a.name[j] == '.';
      assert a.name[i] in a.name;
      forall k | 0 <= k < |a.name| && a.name[k] == '.' && IsName(a.name[..k])
        ensures !Dotless(a.name[k + 1..])
      {
        TwoPoints(a.name, i, j, k);
      }
    }
  }

  lemma CursorHasNoPoint()
    ensures forall i | 0 <= i < |CURSOR| :: CURSOR[i] != '.'
  {
  }

  lemma TwoPoints(name: string, i: nat, j: nat, k: nat)
    requires i < j < |name| && name[i] == '.' && name[j] == '.'
    requires k < |name| && IsName(name[..k])
    ensures !Dotless(name[k + 1..])
  {
    NamesAreDotless(name[..k]);
    hide IsName;
    assert forall m: nat | m < k :: name[m] == name[..k][m] && name[..k][m] in name[..k];
    assert name[k + 1..][j - k - 1] in name[k + 1..];
  }
}
