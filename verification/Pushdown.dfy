/** The pushdown equivalence check (agent/pushdown-equivalence.ts): a provider query's where clause and a
    chain of local filters, both brought into groups of atoms, and compared up to order. */
module Pushdown {
  import opened Wrappers
  import opened Values
  import opened Filtering
  import opened Expressions
  import opened Maps

  // ---------------------------------------------------------------- the where clause

  /** A parsed GraphQL argument value. Scalar covers strings, enums and numbers, whose text is kept. */
  datatype Gql =
    | Scalar(text: string)
    | Flag(b: bool)
    | Variable(name: string)
    | NullNode
    | ListNode(items: seq<Gql>)
    | ObjectNode(fields: seq<GqlField>)

  datatype GqlField = GqlField(name: string, value: Gql)

  /** One comparison: a field path with its operator suffix, and a literal. */
  datatype Atom = Atom(name: string, literal: Value)

  type Group = seq<Atom>

  const MAX_GROUPS := 64
  const MAX_ATOMS := 64
  const CURSOR := "id_gt"

  function GraphLiterals(items: seq<Gql>): Option<seq<Value>>
    decreases items, 0
  {
    if items == [] then Some([])
    else
      var head :- GraphLiteral(items[0]);
      var tail :- GraphLiterals(items[1..]);
      Some([head] + tail)
  }

  function GraphLiteral(value: Gql): Option<Value>
    decreases value, 1
  {
    match value
    case Scalar(text) => Some(Text(text))
    case Flag(b) => Some(Bool(b))
    case Variable(name) => Some(Object(map["variable" := Text(name)]))
    case ListNode(items) => var literals :- GraphLiterals(items); Some(List(literals))
    case NullNode | ObjectNode(_) => None
  }

  function Within(prefix: string, name: string): string {
    if prefix == "" then name else prefix + "." + name
  }

  /** The atoms of one field of an object: a literal, or the fields of a relationship one level down. */
  function GraphField(field: GqlField, prefix: string, depth: nat): Option<Group>
    decreases field, 1
  {
    if field.value.ObjectNode? then
      if depth >= 1 || field.name == "" || field.name[|field.name| - 1] != '_' then None
      else
        var segment := field.name[..|field.name| - 1];
        if !IsName(segment) then None else GraphFields(field.value.fields, Within(prefix, segment), depth + 1)
    else
      var literal :- GraphLiteral(field.value);
      Some([Atom(Within(prefix, field.name), literal)])
  }

  function GraphFields(fields: seq<GqlField>, prefix: string, depth: nat): Option<Group>
    decreases fields, 0
  {
    if fields == [] then Some([])
    else
      var head :- GraphField(fields[0], prefix, depth);
      var tail :- GraphFields(fields[1..], prefix, depth);
      Some(head + tail)
  }

  lemma {:induction false} GraphFieldsPrefix(fields: seq<GqlField>, prefix: string, depth: nat, i: nat)
    requires i < |fields| && GraphFields(fields[..i], prefix, depth).Some?
    ensures GraphFields(fields[..i + 1], prefix, depth) ==
              match GraphField(fields[i], prefix, depth)
              case None => None
              case Some(atoms) => Some(GraphFields(fields[..i], prefix, depth).value + atoms)
    ensures GraphField(fields[i], prefix, depth).None? ==> GraphFields(fields, prefix, depth).None?
    decreases i
  {
    if i == 0 {
      assert fields[..0] == [] && fields[..1] == [fields[0]];
      assert GraphFields([fields[0]][1..], prefix, depth) == Some([]);
      var head := GraphField(fields[0], prefix, depth);
      if head.Some? {
        assert head.value + [] == [] + head.value;
      }
    } else {
      assert fields[..i][0] == fields[0] && fields[..i][1..] == fields[1..][..i - 1];
      assert fields[..i + 1][0] == fields[0] && fields[..i + 1][1..] == fields[1..][..i];
      GraphFieldsPrefix(fields[1..], prefix, depth, i - 1);
      var head, tail, atoms := GraphField(fields[0], prefix, depth).value,
        GraphFields(fields[1..][..i - 1], prefix, depth).value, GraphField(fields[i], prefix, depth);
      assert atoms.Some? ==> head + (tail + atoms.value) == (head + tail) + atoms.value;
    }
  }

  /** graphFields as written: one pass that grows the list of atoms and gives up at the first unsupported field. */
  method CollectGraphFields(fields: seq<GqlField>, prefix: string, depth: nat) returns (r: Option<Group>)
    ensures r == GraphFields(fields, prefix, depth)
    decreases fields
  {
    hide GraphFields;
    var atoms: Group := [];
    NoFields(prefix, depth);
    for i := 0 to |fields|
      invariant GraphFields(fields[..i], prefix, depth) == Some(atoms)
    {
      GraphFieldsPrefix(fields, prefix, depth, i);
      var field := fields[i];
      if field.value.ObjectNode? {
        if depth >= 1 || field.name == "" || field.name[|field.name| - 1] != '_' {
          return None;
        }
        var segment := field.name[..|field.name| - 1];
        if !IsName(segment) {
          return None;
        }
        var nested := CollectGraphFields(field.value.fields, Within(prefix, segment), depth + 1);
        if nested.None? {
          return None;
        }
        atoms := atoms + nested.value;
      } else {
        var literal := GraphLiteral(field.value);
        if literal.None? {
          return None;
        }
        atoms := atoms + [Atom(Within(prefix, field.name), literal.value)];
      }
    }
    assert fields[..|fields|] == fields;
    r := Some(atoms);
  }

  lemma NoFields(prefix: string, depth: nat)
    ensures GraphFields([], prefix, depth) == Some([])
  {
  }

  function Without(fields: seq<GqlField>, name: string): (r: seq<GqlField>)
    ensures forall f :: f in r <==> f in fields && f.name != name
  {
    if fields == [] then []
    else
      assert fields == [fields[0]] + fields[1..];
      if fields[0].name == name then Without(fields[1..], name) else [fields[0]] + Without(fields[1..], name)
  }

  function Named(fields: seq<GqlField>, name: string): (r: seq<GqlField>)
    ensures forall f :: f in r <==> f in fields && f.name == name
  {
    if fields == [] then []
    else
      assert fields == [fields[0]] + fields[1..];
      if fields[0].name == name then [fields[0]] + Named(fields[1..], name) else Named(fields[1..], name)
  }

  function BranchGroups(branches: seq<Gql>, common: Group): Option<seq<Group>> {
    if branches == [] then Some([])
    else if !branches[0].ObjectNode? then None
    else
      var head :- GraphFields(Without(branches[0].fields, CURSOR), "", 0);
      var tail :- BranchGroups(branches[1..], common);
      Some([common + head] + tail)
  }

  /** graphPredicateGroups, from the where argument of the single root field. An unsupported conjunction
      becomes one empty group. */
  function QueryGroups(where: Option<Gql>): Option<seq<Group>> {
    if where.None? || !where.value.ObjectNode? then None
    else
      var predicates := Without(where.value.fields, CURSOR);
      var disjunctions := Named(predicates, "or");
      if disjunctions != [] then
        if Named(predicates, "and") != [] || |disjunctions| != 1 then None
        else
          var common :- GraphFields(Without(predicates, "or"), "", 0);
          if !disjunctions[0].value.ListNode? then None else BranchGroups(disjunctions[0].value.items, common)
      else if Named(predicates, "and") != [] then None
      else Some([GraphFields(predicates, "", 0).GetOr([])])
  }

  // ---------------------------------------------------------------- local filters

  /** What schema inspection found out about a provider path. */
  datatype Evidence = Evidence(path: string, list: bool, nullable: bool)

  function DefinitionOf(fields: seq<Definition>, name: string): (r: Option<Definition>)
    ensures r.Some? ==> r.value in fields && r.value.name == name
  {
    if fields == [] then None else if fields[0].name == name then Some(fields[0]) else DefinitionOf(fields[1..], name)
  }

  function EvidenceFor(evidence: seq<Evidence>, path: string): Option<Evidence> {
    if evidence == [] then None else if evidence[0].path == path then Some(evidence[0])
      else EvidenceFor(evidence[1..], path)
  }

  predicate IsGraphPath(path: string) {
    |SplitPath(path)| > 1 && forall segment | segment in SplitPath(path) :: IsName(segment)
  }

  /** The provider path a semantic field copies, when filtering by it means filtering by the path. */
  function ProviderField(config: MapConfig, name: string, evidence: seq<Evidence>): (r: Option<string>)
    ensures r.Some? ==>
            DefinitionOf(config.fields, name).Some?
            && DefinitionOf(config.fields, name).value.expr == FieldRef(r.value)
  {
    var definition := DefinitionOf(config.fields, name);
    if definition.None? || !definition.value.expr.FieldRef? then None
    else
      var path := definition.value.expr.path;
      if IsName(path) then Some(path)
      else if !IsGraphPath(path) then None
      else
        var found := EvidenceFor(evidence, path);
        if found.Some? && !found.value.list && !found.value.nullable then Some(path) else None
  }

  function Suffix(op: FilterOp): Option<string> {
    match op
    case Eq => Some("")
    case Ne => Some("_not")
    case Lt => Some("_lt")
    case Lte => Some("_lte")
    case Gt => Some("_gt")
    case Gte => Some("_gte")
    case In => Some("_in")
    case NotIn => Some("_not_in")
    case _ => None
  }

  predicate IsPlain(v: Value) {
    v.Text? || v.Bool?
  }

  function ConditionAtoms(c: Condition, config: MapConfig, evidence: seq<Evidence>): Option<Group> {
    var field :- ProviderField(config, c.field, evidence);
    if c.op.Between? then
      if c.values.None? || |c.values.value| != 2 then None
      else Some([Atom(field + "_gte", c.values.value[0]), Atom(field + "_lte", c.values.value[1])])
    else
      var suffix :- Suffix(c.op);
      var literal :- if c.op.In? || c.op.NotIn? then (if c.values.Some? then Some(List(c.values.value)) else None)
        else c.value;
      if IsPlain(literal) || (literal.List? && forall item | item in literal.items :: IsPlain(item))
      then Some([Atom(field + suffix, literal)]) else None
  }

  function AllAtoms(conditions: seq<Condition>, config: MapConfig, evidence: seq<Evidence>): Option<seq<Group>> {
    if conditions == [] then Some([])
    else
      var head :- ConditionAtoms(conditions[0], config, evidence);
      var tail :- AllAtoms(conditions[1..], config, evidence);
      Some([head] + tail)
  }

  function Flat(groups: seq<Group>): Group {
    if groups == [] then [] else groups[0] + Flat(groups[1..])
  }

  function PredicateGroups(p: Predicate, config: MapConfig, evidence: seq<Evidence>): Option<seq<Group>> {
    var groups :- AllAtoms(p.conditions, config, evidence);
    Some(if p.combinator.Any? then groups else [Flat(groups)])
  }

  function OpOf(c: Comparison): FilterOp {
    match c
    case EqOp => Eq
    case NeOp => Ne
    case LtOp => Lt
    case LteOp => Lte
    case GtOp => Gt
    case GteOp => Gte
  }

  function Swap(c: Comparison): Comparison {
    match c
    case LtOp => GtOp
    case LteOp => GteOp
    case GtOp => LtOp
    case GteOp => LteOp
    case _ => c
  }

  function SideField(e: Expr, config: MapConfig, evidence: seq<Evidence>): Option<string> {
    if e.FieldRef? then ProviderField(config, e.path, evidence) else None
  }

  function SideLiteral(e: Expr): Option<Value> {
    if e.Literal? && IsPlain(e.value) then Some(e.value) else None
  }

  function SuffixText(c: Comparison): string {
    Suffix(OpOf(c)).GetOr("")
  }

  /** expressionComparisonGroups: a field against a literal, on either side. */
  function ComparisonGroups(e: Expr, config: MapConfig, evidence: seq<Evidence>): Option<seq<Group>> {
    if !e.Apply? || |e.inputs| != 2 || !e.op.Compare? then None
    else
      var (left, right) := (e.inputs[0], e.inputs[1]);
      if SideField(left, config, evidence).Some? && SideLiteral(right).Some? then
        Some([[Atom(SideField(left, config, evidence).value + SuffixText(e.op.comparison), SideLiteral(right).value)]])
      else if SideField(right, config, evidence).Some? && SideLiteral(left).Some? then
        Some([[Atom(SideField(right, config, evidence).value + SuffixText(Swap(e.op.comparison)),
          SideLiteral(left).value)]])
      else None
  }

  function Prepend(group: Group, groups: seq<Group>): (r: seq<Group>)
    ensures |r| == |groups| && forall i | 0 <= i < |r| :: r[i] == group + groups[i]
  {
    seq(|groups|, i requires 0 <= i < |groups| => group + groups[i])
  }

  function Product(left: seq<Group>, right: seq<Group>): seq<Group> {
    if left == [] then [] else Prepend(left[0], right) + Product(left[1..], right)
  }

  function CombineAnd(left: seq<Group>, right: seq<Group>): Option<seq<Group>> {
    if |left| * |right| > MAX_GROUPS then None
    else
      var groups := Product(left, right);
      if exists group | group in groups :: |group| > MAX_ATOMS then None else Some(groups)
  }

  /** filterExpressionGroups: the groups of an expression, and of the remaining inputs of an and/or on top
      of those found so far. */
  function ExpressionGroups(e: Expr, config: MapConfig, evidence: seq<Evidence>): Option<seq<Group>>
    decreases e, 1
  {
    if e.Apply? && (e.op.And? || e.op.Or?) then
      if |e.inputs| < 2 || |e.inputs| > 8 then None
      else LogicGroups(e.op.And?, e.inputs, config, evidence, if e.op.And? then [[]] else [])
    else ComparisonGroups(e, config, evidence)
  }

  function Joined(conjunction: bool, result: seq<Group>, groups: seq<Group>): Option<seq<Group>> {
    if conjunction then CombineAnd(result, groups)
    else if |result + groups| > MAX_GROUPS then None else Some(result + groups)
  }

  function LogicGroups(conjunction: bool, es: seq<Expr>, config: MapConfig, evidence: seq<Evidence>,
      result: seq<Group>): Option<seq<Group>>
    decreases es, 0
  {
    if es == [] then Some(result)
    else
      var groups :- ExpressionGroups(es[0], config, evidence);
      var next :- Joined(conjunction, result, groups);
      LogicGroups(conjunction, es[1..], config, evidence, next)
  }

  /** filterExpressionGroups as written, with its loop over the inputs. */
  method CollectExpressionGroups(e: Expr, config: MapConfig, evidence: seq<Evidence>) returns (r: Option<seq<Group>>)
    ensures r == ExpressionGroups(e, config, evidence)
    decreases e, 1
  {
    hide ComparisonGroups, CombineAnd;
    if !e.Apply? || !(e.op.And? || e.op.Or?) {
      return ComparisonGroups(e, config, evidence);
    }
    if |e.inputs| < 2 || |e.inputs| > 8 {
      return None;
    }
    r := CollectLogicGroups(e.op.And?, e.inputs, config, evidence);
  }

  method CollectLogicGroups(conjunction: bool, es: seq<Expr>, config: MapConfig, evidence: seq<Evidence>)
      returns (r: Option<seq<Group>>)
    ensures r == LogicGroups(conjunction, es, config, evidence, if conjunction then [[]] else [])
    decreases es, 0
  {
    hide ExpressionGroups, CombineAnd;
    var result: seq<Group> := if conjunction then [[]] else [];
    ghost var all := LogicGroups(conjunction, es, config, evidence, result);
    assert es[0..] == es;
    for i := 0 to |es|
      invariant all == LogicGroups(conjunction, es[i..], config, evidence, result)
    {
      assert es[i..][0] == es[i] && es[i..][1..] == es[i + 1..];
      var groups := CollectExpressionGroups(es[i], config, evidence);
      if groups.None? {
        return None;
      }
      if conjunction {
        var combined := CombineAnd(result, groups.value);
        if combined.None? {
          return None;
        }
        result := combined.value;
      } else {
        result := result + groups.value;
        if |result| > MAX_GROUPS {
          return None;
        }
      }
    }
    r := Some(result);
  }

  datatype FilterConfig = ByPredicate(p: Predicate) | ByExpression(e: Expr)

  function ConfigGroups(f: FilterConfig, config: MapConfig, evidence: seq<Evidence>): Option<seq<Group>> {
    match f
    case ByPredicate(p) => PredicateGroups(p, config, evidence)
    case ByExpression(e) => ExpressionGroups(e, config, evidence)
  }

  function ChainGroups(filters: seq<FilterConfig>, config: MapConfig, evidence: seq<Evidence>,
      result: seq<Group>): Option<seq<Group>> {
    if filters == [] then Some(result)
    else
      var groups :- ConfigGroups(filters[0], config, evidence);
      var next :- CombineAnd(result, groups);
      ChainGroups(filters[1..], config, evidence, next)
  }

  // ---------------------------------------------------------------- comparison up to order

  /** The two sorts of the canonical form: atoms of a group by their text, and groups by theirs. */
  datatype Sorter = Sorter(atoms: Group -> Group, groups: seq<Group> -> seq<Group>)

  ghost predicate Sorts(s: Sorter) {
    && (forall g: Group :: multiset(s.atoms(g)) == multiset(g))
    && forall gs: seq<Group> :: multiset(s.groups(gs)) == multiset(gs)
  }

  /** A sort whose result depends only on what is sorted. */
  ghost predicate Canonical(s: Sorter) {
    && (forall g: Group, h: Group :: multiset(g) == multiset(h) ==> s.atoms(g) == s.atoms(h))
    && forall gs: seq<Group>, hs: seq<Group> :: multiset(gs) == multiset(hs) ==> s.groups(gs) == s.groups(hs)
  }

  function SortEach(s: Sorter, groups: seq<Group>): (r: seq<Group>)
    ensures |r| == |groups| && forall i | 0 <= i < |r| :: r[i] == s.atoms(groups[i])
  {
    seq(|groups|, i requires 0 <= i < |groups| => s.atoms(groups[i]))
  }

  function CanonicalGroups(s: Sorter, groups: seq<Group>): seq<Group> {
    s.groups(SortEach(s, groups))
  }

  predicate Accepts(s: Sorter, where: Option<Gql>, filters: seq<FilterConfig>, config: MapConfig,
      evidence: seq<Evidence>) {
    var query, local := QueryGroups(where), ChainGroups(filters, config, evidence, [[]]);
    && query.Some? && filters != [] && local.Some?
    && CanonicalGroups(s, query.value) == CanonicalGroups(s, local.value)
  }

  /** matchesCompleteFilterPushdown as written. */
  method MatchesCompleteFilterPushdown(s: Sorter, where: Option<Gql>, filters: seq<FilterConfig>, config: MapConfig,
      evidence: seq<Evidence>)
    returns (r: bool)
    ensures r <==> Accepts(s, where, filters, config, evidence)
  {
    hide PredicateGroups, ExpressionGroups, CombineAnd;
    var query := QueryGroups(where);
    if query.None? || filters == [] {
      return false;
    }
    var local: seq<Group> := [[]];
    assert filters[0..] == filters;
    for i := 0 to |filters|
      invariant ChainGroups(filters, config, evidence, [[]]) == ChainGroups(filters[i..], config, evidence, local)
    {
      assert filters[i..][0] == filters[i] && filters[i..][1..] == filters[i + 1..];
      var groups: Option<seq<Group>>;
      match filters[i] {
        case ByPredicate(p) => groups := PredicateGroups(p, config, evidence);
        case ByExpression(e) => groups := CollectExpressionGroups(e, config, evidence);
      }
      if groups.None? {
        return false;
      }
      var combined := CombineAnd(local, groups.value);
      if combined.None? {
        return false;
      }
      local := combined.value;
    }
    r := CanonicalGroups(s, query.value) == CanonicalGroups(s, local);
  }
}
