/** Row values, field types and row shapes shared by every operator of the data plan. */
module Values {
  import opened Wrappers

  /** A JSON value as it travels through a row. Int stands for an integral number. */
  datatype Value =
    | Undefined
    | Null
    | Bool(b: bool)
    | Int(n: int)
    | Text(s: string)
    | List(items: seq<Value>)
    | Object(fields: map<string, Value>)

  type Row = map<string, Value>

  predicate Missing(v: Value) {
    v.Null? || v.Undefined?
  }

  datatype FieldType =
    | BooleanType | StringType | IdType | AddressType | BytesType
    | IntegerType | DecimalType | TimestampType | DateType | JsonType

  predicate Textual(t: FieldType) {
    t.StringType? || t.IdType? || t.AddressType? || t.BytesType?
  }

  predicate Numeric(t: FieldType) {
    t.IntegerType? || t.DecimalType?
  }

  datatype Field = Field(name: string, ty: FieldType, nullable: bool, unit: Option<string>)

  type Shape = seq<Field>

  /** Why an operator throws. BadValue is the only kind a compiled plan is allowed to raise. */
  datatype Error =
    | MissingField(name: string)
    | UnexpectedNull(name: string)
    | WrongKind(what: string)
    | InvalidConfig(code: string)
    | Unavailable(what: string)
    | BadValue(what: string)

  type Try<T> = Result<T, Error>

  /** The lookup of a JavaScript Map built from a field list: a later entry wins. */
  function Lookup(shape: Shape, name: string): (r: Option<Field>)
    ensures r.Some? ==> r.value in shape && r.value.name == name
    ensures r.None? ==> forall f | f in shape :: f.name != name
  {
    if |shape| == 0 then None
    else if shape[|shape| - 1].name == name then Some(shape[|shape| - 1])
    else Lookup(shape[..|shape| - 1], name)
  }

  predicate Unique(shape: Shape) {
    forall i, j | 0 <= i < j < |shape| :: shape[i].name != shape[j].name
  }

  function Names(shape: Shape): (names: set<string>)
    ensures forall f | f in shape :: f.name in names
  {
    set f | f in shape :: f.name
  }

  lemma LookupUnique(shape: Shape, f: Field)
    requires Unique(shape) && f in shape
    ensures Lookup(shape, f.name) == Some(f)
  {
  }

  lemma LookupInNames(shape: Shape, name: string)
    ensures name in Names(shape) <==> Lookup(shape, name).Some?
  {
  }

  /** The pattern of every column name below the source boundary: [a-z][a-z0-9_]{0,99}. */
  predicate IsIdentifier(s: string) {
    && 1 <= |s| <= 100 && 'a' <= s[0] <= 'z'
    && forall i | 0 <= i < |s| :: 'a' <= s[i] <= 'z' || '0' <= s[i] <= '9' || s[i] == '_'
  }

  // Row-wise iteration that stops at the first thrown error.

  function TryMap<A(!new), B>(rows: seq<A>, f: A -> Try<B>): (r: Try<seq<B>>)
    ensures r.Success? ==> |r.value| == |rows| && forall i | 0 <= i < |rows| :: f(rows[i]) == Success(r.value[i])
  {
    if rows == [] then Success([])
    else
      var head :- f(rows[0]);
      var tail :- TryMap(rows[1..], f);
      Success([head] + tail)
  }

  function TryFilter<A(!new)>(rows: seq<A>, keep: A -> Try<bool>): (r: Try<seq<A>>)
    ensures r.Success? ==> |r.value| <= |rows|
    ensures r.Success? ==> forall a | a in r.value :: a in rows && keep(a) == Success(true)
  {
    if rows == [] then Success([])
    else
      var head :- keep(rows[0]);
      var tail :- TryFilter(rows[1..], keep);
      Success(if head then [rows[0]] + tail else tail)
  }

  lemma {:induction false} TryMapFailure<A(!new), B>(rows: seq<A>, f: A -> Try<B>) returns (a: A)
    requires TryMap(rows, f).Failure?
    ensures a in rows && f(a).Failure? && f(a).error == TryMap(rows, f).error
  {
    if f(rows[0]).Failure? {
      a := rows[0];
    } else {
      a := TryMapFailure(rows[1..], f);
    }
  }

  lemma {:induction false} TryMapSucceeds<A(!new), B>(rows: seq<A>, f: A -> Try<B>, done: seq<B>)
    requires |done| == |rows| && forall k | 0 <= k < |rows| :: f(rows[k]) == Success(done[k])
    ensures TryMap(rows, f) == Success(done)
  {
    if rows != [] {
      TryMapSucceeds(rows[1..], f, done[1..]);
      assert done == [done[0]] + done[1..];
    }
  }

  lemma {:induction false} TryMapFails<A(!new), B>(rows: seq<A>, f: A -> Try<B>, done: seq<B>, k: nat)
    requires |done| == k < |rows| && (forall i | 0 <= i < k :: f(rows[i]) == Success(done[i])) && f(rows[k]).Failure?
    ensures TryMap(rows, f).Failure? && TryMap(rows, f).error == f(rows[k]).error
  {
    if k > 0 {
      TryMapFails(rows[1..], f, done[1..], k - 1);
    }
  }

  lemma {:induction false} TryFilterFailure<A(!new)>(rows: seq<A>, keep: A -> Try<bool>) returns (a: A)
    requires TryFilter(rows, keep).Failure?
    ensures a in rows && keep(a).Failure? && keep(a).error == TryFilter(rows, keep).error
  {
    if keep(rows[0]).Failure? {
      a := rows[0];
    } else {
      a := TryFilterFailure(rows[1..], keep);
    }
  }
}
