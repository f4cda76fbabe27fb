/** Join nodes (deployments/runtime.ts, dag/compiler.ts): the hash join, its meaning as a nested
    loop, and its shape. */
module Joins {
  import opened Wrappers
  import opened Values
  import opened Expressions
  import opened Aggregation

  datatype JoinKind = Inner | LeftJoin

  datatype JoinKey = JoinKey(left: string, right: string)

  datatype JoinConfig = JoinConfig(kind: JoinKind, keys: seq<JoinKey>, prefix: string)

  const MAX_JOIN_KEYS := 8

  function LeftNames(keys: seq<JoinKey>): (names: seq<string>)
    ensures |names| == |keys| && forall i | 0 <= i < |keys| :: names[i] == keys[i].left
  {
    seq(|keys|, i requires 0 <= i < |keys| => keys[i].left)
  }

  function RightNames(keys: seq<JoinKey>): (names: seq<string>)
    ensures |names| == |keys| && forall i | 0 <= i < |keys| :: names[i] == keys[i].right
  {
    seq(|keys|, i requires 0 <= i < |keys| => keys[i].right)
  }

  // ---------------------------------------------------------------- shapes

  /** The pattern [a-z][a-z0-9_]{0,30}_. */
  predicate IsPrefix(s: string) {
    IsIdentifier(s) && 2 <= |s| <= 32 && s[|s| - 1] == '_'
  }

  /** compiler.ts accepts json against anything. */
  predicate CompilerCompatible(a: FieldType, b: FieldType) {
    a.JsonType? || b.JsonType? || Compatible(a, b)
  }

  predicate KeyCompiles(k: JoinKey, left: Shape, right: Shape) {
    && IsIdentifier(k.left) && Lookup(left, k.left).Some?
    && IsIdentifier(k.right) && Lookup(right, k.right).Some?
    && CompilerCompatible(Lookup(left, k.left).value.ty, Lookup(right, k.right).value.ty)
  }

  function RenameRight(config: JoinConfig, left: Shape, right: Shape, output: Shape): Try<Shape> {
    if right == [] then Success(output)
    else
      var f := right[0];
      if f.name in RightNames(config.keys)
        && Lookup(left, f.name).Some? then RenameRight(config, left, right[1..], output)
      else
        var name := config.prefix + f.name;
        if !IsIdentifier(name) || Lookup(output, name).Some? then Failure(InvalidConfig("JOIN_FIELD_COLLISION"))
        else RenameRight(config, left, right[1..],
          output + [Field(name, f.ty, config.kind.LeftJoin? || f.nullable, f.unit)])
  }

  function JoinShape(config: JoinConfig, left: Shape, right: Shape): Try<Shape> {
    if !IsPrefix(config.prefix) || |config.keys| < 1
      || |config.keys| > MAX_JOIN_KEYS then Failure(InvalidConfig("JOIN_CONFIG_INVALID"))
    else if exists k | k in config.keys :: !KeyCompiles(k, left, right) then Failure(InvalidConfig("JOIN_KEY_INVALID"))
    else RenameRight(config, left, right, left)
  }

  function RunRenameRight(config: JoinConfig, left: Shape, right: Shape): Shape {
    if right == [] then []
    else
      var f, rest := right[0], RunRenameRight(config, left, right[1..]);
      if f.name in RightNames(config.keys) && Lookup(left, f.name).Some? then rest
      else [Field(config.prefix + f.name, f.ty, config.kind.LeftJoin? || f.nullable, f.unit)] + rest
  }

  function RunJoinShape(config: JoinConfig, left: Shape, right: Shape): Shape {
    left + RunRenameRight(config, left, right)
  }

  // ---------------------------------------------------------------- rows

  /** A right column that repeats a key column the left row already has is not copied. */
  predicate Copied(config: JoinConfig, left: Row, name: string) {
    !(name in RightNames(config.keys) && name in left)
  }

  function Renamed(config: JoinConfig, left: Row, right: Row): (r: Row)
    ensures r.Keys == set name | name in right && Copied(config, left, name) :: config.prefix + name
    ensures forall name | name in right && Copied(config, left, name) ::
              config.prefix + name in r && r[config.prefix + name] == right[name]
  {
    var names := set name | name in right && Copied(config, left, name) :: config.prefix + name;
    assert forall name: string :: (config.prefix + name)[|config.prefix|..] == name;
    map renamed | renamed in names :: right[renamed[|config.prefix|..]]
  }

  /** One joined row: the left columns, then the prefixed right ones. */
  function Merge(config: JoinConfig, left: Row, right: Row): Row {
    left + Renamed(config, left, right)
  }

  predicate Matches(config: JoinConfig, left: Row, right: Row) {
    GroupKeyOf(left, LeftNames(config.keys)) == GroupKeyOf(right, RightNames(config.keys))
  }

  /** The last right row with a given key. */
  function FindLast(right: seq<Row>, fields: seq<string>, key: GroupKey): (r: Option<Row>)
    ensures r.Some? ==> r.value in right && GroupKeyOf(r.value, fields) == key
    ensures r.None? ==> forall row | row in right :: GroupKeyOf(row, fields) != key
  {
    if right == [] then None
    else if GroupKeyOf(right[|right| - 1], fields) == key then Some(right[|right| - 1])
    else FindLast(right[..|right| - 1], fields, key)
  }

  function JoinedRow(left: Row, right: seq<Row>, config: JoinConfig): seq<Row> {
    var found := FindLast(right, RightNames(config.keys), GroupKeyOf(left, LeftNames(config.keys)));
    if found.Some? then [Merge(config, left, found.value)]
    else if config.kind.Inner? then []
    else [left]
  }

  function JoinRows(left: seq<Row>, right: seq<Row>, config: JoinConfig): seq<Row> {
    if left == [] then [] else JoinedRow(left[0], right, config) + JoinRows(left[1..], right, config)
  }

  /** The Map built from the right rows: a later row replaces an earlier one with the same key. */
  method IndexRight(right: seq<Row>, fields: seq<string>) returns (index: map<GroupKey, Row>)
    ensures forall key :: key in index <==> FindLast(right, fields, key).Some?
    ensures forall key | key in index :: FindLast(right, fields, key) == Some(index[key])
  {
    index := map[];
    for i := 0 to |right|
      invariant forall key :: key in index <==> FindLast(right[..i], fields, key).Some?
      invariant forall key | key in index :: FindLast(right[..i], fields, key) == Some(index[key])
    {
      assert right[..i + 1][..i] == right[..i];
      index := index[GroupKeyOf(right[i], fields) := right[i]];
    }
    assert right[..|right|] == right;
  }

  /** The join as written: index the right rows by key, then probe once per left row. */
  method HashJoin(left: seq<Row>, right: seq<Row>, config: JoinConfig) returns (joined: seq<Row>)
    ensures joined == JoinRows(left, right, config)
  {
    hide Merge, GroupKeyOf, FindLast, JoinRows;
    var index := IndexRight(right, RightNames(config.keys));
    joined := [];
    assert left[0..] == left;
    for i := 0 to |left|
      invariant JoinRows(left, right, config) == joined + JoinRows(left[i..], right, config)
    {
      JoinStep(left, i, right, config, joined);
      var key := GroupKeyOf(left[i], LeftNames(config.keys));
      if key in index {
        joined := joined + [Merge(config, left[i], index[key])];
      } else if config.kind.LeftJoin? {
        joined := joined + [left[i]];
      }
    }
    assert left[|left|..] == [];
    JoinNothing(right, config);
  }

  lemma JoinNothing(right: seq<Row>, config: JoinConfig)
    ensures JoinRows([], right, config) == []
  {
  }

  lemma JoinStep(left: seq<Row>, i: nat, right: seq<Row>, config: JoinConfig, joined: seq<Row>)
    requires i < |left|
    ensures joined + JoinRows(left[i..], right, config)
            == (joined + JoinedRow(left[i], right, config)) + JoinRows(left[i + 1..], right, config)
    ensures JoinedRow(left[i], right, config) == [] ==> joined + JoinedRow(left[i], right, config) == joined
  {
    hide JoinedRow;
    assert left[i..][1..] == left[i + 1..];
  }

  // ---------------------------------------------------------------- the meaning of a join

  function MatchesOf(left: Row, right: seq<Row>, config: JoinConfig): seq<Row> {
    if right == [] then []
    else (if Matches(config, left, right[0]) then [Merge(config, left, right[0])]
      else []) + MatchesOf(left, right[1..], config)
  }

  /** Every pair of a left and a right row with equal keys, in left-then-right order. */
  function NestedLoop(left: seq<Row>, right: seq<Row>, config: JoinConfig): seq<Row> {
    if left == [] then [] else MatchesOf(left[0], right, config) + NestedLoop(left[1..], right, config)
  }

  predicate KeysUnique(right: seq<Row>, fields: seq<string>) {
    forall i, j | 0 <= i < j < |right| :: GroupKeyOf(right[i], fields) != GroupKeyOf(right[j], fields)
  }

  lemma {:induction false} NoMatches(left: Row, right: seq<Row>, config: JoinConfig)
    requires forall r | r in right :: !Matches(config, left, r)
    ensures MatchesOf(left, right, config) == []
  {
    if right != [] {
      NoMatches(left, right[1..], config);
    }
  }

  lemma {:induction false} MatchesAppend(left: Row, right: seq<Row>, last: Row, config: JoinConfig)
    ensures MatchesOf(left, right + [last], config)
            == MatchesOf(left, right, config) + (if Matches(config, left, last) then [Merge(config, left, last)]
              else [])
  {
    hide Matches, Merge;
    if right == [] {
      assert (right + [last])[1..] == [];
    } else {
      assert (right + [last])[1..] == right[1..] + [last];
      MatchesAppend(left, right[1..], last, config);
    }
  }

  lemma {:induction false} SingleMatch(left: Row, right: seq<Row>, config: JoinConfig)
    requires KeysUnique(right, RightNames(config.keys)) && config.kind.Inner?
    ensures JoinedRow(left, right, config) == MatchesOf(left, right, config)
  {
    if right != [] {
      var before, last := right[..|right| - 1], right[|right| - 1];
      assert right == before + [last];
      MatchesAppend(left, before, last, config);
      if Matches(config, left, last) {
        NoMatches(left, before, config);
      } else {
        SingleMatch(left, before, config);
      }
    }
  }

  /** When no two right rows share a key, the hash join is the nested-loop inner join. */
  lemma {:induction false} HashJoinIsNestedLoop(left: seq<Row>, right: seq<Row>, config: JoinConfig)
    requires KeysUnique(right, RightNames(config.keys)) && config.kind.Inner?
    ensures JoinRows(left, right, config) == NestedLoop(left, right, config)
  {
    if left != [] {
      SingleMatch(left[0], right, config);
      HashJoinIsNestedLoop(left[1..], right, config);
    }
  }

  /** With repeated right keys the join is the nested loop against only the last right row of each key. */
  lemma {:induction false} JoinUsesLastMatch(left: seq<Row>, right: seq<Row>, config: JoinConfig)
    requires config.kind.Inner?
    ensures JoinRows(left, right, config) == NestedLoop(left, LastOfEachKey(right, RightNames(config.keys)), config)
    ensures |JoinRows(left, right, config)| <= |left|
  {
    if left != [] {
      var fields := RightNames(config.keys);
      LastOfEachKeyIsUnique(right, fields);
      SingleMatch(left[0], LastOfEachKey(right, fields), config);
      SameLast(right, fields, GroupKeyOf(left[0], LeftNames(config.keys)));
      JoinUsesLastMatch(left[1..], right, config);
    }
  }

  /** The right rows that no later row shadows. */
  function LastOfEachKey(right: seq<Row>, fields: seq<string>): (r: seq<Row>)
    ensures forall row | row in r :: row in right
  {
    if right == [] then []
    else
      var rest := LastOfEachKey(right[1..], fields);
      if exists row | row in right[1..] :: GroupKeyOf(row, fields) == GroupKeyOf(right[0], fields) then rest
        else [right[0]] + rest
  }

  lemma {:induction false} LastOfEachKeyIsUnique(right: seq<Row>, fields: seq<string>)
    ensures KeysUnique(LastOfEachKey(right, fields), fields)
  {
    if right != [] {
      LastOfEachKeyIsUnique(right[1..], fields);
      var rest := LastOfEachKey(right[1..], fields);
      assert forall i | 0 <= i < |rest| :: rest[i] in right[1..];
    }
  }

  lemma {:induction false} FindLastHead(right: seq<Row>, fields: seq<string>, key: GroupKey)
    requires right != []
    ensures FindLast(right, fields, key)
            == if FindLast(right[1..], fields, key).Some? then FindLast(right[1..], fields, key)
               else if GroupKeyOf(right[0], fields) == key then Some(right[0]) else None
  {
    if |right| > 1 {
      FindLastHead(right[..|right| - 1], fields, key);
      assert right[1..][..|right| - 2] == right[..|right| - 1][1..];
    }
  }

  lemma {:induction false} SameLast(right: seq<Row>, fields: seq<string>, key: GroupKey)
    ensures FindLast(LastOfEachKey(right, fields), fields, key) == FindLast(right, fields, key)
  {
    if right != [] {
      SameLast(right[1..], fields, key);
      FindLastHead(right, fields, key);
      var rest := LastOfEachKey(right[1..], fields);
      if LastOfEachKey(right, fields) == [right[0]] + rest {
        assert ([right[0]] + rest)[1..] == rest;
        FindLastHead([right[0]] + rest, fields, key);
      }
    }
  }
}
