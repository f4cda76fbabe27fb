/** The cross-chain trader footprint (dag/runtime.ts): one summary per wallet and chain, the join of two
    chains, and the whole computation from provider rows to the joined result. */
module Footprint {
  import opened Wrappers
  import opened Digits
  import opened Decimals
  import opened Values
  import opened Ordering
  import opened Swaps
  import TopK

  datatype Summary = Summary(
    sourceKeys: seq<string>, chain: string, wallet: string, tradeCount: nat,
    volumeUsd: string, amountInUsd: string, amountOutUsd: string, firstSeenAt: string, lastSeenAt: string)

  datatype Joined = Joined(
    wallet: string, chains: (string, string), byChain: map<string, Summary>, combinedTradeCount: nat,
    combinedVolumeUsd: string, firstSeenAt: string, lastSeenAt: string)

  // ---------------------------------------------------------------- grouping

  /** The Map key of a row. */
  function KeyOf(s: Swap): string {
    s.chain + ":" + s.wallet
  }

  /** Wallets of one length keep the joined key unambiguous, whatever the chain is called. */
  lemma KeyIsPair(a: Swap, b: Swap)
    requires |a.wallet| == |b.wallet|
    ensures KeyOf(a) == KeyOf(b) <==> a.chain == b.chain && a.wallet == b.wallet
  {
    if KeyOf(a) == KeyOf(b) {
      assert |a.chain| == |b.chain|;
      assert KeyOf(a)[..|a.chain|] == a.chain && KeyOf(b)[..|b.chain|] == b.chain;
      assert KeyOf(a)[|a.chain| + 1..] == a.wallet && KeyOf(b)[|b.chain| + 1..] == b.wallet;
    }
  }

  /** The rows of one wallet on one chain, in input order. */
  function Trades(rows: seq<Swap>, chain: string, wallet: string): seq<Swap> {
    if rows == [] then []
    else
      var before, s := Trades(rows[..|rows| - 1], chain, wallet), rows[|rows| - 1];
      if s.chain == chain && s.wallet == wallet then before + [s] else before
  }

  lemma {:induction false} TradesMembers(rows: seq<Swap>, chain: string, wallet: string)
    ensures forall s :: s in Trades(rows, chain, wallet) <==> s in rows && s.chain == chain && s.wallet == wallet
  {
    if rows != [] {
      TradesMembers(rows[..|rows| - 1], chain, wallet);
      assert rows == rows[..|rows| - 1] + [rows[|rows| - 1]];
    }
  }

  datatype Group = Group(sourceKeys: seq<string>, chain: string, wallet: string, rows: seq<Swap>)

  ghost predicate Distinct<T>(xs: seq<T>) {
    forall i, j | 0 <= i < j < |xs| :: xs[i] != xs[j]
  }

  /** What the grouping loop knows of one group after some rows. */
  ghost predicate GroupsRows(g: Group, rows: seq<Swap>) {
    && g.rows == Trades(rows, g.chain, g.wallet) && g.rows != []
    && Distinct(g.sourceKeys) && (forall x :: x in g.sourceKeys <==> x in Swaps.SourceKeys(g.rows))
  }

  ghost predicate Grouped(order: seq<string>, groups: map<string, Group>, rows: seq<Swap>) {
    && Distinct(order) && (forall key :: key in order <==> key in groups)
    && (forall key | key in groups ::
      GroupsRows(groups[key], rows)
      && key == groups[key].chain + ":" + groups[key].wallet)
    && (forall s | s in rows :: KeyOf(s) in groups)
  }

  ghost predicate SameLength(rows: seq<Swap>) {
    forall s | s in rows :: |s.wallet| == 42
  }

  function Extended(g: Group, s: Swap): Group
    requires Distinct(g.sourceKeys)
  {
    g.(sourceKeys := AddKey(g.sourceKeys, s.sourceKey), rows := g.rows + [s])
  }

  lemma OtherGroup(g: Group, rows: seq<Swap>, s: Swap)
    requires GroupsRows(g, rows) && (g.chain != s.chain || g.wallet != s.wallet)
    ensures GroupsRows(g, rows + [s])
  {
    assert (rows + [s])[..|rows|] == rows;
  }

  lemma OwnGroup(g: Group, rows: seq<Swap>, s: Swap)
    requires g.chain == s.chain && g.wallet == s.wallet
    requires GroupsRows(g, rows) || (g.rows == [] && g.sourceKeys == [] && Trades(rows, s.chain, s.wallet) == [])
    ensures Distinct(g.sourceKeys) && GroupsRows(Extended(g, s), rows + [s])
  {
    assert (rows + [s])[..|rows|] == rows;
    SourceKeysAppend(g.rows, s);
  }

  lemma FirstOfItsKind(groups: map<string, Group>, rows: seq<Swap>, s: Swap)
    requires (forall t | t in rows :: KeyOf(t) in groups) && KeyOf(s) !in groups
    ensures Trades(rows, s.chain, s.wallet) == []
  {
    TradesMembers(rows, s.chain, s.wallet);
    var own := Trades(rows, s.chain, s.wallet);
    assert own != [] ==> own[0] in own && KeyOf(own[0]) == KeyOf(s);
  }

  /** The key of a group and the key of a row agree exactly when wallet and chain do. */
  lemma GroupKeys(g: Group, rows: seq<Swap>, s: Swap)
    requires GroupsRows(g, rows) && SameLength(rows + [s])
    ensures g.chain + ":" + g.wallet == KeyOf(s) <==> g.chain == s.chain && g.wallet == s.wallet
  {
    TradesMembers(rows, g.chain, g.wallet);
    assert g.rows[0] in g.rows;
    assert g.rows[0] in rows + [s] && s in rows + [s];
    KeyIsPair(g.rows[0], s);
  }

  lemma GroupedStep(order: seq<string>, groups: map<string, Group>, rows: seq<Swap>, s: Swap, g: Group)
    requires Grouped(order, groups, rows) && SameLength(rows + [s])
    requires g == if KeyOf(s) in groups then groups[KeyOf(s)] else Group([], s.chain, s.wallet, [])
    ensures Distinct(g.sourceKeys)
    ensures Grouped(if KeyOf(s) in groups then order
            else order + [KeyOf(s)], groups[KeyOf(s) := Extended(g, s)], rows + [s])
  {
    hide GroupsRows;
    var key := KeyOf(s);
    if key in groups {
      GroupKeys(groups[key], rows, s);
    } else {
      FirstOfItsKind(groups, rows, s);
    }
    OwnGroup(g, rows, s);
    forall k | k in groups && k != key
      ensures GroupsRows(groups[k], rows + [s])
    {
      GroupKeys(groups[k], rows, s);
      OtherGroup(groups[k], rows, s);
    }
  }

  /** The first loop of aggregateByWalletAndChain, over rows whose wallets are addresses. */
  method GroupSwaps(rows: seq<Swap>) returns (order: seq<string>, groups: map<string, Group>)
    requires SameLength(rows)
    ensures Grouped(order, groups, rows)
  {
    hide GroupsRows;
    order := [];
    groups := map[];
    for i := 0 to |rows|
      invariant Grouped(order, groups, rows[..i])
    {
      var row := rows[i];
      var key := KeyOf(row);
      var group := if key in groups then groups[key] else Group([], row.chain, row.wallet, []);
      assert rows[..i + 1] == rows[..i] + [row];
      GroupedStep(order, groups, rows[..i], row, group);
      if key !in groups {
        order := order + [key];
      }
      groups := groups[key := Extended(group, row)];
    }
    assert rows[..|rows|] == rows;
  }

  // ---------------------------------------------------------------- one summary

  /** reduce with the smaller (or larger) of two, from a first value. */
  function Best(least: bool, first: int, values: seq<int>): (r: int)
    ensures r == first || r in values
    ensures if least then r <= first else r >= first
    ensures forall v | v in values :: if least then r <= v else r >= v
    decreases values
  {
    if values == [] then first
    else
      assert values == [values[0]] + values[1..];
      Best(least, if least then (if values[0] < first then values[0] else first)
        else (if values[0] > first then values[0] else first), values[1..])
  }

  function Times(rows: seq<Swap>): seq<nat>
    requires forall s | s in rows :: AllDigits(s.timestamp)
  {
    seq(|rows|, i requires 0 <= i < |rows| =>
      assert rows[i] in rows; assert AllDigits(rows[i].timestamp); NatOf(rows[i].timestamp))
  }

  function Volumes(rows: seq<Swap>): seq<Option<string>> {
    seq(|rows|, i requires 0 <= i < |rows| => DeriveVolume(rows[i]))
  }

  function Inputs(rows: seq<Swap>): seq<Option<string>> {
    seq(|rows|, i requires 0 <= i < |rows| => rows[i].amountIn)
  }

  function Outputs(rows: seq<Swap>): seq<Option<string>> {
    seq(|rows|, i requires 0 <= i < |rows| => rows[i].amountOut)
  }

  ghost function TotalVolume(rows: seq<Swap>): real {
    if rows == [] then 0.0 else VolumeOf(rows[0]) + TotalVolume(rows[1..])
  }

  lemma {:induction false} VolumesAddUp(rows: seq<Swap>)
    requires forall s | s in rows :: Canonical(s)
    ensures forall v | v in Volumes(rows) :: IsAmount(v)
    ensures SumOf(Volumes(rows)) == TotalVolume(rows)
  {
    hide Parse, DeriveVolume, VolumeOf, IsAddress, AllDigits;
    if rows != [] {
      assert rows[0] in rows;
      VolumeIsDerived(rows[0]);
      VolumesAddUp(rows[1..]);
      assert Volumes(rows) == [DeriveVolume(rows[0])] + Volumes(rows[1..]);
      assert Volumes(rows)[1..] == Volumes(rows[1..]);
    }
  }

  lemma SidesAreAmounts(rows: seq<Swap>)
    requires forall s | s in rows :: Canonical(s)
    ensures forall v | v in Inputs(rows) + Outputs(rows) :: IsAmount(v)
  {
    forall i | 0 <= i < |rows|
      ensures IsAmount(rows[i].amountIn) && IsAmount(rows[i].amountOut)
    {
      assert rows[i] in rows;
    }
  }

  /** A moment at which some row was seen, before (or after) which none was. */
  ghost predicate Extreme(least: bool, text: string, rows: seq<Swap>) {
    && IsWhole(text) && (exists s | s in rows :: AllDigits(s.timestamp) && NatOf(s.timestamp) == NatOf(text))
    && forall s | s in rows :: AllDigits(s.timestamp) ==>
      if least then NatOf(text) <= NatOf(s.timestamp) else NatOf(text) >= NatOf(s.timestamp)
  }

  ghost predicate Summarises(s: Summary, rows: seq<Swap>) {
    && s.tradeCount == |rows| > 0
    && SortedSet(s.sourceKeys, Swaps.SourceKeys(rows))
    && IsAmount(Some(s.volumeUsd)) && Amount(s.volumeUsd) == TotalVolume(rows)
    && IsAmount(Some(s.amountInUsd)) && Amount(s.amountInUsd) == SumOf(Inputs(rows))
    && IsAmount(Some(s.amountOutUsd)) && Amount(s.amountOutUsd) == SumOf(Outputs(rows))
    && Extreme(true, s.firstSeenAt, rows) && Extreme(false, s.lastSeenAt, rows)
  }

  lemma BestIsExtreme(least: bool, rows: seq<Swap>)
    requires rows != [] && forall s | s in rows :: AllDigits(s.timestamp)
    ensures var times := Times(rows);
            Best(least, times[0], times) >= 0 && Extreme(least, TextOf(Best(least, times[0], times)), rows)
  {
    hide NatOf, TextOf, AllDigits, IsWhole;
    var times := Times(rows);
    var best := Best(least, times[0], times);
    assert times[0] in times;
    var k :| 0 <= k < |times| && times[k] == best;
    assert rows[k] in rows;
    forall s | s in rows
      ensures if least then best <= NatOf(s.timestamp) else best >= NatOf(s.timestamp)
    {
      var i :| 0 <= i < |rows| && rows[i] == s;
      assert times[i] in times;
    }
  }

  /** The body of the map over groups. Only BigInt of a digit string is looked into. */
  method Summarise(g: Group) returns (r: Option<Summary>)
    requires Distinct(g.sourceKeys) && g.rows != [] && forall s | s in g.rows :: AllDigits(s.timestamp)
    requires forall x :: x in g.sourceKeys <==> x in Swaps.SourceKeys(g.rows)
    ensures r.Some? ==> r.value.chain == g.chain && r.value.wallet == g.wallet
    ensures (forall s | s in g.rows :: Canonical(s)) ==> r.Some? && Summarises(r.value, g.rows)
  {
    hide Canonical, AllDigits, IsWhole, SumDecimals, SortedSet, Extreme, IsAmount, Best;
    var times := Times(g.rows);
    var sourceKeys := SortTexts(g.sourceKeys);
    assert Swaps.SourceKeys(g.rows) == set x | x in g.sourceKeys;
    var volume, input, output := SumDecimals(Volumes(g.rows)), SumDecimals(Inputs(g.rows)),
      SumDecimals(Outputs(g.rows));
    BestIsExtreme(true, g.rows);
    BestIsExtreme(false, g.rows);
    SumIsExact(Volumes(g.rows));
    SumIsExact(Inputs(g.rows));
    SumIsExact(Outputs(g.rows));
    if forall s | s in g.rows :: Canonical(s) {
      VolumesAddUp(g.rows);
      SidesAreAmounts(g.rows);
      assert forall v | v in Inputs(g.rows) :: v in Inputs(g.rows) + Outputs(g.rows);
      assert forall v | v in Outputs(g.rows) :: v in Inputs(g.rows) + Outputs(g.rows);
    }
    if volume.None? || input.None? || output.None? {
      return None;
    }
    r := Some(Summary(sourceKeys, g.chain, g.wallet, |g.rows|, volume.value, input.value, output.value,
                      TextOf(Best(true, times[0], times)), TextOf(Best(false, times[0], times))));
  }

  // ---------------------------------------------------------------- the aggregate

  predicate AllCanonical(rows: seq<Swap>) {
    forall s | s in rows :: Canonical(s)
  }

  /** The list holds exactly one faithful summary for every wallet and chain that trades. */
  ghost predicate SummariseAll(out: seq<Summary>, rows: seq<Swap>) {
    && (forall s | s in out :: Summarises(s, Trades(rows, s.chain, s.wallet)))
    && (forall i, j | 0 <= i < j < |out| :: out[i].chain != out[j].chain || out[i].wallet != out[j].wallet)
    && (forall t | t in rows :: exists s | s in out :: s.chain == t.chain && s.wallet == t.wallet)
  }

  ghost predicate Consistent(collate: (string, string) -> int) {
    forall a, b :: collate(a, b) < 0 <==> collate(b, a) > 0
  }

  function CompareSummaries(collate: (string, string) -> int): TopK.Comparator<Summary> {
    (a: Summary, b: Summary) =>
      var byChain := collate(a.chain, b.chain);
      Success(if byChain != 0 then byChain else collate(a.wallet, b.wallet))
  }

  ghost function SummaryOrder(collate: (string, string) -> int): TopK.Order<Summary> {
    (a: Summary, b: Summary) => CompareSummaries(collate)(a, b).value < 0
  }

  lemma CollationFollows(collate: (string, string) -> int)
    requires Consistent(collate)
    ensures TopK.Follows(CompareSummaries(collate), SummaryOrder(collate))
  {
    forall a: Summary, b: Summary
      ensures CompareSummaries(collate)(a, b).value > 0 <==> CompareSummaries(collate)(b, a).value < 0
    {
      assert collate(a.chain, b.chain) < 0 <==> collate(b.chain, a.chain) > 0;
      assert collate(b.chain, a.chain) < 0 <==> collate(a.chain, b.chain) > 0;
      assert collate(b.wallet, a.wallet) < 0 <==> collate(a.wallet, b.wallet) > 0;
    }
  }

  lemma NoTwins(out: seq<Summary>, k: nat, l: nat)
    requires k < |out| && l < |out| && k != l
    requires forall i, j | 0 <= i < j < |out| :: out[i].chain != out[j].chain || out[i].wallet != out[j].wallet
    ensures out[k] != out[l]
  {
    if k < l {
      assert out[k].chain != out[l].chain || out[k].wallet != out[l].wallet;
    } else {
      assert out[l].chain != out[k].chain || out[l].wallet != out[k].wallet;
    }
  }

  lemma Permuted(a: seq<Summary>, b: seq<Summary>, rows: seq<Swap>)
    requires multiset(a) == multiset(b) && SummariseAll(a, rows)
    ensures SummariseAll(b, rows)
  {
    hide Summarises, Trades;
    forall s: Summary
      ensures s in a <==> s in b
    {
      assert s in multiset(a) <==> s in multiset(b);
    }
    forall i, j | 0 <= i < j < |b|
      ensures b[i].chain != b[j].chain || b[i].wallet != b[j].wallet
    {
      if b[i] == b[j] {
        TopK.CountsTwice(b, i, j);
        var k, l := TopK.FoundTwice(a, b[i]);
        NoTwins(a, k, l);
      } else {
        assert b[i] in a && b[j] in a;
        var k :| 0 <= k < |a| && a[k] == b[i];
        var l :| 0 <= l < |a| && a[l] == b[j];
        assert k < l || l < k;
      }
    }
  }

  lemma GroupIsTrades(g: Group, rows: seq<Swap>)
    requires GroupsRows(g, rows) && AllCanonical(rows)
    ensures Distinct(g.sourceKeys) && g.rows != [] && (forall x :: x in g.sourceKeys <==> x in Swaps.SourceKeys(g.rows))
    ensures forall s | s in g.rows :: Canonical(s) && AllDigits(s.timestamp)
  {
    TradesMembers(rows, g.chain, g.wallet);
  }

  lemma SummariesCover(order: seq<string>, groups: map<string, Group>, rows: seq<Swap>, out: seq<Summary>)
    requires Grouped(order, groups, rows) && SameLength(rows) && |out| == |order|
    requires forall k | 0 <= k < |out| ::
             out[k].chain == groups[order[k]].chain
             && out[k].wallet == groups[order[k]].wallet
    requires forall k | 0 <= k < |out| :: Summarises(out[k], groups[order[k]].rows)
    ensures SummariseAll(out, rows)
  {
    hide Summarises, Trades, Swaps.SourceKeys;
    forall t | t in rows
      ensures exists s | s in out :: s.chain == t.chain && s.wallet == t.wallet
    {
      var k :| 0 <= k < |order| && order[k] == KeyOf(t);
      CoveredBy(groups[order[k]], rows, t);
      assert out[k] in out;
    }
  }

  lemma CoveredBy(g: Group, rows: seq<Swap>, t: Swap)
    requires GroupsRows(g, rows) && SameLength(rows) && t in rows && g.chain + ":" + g.wallet == KeyOf(t)
    ensures g.chain == t.chain && g.wallet == t.wallet
  {
    TradesMembers(rows, g.chain, g.wallet);
    assert g.rows[0] in g.rows;
    KeyIsPair(g.rows[0], t);
  }

  /** aggregateByWalletAndChain on canonical rows: it never throws, and summarises every wallet on every chain once. */
  method AggregateByWalletAndChain(collate: (string, string) -> int, rows: seq<Swap>) returns (out: seq<Summary>)
    requires Consistent(collate) && AllCanonical(rows)
    ensures SummariseAll(out, rows)
  {
    hide Canonical, GroupsRows, Summarises;
    assert SameLength(rows) by { WalletLengths(rows); }
    var order, groups := GroupSwaps(rows);
    var summaries: seq<Summary> := [];
    for i := 0 to |order|
      invariant |summaries| == i
      invariant forall k | 0 <= k < i ::
                summaries[k].chain == groups[order[k]].chain
                && summaries[k].wallet == groups[order[k]].wallet
      invariant forall k | 0 <= k < i :: Summarises(summaries[k], groups[order[k]].rows)
    {
      var group := groups[order[i]];
      GroupIsTrades(group, rows);
      var summary := Summarise(group);
      summaries := summaries + [summary.value];
    }
    SummariesCover(order, groups, rows, summaries);
    ghost var less := SummaryOrder(collate);
    CollationFollows(collate);
    var sorted := TopK.NativeSort(summaries, CompareSummaries(collate), less);
    if sorted.Failure? {
      assert false;
    }
    TopK.SortPermutes(less, summaries);
    Permuted(summaries, sorted.value, rows);
    out := sorted.value;
  }

  lemma WalletLengths(rows: seq<Swap>)
    requires AllCanonical(rows)
    ensures SameLength(rows)
  {
  }

  // ---------------------------------------------------------------- the join of two chains

  ghost predicate OneChain(rows: seq<Summary>, chain: string) {
    forall s | s in rows :: s.chain == chain
  }

  ghost predicate DistinctWallets(rows: seq<Summary>) {
    forall i, j | 0 <= i < j < |rows| :: rows[i].wallet != rows[j].wallet
  }

  /** The fields that the join reads as numbers hold numbers. */
  predicate Readable(s: Summary) {
    IsAmount(Some(s.volumeUsd)) && IsWhole(s.firstSeenAt) && IsWhole(s.lastSeenAt)
  }

  function ReadBigInt(host: Host, text: string): Option<int> {
    if text != "" && AllDigits(text) then Some(NatOf(text)) else host.bigInt(Text(text))
  }

  function Sooner(host: Host, least: bool, a: string, b: string): Option<string> {
    var x :- ReadBigInt(host, a);
    var y :- ReadBigInt(host, b);
    Some(IntText(Best(least, x, [x, y])))
  }

  function Combine(host: Host, leftChain: string, rightChain: string, l: Summary, r: Summary): Option<Joined> {
    var volume :- SumDecimals([Some(l.volumeUsd), Some(r.volumeUsd)]);
    var first :- Sooner(host, true, l.firstSeenAt, r.firstSeenAt);
    var last :- Sooner(host, false, l.lastSeenAt, r.lastSeenAt);
    Some(Joined(l.wallet, (leftChain, rightChain), map[leftChain := l, rightChain := r], l.tradeCount + r.tradeCount,
      volume, first, last))
  }

  /** One of two moments, and no later (no earlier) than either. */
  ghost predicate Outer(least: bool, text: string, a: string, b: string)
    requires IsWhole(a) && IsWhole(b)
  {
    WholeIsDigits(a);
    WholeIsDigits(b);
    && (text == a || text == b)
    && IsWhole(text) && (WholeIsDigits(text); if least then NatOf(text) <= NatOf(a)
      && NatOf(text) <= NatOf(b) else NatOf(text) >= NatOf(a) && NatOf(text) >= NatOf(b))
  }

  ghost predicate Combines(j: Joined, l: Summary, r: Summary) {
    && j.wallet == l.wallet == r.wallet && j.chains == (l.chain, r.chain)
      && j.byChain == map[l.chain := l, r.chain := r]
    && j.combinedTradeCount == l.tradeCount + r.tradeCount
    && (Readable(l) && Readable(r) ==>
        && IsAmount(Some(j.combinedVolumeUsd))
          && Amount(j.combinedVolumeUsd) == Amount(l.volumeUsd) + Amount(r.volumeUsd)
        && Outer(true, j.firstSeenAt, l.firstSeenAt, r.firstSeenAt)
          && Outer(false, j.lastSeenAt, l.lastSeenAt, r.lastSeenAt))
  }

  lemma SoonerIsOuter(host: Host, least: bool, a: string, b: string)
    requires IsWhole(a) && IsWhole(b)
    ensures Sooner(host, least, a, b).Some? && Outer(least, Sooner(host, least, a, b).value, a, b)
  {
    hide NatOf, TextOf, Best, IsWhole, AllDigits;
    WholeIsDigits(a);
    WholeIsDigits(b);
    TextOfNatOf(a);
    TextOfNatOf(b);
    var x: int, y: int := NatOf(a), NatOf(b);
    var best := Best(least, x, [x, y]);
    assert x in [x, y] && y in [x, y];
    assert best == x || best == y;
    assert IntText(x) == a && IntText(y) == b by {
      assert "" + a == a && "" + b == b;
    }
    assert Sooner(host, least, a, b) == Some(IntText(best));
  }

  lemma CombineIsExact(host: Host, l: Summary, r: Summary)
    requires l.wallet == r.wallet
    ensures Readable(l) && Readable(r) ==> Combine(host, l.chain, r.chain, l, r).Some?
    ensures Combine(host, l.chain, r.chain, l, r).Some? ==> Combines(Combine(host, l.chain, r.chain, l, r).value, l, r)
  {
    hide SumDecimals, IsAmount, Sooner, Outer, IsWhole, Amount;
    var volumes := [Some(l.volumeUsd), Some(r.volumeUsd)];
    SumIsExact(volumes);
    assert SumOf(volumes) == Amount(l.volumeUsd) + Amount(r.volumeUsd) by {
      assert volumes[1..] == [Some(r.volumeUsd)] && volumes[1..][1..] == [];
      assert SumOf(volumes[1..][1..]) == 0.0;
      assert SumOf(volumes[1..]) == AmountOr(volumes[1]) + 0.0;
      assert SumOf(volumes) == AmountOr(volumes[0]) + SumOf(volumes[1..]);
    }
    if Readable(l) && Readable(r) {
      SoonerIsOuter(host, true, l.firstSeenAt, r.firstSeenAt);
      SoonerIsOuter(host, false, l.lastSeenAt, r.lastSeenAt);
    }
  }

  /** A wallet index: the Map from wallet to row, and its keys in insertion order. */
  ghost predicate Indexes(order: seq<string>, byWallet: map<string, Summary>, rows: seq<Summary>) {
    && Distinct(order) && (forall w :: w in order <==> w in byWallet)
    && (forall w | w in byWallet :: byWallet[w] in rows && byWallet[w].wallet == w)
    && (forall s | s in rows :: s.wallet in byWallet)
  }

  method IndexByWallet(rows: seq<Summary>) returns (unique: bool, order: seq<string>, byWallet: map<string, Summary>)
    ensures unique <==> DistinctWallets(rows)
    ensures unique ==> Indexes(order, byWallet, rows)
  {
    order := [];
    byWallet := map[];
    for i := 0 to |rows|
      invariant DistinctWallets(rows[..i]) && Indexes(order, byWallet, rows[..i])
    {
      var row := rows[i];
      assert rows[..i + 1] == rows[..i] + [row];
      if row.wallet in byWallet {
        var k :| 0 <= k < i && rows[..i][k] == byWallet[row.wallet];
        assert rows[k].wallet == rows[i].wallet;
        return false, order, byWallet;
      }
      order := order + [row.wallet];
      byWallet := byWallet[row.wallet := row];
    }
    assert rows[..|rows|] == rows;
    unique := true;
  }

  /** [...keys].filter(wallet => rightByWallet.has(wallet)). */
  function Common(order: seq<string>, other: map<string, Summary>): (r: seq<string>)
    requires Distinct(order)
    ensures forall w :: w in r <==> w in order && w in other
    ensures Distinct(r)
  {
    if order == [] then []
    else
      assert Distinct(order[1..]);
      var rest := Common(order[1..], other);
      assert order == [order[0]] + order[1..];
      if order[0] in other then [order[0]] + rest else rest
  }

  /** Every wallet of both sides exactly once, in increasing order, each row combining the two summaries. */
  ghost predicate Joins(out: seq<Joined>, left: seq<Summary>, right: seq<Summary>) {
    && (forall i, j | 0 <= i < j < |out| :: TextLess(out[i].wallet, out[j].wallet))
    && (forall row | row in out :: exists l, r | l in left && r in right :: Combines(row, l, r))
    && (forall l, r | l in left && r in right && l.wallet == r.wallet :: exists row | row in out ::
      row.wallet == l.wallet)
  }

  ghost predicate Joinable(left: seq<Summary>, right: seq<Summary>)
    requires left != [] && right != []
  {
    && left[0].chain != right[0].chain && OneChain(left, left[0].chain) && OneChain(right, right[0].chain)
    && DistinctWallets(left) && DistinctWallets(right)
  }

  lemma JoinsAll(order: seq<string>, out: seq<Joined>, leftOrder: seq<string>, rightOrder: seq<string>,
                 leftByWallet: map<string, Summary>, rightByWallet: map<string, Summary>, left: seq<Summary>,
                   right: seq<Summary>)
    requires Indexes(leftOrder, leftByWallet, left) && Indexes(rightOrder, rightByWallet, right)
    requires SortedSet(order, set w | w in leftByWallet && w in rightByWallet) && |out| == |order|
    requires forall k | 0 <= k < |order| :: order[k] in leftByWallet && order[k] in rightByWallet
    requires forall k | 0 <= k < |order| :: Combines(out[k], leftByWallet[order[k]], rightByWallet[order[k]])
    ensures Joins(out, left, right)
  {
    hide Combines;
    forall k | 0 <= k < |order|
      ensures out[k].wallet == order[k]
      ensures leftByWallet[order[k]] in left && rightByWallet[order[k]] in right
    {
      assert order[k] in order;
      CombinesWallet(out[k], leftByWallet[order[k]], rightByWallet[order[k]]);
    }
    forall l, r | l in left && r in right && l.wallet == r.wallet
      ensures exists row | row in out :: row.wallet == l.wallet
    {
      assert l.wallet in order;
      var k :| 0 <= k < |order| && order[k] == l.wallet;
      assert out[k] in out;
    }
  }

  lemma CombinesWallet(j: Joined, l: Summary, r: Summary)
    requires Combines(j, l, r)
    ensures j.wallet == l.wallet
  {
  }

  /** The last map of the join: one row per common wallet. */
  method CombineAll(host: Host, leftChain: string, rightChain: string, order: seq<string>,
                    leftByWallet: map<string, Summary>, rightByWallet: map<string, Summary>)
                      returns (r: Option<seq<Joined>>)
    requires forall k | 0 <= k < |order| :: order[k] in leftByWallet && order[k] in rightByWallet
    requires forall w | w in leftByWallet :: leftByWallet[w].wallet == w && leftByWallet[w].chain == leftChain
    requires forall w | w in rightByWallet :: rightByWallet[w].wallet == w && rightByWallet[w].chain == rightChain
    ensures r.Some? ==>
            |r.value| == |order|
            && forall k | 0 <= k < |order| :: Combines(r.value[k], leftByWallet[order[k]], rightByWallet[order[k]])
    ensures (forall w | w in leftByWallet :: Readable(leftByWallet[w])) &&
            (forall w | w in rightByWallet :: Readable(rightByWallet[w])) ==>
            r.Some?
  {
    hide Combine, Combines, Readable;
    var out: seq<Joined> := [];
    for i := 0 to |order|
      invariant |out| == i
      invariant forall k | 0 <= k < i :: Combines(out[k], leftByWallet[order[k]], rightByWallet[order[k]])
    {
      var leftRow, rightRow := leftByWallet[order[i]], rightByWallet[order[i]];
      CombineIsExact(host, leftRow, rightRow);
      var row := Combine(host, leftChain, rightChain, leftRow, rightRow);
      if row.None? {
        return None;
      }
      out := out + [row.value];
    }
    r := Some(out);
  }

  /** joinCrossChainSummaries: an empty side joins to nothing; otherwise it throws unless each side is one
      chain, the chains differ and no wallet repeats on a side. */
  method JoinCrossChainSummaries(host: Host, left: seq<Summary>, right: seq<Summary>) returns (r: Try<seq<Joined>>)
    ensures left == [] || right == [] ==> r == Success([])
    ensures left != [] && right != [] && r.Success? ==> Joinable(left, right) && Joins(r.value, left, right)
    ensures left != [] && right != [] && Joinable(left, right) &&
            (forall s | s in left :: Readable(s)) && (forall s | s in right :: Readable(s)) ==>
            r.Success?
  {
    hide Combines, Readable, SortedSet, Joins, DistinctWallets;
    if left == [] || right == [] {
      return Success([]);
    }
    var leftChain, rightChain := left[0].chain, right[0].chain;
    if leftChain == rightChain || (exists s | s in left :: s.chain != leftChain)
      || (exists s | s in right :: s.chain != rightChain) {
      return Failure(INVALID);
    }
    var leftUnique, leftOrder, leftByWallet := IndexByWallet(left);
    if !leftUnique {
      return Failure(INVALID);
    }
    var rightUnique, rightOrder, rightByWallet := IndexByWallet(right);
    if !rightUnique {
      return Failure(INVALID);
    }
    var common := Common(leftOrder, rightByWallet);
    var order := SortTexts(common);
    assert (set w | w in common) == set w | w in leftByWallet && w in rightByWallet;
    SortedMembers(order, set w | w in leftByWallet && w in rightByWallet);
    var out := CombineAll(host, leftChain, rightChain, order, leftByWallet, rightByWallet);
    if out.None? {
      return Failure(INVALID);
    }
    JoinsAll(order, out.value, leftOrder, rightOrder, leftByWallet, rightByWallet, left, right);
    r := Success(out.value);
  }

  lemma SortedMembers(list: seq<string>, members: set<string>)
    requires SortedSet(list, members)
    ensures forall k | 0 <= k < |list| :: list[k] in members
  {
  }

  // ---------------------------------------------------------------- the footprint

  function OfChain(summaries: seq<Summary>, chain: string): (r: seq<Summary>)
    ensures forall s :: s in r <==> s in summaries && s.chain == chain
  {
    if summaries == [] then []
    else
      assert summaries == [summaries[0]] + summaries[1..];
      (if summaries[0].chain == chain then [summaries[0]] else []) + OfChain(summaries[1..], chain)
  }

  lemma {:induction false} OfChainDistinct(summaries: seq<Summary>, chain: string)
    requires forall i, j | 0 <= i < j < |summaries| ::
             summaries[i].chain != summaries[j].chain
             || summaries[i].wallet != summaries[j].wallet
    ensures DistinctWallets(OfChain(summaries, chain))
  {
    if summaries != [] {
      var rest := OfChain(summaries[1..], chain);
      OfChainDistinct(summaries[1..], chain);
      forall k | 0 <= k < |rest| && summaries[0].chain == chain
        ensures rest[k].wallet != summaries[0].wallet
      {
        assert rest[k] in rest;
        var m :| 0 <= m < |summaries[1..]| && summaries[1..][m] == rest[k];
        assert summaries[0].chain != summaries[m + 1].chain || summaries[0].wallet != summaries[m + 1].wallet;
      }
      assert OfChain(summaries, chain) == (if summaries[0].chain == chain then [summaries[0]] else []) + rest;
    }
  }

  /** One output row against the raw rows of its wallet on the two chains. */
  ghost predicate Describes(j: Joined, rows: seq<Swap>, leftChain: string, rightChain: string) {
    var left, right := Trades(rows, leftChain, j.wallet), Trades(rows, rightChain, j.wallet);
    && left != [] && right != []
    && j.chains == (leftChain, rightChain) && j.byChain.Keys == {leftChain, rightChain}
    && Summarises(j.byChain[leftChain], left) && Summarises(j.byChain[rightChain], right)
    && j.combinedTradeCount == |left + right|
    && IsAmount(Some(j.combinedVolumeUsd)) && Amount(j.combinedVolumeUsd) == TotalVolume(left + right)
    && Extreme(true, j.firstSeenAt, left + right) && Extreme(false, j.lastSeenAt, left + right)
  }

  /** The joined result is exactly the wallets that trade on both chains, each once, in increasing order. */
  ghost predicate FootprintOf(out: seq<Joined>, rows: seq<Swap>, leftChain: string, rightChain: string) {
    && (forall i, j | 0 <= i < j < |out| :: TextLess(out[i].wallet, out[j].wallet))
    && (forall j | j in out :: Describes(j, rows, leftChain, rightChain))
    && (forall wallet :: Trades(rows, leftChain, wallet) != [] && Trades(rows, rightChain, wallet) != [] ==>
          exists j | j in out :: j.wallet == wallet)
  }

  lemma {:induction false} TotalVolumeConcat(a: seq<Swap>, b: seq<Swap>)
    ensures TotalVolume(a + b) == TotalVolume(a) + TotalVolume(b)
  {
    hide VolumeOf;
    if a == [] {
      assert a + b == b;
    } else {
      TotalVolumeConcat(a[1..], b);
      assert (a + b)[1..] == a[1..] + b;
    }
  }

  lemma ExtremeOfBoth(least: bool, text: string, a: string, b: string, left: seq<Swap>, right: seq<Swap>)
    requires Extreme(least, a, left) && Extreme(least, b, right) && Outer(least, text, a, b)
    ensures Extreme(least, text, left + right)
  {
    hide NatOf, AllDigits, IsWhole;
    WholeIsDigits(a);
    WholeIsDigits(b);
    WholeIsDigits(text);
    forall s | s in left + right
      ensures s in left || s in right
    {
    }
    var s :| s in (if text == a then left else right) && AllDigits(s.timestamp) && NatOf(s.timestamp) == NatOf(text);
    assert s in left + right;
  }

  lemma SummaryIsReadable(s: Summary, rows: seq<Swap>)
    requires Summarises(s, rows)
    ensures Readable(s)
  {
  }

  /** Combining two faithful summaries describes the raw rows of both chains. */
  lemma CombinedDescribes(j: Joined, l: Summary, r: Summary, rows: seq<Swap>)
    requires Combines(j, l, r) && l.chain != r.chain
    requires Summarises(l, Trades(rows, l.chain, l.wallet)) && Summarises(r, Trades(rows, r.chain, r.wallet))
    ensures Describes(j, rows, l.chain, r.chain)
  {
    hide IsWhole, IsAmount, Amount, Outer, Extreme, SortedSet;
    var left, right := Trades(rows, l.chain, l.wallet), Trades(rows, r.chain, r.wallet);
    SummaryIsReadable(l, left);
    SummaryIsReadable(r, right);
    TotalVolumeConcat(left, right);
    ExtremeOfBoth(true, j.firstSeenAt, l.firstSeenAt, r.firstSeenAt, left, right);
    ExtremeOfBoth(false, j.lastSeenAt, l.lastSeenAt, r.lastSeenAt, left, right);
  }

  /** Joining the per-chain summaries of any rows yields the footprint of those rows. */
  lemma JoinIsFootprint(out: seq<Joined>, summaries: seq<Summary>, rows: seq<Swap>, leftChain: string,
      rightChain: string)
    requires SummariseAll(summaries, rows) && leftChain != rightChain
    requires Joins(out, OfChain(summaries, leftChain), OfChain(summaries, rightChain))
    ensures FootprintOf(out, rows, leftChain, rightChain)
  {
    hide Combines, Summarises, Describes, Trades;
    var left, right := OfChain(summaries, leftChain), OfChain(summaries, rightChain);
    forall j | j in out
      ensures Describes(j, rows, leftChain, rightChain)
    {
      var l, r :| l in left && r in right && Combines(j, l, r);
      CombinedDescribes(j, l, r, rows);
    }
    forall wallet | Trades(rows, leftChain, wallet) != [] && Trades(rows, rightChain, wallet) != []
      ensures exists j | j in out :: j.wallet == wallet
    {
      var l := SummaryOf(summaries, rows, leftChain, wallet);
      var r := SummaryOf(summaries, rows, rightChain, wallet);
      assert l in left && r in right;
    }
  }

  lemma SummaryOf(summaries: seq<Summary>, rows: seq<Swap>, chain: string, wallet: string) returns (s: Summary)
    requires SummariseAll(summaries, rows) && Trades(rows, chain, wallet) != []
    ensures s in summaries && s.chain == chain && s.wallet == wallet
  {
    hide Summarises;
    TradesMembers(rows, chain, wallet);
    var t := Trades(rows, chain, wallet)[0];
    assert t in Trades(rows, chain, wallet);
    s :| s in summaries && s.chain == t.chain && s.wallet == t.wallet;
  }

  datatype Options = Options(leftChain: string, rightChain: string, startInclusive: Option<string>,
      endExclusive: Option<string>)

  datatype Result = Result(unionRows: seq<Swap>, perChain: seq<Summary>, crossChain: seq<Joined>)

  /** Every source's mapping is usable and all its rows read as swaps. */
  predicate Readables(host: Host, sources: seq<Source>) {
    forall i | 0 <= i < |sources| :: ValidSource(host, sources[i]) && NormalRows(host, sources[i]).Success?
  }

  function NormalInputs(host: Host, sources: seq<Source>): (inputs: seq<seq<Swap>>)
    requires Readables(host, sources)
    ensures |inputs| == |sources| && forall i | 0 <= i < |sources| :: NormalRows(host, sources[i]) == Success(inputs[i])
  {
    seq(|sources|, i requires 0 <= i < |sources| => NormalRows(host, sources[i]).value)
  }

  predicate Ready(rows: seq<Swap>) {
    forall s | s in rows :: Canonical(s) && IsWhole(s.timestamp)
  }

  lemma {:induction false} ConcatReady(inputs: seq<seq<Swap>>)
    requires forall i | 0 <= i < |inputs| :: Ready(inputs[i])
    ensures Ready(Concat(inputs))
  {
    if inputs != [] {
      ConcatReady(inputs[..|inputs| - 1]);
    }
  }

  lemma NormalRowsReady(host: Host, source: Source)
    requires ValidSource(host, source) && NormalRows(host, source).Success?
    ensures Ready(NormalRows(host, source).value)
  {
    hide NormalRow, Canonical, IsWhole;
    var f, rows := NormalRowOf(host, source), NormalRows(host, source).value;
    forall s | s in rows
      ensures Canonical(s) && IsWhole(s.timestamp)
    {
      var k :| 0 <= k < |rows| && rows[k] == s;
      assert f(source.rows[k]) == Success(rows[k]);
      NormalRowIsCanonical(host, source, source.rows[k]);
    }
  }

  /** All normalised rows, source by source. */
  function Union(host: Host, sources: seq<Source>): (rows: seq<Swap>)
    requires Readables(host, sources)
    ensures Ready(rows)
  {
    var inputs := NormalInputs(host, sources);
    assert Ready(Concat(inputs)) by {
      forall i | 0 <= i < |inputs|
        ensures Ready(inputs[i])
      {
        NormalRowsReady(host, sources[i]);
      }
      ConcatReady(inputs);
    }
    Concat(inputs)
  }

  predicate UsableWindow(options: Options) {
    options.startInclusive.None? || options.endExclusive.None?
      || ValidWindow(options.startInclusive.value, options.endExclusive.value)
  }

  /** The rows inside the window; without both bounds there is no window. */
  function InWindow(rows: seq<Swap>, options: Options): seq<Swap>
    requires Ready(rows) && UsableWindow(options)
  {
    if options.startInclusive.None? || options.endExclusive.None? then rows
    else Windowed(rows, NatOf(options.startInclusive.value), NatOf(options.endExclusive.value))
  }

  lemma {:induction false} WindowedMembers(rows: seq<Swap>, low: nat, high: nat)
    requires forall s | s in rows :: IsWhole(s.timestamp)
    ensures forall s | s in Windowed(rows, low, high) :: s in rows
    decreases rows
  {
    if rows != [] {
      WindowedMembers(rows[1..], low, high);
    }
  }

  ghost predicate OnBothChains(rows: seq<Swap>, options: Options) {
    && options.leftChain != options.rightChain
    && (exists s | s in rows :: s.chain == options.leftChain) && (exists s | s in rows :: s.chain == options.rightChain)
  }

  /** What the footprint asks of its inputs. */
  ghost predicate Accepted(host: Host, sources: seq<Source>, options: Options) {
    && |sources| >= 2 && Readables(host, sources) && DistinctTrades(Union(host, sources)) && UsableWindow(options)
    && OnBothChains(InWindow(Union(host, sources), options), options)
  }

  lemma MiddleDistinct(before: seq<Swap>, middle: seq<Swap>, after: seq<Swap>)
    requires DistinctTrades(before + middle + after)
    ensures DistinctTrades(middle)
  {
    var all := before + middle + after;
    forall a, b | 0 <= a < b < |middle|
      ensures middle[a].tradeId != middle[b].tradeId
    {
      assert all[|before| + a] == middle[a] && all[|before| + b] == middle[b];
    }
  }

  lemma PartDistinct(inputs: seq<seq<Swap>>, i: nat)
    requires i < |inputs| && DistinctTrades(Concat(inputs))
    ensures DistinctTrades(inputs[i])
  {
    hide DistinctTrades, Concat;
    var rest := ConcatSplit(inputs, i, |inputs[i]|);
    assert inputs[i][..|inputs[i]|] == inputs[i];
    MiddleDistinct(Concat(inputs[..i]), inputs[i], rest);
  }

  /** sources.map(normalizeSourceRows), followed by the union of the results. */
  method NormaliseAndUnite(host: Host, sources: seq<Source>) returns (r: Try<seq<Swap>>)
    ensures r.Success? <==> sources != [] && Readables(host, sources) && DistinctTrades(Union(host, sources))
    ensures r.Success? ==> r.value == Union(host, sources)
  {
    hide Canonical, DistinctTrades, Concat, NormalRows, ValidSource, IsWhole;
    var inputs: seq<seq<Swap>> := [];
    for i := 0 to |sources|
      invariant |inputs| == i
      invariant forall k | 0 <= k < i ::
                ValidSource(host, sources[k])
                && NormalRows(host, sources[k]) == Success(inputs[k])
    {
      var rows := NormalizeSourceRows(host, sources[i]);
      if rows.Failure? {
        if Readables(host, sources) && DistinctTrades(Union(host, sources)) {
          PartDistinct(NormalInputs(host, sources), i);
          assert false;
        }
        return Failure(rows.error);
      }
      inputs := inputs + [rows.value];
    }
    assert inputs == NormalInputs(host, sources);
    assert Union(host, sources) == Concat(inputs);
    var union := UnionRows(inputs);
    if union.Failure? {
      return Failure(union.error);
    }
    r := Success(union.value.0);
  }

  /** The part after the window: aggregate, split by chain, refuse an empty side, join. */
  method AggregateAndJoin(host: Host, collate: (string, string) -> int, rows: seq<Swap>, options: Options)
      returns (r: Try<Result>)
    requires Consistent(collate) && AllCanonical(rows)
    ensures r.Success? <==> OnBothChains(rows, options)
    ensures r.Success? ==> r.value.unionRows == rows && SummariseAll(r.value.perChain, rows)
                           && FootprintOf(r.value.crossChain, rows, options.leftChain, options.rightChain)
  {
    hide AllCanonical, SummariseAll, FootprintOf, Joins, DistinctWallets, Readable;
    var perChain := AggregateByWalletAndChain(collate, rows);
    var left, right := OfChain(perChain, options.leftChain), OfChain(perChain, options.rightChain);
    ChainPresent(perChain, rows, options.leftChain);
    ChainPresent(perChain, rows, options.rightChain);
    if left == [] || right == [] {
      return Failure(INVALID);
    }
    SidesJoinable(perChain, rows, options.leftChain);
    SidesJoinable(perChain, rows, options.rightChain);
    assert left[0] in left && right[0] in right;
    var joined := JoinCrossChainSummaries(host, left, right);
    if joined.Failure? {
      return Failure(joined.error);
    }
    JoinIsFootprint(joined.value, perChain, rows, options.leftChain, options.rightChain);
    r := Success(Result(rows, perChain, joined.value));
  }

  lemma WindowedReady(rows: seq<Swap>, options: Options)
    requires Ready(rows) && UsableWindow(options)
    ensures AllCanonical(InWindow(rows, options))
  {
    hide Canonical;
    if options.startInclusive.Some? && options.endExclusive.Some? {
      WindowedMembers(rows, NatOf(options.startInclusive.value), NatOf(options.endExclusive.value));
    }
  }

  /** executeCrossChainTraderFootprint: it succeeds exactly on accepted inputs, and then returns the windowed
      union, one faithful summary per wallet and chain, and the footprint of the two chains. */
  method ExecuteFootprint(host: Host, collate: (string, string) -> int, sources: seq<Source>, options: Options)
      returns (r: Try<Result>)
    requires Consistent(collate)
    ensures r.Success? <==> Accepted(host, sources, options)
    ensures r.Success? ==>
              && r.value.unionRows == InWindow(Union(host, sources), options)
              && SummariseAll(r.value.perChain, r.value.unionRows)
              && FootprintOf(r.value.crossChain, r.value.unionRows, options.leftChain, options.rightChain)
  {
    hide Canonical, DistinctTrades, IsWhole, Union, Readables, Windowed, SummariseAll, FootprintOf,
      FilterTimestampWindow, ValidWindow;
    if |sources| < 2 {
      return Failure(INVALID);
    }
    var union := NormaliseAndUnite(host, sources);
    if union.Failure? {
      return Failure(union.error);
    }
    var windowed := union.value;
    if options.startInclusive.Some? && options.endExclusive.Some? {
      WindowIsExact(host, windowed, options.startInclusive.value, options.endExclusive.value);
      var filtered := FilterTimestampWindow(host, windowed, options.startInclusive.value, options.endExclusive.value);
      if filtered.Failure? {
        return Failure(filtered.error);
      }
      windowed := filtered.value;
    }
    assert windowed == InWindow(union.value, options);
    WindowedReady(union.value, options);
    r := AggregateAndJoin(host, collate, windowed, options);
  }

  lemma ChainPresent(summaries: seq<Summary>, rows: seq<Swap>, chain: string)
    requires SummariseAll(summaries, rows)
    ensures OfChain(summaries, chain) != [] <==> exists s | s in rows :: s.chain == chain
  {
    hide Summarises;
    if OfChain(summaries, chain) != [] {
      var s := OfChain(summaries, chain)[0];
      assert s in OfChain(summaries, chain);
      SummaryTrades(s, rows);
    }
    if t :| t in rows && t.chain == chain {
      var s :| s in summaries && s.chain == t.chain && s.wallet == t.wallet;
      assert s in OfChain(summaries, chain);
    }
  }

  lemma SummaryTrades(s: Summary, rows: seq<Swap>)
    requires Summarises(s, Trades(rows, s.chain, s.wallet))
    ensures exists t | t in rows :: t.chain == s.chain
  {
    TradesMembers(rows, s.chain, s.wallet);
    var t := Trades(rows, s.chain, s.wallet)[0];
    assert t in Trades(rows, s.chain, s.wallet);
  }

  lemma SidesJoinable(summaries: seq<Summary>, rows: seq<Swap>, chain: string)
    requires SummariseAll(summaries, rows)
    ensures OneChain(OfChain(summaries, chain), chain) && DistinctWallets(OfChain(summaries, chain))
    ensures forall s | s in OfChain(summaries, chain) :: Readable(s)
  {
    hide Summarises, Readable;
    OfChainDistinct(summaries, chain);
    forall s | s in OfChain(summaries, chain)
      ensures Readable(s)
    {
      SummaryIsReadable(s, Trades(rows, s.chain, s.wallet));
    }
  }
}
