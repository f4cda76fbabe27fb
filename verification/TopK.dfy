/** The bounded heap of dag/sort.ts over an arbitrary comparator that may throw, and its refinement
    of the full sort: the heap ends up holding exactly the first K items in order. */
module TopK {
  import opened Wrappers
  import opened Values

  type Comparator<!T> = (T, T) -> Try<int>
  type Order<!T> = (T, T) -> bool

  // ---------------------------------------------------------------- orders

  /** A strict weak order. */
  ghost predicate IsOrder<T(!new)>(less: Order<T>) {
    && (forall a, b :: less(a, b) ==> !less(b, a))
    && (forall a, b, c :: less(a, c) ==> less(a, b) || less(b, c))
  }

  lemma Asymmetric<T(!new)>(less: Order<T>, a: T, b: T)
    requires IsOrder(less) && less(a, b)
    ensures !less(b, a)
  {
  }

  lemma Irreflexive<T(!new)>(less: Order<T>, a: T)
    requires IsOrder(less)
    ensures !less(a, a)
  {
  }

  lemma Transitive<T(!new)>(less: Order<T>, a: T, b: T, c: T)
    requires IsOrder(less) && less(a, b) && less(b, c)
    ensures less(a, c)
  {
    assert !less(c, b);
  }

  lemma NotLess<T(!new)>(less: Order<T>, a: T, b: T, c: T)
    requires IsOrder(less) && !less(a, b) && !less(b, c)
    ensures !less(a, c)
  {
  }

  /** Whenever the comparator answers, it answers as the order does. */
  ghost predicate Follows<T(!new)>(compare: Comparator<T>, less: Order<T>) {
    forall a, b :: compare(a, b).Success? ==>
      (compare(a, b).value < 0 <==> less(a, b)) && (compare(a, b).value > 0 <==> less(b, a))
  }

  /** Some comparison of two of the items throws this error. */
  ghost predicate Raises<T>(compare: Comparator<T>, items: seq<T>, e: Error) {
    exists i, j | 0 <= i < |items| && 0 <= j < |items| :: compare(items[i], items[j]) == Failure(e)
  }

  ghost predicate Sorted<T(!new)>(less: Order<T>, s: seq<T>) {
    forall i, j | 0 <= i < j < |s| :: less(s[i], s[j])
  }

  /** No two entries of the list are equivalent: sorting it leaves no choice. */
  ghost predicate Strict<T(!new)>(less: Order<T>, s: seq<T>) {
    forall i, j | 0 <= i < |s| && 0 <= j < |s| && i != j :: less(s[i], s[j]) || less(s[j], s[i])
  }

  ghost predicate Below<T(!new)>(less: Order<T>, s: seq<T>, x: T) {
    forall i | 0 <= i < |s| :: less(s[i], x)
  }

  // ---------------------------------------------------------------- the specification: a full sort

  ghost function Insert<T(!new)>(less: Order<T>, x: T, s: seq<T>): seq<T> {
    if s == [] || less(x, s[0]) then [x] + s else [s[0]] + Insert(less, x, s[1..])
  }

  ghost function Sort<T(!new)>(less: Order<T>, s: seq<T>): seq<T> {
    if s == [] then [] else Insert(less, s[0], Sort(less, s[1..]))
  }

  lemma {:induction false} InsertPermutes<T(!new)>(less: Order<T>, x: T, s: seq<T>)
    ensures multiset(Insert(less, x, s)) == multiset{x} + multiset(s)
  {
    if s != [] && !less(x, s[0]) {
      InsertPermutes(less, x, s[1..]);
      assert s == [s[0]] + s[1..];
    }
  }

  lemma {:induction false} SortPermutes<T(!new)>(less: Order<T>, s: seq<T>)
    ensures multiset(Sort(less, s)) == multiset(s) && |Sort(less, s)| == |s|
  {
    if s != [] {
      SortPermutes(less, s[1..]);
      InsertPermutes(less, s[0], Sort(less, s[1..]));
      assert s == [s[0]] + s[1..];
      assert |multiset(Sort(less, s))| == |multiset(s)|;
    }
  }

  lemma {:induction false} InsertSorted<T(!new)>(less: Order<T>, x: T, s: seq<T>)
    requires IsOrder(less) && Sorted(less, s)
    requires forall i | 0 <= i < |s| :: less(s[i], x) || less(x, s[i])
    ensures Sorted(less, Insert(less, x, s))
  {
    hide IsOrder;
    if s != [] && !less(x, s[0]) {
      InsertSorted(less, x, s[1..]);
      InsertPermutes(less, x, s[1..]);
      var tail := Insert(less, x, s[1..]);
      forall j | 0 <= j < |tail|
        ensures less(s[0], tail[j])
      {
        assert tail[j] in multiset(tail);
        assert tail[j] == x || tail[j] in s[1..];
      }
    } else if s != [] {
      forall j | 0 <= j < |s|
        ensures less(x, s[j])
      {
        if j > 0 { Transitive(less, x, s[0], s[j]); }
      }
    }
  }

  lemma {:induction false} SortSorts<T(!new)>(less: Order<T>, s: seq<T>)
    requires IsOrder(less) && Strict(less, s)
    ensures Sorted(less, Sort(less, s))
  {
    hide IsOrder;
    if s != [] {
      SortSorts(less, s[1..]);
      SortPermutes(less, s[1..]);
      var tail := Sort(less, s[1..]);
      forall i | 0 <= i < |tail|
        ensures less(tail[i], s[0]) || less(s[0], tail[i])
      {
        assert tail[i] in multiset(tail);
        assert tail[i] in s[1..];
      }
      InsertSorted(less, s[0], tail);
    }
  }

  lemma SameHead<T(!new)>(less: Order<T>, a: seq<T>, b: seq<T>)
    requires IsOrder(less) && Sorted(less, a) && Sorted(less, b) && multiset(a) == multiset(b) && |a| > 0 && |b| > 0
    ensures a[0] == b[0]
  {
    hide IsOrder;
    assert a[0] in multiset(b) && b[0] in multiset(a);
    var i :| 0 <= i < |b| && b[i] == a[0];
    var j :| 0 <= j < |a| && a[j] == b[0];
    if i > 0 && j > 0 {
      Asymmetric(less, b[0], b[i]);
    }
  }

  lemma TailCounts<T>(a: seq<T>)
    requires |a| > 0
    ensures multiset(a[1..]) == multiset(a) - multiset{a[0]}
  {
    assert a == [a[0]] + a[1..];
  }

  /** A strictly sorted arrangement of given items is unique. */
  lemma {:induction false} SortedIsUnique<T(!new)>(less: Order<T>, a: seq<T>, b: seq<T>)
    requires IsOrder(less) && Sorted(less, a) && Sorted(less, b) && multiset(a) == multiset(b)
    ensures a == b
  {
    hide IsOrder;
    assert |a| == |multiset(a)| == |multiset(b)| == |b|;
    if a != [] {
      SameHead(less, a, b);
      TailCounts(a);
      TailCounts(b);
      SortedIsUnique(less, a[1..], b[1..]);
      assert a == [a[0]] + a[1..] && b == [b[0]] + b[1..];
    }
  }

  lemma SortedConcat<T(!new)>(less: Order<T>, kept: seq<T>, dropped: seq<T>)
    requires IsOrder(less) && Strict(less, kept) && Strict(less, dropped)
    requires forall i | 0 <= i < |dropped| :: Below(less, kept, dropped[i])
    ensures Sorted(less, Sort(less, kept) + Sort(less, dropped))
  {
    hide IsOrder;
    SortSorts(less, kept);
    SortSorts(less, dropped);
    SortPermutes(less, kept);
    SortPermutes(less, dropped);
    var front, back := Sort(less, kept), Sort(less, dropped);
    forall i, j | 0 <= i < |front| && 0 <= j < |back|
      ensures less(front[i], back[j])
    {
      assert front[i] in multiset(front) && back[j] in multiset(back);
      var k :| 0 <= k < |kept| && kept[k] == front[i];
      var l :| 0 <= l < |dropped| && dropped[l] == back[j];
      assert Below(less, kept, dropped[l]);
    }
  }

  /** If some K items all precede the rest, sorting them alone gives the first K of the full sort. */
  lemma PrefixOfSort<T(!new)>(less: Order<T>, all: seq<T>, kept: seq<T>, dropped: seq<T>)
    requires IsOrder(less) && Strict(less, all)
    requires multiset(kept) + multiset(dropped) == multiset(all)
    requires Strict(less, kept) && Strict(less, dropped)
    requires forall i | 0 <= i < |dropped| :: Below(less, kept, dropped[i])
    ensures |kept| <= |Sort(less, all)| == |all| && Sort(less, kept) == Sort(less, all)[..|kept|]
  {
    hide IsOrder, Strict, Below, Sort;
    SortedConcat(less, kept, dropped);
    SortSorts(less, all);
    SortPermutes(less, kept);
    SortPermutes(less, dropped);
    SortPermutes(less, all);
    var front, back := Sort(less, kept), Sort(less, dropped);
    assert multiset(front + back) == multiset(Sort(less, all));
    SortedIsUnique(less, front + back, Sort(less, all));
    assert (front + back)[..|kept|] == front;
  }

  // ---------------------------------------------------------------- the heap

  function Swapped<T>(s: seq<T>, i: nat, j: nat): (r: seq<T>)
    requires i < |s| && j < |s|
    ensures |r| == |s| && r[i] == s[j] && r[j] == s[i]
    ensures forall k | 0 <= k < |s| && k != i && k != j :: r[k] == s[k]
    ensures multiset(r) == multiset(s)
  {
    s[i := s[j]][j := s[i]]
  }

  function Parent(i: nat): (p: nat)
    requires i > 0
    ensures p < i && (i == 2 * p + 1 || i == 2 * p + 2)
  {
    (i - 1) / 2
  }

  ghost predicate Ordered<T(!new)>(less: Order<T>, s: seq<T>, parent: nat, child: nat)
    requires parent < |s| && child < |s|
  {
    !less(s[parent], s[child])
  }

  /** Every parent is at least as late in the order as its children: the worst item is at the root. */
  ghost predicate IsHeap<T(!new)>(less: Order<T>, s: seq<T>) {
    forall i | 0 < i < |s| :: Ordered(less, s, Parent(i), i)
  }

  /** A heap except below `at`, whose children still respect the parent of `at`. */
  ghost predicate HeapBut<T(!new)>(less: Order<T>, s: seq<T>, at: nat) {
    && (forall i | 0 < i < |s| && Parent(i) != at :: Ordered(less, s, Parent(i), i))
    && (forall i | 0 < i < |s| && Parent(i) == at && at > 0 :: Ordered(less, s, Parent(at), i))
  }

  /** A heap except above `at`, whose children still respect the parent of `at`. */
  ghost predicate HeapRising<T(!new)>(less: Order<T>, s: seq<T>, at: nat) {
    && (forall i | 0 < i < |s| && i != at :: Ordered(less, s, Parent(i), i))
    && (forall i | 0 < i < |s| && Parent(i) == at && 0 < at :: Ordered(less, s, Parent(at), i))
  }

  lemma {:induction false} RootIsWorst<T(!new)>(less: Order<T>, s: seq<T>, i: nat)
    requires IsOrder(less) && IsHeap(less, s) && i < |s|
    ensures !less(s[0], s[i])
  {
    hide IsOrder;
    if i > 0 {
      RootIsWorst(less, s, Parent(i));
      assert Ordered(less, s, Parent(i), i);
      NotLess(less, s[0], s[Parent(i)], s[i]);
    } else {
      Irreflexive(less, s[0]);
    }
  }

  lemma RisenStep<T(!new)>(less: Order<T>, s: seq<T>, at: nat)
    requires IsOrder(less) && 0 < at < |s| && HeapRising(less, s, at) && less(s[Parent(at)], s[at])
    ensures HeapRising(less, Swapped(s, at, Parent(at)), Parent(at))
  {
    hide IsOrder;
    var p := Parent(at);
    var r := Swapped(s, at, p);
    Asymmetric(less, s[p], s[at]);
    forall i | 0 < i < |r| && i != p
      ensures Ordered(less, r, Parent(i), i)
    {
      if i != at {
        assert Ordered(less, s, Parent(i), i);
        if Parent(i) == p {
          NotLess(less, s[at], s[p], s[i]);
        } else if Parent(i) == at {
          assert Ordered(less, s, p, i);
        }
      }
    }
    forall i | 0 < i < |r| && Parent(i) == p && 0 < p
      ensures Ordered(less, r, Parent(p), i)
    {
      assert Ordered(less, s, Parent(p), p);
      if i != at {
        assert Ordered(less, s, p, i);
        NotLess(less, s[Parent(p)], s[p], s[i]);
      }
    }
  }

  lemma SunkStep<T(!new)>(less: Order<T>, s: seq<T>, at: nat, worst: nat)
    requires IsOrder(less) && 0 < worst < |s| && Parent(worst) == at && HeapBut(less, s, at)
    requires less(s[at], s[worst])
    requires forall i | 0 < i < |s| && Parent(i) == at :: !less(s[worst], s[i])
    ensures HeapBut(less, Swapped(s, at, worst), worst)
  {
    hide IsOrder;
    var r := Swapped(s, at, worst);
    Asymmetric(less, s[at], s[worst]);
    forall i | 0 < i < |r| && Parent(i) != worst
      ensures Ordered(less, r, Parent(i), i)
    {
      if i == at {
        assert Ordered(less, s, Parent(at), worst);
      } else if Parent(i) != at {
        assert Ordered(less, s, Parent(i), i);
      }
    }
    forall i | 0 < i < |r| && Parent(i) == worst
      ensures Ordered(less, r, at, i)
    {
      assert Ordered(less, s, worst, i);
    }
  }

  class Heap<!T(!new)> {
    var items: seq<T>

    constructor ()
      ensures items == []
    {
      items := [];
    }

    /** The worst of an item and its children. */
    method WorstOf(index: nat, compare: Comparator<T>, ghost less: Order<T>) returns (r: Try<nat>)
      requires IsOrder(less) && Follows(compare, less) && index < |items|
      ensures r.Success? ==>
              r.value < |items|
              && (r.value == index || (r.value > 0 && Parent(r.value) == index && less(items[index], items[r.value])))
      ensures r.Success? ==> forall i | 0 < i < |items| && Parent(i) == index :: !less(items[r.value], items[i])
      ensures r.Failure? ==> Raises(compare, items, r.error)
    {
      hide IsOrder;
      var left := index * 2 + 1;
      var right := left + 1;
      var worst := index;
      if left < |items| {
        var c := compare(items[left], items[worst]);
        if c.Failure? {
          return Failure(c.error);
        }
        if c.value > 0 { worst := left; }
      }
      Irreflexive(less, items[worst]);
      if right < |items| {
        var c := compare(items[right], items[worst]);
        if c.Failure? {
          return Failure(c.error);
        }
        if c.value > 0 {
          if worst == left { Transitive(less, items[index], items[left], items[right]); }
          Asymmetric(less, items[worst], items[right]);
          NotLess(less, items[right], items[worst], items[left]);
          Irreflexive(less, items[right]);
          worst := right;
        }
      }
      r := Success(worst);
    }

    /** siftDown: the item at `start` sinks until no child is worse. */
    method SiftDown(start: nat, compare: Comparator<T>, ghost less: Order<T>) returns (r: Try<()>)
      requires IsOrder(less) && Follows(compare, less)
      requires start < |items| && HeapBut(less, items, start)
      modifies this
      ensures multiset(items) == multiset(old(items)) && |items| == |old(items)|
      ensures r.Success? ==> IsHeap(less, items)
      ensures r.Failure? ==> Raises(compare, old(items), r.error)
    {
      hide IsOrder, Follows;
      var index := start;
      while true
        invariant index < |items| == |old(items)|
        invariant multiset(items) == multiset(old(items))
        invariant HeapBut(less, items, index)
        decreases |items| - index
      {
        var worst := WorstOf(index, compare, less);
        if worst.Failure? {
          RaisedByPart(compare, old(items), items, worst.error);
          return Failure(worst.error);
        }
        if worst.value == index {
          return Success(());
        }
        SunkStep(less, items, index, worst.value);
        items := Swapped(items, index, worst.value);
        index := worst.value;
      }
    }

    /** pushHeap: the new item rises while it is worse than its parent. */
    method Push(value: T, compare: Comparator<T>, ghost less: Order<T>) returns (r: Try<()>)
      requires IsOrder(less) && Follows(compare, less) && IsHeap(less, items)
      modifies this
      ensures multiset(items) == multiset(old(items) + [value]) && |items| == |old(items)| + 1
      ensures r.Success? ==> IsHeap(less, items)
      ensures r.Failure? ==> Raises(compare, old(items) + [value], r.error)
    {
      items := items + [value];
      ghost var all := items;
      var index: nat := |items| - 1;
      while index > 0
        invariant index < |items| == |all|
        invariant multiset(items) == multiset(all)
        invariant HeapRising(less, items, index)
      {
        var parent := Parent(index);
        var c := compare(items[index], items[parent]);
        if c.Failure? {
          RaisedBy(compare, all, items, index, parent);
          return Failure(c.error);
        }
        if c.value <= 0 {
          return Success(());
        }
        RisenStep(less, items, index);
        items := Swapped(items, index, parent);
        index := parent;
      }
      r := Success(());
    }
  }

  lemma RaisedBy<T(!new)>(compare: Comparator<T>, all: seq<T>, s: seq<T>, i: nat, j: nat)
    requires multiset(s) <= multiset(all) && i < |s| && j < |s| && compare(s[i], s[j]).Failure?
    ensures Raises(compare, all, compare(s[i], s[j]).error)
  {
    assert s[i] in multiset(s) && s[j] in multiset(s);
    assert s[i] in multiset(all) && s[j] in multiset(all);
    var k :| 0 <= k < |all| && all[k] == s[i];
    var l :| 0 <= l < |all| && all[l] == s[j];
    assert compare(all[k], all[l]) == Failure(compare(s[i], s[j]).error);
  }

  lemma RaisedByPart<T(!new)>(compare: Comparator<T>, all: seq<T>, s: seq<T>, e: Error)
    requires multiset(s) <= multiset(all) && Raises(compare, s, e)
    ensures Raises(compare, all, e)
  {
    var i, j :| 0 <= i < |s| && 0 <= j < |s| && compare(s[i], s[j]) == Failure(e);
    RaisedBy(compare, all, s, i, j);
  }

  // ---------------------------------------------------------------- parts of a strict list

  lemma CountsTwice<T>(s: seq<T>, i: nat, j: nat)
    requires i < j < |s| && s[i] == s[j]
    ensures multiset(s)[s[i]] >= 2
  {
    assert s == s[..i] + [s[i]] + s[i + 1..];
    assert s[i + 1..][j - i - 1] == s[i];
    assert s[i] in multiset(s[i + 1..]);
  }

  lemma FoundTwice<T>(s: seq<T>, x: T) returns (i: nat, j: nat)
    requires multiset(s)[x] >= 2
    ensures i < |s| && j < |s| && i != j && s[i] == x && s[j] == x
  {
    assert x in multiset(s);
    i :| 0 <= i < |s| && s[i] == x;
    var rest := s[..i] + s[i + 1..];
    assert s == s[..i] + [s[i]] + s[i + 1..];
    assert x in multiset(rest);
    var k :| 0 <= k < |rest| && rest[k] == x;
    j := if k < i then k else k + 1;
  }

  lemma StrictPart<T(!new)>(less: Order<T>, all: seq<T>, part: seq<T>)
    requires IsOrder(less) && Strict(less, all) && multiset(part) <= multiset(all)
    ensures Strict(less, part)
  {
    hide IsOrder;
    forall i, j | 0 <= i < |part| && 0 <= j < |part| && i != j
      ensures less(part[i], part[j]) || less(part[j], part[i])
    {
      var x, y := part[i], part[j];
      assert x in multiset(part) && y in multiset(part);
      if x == y {
        CountsTwice(part, if i < j then i else j, if i < j then j else i);
        assert multiset(all)[x] >= multiset(part)[x];
        var k, l := FoundTwice(all, x);
        assert less(all[k], all[l]);
      } else {
        assert x in multiset(all) && y in multiset(all);
        var k :| 0 <= k < |all| && all[k] == x;
        var l :| 0 <= l < |all| && all[l] == y;
        assert less(all[k], all[l]) || less(all[l], all[k]);
      }
    }
  }

  // ---------------------------------------------------------------- sorting with the comparator

  /** Array.prototype.sort under a consistent comparator: any correct stable sort, here by insertion. */
  method NativeSort<T(!new)>(items: seq<T>, compare: Comparator<T>, ghost less: Order<T>) returns (r: Try<seq<T>>)
    requires Follows(compare, less)
    ensures r.Success? ==> r.value == Sort(less, items)
    ensures r.Failure? ==> Raises(compare, items, r.error)
  {
    var sorted: seq<T> := [];
    var i := |items|;
    while i > 0
      invariant 0 <= i <= |items|
      invariant sorted == Sort(less, items[i..])
    {
      i := i - 1;
      assert items[i..][0] == items[i] && items[i..][1..] == items[i + 1..];
      SortPermutes(less, items[i + 1..]);
      assert items == items[..i + 1] + items[i + 1..];
      assert items[i] in multiset(items);
      var next := InsertWith(items[i], sorted, compare, less, items);
      if next.Failure? {
        return Failure(next.error);
      }
      sorted := next.value;
    }
    assert items[0..] == items;
    r := Success(sorted);
  }

  lemma RaisedByPair<T(!new)>(compare: Comparator<T>, all: seq<T>, x: T, s: seq<T>, k: nat)
    requires x in all && multiset(s) <= multiset(all) && k < |s| && compare(x, s[k]).Failure?
    ensures Raises(compare, all, compare(x, s[k]).error)
  {
    assert s[k] in multiset(s);
    assert s[k] in multiset(all);
    var i :| 0 <= i < |all| && all[i] == x;
    var j :| 0 <= j < |all| && all[j] == s[k];
    assert compare(all[i], all[j]) == Failure(compare(x, s[k]).error);
  }

  lemma InsertAfter<T(!new)>(less: Order<T>, x: T, s: seq<T>, k: nat)
    requires k < |s| && !less(x, s[k])
    ensures s[..k] + Insert(less, x, s[k..]) == s[..k + 1] + Insert(less, x, s[k + 1..])
  {
    assert s[k..][1..] == s[k + 1..];
  }

  method InsertWith<T(!new)>(x: T, s: seq<T>, compare: Comparator<T>, ghost less: Order<T>, ghost all: seq<T>)
      returns (r: Try<seq<T>>)
    requires Follows(compare, less)
    requires x in all && multiset(s) <= multiset(all)
    ensures r.Success? ==> r.value == Insert(less, x, s)
    ensures r.Failure? ==> Raises(compare, all, r.error)
  {
    var k := 0;
    assert s[0..] == s;
    while k < |s|
      invariant 0 <= k <= |s|
      invariant Insert(less, x, s) == s[..k] + Insert(less, x, s[k..])
    {
      var c := compare(x, s[k]);
      if c.Failure? {
        RaisedByPair(compare, all, x, s, k);
        return Failure(c.error);
      }
      if c.value < 0 {
        break;
      }
      InsertAfter(less, x, s, k);
      k := k + 1;
    }
    r := Success(s[..k] + [x] + s[k..]);
  }

  // ---------------------------------------------------------------- the bounded heap run

  /** Everything seen so far is either kept, or dropped and later than all that is kept. */
  ghost predicate Split<T(!new)>(less: Order<T>, seen: seq<T>, kept: seq<T>, dropped: seq<T>) {
    && multiset(kept) + multiset(dropped) == multiset(seen)
    && forall i | 0 <= i < |dropped| :: Below(less, kept, dropped[i])
  }

  lemma SplitPermuted<T(!new)>(less: Order<T>, seen: seq<T>, kept: seq<T>, other: seq<T>, dropped: seq<T>)
    requires Split(less, seen, kept, dropped) && multiset(kept) == multiset(other)
    ensures Split(less, seen, other, dropped)
  {
    forall i, j | 0 <= i < |dropped| && 0 <= j < |other|
      ensures less(other[j], dropped[i])
    {
      assert other[j] in multiset(other);
      assert other[j] in multiset(kept);
      assert Below(less, kept, dropped[i]);
    }
  }

  /** In a heap without equivalent items, everything but the root precedes the root. */
  lemma RootDominates<T(!new)>(less: Order<T>, s: seq<T>, i: nat)
    requires IsOrder(less) && IsHeap(less, s) && Strict(less, s) && 0 < i < |s|
    ensures less(s[i], s[0])
  {
    RootIsWorst(less, s, i);
  }

  /** An item that does not precede the worst kept one is dropped. */
  lemma DropStep<T(!new)>(less: Order<T>, seen: seq<T>, kept: seq<T>, dropped: seq<T>, x: T)
    requires IsOrder(less) && IsHeap(less, kept) && |kept| > 0
    requires Split(less, seen, kept, dropped) && Strict(less, seen + [x]) && !less(x, kept[0])
    ensures Split(less, seen + [x], kept, dropped + [x])
  {
    hide IsOrder, IsHeap;
    StrictPart(less, seen + [x], kept + [x]);
    StrictPart(less, seen + [x], kept);
    assert less((kept + [x])[0], (kept + [x])[|kept|]);
    forall i | 0 <= i < |kept|
      ensures less(kept[i], x)
    {
      if i > 0 {
        RootDominates(less, kept, i);
        Transitive(less, kept[i], kept[0], x);
      }
    }
  }

  lemma ReplaceRoot<T(!new)>(less: Order<T>, s: seq<T>, x: T)
    requires IsHeap(less, s) && |s| > 0
    ensures HeapBut(less, s[0 := x], 0)
  {
    assert forall i | 0 < i < |s| && Parent(i) != 0 :: Ordered(less, s, Parent(i), i);
  }

  lemma ReplaceCounts<T>(kept: seq<T>, dropped: seq<T>, seen: seq<T>, x: T)
    requires |kept| > 0 && multiset(kept) + multiset(dropped) == multiset(seen)
    ensures multiset(kept[0 := x]) + multiset(dropped + [kept[0]]) == multiset(seen + [x])
  {
  }

  lemma BelowAll<T(!new)>(less: Order<T>, kept: seq<T>, x: T, d: T)
    requires IsOrder(less) && |kept| > 0 && Below(less, kept, d) && less(x, kept[0])
    ensures Below(less, kept[0 := x], d)
  {
    Transitive(less, x, kept[0], d);
  }

  lemma BelowRoot<T(!new)>(less: Order<T>, kept: seq<T>, x: T)
    requires IsOrder(less) && IsHeap(less, kept) && Strict(less, kept) && |kept| > 0 && less(x, kept[0])
    ensures Below(less, kept[0 := x], kept[0])
  {
    hide IsOrder, IsHeap;
    forall i | 0 < i < |kept|
      ensures less(kept[i], kept[0])
    {
      RootDominates(less, kept, i);
    }
  }

  /** An item that precedes the worst kept one takes its place. */
  lemma ReplaceStep<T(!new)>(less: Order<T>, seen: seq<T>, kept: seq<T>, dropped: seq<T>, x: T)
    requires IsOrder(less) && IsHeap(less, kept) && |kept| > 0
    requires Split(less, seen, kept, dropped) && Strict(less, seen + [x]) && less(x, kept[0])
    ensures Split(less, seen + [x], kept[0 := x], dropped + [kept[0]])
  {
    hide IsOrder, IsHeap;
    StrictPart(less, seen + [x], kept);
    hide Strict, Below;
    BelowRoot(less, kept, x);
    ReplaceCounts(kept, dropped, seen, x);
    forall i | 0 <= i < |dropped|
      ensures Below(less, kept[0 := x], dropped[i])
    {
      BelowAll(less, kept, x, dropped[i]);
    }
  }

  class BoundedHeap<!T(!new)> {
    const heap: Heap<T>
    ghost var dropped: seq<T>

    constructor (ghost less: Order<T>)
      ensures fresh(this) && fresh(heap)
      ensures heap.items == [] && dropped == []
    {
      heap := new Heap<T>();
      dropped := [];
    }

    /** The heap holds the least `limit` of the items seen so far, the worst of them at its root. */
    ghost predicate Holds(less: Order<T>, seen: seq<T>, limit: nat)
      reads this, heap
    {
      && |heap.items| == (if |seen| < limit then |seen| else limit)
      && (|heap.items| < limit ==> dropped == [])
      && IsHeap(less, heap.items)
      && Split(less, seen, heap.items, dropped)
    }

    /** One turn of the loop in sortRows. */
    method Offer(item: T, limit: nat, compare: Comparator<T>, ghost less: Order<T>, ghost seen: seq<T>)
        returns (r: Try<()>)
      requires IsOrder(less) && Follows(compare, less) && limit > 0
      requires Holds(less, seen, limit) && Strict(less, seen + [item])
      modifies this, heap
      ensures r.Success? ==> Holds(less, seen + [item], limit)
      ensures r.Failure? ==> Raises(compare, seen + [item], r.error)
    {
      hide IsOrder, IsHeap, Follows, Strict;
      ghost var kept, all := heap.items, seen + [item];
      assert multiset(kept + [item]) <= multiset(all);
      if |heap.items| < limit {
        r := heap.Push(item, compare, less);
        if r.Failure? {
          RaisedByPart(compare, all, kept + [item], r.error);
        }
      } else {
        var c := compare(item, heap.items[0]);
        if c.Failure? {
          RaisedBy(compare, all, kept + [item], |kept|, 0);
          return Failure(c.error);
        }
        FollowsAt(compare, less, item, heap.items[0]);
        if c.value < 0 {
          r := Replace(item, compare, less, seen);
        } else {
          DropStep(less, seen, kept, dropped, item);
          dropped := dropped + [item];
          r := Success(());
        }
      }
    }

    method Replace(item: T, compare: Comparator<T>, ghost less: Order<T>, ghost seen: seq<T>) returns (r: Try<()>)
      requires IsOrder(less) && Follows(compare, less) && |heap.items| > 0
      requires IsHeap(less, heap.items) && Split(less, seen, heap.items, dropped)
      requires Strict(less, seen + [item]) && less(item, heap.items[0])
      modifies this, heap
      ensures |heap.items| == |old(heap.items)| && |dropped| == |old(dropped)| + 1
      ensures r.Success? ==> IsHeap(less, heap.items) && Split(less, seen + [item], heap.items, dropped)
      ensures r.Failure? ==> Raises(compare, seen + [item], r.error)
    {
      hide IsOrder, IsHeap, Follows, Strict, HeapBut;
      ReplaceStep(less, seen, heap.items, dropped, item);
      ReplaceRoot(less, heap.items, item);
      dropped := dropped + [heap.items[0]];
      heap.items := heap.items[0 := item];
      ghost var next := heap.items;
      r := heap.SiftDown(0, compare, less);
      if r.Failure? {
        RaisedByPart(compare, seen + [item], next, r.error);
      }
      SplitPermuted(less, seen + [item], next, heap.items, dropped);
    }
  }

  /** The limit branch of sortRows: the bounded heap returns exactly the first K of the full sort. */
  method SelectFirst<T(!new)>(items: seq<T>, limit: nat, compare: Comparator<T>, ghost less: Order<T>)
      returns (r: Try<seq<T>>)
    requires IsOrder(less) && Follows(compare, less) && Strict(less, items) && 0 < limit < |items|
    ensures |Sort(less, items)| == |items|
    ensures r.Success? ==> r.value == Sort(less, items)[..limit]
    ensures r.Failure? ==> Raises(compare, items, r.error)
  {
    hide IsOrder, IsHeap, Strict, Follows;
    SortPermutes(less, items);
    var state := new BoundedHeap<T>(less);
    EmptyHeap(less);
    for i := 0 to |items|
      invariant fresh(state) && fresh(state.heap)
      invariant state.Holds(less, items[..i], limit)
    {
      assert items[..i + 1] == items[..i] + [items[i]];
      assert items == items[..i + 1] + items[i + 1..];
      StrictPart(less, items, items[..i + 1]);
      var offered := state.Offer(items[i], limit, compare, less, items[..i]);
      if offered.Failure? {
        RaisedByPart(compare, items, items[..i + 1], offered.error);
        return Failure(offered.error);
      }
    }
    assert items[..|items|] == items;
    StrictPart(less, items, state.heap.items);
    StrictPart(less, items, state.dropped);
    PrefixOfSort(less, items, state.heap.items, state.dropped);
    r := NativeSort(state.heap.items, compare, less);
    if r.Failure? {
      RaisedByPart(compare, items, state.heap.items, r.error);
    }
  }

  lemma EmptyHeap<T(!new)>(less: Order<T>)
    ensures IsHeap<T>(less, [])
  {
  }

  lemma FollowsAt<T(!new)>(compare: Comparator<T>, less: Order<T>, a: T, b: T)
    requires Follows(compare, less) && compare(a, b).Success?
    ensures compare(a, b).value < 0 <==> less(a, b)
  {
  }
}
