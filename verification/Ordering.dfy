/** Sorting as the standard library promises it, ascending id sets, and filters over sequences. */
module Ordering {
  import opened Bytes
  import opened Values

  // ---- sorting ----

  ghost predicate StrictWeakOrder<T(!new)>(less: (T, T) -> bool)
  {
    && (forall a, b :: less(a, b) ==> !less(b, a))
    && (forall a, b, c :: less(a, c) ==> less(a, b) || less(b, c))
  }

  ghost predicate Ordered<T(!new)>(s: seq<T>, less: (T, T) -> bool)
  {
    forall i, j | 0 <= i < j < |s| :: !less(s[j], s[i])
  }

  /** Where x goes: behind everything it does not precede. */
  method InsertionPoint<T(!new)>(s: seq<T>, x: T, less: (T, T) -> bool) returns (k: nat)
    requires StrictWeakOrder(less) && Ordered(s, less)
    ensures k <= |s|
    ensures forall i | 0 <= i < k :: !less(x, s[i])
    ensures forall i | k <= i < |s| :: !less(s[i], x)
  {
    k := |s|;
    while k > 0 && less(x, s[k - 1])
      invariant k <= |s|
      invariant forall i | k <= i < |s| :: less(x, s[i])
    {
      k := k - 1;
    }
    forall i | 0 <= i < k
      ensures !less(x, s[i])
    {
      if i < k - 1 {
        assert !less(s[k - 1], s[i]);
      }
    }
  }

  lemma {:induction false} OrderedInsert<T(!new)>(s: seq<T>, k: nat, x: T, less: (T, T) -> bool)
    requires k <= |s| && Ordered(s, less)
    requires forall i | 0 <= i < k :: !less(x, s[i])
    requires forall i | k <= i < |s| :: !less(s[i], x)
    ensures Ordered(s[..k] + [x] + s[k..], less)
    ensures multiset(s[..k] + [x] + s[k..]) == multiset(s) + multiset{x}
  {
    assert s == s[..k] + s[k..];
    var r := s[..k] + [x] + s[k..];
    forall i, j | 0 <= i < j < |r|
      ensures !less(r[j], r[i])
    {
      assert r[i] == if i < k then s[i] else if i == k then x else s[i - 1];
      assert r[j] == if j < k then s[j] else if j == k then x else s[j - 1];
    }
  }

  /** Sorting: some ordered permutation; callers may rely on nothing else. */
  method Sort<T(!new)>(s: seq<T>, less: (T, T) -> bool) returns (r: seq<T>)
    requires StrictWeakOrder(less)
    ensures multiset(r) == multiset(s) && |r| == |s|
    ensures Ordered(r, less)
  {
    r := [];
    for i := 0 to |s|
      invariant Ordered(r, less) && |r| == i
      invariant multiset(r) == multiset(s[..i])
    {
      var k := InsertionPoint(r, s[i], less);
      OrderedInsert(r, k, s[i], less);
      assert s[..i + 1] == s[..i] + [s[i]];
      r := r[..k] + [s[i]] + r[k..];
    }
    assert s[..|s|] == s;
  }

  lemma {:induction false} MultisetMembers<T(!new)>(a: seq<T>, b: seq<T>)
    requires multiset(a) == multiset(b)
    ensures forall x :: x in a <==> x in b
  {
    forall x
      ensures x in a <==> x in b
    {
      assert x in a <==> x in multiset(a);
      assert x in b <==> x in multiset(b);
    }
  }

  ghost predicate Distinct<T(!new)>(s: seq<T>)
  {
    forall i, j | 0 <= i < j < |s| :: s[i] != s[j]
  }

  lemma {:induction false} DistinctCounts<T(!new)>(s: seq<T>)
    ensures Distinct(s) <==> forall x :: multiset(s)[x] <= 1
  {
    if |s| > 0 {
      var front, last := s[..|s| - 1], s[|s| - 1];
      assert s == front + [last];
      DistinctCounts(front);
      if Distinct(s) {
        assert Distinct(front);
        assert last !in front;
        forall x
          ensures multiset(s)[x] <= 1
        {
          assert multiset(s)[x] == multiset(front)[x] + multiset{last}[x];
        }
      }
      if forall x :: multiset(s)[x] <= 1 {
        forall x
          ensures multiset(front)[x] <= 1
        {
          assert multiset(s)[x] == multiset(front)[x] + multiset{last}[x];
        }
        assert multiset(s)[last] == multiset(front)[last] + 1;
        assert last !in multiset(front);
        assert last !in front;
      }
    }
  }

  lemma {:induction false} DistinctPermutation<T(!new)>(a: seq<T>, b: seq<T>)
    requires multiset(a) == multiset(b) && Distinct(a)
    ensures Distinct(b)
  {
    DistinctCounts(a);
    DistinctCounts(b);
  }

  lemma {:induction false} SameFirst<T(!new)>(a: seq<T>, b: seq<T>, less: (T, T) -> bool)
    requires |a| > 0 && |b| > 0 && Ordered(a, less) && Ordered(b, less)
    requires a[0] in b && b[0] in a
    requires a[0] != b[0] ==> less(a[0], b[0]) || less(b[0], a[0])
    ensures a[0] == b[0]
  {
    var i :| 0 <= i < |b| && b[i] == a[0];
    var j :| 0 <= j < |a| && a[j] == b[0];
  }

  lemma {:induction false} DropFirst<T(!new)>(a: seq<T>, b: seq<T>)
    requires |a| > 0 && |b| > 0 && multiset(a) == multiset(b) && a[0] == b[0]
    ensures multiset(a[1..]) == multiset(b[1..])
  {
    assert a == [a[0]] + a[1..] && b == [b[0]] + b[1..];
    assert multiset(a[1..]) == multiset(a) - multiset{a[0]};
    assert multiset(b[1..]) == multiset(b) - multiset{b[0]};
  }

  /** Two ordered lists of the same elements agree when distinct elements are never tied. */
  lemma {:induction false} OrderedUnique<T(!new)>(a: seq<T>, b: seq<T>, less: (T, T) -> bool)
    requires multiset(a) == multiset(b) && Ordered(a, less) && Ordered(b, less)
    requires forall x, y | x in a && y in a && x != y :: less(x, y) || less(y, x)
    ensures a == b
  {
    assert |multiset(a)| == |a| && |multiset(b)| == |b|;
    if |a| > 0 {
      MultisetMembers(a, b);
      assert a[0] in a && b[0] in b;
      SameFirst(a, b, less);
      DropFirst(a, b);
      OrderedUnique(a[1..], b[1..], less);
      assert a == [a[0]] + a[1..] && b == [b[0]] + b[1..];
    }
  }

  lemma {:induction false} MultisetSize<T>(a: multiset<T>, b: multiset<T>)
    requires a <= b
    ensures |a| <= |b|
  {
    assert b == a + (b - a);
  }

  /** What precedes b[i] is not found at or behind it. */
  lemma {:induction false} NotBehind<T(!new)>(b: seq<T>, less: (T, T) -> bool, i: nat, x: T)
    requires StrictWeakOrder(less) && Ordered(b, less) && i < |b| && less(x, b[i])
    ensures x !in b[i..]
  {
    forall m | i <= m < |b|
      ensures b[m] != x
    {
      assert !less(b[i], b[i]);
      assert m > i ==> !less(b[m], b[i]);
    }
  }

  lemma {:induction false} CountedBefore<T(!new)>(a: seq<T>, b: seq<T>, less: (T, T) -> bool, i: nat)
    requires StrictWeakOrder(less) && multiset(a) == multiset(b) && Ordered(b, less) && i < |a| && i < |b|
    requires forall k | 0 <= k <= i :: less(a[k], b[i])
    ensures multiset(a[..i + 1]) <= multiset(b[..i])
  {
    assert a == a[..i + 1] + a[i + 1..] && b == b[..i] + b[i..];
    forall x
      ensures multiset(a[..i + 1])[x] <= multiset(b[..i])[x]
    {
      if x in a[..i + 1] {
        var k :| 0 <= k < i + 1 && a[k] == x;
        NotBehind(b, less, i, x);
        assert multiset(b[i..])[x] == 0;
        assert multiset(a)[x] >= multiset(a[..i + 1])[x];
      } else {
        assert multiset(a[..i + 1])[x] == 0;
      }
    }
  }

  /** Two ordered permutations are tied position by position. */
  lemma {:induction false} OrderedTied<T(!new)>(a: seq<T>, b: seq<T>, less: (T, T) -> bool, i: nat)
    requires StrictWeakOrder(less) && multiset(a) == multiset(b) && Ordered(a, less) && Ordered(b, less)
    requires i < |a| && i < |b|
    ensures !less(a[i], b[i])
  {
    if less(a[i], b[i]) {
      forall k | 0 <= k <= i
        ensures less(a[k], b[i])
      {
        assert k < i ==> !less(a[i], a[k]);
      }
      CountedBefore(a, b, less, i);
      MultisetSize(multiset(a[..i + 1]), multiset(b[..i]));
    }
  }

  lemma {:induction false} SplitFirst<T>(s: seq<T>, x: T)
    requires |s| > 0
    ensures x in s <==> x == s[0] || x in s[1..]
  {
    assert s == [s[0]] + s[1..];
  }

  // ---- ascending ids ----

  predicate Ascending(s: seq<u64>)
  {
    forall i, j | 0 <= i < j < |s| :: s[i] < s[j]
  }

  lemma {:induction false} LeastExists(s: set<u64>) returns (m: u64)
    requires s != {}
    ensures m in s && forall x | x in s :: m <= x
  {
    var first :| first in s;
    var rest := s - {first};
    m := first;
    if rest != {} {
      var n := LeastExists(rest);
      if n < first {
        m := n;
      }
      assert m <= n && m <= first;
    }
    forall x | x in s
      ensures m <= x
    {
      assert x == first || x in rest;
    }
  }

  lemma {:induction false} LeastIsThere(s: set<u64>)
    requires s != {}
    ensures exists m :: m in s && forall x | x in s :: m <= x
  {
    var m := LeastExists(s);
  }

  function Least(s: set<u64>): (m: u64)
    requires s != {}
    ensures m in s && forall x | x in s :: m <= x
  {
    LeastIsThere(s);
    var m :| m in s && forall x | x in s :: m <= x;
    m
  }

  /** The order in which an ordered map or set is iterated. */
  function InOrder(s: set<u64>): (r: seq<u64>)
    ensures Ascending(r)
    ensures forall x :: x in r <==> x in s
  {
    if s == {} then [] else
    var m := Least(s);
    [m] + InOrder(s - {m})
  }

  lemma {:induction false} AscendingUnique(a: seq<u64>, b: seq<u64>)
    requires Ascending(a) && Ascending(b)
    requires forall x :: x in a <==> x in b
    ensures a == b
  {
    assert |a| > 0 ==> a[0] in a;
    assert |b| > 0 ==> b[0] in b;
    if |a| > 0 {
      assert a[0] in a && a[0] in b;
      assert b[0] in b && b[0] in a;
      assert a[0] == b[0];
      forall x
        ensures x in a[1..] <==> x in b[1..]
      {
        SplitFirst(a, x);
        SplitFirst(b, x);
        assert x in a[1..] ==> x != a[0];
        assert x in b[1..] ==> x != b[0];
      }
      AscendingUnique(a[1..], b[1..]);
    }
  }

  // ---- filters ----

  function Filter<T>(s: seq<T>, p: T -> bool): (r: seq<T>)
    ensures |r| <= |s|
  {
    if |s| == 0 then []
    else Filter(s[..|s| - 1], p) + if p(s[|s| - 1]) then [s[|s| - 1]] else []
  }

  lemma {:induction false} FilterMembers<T(!new)>(s: seq<T>, p: T -> bool)
    ensures forall x :: x in Filter(s, p) <==> x in s && p(x)
  {
    if |s| > 0 {
      FilterMembers(s[..|s| - 1], p);
      assert s == s[..|s| - 1] + [s[|s| - 1]];
    }
  }

  lemma {:induction false} FilterAppend<T(!new)>(a: seq<T>, b: seq<T>, p: T -> bool)
    ensures Filter(a + b, p) == Filter(a, p) + Filter(b, p)
  {
    if |b| == 0 {
      assert a + b == a;
    } else {
      FilterAppend(a, b[..|b| - 1], p);
      assert (a + b)[..|a + b| - 1] == a + b[..|b| - 1];
    }
  }

  lemma {:induction false} FilterPushBack<T(!new)>(s: seq<T>, k: nat, p: T -> bool)
    requires k < |s|
    ensures Filter(s[..k + 1], p) == Filter(s[..k], p) + if p(s[k]) then [s[k]] else []
  {
    assert s[..k + 1][..k] == s[..k];
  }

  // ---- versions by id ----

  predicate IdAscending<B>(s: seq<View<B>>)
  {
    forall i, j | 0 <= i < j < |s| :: s[i].id < s[j].id
  }

  function ById<B>(): (View<B>, View<B>) -> bool
  {
    (a: View<B>, b: View<B>) => a.id < b.id
  }

  lemma ByIdOrder<B(!new)>()
    ensures StrictWeakOrder(ById<B>())
  {
  }

  /** Id order leaves no freedom: the same versions in id order are the same list. */
  lemma {:induction false} IdAscendingUnique<B(!new)>(a: seq<View<B>>, b: seq<View<B>>)
    requires IdAscending(a) && IdAscending(b)
    requires forall x :: x in a <==> x in b
    ensures a == b
  {
    assert |a| > 0 ==> a[0] in a;
    assert |b| > 0 ==> b[0] in b;
    if |a| > 0 {
      assert a[0] in a && a[0] in b;
      assert b[0] in b && b[0] in a;
      assert a[0] == b[0];
      forall x
        ensures x in a[1..] <==> x in b[1..]
      {
        SplitFirst(a, x);
        SplitFirst(b, x);
        assert x in a[1..] ==> x.id != a[0].id;
        assert x in b[1..] ==> x.id != b[0].id;
      }
      IdAscendingUnique(a[1..], b[1..]);
    }
  }

  lemma {:induction false} FilterKeepsIds<B(!new)>(s: seq<View<B>>, p: View<B> -> bool)
    requires IdAscending(s)
    ensures IdAscending(Filter(s, p))
  {
    if |s| > 0 {
      var front := s[..|s| - 1];
      FilterKeepsIds(front, p);
      FilterMembers(front, p);
      forall x | x in Filter(front, p)
        ensures x.id < s[|s| - 1].id
      {
        assert x in front;
      }
    }
  }

  /** Sorting versions with distinct ids puts them in strict id order. */
  method SortById<B(!new)>(s: seq<View<B>>) returns (r: seq<View<B>>)
    requires forall i, j | 0 <= i < j < |s| :: s[i].id != s[j].id
    ensures IdAscending(r) && forall x :: x in r <==> x in s
  {
    ByIdOrder<B>();
    r := Sort(s, ById<B>());
    MultisetMembers(r, s);
    assert Distinct(s);
    DistinctPermutation(s, r);
    forall i, j | 0 <= i < j < |r|
      ensures r[i].id < r[j].id
    {
      assert !ById<B>()(r[j], r[i]);
      assert r[i] in s && r[j] in s && r[i] != r[j];
    }
  }
}
