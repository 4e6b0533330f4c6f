/**
 What answers mean: path answers are exactly the bounded simple paths, cost order lists every path after its
 own prefixes, and serial and parallel execution agree.
 */
module Answers {
  import opened Bytes
  import opened Results
  import opened Values
  import opened Canonical
  import opened Ordering
  import opened Snapshots
  import opened Paths
  import opened SearchOrder
  import opened Expansion
  import opened Cursors
  import opened Execution

  // ---- exactly the bounded simple paths ----

  ghost predicate FromSeed(seeds: seq<Node>, seed: u64)
  {
    exists i | 0 <= i < |seeds| :: seeds[i].id == seed
  }

  /** The row reports a simple path of one to hops edges from one of the seeds. */
  ghost predicate ReportsPath(plan: Plan, seeds: seq<Node>, row: Row)
  {
    exists seed: u64, w: Walk ::
      FromSeed(seeds, seed) && 1 <= |w| <= plan.hops && IsSimplePath(plan.t, seed, w) && row == PathRow(plan, seed, w)
  }

  lemma {:induction false} PathRowsMembers(plan: Plan, seed: u64, ws: seq<Walk>, row: Row)
    ensures row in PathRows(plan, seed, ws) <==> exists w :: w in ws && row == PathRow(plan, seed, w)
  {
    hide PathRow;
    if row in PathRows(plan, seed, ws) {
      var i :| 0 <= i < |ws| && PathRows(plan, seed, ws)[i] == row;
      assert ws[i] in ws;
    }
    if w :| w in ws && row == PathRow(plan, seed, w) {
      var i :| 0 <= i < |ws| && ws[i] == w;
      assert PathRows(plan, seed, ws)[i] == row;
    }
  }

  lemma {:induction false} SeedRowsExact(plan: Plan, seed: u64, row: Row)
    requires IdAscending(plan.t.edges) && plan.mode == Path
    ensures row in SeedYield(plan, seed).rows
       <==> exists w: Walk :: 1 <= |w| <= plan.hops && IsSimplePath(plan.t, seed, w) && row == PathRow(plan, seed, w)
  {
    hide PathRow, PathsUpTo, IsSimplePath, PathRows, VisitsWork, Discovered, CostsKnown, FrontierFits;
    PathsExact(plan.t, seed, plan.hops);
    PathRowsMembers(plan, seed, PathsUpTo(plan.t, seed, plan.hops), row);
  }

  /** A path query's rows are the bounded simple paths of its seeds, all of them and nothing else. */
  lemma {:induction false} PathRowsExact(plan: Plan, seeds: seq<Node>, row: Row)
    requires IdAscending(plan.t.edges) && plan.mode == Path
    ensures row in TotalYield(plan, seeds).rows <==> ReportsPath(plan, seeds, row)
    decreases |seeds|
  {
    hide PathRow, IsSimplePath, SeedYield;
    if |seeds| > 0 {
      var front, last := seeds[..|seeds| - 1], seeds[|seeds| - 1];
      PathRowsExact(plan, front, row);
      SeedRowsExact(plan, last.id, row);
      forall seed: u64
        ensures FromSeed(seeds, seed) <==> FromSeed(front, seed) || seed == last.id
      {
        FromLongerSeeds(seeds, seed);
      }
    }
  }

  lemma {:induction false} FromLongerSeeds(seeds: seq<Node>, seed: u64)
    requires |seeds| > 0
    ensures FromSeed(seeds, seed) <==> FromSeed(seeds[..|seeds| - 1], seed) || seed == seeds[|seeds| - 1].id
  {
    var front := seeds[..|seeds| - 1];
    if FromSeed(front, seed) {
      var i :| 0 <= i < |front| && front[i].id == seed;
      assert seeds[i].id == seed;
    }
    if FromSeed(seeds, seed) {
      var i :| 0 <= i < |seeds| && seeds[i].id == seed;
      assert i < |front| ==> front[i].id == seed;
    }
  }

  lemma {:induction false} ReversedMembers<T(!new)>(s: seq<T>)
    ensures forall x :: x in Reversed(s) <==> x in s
  {
    forall x
      ensures x in Reversed(s) <==> x in s
    {
      if x in s {
        var i :| 0 <= i < |s| && s[i] == x;
        assert Reversed(s)[|s| - 1 - i] == x;
      }
      if x in Reversed(s) {
        var i :| 0 <= i < |s| && Reversed(s)[i] == x;
        assert s[|s| - 1 - i] == x;
      }
    }
  }

  /** Ordering and reversing lose and invent nothing. */
  lemma {:induction false} AnswerMembers(ast: QueryAst, y: Yield, rows: seq<Row>)
    requires IsAnswer(ast, y, rows)
    ensures |rows| == |y.rows| && forall row :: row in rows <==> row in y.rows
  {
    hide ByCost;
    var upright := Upright(ast, rows);
    ReversedMembers(rows);
    MultisetSizeOfSeq(upright, y.rows);
    if OrderedByCost(ast) {
      MultisetMembers(upright, y.rows);
    }
  }

  lemma {:induction false} MultisetSizeOfSeq<T>(a: seq<T>, b: seq<T>)
    ensures multiset(a) == multiset(b) ==> |a| == |b|
  {
    assert |multiset(a)| == |a| && |multiset(b)| == |b|;
  }

  // ---- cost order ----

  /** A longer path never costs less, and its key comes later. */
  lemma {:induction false} PrefixIsCheaper(plan: Plan, seed: u64, w: Walk)
    requires |w| > 0
    ensures CheaperRow(PathRow(plan, seed, w[..|w| - 1]), PathRow(plan, seed, w))
  {
    hide PathString, KnownCost;
    var front := w[..|w| - 1];
    var nodes := NodesOn(plan.t, seed, front);
    PathStringGrows(nodes, FarEnd(plan.t, w[|w| - 1]));
    LessBehindPrefix(PATH_PREFIX, PathString(nodes), PathString(NodesOn(plan.t, seed, w)));
  }

  lemma {:induction false} LessBehindPrefix(p: Text, a: Text, b: Text)
    requires Less(a, b)
    ensures Less(p + a, p + b)
  {
    if p == [] {
      assert p + a == a && p + b == b;
    } else {
      LessBehindPrefix(p[1..], a, b);
      assert (p + a)[1..] == p[1..] + a && (p + b)[1..] == p[1..] + b;
    }
  }

  lemma {:induction false} OrderGivesPosition<T(!new)>(s: seq<T>, less: (T, T) -> bool, i: nat, j: nat)
    requires StrictWeakOrder(less) && Ordered(s, less) && i < |s| && j < |s| && less(s[i], s[j])
    ensures i < j
  {
    assert !less(s[j], s[i]);
  }

  /**
   With COST, an answer lists every path of two or more edges strictly after the path without its last edge,
   which it also lists.
   */
  lemma {:induction false} PrefixesComeFirst(plan: Plan, seeds: seq<Node>, ast: QueryAst, rows: seq<Row>, seed: u64, w: Walk)
    requires IdAscending(plan.t.edges) && plan.mode == Path && OrderedByCost(ast)
    requires IsAnswer(ast, TotalYield(plan, seeds), rows)
    requires FromSeed(seeds, seed) && 2 <= |w| <= plan.hops && IsSimplePath(plan.t, seed, w)
    ensures var upright := Upright(ast, rows);
            && PathRow(plan, seed, w[..|w| - 1]) in upright && PathRow(plan, seed, w) in upright
            && forall i, j | 0 <= i < |upright| && 0 <= j < |upright| ::
                 upright[i] == PathRow(plan, seed, w[..|w| - 1]) && upright[j] == PathRow(plan, seed, w) ==> i < j
  {
    hide PathRow, IsSimplePath, TotalYield, CheaperRow, Extensions;
    var upright, front := Upright(ast, rows), w[..|w| - 1];
    SimplePathPrefix(plan.t, seed, w);
    PathRowsExact(plan, seeds, PathRow(plan, seed, w));
    PathRowsExact(plan, seeds, PathRow(plan, seed, front));
    MultisetMembers(upright, TotalYield(plan, seeds).rows);
    PrefixIsCheaper(plan, seed, w);
    ByCostOrder();
    forall i, j | 0 <= i < |upright| && 0 <= j < |upright|
                  && upright[i] == PathRow(plan, seed, front) && upright[j] == PathRow(plan, seed, w)
      ensures i < j
    {
      OrderGivesPosition(upright, ByCost(), i, j);
    }
  }

  // ---- one answer ----

  lemma {:induction false} TiedRows(a: Row, b: Row)
    requires !CheaperRow(a, b) && !CheaperRow(b, a)
    ensures a.cost == b.cost && a.key == b.key
  {
    LessTrichotomy(a.key, b.key);
  }

  /** Two answers for the same yield have the same costs and keys throughout. */
  lemma {:induction false} AnswersTied(ast: QueryAst, y: Yield, a: seq<Row>, b: seq<Row>)
    requires IsAnswer(ast, y, a) && IsAnswer(ast, y, b)
    ensures |a| == |b| && forall i | 0 <= i < |a| :: a[i].key == b[i].key && a[i].cost == b[i].cost
  {
    hide CheaperRow;
    AnswerMembers(ast, y, a);
    AnswerMembers(ast, y, b);
    ReversedTwice(a);
    ReversedTwice(b);
    if OrderedByCost(ast) {
      var p, q := Upright(ast, a), Upright(ast, b);
      ByCostOrder();
      forall i | 0 <= i < |p|
        ensures p[i].cost == q[i].cost && p[i].key == q[i].key
      {
        OrderedTied(p, q, ByCost(), i);
        OrderedTied(q, p, ByCost(), i);
        TiedRows(p[i], q[i]);
      }
      forall i | 0 <= i < |a|
        ensures a[i].cost == b[i].cost && a[i].key == b[i].key
      {
        var k := if ast.explicitOrder && ast.orderDescending then |a| - 1 - i else i;
        assert p[k] == a[i] && q[k] == b[i];
      }
    }
  }

  /** Unless edges are reported, a path row is determined by its key and cost. */
  lemma {:induction false} KeyDeterminesRow(plan: Plan, s1: u64, w1: Walk, s2: u64, w2: Walk)
    requires plan.output != EdgeId
    requires PathRow(plan, s1, w1).key == PathRow(plan, s2, w2).key
    requires PathRow(plan, s1, w1).cost == PathRow(plan, s2, w2).cost
    ensures PathRow(plan, s1, w1) == PathRow(plan, s2, w2)
  {
    hide PathString, WalkCost, NodesOn;
    var n1, n2 := NodesOn(plan.t, s1, w1), NodesOn(plan.t, s2, w2);
    assert PathString(n1) == (PATH_PREFIX + PathString(n1))[|PATH_PREFIX|..];
    assert PathString(n2) == (PATH_PREFIX + PathString(n2))[|PATH_PREFIX|..];
    PathStringInjective(n1, n2);
  }

  /**
   One answer: any two answers to a query are equal, except that with COST and edge.id rows of equal cost and
   key, which only parallel edges produce, may trade places.
   */
  lemma {:induction false} AnswerUnique(plan: Plan, seeds: seq<Node>, ast: QueryAst, a: seq<Row>, b: seq<Row>)
    requires IdAscending(plan.t.edges) && plan.mode == ast.mode && plan.output == ast.output
    requires IsAnswer(ast, TotalYield(plan, seeds), a) && IsAnswer(ast, TotalYield(plan, seeds), b)
    ensures KeysOf(a) == KeysOf(b) && multiset(Upright(ast, a)) == multiset(Upright(ast, b))
    ensures !(OrderedByCost(ast) && ast.output == EdgeId) ==> a == b
  {
    hide PathRow, IsSimplePath, TotalYield, ByCost;
    var y := TotalYield(plan, seeds);
    AnswersTied(ast, y, a, b);
    AnswerMembers(ast, y, a);
    AnswerMembers(ast, y, b);
    ReversedTwice(a);
    ReversedTwice(b);
    if OrderedByCost(ast) && ast.output != EdgeId {
      forall i | 0 <= i < |a|
        ensures a[i] == b[i]
      {
        assert a[i] in a && b[i] in b;
        PathRowsExact(plan, seeds, a[i]);
        PathRowsExact(plan, seeds, b[i]);
        ReportedRowsEqual(plan, seeds, a[i], b[i]);
      }
    }
  }

  lemma {:induction false} ReportedRowsEqual(plan: Plan, seeds: seq<Node>, a: Row, b: Row)
    requires ReportsPath(plan, seeds, a) && ReportsPath(plan, seeds, b) && plan.output != EdgeId
    requires a.key == b.key && a.cost == b.cost
    ensures a == b
  {
    hide PathRow, IsSimplePath, FromSeed;
    var s1, w1 :| FromSeed(seeds, s1) && 1 <= |w1| <= plan.hops && IsSimplePath(plan.t, s1, w1) && a == PathRow(plan, s1, w1);
    var s2, w2 :| FromSeed(seeds, s2) && 1 <= |w2| <= plan.hops && IsSimplePath(plan.t, s2, w2) && b == PathRow(plan, s2, w2);
    KeyDeterminesRow(plan, s1, w1, s2, w2);
  }

  // ---- both modes ----

  lemma {:induction false} ReversedMultiset<T>(s: seq<T>)
    ensures multiset(Reversed(s)) == multiset(s)
  {
    if |s| > 0 {
      ReversedMultiset(s[1..]);
      assert s == [s[0]] + s[1..];
      assert Reversed(s) == Reversed(s[1..]) + [s[0]];
    }
  }

  lemma {:induction false} MultisetWithout<T>(s: seq<T>, i: nat)
    requires i < |s|
    ensures s == s[..i] + ([s[i]] + s[i + 1..])
    ensures multiset(s[..i] + s[i + 1..]) == multiset(s) - multiset{s[i]}
  {
    assert s == s[..i] + ([s[i]] + s[i + 1..]);
  }

  /** Where the first element of a occurs in b, and what is left of both without it. */
  lemma {:induction false} FirstElsewhere<T>(a: seq<T>, b: seq<T>) returns (i: nat)
    requires |a| > 0 && multiset(a) == multiset(b)
    ensures i < |b| && b[i] == a[0] && b == b[..i] + ([b[i]] + b[i + 1..])
    ensures multiset(a[1..]) == multiset(b[..i] + b[i + 1..])
  {
    assert a[0] in multiset(b);
    i :| 0 <= i < |b| && b[i] == a[0];
    MultisetWithout(b, i);
    MultisetWithout(a, 0);
    assert a[..0] + a[1..] == a[1..];
  }

  lemma ValuesConcat(a: seq<Row>, b: seq<Row>)
    ensures ValuesOf(a + b) == ValuesOf(a) + ValuesOf(b)
  {
  }

  lemma {:induction false} ValuesMultiset(a: seq<Row>, b: seq<Row>)
    requires multiset(a) == multiset(b)
    ensures multiset(ValuesOf(a)) == multiset(ValuesOf(b))
  {
    MultisetSizeOfSeq(a, b);
    if |a| > 0 {
      hide ValuesOf;
      var i := FirstElsewhere(a, b);
      var first, before, after := [a[0]], b[..i], b[i + 1..];
      ValuesMultiset(a[1..], before + after);
      assert a == first + a[1..];
      ValuesConcat(first, a[1..]);
      ValuesConcat(before, after);
      ValuesConcat(before, first + after);
      ValuesConcat(first, after);
    }
  }

  lemma {:induction false} UprightMultiset(ast: QueryAst, a: seq<Row>, b: seq<Row>)
    requires multiset(Upright(ast, a)) == multiset(Upright(ast, b))
    ensures multiset(a) == multiset(b)
  {
    ReversedMultiset(a);
    ReversedMultiset(b);
  }

  /**
   Serial and parallel execution of one query: both succeed or neither does, the keys are the same, and so are
   the rows, one by one; with COST and edge.id only as often as each occurs.
   */
  method ExecuteInBothModes(s: GraphSnapshot, ast: QueryAst, limits: QueryLimits, parameters: PropertyMap, add: CostAdder)
    returns (serial: Result<ResultCursor>, parallel: Result<ResultCursor>)
    requires Fit(s)
    ensures serial.Ok? <==> parallel.Ok?
    ensures serial.Ok? ==>
              && serial.value.keys == parallel.value.keys
              && multiset(serial.value.rows) == multiset(parallel.value.rows)
              && (!(OrderedByCost(ast) && ast.output == EdgeId) ==> serial.value.rows == parallel.value.rows)
  {
    hide Affordable, Justifies, IsAnswer, Seeding, TotalYield, OrderedByCost, Upright, ValuesOf, KeysOf;
    ghost var a, b;
    serial, a := Execute(s, ast, QueryOptions(limits, Serial, parameters), add);
    parallel, b := Execute(s, ast, QueryOptions(limits, ParallelDeterministic, parameters), add);
    if serial.Ok? {
      AnswerUnique(PlanOf(s.edges, ast, limits, add), Seeding(ContentsOf(s), ast, parameters).value, ast, a, b);
      UprightMultiset(ast, a, b);
      ValuesMultiset(a, b);
    }
  }
}
