/**
 The loops that expand seeds: adjacency steps and the queue-driven bounded search, each against the yield of
 its seed.
 */
module Search {
  import opened Bytes
  import opened Results
  import opened Values
  import opened Canonical
  import opened Ordering
  import opened Snapshots
  import opened Paths
  import opened SearchOrder
  import opened Expansion

  /** Rows and work units gathered so far, under a budget. */
  class Collector {
    const budget: Budget
    var rows: seq<Row>
    var work: nat

    constructor (budget: Budget)
      ensures this.budget == budget && rows == [] && work == 0
    {
      this.budget := budget;
      rows, work := [], 0;
    }

    ghost function Gathered(): Yield
      reads this
    {
      Yield(rows, work, true, true)
    }

    ghost predicate InBudget()
      reads this
    {
      WithinWork(budget, work) && WithinRows(budget, |rows|)
    }

    method Poll() returns (r: Result<()>)
      modifies this`work
      ensures work == old(work) + 1
      ensures r == if WithinWork(budget, work) then Ok(()) else Err(ResourceLimit)
    {
      work := work + 1;
      if budget.Limited? && work > budget.work {
        return Err(ResourceLimit);
      }
      return Ok(());
    }

    method Emit(row: Row) returns (r: Result<()>)
      modifies this
      ensures work == old(work) + 1
      ensures r == if WithinWork(budget, work) && WithinRows(budget, |old(rows)| + 1) then Ok(()) else Err(ResourceLimit)
      ensures rows == if r.Ok? then old(rows) + [row] else old(rows)
    {
      r := Poll();
      if r.Err? {
        return;
      }
      if budget.Limited? && |rows| >= budget.rows {
        return Err(ResourceLimit);
      }
      rows := rows + [row];
    }
  }

  method Adjacent(s: GraphSnapshot, t: Traversal, node: u64) returns (es: seq<Edge>)
    requires s.Indexed() && t.edges == s.edges
    ensures es == Leaving(t, node)
  {
    hide GraphSnapshot.Indexed, Filter;
    if t.direction == Out {
      es := s.OutEdges(node, t.kind);
    } else {
      es := s.InEdges(node, t.kind);
    }
  }

  // ---- one step ----

  lemma {:induction false} FarEndPresent(s: GraphSnapshot, t: Traversal, node: u64, e: Edge)
    requires EndpointsPresent(s.nodes, s.edges) && t.edges == s.edges && e in Leaving(t, node)
    ensures FarEnd(t, e) in IdsOf(s.nodes)
  {
    LeavingMeans(t, node, e);
  }

  /** Follows every leaving edge once; the far end is always found, because snapshots hold both endpoints. */
  method StepFrom(s: GraphSnapshot, plan: Plan, seed: u64, c: Collector) returns (r: Result<()>)
    requires s.Indexed() && plan.t.edges == s.edges && IdAscending(s.nodes) && EndpointsPresent(s.nodes, s.edges)
    requires c.InBudget()
    modifies c
    ensures var total := Join(old(c.Gathered()), StepYield(plan, seed));
            && (r.Ok? <==> Affordable(c.budget, total))
            && (r.Ok? ==> c.Gathered() == total)
            && (r.Err? ==> Explains(r.error, c.budget, total))
  {
    hide GraphSnapshot.Indexed, EndpointsPresent, IdAscending, IdsOf, StepRow, Leaving;
    r := c.Poll();
    if r.Err? {
      return;
    }
    var adjacent := Adjacent(s, plan.t, seed);
    for i := 0 to |adjacent|
      invariant c.rows == old(c.rows) + StepRows(plan, seed, adjacent[..i])
      invariant c.work == old(c.work) + 1 + 2 * i
      invariant c.InBudget()
    {
      var edge := adjacent[i];
      r := c.Poll();
      if r.Err? {
        return;
      }
      var node := FarEnd(plan.t, edge);
      FarEndPresent(s, plan.t, seed, edge);
      var found := s.Node(node);
      assert found.Some?;
      r := c.Emit(StepRow(plan, seed, edge));
      if r.Err? {
        return;
      }
      assert StepRows(plan, seed, adjacent[..i + 1])
          == StepRows(plan, seed, adjacent[..i]) + [StepRow(plan, seed, edge)];
    }
    assert adjacent[..|adjacent|] == adjacent;
    return Ok(());
  }

  // ---- one visit of the search ----

  datatype Frontier = Frontier(node: u64, path: seq<u64>, hops: nat, cost: nat)

  function FrontierOf(plan: Plan, seed: u64, w: Walk): Frontier
  {
    Frontier(EndOf(plan.t, seed, w), NodesOn(plan.t, seed, w), |w|, WalkCost(plan, w))
  }

  function FrontiersOf(plan: Plan, seed: u64, ws: seq<Walk>): (r: seq<Frontier>)
    ensures |r| == |ws|
  {
    seq(|ws|, i requires 0 <= i < |ws| => FrontierOf(plan, seed, ws[i]))
  }

  /** Whether looking at some edges and finding some walks is allowed from a given state. */
  ghost predicate VisitFits(plan: Plan, budget: Budget, work: nat, rows: nat, queued: nat, looked: nat, found: seq<Walk>)
  {
    && CostsKnown(plan, found)
    && WithinWork(budget, work + looked + |found|)
    && WithinRows(budget, rows + |found|)
    && (|found| > 0 ==> queued + |found| <= plan.frontierLimit)
  }

  ghost predicate VisitFailure(error: ErrorCode, plan: Plan, budget: Budget, work: nat, rows: nat, queued: nat,
                               looked: nat, found: seq<Walk>)
  {
    || (error == QueryType && !CostsKnown(plan, found))
    || (error == ResourceLimit && !(&& WithinWork(budget, work + looked + |found|)
                                    && WithinRows(budget, rows + |found|)
                                    && (|found| > 0 ==> queued + |found| <= plan.frontierLimit)))
  }

  lemma {:induction false} ExtendPushBack(t: Traversal, seed: u64, w: Walk, es: seq<Edge>, i: nat)
    requires i < |es|
    ensures Extend(t, seed, w, es[..i + 1])
         == Extend(t, seed, w, es[..i]) + if FarEnd(t, es[i]) in NodesOn(t, seed, w) then [] else [w + [es[i]]]
  {
    assert es[..i + 1][..i] == es[..i];
  }

  lemma {:induction false} ExtendGrows(t: Traversal, seed: u64, w: Walk, es: seq<Edge>, i: nat)
    requires i <= |es|
    ensures Extend(t, seed, w, es[..i]) <= Extend(t, seed, w, es)
    decreases |es| - i
  {
    hide Extend, NodesOn;
    if i < |es| {
      ExtendPushBack(t, seed, w, es, i);
      ExtendGrows(t, seed, w, es, i + 1);
    } else {
      assert es[..i] == es;
    }
  }

  lemma {:induction false} FailsEarly(error: ErrorCode, plan: Plan, budget: Budget, work: nat, rows: nat, queued: nat,
                                      looked: nat, found: seq<Walk>, looked': nat, found': seq<Walk>)
    requires VisitFailure(error, plan, budget, work, rows, queued, looked, found)
    requires looked <= looked' && found <= found'
    ensures VisitFailure(error, plan, budget, work, rows, queued, looked', found')
  {
    hide CostFails;
    if !CostsKnown(plan, found) {
      var i :| 0 <= i < |found| && CostFails(plan, found[i]);
      assert found'[i] == found[i];
    }
  }

  lemma {:induction false} WalkCostLonger(plan: Plan, w: Walk, e: Edge)
    ensures WalkCost(plan, w + [e]) == plan.add(WalkCost(plan, w), KnownCost(plan, e))
  {
    assert (w + [e])[..|w|] == w;
  }

  /** What the loop computes for a fresh edge is the frontier and the row of the longer walk. */
  lemma {:induction false} LongerWalk(plan: Plan, seed: u64, w: Walk, e: Edge)
    requires StepCost(plan, e).Ok?
    ensures var far, current := FarEnd(plan.t, e), FrontierOf(plan, seed, w);
            var path, cost := current.path + [far], plan.add(current.cost, StepCost(plan, e).value);
            && FrontierOf(plan, seed, w + [e]) == Frontier(far, path, current.hops + 1, cost)
            && PathRow(plan, seed, w + [e])
               == Row(if plan.output == WholePath then TextValue(PathString(path))
                      else if plan.output == EdgeId then IdValue(e.id) else IdValue(far),
                      PATH_PREFIX + PathString(path), cost)
            && !CostFails(plan, w + [e])
  {
    hide NodesOn, StepCost, PathString;
    WalkCostLonger(plan, w, e);
    NodesOnLonger(plan.t, seed, w, e);
  }

  lemma {:induction false} OneMoreFound(plan: Plan, seed: u64, found: seq<Walk>, v: Walk)
    requires CostsKnown(plan, found) && !CostFails(plan, v)
    ensures CostsKnown(plan, found + [v])
    ensures PathRows(plan, seed, found + [v]) == PathRows(plan, seed, found) + [PathRow(plan, seed, v)]
    ensures FrontiersOf(plan, seed, found + [v]) == FrontiersOf(plan, seed, found) + [FrontierOf(plan, seed, v)]
  {
    hide PathRow, FrontierOf, CostFails;
    PathRowsConcat(plan, seed, found, [v]);
  }

  lemma {:induction false} OneMoreFails(plan: Plan, found: seq<Walk>, w: Walk, e: Edge)
    requires StepCost(plan, e).Err?
    ensures !CostsKnown(plan, found + [w + [e]])
  {
    var longer := found + [w + [e]];
    assert CostFails(plan, longer[|found|]);
  }

  /** The state of a visit after looking at the first i edges. */
  ghost predicate VisitState(plan: Plan, seed: u64, w: Walk, es: seq<Edge>, i: nat, budget: Budget, before: Yield,
                             queue: seq<Frontier>, rows: seq<Row>, work: nat, longer: seq<Frontier>)
  {
    && i <= |es|
    && var found := Extend(plan.t, seed, w, es[..i]);
       && VisitFits(plan, budget, before.work, |before.rows|, |queue|, i, found)
       && rows == before.rows + PathRows(plan, seed, found)
       && work == before.work + i + |found|
       && longer == queue + FrontiersOf(plan, seed, found)
  }

  lemma {:induction false} VisitStarts(plan: Plan, seed: u64, w: Walk, es: seq<Edge>, budget: Budget, before: Yield, queue: seq<Frontier>)
    requires WithinWork(budget, before.work) && WithinRows(budget, |before.rows|)
    ensures VisitState(plan, seed, w, es, 0, budget, before, queue, before.rows, before.work, queue)
  {
    assert Extend(plan.t, seed, w, es[..0]) == [];
    assert queue + [] == queue && before.rows + [] == before.rows;
  }

  /** An edge back onto the path only costs the look. */
  lemma {:induction false} VisitSkips(plan: Plan, seed: u64, w: Walk, es: seq<Edge>, i: nat, budget: Budget, before: Yield,
                                      queue: seq<Frontier>, rows: seq<Row>, work: nat, longer: seq<Frontier>)
    requires VisitState(plan, seed, w, es, i, budget, before, queue, rows, work, longer) && i < |es|
    requires FarEnd(plan.t, es[i]) in NodesOn(plan.t, seed, w) && WithinWork(budget, work + 1)
    ensures VisitState(plan, seed, w, es, i + 1, budget, before, queue, rows, work + 1, longer)
  {
    hide Extend, NodesOn, PathRows, FrontiersOf, CostsKnown;
    ExtendPushBack(plan.t, seed, w, es, i);
    var found := Extend(plan.t, seed, w, es[..i]);
    assert found + [] == found;
  }

  /** An edge to a new node is reported and queued. */
  lemma {:induction false} VisitFinds(plan: Plan, seed: u64, w: Walk, es: seq<Edge>, i: nat, budget: Budget, before: Yield,
                                      queue: seq<Frontier>, rows: seq<Row>, work: nat, longer: seq<Frontier>)
    requires VisitState(plan, seed, w, es, i, budget, before, queue, rows, work, longer) && i < |es|
    requires FarEnd(plan.t, es[i]) !in NodesOn(plan.t, seed, w) && StepCost(plan, es[i]).Ok?
    requires WithinWork(budget, work + 2) && WithinRows(budget, |rows| + 1) && |longer| < plan.frontierLimit
    ensures VisitState(plan, seed, w, es, i + 1, budget, before, queue, rows + [PathRow(plan, seed, w + [es[i]])],
                       work + 2, longer + [FrontierOf(plan, seed, w + [es[i]])])
  {
    hide Extend, NodesOn, PathRows, PathRow, FrontiersOf, FrontierOf, CostsKnown, StepCost, CostFails;
    ExtendPushBack(plan.t, seed, w, es, i);
    LongerWalk(plan, seed, w, es[i]);
    OneMoreFound(plan, seed, Extend(plan.t, seed, w, es[..i]), w + [es[i]]);
  }

  /** A limit broken or a cost missing at one edge fails the visit. */
  lemma {:induction false} VisitBreaks(plan: Plan, seed: u64, w: Walk, es: seq<Edge>, i: nat, budget: Budget, before: Yield,
                                       queue: seq<Frontier>, rows: seq<Row>, work: nat, longer: seq<Frontier>, error: ErrorCode)
    requires VisitState(plan, seed, w, es, i, budget, before, queue, rows, work, longer) && i < |es|
    requires var isNew := FarEnd(plan.t, es[i]) !in NodesOn(plan.t, seed, w);
             || (error == ResourceLimit && !WithinWork(budget, work + 1))
             || (error == QueryType && isNew && StepCost(plan, es[i]).Err?)
             || (error == ResourceLimit && isNew
                 && !(WithinWork(budget, work + 2) && WithinRows(budget, |rows| + 1) && |longer| < plan.frontierLimit))
    ensures VisitFailure(error, plan, budget, before.work, |before.rows|, |queue|, |es|, Extend(plan.t, seed, w, es))
  {
    hide Extend, NodesOn, PathRow, FrontierOf, StepCost, CostFails, CostsKnown;
    ExtendPushBack(plan.t, seed, w, es, i);
    ExtendGrows(plan.t, seed, w, es, i + 1);
    var found := Extend(plan.t, seed, w, es[..i]);
    if StepCost(plan, es[i]).Err? {
      OneMoreFails(plan, found, w, es[i]);
    }
    FailsEarly(error, plan, budget, before.work, |before.rows|, |queue|, i + 1, Extend(plan.t, seed, w, es[..i + 1]),
               |es|, Extend(plan.t, seed, w, es));
  }

  /** Looks at the adjacent edges in order: skips nodes on the path, reports and queues the others. */
  method Visit(plan: Plan, current: Frontier, adjacent: seq<Edge>, queue: seq<Frontier>, c: Collector,
               ghost seed: u64, ghost w: Walk)
    returns (r: Result<()>, longer: seq<Frontier>)
    requires current == FrontierOf(plan, seed, w) && c.InBudget()
    modifies c
    ensures var found := Extend(plan.t, seed, w, adjacent);
            && (r.Ok? ==> VisitFits(plan, c.budget, old(c.work), |old(c.rows)|, |queue|, |adjacent|, found))
            && (r.Ok? ==> c.InBudget() && c.rows == old(c.rows) + PathRows(plan, seed, found)
                          && c.work == old(c.work) + |adjacent| + |found|
                          && longer == queue + FrontiersOf(plan, seed, found))
            && (r.Err? ==> VisitFailure(r.error, plan, c.budget, old(c.work), |old(c.rows)|, |queue|, |adjacent|, found))
  {
    hide Extend, NodesOn, StepCost, PathString, PathRow, PathRows, FrontiersOf, CostFails, CostsKnown, FrontierOf,
      VisitState, VisitFailure, FarEnd;
    longer := queue;
    ghost var before := c.Gathered();
    VisitStarts(plan, seed, w, adjacent, c.budget, before, queue);
    for i := 0 to |adjacent|
      invariant VisitState(plan, seed, w, adjacent, i, c.budget, before, queue, c.rows, c.work, longer)
    {
      ghost var rows, work := c.rows, c.work;
      var edge := adjacent[i];
      r := c.Poll();
      if r.Err? {
        VisitBreaks(plan, seed, w, adjacent, i, c.budget, before, queue, rows, work, longer, ResourceLimit);
        return;
      }
      var node := FarEnd(plan.t, edge);
      PathOfFrontier(plan, seed, w);
      if node in current.path {
        VisitSkips(plan, seed, w, adjacent, i, c.budget, before, queue, rows, work, longer);
        continue;
      }
      var cost := StepCost(plan, edge);
      if cost.Err? {
        VisitBreaks(plan, seed, w, adjacent, i, c.budget, before, queue, rows, work, longer, QueryType);
        return Err(cost.error), longer;
      }
      LongerWalk(plan, seed, w, edge);
      var path := current.path + [node];
      var total := plan.add(current.cost, cost.value);
      var value := if plan.output == WholePath then TextValue(PathString(path))
                   else if plan.output == EdgeId then IdValue(edge.id) else IdValue(node);
      r := c.Emit(Row(value, PATH_PREFIX + PathString(path), total));
      if r.Err? || |longer| >= plan.frontierLimit {
        VisitBreaks(plan, seed, w, adjacent, i, c.budget, before, queue, rows, work, longer, ResourceLimit);
        return Err(ResourceLimit), longer;
      }
      VisitFinds(plan, seed, w, adjacent, i, c.budget, before, queue, rows, work, longer);
      longer := longer + [Frontier(node, path, current.hops + 1, total)];
    }
    VisitDone(plan, seed, w, adjacent, c.budget, before, queue, c.rows, c.work, longer);
    return Ok(()), longer;
  }

  lemma {:induction false} VisitDone(plan: Plan, seed: u64, w: Walk, es: seq<Edge>, budget: Budget, before: Yield,
                                     queue: seq<Frontier>, rows: seq<Row>, work: nat, longer: seq<Frontier>)
    requires VisitState(plan, seed, w, es, |es|, budget, before, queue, rows, work, longer)
    ensures var found := Extend(plan.t, seed, w, es);
            && VisitFits(plan, budget, before.work, |before.rows|, |queue|, |es|, found)
            && rows == before.rows + PathRows(plan, seed, found) && work == before.work + |es| + |found|
            && longer == queue + FrontiersOf(plan, seed, found)
  {
    hide Extend;
    assert es[..|es|] == es;
  }

  lemma PathOfFrontier(plan: Plan, seed: u64, w: Walk)
    ensures FrontierOf(plan, seed, w).path == NodesOn(plan.t, seed, w)
  {
  }

  // ---- the whole search ----

  lemma {:induction false} VisitsWorkGrows(plan: Plan, seed: u64, ws: seq<Walk>, k: nat)
    requires k < |ws|
    ensures VisitsWork(plan, seed, ws[..k + 1]) == VisitsWork(plan, seed, ws[..k]) + VisitWork(plan, seed, ws[k])
    ensures VisitsWork(plan, seed, ws[..k + 1]) <= VisitsWork(plan, seed, ws)
    decreases |ws|
  {
    hide VisitWork;
    assert ws[..k + 1][..k] == ws[..k];
    if k + 1 < |ws| {
      var front := ws[..|ws| - 1];
      VisitsWorkGrows(plan, seed, front, k);
      assert front[..k + 1] == ws[..k + 1];
    } else {
      assert ws[..k + 1] == ws;
    }
  }

  /** The walks found by the first k visits. */
  function FoundBy(plan: Plan, seed: u64, k: nat): seq<Walk>
    requires k <= |Discovered(plan.t, seed, plan.hops)|
  {
    OffspringAll(plan.t, seed, plan.hops, Discovered(plan.t, seed, plan.hops)[..k])
  }

  function WorkBy(plan: Plan, seed: u64, k: nat): nat
    requires k <= |Discovered(plan.t, seed, plan.hops)|
  {
    VisitsWork(plan, seed, Discovered(plan.t, seed, plan.hops)[..k])
  }

  function QueueBy(plan: Plan, seed: u64, k: nat): seq<Walk>
    requires k <= |Discovered(plan.t, seed, plan.hops)|
  {
    QueueAfter(plan.t, seed, plan.hops, k)
  }

  /** The next visit: which walk it is, and what it adds to the totals. */
  lemma {:induction false} VisitFacts(plan: Plan, seed: u64, k: nat)
    requires IdAscending(plan.t.edges) && k < |Discovered(plan.t, seed, plan.hops)|
    ensures var queue, w := QueueBy(plan, seed, k), Discovered(plan.t, seed, plan.hops)[k];
            && |queue| > 0 && queue[0] == w
            && QueueBy(plan, seed, k + 1) == queue[1..] + Offspring(plan.t, seed, plan.hops, w)
            && FoundBy(plan, seed, k + 1) == FoundBy(plan, seed, k) + Offspring(plan.t, seed, plan.hops, w)
            && WorkBy(plan, seed, k + 1) == WorkBy(plan, seed, k) + VisitWork(plan, seed, w)
    ensures FoundBy(plan, seed, k + 1) <= PathsUpTo(plan.t, seed, plan.hops)
    ensures WorkBy(plan, seed, k + 1) <= VisitsWork(plan, seed, Discovered(plan.t, seed, plan.hops))
  {
    hide Discovered, PathsUpTo, Offspring, OffspringAll, VisitWork, VisitsWork, QueueAfter, IdAscending;
    NextVisit(plan.t, seed, plan.hops, k);
    DiscoveredSoFar(plan.t, seed, plan.hops, k + 1);
    VisitsWorkGrows(plan, seed, Discovered(plan.t, seed, plan.hops), k);
  }

  /** The state of the search after k visits. */
  ghost predicate SearchState(plan: Plan, seed: u64, k: nat, queue: seq<Frontier>, rows: seq<Row>, work: nat, before: Yield)
  {
    && k <= |Discovered(plan.t, seed, plan.hops)|
    && queue == FrontiersOf(plan, seed, QueueBy(plan, seed, k))
    && rows == before.rows + PathRows(plan, seed, FoundBy(plan, seed, k))
    && work == before.work + WorkBy(plan, seed, k)
    && CostsKnown(plan, FoundBy(plan, seed, k))
    && forall j | 0 <= j < k :: |QueueBy(plan, seed, j)| <= plan.frontierLimit
  }

  lemma {:induction false} SearchStarts(plan: Plan, seed: u64, before: Yield)
    ensures SearchState(plan, seed, 0, [Frontier(seed, [seed], 0, 0)], before.rows, before.work, before)
  {
    hide PathsUpTo;
    assert Discovered(plan.t, seed, plan.hops)[..0] == [];
    assert QueueBy(plan, seed, 0) == [[]];
    assert NodesOn(plan.t, seed, []) == [seed];
    assert FrontiersOf(plan, seed, [[]]) == [FrontierOf(plan, seed, [])];
  }

  /** When the queue is empty everything was visited, and the gathered totals are those of the level list. */
  lemma {:induction false} SearchEnds(plan: Plan, seed: u64, k: nat, rows: seq<Row>, work: nat, before: Yield)
    requires IdAscending(plan.t.edges) && SearchState(plan, seed, k, [], rows, work, before)
    requires before.costsKnown && before.frontierFits
    ensures Join(before, PathYield(plan, seed)) == Yield(rows, work, true, true)
  {
    hide Discovered, PathsUpTo, OffspringAll, VisitsWork, PathRows, CostsKnown, FrontiersOf, QueueAfter, IdAscending;
    var all := Discovered(plan.t, seed, plan.hops);
    if k < |all| {
      VisitFacts(plan, seed, k);
    }
    assert |FrontiersOf(plan, seed, QueueBy(plan, seed, k))| == |QueueBy(plan, seed, k)|;
    assert k == |all|;
    QueueEmptyAtEnd(plan.t, seed, plan.hops);
    assert all[..k] == all;
    forall j | 0 <= j <= |all|
      ensures |QueueAfter(plan.t, seed, plan.hops, j)| <= plan.frontierLimit
    {
      assert j < k ==> |QueueBy(plan, seed, j)| <= plan.frontierLimit;
    }
  }

  lemma {:induction false} StateNotDone(plan: Plan, seed: u64, k: nat, queue: seq<Frontier>, rows: seq<Row>, work: nat, before: Yield)
    requires IdAscending(plan.t.edges) && SearchState(plan, seed, k, queue, rows, work, before) && queue != []
    ensures k < |Discovered(plan.t, seed, plan.hops)|
    ensures queue[0] == FrontierOf(plan, seed, Discovered(plan.t, seed, plan.hops)[k])
    ensures queue[1..] == FrontiersOf(plan, seed, QueueBy(plan, seed, k)[1..])
    ensures |queue| == |QueueBy(plan, seed, k)|
  {
    hide Discovered, PathsUpTo, OffspringAll, VisitsWork, PathRows, CostsKnown, FrontierOf, QueueAfter, IdAscending;
    QueueEmptyAtEnd(plan.t, seed, plan.hops);
    VisitFacts(plan, seed, k);
  }

  /** One visit takes the state after k visits to the state after k + 1. */
  lemma {:induction false} StateGrows(plan: Plan, seed: u64, k: nat, queue: seq<Frontier>, rows: seq<Row>, work: nat,
                                      before: Yield, found: seq<Walk>)
    requires IdAscending(plan.t.edges) && SearchState(plan, seed, k, queue, rows, work, before) && queue != []
    requires k < |Discovered(plan.t, seed, plan.hops)| && |queue| <= plan.frontierLimit
    requires found == Offspring(plan.t, seed, plan.hops, Discovered(plan.t, seed, plan.hops)[k]) && CostsKnown(plan, found)
    ensures SearchState(plan, seed, k + 1, queue[1..] + FrontiersOf(plan, seed, found),
                        rows + PathRows(plan, seed, found),
                        work + VisitWork(plan, seed, Discovered(plan.t, seed, plan.hops)[k]), before)
  {
    hide Discovered, PathsUpTo, Offspring, OffspringAll, VisitsWork, VisitWork, PathRow, CostFails, FrontierOf,
      QueueAfter, IdAscending, WorkBy, FoundBy, QueueBy;
    VisitFacts(plan, seed, k);
    var waiting := QueueBy(plan, seed, k);
    PathRowsConcat(plan, seed, FoundBy(plan, seed, k), found);
    assert FrontiersOf(plan, seed, waiting[1..] + found)
        == FrontiersOf(plan, seed, waiting)[1..] + FrontiersOf(plan, seed, found);
  }

  /** Breaking a limit at the k-th visit breaks it for the whole search. */
  lemma {:induction false} VisitFailureIsFinal(plan: Plan, seed: u64, k: nat, before: Yield, budget: Budget,
                                               error: ErrorCode, found: seq<Walk>, looked: nat)
    requires IdAscending(plan.t.edges) && k < |Discovered(plan.t, seed, plan.hops)|
    requires var w := Discovered(plan.t, seed, plan.hops)[k];
             && found == Offspring(plan.t, seed, plan.hops, w)
             && 1 + looked + |found| == VisitWork(plan, seed, w)
    requires |QueueBy(plan, seed, k)| > 0
    requires VisitFailure(error, plan, budget, before.work + WorkBy(plan, seed, k) + 1,
                          |before.rows| + |FoundBy(plan, seed, k)|, |QueueBy(plan, seed, k)| - 1, looked, found)
    ensures Explains(error, budget, Join(before, PathYield(plan, seed)))
  {
    hide Discovered, PathsUpTo, Offspring, OffspringAll, VisitsWork, VisitWork, PathRow, CostFails, FrontierOf,
      QueueAfter, IdAscending, WorkBy;
    VisitFacts(plan, seed, k);
    var paths := PathsUpTo(plan.t, seed, plan.hops);
    if !CostsKnown(plan, found) {
      var i :| 0 <= i < |found| && CostFails(plan, found[i]);
      var at := |FoundBy(plan, seed, k)| + i;
      assert paths[at] == FoundBy(plan, seed, k + 1)[at] == found[i];
    }
    if |found| > 0 && |QueueBy(plan, seed, k)| - 1 + |found| > plan.frontierLimit {
      assert |QueueAfter(plan.t, seed, plan.hops, k + 1)| > plan.frontierLimit;
    }
  }

  lemma {:induction false} PollFailureIsFinal(plan: Plan, seed: u64, k: nat, before: Yield, budget: Budget)
    requires IdAscending(plan.t.edges) && k < |Discovered(plan.t, seed, plan.hops)|
    requires !WithinWork(budget, before.work + WorkBy(plan, seed, k) + 1)
             || |QueueBy(plan, seed, k)| > plan.frontierLimit
    ensures Explains(ResourceLimit, budget, Join(before, PathYield(plan, seed)))
  {
    hide Discovered, PathsUpTo, Offspring, OffspringAll, VisitsWork, PathRow, CostFails, FrontierOf,
      QueueAfter, IdAscending, WorkBy;
    VisitFacts(plan, seed, k);
  }

  lemma TotalsWithin(plan: Plan, seed: u64, before: Yield, budget: Budget, rows: seq<Row>, work: nat)
    requires Join(before, PathYield(plan, seed)) == Yield(rows, work, true, true)
    requires WithinWork(budget, work) && WithinRows(budget, |rows|)
    ensures Affordable(budget, Join(before, PathYield(plan, seed)))
  {
  }

  /** Breadth-first search from one seed: succeeds exactly when its yield is affordable, and gathers it. */
  method SearchFrom(s: GraphSnapshot, plan: Plan, seed: u64, c: Collector) returns (r: Result<()>)
    requires s.Indexed() && plan.t.edges == s.edges && IdAscending(s.edges) && c.InBudget()
    modifies c
    ensures var total := Join(old(c.Gathered()), PathYield(plan, seed));
            && (r.Ok? ==> Affordable(c.budget, total) && c.Gathered() == total)
            && (r.Err? ==> Explains(r.error, c.budget, total))
  {
    hide GraphSnapshot.Indexed, IdAscending, FrontierOf, Discovered, PathsUpTo, Offspring, OffspringAll,
      VisitsWork, PathRow, PathRows, FrontiersOf, CostFails, CostsKnown, QueueAfter, Extensions, Leaving, EndOf, NodesOn, WorkBy, FoundBy, QueueBy,
      SearchState, VisitFailure, PathYield, Explains;
    ghost var before := c.Gathered();
    ghost var k := 0;
    var queue := [Frontier(seed, [seed], 0, 0)];
    SearchStarts(plan, seed, before);
    while queue != []
      invariant SearchState(plan, seed, k, queue, c.rows, c.work, before)
      invariant k <= |Discovered(plan.t, seed, plan.hops)|
      invariant c.InBudget()
      decreases |Discovered(plan.t, seed, plan.hops)| - k
    {
      StateNotDone(plan, seed, k, queue, c.rows, c.work, before);
      ghost var state := queue;
      ghost var w := Discovered(plan.t, seed, plan.hops)[k];
      ghost var rows, work := c.rows, c.work;
      TotalsSoFar(plan, seed, k, queue, rows, work, before);
      r := c.Poll();
      if r.Err? {
        PollFailureIsFinal(plan, seed, k, before, c.budget);
        return;
      }
      if |queue| > plan.frontierLimit {
        PollFailureIsFinal(plan, seed, k, before, c.budget);
        return Err(ResourceLimit);
      }
      var current := queue[0];
      queue := queue[1..];
      CurrentWalk(plan, seed, w);
      if current.hops >= plan.hops {
        NoOffspring(plan, seed, w);
        StateGrows(plan, seed, k, state, rows, work, before, []);
        assert queue + [] == queue && rows + [] == rows;
        k := k + 1;
        continue;
      }
      var adjacent := Adjacent(s, plan.t, current.node);
      OffspringIs(plan, seed, w, adjacent);
      ghost var found := Offspring(plan.t, seed, plan.hops, w);
      var visited, longer := Visit(plan, current, adjacent, queue, c, seed, w);
      if visited.Err? {
        VisitFailureIsFinal(plan, seed, k, before, c.budget, visited.error, found, |adjacent|);
        return visited;
      }
      StateGrows(plan, seed, k, state, rows, work, before, found);
      queue := longer;
      k := k + 1;
    }
    SearchEnds(plan, seed, k, c.rows, c.work, before);
    TotalsWithin(plan, seed, before, c.budget, c.rows, c.work);
    return Ok(());
  }

  lemma TotalsSoFar(plan: Plan, seed: u64, k: nat, queue: seq<Frontier>, rows: seq<Row>, work: nat, before: Yield)
    requires SearchState(plan, seed, k, queue, rows, work, before)
    ensures work == before.work + WorkBy(plan, seed, k)
    ensures |rows| == |before.rows| + |FoundBy(plan, seed, k)|
    ensures |queue| == |QueueBy(plan, seed, k)|
  {
  }

  lemma CurrentWalk(plan: Plan, seed: u64, w: Walk)
    ensures FrontierOf(plan, seed, w).hops == |w| && FrontierOf(plan, seed, w).node == EndOf(plan.t, seed, w)
  {
  }

  lemma NoOffspring(plan: Plan, seed: u64, w: Walk)
    requires |w| >= plan.hops
    ensures Offspring(plan.t, seed, plan.hops, w) == [] && VisitWork(plan, seed, w) == 1
    ensures CostsKnown(plan, []) && FrontiersOf(plan, seed, []) == [] && PathRows(plan, seed, []) == []
  {
  }

  lemma OffspringIs(plan: Plan, seed: u64, w: Walk, adjacent: seq<Edge>)
    requires |w| < plan.hops && adjacent == Leaving(plan.t, EndOf(plan.t, seed, w))
    ensures Offspring(plan.t, seed, plan.hops, w) == Extend(plan.t, seed, w, adjacent)
    ensures VisitWork(plan, seed, w) == 1 + |adjacent| + |Extend(plan.t, seed, w, adjacent)|
  {
  }
}
