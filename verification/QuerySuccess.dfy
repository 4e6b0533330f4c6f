/** When a query succeeds: costs, work units and queue lengths counted on its trails. */
module QuerySuccess {
  import opened Bytes
  import opened Results
  import opened Values
  import opened Ordering
  import opened Indexes
  import opened Comparison
  import opened Paths
  import opened SearchOrder
  import opened Expansion
  import opened Cursors
  import opened Execution
  import opened Trails

  // ---- costs ----

  ghost predicate HasCost(ast: QueryAst, e: Edge)
  {
    exists c: nat :: Costs(ast, e, c)
  }

  /** The last edge of a path has a cost. */
  ghost predicate Costed(ast: QueryAst, p: Trail)
  {
    ast.mode == Path && |p.edges| > 0 ==> HasCost(ast, p.edges[|p.edges| - 1])
  }

  ghost predicate AllCosted(ast: QueryAst, trails: seq<Trail>)
  {
    forall p | p in trails :: Costed(ast, p)
  }

  lemma {:induction false} CostExists(ast: QueryAst, plan: Plan, e: Edge)
    requires plan.costProperty == ast.costProperty
    ensures StepCost(plan, e).Ok? <==> HasCost(ast, e)
  {
    hide Scaled, NumericValue, PowerOfTwo, FiniteNumber;
    if StepCost(plan, e).Ok? {
      KnownCosts(ast, plan, e);
    }
    if c: nat :| Costs(ast, e, c) {
      if ast.costProperty.Some? {
        var key := ast.costProperty.value;
        EdgeCostMeans(e, key);
        var i :| 0 <= i < |e.properties| && e.properties[i].key == key && IsNumeric(e.properties[i].value)
                 && FiniteNumber(e.properties[i].value) && c == NumericValue(e.properties[i].value);
        LookupEntry(e.properties, i);
      }
    }
  }

  lemma {:induction false} SeedCosted(edges: seq<Edge>, ast: QueryAst, limits: QueryLimits, add: CostAdder, seed: u64)
    ensures var plan := PlanOf(edges, ast, limits, add);
            SeedYield(plan, seed).costsKnown <==> AllCosted(ast, TrailsOf(plan.t, seed, SeedWalks(plan, seed)))
  {
    hide HasCost, StepCost, NodesOn, PathsUpTo, Leaving, VisitsWork, FrontierFits, PathRows, NeverShrinks;
    var plan := PlanOf(edges, ast, limits, add);
    var ws := SeedWalks(plan, seed);
    var trails := TrailsOf(plan.t, seed, ws);
    if ast.mode == Path {
      forall i | 0 <= i < |ws|
        ensures Costed(ast, trails[i]) <==> !CostFails(plan, ws[i])
      {
        if |ws[i]| > 0 {
          CostExists(ast, plan, ws[i][|ws[i]| - 1]);
        }
      }
      if CostsKnown(plan, ws) {
        forall p | p in trails
          ensures Costed(ast, p)
        {
          var i :| 0 <= i < |trails| && trails[i] == p;
          assert !CostFails(plan, ws[i]);
        }
      }
      if AllCosted(ast, trails) {
        forall i | 0 <= i < |ws|
          ensures !CostFails(plan, ws[i])
        {
          assert trails[i] in trails;
        }
      }
      assert CostsKnown(plan, ws) <==> SeedYield(plan, seed).costsKnown;
    }
  }

  lemma {:induction false} CostedConcat(ast: QueryAst, a: seq<Trail>, b: seq<Trail>)
    ensures AllCosted(ast, a + b) <==> AllCosted(ast, a) && AllCosted(ast, b)
  {
    hide Costed;
    assert forall p :: p in a + b <==> p in a || p in b;
  }

  lemma {:induction false} TotalCosted(edges: seq<Edge>, ast: QueryAst, limits: QueryLimits, add: CostAdder, seeds: seq<Node>)
    ensures var plan := PlanOf(edges, ast, limits, add);
            && (TotalYield(plan, seeds).costsKnown <==> AllCosted(ast, AllTrails(plan, seeds)))
            && |TotalYield(plan, seeds).rows| == |AllTrails(plan, seeds)|
    decreases |seeds|
  {
    hide AllCosted, TrailsOf, SeedWalks, SeedYield, NeverShrinks;
    var plan := PlanOf(edges, ast, limits, add);
    if |seeds| == 0 {
      NoTrailCosted(ast);
    } else {
      var front, last := seeds[..|seeds| - 1], seeds[|seeds| - 1].id;
      TotalCosted(edges, ast, limits, add, front);
      SeedCosted(edges, ast, limits, add, last);
      SeedRowsAre(plan, last);
      CostedConcat(ast, AllTrails(plan, front), TrailsOf(plan.t, last, SeedWalks(plan, last)));
    }
  }

  lemma NoTrailCosted(ast: QueryAst)
    ensures AllCosted(ast, [])
  {
  }

  // ---- work units ----

  /** The edges that go on from a node in the direction and of the type asked for. */
  function Onward(ast: QueryAst, node: u64): Edge -> bool
  {
    (e: Edge) => e.body.kind == ast.edgeType && node == match ast.direction case Out => e.body.from case In => e.body.to
  }

  /** How many edges are looked at from the ends of trails that are shorter than the bound. */
  function LooksFrom(edges: seq<Edge>, ast: QueryAst, ps: seq<Trail>): nat
  {
    if |ps| == 0 then 0
    else
      var p := ps[|ps| - 1];
      LooksFrom(edges, ast, ps[..|ps| - 1])
      + if |p.edges| < ast.pathHops && |p.nodes| > 0 then |Filter(edges, Onward(ast, p.nodes[|p.nodes| - 1]))| else 0
  }

  function Starts(seeds: seq<Node>): seq<Trail>
  {
    seq(|seeds|, i requires 0 <= i < |seeds| => Trail([seeds[i].id], []))
  }

  /** One unit per seed, two per trail, and in a path search one per edge looked at. */
  function WorkOf(edges: seq<Edge>, ast: QueryAst, seeds: seq<Node>, trails: seq<Trail>): nat
  {
    match ast.mode
    case Scan => |seeds|
    case Step => |seeds| + 2 * |trails|
    case Path => |seeds| + 2 * |trails| + LooksFrom(edges, ast, Starts(seeds)) + LooksFrom(edges, ast, trails)
  }

  lemma {:induction false} LooksConcat(edges: seq<Edge>, ast: QueryAst, a: seq<Trail>, b: seq<Trail>)
    ensures LooksFrom(edges, ast, a + b) == LooksFrom(edges, ast, a) + LooksFrom(edges, ast, b)
  {
    hide Onward;
    if |b| == 0 {
      assert a + b == a;
    } else {
      LooksConcat(edges, ast, a, b[..|b| - 1]);
      assert (a + b)[..|a + b| - 1] == a + b[..|b| - 1];
    }
  }

  lemma {:induction false} OnwardIsLeaving(edges: seq<Edge>, ast: QueryAst, node: u64)
    ensures Filter(edges, Onward(ast, node)) == Leaving(Traversal(edges, ast.edgeType, ast.direction), node)
  {
    FilterSame(edges, Onward(ast, node), LeavingTest(Traversal(edges, ast.edgeType, ast.direction), node));
  }

  /** Visits cost one unit each, the edges they look at and what they find. */
  lemma {:induction false} VisitsSplit(edges: seq<Edge>, ast: QueryAst, limits: QueryLimits, add: CostAdder, seed: u64,
                                       ws: seq<Walk>)
    ensures var plan := PlanOf(edges, ast, limits, add);
            VisitsWork(plan, seed, ws)
              == |ws| + LooksFrom(edges, ast, TrailsOf(plan.t, seed, ws)) + |OffspringAll(plan.t, seed, plan.hops, ws)|
  {
    hide Onward, Leaving, Extensions, NodesOn, NeverShrinks;
    var plan := PlanOf(edges, ast, limits, add);
    if |ws| > 0 {
      var front, w := ws[..|ws| - 1], ws[|ws| - 1];
      VisitsSplit(edges, ast, limits, add, seed, front);
      assert TrailsOf(plan.t, seed, ws)[..|ws| - 1] == TrailsOf(plan.t, seed, front);
      OnwardIsLeaving(edges, ast, EndOf(plan.t, seed, w));
    }
  }

  lemma {:induction false} PathWork(edges: seq<Edge>, ast: QueryAst, limits: QueryLimits, add: CostAdder, seed: u64)
    requires IdAscending(edges)
    ensures var plan := PlanOf(edges, ast, limits, add);
            var paths := PathsUpTo(plan.t, seed, plan.hops);
            VisitsWork(plan, seed, Discovered(plan.t, seed, plan.hops))
              == 1 + 2 * |paths| + LooksFrom(edges, ast, [Trail([seed], [])])
                 + LooksFrom(edges, ast, TrailsOf(plan.t, seed, paths))
  {
    hide LooksFrom, VisitsWork, OffspringAll, PathsUpTo, IdAscending, NeverShrinks;
    var plan := PlanOf(edges, ast, limits, add);
    var t, paths := plan.t, PathsUpTo(plan.t, seed, plan.hops);
    VisitsSplit(edges, ast, limits, add, seed, Discovered(t, seed, plan.hops));
    DiscoveredIsClosed(t, seed, plan.hops);
    assert TrailsOf(t, seed, Discovered(t, seed, plan.hops)) == [TrailOf(t, seed, [])] + TrailsOf(t, seed, paths);
    LooksConcat(edges, ast, [TrailOf(t, seed, [])], TrailsOf(t, seed, paths));
  }

  lemma {:induction false} SeedWork(edges: seq<Edge>, ast: QueryAst, limits: QueryLimits, add: CostAdder, seed: Node)
    requires IdAscending(edges)
    ensures var plan := PlanOf(edges, ast, limits, add);
            SeedYield(plan, seed.id).work
              == WorkOf(edges, ast, [seed], TrailsOf(plan.t, seed.id, SeedWalks(plan, seed.id)))
  {
    hide LooksFrom, VisitsWork, Discovered, PathsUpTo, Leaving, IdAscending, NeverShrinks, NodesOn, CostsKnown, FrontierFits,
      PathRow, StepRow, ScanRow;
    assert Starts([seed]) == [Trail([seed.id], [])];
    PathWork(edges, ast, limits, add, seed.id);
  }

  lemma {:induction false} WorkConcat(edges: seq<Edge>, ast: QueryAst, seeds: seq<Node>, last: Node,
                                      a: seq<Trail>, b: seq<Trail>)
    ensures WorkOf(edges, ast, seeds + [last], a + b) == WorkOf(edges, ast, seeds, a) + WorkOf(edges, ast, [last], b)
  {
    hide LooksFrom;
    LooksConcat(edges, ast, a, b);
    LooksConcat(edges, ast, Starts(seeds), Starts([last]));
    assert Starts(seeds + [last]) == Starts(seeds) + Starts([last]);
  }

  lemma {:induction false} TotalWork(edges: seq<Edge>, ast: QueryAst, limits: QueryLimits, add: CostAdder, seeds: seq<Node>)
    requires IdAscending(edges)
    ensures var plan := PlanOf(edges, ast, limits, add);
            TotalYield(plan, seeds).work == WorkOf(edges, ast, seeds, AllTrails(plan, seeds))
    decreases |seeds|
  {
    hide WorkOf, TrailsOf, SeedWalks, SeedYield, IdAscending, NeverShrinks;
    var plan := PlanOf(edges, ast, limits, add);
    if |seeds| == 0 {
      NoWork(edges, ast, seeds);
    } else {
      var front, last := seeds[..|seeds| - 1], seeds[|seeds| - 1];
      TotalWork(edges, ast, limits, add, front);
      SeedWork(edges, ast, limits, add, last);
      WorkConcat(edges, ast, front, last, AllTrails(plan, front), TrailsOf(plan.t, last.id, SeedWalks(plan, last.id)));
      assert seeds == front + [last];
    }
  }

  lemma NoWork(edges: seq<Edge>, ast: QueryAst, seeds: seq<Node>)
    requires |seeds| == 0
    ensures WorkOf(edges, ast, seeds, []) == 0
  {
  }

  // ---- the frontier ----

  /** However many visits were made, no more than the limit are queued. */
  ghost predicate QueueFits(edges: seq<Edge>, ast: QueryAst, limit: nat, seed: u64)
  {
    var t := Traversal(edges, ast.edgeType, ast.direction);
    forall k | 0 <= k <= |Discovered(t, seed, ast.pathHops)| :: |QueueAfter(t, seed, ast.pathHops, k)| <= limit
  }

  ghost predicate QueuesFit(edges: seq<Edge>, ast: QueryAst, limit: nat, seeds: seq<Node>)
  {
    ast.mode == Path ==> forall n | n in seeds :: QueueFits(edges, ast, limit, n.id)
  }

  lemma {:induction false} TotalFrontier(edges: seq<Edge>, ast: QueryAst, limits: QueryLimits, add: CostAdder, seeds: seq<Node>)
    ensures TotalYield(PlanOf(edges, ast, limits, add), seeds).frontierFits
       <==> QueuesFit(edges, ast, limits.frontierLimit, seeds)
    decreases |seeds|
  {
    hide Discovered, QueueAfter, PathsUpTo, VisitsWork, CostsKnown, Leaving, PathRows, StepRows, NeverShrinks;
    if |seeds| > 0 {
      var front, last := seeds[..|seeds| - 1], seeds[|seeds| - 1];
      TotalFrontier(edges, ast, limits, add, front);
      assert FrontierFits(PlanOf(edges, ast, limits, add), last.id) <==> QueueFits(edges, ast, limits.frontierLimit, last.id);
      assert seeds == front + [last];
    }
  }

  /**
   When a query succeeds: its seeds are to be had, its hop bound, its queues, its rows and its work are within the
   limits, and every path it follows has a cost.
   */
  lemma {:induction false} SuccessMeans(v: Contents, ast: QueryAst, limits: QueryLimits, parameters: PropertyMap,
                                        add: CostAdder)
    returns (trails: seq<Trail>)
    requires IdAscending(v.nodes) && IdAscending(v.edges)
    ensures Seeding(v, ast, parameters).Ok? ==> ListsTrails(v.edges, ast, Seeding(v, ast, parameters).value, trails)
    ensures Succeeds(v, ast, limits, parameters, add)
       <==> && Seeding(v, ast, parameters).Ok?
            && (ast.mode == Path ==> ast.pathHops <= limits.pathHopLimit)
            && QueuesFit(v.edges, ast, limits.frontierLimit, Seeding(v, ast, parameters).value)
            && AllCosted(ast, trails)
            && |trails| <= limits.rowLimit
            && WorkOf(v.edges, ast, Seeding(v, ast, parameters).value, trails) <= limits.workLimit
  {
    hide ListsTrails, IdAscending, BindPredicate, SeedsOf, AllTrails, TotalYield, NeverShrinks, QueuesFit, AllCosted, WorkOf,
      PlanOf;
    trails := [];
    if Seeding(v, ast, parameters).Ok? {
      var seeds := Seeding(v, ast, parameters).value;
      SeedsAscend(v, ast, BindPredicate(ast.where, parameters).value);
      trails := AllTrails(PlanOf(v.edges, ast, limits, add), seeds);
      TotalTrails(v.edges, ast, limits, add, seeds);
      TotalCosted(v.edges, ast, limits, add, seeds);
      TotalWork(v.edges, ast, limits, add, seeds);
      TotalFrontier(v.edges, ast, limits, add, seeds);
    }
  }
}
