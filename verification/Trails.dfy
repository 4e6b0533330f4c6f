/**
 The trails a query follows and what each row says about its trail, in terms of the query and the edges alone; and
 the proof that expansion lists exactly the trails from the seeds, in order, each with its row.
 */
module Trails {
  import opened Bytes
  import opened Results
  import opened Values
  import opened Canonical
  import opened Ordering
  import opened Comparison
  import opened Paths
  import opened Expansion
  import opened Execution
  import opened Answers

  // ---- trails ----

  /** The nodes and edges a row is about: one node more than edges. */
  datatype Trail = Trail(nodes: seq<u64>, edges: Walk)

  /** The edge has the type asked for and leads from near to far in the direction asked for. */
  predicate Follows(ast: QueryAst, e: Edge, near: u64, far: u64)
  {
    && e.body.kind == ast.edgeType
    && match ast.direction
       case Out => e.body.from == near && e.body.to == far
       case In => e.body.to == near && e.body.from == far
  }

  /** Edge i of the trail is there and leads where the query asks. */
  predicate Leads(edges: seq<Edge>, ast: QueryAst, p: Trail, i: nat)
    requires |p.nodes| == |p.edges| + 1 && i < |p.edges|
  {
    p.edges[i] in edges && Follows(ast, p.edges[i], p.nodes[i], p.nodes[i + 1])
  }

  /** A seed alone, one step from it, or a path of up to the bound that meets no node twice. */
  ghost predicate IsTrail(edges: seq<Edge>, ast: QueryAst, p: Trail)
  {
    && |p.nodes| == |p.edges| + 1
    && (forall i | 0 <= i < |p.edges| :: Leads(edges, ast, p, i))
    && match ast.mode
       case Scan => |p.edges| == 0
       case Step => |p.edges| == 1
       case Path => 1 <= |p.edges| <= ast.pathHops && Distinct(p.nodes)
  }

  // ---- rows ----

  /** A 64-bit id as the signed number a row holds. */
  function Number(id: u64): Value
  {
    IntValue(if id < 0x8000_0000_0000_0000 then id else id - TWO_64)
  }

  /** The decimal ids with arrows between them. */
  function Joined(nodes: seq<u64>): Text
  {
    if |nodes| == 0 then []
    else if |nodes| == 1 then Digits(nodes[0])
    else Digits(nodes[0]) + (Ascii("->") + Joined(nodes[1..]))
  }

  /** The double 1.0. */
  const ONE: u64 := 0x3ff0_0000_0000_0000

  /** What following an edge costs: one, or the finite non-negative number it holds under the cost property. */
  ghost predicate Costs(ast: QueryAst, e: Edge, c: nat)
  {
    if ast.costProperty.None? then c == Scaled(ONE)
    else exists i :: 0 <= i < |e.properties| && e.properties[i].key == ast.costProperty.value
                     && IsNumeric(e.properties[i].value) && FiniteNumber(e.properties[i].value)
                     && c == NumericValue(e.properties[i].value)
  }

  ghost predicate Adds(ast: QueryAst, add: CostAdder, e: Edge, before: nat, after: nat)
  {
    exists c: nat :: Costs(ast, e, c) && after == add(before, c)
  }

  /** The running costs of a trail, added up from its first edge on. */
  ghost predicate AddsUp(ast: QueryAst, add: CostAdder, w: Walk, sums: seq<nat>)
  {
    |sums| == |w| + 1 && sums[0] == 0 && forall i | 0 <= i < |w| :: Adds(ast, add, w[i], sums[i], sums[i + 1])
  }

  ghost predicate Reports(ast: QueryAst, add: CostAdder, p: Trail, row: Row)
    requires |p.nodes| == |p.edges| + 1
  {
    var last := p.nodes[|p.edges|];
    match ast.mode
    case Scan => row == Row(Number(last), Ascii("scan:") + Digits(last), 0)
    case Step =>
      && |p.edges| == 1 && row.cost == 0
      && row.key == Ascii("adj:") + Digits(p.nodes[0]) + Ascii(":") + Digits(p.edges[0].id) + Ascii(":") + Digits(last)
      && row.value == (if ast.output == EdgeId then Number(p.edges[0].id) else Number(last))
    case Path =>
      && |p.edges| > 0
      && row.key == Ascii("path:") + Joined(p.nodes)
      && row.value == (match ast.output
                       case NodeId => Number(last)
                       case EdgeId => Number(p.edges[|p.edges| - 1].id)
                       case WholePath => TextValue(Joined(p.nodes)))
      && exists sums :: AddsUp(ast, add, p.edges, sums) && row.cost == sums[|p.edges|]
  }

  lemma Prefixes()
    ensures Ascii("scan:") == SCAN_PREFIX && Ascii("adj:") == STEP_PREFIX && Ascii("path:") == PATH_PREFIX
    ensures Ascii(":") == COLON && Ascii("->") == ARROW
  {
  }

  lemma {:induction false} JoinedPushBack(nodes: seq<u64>, last: u64)
    requires |nodes| > 0
    ensures Joined(nodes + [last]) == Joined(nodes) + (ARROW + Digits(last))
  {
    hide Ascii, Digits;
    Prefixes();
    var longer := nodes + [last];
    assert longer[1..] == nodes[1..] + [last];
    if |nodes| == 1 {
      assert longer[1..] == [last];
    } else {
      JoinedPushBack(nodes[1..], last);
      var a, b, c := Digits(nodes[0]), Joined(nodes[1..]), ARROW + Digits(last);
      assert a + (ARROW + (b + c)) == (a + (ARROW + b)) + c;
    }
  }

  lemma {:induction false} PathStringJoins(nodes: seq<u64>)
    ensures PathString(nodes) == Joined(nodes)
  {
    hide Digits;
    if |nodes| > 1 {
      var front, last := nodes[..|nodes| - 1], nodes[|nodes| - 1];
      PathStringJoins(front);
      JoinedPushBack(front, last);
      assert nodes == front + [last];
    }
  }

  // ---- walks are trails ----

  lemma FollowsIs(edges: seq<Edge>, ast: QueryAst, e: Edge, near: u64, far: u64)
    ensures var t := Traversal(edges, ast.edgeType, ast.direction);
            Follows(ast, e, near, far) <==> e.body.kind == t.kind && NearEnd(t, e) == near && FarEnd(t, e) == far
  {
  }

  lemma {:induction false} NodesOnNext(t: Traversal, seed: u64, w: Walk, i: nat)
    requires i < |w|
    ensures NodesOn(t, seed, w)[0] == seed && NodesOn(t, seed, w)[i + 1] == FarEnd(t, w[i])
    decreases |w|
  {
    hide FarEnd;
    var front := w[..|w| - 1];
    if |w| > 1 {
      NodesOnNext(t, seed, front, 0);
      if i < |w| - 1 {
        NodesOnNext(t, seed, front, i);
      }
    }
  }

  lemma {:induction false} FollowedNodes(edges: seq<Edge>, ast: QueryAst, nodes: seq<u64>, w: Walk)
    requires |nodes| == |w| + 1 && forall i | 0 <= i < |w| :: Follows(ast, w[i], nodes[i], nodes[i + 1])
    ensures NodesOn(Traversal(edges, ast.edgeType, ast.direction), nodes[0], w) == nodes
    decreases |w|
  {
    hide Follows, FarEnd, NearEnd;
    var t := Traversal(edges, ast.edgeType, ast.direction);
    if |w| == 0 {
      assert nodes == [nodes[0]];
    } else {
      var k := |w| - 1;
      FollowedNodes(edges, ast, nodes[..k + 1], w[..k]);
      FollowsIs(edges, ast, w[k], nodes[k], nodes[k + 1]);
      assert nodes == nodes[..k + 1] + [nodes[k + 1]];
    }
  }

  function TrailOf(t: Traversal, seed: u64, w: Walk): (p: Trail)
    ensures |p.nodes| == |p.edges| + 1
  {
    Trail(NodesOn(t, seed, w), w)
  }

  /** The edges of a walk lead from each of its nodes to the next exactly as the query asks. */
  lemma {:induction false} WalkLeads(edges: seq<Edge>, ast: QueryAst, seed: u64, w: Walk, i: nat)
    requires i < |w|
    ensures var t := Traversal(edges, ast.edgeType, ast.direction);
            var there := w[i] in t.edges && w[i].body.kind == t.kind;
            Leads(edges, ast, TrailOf(t, seed, w), i) <==> there && NearEnd(t, w[i]) == NodesOn(t, seed, w)[i]
  {
    hide Follows, FarEnd, NearEnd, NodesOn;
    var t := Traversal(edges, ast.edgeType, ast.direction);
    var p := TrailOf(t, seed, w);
    NodesOnNext(t, seed, w, i);
    FollowsIs(edges, ast, w[i], p.nodes[i], p.nodes[i + 1]);
  }

  lemma {:induction false} StartsAtSeed(t: Traversal, seed: u64, w: Walk)
    ensures NodesOn(t, seed, w)[0] == seed
  {
    hide FarEnd;
    if |w| > 0 {
      NodesOnNext(t, seed, w, 0);
    }
  }

  /** The walks a seed is expanded into. */
  function SeedWalks(plan: Plan, seed: u64): seq<Walk>
  {
    match plan.mode
    case Scan => [[]]
    case Step => Singles(Leaving(plan.t, seed))
    case Path => PathsUpTo(plan.t, seed, plan.hops)
  }

  function Singles(es: seq<Edge>): (ws: seq<Walk>)
    ensures |ws| == |es|
  {
    seq(|es|, i requires 0 <= i < |es| => [es[i]])
  }

  lemma {:induction false} SinglesAre(es: seq<Edge>, w: Walk)
    ensures w in Singles(es) <==> |w| == 1 && w[0] in es
  {
    if |w| == 1 && w[0] in es {
      var i :| 0 <= i < |es| && es[i] == w[0];
      assert Singles(es)[i] == [es[i]] == w;
    }
  }

  /** They are the trails from the seed, and nothing else. */
  lemma {:induction false} SeedWalksExact(edges: seq<Edge>, ast: QueryAst, limits: QueryLimits, add: CostAdder, seed: u64, w: Walk)
    requires IdAscending(edges)
    ensures var plan := PlanOf(edges, ast, limits, add);
            w in SeedWalks(plan, seed) <==> IsTrail(edges, ast, TrailOf(plan.t, seed, w))
  {
    hide Leads, NearEnd, FarEnd, NodesOn, IdAscending, InPathOrder, PathsUpTo, Leaving;
    var plan := PlanOf(edges, ast, limits, add);
    var p := TrailOf(plan.t, seed, w);
    StartsAtSeed(plan.t, seed, w);
    forall i | 0 <= i < |w|
      ensures Leads(edges, ast, p, i)
         <==> w[i] in edges && w[i].body.kind == plan.t.kind && NearEnd(plan.t, w[i]) == p.nodes[i]
    {
      WalkLeads(edges, ast, seed, w, i);
    }
    match ast.mode
    case Scan => assert w in [[]] <==> |w| == 0;
    case Step =>
      SinglesAre(Leaving(plan.t, seed), w);
      if |w| == 1 {
        LeavingMeans(plan.t, seed, w[0]);
      }
    case Path => PathsExact(plan.t, seed, plan.hops);
  }

  /** A trail is the walk along its edges. */
  lemma {:induction false} TrailIsWalk(edges: seq<Edge>, ast: QueryAst, p: Trail)
    requires IsTrail(edges, ast, p)
    ensures p == TrailOf(Traversal(edges, ast.edgeType, ast.direction), p.nodes[0], p.edges)
  {
    hide Follows, NodesOn, Distinct;
    forall i | 0 <= i < |p.edges|
      ensures Follows(ast, p.edges[i], p.nodes[i], p.nodes[i + 1])
    {
      assert Leads(edges, ast, p, i);
    }
    FollowedNodes(edges, ast, p.nodes, p.edges);
  }

  lemma {:induction false} SinglesOrdered(es: seq<Edge>)
    requires IdAscending(es)
    ensures InPathOrder(Singles(es))
  {
    hide Precedes;
    forall i, j | 0 <= i < j < |es|
      ensures Precedes(Singles(es)[i], Singles(es)[j])
    {
      SiblingOrder([], es[i], es[j]);
      assert [] + [es[i]] == [es[i]] && [] + [es[j]] == [es[j]];
    }
  }

  lemma {:induction false} SeedWalksOrdered(plan: Plan, seed: u64)
    requires IdAscending(plan.t.edges)
    ensures InPathOrder(SeedWalks(plan, seed))
  {
    hide Leaving, IsSimplePath, PathsUpTo;
    match plan.mode
    case Scan =>
    case Step =>
      LeavingAscends(plan.t, seed);
      SinglesOrdered(Leaving(plan.t, seed));
    case Path => PathsExact(plan.t, seed, plan.hops);
  }

  // ---- the rows of a seed ----

  lemma {:induction false} PowerSum(a: nat, b: nat)
    ensures PowerOfTwo(a + b) == PowerOfTwo(a) * PowerOfTwo(b)
  {
    if a > 0 {
      PowerSum(a - 1, b);
      Doubled(PowerOfTwo(a - 1), PowerOfTwo(b));
    }
  }

  lemma Doubled(a: int, b: int)
    ensures 2 * (a * b) == (2 * a) * b
  {
  }

  lemma Sixteen()
    ensures PowerOfTwo(4) == 16
  {
  }

  lemma {:induction false} FiftyTwo()
    ensures PowerOfTwo(52) == TWO_52
  {
    hide PowerOfTwo;
    Sixteen();
    PowerSum(4, 4);
    PowerSum(8, 8);
    PowerSum(16, 16);
    PowerSum(32, 16);
    PowerSum(48, 4);
  }

  /** A step without a cost property costs the double 1.0. */
  lemma {:induction false} OneScaled()
    ensures Scaled(ONE) == PowerOfTwo(1074) == NumericValue(IntValue(1))
  {
    hide PowerOfTwo, Nearest;
    NearestMagnitude(1);
    PowerSum(52, 1022);
    FiftyTwo();
    assert ONE / TWO_52 % 0x800 == 1023 && ONE % TWO_52 == 0;
  }

  lemma {:induction false} KnownCosts(ast: QueryAst, plan: Plan, e: Edge)
    requires plan.costProperty == ast.costProperty && StepCost(plan, e).Ok?
    ensures Costs(ast, e, KnownCost(plan, e))
  {
    hide Scaled, NumericValue, PowerOfTwo, FiniteNumber;
    OneScaled();
    if ast.costProperty.Some? {
      EdgeCostMeans(e, ast.costProperty.value);
      var found := Lookup(e.properties, ast.costProperty.value);
      var i :| 0 <= i < |e.properties| && e.properties[i] == Property(ast.costProperty.value, found.value);
    }
  }

  function RunningCosts(plan: Plan, w: Walk): (sums: seq<nat>)
    ensures |sums| == |w| + 1
  {
    seq(|w| + 1, i requires 0 <= i <= |w| => WalkCost(plan, w[..i]))
  }

  lemma {:induction false} RunningNext(plan: Plan, w: Walk, i: nat)
    requires i < |w|
    ensures RunningCosts(plan, w)[i + 1] == plan.add(RunningCosts(plan, w)[i], KnownCost(plan, w[i]))
    ensures RunningCosts(plan, w)[0] == 0
  {
    hide KnownCost;
    var longer := w[..i + 1];
    assert longer[..|longer| - 1] == w[..i] && longer[|longer| - 1] == w[i];
  }

  lemma {:induction false} LastRunning(plan: Plan, w: Walk)
    ensures RunningCosts(plan, w)[|w|] == WalkCost(plan, w) && RunningCosts(plan, w)[0] == 0
  {
    hide KnownCost;
    assert w[..|w|] == w;
  }

  lemma {:induction false} WalkAdds(ast: QueryAst, plan: Plan, w: Walk, i: nat)
    requires plan.costProperty == ast.costProperty && i < |w| && StepCost(plan, w[i]).Ok?
    ensures Adds(ast, plan.add, w[i], RunningCosts(plan, w)[i], RunningCosts(plan, w)[i + 1])
  {
    hide Costs, KnownCost, StepCost, RunningCosts, NeverShrinks;
    KnownCosts(ast, plan, w[i]);
    RunningNext(plan, w, i);
  }

  lemma {:induction false} WalkAddsUp(ast: QueryAst, plan: Plan, w: Walk)
    requires plan.costProperty == ast.costProperty
    requires forall i | 0 <= i < |w| :: StepCost(plan, w[i]).Ok?
    ensures AddsUp(ast, plan.add, w, RunningCosts(plan, w))
  {
    hide Adds, StepCost, RunningCosts, NeverShrinks;
    LastRunning(plan, w);
    forall i | 0 <= i < |w|
      ensures Adds(ast, plan.add, w[i], RunningCosts(plan, w)[i], RunningCosts(plan, w)[i + 1])
    {
      WalkAdds(ast, plan, w, i);
    }
  }

  /** The row of a walk in the mode of the plan. */
  function RowOf(plan: Plan, seed: u64, w: Walk): Row
  {
    match plan.mode
    case Scan => ScanRow(seed)
    case Step => if |w| == 0 then ScanRow(seed) else StepRow(plan, seed, w[0])
    case Path => PathRow(plan, seed, w)
  }

  lemma {:induction false} SeedRowsAre(plan: Plan, seed: u64)
    ensures var rows, ws := SeedYield(plan, seed).rows, SeedWalks(plan, seed);
            |rows| == |ws| && forall i | 0 <= i < |ws| :: rows[i] == RowOf(plan, seed, ws[i])
  {
    hide ScanRow, StepRow, PathRow, PathsUpTo, Leaving, VisitsWork, CostsKnown, FrontierFits;
  }

  ghost predicate EdgeCostsKnown(plan: Plan, w: Walk)
  {
    forall i | 0 <= i < |w| :: StepCost(plan, w[i]).Ok?
  }

  /** If every last edge of the listed paths has a cost, so has every edge, because prefixes are listed too. */
  lemma {:induction false} AllCostsKnown(plan: Plan, seed: u64, w: Walk)
    requires IdAscending(plan.t.edges) && CostsKnown(plan, PathsUpTo(plan.t, seed, plan.hops))
    requires |w| <= plan.hops && IsSimplePath(plan.t, seed, w)
    ensures EdgeCostsKnown(plan, w)
    decreases |w|
  {
    hide IsSimplePath, StepCost, PathsUpTo, IdAscending, InPathOrder, Extensions;
    if |w| > 0 {
      var front, ws := w[..|w| - 1], PathsUpTo(plan.t, seed, plan.hops);
      SimplePathPrefix(plan.t, seed, w);
      AllCostsKnown(plan, seed, front);
      PathsExact(plan.t, seed, plan.hops);
      assert w in ws;
      var i :| 0 <= i < |ws| && ws[i] == w;
      assert !CostFails(plan, ws[i]);
      assert forall i | 0 <= i < |front| :: front[i] == w[i];
    }
  }

  lemma NumberIsIdValue(id: u64)
    ensures Number(id) == IdValue(id)
  {
  }

  lemma {:induction false} PathRowReports(edges: seq<Edge>, ast: QueryAst, limits: QueryLimits, add: CostAdder, seed: u64,
                                          w: Walk)
    requires ast.mode == Path && |w| > 0 && EdgeCostsKnown(PlanOf(edges, ast, limits, add), w)
    ensures var plan := PlanOf(edges, ast, limits, add);
            Reports(ast, add, TrailOf(plan.t, seed, w), PathRow(plan, seed, w))
  {
    hide Ascii, AddsUp, StepCost, WalkCost, RunningCosts, Joined, PathString, NodesOn, NeverShrinks, Digits, Number, IdValue;
    var plan := PlanOf(edges, ast, limits, add);
    var nodes, sums := NodesOn(plan.t, seed, w), RunningCosts(plan, w);
    Prefixes();
    PathStringJoins(nodes);
    NumberIsIdValue(nodes[|w|]);
    NumberIsIdValue(w[|w| - 1].id);
    WalkAddsUp(ast, plan, w);
    LastRunning(plan, w);
    assert AddsUp(ast, add, w, sums) && WalkCost(plan, w) == sums[|w|];
  }

  lemma {:induction false} StepRowReports(edges: seq<Edge>, ast: QueryAst, limits: QueryLimits, add: CostAdder, seed: u64,
                                          e: Edge)
    requires ast.mode == Step
    ensures var plan := PlanOf(edges, ast, limits, add);
            Reports(ast, add, TrailOf(plan.t, seed, [e]), StepRow(plan, seed, e))
  {
    hide Ascii, Digits, Number, IdValue, FarEnd, NeverShrinks, Costs;
    var t := Traversal(edges, ast.edgeType, ast.direction);
    Prefixes();
    NodesOnNext(t, seed, [e], 0);
    NumberIsIdValue(FarEnd(t, e));
    NumberIsIdValue(e.id);
  }

  lemma {:induction false} ScanRowReports(ast: QueryAst, add: CostAdder, t: Traversal, seed: u64)
    requires ast.mode == Scan
    ensures Reports(ast, add, TrailOf(t, seed, []), ScanRow(seed))
  {
    hide Ascii, Digits, Number, IdValue, NeverShrinks;
    Prefixes();
    NumberIsIdValue(seed);
  }

  // ---- lists of trails and their rows ----

  /** By seed, then by length, then by edge ids. */
  ghost predicate Before(p: Trail, q: Trail)
  {
    |p.nodes| > 0 && |q.nodes| > 0
    && (p.nodes[0] < q.nodes[0] || (p.nodes[0] == q.nodes[0] && Precedes(p.edges, q.edges)))
  }

  ghost predicate StartsAt(seeds: seq<Node>, p: Trail)
  {
    |p.nodes| > 0 && FromSeed(seeds, p.nodes[0])
  }

  ghost predicate IsRowOf(edges: seq<Edge>, ast: QueryAst, add: CostAdder, p: Trail, row: Row)
  {
    IsTrail(edges, ast, p) && Reports(ast, add, p, row)
  }

  /** Every trail from the seeds once, in order. */
  ghost predicate ListsTrails(edges: seq<Edge>, ast: QueryAst, seeds: seq<Node>, trails: seq<Trail>)
  {
    && (forall p :: p in trails <==> IsTrail(edges, ast, p) && StartsAt(seeds, p))
    && (forall i, j | 0 <= i < j < |trails| :: Before(trails[i], trails[j]))
  }

  /** Each trail with its row. */
  ghost predicate ListsRows(edges: seq<Edge>, ast: QueryAst, add: CostAdder, trails: seq<Trail>, rows: seq<Row>)
  {
    |trails| == |rows| && forall i | 0 <= i < |trails| :: IsRowOf(edges, ast, add, trails[i], rows[i])
  }

  function TrailsOf(t: Traversal, seed: u64, ws: seq<Walk>): (ps: seq<Trail>)
    ensures |ps| == |ws|
  {
    seq(|ws|, i requires 0 <= i < |ws| => TrailOf(t, seed, ws[i]))
  }

  lemma {:induction false} RowReports(edges: seq<Edge>, ast: QueryAst, limits: QueryLimits, add: CostAdder, seed: u64, w: Walk)
    requires IdAscending(edges) && SeedYield(PlanOf(edges, ast, limits, add), seed).costsKnown
    requires w in SeedWalks(PlanOf(edges, ast, limits, add), seed)
    ensures var plan := PlanOf(edges, ast, limits, add);
            IsRowOf(edges, ast, add, TrailOf(plan.t, seed, w), RowOf(plan, seed, w))
  {
    hide IsTrail, Reports, ScanRow, StepRow, PathRow, NodesOn, PathsUpTo, Leaving, VisitsWork, CostsKnown, FrontierFits,
      IsSimplePath, IdAscending, InPathOrder, EdgeCostsKnown, NeverShrinks, TrailOf;
    var plan := PlanOf(edges, ast, limits, add);
    SeedWalksExact(edges, ast, limits, add, seed, w);
    match ast.mode
    case Scan => ScanRowReports(ast, add, plan.t, seed);
    case Step =>
      SinglesAre(Leaving(plan.t, seed), w);
      assert w == [w[0]];
      StepRowReports(edges, ast, limits, add, seed, w[0]);
    case Path =>
      PathsExact(plan.t, seed, plan.hops);
      AllCostsKnown(plan, seed, w);
      PathRowReports(edges, ast, limits, add, seed, w);
  }

  lemma {:induction false} SeedRows(edges: seq<Edge>, ast: QueryAst, limits: QueryLimits, add: CostAdder, seed: u64)
    requires IdAscending(edges) && SeedYield(PlanOf(edges, ast, limits, add), seed).costsKnown
    ensures var plan := PlanOf(edges, ast, limits, add);
            ListsRows(edges, ast, add, TrailsOf(plan.t, seed, SeedWalks(plan, seed)), SeedYield(plan, seed).rows)
  {
    hide IsTrail, IsRowOf, RowOf, NodesOn, SeedWalks, SeedYield, IdAscending, Precedes, NeverShrinks;
    var plan := PlanOf(edges, ast, limits, add);
    var ws := SeedWalks(plan, seed);
    SeedRowsAre(plan, seed);
    forall i | 0 <= i < |ws|
      ensures IsRowOf(edges, ast, add, TrailOf(plan.t, seed, ws[i]), SeedYield(plan, seed).rows[i])
    {
      RowReports(edges, ast, limits, add, seed, ws[i]);
    }
  }

  lemma {:induction false} SeedTrails(edges: seq<Edge>, ast: QueryAst, limits: QueryLimits, add: CostAdder, seed: Node)
    requires IdAscending(edges)
    ensures var plan := PlanOf(edges, ast, limits, add);
            ListsTrails(edges, ast, [seed], TrailsOf(plan.t, seed.id, SeedWalks(plan, seed.id)))
  {
    hide IsTrail, NodesOn, SeedWalks, IdAscending, Precedes, NeverShrinks;
    var plan := PlanOf(edges, ast, limits, add);
    var t, ws := plan.t, SeedWalks(plan, seed.id);
    var trails := TrailsOf(t, seed.id, ws);
    forall p
      ensures p in trails <==> IsTrail(edges, ast, p) && StartsAt([seed], p)
    {
      TrailListed(edges, ast, limits, add, seed, p);
    }
    SeedWalksOrdered(plan, seed.id);
    forall i, j | 0 <= i < j < |ws|
      ensures Before(trails[i], trails[j])
    {
      StartsAtSeed(t, seed.id, ws[i]);
      StartsAtSeed(t, seed.id, ws[j]);
    }
  }

  lemma {:induction false} TrailListed(edges: seq<Edge>, ast: QueryAst, limits: QueryLimits, add: CostAdder, seed: Node, p: Trail)
    requires IdAscending(edges)
    ensures var plan := PlanOf(edges, ast, limits, add);
            var trails := TrailsOf(plan.t, seed.id, SeedWalks(plan, seed.id));
            p in trails <==> IsTrail(edges, ast, p) && StartsAt([seed], p)
  {
    hide IsTrail, NodesOn, SeedWalks, IdAscending, NeverShrinks;
    var plan := PlanOf(edges, ast, limits, add);
    var t, ws := plan.t, SeedWalks(plan, seed.id);
    var trails := TrailsOf(t, seed.id, ws);
    OneSeed(seed, p);
    if p in trails {
      var i :| 0 <= i < |trails| && trails[i] == p;
      SeedWalksExact(edges, ast, limits, add, seed.id, ws[i]);
      StartsAtSeed(t, seed.id, ws[i]);
    }
    if IsTrail(edges, ast, p) && StartsAt([seed], p) {
      TrailIsWalk(edges, ast, p);
      SeedWalksExact(edges, ast, limits, add, seed.id, p.edges);
      var i :| 0 <= i < |ws| && ws[i] == p.edges;
      assert trails[i] == p;
    }
  }

  lemma {:induction false} OneSeed(seed: Node, p: Trail)
    ensures StartsAt([seed], p) <==> |p.nodes| > 0 && p.nodes[0] == seed.id
  {
    assert [seed][0] == seed;
  }

  lemma {:induction false} RowsJoin(edges: seq<Edge>, ast: QueryAst, add: CostAdder, a: seq<Trail>, x: seq<Row>,
                                    b: seq<Trail>, y: seq<Row>)
    requires ListsRows(edges, ast, add, a, x) && ListsRows(edges, ast, add, b, y)
    ensures ListsRows(edges, ast, add, a + b, x + y)
  {
    hide IsRowOf;
    forall i | 0 <= i < |a + b|
      ensures IsRowOf(edges, ast, add, (a + b)[i], (x + y)[i])
    {
      if i >= |a| {
        assert IsRowOf(edges, ast, add, b[i - |a|], y[i - |a|]);
      }
    }
  }

  lemma {:induction false} TrailsJoin(edges: seq<Edge>, ast: QueryAst, seeds: seq<Node>, last: Node,
                                      a: seq<Trail>, b: seq<Trail>)
    requires ListsTrails(edges, ast, seeds, a) && ListsTrails(edges, ast, [last], b)
    requires forall n | n in seeds :: n.id < last.id
    ensures ListsTrails(edges, ast, seeds + [last], a + b)
  {
    hide IsTrail, Precedes, FromSeed;
    var trails := a + b;
    forall p
      ensures p in trails <==> IsTrail(edges, ast, p) && StartsAt(seeds + [last], p)
    {
      assert p in trails <==> p in a || p in b;
      MoreSeeds(seeds, last, p);
    }
    forall i, j | 0 <= i < j < |trails|
      ensures Before(trails[i], trails[j])
    {
      if j < |a| {
      } else if i >= |a| {
        assert Before(b[i - |a|], b[j - |a|]);
      } else {
        assert a[i] in a && b[j - |a|] in b;
        EarlierSeed(seeds, last, a[i], b[j - |a|]);
      }
    }
  }

  lemma {:induction false} MoreSeeds(seeds: seq<Node>, last: Node, p: Trail)
    ensures StartsAt(seeds + [last], p) <==> StartsAt(seeds, p) || StartsAt([last], p)
  {
    hide FromSeed;
    OneSeed(last, p);
    if |p.nodes| > 0 {
      FromLongerSeeds(seeds + [last], p.nodes[0]);
      assert (seeds + [last])[..|seeds|] == seeds;
    }
  }

  lemma {:induction false} EarlierSeed(seeds: seq<Node>, last: Node, p: Trail, q: Trail)
    requires StartsAt(seeds, p) && StartsAt([last], q) && forall n | n in seeds :: n.id < last.id
    ensures Before(p, q)
  {
    OneSeed(last, q);
    var i :| 0 <= i < |seeds| && seeds[i].id == p.nodes[0];
    assert seeds[i] in seeds;
  }

  ghost function AllTrails(plan: Plan, seeds: seq<Node>): seq<Trail>
  {
    if |seeds| == 0 then []
    else
      var last := seeds[|seeds| - 1].id;
      AllTrails(plan, seeds[..|seeds| - 1]) + TrailsOf(plan.t, last, SeedWalks(plan, last))
  }

  lemma {:induction false} TotalTrails(edges: seq<Edge>, ast: QueryAst, limits: QueryLimits, add: CostAdder, seeds: seq<Node>)
    requires IdAscending(edges) && IdAscending(seeds)
    ensures ListsTrails(edges, ast, seeds, AllTrails(PlanOf(edges, ast, limits, add), seeds))
    decreases |seeds|
  {
    hide ListsTrails, TrailsOf, SeedWalks, NeverShrinks;
    var plan := PlanOf(edges, ast, limits, add);
    if |seeds| == 0 {
      NoTrails(edges, ast, seeds);
    } else {
      var front, last := seeds[..|seeds| - 1], seeds[|seeds| - 1];
      TotalTrails(edges, ast, limits, add, front);
      SeedTrails(edges, ast, limits, add, last);
      assert seeds == front + [last];
      TrailsJoin(edges, ast, front, last, AllTrails(plan, front), TrailsOf(plan.t, last.id, SeedWalks(plan, last.id)));
    }
  }

  lemma {:induction false} TotalRows(edges: seq<Edge>, ast: QueryAst, limits: QueryLimits, add: CostAdder, seeds: seq<Node>)
    requires IdAscending(edges) && TotalYield(PlanOf(edges, ast, limits, add), seeds).costsKnown
    ensures var plan := PlanOf(edges, ast, limits, add);
            ListsRows(edges, ast, add, AllTrails(plan, seeds), TotalYield(plan, seeds).rows)
    decreases |seeds|
  {
    hide ListsRows, TrailsOf, SeedWalks, SeedYield, NeverShrinks;
    var plan := PlanOf(edges, ast, limits, add);
    if |seeds| == 0 {
      NoRows(edges, ast, add);
    } else {
      var front, last := seeds[..|seeds| - 1], seeds[|seeds| - 1].id;
      TotalRows(edges, ast, limits, add, front);
      SeedRows(edges, ast, limits, add, last);
      RowsJoin(edges, ast, add, AllTrails(plan, front), TotalYield(plan, front).rows,
               TrailsOf(plan.t, last, SeedWalks(plan, last)), SeedYield(plan, last).rows);
    }
  }

  lemma {:induction false} NoTrails(edges: seq<Edge>, ast: QueryAst, seeds: seq<Node>)
    requires |seeds| == 0
    ensures ListsTrails(edges, ast, seeds, [])
  {
    hide IsTrail, Precedes;
  }

  lemma NoRows(edges: seq<Edge>, ast: QueryAst, add: CostAdder)
    ensures ListsRows(edges, ast, add, [], [])
  {
  }
}
