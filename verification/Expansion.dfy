/** What a query yields per seed: the rows, the work units, and whether costs and the frontier allow it. */
module Expansion {
  import opened Bytes
  import opened Results
  import opened Values
  import opened Canonical
  import opened Comparison
  import opened Paths
  import opened SearchOrder

  datatype Mode = Scan | Step | Path
  datatype Output = NodeId | EdgeId | WholePath

  datatype Row = Row(value: Value, key: Text, cost: nat)

  ghost predicate NeverShrinks(f: (nat, nat) -> nat)
  {
    forall a, b :: f(a, b) >= a
  }

  /** Addition of non-negative doubles is a parameter: however it rounds, it never falls below its first operand. */
  type CostAdder = f: (nat, nat) -> nat | NeverShrinks(f) witness (a: nat, b: nat) => a + b

  /** An expansion: what is followed, how far, at what cost, and what is reported. */
  datatype Plan = Plan(t: Traversal, mode: Mode, hops: nat, costProperty: Option<Text>, output: Output,
                       frontierLimit: nat, add: CostAdder)

  // ---- costs ----

  lemma NearestKeepsSign(n: nat)
    ensures Nearest(n) >= 0 && Nearest(n) * PowerOfTwo(1074) >= 0
  {
  }

  /** The cost an edge carries, in units of the least positive double. */
  function EdgeCost(e: Edge, property: Text): (r: Result<nat>)
    ensures r.Err? ==> r.error == QueryType
  {
    var found := Lookup(e.properties, property);
    if found.None? then Err(QueryType) else
    match found.value
    case IntValue(number) =>
      if number < 0 then Err(QueryType) else
      NearestKeepsSign(number);
      Ok(NumericValue(found.value))
    case DoubleValue(bits) =>
      if !Finite(bits) || Scaled(bits) < 0 then Err(QueryType) else Ok(Scaled(bits))
    case _ => Err(QueryType)
  }

  /** Costs exist exactly for finite non-negative numbers, and are those numbers as doubles. */
  lemma {:induction false} EdgeCostMeans(e: Edge, property: Text)
    ensures var found, cost := Lookup(e.properties, property), EdgeCost(e, property);
            && (cost.Ok? <==> && found.Some? && IsNumeric(found.value) && FiniteNumber(found.value)
                              && NumericValue(found.value) >= 0)
            && (cost.Ok? ==> cost.value == NumericValue(found.value))
  {
    hide Nearest, PowerOfTwo;
    var found := Lookup(e.properties, property);
    if found.Some? && found.value.IntValue? && found.value.number < 0 {
      var n: int := found.value.number;
      NearestMagnitude(-n);
      NegativeProduct(Nearest(n), PowerOfTwo(1074));
    }
  }

  lemma NegativeProduct(a: int, b: int)
    requires a < 0 && b > 0
    ensures a * b < 0
  {
  }

  /** Without a cost property every step costs one. */
  function StepCost(plan: Plan, e: Edge): (r: Result<nat>)
    ensures r.Err? ==> r.error == QueryType
  {
    if plan.costProperty.None? then Ok(PowerOfTwo(1074)) else EdgeCost(e, plan.costProperty.value)
  }

  function KnownCost(plan: Plan, e: Edge): nat
  {
    var cost := StepCost(plan, e);
    if cost.Ok? then cost.value else 0
  }

  function WalkCost(plan: Plan, w: Walk): nat
  {
    if |w| == 0 then 0 else plan.add(WalkCost(plan, w[..|w| - 1]), KnownCost(plan, w[|w| - 1]))
  }

  predicate CostFails(plan: Plan, w: Walk)
  {
    |w| > 0 && StepCost(plan, w[|w| - 1]).Err?
  }

  ghost predicate CostsKnown(plan: Plan, ws: seq<Walk>)
  {
    forall i | 0 <= i < |ws| :: !CostFails(plan, ws[i])
  }

  // ---- rows ----

  const SCAN_PREFIX: Text := [115, 99, 97, 110, 58]
  const STEP_PREFIX: Text := [97, 100, 106, 58]
  const PATH_PREFIX: Text := [112, 97, 116, 104, 58]
  const COLON: Text := [58]

  function IdValue(id: u64): Value
  {
    IntValue(ToSigned(id))
  }

  function ScanRow(seed: u64): Row
  {
    Row(IdValue(seed), SCAN_PREFIX + Digits(seed), 0)
  }

  function StepKey(seed: u64, edge: u64, node: u64): Text
  {
    STEP_PREFIX + Digits(seed) + COLON + Digits(edge) + COLON + Digits(node)
  }

  function StepRow(plan: Plan, seed: u64, e: Edge): Row
  {
    var node := FarEnd(plan.t, e);
    Row(IdValue(if plan.output == EdgeId then e.id else node), StepKey(seed, e.id, node), 0)
  }

  function StepRows(plan: Plan, seed: u64, es: seq<Edge>): (r: seq<Row>)
    ensures |r| == |es|
  {
    seq(|es|, i requires 0 <= i < |es| => StepRow(plan, seed, es[i]))
  }

  /** The row of a walk: what is reported about its last edge and node or about all of it. */
  function PathRow(plan: Plan, seed: u64, w: Walk): Row
  {
    var nodes := NodesOn(plan.t, seed, w);
    var value := if plan.output == WholePath then TextValue(PathString(nodes))
                 else if plan.output == EdgeId && |w| > 0 then IdValue(w[|w| - 1].id)
                 else IdValue(nodes[|w|]);
    Row(value, PATH_PREFIX + PathString(nodes), WalkCost(plan, w))
  }

  function PathRows(plan: Plan, seed: u64, ws: seq<Walk>): (r: seq<Row>)
    ensures |r| == |ws|
  {
    seq(|ws|, i requires 0 <= i < |ws| => PathRow(plan, seed, ws[i]))
  }

  lemma {:induction false} PathRowsConcat(plan: Plan, seed: u64, a: seq<Walk>, b: seq<Walk>)
    ensures PathRows(plan, seed, a + b) == PathRows(plan, seed, a) + PathRows(plan, seed, b)
  {
    hide PathRow;
  }

  // ---- per seed ----

  /** The outcome of an expansion: its rows in order, its work units, and the two conditions on it. */
  datatype Yield = Yield(rows: seq<Row>, work: nat, costsKnown: bool, frontierFits: bool)

  const NOTHING := Yield([], 0, true, true)

  function Join(a: Yield, b: Yield): Yield
  {
    Yield(a.rows + b.rows, a.work + b.work, a.costsKnown && b.costsKnown, a.frontierFits && b.frontierFits)
  }

  /** A visit costs one unit, and below the hop bound one per edge looked at and one per row. */
  function VisitWork(plan: Plan, seed: u64, w: Walk): nat
  {
    1 + if |w| < plan.hops then |Leaving(plan.t, EndOf(plan.t, seed, w))| + |Extensions(plan.t, seed, w)| else 0
  }

  function VisitsWork(plan: Plan, seed: u64, ws: seq<Walk>): nat
  {
    if |ws| == 0 then 0 else VisitsWork(plan, seed, ws[..|ws| - 1]) + VisitWork(plan, seed, ws[|ws| - 1])
  }

  /** The queue never holds more walks than the limit. */
  ghost predicate FrontierFits(plan: Plan, seed: u64)
  {
    forall k | 0 <= k <= |Discovered(plan.t, seed, plan.hops)| ::
      |QueueAfter(plan.t, seed, plan.hops, k)| <= plan.frontierLimit
  }

  ghost function PathYield(plan: Plan, seed: u64): Yield
  {
    var paths := PathsUpTo(plan.t, seed, plan.hops);
    Yield(PathRows(plan, seed, paths), VisitsWork(plan, seed, Discovered(plan.t, seed, plan.hops)),
          CostsKnown(plan, paths), FrontierFits(plan, seed))
  }

  function StepYield(plan: Plan, seed: u64): Yield
  {
    var es := Leaving(plan.t, seed);
    Yield(StepRows(plan, seed, es), 1 + 2 * |es|, true, true)
  }

  ghost function SeedYield(plan: Plan, seed: u64): Yield
  {
    match plan.mode
    case Scan => Yield([ScanRow(seed)], 1, true, true)
    case Step => StepYield(plan, seed)
    case Path => PathYield(plan, seed)
  }

  ghost function TotalYield(plan: Plan, seeds: seq<Node>): Yield
  {
    if |seeds| == 0 then NOTHING
    else Join(TotalYield(plan, seeds[..|seeds| - 1]), SeedYield(plan, seeds[|seeds| - 1].id))
  }

  lemma JoinAssociative(a: Yield, b: Yield, c: Yield)
    ensures Join(Join(a, b), c) == Join(a, Join(b, c))
  {
  }

  lemma NothingJoined(y: Yield)
    ensures Join(NOTHING, y) == y && Join(y, NOTHING) == y
  {
  }

  lemma {:induction false} TotalOfLonger(plan: Plan, seeds: seq<Node>, last: Node)
    ensures TotalYield(plan, seeds + [last]) == Join(TotalYield(plan, seeds), SeedYield(plan, last.id))
  {
    hide SeedYield, Join;
    assert (seeds + [last])[..|seeds|] == seeds;
  }

  /** Chunks can be expanded apart and joined in order. */
  lemma {:induction false} TotalYieldConcat(plan: Plan, a: seq<Node>, b: seq<Node>)
    ensures TotalYield(plan, a + b) == Join(TotalYield(plan, a), TotalYield(plan, b))
  {
    hide SeedYield, Join, TotalYield;
    if |b| == 0 {
      assert a + b == a;
      NothingExpanded(plan, b);
      NothingJoined(TotalYield(plan, a));
    } else {
      var front, last := b[..|b| - 1], b[|b| - 1];
      assert a + b == (a + front) + [last] && b == front + [last];
      TotalYieldConcat(plan, a, front);
      TotalOfLonger(plan, a + front, last);
      TotalOfLonger(plan, front, last);
      JoinAssociative(TotalYield(plan, a), TotalYield(plan, front), SeedYield(plan, last.id));
    }
  }

  lemma NothingExpanded(plan: Plan, seeds: seq<Node>)
    requires |seeds| == 0
    ensures TotalYield(plan, seeds) == NOTHING
  {
  }

  // ---- budgets ----

  /** Serial execution counts work and rows as it goes; a worker does not. */
  datatype Budget = Unlimited | Limited(work: nat, rows: nat)

  predicate WithinWork(budget: Budget, work: nat)
  {
    budget.Limited? ==> work <= budget.work
  }

  predicate WithinRows(budget: Budget, rows: nat)
  {
    budget.Limited? ==> rows <= budget.rows
  }

  predicate Affordable(budget: Budget, y: Yield)
  {
    y.costsKnown && y.frontierFits && WithinWork(budget, y.work) && WithinRows(budget, |y.rows|)
  }

  /** Why an expansion may fail. */
  predicate Explains(error: ErrorCode, budget: Budget, y: Yield)
  {
    || (error == QueryType && !y.costsKnown)
    || (error == ResourceLimit && !(y.frontierFits && WithinWork(budget, y.work) && WithinRows(budget, |y.rows|)))
  }
}
