/**
 Executing a prepared query: bind, find seeds, expand them serially or on workers, order, hand out a cursor.
 Whether a query succeeds and what it answers is stated without mentioning the mode, so the modes agree.
 */
module Execution {
  import opened Bytes
  import opened Results
  import opened Values
  import opened Canonical
  import opened Ordering
  import opened Snapshots
  import opened Comparison
  import opened Partition
  import opened Paths
  import opened Expansion
  import opened Search
  import opened Cursors

  datatype ExecutionMode = Serial | ParallelDeterministic

  datatype QueryLimits = QueryLimits(rowLimit: nat, batchLimit: nat, pathHopLimit: nat, frontierLimit: nat, workLimit: nat)

  datatype QueryOptions = QueryOptions(limits: QueryLimits, mode: ExecutionMode, parameters: PropertyMap)

  datatype QueryAst = QueryAst(sourceLabel: Text, where: Option<Predicate>, mode: Mode, direction: Direction, edgeType: Text,
                               pathHops: nat, costProperty: Option<Text>, output: Output, explicitOrder: bool,
                               orderDescending: bool)

  /** What a query can see of a snapshot. */
  datatype Contents = Contents(nodes: seq<Node>, edges: seq<Edge>, printer: DoublePrinter)

  function PlanOf(edges: seq<Edge>, ast: QueryAst, limits: QueryLimits, add: CostAdder): Plan
  {
    Plan(Traversal(edges, ast.edgeType, ast.direction), ast.mode, ast.pathHops, ast.costProperty, ast.output,
         limits.frontierLimit, add)
  }

  // ---- seeds ----

  function SeedsOf(v: Contents, ast: QueryAst, bound: Option<Predicate>): Result<seq<Node>>
  {
    if bound.Some? && bound.value.op == Equal then
      Ok(Sought(v.nodes, ast.sourceLabel, bound.value.key, bound.value.value, v.printer))
    else Scanned(v.nodes, ast.sourceLabel, bound)
  }

  /** The seeds a query starts from, or why there are none. */
  function Seeding(v: Contents, ast: QueryAst, parameters: PropertyMap): Result<seq<Node>>
  {
    var bound := BindPredicate(ast.where, parameters);
    if bound.Err? then Err(bound.error) else SeedsOf(v, ast, bound.value)
  }

  lemma {:induction false} FilteredConcat(a: seq<Node>, b: seq<Node>, condition: Option<Predicate>)
    ensures Filtered(a + b, condition)
         == match Filtered(a, condition)
            case Err(e) => Err(e)
            case Ok(x) => match Filtered(b, condition) case Err(e) => Err(e) case Ok(y) => Ok(x + y)
  {
    hide Fails;
    FilterAppend(a, b, MatchTest(condition));
    if i :| 0 <= i < |a| && Fails(a[i], condition) {
      assert Fails((a + b)[i], condition);
    } else if i :| 0 <= i < |b| && Fails(b[i], condition) {
      assert Fails((a + b)[|a| + i], condition);
    }
  }

  /** Workers filter their chunks independently; the first failing chunk in order decides. */
  method FilterSeedsInParallel(seeds: seq<Node>, condition: Option<Predicate>) returns (r: Result<seq<Node>>)
    ensures r == Filtered(seeds, condition)
  {
    hide Filtered, Covers;
    if condition.None? || |seeds| < 2 {
      r := FilterSeeds(seeds, condition);
      return;
    }
    var ranges := Split(|seeds|);
    RangesInBounds(ranges, |seeds|);
    var partitions: seq<Result<seq<Node>>> := [];
    for k := 0 to |ranges|
      invariant |partitions| == k
      invariant forall i | 0 <= i < k :: partitions[i] == Filtered(seeds[ranges[i].begin..ranges[i].end], condition)
    {
      var partition := FilterRange(seeds, ranges[k].begin, ranges[k].end, condition);
      partitions := partitions + [partition];
    }
    var filtered := [];
    assert seeds[..0] == [];
    NothingFails(condition);
    for k := 0 to |ranges|
      invariant Filtered(seeds[..if k == 0 then 0 else ranges[k - 1].end], condition) == Ok(filtered)
    {
      var partition := partitions[k];
      SliceGrows(seeds, ranges, k);
      StartsAtZero(ranges, |seeds|);
      FilteredConcat(seeds[..ranges[k].begin], seeds[ranges[k].begin..ranges[k].end], condition);
      if partition.Err? {
        FilteredConcat(seeds[..ranges[k].end], seeds[ranges[k].end..], condition);
        assert seeds[..ranges[k].end] + seeds[ranges[k].end..] == seeds;
        return partition;
      }
      filtered := filtered + partition.value;
    }
    EndsAtAll(ranges, |seeds|);
    assert seeds[..|seeds|] == seeds;
    return Ok(filtered);
  }

  lemma NothingFails(condition: Option<Predicate>)
    ensures Filtered([], condition) == Ok([])
  {
  }

  lemma RangesInBounds(ranges: seq<Range>, n: nat)
    requires Covers(ranges, n)
    ensures forall i | 0 <= i < |ranges| :: ranges[i].begin <= ranges[i].end <= n
  {
  }

  lemma StartsAtZero(ranges: seq<Range>, n: nat)
    requires Covers(ranges, n)
    ensures ranges[0].begin == 0
  {
  }

  lemma EndsAtAll(ranges: seq<Range>, n: nat)
    requires Covers(ranges, n)
    ensures |ranges| > 0 && ranges[|ranges| - 1].end == n
  {
  }

  /** Removes the seeds with another label, keeping the order. */
  method KeepLabelled(seeds: seq<Node>, name: Text) returns (kept: seq<Node>)
    ensures kept == Filter(seeds, LabelTest(name))
  {
    kept := [];
    for i := 0 to |seeds|
      invariant kept == Filter(seeds[..i], LabelTest(name))
    {
      FilterPushBack(seeds, i, LabelTest(name));
      if seeds[i].body.labelText == name {
        kept := kept + [seeds[i]];
      }
    }
    assert seeds[..|seeds|] == seeds;
  }

  ghost function ContentsOf(s: GraphSnapshot): Contents
  {
    Contents(s.nodes, s.edges, s.printer)
  }

  /** What every snapshot of a store satisfies. */
  ghost predicate Fit(s: GraphSnapshot)
    reads s
  {
    s.Indexed() && IdAscending(s.nodes) && IdAscending(s.edges) && EndpointsPresent(s.nodes, s.edges)
  }

  lemma {:induction false} SeedsAscend(v: Contents, ast: QueryAst, bound: Option<Predicate>)
    requires IdAscending(v.nodes) && SeedsOf(v, ast, bound).Ok?
    ensures IdAscending(SeedsOf(v, ast, bound).value)
  {
    hide Fails;
    FilterKeepsIds(v.nodes, LabelTest(ast.sourceLabel));
    FilterKeepsIds(Filter(v.nodes, LabelTest(ast.sourceLabel)), MatchTest(bound));
    if bound.Some? {
      var having := PropertyTest(bound.value.key, bound.value.value, v.printer);
      FilterKeepsIds(v.nodes, having);
      FilterKeepsIds(Filter(v.nodes, having), LabelTest(ast.sourceLabel));
    }
  }

  /** Index seek for equality, label scan and filter otherwise; then by id. */
  method FindSeeds(s: GraphSnapshot, ast: QueryAst, bound: Option<Predicate>, mode: ExecutionMode) returns (r: Result<seq<Node>>)
    requires Fit(s)
    ensures r == SeedsOf(ContentsOf(s), ast, bound)
  {
    hide GraphSnapshot.Indexed, EndpointsPresent, Filtered, Filter;
    var seeds;
    if bound.Some? && bound.value.op == Equal {
      seeds := s.NodesWithProperty(bound.value.key, bound.value.value);
      seeds := KeepLabelled(seeds, ast.sourceLabel);
    } else {
      seeds := s.NodesWithLabel(ast.sourceLabel);
      if bound.Some? {
        var filtered;
        if mode == ParallelDeterministic {
          filtered := FilterSeedsInParallel(seeds, bound);
        } else {
          filtered := FilterSeeds(seeds, bound);
        }
        if filtered.Err? {
          return filtered;
        }
        seeds := filtered.value;
      } else {
        NothingFiltered(seeds);
      }
    }
    SeedsAscend(ContentsOf(s), ast, bound);
    var sorted := SortById(seeds);
    IdAscendingUnique(sorted, seeds);
    return Ok(sorted);
  }

  // ---- expanding ----

  method ExpandSeed(s: GraphSnapshot, plan: Plan, seed: u64, c: Collector) returns (r: Result<()>)
    requires Fit(s) && plan.t.edges == s.edges && c.InBudget()
    modifies c
    ensures var total := Join(old(c.Gathered()), SeedYield(plan, seed));
            && (r.Ok? ==> Affordable(c.budget, total) && c.Gathered() == total)
            && (r.Err? ==> Explains(r.error, c.budget, total))
  {
    hide GraphSnapshot.Indexed, IdAscending, EndpointsPresent, PathYield, StepYield, ScanRow;
    match plan.mode
    case Scan => r := c.Emit(ScanRow(seed));
    case Step => r := StepFrom(s, plan, seed, c);
    case Path => r := SearchFrom(s, plan, seed, c);
  }

  /** Failing on the first part of the seeds is failing on all of them. */
  lemma ExplainsMore(error: ErrorCode, budget: Budget, before: Yield, some: Yield, more: Yield)
    requires Explains(error, budget, Join(before, some))
    ensures Explains(error, budget, Join(before, Join(some, more)))
  {
  }

  lemma {:induction false} TotalPushBack(plan: Plan, seeds: seq<Node>, k: nat)
    requires k < |seeds|
    ensures TotalYield(plan, seeds[..k + 1]) == Join(TotalYield(plan, seeds[..k]), SeedYield(plan, seeds[k].id))
    ensures TotalYield(plan, seeds) == Join(TotalYield(plan, seeds[..k + 1]), TotalYield(plan, seeds[k + 1..]))
  {
    hide SeedYield;
    assert seeds[..k + 1][..k] == seeds[..k];
    assert seeds == seeds[..k + 1] + seeds[k + 1..];
    TotalYieldConcat(plan, seeds[..k + 1], seeds[k + 1..]);
  }

  /** Expands seeds one after the other into one collector. */
  method ExpandSeeds(s: GraphSnapshot, plan: Plan, seeds: seq<Node>, c: Collector) returns (r: Result<()>)
    requires Fit(s) && plan.t.edges == s.edges && c.InBudget()
    modifies c
    ensures var total := Join(old(c.Gathered()), TotalYield(plan, seeds));
            && (r.Ok? ==> Affordable(c.budget, total) && c.Gathered() == total)
            && (r.Err? ==> Explains(r.error, c.budget, total))
  {
    hide Fit, TotalYield, SeedYield, Explains;
    ghost var before := c.Gathered();
    NothingExpanded(plan, seeds[..0]);
    NothingJoined(before);
    for k := 0 to |seeds|
      invariant c.InBudget() && c.Gathered() == Join(before, TotalYield(plan, seeds[..k]))
    {
      TotalPushBack(plan, seeds, k);
      JoinAssociative(before, TotalYield(plan, seeds[..k]), SeedYield(plan, seeds[k].id));
      r := ExpandSeed(s, plan, seeds[k].id, c);
      if r.Err? {
        ExplainsMore(r.error, c.budget, before, TotalYield(plan, seeds[..k + 1]), TotalYield(plan, seeds[k + 1..]));
        return;
      }
    }
    assert seeds[..|seeds|] == seeds;
    return Ok(());
  }

  /** A worker's rows, work units and error. */
  datatype Share = Share(rows: seq<Row>, work: nat, error: Option<ErrorCode>)

  ghost predicate ShareOf(share: Share, total: Yield)
  {
    match share.error
    case None => total == Yield(share.rows, share.work, true, true)
    case Some(error) => Explains(error, Unlimited, total)
  }

  /** One worker: a chunk of the seeds into a collector of its own, without a budget. */
  method RunWorker(s: GraphSnapshot, plan: Plan, seeds: seq<Node>) returns (share: Share)
    requires Fit(s) && plan.t.edges == s.edges
    ensures ShareOf(share, TotalYield(plan, seeds))
  {
    hide Fit, TotalYield, Explains;
    var c := new Collector(Unlimited);
    var r := ExpandSeeds(s, plan, seeds, c);
    NothingJoined(TotalYield(plan, seeds));
    share := Share(c.rows, c.work, if r.Ok? then None else Some(r.error));
  }

  /** Deals the seeds to workers and joins their shares in worker order. */
  method ExpandInParallel(s: GraphSnapshot, plan: Plan, seeds: seq<Node>) returns (merged: Share)
    requires Fit(s) && plan.t.edges == s.edges && |seeds| >= 2
    ensures ShareOf(merged, TotalYield(plan, seeds))
  {
    hide Fit, TotalYield, Explains, ShareOf, Covers;
    var ranges := Split(|seeds|);
    RangesInBounds(ranges, |seeds|);
    var shares: seq<Share> := [];
    for k := 0 to |ranges|
      invariant |shares| == k
      invariant forall i | 0 <= i < k :: ShareOf(shares[i], TotalYield(plan, seeds[ranges[i].begin..ranges[i].end]))
    {
      var share := RunWorker(s, plan, seeds[ranges[k].begin..ranges[k].end]);
      shares := shares + [share];
    }
    merged := Share([], 0, None);
    StartsAtZero(ranges, |seeds|);
    NothingShared(plan, seeds);
    for k := 0 to |ranges|
      invariant merged.error.None?
      invariant ShareOf(merged, TotalYield(plan, seeds[..if k == 0 then 0 else ranges[k - 1].end]))
    {
      var share := shares[k];
      SliceGrows(seeds, ranges, k);
      SharesJoin(plan, seeds, ranges[k].begin, ranges[k].end, merged, share);
      if share.error.Some? {
        return Share([], 0, share.error);
      }
      merged := Share(merged.rows + share.rows, merged.work + share.work, None);
    }
    EndsAtAll(ranges, |seeds|);
    assert seeds[..|seeds|] == seeds;
  }

  lemma NothingShared(plan: Plan, seeds: seq<Node>)
    ensures ShareOf(Share([], 0, None), TotalYield(plan, seeds[..0]))
  {
  }

  /** Joining the next worker's share, or passing its error on. */
  lemma {:induction false} SharesJoin(plan: Plan, seeds: seq<Node>, begin: nat, end: nat, merged: Share, share: Share)
    requires begin <= end <= |seeds| && merged.error.None?
    requires ShareOf(merged, TotalYield(plan, seeds[..begin]))
    requires ShareOf(share, TotalYield(plan, seeds[begin..end]))
    ensures share.error.None? ==>
              ShareOf(Share(merged.rows + share.rows, merged.work + share.work, None), TotalYield(plan, seeds[..end]))
    ensures share.error.Some? ==> ShareOf(Share([], 0, share.error), TotalYield(plan, seeds))
  {
    hide TotalYield;
    assert seeds[..end] == seeds[..begin] + seeds[begin..end];
    assert seeds == seeds[..end] + seeds[end..];
    TotalYieldConcat(plan, seeds[..begin], seeds[begin..end]);
    TotalYieldConcat(plan, seeds[..end], seeds[end..]);
  }

  // ---- ordering ----

  predicate CheaperRow(a: Row, b: Row)
  {
    a.cost < b.cost || (a.cost == b.cost && Less(a.key, b.key))
  }

  function ByCost(): (Row, Row) -> bool
  {
    (a: Row, b: Row) => CheaperRow(a, b)
  }

  lemma {:induction false} ByCostOrder()
    ensures StrictWeakOrder(ByCost())
  {
    forall a, b | ByCost()(a, b)
      ensures !ByCost()(b, a)
    {
      LessTrichotomy(a.key, b.key);
    }
    forall a, b, c | ByCost()(a, c)
      ensures ByCost()(a, b) || ByCost()(b, c)
    {
      LessTrichotomy(a.key, b.key);
      LessTrichotomy(b.key, c.key);
      if Less(b.key, a.key) && Less(a.key, c.key) {
        LessTransitive(b.key, a.key, c.key);
      }
    }
  }

  function Reversed<T>(s: seq<T>): (r: seq<T>)
    ensures |r| == |s| && forall i | 0 <= i < |s| :: r[i] == s[|s| - 1 - i]
  {
    seq(|s|, i requires 0 <= i < |s| => s[|s| - 1 - i])
  }

  lemma ReversedTwice<T>(s: seq<T>)
    ensures Reversed(Reversed(s)) == s
  {
  }

  /** The rows as they were before an explicit descending order turned them round. */
  function Upright(ast: QueryAst, rows: seq<Row>): seq<Row>
  {
    if ast.explicitOrder && ast.orderDescending then Reversed(rows) else rows
  }

  predicate OrderedByCost(ast: QueryAst)
  {
    ast.mode == Path && ast.costProperty.Some?
  }

  /**
   The answers a query may give for a yield: the rows as expanded, or with COST any permutation of them that
   rises by cost and key; reversed when descending order is asked for.
   */
  ghost predicate IsAnswer(ast: QueryAst, y: Yield, rows: seq<Row>)
  {
    var upright := Upright(ast, rows);
    if OrderedByCost(ast) then multiset(upright) == multiset(y.rows) && Ordered(upright, ByCost())
    else upright == y.rows
  }

  method Arrange(ast: QueryAst, expanded: seq<Row>, ghost y: Yield) returns (rows: seq<Row>)
    requires expanded == y.rows
    ensures IsAnswer(ast, y, rows)
  {
    hide ByCost;
    rows := expanded;
    if OrderedByCost(ast) {
      ByCostOrder();
      rows := Sort(rows, ByCost());
    }
    ReversedTwice(rows);
    if ast.explicitOrder && ast.orderDescending {
      rows := Reversed(rows);
    }
  }

  function ValuesOf(rows: seq<Row>): (r: seq<Value>)
    ensures |r| == |rows| && forall i | 0 <= i < |rows| :: r[i] == rows[i].value
  {
    seq(|rows|, i requires 0 <= i < |rows| => rows[i].value)
  }

  function KeysOf(rows: seq<Row>): (r: seq<Text>)
    ensures |r| == |rows| && forall i | 0 <= i < |rows| :: r[i] == rows[i].key
  {
    seq(|rows|, i requires 0 <= i < |rows| => rows[i].key)
  }

  // ---- execution ----

  ghost function Expanded(v: Contents, ast: QueryAst, limits: QueryLimits, add: CostAdder, seeds: seq<Node>): Yield
  {
    TotalYield(PlanOf(v.edges, ast, limits, add), seeds)
  }

  /** When a query succeeds; the execution mode plays no part. */
  ghost predicate Succeeds(v: Contents, ast: QueryAst, limits: QueryLimits, parameters: PropertyMap, add: CostAdder)
  {
    var seeds := Seeding(v, ast, parameters);
    && seeds.Ok?
    && (ast.mode == Path ==> ast.pathHops <= limits.pathHopLimit)
    && Affordable(Limited(limits.workLimit, limits.rowLimit), Expanded(v, ast, limits, add, seeds.value))
  }

  /** Why a query fails: no seeds to be had, too deep a search, or an expansion that is not affordable. */
  ghost predicate Justifies(error: ErrorCode, v: Contents, ast: QueryAst, limits: QueryLimits, parameters: PropertyMap, add: CostAdder)
  {
    match Seeding(v, ast, parameters)
    case Err(e) => error == e
    case Ok(seeds) =>
      if ast.mode == Path && ast.pathHops > limits.pathHopLimit then error == ResourceLimit
      else Explains(error, Limited(limits.workLimit, limits.rowLimit), Expanded(v, ast, limits, add, seeds))
  }

  /** A cursor at the start of an answer. */
  ghost predicate Offers(cursor: ResultCursor, rows: seq<Row>)
    reads cursor
  {
    && cursor.Valid() && !cursor.cancelled && cursor.delivered == []
    && cursor.rows == ValuesOf(rows) && cursor.keys == KeysOf(rows)
  }

  /** Expands the seeds in the chosen mode and checks the totals of the workers against the limits. */
  method Expand(s: GraphSnapshot, plan: Plan, seeds: seq<Node>, limits: QueryLimits, mode: ExecutionMode)
    returns (r: Result<seq<Row>>)
    requires Fit(s) && plan.t.edges == s.edges
    ensures var total := TotalYield(plan, seeds);
            && (r.Ok? <==> Affordable(Limited(limits.workLimit, limits.rowLimit), total))
            && (r.Ok? ==> r.value == total.rows)
            && (r.Err? ==> Explains(r.error, Limited(limits.workLimit, limits.rowLimit), total))
  {
    hide Fit, TotalYield;
    if mode == ParallelDeterministic && plan.mode != Scan && |seeds| >= 2 {
      var share := ExpandInParallel(s, plan, seeds);
      if share.error.Some? {
        return Err(share.error.value);
      }
      if share.work > limits.workLimit {
        return Err(ResourceLimit);
      }
      if |share.rows| > limits.rowLimit {
        return Err(ResourceLimit);
      }
      return Ok(share.rows);
    }
    var c := new Collector(Limited(limits.workLimit, limits.rowLimit));
    NothingJoined(TotalYield(plan, seeds));
    var expanded := ExpandSeeds(s, plan, seeds, c);
    if expanded.Err? {
      return Err(expanded.error);
    }
    return Ok(c.rows);
  }

  /** Runs a query on a snapshot. */
  method Execute(s: GraphSnapshot, ast: QueryAst, options: QueryOptions, add: CostAdder)
    returns (r: Result<ResultCursor>, ghost rows: seq<Row>)
    requires Fit(s)
    ensures r.Ok? <==> Succeeds(ContentsOf(s), ast, options.limits, options.parameters, add)
    ensures r.Err? ==> Justifies(r.error, ContentsOf(s), ast, options.limits, options.parameters, add)
    ensures r.Ok? ==>
              && fresh(r.value) && Offers(r.value, rows)
              && IsAnswer(ast, Expanded(ContentsOf(s), ast, options.limits, add,
                                        Seeding(ContentsOf(s), ast, options.parameters).value), rows)
  {
    hide Fit, SeedsOf, TotalYield, Affordable, IsAnswer, Explains;
    rows := [];
    var bound := BindPredicate(ast.where, options.parameters);
    if bound.Err? {
      return Err(bound.error), rows;
    }
    var seeds := FindSeeds(s, ast, bound.value, options.mode);
    if seeds.Err? {
      return Err(seeds.error), rows;
    }
    if ast.mode == Path && ast.pathHops > options.limits.pathHopLimit {
      return Err(ResourceLimit), rows;
    }
    var plan := PlanOf(s.edges, ast, options.limits, add);
    var expanded := Expand(s, plan, seeds.value, options.limits, options.mode);
    if expanded.Err? {
      return Err(expanded.error), rows;
    }
    var arranged := Arrange(ast, expanded.value, Expanded(ContentsOf(s), ast, options.limits, add, seeds.value));
    rows := arranged;
    var cursor := new ResultCursor(ValuesOf(arranged), KeysOf(arranged));
    r := Ok(cursor);
  }
}
