/** What a query answers: the listing of its trails, ordered as asked. */
module QueryMeaning {
  import opened Results
  import opened Values
  import opened Ordering
  import opened Snapshots
  import opened Comparison
  import opened Paths
  import opened Expansion
  import opened Cursors
  import opened Execution
  import opened Trails

  /** The rows as they stood before ORDER DESC turned them round. */
  ghost predicate IsUpright(ast: QueryAst, upright: seq<Row>, rows: seq<Row>)
  {
    && |upright| == |rows|
    && forall i | 0 <= i < |rows| ::
         upright[i] == rows[if ast.explicitOrder && ast.orderDescending then |rows| - 1 - i else i]
  }

  /** Cheaper rows first, rows of equal cost by key. */
  ghost predicate RisesByCost(rows: seq<Row>)
  {
    forall i, j | 0 <= i < j < |rows| ::
      rows[i].cost < rows[j].cost || (rows[i].cost == rows[j].cost && !Less(rows[j].key, rows[i].key))
  }

  /**
   The rows of an answer are those of the trails from the seeds, each once, in the order of the trails; with COST
   in an order that rises by cost and key; and turned round by ORDER DESC.
   */
  ghost predicate AnswersQuery(edges: seq<Edge>, ast: QueryAst, add: CostAdder, seeds: seq<Node>, rows: seq<Row>,
                               trails: seq<Trail>, listed: seq<Row>, upright: seq<Row>)
  {
    && ListsTrails(edges, ast, seeds, trails) && ListsRows(edges, ast, add, trails, listed)
    && IsUpright(ast, upright, rows)
    && if ast.mode == Path && ast.costProperty.Some? then multiset(upright) == multiset(listed) && RisesByCost(upright)
       else upright == listed
  }

  lemma {:induction false} CostOrderRises(rows: seq<Row>)
    requires Ordered(rows, ByCost())
    ensures RisesByCost(rows)
  {
    forall i, j | 0 <= i < j < |rows|
      ensures rows[i].cost < rows[j].cost || (rows[i].cost == rows[j].cost && !Less(rows[j].key, rows[i].key))
    {
      assert !ByCost()(rows[j], rows[i]);
    }
  }

  lemma UprightMeans(ast: QueryAst, rows: seq<Row>)
    ensures IsUpright(ast, Upright(ast, rows), rows)
  {
  }

  /** Whatever the mode and the limits, a successful query answers with the listing of its trails. */
  lemma {:induction false} AnswerMeans(v: Contents, ast: QueryAst, limits: QueryLimits, parameters: PropertyMap,
                                       add: CostAdder, rows: seq<Row>)
    returns (trails: seq<Trail>, listed: seq<Row>, upright: seq<Row>)
    requires IdAscending(v.nodes) && IdAscending(v.edges) && Succeeds(v, ast, limits, parameters, add)
    requires IsAnswer(ast, Expanded(v, ast, limits, add, Seeding(v, ast, parameters).value), rows)
    ensures AnswersQuery(v.edges, ast, add, Seeding(v, ast, parameters).value, rows, trails, listed, upright)
  {
    hide ListsTrails, ListsRows, IdAscending, BindPredicate, SeedsOf, AllTrails, TotalYield, ByCost, Ordered, RisesByCost, IsUpright,
      NeverShrinks, Upright;
    var seeds := Seeding(v, ast, parameters).value;
    var plan := PlanOf(v.edges, ast, limits, add);
    SeedsAscend(v, ast, BindPredicate(ast.where, parameters).value);
    TotalTrails(v.edges, ast, limits, add, seeds);
    TotalRows(v.edges, ast, limits, add, seeds);
    trails, listed, upright := AllTrails(plan, seeds), TotalYield(plan, seeds).rows, Upright(ast, rows);
    UprightMeans(ast, rows);
    if ast.mode == Path && ast.costProperty.Some? {
      CostOrderRises(upright);
    }
  }

  /** With COST the costs of an answer rise from row to row, or fall with ORDER DESC, and equal costs are in key order. */
  lemma {:induction false} CostOrder(ast: QueryAst, y: Yield, rows: seq<Row>, i: nat, j: nat)
    requires IsAnswer(ast, y, rows) && ast.mode == Path && ast.costProperty.Some? && i < j < |rows|
    ensures var (first, second) := if ast.explicitOrder && ast.orderDescending then (rows[j], rows[i]) else (rows[i], rows[j]);
            first.cost <= second.cost && (first.cost == second.cost ==> first.key == second.key || Less(first.key, second.key))
  {
    hide Less;
    var upright := Upright(ast, rows);
    CostOrderRises(upright);
    UprightMeans(ast, rows);
    var n := |rows| - 1;
    LessTrichotomy(rows[i].key, rows[j].key);
    if ast.explicitOrder && ast.orderDescending {
      assert rows[i] == upright[n - i] && rows[j] == upright[n - j] && n - j < n - i;
    }
  }

  /** Running a query hands out a cursor on such an answer, in either mode. */
  method ExecuteAnswers(s: GraphSnapshot, ast: QueryAst, options: QueryOptions, add: CostAdder)
    returns (r: Result<ResultCursor>, ghost rows: seq<Row>, ghost trails: seq<Trail>, ghost listed: seq<Row>,
             ghost upright: seq<Row>)
    requires Fit(s)
    ensures r.Ok? ==>
              && Seeding(ContentsOf(s), ast, options.parameters).Ok?
              && AnswersQuery(s.edges, ast, add, Seeding(ContentsOf(s), ast, options.parameters).value, rows, trails, listed,
                              upright)
              && |r.value.rows| == |r.value.keys| == |rows|
              && (forall i | 0 <= i < |rows| :: r.value.rows[i] == rows[i].value && r.value.keys[i] == rows[i].key)
  {
    hide Affordable, Justifies, IsAnswer, Seeding, Expanded, AnswersQuery, IdAscending, GraphSnapshot.Indexed, NeverShrinks;
    r, rows := Execute(s, ast, options, add);
    trails, listed, upright := [], [], [];
    if r.Ok? {
      trails, listed, upright := AnswerMeans(ContentsOf(s), ast, options.limits, options.parameters, add, rows);
    }
  }
}
