/**
 Which nodes a query starts from, in terms of the snapshot, the predicate and the parameters alone: index seek,
 label scan, binding and comparison together.
 */
module SeedMeaning {
  import opened Results
  import opened Values
  import opened Canonical
  import opened Ordering
  import opened Snapshots
  import opened Comparison
  import opened Execution

  /** How two values compare under an operator other than equality, if they can be compared. */
  predicate Holds(v: Value, op: PredicateOp, w: Value)
  {
    if IsNumeric(v) && IsNumeric(w) then
      var a, b := NumericValue(v), NumericValue(w);
      match op
      case Equal => a == b
      case NotEqual => a != b
      case Below => a < b
      case BelowEqual => a <= b
      case Above => a > b
      case AboveEqual => a >= b
    else if v.TextValue? && w.TextValue? then
      match op
      case Equal => v.text == w.text
      case NotEqual => v.text != w.text
      case Below => Less(v.text, w.text)
      case BelowEqual => Less(v.text, w.text) || v.text == w.text
      case Above => Less(w.text, v.text)
      case AboveEqual => Less(w.text, v.text) || v.text == w.text
    else if v.BoolValue? && w.BoolValue? then (v.flag == w.flag) == (op == Equal)
    else op == NotEqual
  }

  /** The pairs a predicate cannot decide: non-finite numbers, and order on booleans or across types. */
  predicate Undecidable(v: Value, op: PredicateOp, w: Value)
  {
    if IsNumeric(v) && IsNumeric(w) then !FiniteNumber(v) || !FiniteNumber(w)
    else !(v.TextValue? && w.TextValue?) && op != Equal && op != NotEqual
  }

  /** Comparison decides exactly the decidable pairs, and as the operator says. */
  lemma {:induction false} CompareMeans(v: Value, op: PredicateOp, w: Value)
    ensures CompareProperty(v, op, w) == if Undecidable(v, op, w) then Err(QueryType) else Ok(Holds(v, op, w))
  {
    hide NumericValue, FiniteNumber;
    if v.TextValue? && w.TextValue? {
      LessTrichotomy(v.text, w.text);
    }
  }

  /** The value a predicate compares with: its literal, or the parameter it names. */
  ghost predicate Compares(p: Predicate, parameters: PropertyMap, w: Value)
  {
    match p.parameter
    case None => w == p.value
    case Some(name) => Property(name, w) in parameters
  }

  /** A node satisfies a predicate under a property that it has; equality goes by the printed value. */
  ghost predicate Satisfies(n: Node, p: Predicate, w: Value, printer: DoublePrinter)
  {
    exists v :: Property(p.key, v) in n.properties
                && if p.op == Equal then CanonicalValue(v, printer) == CanonicalValue(w, printer) else Holds(v, p.op, w)
  }

  ghost predicate IsSeed(v: Contents, ast: QueryAst, parameters: PropertyMap, n: Node)
  {
    && n in v.nodes && n.body.labelText == ast.sourceLabel
    && (ast.where.Some? ==>
          exists w :: Compares(ast.where.value, parameters, w) && Satisfies(n, ast.where.value, w, v.printer))
  }

  /** The predicate has no value to compare with, or meets a labelled node that it cannot decide. */
  ghost predicate SeedsFail(v: Contents, ast: QueryAst, parameters: PropertyMap)
  {
    && ast.where.Some?
    && var p := ast.where.value;
       || (p.parameter.Some? && !HasKey(parameters, p.parameter.value))
       || (p.op != Equal
           && exists n, u, w :: && n in v.nodes && n.body.labelText == ast.sourceLabel && Property(p.key, u) in n.properties
                                && Compares(p, parameters, w) && Undecidable(u, p.op, w))
  }

  lemma {:induction false} LookupMeans(ps: PropertyMap, key: Text, v: Value)
    ensures Lookup(ps, key) == Some(v) <==> Property(key, v) in ps
  {
    if Property(key, v) in ps {
      var i :| 0 <= i < |ps| && ps[i] == Property(key, v);
      LookupEntry(ps, i);
    }
  }

  /** What binding makes of a predicate. */
  lemma {:induction false} BindMeans(ast: QueryAst, parameters: PropertyMap)
    requires ast.where.Some?
    ensures var p, bound := ast.where.value, BindPredicate(ast.where, parameters);
            && (bound.Err? <==> p.parameter.Some? && !HasKey(parameters, p.parameter.value))
            && (bound.Err? ==> bound.error == QueryType)
            && (bound.Ok? ==> && bound.value.Some? && bound.value.value.key == p.key && bound.value.value.op == p.op
                              && forall w :: Compares(p, parameters, w) <==> w == bound.value.value.value)
  {
    var p := ast.where.value;
    if p.parameter.Some? {
      forall w
        ensures Lookup(parameters, p.parameter.value) == Some(w) <==> Property(p.parameter.value, w) in parameters
      {
        LookupMeans(parameters, p.parameter.value, w);
      }
    }
  }

  lemma {:induction false} MatchMeans(n: Node, p: Predicate)
    requires p.op != Equal
    ensures Fails(n, Some(p)) <==> exists u :: Property(p.key, u) in n.properties && Undecidable(u, p.op, p.value)
    ensures !Fails(n, Some(p)) ==>
              (MatchTest(Some(p))(n) <==> exists u :: Property(p.key, u) in n.properties && Holds(u, p.op, p.value))
  {
    hide CompareProperty, Holds, Undecidable;
    var found := Lookup(n.properties, p.key);
    forall u
      ensures found == Some(u) <==> Property(p.key, u) in n.properties
    {
      LookupMeans(n.properties, p.key, u);
    }
    if found.Some? {
      CompareMeans(found.value, p.op, p.value);
      assert Property(p.key, found.value) in n.properties;
    }
  }

  lemma {:induction false} SoughtMeans(n: Node, p: Predicate, printer: DoublePrinter)
    ensures PropertyTest(p.key, p.value, printer)(n)
       <==> exists u :: Property(p.key, u) in n.properties && CanonicalValue(u, printer) == CanonicalValue(p.value, printer)
  {
    hide CanonicalValue;
    var found := Lookup(n.properties, p.key);
    forall u
      ensures found == Some(u) <==> Property(p.key, u) in n.properties
    {
      LookupMeans(n.properties, p.key, u);
    }
  }

  lemma {:induction false} LabelledMembers(v: Contents, ast: QueryAst, n: Node)
    ensures n in Filter(v.nodes, LabelTest(ast.sourceLabel)) <==> n in v.nodes && n.body.labelText == ast.sourceLabel
  {
    FilterMembers(v.nodes, LabelTest(ast.sourceLabel));
  }

  lemma {:induction false} FilteredMeans(nodes: seq<Node>, condition: Option<Predicate>)
    ensures Filtered(nodes, condition).Err? <==> exists n :: n in nodes && Fails(n, condition)
    ensures Filtered(nodes, condition).Err? ==> Filtered(nodes, condition).error == QueryType
    ensures Filtered(nodes, condition).Ok? ==>
              forall n :: n in Filtered(nodes, condition).value <==> n in nodes && MatchTest(condition)(n)
  {
    hide PropertyMatches, Fails;
    FilterMembers(nodes, MatchTest(condition));
    if n :| n in nodes && Fails(n, condition) {
      var i :| 0 <= i < |nodes| && nodes[i] == n;
      assert Fails(nodes[i], condition);
    }
    if i :| 0 <= i < |nodes| && Fails(nodes[i], condition) {
      assert nodes[i] in nodes;
    }
  }

  lemma NoConditionMatches(n: Node)
    ensures !Fails(n, None) && MatchTest(None)(n)
  {
  }

  /** Without a predicate the seeds are the labelled nodes. */
  lemma {:induction false} AllLabelled(v: Contents, ast: QueryAst, parameters: PropertyMap)
    requires ast.where.None?
    ensures Seeding(v, ast, parameters).Ok? && !SeedsFail(v, ast, parameters)
    ensures forall n :: n in Seeding(v, ast, parameters).value <==> IsSeed(v, ast, parameters, n)
  {
    hide Filtered, Filter, Fails, LabelTest, MatchTest;
    var labelled := Filter(v.nodes, LabelTest(ast.sourceLabel));
    FilteredMeans(labelled, None);
    forall n: Node
      ensures !Fails(n, None) && MatchTest(None)(n)
      ensures n in labelled <==> n in v.nodes && n.body.labelText == ast.sourceLabel
    {
      NoConditionMatches(n);
      LabelledMembers(v, ast, n);
    }
  }

  /** An equality predicate never fails on a node; it asks for an equal printed value. */
  lemma {:induction false} SoughtSeeds(v: Contents, ast: QueryAst, bound: Predicate, n: Node)
    ensures n in Sought(v.nodes, ast.sourceLabel, bound.key, bound.value, v.printer)
       <==> n in v.nodes && n.body.labelText == ast.sourceLabel
            && exists u :: Property(bound.key, u) in n.properties
                           && CanonicalValue(u, v.printer) == CanonicalValue(bound.value, v.printer)
  {
    hide CanonicalValue, PropertyTest;
    var having := PropertyTest(bound.key, bound.value, v.printer);
    FilterMembers(v.nodes, having);
    FilterMembers(Filter(v.nodes, having), LabelTest(ast.sourceLabel));
    SoughtMeans(n, bound, v.printer);
  }

  lemma {:induction false} SoughtAreSeeds(v: Contents, ast: QueryAst, parameters: PropertyMap, bound: Predicate)
    requires ast.where.Some? && ast.where.value.op == bound.op == Equal && ast.where.value.key == bound.key
    requires forall w :: Compares(ast.where.value, parameters, w) <==> w == bound.value
    ensures forall n :: n in Sought(v.nodes, ast.sourceLabel, bound.key, bound.value, v.printer)
                   <==> IsSeed(v, ast, parameters, n)
  {
    hide Sought, CanonicalValue, Compares, Holds;
    forall n: Node
      ensures n in Sought(v.nodes, ast.sourceLabel, bound.key, bound.value, v.printer) <==> IsSeed(v, ast, parameters, n)
    {
      SoughtSeeds(v, ast, bound, n);
      assert Satisfies(n, ast.where.value, bound.value, v.printer)
        <==> exists u :: Property(bound.key, u) in n.properties
                         && CanonicalValue(u, v.printer) == CanonicalValue(bound.value, v.printer);
    }
  }

  lemma {:induction false} ScannedAreSeeds(v: Contents, ast: QueryAst, parameters: PropertyMap, bound: Predicate)
    requires ast.where.Some? && ast.where.value.op == bound.op != Equal && ast.where.value.key == bound.key
    requires forall w :: Compares(ast.where.value, parameters, w) <==> w == bound.value
    ensures var r := Scanned(v.nodes, ast.sourceLabel, Some(bound));
            && (r.Err? <==> exists n, u :: && n in v.nodes && n.body.labelText == ast.sourceLabel
                                           && Property(bound.key, u) in n.properties && Undecidable(u, bound.op, bound.value))
            && (r.Err? ==> r.error == QueryType)
            && (r.Ok? ==> forall n :: n in r.value <==> IsSeed(v, ast, parameters, n))
  {
    hide Filtered, Filter, Fails, LabelTest, MatchTest, CanonicalValue, Compares, Holds, Undecidable;
    var labelled, test := Filter(v.nodes, LabelTest(ast.sourceLabel)), Some(bound);
    FilteredMeans(labelled, test);
    forall n: Node
      ensures n in labelled <==> n in v.nodes && n.body.labelText == ast.sourceLabel
      ensures Fails(n, test) <==> exists u :: Property(bound.key, u) in n.properties && Undecidable(u, bound.op, bound.value)
      ensures !Fails(n, test) ==>
                (MatchTest(test)(n) <==> exists u :: Property(bound.key, u) in n.properties && Holds(u, bound.op, bound.value))
    {
      LabelledMembers(v, ast, n);
      MatchMeans(n, bound);
    }
    var r := Scanned(v.nodes, ast.sourceLabel, test);
    if r.Ok? {
      forall n: Node
        ensures n in r.value <==> IsSeed(v, ast, parameters, n)
      {
        assert Satisfies(n, ast.where.value, bound.value, v.printer)
          <==> exists u :: Property(bound.key, u) in n.properties && Holds(u, bound.op, bound.value);
      }
    }
  }

  /**
   The seeds of a query, by id: the labelled nodes that satisfy its predicate. There are none to be had exactly
   when a parameter is missing or a labelled node cannot be compared.
   */
  lemma {:induction false} SeedsMean(v: Contents, ast: QueryAst, parameters: PropertyMap)
    requires IdAscending(v.nodes)
    ensures var seeds := Seeding(v, ast, parameters);
            && (seeds.Err? <==> SeedsFail(v, ast, parameters)) && (seeds.Err? ==> seeds.error == QueryType)
            && (seeds.Ok? ==> IdAscending(seeds.value) && forall n :: n in seeds.value <==> IsSeed(v, ast, parameters, n))
  {
    hide Sought, Scanned, IsSeed, Compares, Undecidable, BindPredicate, IdAscending;
    var seeds := Seeding(v, ast, parameters);
    if ast.where.None? {
      AllLabelled(v, ast, parameters);
      UnboundStays(ast, parameters);
    } else {
      var bound := BindPredicate(ast.where, parameters);
      BindMeans(ast, parameters);
      if bound.Ok? {
        if bound.value.value.op == Equal {
          SoughtAreSeeds(v, ast, parameters, bound.value.value);
        } else {
          ScannedAreSeeds(v, ast, parameters, bound.value.value);
        }
      }
    }
    if seeds.Ok? {
      SeedsAscend(v, ast, BindPredicate(ast.where, parameters).value);
    }
  }

  lemma UnboundStays(ast: QueryAst, parameters: PropertyMap)
    requires ast.where.None?
    ensures BindPredicate(ast.where, parameters) == Ok(None)
  {
  }
}
