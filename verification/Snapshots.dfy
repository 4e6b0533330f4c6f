/**
 Snapshots: one commit and one valid time, materialized in id order with label, property and adjacency
 indexes. The naive view filters the replayed graph; the program sorts, breaks early and indexes.
 */
module Snapshots {
  import opened Bytes
  import opened Results
  import opened Values
  import opened Canonical
  import opened Ordering
  import opened Indexes
  import opened History

  // ---- the naive view ----

  function ActiveTest<B>(time: i64): View<B> -> bool
  {
    (v: View<B>) => v.interval.Contains(time)
  }

  function ValuesInOrder<B>(live: map<u64, View<B>>): (r: seq<View<B>>)
    ensures |r| == |InOrder(live.Keys)|
    ensures forall i | 0 <= i < |r| :: InOrder(live.Keys)[i] in live && r[i] == live[InOrder(live.Keys)[i]]
  {
    var ids := InOrder(live.Keys);
    seq(|ids|, i requires 0 <= i < |ids| => live[ids[i]])
  }

  function IdsOf<B>(views: seq<View<B>>): set<u64>
  {
    set i | 0 <= i < |views| :: views[i].id
  }

  function EndpointTest(ids: set<u64>): Edge -> bool
  {
    (e: Edge) => e.body.from in ids && e.body.to in ids
  }

  /** Live nodes active at the time, by id. */
  function NaiveNodes(g: Graph, time: i64): seq<Node>
  {
    Filter(ValuesInOrder(g.nodes), ActiveTest(time))
  }

  /** Live edges active at the time whose endpoints are both active, by id. */
  function NaiveEdges(g: Graph, time: i64): seq<Edge>
  {
    Filter(Filter(ValuesInOrder(g.edges), ActiveTest(time)), EndpointTest(IdsOf(NaiveNodes(g, time))))
  }

  ghost predicate KeyedById<B>(live: map<u64, View<B>>)
  {
    forall id | id in live :: live[id].id == id
  }

  lemma {:induction false} ValuesInOrderFacts<B(!new)>(live: map<u64, View<B>>)
    requires KeyedById(live)
    ensures IdAscending(ValuesInOrder(live))
    ensures forall x :: x in ValuesInOrder(live) <==> x.id in live && live[x.id] == x
  {
    var ids, values := InOrder(live.Keys), ValuesInOrder(live);
    forall x: View<B> | x.id in live && live[x.id] == x
      ensures x in values
    {
      assert x.id in ids;
      var i :| 0 <= i < |ids| && ids[i] == x.id;
      assert values[i] == x;
    }
  }

  // ---- versions visible at a commit ----

  method FindLatest<B>(history: seq<Version<B>>, commit: nat) returns (latest: Option<Version<B>>)
    ensures latest == LatestAt(history, commit)
  {
    latest := None;
    for i := 0 to |history|
      invariant latest == LatestAt(history[..i], commit)
    {
      assert history[..i + 1][..i] == history[..i];
      if history[i].view.begin <= commit {
        latest := Some(history[i]);
      }
    }
    assert history[..|history|] == history;
  }

  /** Every version sits in the history of its own id. */
  ghost predicate Filed<B>(versions: VersionMap<B>)
  {
    forall id | id in versions :: forall v | v in versions[id] :: v.view.id == id
  }

  lemma {:induction false} LatestIsMember<B>(history: seq<Version<B>>, commit: nat)
    requires LatestAt(history, commit).Some?
    ensures LatestAt(history, commit).value in history
  {
    if history[|history| - 1].view.begin > commit {
      LatestIsMember(history[..|history| - 1], commit);
    }
  }

  lemma {:induction false} VisibleKeyed<B>(versions: VersionMap<B>, commit: nat)
    requires Filed(versions)
    ensures KeyedById(VisibleAt(versions, commit))
  {
    forall id | id in VisibleAt(versions, commit)
      ensures VisibleAt(versions, commit)[id].id == id
    {
      LatestIsMember(versions[id], commit);
    }
  }

  ghost predicate CollectedFrom<B(!new)>(views: seq<View<B>>, live: map<u64, View<B>>, ids: seq<u64>)
  {
    && IdAscending(views)
    && forall x :: x in views <==> x.id in live && live[x.id] == x && x.id in ids
  }

  lemma {:induction false} CollectNext<B(!new)>(views: seq<View<B>>, live: map<u64, View<B>>, ids: seq<u64>, k: nat)
    requires k < |ids| && Ascending(ids) && KeyedById(live) && CollectedFrom(views, live, ids[..k])
    ensures CollectedFrom(if ids[k] in live then views + [live[ids[k]]] else views, live, ids[..k + 1])
  {
    var id := ids[k];
    assert ids[..k + 1] == ids[..k] + [id];
    forall x | x in views
      ensures x.id < id
    {
      assert x.id in ids[..k];
    }
  }

  /** One pass over an ordered version map: the visible versions in id order. */
  method CollectVisible<B(!new)>(versions: VersionMap<B>, commit: nat) returns (views: seq<View<B>>)
    requires Filed(versions)
    ensures views == ValuesInOrder(VisibleAt(versions, commit))
  {
    hide LatestAt, Filed, ValuesInOrder;
    var ids := InOrder(versions.Keys);
    ghost var live := VisibleAt(versions, commit);
    VisibleKeyed(versions, commit);
    views := [];
    for k := 0 to |ids|
      invariant CollectedFrom(views, live, ids[..k])
    {
      var id := ids[k];
      assert id in ids && id in versions;
      var latest := FindLatest(versions[id], commit);
      CollectNext(views, live, ids, k);
      if latest.Some? && !latest.value.tombstone {
        assert id in live && live[id] == latest.value.view;
        views := views + [latest.value.view];
      } else {
        assert id !in live;
      }
    }
    assert ids[..|ids|] == ids;
    assert CollectedFrom(views, live, ids);
    ValuesInOrderFacts(live);
    IdAscendingUnique(views, ValuesInOrder(live));
  }

  // ---- interval selection ----

  datatype Entry = Entry(interval: Interval, stableId: u64, index: nat)

  function ByStart(): (Entry, Entry) -> bool
  {
    (a: Entry, b: Entry) =>
      if a.interval.start != b.interval.start then a.interval.start < b.interval.start
      else if a.interval.end != b.interval.end then a.interval.end < b.interval.end
      else a.stableId < b.stableId
  }

  lemma ByStartOrder()
    ensures StrictWeakOrder(ByStart())
  {
  }

  ghost predicate DistinctIds<B>(views: seq<View<B>>)
  {
    forall i, j | 0 <= i < j < |views| :: views[i].id != views[j].id
  }

  ghost predicate EntriesOf<B>(entries: seq<Entry>, candidates: seq<View<B>>)
  {
    && Distinct(entries)
    && (forall e | e in entries ::
          e.index < |candidates| && e == Entry(candidates[e.index].interval, candidates[e.index].id, e.index))
    && (forall i | 0 <= i < |candidates| :: Entry(candidates[i].interval, candidates[i].id, i) in entries)
  }

  method IndexIntervals<B>(candidates: seq<View<B>>) returns (sorted: seq<Entry>)
    ensures EntriesOf(sorted, candidates) && Ordered(sorted, ByStart())
  {
    var entries: seq<Entry> := [];
    for i := 0 to |candidates|
      invariant entries == seq(i, k requires 0 <= k < i => Entry(candidates[k].interval, candidates[k].id, k))
    {
      entries := entries + [Entry(candidates[i].interval, candidates[i].id, i)];
    }
    assert forall i | 0 <= i < |candidates| :: entries[i] == Entry(candidates[i].interval, candidates[i].id, i);
    ByStartOrder();
    sorted := Sort(entries, ByStart());
    MultisetMembers(sorted, entries);
    assert Distinct(entries);
    DistinctPermutation(entries, sorted);
    forall i | 0 <= i < |candidates|
      ensures Entry(candidates[i].interval, candidates[i].id, i) in sorted
    {
      assert entries[i] in entries;
    }
  }

  /** The walk has kept exactly the active candidates among the first k entries. */
  ghost predicate Walked<B>(candidates: seq<View<B>>, time: i64, sorted: seq<Entry>, k: nat, active: seq<View<B>>)
    requires EntriesOf(sorted, candidates) && k <= |sorted|
  {
    && DistinctIds(active)
    && (forall x | x in active ::
          exists j | 0 <= j < k :: x == EntryView(candidates, sorted, j) && x.interval.Contains(time))
    && (forall j | 0 <= j < k && sorted[j].interval.Contains(time) :: EntryView(candidates, sorted, j) in active)
  }

  ghost function EntryView<B>(candidates: seq<View<B>>, sorted: seq<Entry>, j: nat): View<B>
    requires EntriesOf(sorted, candidates) && j < |sorted|
  {
    assert sorted[j] in sorted;
    candidates[sorted[j].index]
  }

  lemma {:induction false} EntriesDiffer<B(!new)>(candidates: seq<View<B>>, sorted: seq<Entry>, i: nat, j: nat)
    requires EntriesOf(sorted, candidates) && DistinctIds(candidates)
    requires i < j < |sorted|
    ensures EntryView(candidates, sorted, i).id != EntryView(candidates, sorted, j).id
  {
    assert sorted[i] in sorted && sorted[j] in sorted && sorted[i] != sorted[j];
    assert sorted[i].index != sorted[j].index;
  }

  lemma {:induction false} WalkOn<B(!new)>(candidates: seq<View<B>>, time: i64, sorted: seq<Entry>, k: nat, active: seq<View<B>>)
    requires EntriesOf(sorted, candidates) && DistinctIds(candidates)
    requires k < |sorted| && Walked(candidates, time, sorted, k, active)
    ensures var v := EntryView(candidates, sorted, k);
            Walked(candidates, time, sorted, k + 1,
                   if sorted[k].interval.Contains(time) then active + [v] else active)
  {
    hide EntriesOf, EntryView;
    var v := EntryView(candidates, sorted, k);
    EntryIsCandidate(candidates, sorted, k);
    if sorted[k].interval.Contains(time) {
      forall x | x in active
        ensures x.id != v.id
      {
        var j :| 0 <= j < k && x == EntryView(candidates, sorted, j);
        EntriesDiffer(candidates, sorted, j, k);
      }
      forall x | x in active + [v]
        ensures exists j | 0 <= j < k + 1 :: x == EntryView(candidates, sorted, j) && x.interval.Contains(time)
      {
        if x in active {
          var j :| 0 <= j < k && x == EntryView(candidates, sorted, j) && x.interval.Contains(time);
        }
      }
    }
  }

  /** Walks the intervals by start and stops at the first that starts too late. */
  method SelectActive<B(!new)>(candidates: seq<View<B>>, time: i64) returns (active: seq<View<B>>)
    requires DistinctIds(candidates)
    ensures DistinctIds(active)
    ensures forall x :: x in active <==> x in candidates && x.interval.start <= time && time < x.interval.end
  {
    hide Distinct, Ordered;
    var sorted := IndexIntervals(candidates);
    active := [];
    var k := 0;
    assert Walked(candidates, time, sorted, 0, active);
    while k < |sorted| && sorted[k].interval.start <= time
      invariant k <= |sorted| && Walked(candidates, time, sorted, k, active)
    {
      WalkOn(candidates, time, sorted, k, active);
      assert sorted[k] in sorted;
      if sorted[k].interval.Contains(time) {
        active := active + [candidates[sorted[k].index]];
      }
      k := k + 1;
    }
    SelectionComplete(candidates, time, sorted, k, active);
  }

  lemma {:induction false} LateStarts(sorted: seq<Entry>, k: nat, time: i64)
    requires Ordered(sorted, ByStart())
    requires k < |sorted| && sorted[k].interval.start > time
    ensures forall j | k <= j < |sorted| :: sorted[j].interval.start > time
  {
    forall j | k < j < |sorted|
      ensures sorted[j].interval.start > time
    {
      assert !ByStart()(sorted[j], sorted[k]);
    }
  }

  lemma {:induction false} EntryFor<B(!new)>(candidates: seq<View<B>>, sorted: seq<Entry>, i: nat) returns (j: nat)
    requires EntriesOf(sorted, candidates) && i < |candidates|
    ensures j < |sorted| && EntryView(candidates, sorted, j) == candidates[i]
    ensures sorted[j].interval == candidates[i].interval
  {
    var e := Entry(candidates[i].interval, candidates[i].id, i);
    assert e in sorted;
    j :| 0 <= j < |sorted| && sorted[j] == e;
  }

  /** Nothing active starts after the place where the walk stopped. */
  lemma {:induction false} SelectionComplete<B(!new)>(candidates: seq<View<B>>, time: i64, sorted: seq<Entry>, k: nat, active: seq<View<B>>)
    requires EntriesOf(sorted, candidates) && Ordered(sorted, ByStart())
    requires k <= |sorted| && (k < |sorted| ==> sorted[k].interval.start > time)
    requires Walked(candidates, time, sorted, k, active)
    ensures forall x :: x in active <==> x in candidates && x.interval.Contains(time)
  {
    hide Distinct, Ordered, EntriesOf, DistinctIds, EntryView;
    if k < |sorted| {
      LateStarts(sorted, k, time);
    }
    forall x | x in candidates && x.interval.Contains(time)
      ensures x in active
    {
      var i :| 0 <= i < |candidates| && candidates[i] == x;
      var j := EntryFor(candidates, sorted, i);
      assert j < k;
    }
    forall x | x in active
      ensures x in candidates && x.interval.Contains(time)
    {
      var j :| 0 <= j < k && x == EntryView(candidates, sorted, j) && x.interval.Contains(time);
      EntryIsCandidate(candidates, sorted, j);
    }
  }

  lemma {:induction false} EntryIsCandidate<B>(candidates: seq<View<B>>, sorted: seq<Entry>, j: nat)
    requires EntriesOf(sorted, candidates) && j < |sorted|
    ensures EntryView(candidates, sorted, j) in candidates
    ensures EntryView(candidates, sorted, j).interval == sorted[j].interval
  {
    assert sorted[j] in sorted;
  }

  // ---- tests the indexes answer ----

  function LabelTest(name: Text): Node -> bool
  {
    (n: Node) => n.body.labelText == name
  }

  predicate HasIndexKey(n: Node, key: Text, printer: DoublePrinter)
  {
    exists i | 0 <= i < |n.properties| ::
      PropertyIndexKey(n.properties[i].key, n.properties[i].value, printer) == key
  }

  function KeyTest(printer: DoublePrinter): Text -> (Node -> bool)
  {
    (key: Text) => (n: Node) => HasIndexKey(n, key, printer)
  }

  /** The node has the property, with a value that prints the same. */
  function PropertyTest(key: Text, value: Value, printer: DoublePrinter): Node -> bool
  {
    (n: Node) =>
      var found := Lookup(n.properties, key);
      found.Some? && CanonicalValue(found.value, printer) == CanonicalValue(value, printer)
  }

  function OutTest(key: (u64, Text)): Edge -> bool
  {
    (e: Edge) => e.body.from == key.0 && e.body.kind == key.1
  }

  function InTest(key: (u64, Text)): Edge -> bool
  {
    (e: Edge) => e.body.to == key.0 && e.body.kind == key.1
  }

  lemma {:induction false} KeyTestIsPropertyTest(n: Node, key: Text, value: Value, printer: DoublePrinter)
    ensures HasIndexKey(n, PropertyIndexKey(key, value, printer), printer)
       <==> PropertyTest(key, value, printer)(n)
  {
    hide PropertyIndexKey, CanonicalValue;
    var found := Lookup(n.properties, key);
    if HasIndexKey(n, PropertyIndexKey(key, value, printer), printer) {
      var i :| 0 <= i < |n.properties|
               && PropertyIndexKey(n.properties[i].key, n.properties[i].value, printer)
                  == PropertyIndexKey(key, value, printer);
      IndexKeyInjective(n.properties[i].key, n.properties[i].value, key, value, printer);
      LookupEntry(n.properties, i);
    }
    if found.Some? && CanonicalValue(found.value, printer) == CanonicalValue(value, printer) {
      var i :| 0 <= i < |n.properties| && n.properties[i] == Property(key, found.value);
      SamePrintSameKey(key, found.value, value, printer);
    }
  }

  lemma SamePrintSameKey(key: Text, v: Value, w: Value, printer: DoublePrinter)
    requires CanonicalValue(v, printer) == CanonicalValue(w, printer)
    ensures PropertyIndexKey(key, v, printer) == PropertyIndexKey(key, w, printer)
  {
  }

  // ---- the snapshot object ----

  class GraphSnapshot {
    const commit: u64
    const validTime: i64
    const generation: u64
    const nodes: seq<Node>
    const edges: seq<Edge>
    const printer: DoublePrinter
    var labelIndex: map<Text, seq<nat>>
    var propertyIndex: map<Text, seq<nat>>
    var outAdjacency: map<(u64, Text), seq<nat>>
    var inAdjacency: map<(u64, Text), seq<nat>>

    /** Every index answers exactly what a scan would. */
    ghost predicate Indexed()
      reads this
    {
      && ScanEquivalent(labelIndex, nodes, LabelTest)
      && ScanEquivalent(propertyIndex, nodes, KeyTest(printer))
      && ScanEquivalent(outAdjacency, edges, OutTest)
      && ScanEquivalent(inAdjacency, edges, InTest)
    }

    constructor (commit: u64, validTime: i64, generation: u64, nodes: seq<Node>, edges: seq<Edge>,
                 printer: DoublePrinter)
      ensures this.commit == commit && this.validTime == validTime && this.generation == generation
      ensures this.nodes == nodes && this.edges == edges && this.printer == printer
      ensures Indexed()
    {
      this.commit, this.validTime, this.generation := commit, validTime, generation;
      this.nodes, this.edges, this.printer := nodes, edges, printer;
      labelIndex, propertyIndex, outAdjacency, inAdjacency := map[], map[], map[], map[];
      new;
      RebuildIndexes();
    }

    method RebuildIndexes()
      modifies this
      ensures Indexed()
    {
      labelIndex, propertyIndex, outAdjacency, inAdjacency := map[], map[], map[], map[];
      IndexNodes();
      IndexEdges();
    }

    method IndexNodes()
      requires labelIndex == map[] && propertyIndex == map[]
      modifies this`labelIndex, this`propertyIndex
      ensures ScanEquivalent(labelIndex, nodes, LabelTest)
      ensures ScanEquivalent(propertyIndex, nodes, KeyTest(printer))
    {
      hide ScanEquivalent;
      assert nodes[..0] == [];
      IndexesNothing(LabelTest);
      IndexesNothing(KeyTest(printer));
      for i := 0 to |nodes|
        invariant ScanEquivalent(labelIndex, nodes[..i], LabelTest)
        invariant ScanEquivalent(propertyIndex, nodes[..i], KeyTest(printer))
      {
        IndexesPush(labelIndex, nodes, i, nodes[i].body.labelText, LabelTest);
        labelIndex := Push(labelIndex, nodes[i].body.labelText, i);
        IndexProperties(i);
      }
      assert nodes[..|nodes|] == nodes;
    }

    /** Files node i under the key of each of its properties. */
    method IndexProperties(i: nat)
      requires i < |nodes|
      requires ScanEquivalent(propertyIndex, nodes[..i], KeyTest(printer))
      modifies this`propertyIndex
      ensures ScanEquivalent(propertyIndex, nodes[..i + 1], KeyTest(printer))
    {
      hide PropertyIndexKey, CanonicalValue;
      var properties := nodes[i].properties;
      ghost var before := propertyIndex;
      for j := 0 to |properties|
        invariant forall k :: EntryAt(propertyIndex, k) == EntryAt(before, k) + if KeyAmong(properties[..j], k, printer) then [i] else []
      {
        var key := PropertyIndexKey(properties[j].key, properties[j].value, printer);
        KeyNotYet(properties, j, printer);
        KeyAmongPushBack(properties, j, printer);
        propertyIndex := Push(propertyIndex, key, i);
      }
      assert properties[..|properties|] == properties;
      forall k
        ensures EntryAt(propertyIndex, k) == Positions(nodes[..i + 1], KeyTest(printer)(k))
      {
        PositionsPushBack(nodes, i, KeyTest(printer)(k));
        assert KeyAmong(properties, k, printer) <==> HasIndexKey(nodes[i], k, printer);
      }
    }

    method IndexEdges()
      requires outAdjacency == map[] && inAdjacency == map[]
      modifies this`outAdjacency, this`inAdjacency
      ensures ScanEquivalent(outAdjacency, edges, OutTest)
      ensures ScanEquivalent(inAdjacency, edges, InTest)
    {
      hide ScanEquivalent;
      assert edges[..0] == [];
      IndexesNothing(OutTest);
      IndexesNothing(InTest);
      for i := 0 to |edges|
        invariant ScanEquivalent(outAdjacency, edges[..i], OutTest)
        invariant ScanEquivalent(inAdjacency, edges[..i], InTest)
      {
        var body := edges[i].body;
        IndexesPush(outAdjacency, edges, i, (body.from, body.kind), OutTest);
        IndexesPush(inAdjacency, edges, i, (body.to, body.kind), InTest);
        outAdjacency := Push(outAdjacency, (body.from, body.kind), i);
        inAdjacency := Push(inAdjacency, (body.to, body.kind), i);
      }
      assert edges[..|edges|] == edges;
    }

    // ---- lookups ----

    /** Binary search by id. */
    method Node(id: u64) returns (r: Option<Node>)
      requires IdAscending(nodes)
      ensures r.Some? <==> id in IdsOf(nodes)
      ensures r.Some? ==> r.value in nodes && r.value.id == id
    {
      var low, high := 0, |nodes|;
      while low < high
        invariant 0 <= low <= high <= |nodes|
        invariant forall i | 0 <= i < low :: nodes[i].id < id
        invariant forall i | high <= i < |nodes| :: id <= nodes[i].id
      {
        var middle := (low + high) / 2;
        if nodes[middle].id < id {
          low := middle + 1;
        } else {
          high := middle;
        }
      }
      if low == |nodes| || nodes[low].id != id {
        return None;
      }
      r := Some(nodes[low]);
    }

    method NodesWithLabel(name: Text) returns (r: seq<Node>)
      requires Indexed()
      ensures r == Filter(nodes, LabelTest(name))
    {
      r := Gather(nodes, EntryAt(labelIndex, name), LabelTest(name));
    }

    method NodesWithProperty(key: Text, value: Value) returns (r: seq<Node>)
      requires Indexed()
      ensures r == Filter(nodes, PropertyTest(key, value, printer))
    {
      hide PropertyIndexKey, CanonicalValue;
      var indexKey := PropertyIndexKey(key, value, printer);
      r := Gather(nodes, EntryAt(propertyIndex, indexKey), KeyTest(printer)(indexKey));
      forall n | n in nodes
        ensures KeyTest(printer)(indexKey)(n) == PropertyTest(key, value, printer)(n)
      {
        KeyTestIsPropertyTest(n, key, value, printer);
      }
      FilterSame(nodes, KeyTest(printer)(indexKey), PropertyTest(key, value, printer));
    }

    method OutEdges(from: u64, kind: Text) returns (r: seq<Edge>)
      requires Indexed()
      ensures r == Filter(edges, OutTest((from, kind)))
    {
      r := Gather(edges, EntryAt(outAdjacency, (from, kind)), OutTest((from, kind)));
    }

    method InEdges(to: u64, kind: Text) returns (r: seq<Edge>)
      requires Indexed()
      ensures r == Filter(edges, InTest((to, kind)))
    {
      r := Gather(edges, EntryAt(inAdjacency, (to, kind)), InTest((to, kind)));
    }
  }

  // ---- the self-check before compaction ----

  method ContainsId<B>(views: seq<View<B>>, id: u64) returns (r: bool)
    ensures r <==> id in IdsOf(views)
  {
    for i := 0 to |views|
      invariant forall j | 0 <= j < i :: views[j].id != id
    {
      if views[i].id == id {
        return true;
      }
    }
    return false;
  }

  method ConsecutiveIdsRise<B>(views: seq<View<B>>) returns (r: bool)
    ensures r <==> IdAscending(views)
  {
    var i := 1;
    while i < |views|
      invariant i >= 1 && (|views| > 0 ==> i <= |views|)
      invariant forall j, k | 0 <= j < k < i && k < |views| :: views[j].id < views[k].id
    {
      if views[i - 1].id >= views[i].id {
        return false;
      }
      i := i + 1;
    }
    return true;
  }

  ghost predicate EndpointsPresent(nodes: seq<Node>, edges: seq<Edge>)
  {
    forall e | e in edges :: e.body.from in IdsOf(nodes) && e.body.to in IdsOf(nodes)
  }

  lemma {:induction false} FilterHasId<B(!new)>(views: seq<View<B>>, p: View<B> -> bool, v: View<B>)
    requires v in views && p(v)
    ensures v.id in IdsOf(Filter(views, p))
  {
    FilterMembers(views, p);
    var kept := Filter(views, p);
    var i :| 0 <= i < |kept| && kept[i] == v;
  }

  lemma {:induction false} HasOwnProperty(n: Node, j: nat, printer: DoublePrinter)
    requires j < |n.properties|
    ensures PropertyTest(n.properties[j].key, n.properties[j].value, printer)(n)
  {
    LookupEntry(n.properties, j);
  }

  /** Looks every node up by id, label and each of its properties. */
  method CheckNodeLookups(s: GraphSnapshot) returns (r: Result<()>)
    requires s.Indexed() && IdAscending(s.nodes)
    ensures r == Ok(())
  {
    hide CanonicalValue, GraphSnapshot.Indexed, IdAscending, Filter, IdsOf;
    for i := 0 to |s.nodes|
    {
      var node := s.nodes[i];
      assert node in s.nodes;
      MemberId(s.nodes, node);
      var byId := s.Node(node.id);
      if byId.None? || byId.value.id != node.id {
        return Err(InternalInvariant);
      }
      var labelled := s.NodesWithLabel(node.body.labelText);
      FilterHasId(s.nodes, LabelTest(node.body.labelText), node);
      var found := ContainsId(labelled, node.id);
      if !found {
        return Err(InternalInvariant);
      }
      for j := 0 to |node.properties|
      {
        var p := node.properties[j];
        var having := s.NodesWithProperty(p.key, p.value);
        HasOwnProperty(node, j, s.printer);
        FilterHasId(s.nodes, PropertyTest(p.key, p.value, s.printer), node);
        found := ContainsId(having, node.id);
        if !found {
          return Err(InternalInvariant);
        }
      }
    }
    r := Ok(());
  }

  lemma MemberId<B>(views: seq<View<B>>, v: View<B>)
    requires v in views
    ensures v.id in IdsOf(views)
  {
  }

  /** Looks every edge's endpoints up among the nodes, and the edge up from both of them. */
  method CheckEdgeLookups(s: GraphSnapshot) returns (r: Result<()>)
    requires s.Indexed()
    ensures r == if EndpointsPresent(s.nodes, s.edges) then Ok(()) else Err(InternalInvariant)
  {
    hide GraphSnapshot.Indexed, Filter, IdsOf;
    for i := 0 to |s.edges|
      invariant forall j | 0 <= j < i :: s.edges[j].body.from in IdsOf(s.nodes) && s.edges[j].body.to in IdsOf(s.nodes)
    {
      var edge := s.edges[i];
      assert edge in s.edges;
      var from := ContainsId(s.nodes, edge.body.from);
      var to := ContainsId(s.nodes, edge.body.to);
      if !from || !to {
        return Err(InternalInvariant);
      }
      var leaving := s.OutEdges(edge.body.from, edge.body.kind);
      FilterHasId(s.edges, OutTest((edge.body.from, edge.body.kind)), edge);
      var arriving := s.InEdges(edge.body.to, edge.body.kind);
      FilterHasId(s.edges, InTest((edge.body.to, edge.body.kind)), edge);
      var outFound := ContainsId(leaving, edge.id);
      var inFound := ContainsId(arriving, edge.id);
      if !outFound || !inFound {
        return Err(InternalInvariant);
      }
    }
    r := Ok(());
  }

  /** The self-check accepts exactly id-ordered snapshots without dangling edges. */
  method VerifySnapshot(s: GraphSnapshot) returns (r: Result<()>)
    requires s.Indexed()
    ensures r == if IdAscending(s.nodes) && IdAscending(s.edges) && EndpointsPresent(s.nodes, s.edges) then Ok(())
                 else Err(InternalInvariant)
  {
    hide GraphSnapshot.Indexed, IdAscending, EndpointsPresent;
    var nodesRise := ConsecutiveIdsRise(s.nodes);
    if !nodesRise {
      return Err(InternalInvariant);
    }
    var edgesRise := ConsecutiveIdsRise(s.edges);
    if !edgesRise {
      return Err(InternalInvariant);
    }
    r := CheckNodeLookups(s);
    if r.Err? {
      return;
    }
    r := CheckEdgeLookups(s);
  }

  /** Every naive view is id-ordered and has no dangling edge. */
  lemma {:induction false} NaiveViewsPass(g: Graph, time: i64)
    requires KeyedById(g.nodes) && KeyedById(g.edges)
    ensures IdAscending(NaiveNodes(g, time)) && IdAscending(NaiveEdges(g, time))
    ensures EndpointsPresent(NaiveNodes(g, time), NaiveEdges(g, time))
  {
    hide ValuesInOrder, IdsOf;
    ValuesInOrderFacts(g.nodes);
    ValuesInOrderFacts(g.edges);
    FilterKeepsIds(ValuesInOrder(g.nodes), ActiveTest(time));
    var timely := Filter(ValuesInOrder(g.edges), ActiveTest(time));
    FilterKeepsIds(ValuesInOrder(g.edges), ActiveTest(time));
    FilterKeepsIds(timely, EndpointTest(IdsOf(NaiveNodes(g, time))));
    FilterMembers(timely, EndpointTest(IdsOf(NaiveNodes(g, time))));
  }

  /** A live entity whose interval covers the time; an interval ends before its end. */
  ghost predicate ActiveIn<B>(live: map<u64, View<B>>, v: View<B>, time: i64)
  {
    v.id in live && live[v.id] == v && v.interval.start <= time < v.interval.end
  }

  ghost predicate ActiveId(live: map<u64, Node>, id: u64, time: i64)
  {
    id in live && live[id].interval.start <= time < live[id].interval.end
  }

  /** By id, the active nodes of a graph and its active edges between active nodes, all of them and nothing else. */
  ghost predicate IsViewOf(nodes: seq<Node>, edges: seq<Edge>, g: Graph, time: i64)
  {
    && IdAscending(nodes) && IdAscending(edges)
    && (forall n: Node :: n in nodes <==> ActiveIn(g.nodes, n, time))
    && (forall e: Edge :: e in edges <==> && ActiveIn(g.edges, e, time)
                                          && ActiveId(g.nodes, e.body.from, time) && ActiveId(g.nodes, e.body.to, time))
  }

  lemma {:induction false} NaiveNodesMean(g: Graph, time: i64)
    requires KeyedById(g.nodes)
    ensures forall n: Node :: n in NaiveNodes(g, time) <==> ActiveIn(g.nodes, n, time)
    ensures forall id: u64 :: id in IdsOf(NaiveNodes(g, time)) <==> ActiveId(g.nodes, id, time)
  {
    hide ValuesInOrder;
    ValuesInOrderFacts(g.nodes);
    FilterMembers(ValuesInOrder(g.nodes), ActiveTest(time));
    var nodes := NaiveNodes(g, time);
    forall id: u64
      ensures id in IdsOf(nodes) <==> ActiveId(g.nodes, id, time)
    {
      if id in IdsOf(nodes) {
        var i :| 0 <= i < |nodes| && nodes[i].id == id;
        assert nodes[i] in nodes;
      }
      if ActiveId(g.nodes, id, time) {
        assert g.nodes[id] in nodes;
        var i :| 0 <= i < |nodes| && nodes[i] == g.nodes[id];
      }
    }
  }

  lemma {:induction false} NaiveEdgesMean(g: Graph, time: i64, e: Edge)
    requires KeyedById(g.nodes) && KeyedById(g.edges)
    ensures e in NaiveEdges(g, time)
       <==> ActiveIn(g.edges, e, time) && ActiveId(g.nodes, e.body.from, time) && ActiveId(g.nodes, e.body.to, time)
  {
    hide ValuesInOrder, IdsOf, NaiveNodes, Filter;
    NaiveNodesMean(g, time);
    ValuesInOrderFacts(g.edges);
    var all := ValuesInOrder(g.edges);
    FilterMembers(all, ActiveTest(time));
    FilterMembers(Filter(all, ActiveTest(time)), EndpointTest(IdsOf(NaiveNodes(g, time))));
  }

  /** The naive view is what its name says. */
  lemma {:induction false} NaiveViewMeans(g: Graph, time: i64)
    requires KeyedById(g.nodes) && KeyedById(g.edges)
    ensures IsViewOf(NaiveNodes(g, time), NaiveEdges(g, time), g, time)
  {
    hide IdsOf, NaiveNodes, NaiveEdges, IdAscending, ActiveIn, ActiveId, KeyedById;
    NaiveViewsPass(g, time);
    NaiveNodesMean(g, time);
    forall e: Edge
      ensures e in NaiveEdges(g, time)
         <==> ActiveIn(g.edges, e, time) && ActiveId(g.nodes, e.body.from, time) && ActiveId(g.nodes, e.body.to, time)
    {
      NaiveEdgesMean(g, time, e);
    }
  }

  predicate KeyAmong(properties: seq<Property>, k: Text, printer: DoublePrinter)
  {
    exists j | 0 <= j < |properties| :: PropertyIndexKey(properties[j].key, properties[j].value, printer) == k
  }

  /** No two properties of one node share an index key. */
  lemma {:induction false} KeyNotYet(properties: PropertyMap, j: nat, printer: DoublePrinter)
    requires j < |properties|
    ensures !KeyAmong(properties[..j], PropertyIndexKey(properties[j].key, properties[j].value, printer), printer)
  {
    hide PropertyIndexKey, CanonicalValue;
    var key := PropertyIndexKey(properties[j].key, properties[j].value, printer);
    forall i | 0 <= i < j
      ensures PropertyIndexKey(properties[i].key, properties[i].value, printer) != key
    {
      if PropertyIndexKey(properties[i].key, properties[i].value, printer) == key {
        IndexKeyInjective(properties[i].key, properties[i].value, properties[j].key, properties[j].value, printer);
        LessIrreflexive(properties[j].key);
      }
    }
  }

  lemma {:induction false} KeyAmongPushBack(properties: seq<Property>, j: nat, printer: DoublePrinter)
    requires j < |properties|
    ensures forall k :: KeyAmong(properties[..j + 1], k, printer)
                   <==> KeyAmong(properties[..j], k, printer)
                        || k == PropertyIndexKey(properties[j].key, properties[j].value, printer)
  {
    hide PropertyIndexKey;
    forall k
      ensures KeyAmong(properties[..j + 1], k, printer)
         <==> KeyAmong(properties[..j], k, printer)
              || k == PropertyIndexKey(properties[j].key, properties[j].value, printer)
    {
      assert properties[..j + 1][j] == properties[j];
      assert forall i | 0 <= i < j :: properties[..j + 1][i] == properties[..j][i];
    }
  }

  // ---- materializing ----

  /** Sorted, filtered and indexed: the snapshot of a commit and a time is the naive view. */
  method Materialize(nodes: VersionMap<NodeBody>, edges: VersionMap<EdgeBody>, commit: u64, time: i64,
                     printer: DoublePrinter)
    returns (s: GraphSnapshot)
    requires Filed(nodes) && Filed(edges)
    ensures fresh(s) && s.Indexed()
    ensures s.commit == commit && s.validTime == time && s.generation == if commit == 0 then 1 else commit
    ensures var g := Graph(VisibleAt(nodes, commit), VisibleAt(edges, commit));
            s.nodes == NaiveNodes(g, time) && s.edges == NaiveEdges(g, time)
  {
    hide VisibleAt, ValuesInOrder, Filed, Filter, GraphSnapshot.Indexed;
    ghost var g := Graph(VisibleAt(nodes, commit), VisibleAt(edges, commit));
    VisibleKeyed(nodes, commit);
    VisibleKeyed(edges, commit);
    var visibleNodes := CollectVisible(nodes, commit);
    ValuesInOrderFacts(g.nodes);
    var activeNodes := SelectActive(visibleNodes, time);
    var visibleEdges := CollectVisible(edges, commit);
    ValuesInOrderFacts(g.edges);
    var activeEdges := SelectActive(visibleEdges, time);
    var sortedNodes := SortById(activeNodes);
    SortedIsFiltered(sortedNodes, activeNodes, visibleNodes, time);
    var kept := KeepWithEndpoints(activeEdges, IdsOf(activeNodes));
    var sortedEdges := SortById(kept);
    SameIds(activeNodes, sortedNodes);
    KeptIsFiltered(sortedEdges, kept, activeEdges, visibleEdges, time, IdsOf(sortedNodes));
    s := new GraphSnapshot(commit, time, if commit == 0 then 1 else commit, sortedNodes, sortedEdges, printer);
  }

  method KeepWithEndpoints(active: seq<Edge>, ids: set<u64>) returns (kept: seq<Edge>)
    requires DistinctIds(active)
    ensures DistinctIds(kept)
    ensures forall e :: e in kept <==> e in active && EndpointTest(ids)(e)
  {
    kept := [];
    for i := 0 to |active|
      invariant DistinctIds(kept)
      invariant forall e :: e in kept <==> e in active[..i] && EndpointTest(ids)(e)
    {
      assert active[..i + 1] == active[..i] + [active[i]];
      if active[i].body.from in ids && active[i].body.to in ids {
        forall e | e in kept
          ensures e.id != active[i].id
        {
          assert e in active[..i];
        }
        kept := kept + [active[i]];
      }
    }
    assert active[..|active|] == active;
  }

  lemma {:induction false} SortedIsFiltered<B(!new)>(sorted: seq<View<B>>, active: seq<View<B>>, visible: seq<View<B>>, time: i64)
    requires IdAscending(sorted) && IdAscending(visible)
    requires forall x :: x in sorted <==> x in active
    requires forall x :: x in active <==> x in visible && x.interval.Contains(time)
    ensures sorted == Filter(visible, ActiveTest(time))
  {
    FilterKeepsIds(visible, ActiveTest(time));
    FilterMembers(visible, ActiveTest(time));
    IdAscendingUnique(sorted, Filter(visible, ActiveTest(time)));
  }

  lemma {:induction false} SameIds<B(!new)>(a: seq<View<B>>, b: seq<View<B>>)
    requires forall x :: x in a <==> x in b
    ensures IdsOf(a) == IdsOf(b)
  {
    forall id | id in IdsOf(a)
      ensures id in IdsOf(b)
    {
      var i :| 0 <= i < |a| && a[i].id == id;
      assert a[i] in b;
    }
    forall id | id in IdsOf(b)
      ensures id in IdsOf(a)
    {
      var i :| 0 <= i < |b| && b[i].id == id;
      assert b[i] in a;
    }
  }

  lemma {:induction false} KeptIsFiltered(sorted: seq<Edge>, kept: seq<Edge>, active: seq<Edge>, visible: seq<Edge>, time: i64, ids: set<u64>)
    requires IdAscending(sorted) && IdAscending(visible)
    requires forall x :: x in sorted <==> x in kept
    requires forall x :: x in kept <==> x in active && EndpointTest(ids)(x)
    requires forall x :: x in active <==> x in visible && x.interval.Contains(time)
    ensures sorted == Filter(Filter(visible, ActiveTest(time)), EndpointTest(ids))
  {
    var timely := Filter(visible, ActiveTest(time));
    FilterKeepsIds(visible, ActiveTest(time));
    FilterMembers(visible, ActiveTest(time));
    FilterKeepsIds(timely, EndpointTest(ids));
    FilterMembers(timely, EndpointTest(ids));
    IdAscendingUnique(sorted, Filter(timely, EndpointTest(ids)));
  }
}
