/** Commit summaries: what a commit reports while the store is live, and what reopening reconstructs. */
module ChangeLog {
  import opened Bytes
  import opened Values
  import opened Ordering
  import opened OgrLog
  import opened History
  import opened Staging
  import opened Reopen

  datatype CommitChange = CommitChange(commit: u64, putNodes: seq<u64>, putEdges: seq<u64>,
                                       deletedNodes: seq<u64>, deletedEdges: seq<u64>)

  function ViewIds<B>(views: seq<View<B>>): set<u64>
  {
    set i | 0 <= i < |views| :: views[i].id
  }

  /** The summary of a transaction: the ids it puts and deletes, ascending. */
  function ChangeOf(t: Txn): CommitChange
  {
    var nodes, edges := NodeVersions(t.mutations), EdgeVersions(t.mutations);
    CommitChange(t.commit, InOrder(ViewIds(ViewsWith(nodes, false))), InOrder(ViewIds(ViewsWith(edges, false))),
                 InOrder(ViewIds(ViewsWith(nodes, true))), InOrder(ViewIds(ViewsWith(edges, true))))
  }

  /** The ids come in ascending order, and are those of the puts and of the tombstones of the transaction. */
  lemma {:induction false} ChangeMeans(t: Txn, id: u64)
    ensures var c := ChangeOf(t);
            && c.commit == t.commit
            && Ascending(c.putNodes) && Ascending(c.putEdges) && Ascending(c.deletedNodes) && Ascending(c.deletedEdges)
            && (id in c.putNodes <==> exists v :: NodeMutation(v, false) in t.mutations && v.id == id)
            && (id in c.deletedNodes <==> exists v :: NodeMutation(v, true) in t.mutations && v.id == id)
            && (id in c.putEdges <==> exists v :: EdgeMutation(v, false) in t.mutations && v.id == id)
            && (id in c.deletedEdges <==> exists v :: EdgeMutation(v, true) in t.mutations && v.id == id)
  {
    hide NodeVersions, EdgeVersions, ViewsWith, InOrder, ViewIds;
    var nodes, edges := NodeVersions(t.mutations), EdgeVersions(t.mutations);
    NodeVersionsMembers(t.mutations);
    EdgeVersionsMembers(t.mutations);
    IdWithFlag(nodes, false, id);
    IdWithFlag(nodes, true, id);
    IdWithFlag(edges, false, id);
    IdWithFlag(edges, true, id);
    assert forall v, flag :: Version(v, flag) in nodes <==> NodeMutation(v, flag) in t.mutations;
    assert forall v, flag :: Version(v, flag) in edges <==> EdgeMutation(v, flag) in t.mutations;
  }

  lemma {:induction false} IdWithFlag<B(!new)>(vs: seq<Version<B>>, tombstone: bool, id: u64)
    ensures id in ViewIds(ViewsWith(vs, tombstone)) <==> exists v :: Version(v, tombstone) in vs && v.id == id
  {
    hide ViewsWith;
    var views := ViewsWith(vs, tombstone);
    ViewsWithMembers(vs, tombstone);
    if v :| Version(v, tombstone) in vs && v.id == id {
      var i :| 0 <= i < |views| && views[i] == v;
    }
    if id in ViewIds(views) {
      var i :| 0 <= i < |views| && views[i].id == id;
      assert views[i] in views;
    }
  }

  function ChangesOf(ts: seq<Txn>): (log: seq<CommitChange>)
    ensures |log| == |ts|
    ensures forall i | 0 <= i < |ts| :: log[i] == ChangeOf(ts[i])
  {
    seq(|ts|, i requires 0 <= i < |ts| => ChangeOf(ts[i]))
  }

  function Changes(): Txn -> bool
  {
    (t: Txn) => |t.mutations| > 0
  }

  /** The log without the commits that changed nothing. */
  function NonEmptyChanges(ts: seq<Txn>): seq<CommitChange>
  {
    ChangesOf(Filter(ts, Changes()))
  }

  // ---- sorting id lists ----

  function Below(): (u64, u64) -> bool
  {
    (a: u64, b: u64) => a < b
  }

  lemma BelowOrder()
    ensures StrictWeakOrder(Below())
  {
  }

  method SortIds(ids: seq<u64>) returns (sorted: seq<u64>)
    requires Distinct(ids)
    ensures sorted == InOrder(IdSet(ids))
  {
    BelowOrder();
    sorted := Sort(ids, Below());
    MultisetMembers(sorted, ids);
    DistinctPermutation(ids, sorted);
    forall i, j | 0 <= i < j < |sorted|
      ensures sorted[i] < sorted[j]
    {
      assert !Below()(sorted[j], sorted[i]);
    }
    AscendingUnique(sorted, InOrder(IdSet(ids)));
  }

  // ---- collecting by commit ----

  /** The ids of the views begun by a commit, in order. */
  function IdsAt<B>(views: seq<View<B>>, commit: u64): seq<u64>
  {
    if |views| == 0 then [] else
    IdsAt(views[..|views| - 1], commit)
    + if views[|views| - 1].begin == commit then [views[|views| - 1].id] else []
  }

  function Begins<B>(views: seq<View<B>>): set<u64>
  {
    set i | 0 <= i < |views| :: views[i].begin
  }

  lemma {:induction false} IdsAtAbsent<B>(views: seq<View<B>>, commit: u64)
    requires commit !in Begins(views)
    ensures IdsAt(views, commit) == []
  {
    if |views| > 0 {
      var front := views[..|views| - 1];
      assert views[|views| - 1].begin in Begins(views);
      assert forall i | 0 <= i < |front| :: front[i] == views[i] && views[i].begin in Begins(views);
      IdsAtAbsent(front, commit);
    }
  }

  lemma {:induction false} IdsAtPushBack<B>(views: seq<View<B>>, k: nat, commit: u64)
    requires k < |views|
    ensures IdsAt(views[..k + 1], commit)
         == IdsAt(views[..k], commit) + if views[k].begin == commit then [views[k].id] else []
  {
    assert views[..k + 1][..k] == views[..k];
  }

  lemma {:induction false} BeginsPushBack<B>(views: seq<View<B>>, k: nat)
    requires k < |views|
    ensures Begins(views[..k + 1]) == Begins(views[..k]) + {views[k].begin}
  {
    var more, some := views[..k + 1], views[..k];
    assert more[k] == views[k];
    forall i | 0 <= i < k
      ensures some[i].begin in Begins(more) && more[i].begin in Begins(some)
    {
      assert some[i] == more[i];
    }
  }

  type ChangeMap = map<u64, CommitChange>

  /** changes[commit], created empty when it is missing. */
  function ChangeAt(changes: ChangeMap, commit: u64): CommitChange
  {
    if commit in changes then changes[commit] else CommitChange(commit, [], [], [], [])
  }

  /** The map holds exactly the ids of these views, by commit. */
  ghost predicate Collected(changes: ChangeMap, nodes: seq<Node>, nodeDrops: seq<Node>,
                            edges: seq<Edge>, edgeDrops: seq<Edge>)
  {
    && changes.Keys == Begins(nodes) + Begins(nodeDrops) + Begins(edges) + Begins(edgeDrops)
    && forall c :: ChangeAt(changes, c)
                == CommitChange(c, IdsAt(nodes, c), IdsAt(edges, c), IdsAt(nodeDrops, c), IdsAt(edgeDrops, c))
  }

  lemma CollectedNothing()
    ensures Collected(map[], [], [], [], [])
    ensures Begins<NodeBody>([]) == {} && Begins<EdgeBody>([]) == {}
  {
  }

  method CollectNodes(nodes: seq<Node>) returns (changes: ChangeMap)
    ensures Collected(changes, nodes, [], [], [])
  {
    hide Begins, IdsAt;
    CollectedNothing();
    changes := map[];
    assert nodes[..0] == [];
    for k := 0 to |nodes|
      invariant Collected(changes, nodes[..k], [], [], [])
    {
      BeginsPushBack(nodes, k);
      forall c ensures IdsAt(nodes[..k + 1], c)
                    == IdsAt(nodes[..k], c) + if nodes[k].begin == c then [nodes[k].id] else [] {
        IdsAtPushBack(nodes, k, c);
      }
      var change := ChangeAt(changes, nodes[k].begin);
      changes := changes[nodes[k].begin := change.(putNodes := change.putNodes + [nodes[k].id])];
    }
    assert nodes[..|nodes|] == nodes;
  }

  method CollectNodeDrops(before: ChangeMap, ghost nodes: seq<Node>, drops: seq<Node>) returns (changes: ChangeMap)
    requires Collected(before, nodes, [], [], [])
    ensures Collected(changes, nodes, drops, [], [])
  {
    hide Begins, IdsAt;
    changes := before;
    assert drops[..0] == [];
    for k := 0 to |drops|
      invariant Collected(changes, nodes, drops[..k], [], [])
    {
      BeginsPushBack(drops, k);
      forall c ensures IdsAt(drops[..k + 1], c)
                    == IdsAt(drops[..k], c) + if drops[k].begin == c then [drops[k].id] else [] {
        IdsAtPushBack(drops, k, c);
      }
      var change := ChangeAt(changes, drops[k].begin);
      changes := changes[drops[k].begin := change.(deletedNodes := change.deletedNodes + [drops[k].id])];
    }
    assert drops[..|drops|] == drops;
  }

  method CollectEdges(before: ChangeMap, ghost nodes: seq<Node>, ghost nodeDrops: seq<Node>, edges: seq<Edge>)
    returns (changes: ChangeMap)
    requires Collected(before, nodes, nodeDrops, [], [])
    ensures Collected(changes, nodes, nodeDrops, edges, [])
  {
    hide Begins, IdsAt;
    changes := before;
    assert edges[..0] == [];
    for k := 0 to |edges|
      invariant Collected(changes, nodes, nodeDrops, edges[..k], [])
    {
      BeginsPushBack(edges, k);
      forall c ensures IdsAt(edges[..k + 1], c)
                    == IdsAt(edges[..k], c) + if edges[k].begin == c then [edges[k].id] else [] {
        IdsAtPushBack(edges, k, c);
      }
      var change := ChangeAt(changes, edges[k].begin);
      changes := changes[edges[k].begin := change.(putEdges := change.putEdges + [edges[k].id])];
    }
    assert edges[..|edges|] == edges;
  }

  method CollectEdgeDrops(before: ChangeMap, ghost nodes: seq<Node>, ghost nodeDrops: seq<Node>,
                          ghost edges: seq<Edge>, drops: seq<Edge>)
    returns (changes: ChangeMap)
    requires Collected(before, nodes, nodeDrops, edges, [])
    ensures Collected(changes, nodes, nodeDrops, edges, drops)
  {
    hide Begins, IdsAt;
    changes := before;
    assert drops[..0] == [];
    for k := 0 to |drops|
      invariant Collected(changes, nodes, nodeDrops, edges, drops[..k])
    {
      BeginsPushBack(drops, k);
      forall c ensures IdsAt(drops[..k + 1], c)
                    == IdsAt(drops[..k], c) + if drops[k].begin == c then [drops[k].id] else [] {
        IdsAtPushBack(drops, k, c);
      }
      var change := ChangeAt(changes, drops[k].begin);
      changes := changes[drops[k].begin := change.(deletedEdges := change.deletedEdges + [drops[k].id])];
    }
    assert drops[..|drops|] == drops;
  }

  // ---- what was collected is what each transaction did ----

  lemma {:induction false} IdsAtAll<B(!new)>(views: seq<View<B>>, commit: u64)
    requires forall v | v in views :: v.begin == commit
    ensures |IdsAt(views, commit)| == |views|
    ensures forall i | 0 <= i < |views| :: IdsAt(views, commit)[i] == views[i].id
  {
    if |views| > 0 {
      IdsAtAll(views[..|views| - 1], commit);
      assert views[|views| - 1] in views;
    }
  }

  lemma {:induction false} IdsAtAppend<B>(a: seq<View<B>>, b: seq<View<B>>, commit: u64)
    ensures IdsAt(a + b, commit) == IdsAt(a, commit) + IdsAt(b, commit)
  {
    if |b| == 0 {
      assert a + b == a;
    } else {
      IdsAtAppend(a, b[..|b| - 1], commit);
      assert (a + b)[..|a + b| - 1] == a + b[..|b| - 1];
    }
  }

  lemma {:induction false} ViewsOnce<B(!new)>(vs: seq<Version<B>>, tombstone: bool)
    requires OncePerId(vs)
    ensures forall i, j | 0 <= i < j < |ViewsWith(vs, tombstone)| ::
              ViewsWith(vs, tombstone)[i].id != ViewsWith(vs, tombstone)[j].id
  {
    if |vs| > 0 {
      var front, v := vs[..|vs| - 1], vs[|vs| - 1];
      ViewsOnce(front, tombstone);
      ViewsWithMembers(front, tombstone);
      forall x | x in ViewsWith(front, tombstone)
        ensures x.id != v.view.id
      {
        assert Version(x, tombstone) in front;
      }
    }
  }

  /** Earlier and later transactions contribute nothing to a commit's ids. */
  lemma {:induction false} IdsOfMiddle<B(!new)>(a: seq<Version<B>>, m: seq<Version<B>>, b: seq<Version<B>>, commit: u64, tombstone: bool)
    requires forall v | v in a :: v.view.begin != commit
    requires forall v | v in m :: v.view.begin == commit
    requires forall v | v in b :: v.view.begin != commit
    requires OncePerId(m)
    ensures var ids := IdsAt(ViewsWith(a + m + b, tombstone), commit);
            Distinct(ids) && IdSet(ids) == ViewIds(ViewsWith(m, tombstone))
  {
    hide IdsAt, ViewsWith;
    var x, y, z := ViewsWith(a, tombstone), ViewsWith(m, tombstone), ViewsWith(b, tombstone);
    ViewsWithAppend(a, m, tombstone);
    ViewsWithAppend(a + m, b, tombstone);
    IdsAtAppend(x, y, commit);
    IdsAtAppend(x + y, z, commit);
    ViewsWithMembers(a, tombstone);
    ViewsWithMembers(m, tombstone);
    ViewsWithMembers(b, tombstone);
    NoneAt(x, commit);
    NoneAt(z, commit);
    IdsAtAll(y, commit);
    ViewsOnce(m, tombstone);
    var ids := IdsAt(y, commit);
    assert IdsAt(x + y + z, commit) == ids;
    forall i | 0 <= i < |y|
      ensures y[i].id in ids && ids[i] in ViewIds(y)
    {
      assert ids[i] == y[i].id;
    }
  }

  lemma {:induction false} NoneAt<B(!new)>(views: seq<View<B>>, commit: u64)
    requires forall v | v in views :: v.begin != commit
    ensures IdsAt(views, commit) == [] && commit !in Begins(views)
  {
    IdsAtAbsent(views, commit);
  }

  lemma {:induction false} MutationsMembers(ts: seq<Txn>)
    ensures forall m :: m in Mutations(ts) <==> exists i | 0 <= i < |ts| :: m in ts[i].mutations
  {
    if |ts| > 0 {
      var front := ts[..|ts| - 1];
      MutationsMembers(front);
      forall m
        ensures m in Mutations(ts) <==> exists i | 0 <= i < |ts| :: m in ts[i].mutations
      {
        if m in Mutations(front) {
          var i :| 0 <= i < |front| && m in front[i].mutations;
          assert m in ts[i].mutations;
        }
        if exists i | 0 <= i < |ts| :: m in ts[i].mutations {
          var i :| 0 <= i < |ts| && m in ts[i].mutations;
          assert i < |front| ==> m in front[i].mutations;
        }
      }
    }
  }

  /** What a log's image holds under commit i + 1 is what transaction i did. */
  lemma {:induction false} LogAround(ts: seq<Txn>, i: nat)
    requires Numbered(ts) && i < |ts|
    ensures NodesOfLog(ts) == NodesOfLog(ts[..i]) + NodeVersions(ts[i].mutations) + NodesOfLog(ts[i + 1..])
    ensures EdgesOfLog(ts) == EdgesOfLog(ts[..i]) + EdgeVersions(ts[i].mutations) + EdgesOfLog(ts[i + 1..])
    ensures forall v | v in NodesOfLog(ts[..i]) + NodesOfLog(ts[i + 1..]) :: v.view.begin != i + 1
    ensures forall v | v in EdgesOfLog(ts[..i]) + EdgesOfLog(ts[i + 1..]) :: v.view.begin != i + 1
    ensures forall v | v in NodeVersions(ts[i].mutations) :: v.view.begin == i + 1
    ensures forall v | v in EdgeVersions(ts[i].mutations) :: v.view.begin == i + 1
  {
    hide NodesOfLog, EdgesOfLog;
    LogSplit(ts, i);
    LogSplit(ts, i + 1);
    assert ts[..i + 1] == ts[..i] + [ts[i]];
    LogGrows(ts[..i], ts[i]);
    NodeVersionsMembers(ts[i].mutations);
    EdgeVersionsMembers(ts[i].mutations);
    forall v | v in NodeVersions(ts[i].mutations)
      ensures v.view.begin == i + 1
    {
      assert BeginOf(NodeMutation(v.view, v.tombstone)) == i + 1;
    }
    forall v | v in EdgeVersions(ts[i].mutations)
      ensures v.view.begin == i + 1
    {
      assert BeginOf(EdgeMutation(v.view, v.tombstone)) == i + 1;
    }
  }

  lemma {:induction false} NodeIdsOfTxn(ts: seq<Txn>, i: nat, tombstone: bool)
    requires Numbered(ts) && i < |ts| && Single(ts[i])
    ensures var ids := IdsAt(ViewsWith(NodesOfLog(ts), tombstone), i + 1);
            Distinct(ids) && IdSet(ids) == ViewIds(ViewsWith(NodeVersions(ts[i].mutations), tombstone))
  {
    hide NodesOfLog, EdgesOfLog, IdsAt, ViewsWith, Distinct, ViewIds;
    LogAround(ts, i);
    IdsOfMiddle(NodesOfLog(ts[..i]), NodeVersions(ts[i].mutations), NodesOfLog(ts[i + 1..]), i + 1, tombstone);
  }

  lemma {:induction false} EdgeIdsOfTxn(ts: seq<Txn>, i: nat, tombstone: bool)
    requires Numbered(ts) && i < |ts| && Single(ts[i])
    ensures var ids := IdsAt(ViewsWith(EdgesOfLog(ts), tombstone), i + 1);
            Distinct(ids) && IdSet(ids) == ViewIds(ViewsWith(EdgeVersions(ts[i].mutations), tombstone))
  {
    hide NodesOfLog, EdgesOfLog, IdsAt, ViewsWith, Distinct, ViewIds;
    LogAround(ts, i);
    IdsOfMiddle(EdgesOfLog(ts[..i]), EdgeVersions(ts[i].mutations), EdgesOfLog(ts[i + 1..]), i + 1, tombstone);
  }

  // ---- the commits that appear ----

  function Commits(ts: seq<Txn>): (cs: seq<u64>)
    ensures |cs| == |ts|
  {
    seq(|ts|, i requires 0 <= i < |ts| => ts[i].commit)
  }

  lemma {:induction false} CommitsAscend(ts: seq<Txn>, p: Txn -> bool)
    requires forall i, j | 0 <= i < j < |ts| :: ts[i].commit < ts[j].commit
    ensures Ascending(Commits(Filter(ts, p)))
  {
    if |ts| > 0 {
      var front, t := ts[..|ts| - 1], ts[|ts| - 1];
      CommitsAscend(front, p);
      FilterMembers(front, p);
      var kept := Filter(front, p);
      forall i | 0 <= i < |kept|
        ensures kept[i].commit < t.commit
      {
        assert kept[i] in front;
      }
      assert Commits(Filter(ts, p)) == Commits(kept) + if p(t) then [t.commit] else [];
    }
  }

  lemma {:induction false} BeginsOfImage(ts: seq<Txn>, c: u64)
    requires Numbered(ts)
    ensures c in Begins(ViewsWith(NodesOfLog(ts), false)) + Begins(ViewsWith(NodesOfLog(ts), true))
                 + Begins(ViewsWith(EdgesOfLog(ts), false)) + Begins(ViewsWith(EdgesOfLog(ts), true))
       <==> 0 < c <= |ts| && |ts[c - 1].mutations| > 0
  {
    hide ViewsWith, Begins;
    BeginsMembers(NodesOfLog(ts), c);
    BeginsMembers(EdgesOfLog(ts), c);
    NodeVersionsMembers(Mutations(ts));
    EdgeVersionsMembers(Mutations(ts));
    MutationsMembers(ts);
    if 0 < c <= |ts| && |ts[c - 1].mutations| > 0 {
      var m := ts[c - 1].mutations[0];
      assert m in ts[c - 1].mutations && m in Mutations(ts);
      match m
      case NodeMutation(node, tombstone) => assert Version(node, tombstone) in NodesOfLog(ts);
      case EdgeMutation(edge, tombstone) => assert Version(edge, tombstone) in EdgesOfLog(ts);
    }
    if exists v :: v in NodesOfLog(ts) && v.view.begin == c {
      var v :| v in NodesOfLog(ts) && v.view.begin == c;
      MutationAtCommit(ts, NodeMutation(v.view, v.tombstone), c);
    }
    if exists v :: v in EdgesOfLog(ts) && v.view.begin == c {
      var v :| v in EdgesOfLog(ts) && v.view.begin == c;
      MutationAtCommit(ts, EdgeMutation(v.view, v.tombstone), c);
    }
  }

  lemma {:induction false} MutationAtCommit(ts: seq<Txn>, m: Mutation, c: u64)
    requires Numbered(ts) && m in Mutations(ts) && BeginOf(m) == c
    ensures 0 < c <= |ts| && m in ts[c - 1].mutations
  {
    hide BeginOf;
    MutationsMembers(ts);
    var i :| 0 <= i < |ts| && m in ts[i].mutations;
  }

  lemma {:induction false} BeginsMembers<B(!new)>(vs: seq<Version<B>>, c: u64)
    ensures c in Begins(ViewsWith(vs, false)) + Begins(ViewsWith(vs, true))
       <==> exists v :: v in vs && v.view.begin == c
  {
    ViewsWithMembers(vs, false);
    ViewsWithMembers(vs, true);
    var puts, drops := ViewsWith(vs, false), ViewsWith(vs, true);
    if c in Begins(puts) {
      var i :| 0 <= i < |puts| && puts[i].begin == c;
      assert puts[i] in puts;
    }
    if c in Begins(drops) {
      var i :| 0 <= i < |drops| && drops[i].begin == c;
      assert drops[i] in drops;
    }
    if exists v :: v in vs && v.view.begin == c {
      var v :| v in vs && v.view.begin == c;
      if v.tombstone {
        assert v == Version(v.view, true) && v.view in drops;
        var i :| 0 <= i < |drops| && drops[i] == v.view;
      } else {
        assert v == Version(v.view, false) && v.view in puts;
        var i :| 0 <= i < |puts| && puts[i] == v.view;
      }
    }
  }

  // ---- the reconstructed log ----

  method SortChange(change: CommitChange) returns (sorted: CommitChange)
    requires Distinct(change.putNodes) && Distinct(change.putEdges)
    requires Distinct(change.deletedNodes) && Distinct(change.deletedEdges)
    ensures sorted == CommitChange(change.commit,
                                   InOrder(IdSet(change.putNodes)), InOrder(IdSet(change.putEdges)),
                                   InOrder(IdSet(change.deletedNodes)), InOrder(IdSet(change.deletedEdges)))
  {
    var a := SortIds(change.putNodes);
    var b := SortIds(change.putEdges);
    var c := SortIds(change.deletedNodes);
    var d := SortIds(change.deletedEdges);
    sorted := CommitChange(change.commit, a, b, c, d);
  }

  /** The collected ids of one transaction, sorted, are its summary. */
  method SummaryOf(change: CommitChange, ghost ts: seq<Txn>, ghost i: nat) returns (sorted: CommitChange)
    requires Numbered(ts) && i < |ts| && Single(ts[i])
    requires change == CommitChange(i + 1, IdsAt(ViewsWith(NodesOfLog(ts), false), i + 1),
                                    IdsAt(ViewsWith(EdgesOfLog(ts), false), i + 1),
                                    IdsAt(ViewsWith(NodesOfLog(ts), true), i + 1),
                                    IdsAt(ViewsWith(EdgesOfLog(ts), true), i + 1))
    ensures sorted == ChangeOf(ts[i])
  {
    hide NodesOfLog, EdgesOfLog, ViewsWith, IdsAt, Single, ViewIds, Distinct, NodeVersions, EdgeVersions;
    NodeIdsOfTxn(ts, i, false);
    NodeIdsOfTxn(ts, i, true);
    EdgeIdsOfTxn(ts, i, false);
    EdgeIdsOfTxn(ts, i, true);
    sorted := SortChange(change);
    assert ts[i].commit == i + 1;
  }

  method CollectAll(image: Image) returns (changes: ChangeMap)
    ensures Collected(changes, image.nodes, image.nodeTombstones, image.edges, image.edgeTombstones)
  {
    hide Collected;
    changes := CollectNodes(image.nodes);
    changes := CollectNodeDrops(changes, image.nodes, image.nodeTombstones);
    changes := CollectEdges(changes, image.nodes, image.nodeTombstones, image.edges);
    changes := CollectEdgeDrops(changes, image.nodes, image.nodeTombstones, image.edges, image.edgeTombstones);
  }

  /** The collected entry of a commit that changed something. */
  lemma {:induction false} EntryAt(changes: ChangeMap, image: Image, ts: seq<Txn>, k: nat) returns (i: nat)
    requires Numbered(ts) && image == ImageOf(ts) && k < |Filter(ts, Changes())|
    requires Collected(changes, image.nodes, image.nodeTombstones, image.edges, image.edgeTombstones)
    requires Commits(Filter(ts, Changes()))[k] in changes
    ensures i < |ts| && ts[i] in ts && Filter(ts, Changes())[k] == ts[i]
    ensures Commits(Filter(ts, Changes()))[k] == i + 1
    ensures changes[i + 1] == CommitChange(i + 1, IdsAt(ViewsWith(NodesOfLog(ts), false), i + 1),
                                           IdsAt(ViewsWith(EdgesOfLog(ts), false), i + 1),
                                           IdsAt(ViewsWith(NodesOfLog(ts), true), i + 1),
                                           IdsAt(ViewsWith(EdgesOfLog(ts), true), i + 1))
  {
    hide NodesOfLog, EdgesOfLog, ViewsWith, IdsAt, Begins, ImageOf, Filter, Numbered;
    ImageParts(ts);
    i := TxnAt(ts, k);
    assert changes[i + 1] == ChangeAt(changes, i + 1);
  }

  lemma {:induction false} CollectedKeys(changes: ChangeMap, image: Image, ts: seq<Txn>)
    requires Numbered(ts) && image == ImageOf(ts)
    requires Collected(changes, image.nodes, image.nodeTombstones, image.edges, image.edgeTombstones)
    ensures InOrder(changes.Keys) == Commits(Filter(ts, Changes()))
  {
    hide NodesOfLog, EdgesOfLog, ViewsWith, IdsAt, Begins, ImageOf, Filter, Numbered;
    ImageParts(ts);
    CommitsAreKeys(ts, changes.Keys);
  }

  /** Rebuilds the change log from the four lists the reader returned. */
  method LoadChanges(image: Image, ghost ts: seq<Txn>) returns (log: seq<CommitChange>)
    requires Numbered(ts) && (forall t | t in ts :: Single(t)) && image == ImageOf(ts)
    ensures log == NonEmptyChanges(ts)
  {
    hide NodesOfLog, EdgesOfLog, ViewsWith, IdsAt, Single, ImageOf, ChangeOf, Filter, Collected, Numbered, InOrder,
      ChangesOf, Changes;
    ChangesOfNone();
    var changes := CollectAll(image);
    var order := InOrder(changes.Keys);
    CollectedKeys(changes, image, ts);
    ghost var kept := Filter(ts, Changes());
    log := [];
    for k := 0 to |order|
      invariant log == ChangesOf(kept[..k])
    {
      assert order[k] in order;
      ghost var i := EntryAt(changes, image, ts, k);
      var sorted := SummaryOf(changes[order[k]], ts, i);
      ChangesPushBack(kept, k);
      log := log + [sorted];
    }
    assert kept[..|order|] == kept;
  }

  lemma ChangesOfNone()
    ensures ChangesOf([]) == []
  {
  }

  lemma {:induction false} ChangesPushBack(ts: seq<Txn>, k: nat)
    requires k < |ts|
    ensures ChangesOf(ts[..k + 1]) == ChangesOf(ts[..k]) + [ChangeOf(ts[k])]
  {
    hide ChangeOf;
  }

  lemma {:induction false} TxnAt(ts: seq<Txn>, k: nat) returns (i: nat)
    requires Numbered(ts) && k < |Filter(ts, Changes())|
    ensures i < |ts| && Filter(ts, Changes())[k] == ts[i] && ts[i].commit == i + 1 && ts[i] in ts
    ensures Commits(Filter(ts, Changes()))[k] == i + 1
  {
    FilterMembers(ts, Changes());
    assert Filter(ts, Changes())[k] in Filter(ts, Changes());
    i :| 0 <= i < |ts| && ts[i] == Filter(ts, Changes())[k];
  }

  lemma {:induction false} CommitsAreKeys(ts: seq<Txn>, keys: set<u64>)
    requires Numbered(ts)
    requires keys == Begins(ViewsWith(NodesOfLog(ts), false)) + Begins(ViewsWith(NodesOfLog(ts), true))
                     + Begins(ViewsWith(EdgesOfLog(ts), false)) + Begins(ViewsWith(EdgesOfLog(ts), true))
    ensures InOrder(keys) == Commits(Filter(ts, Changes()))
  {
    hide NodesOfLog, EdgesOfLog, ViewsWith, Begins, Filter, InOrder;
    var kept := Filter(ts, Changes());
    var commits := Commits(kept);
    CommitsAscend(ts, Changes());
    FilterMembers(ts, Changes());
    forall c: u64
      ensures c in InOrder(keys) <==> c in commits
    {
      BeginsOfImage(ts, c);
      if c in keys {
        assert ts[c - 1] in ts && Changes()(ts[c - 1]);
        assert ts[c - 1] in kept;
        var k :| 0 <= k < |kept| && kept[k] == ts[c - 1];
        assert commits[k] == c;
      }
      if c in commits {
        var k :| 0 <= k < |commits| && commits[k] == c;
        var i := TxnAt(ts, k);
        assert kept[k] in kept && Changes()(kept[k]);
      }
    }
    AscendingUnique(InOrder(keys), commits);
  }

  // ---- the live log ----

  /** The summary built from the staged sets is the one the logged transaction has. */
  lemma {:induction false} SummaryOfStaged(s: Staged, parent: u64, commit: u64)
    requires Tidy(s)
    ensures ChangeOf(LoggedTxn(s, parent, commit))
         == CommitChange(commit, InOrder(s.putNodes.Keys), InOrder(s.putEdges.Keys),
                         InOrder(s.deleteNodes), InOrder(s.deleteEdges))
  {
    hide NodeVersions, EdgeVersions, PutsInOrder, PutVersions, NodeDropVersions, EdgeDropVersions, ViewsWith, ViewIds;
    var nodes, edges := PutsInOrder(s.putNodes, commit), PutsInOrder(s.putEdges, commit);
    var nodeIds, edgeIds := InOrder(s.deleteNodes), InOrder(s.deleteEdges);
    LoggedVersions(parent, commit, nodes, edges, nodeIds, edgeIds);
    NodeDropIds(nodeIds, commit);
    EdgeDropIds(edgeIds, commit);
    NodeDropViews(nodeIds, commit);
    EdgeDropViews(edgeIds, commit);
    ViewsOfPutsAndDrops(nodes, NodeDropVersions(nodeIds, commit));
    ViewsOfPutsAndDrops(edges, EdgeDropVersions(edgeIds, commit));
    PutIds(s.putNodes, commit);
    PutIds(s.putEdges, commit);
  }

  lemma {:induction false} PutIds<B>(puts: map<u64, View<B>>, commit: u64)
    requires forall id | id in puts :: puts[id].id == id
    ensures ViewIds(PutsInOrder(puts, commit)) == puts.Keys
  {
    var ids, views := InOrder(puts.Keys), PutsInOrder(puts, commit);
    forall i | 0 <= i < |ids|
      ensures views[i].id == ids[i]
    {
      assert ids[i] in ids;
    }
    forall id | id in puts.Keys
      ensures id in ViewIds(views)
    {
      assert id in ids;
      var i :| 0 <= i < |ids| && ids[i] == id;
      assert views[i].id == id;
    }
    forall i | 0 <= i < |views|
      ensures views[i].id in puts.Keys
    {
      assert ids[i] in ids;
    }
  }

  lemma {:induction false} AllViews<B>(vs: seq<Version<B>>, tombstone: bool)
    requires forall i | 0 <= i < |vs| :: vs[i].tombstone == tombstone
    ensures |ViewsWith(vs, tombstone)| == |vs| && ViewsWith(vs, !tombstone) == []
    ensures forall i | 0 <= i < |vs| :: ViewsWith(vs, tombstone)[i] == vs[i].view
  {
    if |vs| > 0 {
      AllViews(vs[..|vs| - 1], tombstone);
    }
  }

  lemma {:induction false} ViewsOfPutsAndDrops<B>(puts: seq<View<B>>, drops: seq<Version<B>>)
    requires forall i | 0 <= i < |drops| :: drops[i].tombstone
    ensures ViewsWith(PutVersions(puts) + drops, false) == puts
    ensures ViewsWith(PutVersions(puts) + drops, true) == ViewsWith(drops, true)
  {
    hide ViewsWith;
    AllViews(PutVersions(puts), false);
    AllViews(drops, true);
    ViewsWithAppend(PutVersions(puts), drops, false);
    ViewsWithAppend(PutVersions(puts), drops, true);
  }

  lemma {:induction false} NodeDropViews(ids: seq<u64>, commit: u64)
    ensures ViewIds(ViewsWith(NodeDropVersions(ids, commit), true)) == IdSet(ids)
    ensures forall s: set<u64> :: ids == InOrder(s) ==> IdSet(ids) == s
    ensures forall i | 0 <= i < |ids| :: NodeDropVersions(ids, commit)[i].tombstone
  {
    AllViews(NodeDropVersions(ids, commit), true);
    var views := ViewsWith(NodeDropVersions(ids, commit), true);
    assert forall i | 0 <= i < |ids| :: views[i].id == ids[i];
  }

  lemma {:induction false} EdgeDropViews(ids: seq<u64>, commit: u64)
    ensures ViewIds(ViewsWith(EdgeDropVersions(ids, commit), true)) == IdSet(ids)
    ensures forall s: set<u64> :: ids == InOrder(s) ==> IdSet(ids) == s
    ensures forall i | 0 <= i < |ids| :: EdgeDropVersions(ids, commit)[i].tombstone
  {
    AllViews(EdgeDropVersions(ids, commit), true);
    var views := ViewsWith(EdgeDropVersions(ids, commit), true);
    assert forall i | 0 <= i < |ids| :: views[i].id == ids[i];
  }

  lemma NodeDropIds(ids: seq<u64>, commit: u64)
    ensures forall i | 0 <= i < |ids| :: NodeDropVersions(ids, commit)[i].view.id == ids[i]
  {
  }

  lemma EdgeDropIds(ids: seq<u64>, commit: u64)
    ensures forall i | 0 <= i < |ids| :: EdgeDropVersions(ids, commit)[i].view.id == ids[i]
  {
  }

  // ---- empty commits ----

  /** The summary names some id. */
  function Reports(): CommitChange -> bool
  {
    (c: CommitChange) => |c.putNodes| + |c.putEdges| + |c.deletedNodes| + |c.deletedEdges| > 0
  }

  lemma {:induction false} NamesId<B(!new)>(vs: seq<Version<B>>, v: Version<B>)
    requires v in vs
    ensures |InOrder(ViewIds(ViewsWith(vs, v.tombstone)))| > 0
  {
    ViewsWithMembers(vs, v.tombstone);
    var views := ViewsWith(vs, v.tombstone);
    var i :| 0 <= i < |views| && views[i] == v.view;
    assert v.view.id in InOrder(ViewIds(views));
  }

  lemma {:induction false} NamesNothing<B>(tombstone: bool)
    ensures InOrder(ViewIds<B>(ViewsWith([], tombstone))) == []
  {
    assert ViewsWith<B>([], tombstone) == [];
    assert ViewIds<B>([]) == {};
  }

  /** A summary is empty exactly for a transaction without mutations. */
  lemma {:induction false} ReportsWhatChanges(t: Txn)
    ensures Reports()(ChangeOf(t)) <==> Changes()(t)
  {
    hide InOrder, ViewIds, ViewsWith, NodeVersions, EdgeVersions;
    var ms := t.mutations;
    if |ms| > 0 {
      NodeVersionsMembers(ms);
      EdgeVersionsMembers(ms);
      match ms[0]
      case NodeMutation(node, tombstone) =>
        assert NodeMutation(node, tombstone) in ms;
        NamesId(NodeVersions(ms), Version(node, tombstone));
      case EdgeMutation(edge, tombstone) =>
        assert EdgeMutation(edge, tombstone) in ms;
        NamesId(EdgeVersions(ms), Version(edge, tombstone));
    } else {
      NoVersions(ms);
      NamesNothing<NodeBody>(false);
      NamesNothing<NodeBody>(true);
      NamesNothing<EdgeBody>(false);
      NamesNothing<EdgeBody>(true);
    }
  }

  lemma NoVersions(ms: seq<Mutation>)
    requires |ms| == 0
    ensures NodeVersions(ms) == [] && EdgeVersions(ms) == []
  {
  }

  /** Dropping empty summaries is summarizing the commits that changed something. */
  lemma {:induction false} EmptyChangesDropped(ts: seq<Txn>)
    ensures Filter(ChangesOf(ts), Reports()) == NonEmptyChanges(ts)
  {
    hide ChangeOf, Reports, Changes;
    if |ts| > 0 {
      var front, last := ts[..|ts| - 1], ts[|ts| - 1];
      EmptyChangesDropped(front);
      ReportsWhatChanges(last);
      assert ChangesOf(ts)[..|ts| - 1] == ChangesOf(front);
      var kept := Filter(front, Changes());
      assert ChangesOf(kept + [last]) == ChangesOf(kept) + [ChangeOf(last)];
      assert kept + [] == kept;
    }
  }

  lemma {:induction false} FilterAgain<T>(s: seq<T>, p: T -> bool)
    ensures Filter(Filter(s, p), p) == Filter(s, p)
  {
    if |s| > 0 {
      var front, last := s[..|s| - 1], s[|s| - 1];
      FilterAgain(front, p);
      var kept := Filter(front, p);
      assert (kept + [last])[..|kept|] == kept;
      assert kept + [] == kept;
    }
  }

  /** A log that lost its empty commits up to some point and keeps them from there on. */
  lemma {:induction false} EmptyChangesDroppedLater(early: seq<Txn>, late: seq<Txn>)
    ensures Filter(NonEmptyChanges(early) + ChangesOf(late), Reports()) == NonEmptyChanges(early + late)
  {
    hide ChangesOf, Reports, NonEmptyChanges;
    EmptyChangesDropped(early);
    EmptyChangesDropped(late);
    EmptyChangesDropped(early + late);
    FilterAgain(ChangesOf(early), Reports());
    FilterAppend(NonEmptyChanges(early), ChangesOf(late), Reports());
    FilterAppend(ChangesOf(early), ChangesOf(late), Reports());
    ChangesConcat(early, late);
  }

  lemma ChangesConcat(a: seq<Txn>, b: seq<Txn>)
    ensures ChangesOf(a + b) == ChangesOf(a) + ChangesOf(b)
  {
  }
}
