/**
 Transactions: changes are staged in ordered maps and sets, the last change to an entity wins, and the
 transaction that is finally logged has the effect of its operations one by one.
 */
module Staging {
  import opened Bytes
  import opened Results
  import opened Values
  import opened Ordering
  import opened OgrCodec
  import opened OgrLog
  import opened History

  datatype Op =
    | PutNode(node: Node)
    | PutEdge(edge: Edge)
    | DeleteNode(nodeId: u64)
    | DeleteEdge(edgeId: u64)

  datatype Staged = Staged(putNodes: map<u64, Node>, putEdges: map<u64, Edge>,
                           deleteNodes: set<u64>, deleteEdges: set<u64>)

  const NOTHING := Staged(map[], map[], {}, {})

  function Stage(s: Staged, op: Op): Staged
  {
    match op
    case PutNode(node) =>
      s.(deleteNodes := s.deleteNodes - {node.id}, putNodes := s.putNodes[node.id := node])
    case PutEdge(edge) =>
      s.(deleteEdges := s.deleteEdges - {edge.id}, putEdges := s.putEdges[edge.id := edge])
    case DeleteNode(id) =>
      s.(putNodes := s.putNodes - {id}, deleteNodes := s.deleteNodes + {id})
    case DeleteEdge(id) =>
      s.(putEdges := s.putEdges - {id}, deleteEdges := s.deleteEdges + {id})
  }

  function StageOps(ops: seq<Op>): Staged
  {
    if |ops| == 0 then NOTHING else Stage(StageOps(ops[..|ops| - 1]), ops[|ops| - 1])
  }

  /** No entity is both put and deleted, and every put sits under its own id. */
  ghost predicate Tidy(s: Staged)
  {
    && s.putNodes.Keys !! s.deleteNodes && s.putEdges.Keys !! s.deleteEdges
    && (forall id | id in s.putNodes :: s.putNodes[id].id == id)
    && (forall id | id in s.putEdges :: s.putEdges[id].id == id)
  }

  lemma {:induction false} StagedIsTidy(ops: seq<Op>)
    ensures Tidy(StageOps(ops))
  {
    if |ops| > 0 {
      StagedIsTidy(ops[..|ops| - 1]);
    }
  }

  // ---- the effect of operations one by one ----

  function Stamp<B>(v: View<B>, commit: u64): View<B>
  {
    v.(begin := commit)
  }

  function ApplyOp(g: Graph, op: Op, commit: u64): Graph
  {
    match op
    case PutNode(node) => g.(nodes := g.nodes[node.id := Stamp(node, commit)])
    case PutEdge(edge) => g.(edges := g.edges[edge.id := Stamp(edge, commit)])
    case DeleteNode(id) => g.(nodes := g.nodes - {id})
    case DeleteEdge(id) => g.(edges := g.edges - {id})
  }

  function ApplyOps(g: Graph, ops: seq<Op>, commit: u64): Graph
  {
    if |ops| == 0 then g else ApplyOp(ApplyOps(g, ops[..|ops| - 1], commit), ops[|ops| - 1], commit)
  }

  // ---- the effect of the staged maps ----

  function Merge<B>(live: map<u64, View<B>>, puts: map<u64, View<B>>, drops: set<u64>, commit: u64)
    : map<u64, View<B>>
  {
    map id | id in live.Keys + puts.Keys && (id in puts || id !in drops)
      :: if id in puts then Stamp(puts[id], commit) else live[id]
  }

  function CommitStaged(g: Graph, s: Staged, commit: u64): Graph
  {
    Graph(Merge(g.nodes, s.putNodes, s.deleteNodes, commit), Merge(g.edges, s.putEdges, s.deleteEdges, commit))
  }

  lemma MergePut<B>(live: map<u64, View<B>>, puts: map<u64, View<B>>, drops: set<u64>, v: View<B>, commit: u64)
    ensures Merge(live, puts[v.id := v], drops - {v.id}, commit)
         == Merge(live, puts, drops, commit)[v.id := Stamp(v, commit)]
  {
  }

  lemma MergeDrop<B>(live: map<u64, View<B>>, puts: map<u64, View<B>>, drops: set<u64>, id: u64, commit: u64)
    ensures Merge(live, puts - {id}, drops + {id}, commit) == Merge(live, puts, drops, commit) - {id}
  {
  }

  /** Last write wins: committing what was staged is applying the operations in order. */
  lemma {:induction false} StagingIsSequential(g: Graph, ops: seq<Op>, commit: u64)
    ensures CommitStaged(g, StageOps(ops), commit) == ApplyOps(g, ops, commit)
  {
    if |ops| == 0 {
      assert Merge(g.nodes, map[], {}, commit) == g.nodes;
      assert Merge(g.edges, map[], {}, commit) == g.edges;
    } else {
      var before := StageOps(ops[..|ops| - 1]);
      StagingIsSequential(g, ops[..|ops| - 1], commit);
      match ops[|ops| - 1]
      case PutNode(node) => MergePut(g.nodes, before.putNodes, before.deleteNodes, node, commit);
      case PutEdge(edge) => MergePut(g.edges, before.putEdges, before.deleteEdges, edge, commit);
      case DeleteNode(id) => MergeDrop(g.nodes, before.putNodes, before.deleteNodes, id, commit);
      case DeleteEdge(id) => MergeDrop(g.edges, before.putEdges, before.deleteEdges, id, commit);
    }
  }

  // ---- the last operation on an entity ----

  datatype Entity = NodeEntity(id: u64) | EdgeEntity(id: u64)

  function EntityOf(op: Op): Entity
  {
    match op
    case PutNode(node) => NodeEntity(node.id)
    case PutEdge(edge) => EdgeEntity(edge.id)
    case DeleteNode(id) => NodeEntity(id)
    case DeleteEdge(id) => EdgeEntity(id)
  }

  /** No later operation concerns the same entity. */
  predicate IsFinal(ops: seq<Op>, k: nat)
    requires k < |ops|
  {
    forall j | k < j < |ops| :: EntityOf(ops[j]) != EntityOf(ops[k])
  }

  /** After the operations, an entity is as the last operation on it left it. */
  lemma {:induction false} LastOperationWins(g: Graph, ops: seq<Op>, commit: u64, k: nat)
    requires k < |ops| && IsFinal(ops, k)
    ensures var after := ApplyOps(g, ops, commit);
            match ops[k]
            case PutNode(node) => node.id in after.nodes && after.nodes[node.id] == node.(begin := commit)
            case PutEdge(edge) => edge.id in after.edges && after.edges[edge.id] == edge.(begin := commit)
            case DeleteNode(id) => id !in after.nodes
            case DeleteEdge(id) => id !in after.edges
  {
    if k < |ops| - 1 {
      var front := ops[..|ops| - 1];
      assert IsFinal(front, k);
      LastOperationWins(g, front, commit, k);
      assert EntityOf(ops[|ops| - 1]) != EntityOf(ops[k]);
    }
  }

  /** An entity that no operation concerns is as it was. */
  lemma {:induction false} UntouchedStays(g: Graph, ops: seq<Op>, commit: u64, e: Entity)
    requires forall j | 0 <= j < |ops| :: EntityOf(ops[j]) != e
    ensures var after := ApplyOps(g, ops, commit);
            match e
            case NodeEntity(id) =>
              (id in after.nodes <==> id in g.nodes) && (id in g.nodes ==> after.nodes[id] == g.nodes[id])
            case EdgeEntity(id) =>
              (id in after.edges <==> id in g.edges) && (id in g.edges ==> after.edges[id] == g.edges[id])
  {
    if |ops| > 0 {
      UntouchedStays(g, ops[..|ops| - 1], commit, e);
      assert EntityOf(ops[|ops| - 1]) != e;
    }
  }

  /** An edge is staged exactly when the last operation on it is a put. */
  lemma {:induction false} StagedEdgeIsFinal(ops: seq<Op>, k: nat)
    requires k < |ops| && IsFinal(ops, k) && ops[k].PutEdge?
    ensures ops[k].edge.id in StageOps(ops).putEdges && StageOps(ops).putEdges[ops[k].edge.id] == ops[k].edge
  {
    if k < |ops| - 1 {
      var front := ops[..|ops| - 1];
      assert IsFinal(front, k);
      StagedEdgeIsFinal(front, k);
      assert EntityOf(ops[|ops| - 1]) != EntityOf(ops[k]);
    }
  }

  lemma {:induction false} FinalPut(ops: seq<Op>, id: u64) returns (k: nat)
    requires id in StageOps(ops).putEdges
    ensures k < |ops| && IsFinal(ops, k) && ops[k].PutEdge? && ops[k].edge == StageOps(ops).putEdges[id]
    ensures ops[k].edge.id == id
  {
    var front, last := ops[..|ops| - 1], ops[|ops| - 1];
    if last.PutEdge? && last.edge.id == id {
      k := |ops| - 1;
    } else {
      k := FinalPut(front, id);
      forall j | k < j < |ops|
        ensures EntityOf(ops[j]) != EntityOf(ops[k])
      {
        assert j < |front| ==> EntityOf(front[j]) != EntityOf(front[k]);
      }
    }
  }

  // ---- the transaction that is logged ----

  /** The puts in id order, stamped with the commit. */
  function Stamped<B>(puts: map<u64, View<B>>, ids: seq<u64>, commit: u64): (views: seq<View<B>>)
    requires forall id | id in ids :: id in puts
    ensures |views| == |ids|
    ensures forall i | 0 <= i < |ids| :: views[i] == Stamp(puts[ids[i]], commit)
  {
    seq(|ids|, i requires 0 <= i < |ids| => Stamp(puts[ids[i]], commit))
  }

  function PutsInOrder<B>(puts: map<u64, View<B>>, commit: u64): seq<View<B>>
  {
    Stamped(puts, InOrder(puts.Keys), commit)
  }

  function LoggedTxn(s: Staged, parent: u64, commit: u64): Txn
  {
    TxnOf(parent, commit, PutsInOrder(s.putNodes, commit), PutsInOrder(s.putEdges, commit),
          InOrder(s.deleteNodes), InOrder(s.deleteEdges))
  }

  function PutVersions<B>(views: seq<View<B>>): (vs: seq<Version<B>>)
    ensures |vs| == |views|
  {
    seq(|views|, i requires 0 <= i < |views| => Version(views[i], false))
  }

  function NodeDropVersions(ids: seq<u64>, commit: u64): (vs: seq<Version<NodeBody>>)
    ensures |vs| == |ids|
  {
    seq(|ids|, i requires 0 <= i < |ids| => Version(TombstoneNode(ids[i], commit), true))
  }

  function EdgeDropVersions(ids: seq<u64>, commit: u64): (vs: seq<Version<EdgeBody>>)
    ensures |vs| == |ids|
  {
    seq(|ids|, i requires 0 <= i < |ids| => Version(TombstoneEdge(ids[i], commit), true))
  }

  lemma {:induction false} VersionsOfNodePuts(nodes: seq<Node>)
    ensures NodeVersions(NodePuts(nodes)) == PutVersions(nodes)
    ensures EdgeVersions(NodePuts(nodes)) == []
  {
    if |nodes| > 0 {
      var front := nodes[..|nodes| - 1];
      VersionsOfNodePuts(front);
      assert NodePuts(nodes)[..|nodes| - 1] == NodePuts(front);
    }
  }

  lemma {:induction false} VersionsOfEdgePuts(edges: seq<Edge>)
    ensures EdgeVersions(EdgePuts(edges)) == PutVersions(edges)
    ensures NodeVersions(EdgePuts(edges)) == []
  {
    if |edges| > 0 {
      var front := edges[..|edges| - 1];
      VersionsOfEdgePuts(front);
      assert EdgePuts(edges)[..|edges| - 1] == EdgePuts(front);
    }
  }

  lemma {:induction false} VersionsOfNodeDrops(ids: seq<u64>, commit: u64)
    ensures NodeVersions(NodeDrops(ids, commit)) == NodeDropVersions(ids, commit)
    ensures EdgeVersions(NodeDrops(ids, commit)) == []
  {
    if |ids| > 0 {
      var front := ids[..|ids| - 1];
      VersionsOfNodeDrops(front, commit);
      assert NodeDrops(ids, commit)[..|ids| - 1] == NodeDrops(front, commit);
    }
  }

  lemma {:induction false} VersionsOfEdgeDrops(ids: seq<u64>, commit: u64)
    ensures EdgeVersions(EdgeDrops(ids, commit)) == EdgeDropVersions(ids, commit)
    ensures NodeVersions(EdgeDrops(ids, commit)) == []
  {
    if |ids| > 0 {
      var front := ids[..|ids| - 1];
      VersionsOfEdgeDrops(front, commit);
      assert EdgeDrops(ids, commit)[..|ids| - 1] == EdgeDrops(front, commit);
    }
  }

  /** The versions a logged transaction adds: puts, then tombstones, each in id order. */
  lemma {:induction false} LoggedVersions(parent: u64, commit: u64, nodes: seq<Node>, edges: seq<Edge>,
                       nodeIds: seq<u64>, edgeIds: seq<u64>)
    ensures var ms := TxnOf(parent, commit, nodes, edges, nodeIds, edgeIds).mutations;
            && NodeVersions(ms) == PutVersions(nodes) + NodeDropVersions(nodeIds, commit)
            && EdgeVersions(ms) == PutVersions(edges) + EdgeDropVersions(edgeIds, commit)
  {
    hide NodeVersions, EdgeVersions, NodePuts, NodeDrops, EdgePuts, EdgeDrops, PutVersions,
      NodeDropVersions, EdgeDropVersions;
    var a, b, c, d := NodePuts(nodes), NodeDrops(nodeIds, commit), EdgePuts(edges), EdgeDrops(edgeIds, commit);
    VersionsOfNodePuts(nodes);
    VersionsOfNodeDrops(nodeIds, commit);
    VersionsOfEdgePuts(edges);
    VersionsOfEdgeDrops(edgeIds, commit);
    NodeVersionsAppend(a, b);
    NodeVersionsAppend(a + b, c);
    NodeVersionsAppend(a + b + c, d);
    EdgeVersionsAppend(a, b);
    EdgeVersionsAppend(a + b, c);
    EdgeVersionsAppend(a + b + c, d);
  }

  // ---- replaying the logged transaction ----

  lemma {:induction false} LivePushBack<B>(vs: seq<Version<B>>, v: Version<B>)
    ensures Live(vs + [v]) == Overwrite(Live(vs), v)
  {
    assert (vs + [v])[..|vs|] == vs;
  }

  function IdSet(ids: seq<u64>): set<u64>
  {
    set id | id in ids
  }

  /** live with the stamped puts of the given ids on top. */
  function Overlay<B>(live: map<u64, View<B>>, puts: map<u64, View<B>>, ids: set<u64>, commit: u64): map<u64, View<B>>
    requires ids <= puts.Keys
  {
    map id | id in live.Keys + ids :: if id in ids then Stamp(puts[id], commit) else live[id]
  }

  lemma OverlayOne<B>(live: map<u64, View<B>>, puts: map<u64, View<B>>, ids: set<u64>, id: u64, commit: u64)
    requires ids <= puts.Keys && id in puts && puts[id].id == id
    ensures Overlay(live, puts, ids + {id}, commit)
         == Overwrite(Overlay(live, puts, ids, commit), Version(Stamp(puts[id], commit), false))
  {
  }

  lemma OverlayMerge<B>(live: map<u64, View<B>>, puts: map<u64, View<B>>, drops: set<u64>, commit: u64)
    requires puts.Keys !! drops
    ensures Overlay(live, puts, puts.Keys, commit) - drops == Merge(live, puts, drops, commit)
  {
  }

  lemma {:induction false} LivePuts<B>(vs: seq<Version<B>>, puts: map<u64, View<B>>, ids: seq<u64>, commit: u64)
    requires forall id | id in ids :: id in puts && puts[id].id == id
    ensures Live(vs + PutVersions(Stamped(puts, ids, commit)))
         == Overlay(Live(vs), puts, IdSet(ids), commit)
  {
    hide Live, Overlay, Overwrite;
    if |ids| == 0 {
      assert vs + PutVersions(Stamped(puts, ids, commit)) == vs;
      assert IdSet(ids) == {};
      OverlayNone(Live(vs), puts, commit);
    } else {
      var front, last := ids[..|ids| - 1], ids[|ids| - 1];
      assert ids == front + [last];
      LivePuts(vs, puts, front, commit);
      var v := Version(Stamp(puts[last], commit), false);
      assert PutVersions(Stamped(puts, ids, commit)) == PutVersions(Stamped(puts, front, commit)) + [v];
      var before := vs + PutVersions(Stamped(puts, front, commit));
      assert vs + PutVersions(Stamped(puts, ids, commit)) == before + [v];
      LivePushBack(before, v);
      assert IdSet(ids) == IdSet(front) + {last};
      OverlayOne(Live(vs), puts, IdSet(front), last, commit);
    }
  }

  lemma OverlayNone<B>(live: map<u64, View<B>>, puts: map<u64, View<B>>, commit: u64)
    ensures Overlay(live, puts, {}, commit) == live
  {
  }

  lemma {:induction false} LiveNodeDrops(vs: seq<Version<NodeBody>>, ids: seq<u64>, commit: u64)
    ensures Live(vs + NodeDropVersions(ids, commit)) == Live(vs) - IdSet(ids)
  {
    if |ids| == 0 {
      assert vs + NodeDropVersions(ids, commit) == vs;
    } else {
      var front, last := ids[..|ids| - 1], ids[|ids| - 1];
      assert ids == front + [last];
      LiveNodeDrops(vs, front, commit);
      var all := vs + NodeDropVersions(ids, commit);
      assert all[..|all| - 1] == vs + NodeDropVersions(front, commit);
      assert all[|all| - 1] == Version(TombstoneNode(last, commit), true);
    }
  }

  lemma {:induction false} LiveEdgeDrops(vs: seq<Version<EdgeBody>>, ids: seq<u64>, commit: u64)
    ensures Live(vs + EdgeDropVersions(ids, commit)) == Live(vs) - IdSet(ids)
  {
    if |ids| == 0 {
      assert vs + EdgeDropVersions(ids, commit) == vs;
    } else {
      var front, last := ids[..|ids| - 1], ids[|ids| - 1];
      assert ids == front + [last];
      LiveEdgeDrops(vs, front, commit);
      var all := vs + EdgeDropVersions(ids, commit);
      assert all[..|all| - 1] == vs + EdgeDropVersions(front, commit);
      assert all[|all| - 1] == Version(TombstoneEdge(last, commit), true);
    }
  }

  lemma {:induction false} LogGrows(ts: seq<Txn>, t: Txn)
    ensures NodesOfLog(ts + [t]) == NodesOfLog(ts) + NodeVersions(t.mutations)
    ensures EdgesOfLog(ts + [t]) == EdgesOfLog(ts) + EdgeVersions(t.mutations)
  {
    hide NodeVersions, EdgeVersions;
    assert (ts + [t])[..|ts|] == ts;
    NodeVersionsAppend(Mutations(ts), t.mutations);
    EdgeVersionsAppend(Mutations(ts), t.mutations);
  }

  /** Replaying the logged transaction has the effect of what was staged. */
  lemma {:induction false} ReplayLogged(ts: seq<Txn>, s: Staged, commit: u64)
    requires Tidy(s) && |ts| < TWO_64
    ensures Replay(ts + [LoggedTxn(s, |ts|, commit)]) == CommitStaged(Replay(ts), s, commit)
  {
    hide Live, NodeVersions, EdgeVersions, NodesOfLog, EdgesOfLog, PutVersions, NodeDropVersions,
      EdgeDropVersions, Stamped;
    var t := LoggedTxn(s, |ts|, commit);
    LogGrows(ts, t);
    var nodeIds, edgeIds := InOrder(s.putNodes.Keys), InOrder(s.putEdges.Keys);
    LoggedVersions(|ts|, commit, Stamped(s.putNodes, nodeIds, commit), Stamped(s.putEdges, edgeIds, commit),
                   InOrder(s.deleteNodes), InOrder(s.deleteEdges));
    ReplayNodes(NodesOfLog(ts), s, commit);
    ReplayEdges(EdgesOfLog(ts), s, commit);
  }

  lemma {:induction false} ReplayNodes(vs: seq<Version<NodeBody>>, s: Staged, commit: u64)
    requires Tidy(s)
    ensures Live(vs + (PutVersions(PutsInOrder(s.putNodes, commit)) + NodeDropVersions(InOrder(s.deleteNodes), commit)))
         == Merge(Live(vs), s.putNodes, s.deleteNodes, commit)
  {
    hide Live, PutVersions, NodeDropVersions, Stamped, Merge, Overlay;
    var ids := InOrder(s.putNodes.Keys);
    assert IdSet(ids) == s.putNodes.Keys;
    assert IdSet(InOrder(s.deleteNodes)) == s.deleteNodes;
    OverlayMerge(Live(vs), s.putNodes, s.deleteNodes, commit);
    var puts := PutVersions(Stamped(s.putNodes, ids, commit));
    var drops := NodeDropVersions(InOrder(s.deleteNodes), commit);
    assert vs + (puts + drops) == (vs + puts) + drops;
    LivePuts(vs, s.putNodes, ids, commit);
    LiveNodeDrops(vs + puts, InOrder(s.deleteNodes), commit);
    assert Live((vs + puts) + drops) == Overlay(Live(vs), s.putNodes, s.putNodes.Keys, commit) - s.deleteNodes;
  }

  lemma {:induction false} ReplayEdges(vs: seq<Version<EdgeBody>>, s: Staged, commit: u64)
    requires Tidy(s)
    ensures Live(vs + (PutVersions(PutsInOrder(s.putEdges, commit)) + EdgeDropVersions(InOrder(s.deleteEdges), commit)))
         == Merge(Live(vs), s.putEdges, s.deleteEdges, commit)
  {
    hide Live, PutVersions, EdgeDropVersions, Stamped, Merge, Overlay;
    var ids := InOrder(s.putEdges.Keys);
    assert IdSet(ids) == s.putEdges.Keys;
    assert IdSet(InOrder(s.deleteEdges)) == s.deleteEdges;
    OverlayMerge(Live(vs), s.putEdges, s.deleteEdges, commit);
    var puts := PutVersions(Stamped(s.putEdges, ids, commit));
    var drops := EdgeDropVersions(InOrder(s.deleteEdges), commit);
    assert vs + (puts + drops) == (vs + puts) + drops;
    LivePuts(vs, s.putEdges, ids, commit);
    LiveEdgeDrops(vs + puts, InOrder(s.deleteEdges), commit);
    assert Live((vs + puts) + drops) == Overlay(Live(vs), s.putEdges, s.putEdges.Keys, commit) - s.deleteEdges;
  }

  // ---- the transaction object ----

  function ValidateNode(id: u64, name: Text, interval: Interval, properties: PropertyMap, limits: Limits): Result<()>
  {
    if id == 0 then Err(Usage)
    else if name == [] then Err(Usage)
    else if !interval.Valid() then Err(Temporal)
    else if |properties| > limits.maxProperties then Err(ResourceLimit)
    else Ok(())
  }

  function ValidateEdge(id: u64, from: u64, to: u64, kind: Text, interval: Interval, properties: PropertyMap,
                        limits: Limits): Result<()>
  {
    if id == 0 then Err(Usage)
    else if from == 0 || to == 0 then Err(Usage)
    else if kind == [] then Err(Usage)
    else if !interval.Valid() then Err(Temporal)
    else if |properties| > limits.maxProperties then Err(ResourceLimit)
    else Ok(())
  }

  /** The writer's staging area; closed once committed or aborted. */
  class Transaction {
    const limits: Limits
    var putNodes: map<u64, Node>
    var putEdges: map<u64, Edge>
    var deleteNodes: set<u64>
    var deleteEdges: set<u64>
    var closed: bool
    ghost var ops: seq<Op>

    function Pending(): Staged
      reads this
    {
      Staged(putNodes, putEdges, deleteNodes, deleteEdges)
    }

    ghost predicate Valid()
      reads this
    {
      Pending() == StageOps(ops)
    }

    constructor (limits: Limits)
      ensures Valid() && ops == [] && !closed && this.limits == limits
    {
      this.limits := limits;
      putNodes, putEdges, deleteNodes, deleteEdges, closed, ops := map[], map[], {}, {}, false, [];
    }

    method PutNode(id: u64, name: Text, interval: Interval, properties: PropertyMap) returns (r: Result<()>)
      requires Valid()
      modifies this
      ensures Valid() && closed == old(closed)
      ensures r == if closed then Err(Conflict)
                   else if id == 0 || |name| == 0 then Err(Usage)
                   else if interval.start >= interval.end then Err(Temporal)
                   else if |properties| > limits.maxProperties then Err(ResourceLimit)
                   else Ok(())
      ensures ops == if r.Ok? then old(ops) + [Op.PutNode(View(id, interval, properties, 0, NodeBody(name)))]
                     else old(ops)
    {
      if closed {
        return Err(Conflict);
      }
      r := ValidateNode(id, name, interval, properties, limits);
      if r.Ok? {
        var node := View(id, interval, properties, 0, NodeBody(name));
        deleteNodes := deleteNodes - {id};
        putNodes := putNodes[id := node];
        ops := ops + [Op.PutNode(node)];
        assert ops[..|ops| - 1] == old(ops);
      }
    }

    method PutEdge(id: u64, from: u64, to: u64, kind: Text, interval: Interval, properties: PropertyMap)
      returns (r: Result<()>)
      requires Valid()
      modifies this
      ensures Valid() && closed == old(closed)
      ensures r == if closed then Err(Conflict)
                   else if id == 0 || from == 0 || to == 0 || |kind| == 0 then Err(Usage)
                   else if interval.start >= interval.end then Err(Temporal)
                   else if |properties| > limits.maxProperties then Err(ResourceLimit)
                   else Ok(())
      ensures ops == if r.Ok? then old(ops) + [Op.PutEdge(View(id, interval, properties, 0, EdgeBody(from, to, kind)))]
                     else old(ops)
    {
      if closed {
        return Err(Conflict);
      }
      r := ValidateEdge(id, from, to, kind, interval, properties, limits);
      if r.Ok? {
        var edge := View(id, interval, properties, 0, EdgeBody(from, to, kind));
        deleteEdges := deleteEdges - {id};
        putEdges := putEdges[id := edge];
        ops := ops + [Op.PutEdge(edge)];
        assert ops[..|ops| - 1] == old(ops);
      }
    }

    method DeleteNode(id: u64) returns (r: Result<()>)
      requires Valid()
      modifies this
      ensures Valid() && closed == old(closed)
      ensures r == if closed then Err(Conflict) else if id == 0 then Err(Usage) else Ok(())
      ensures ops == if r.Ok? then old(ops) + [Op.DeleteNode(id)] else old(ops)
    {
      if closed {
        return Err(Conflict);
      }
      if id == 0 {
        return Err(Usage);
      }
      putNodes := putNodes - {id};
      deleteNodes := deleteNodes + {id};
      ops := ops + [Op.DeleteNode(id)];
      assert ops[..|ops| - 1] == old(ops);
      r := Ok(());
    }

    method DeleteEdge(id: u64) returns (r: Result<()>)
      requires Valid()
      modifies this
      ensures Valid() && closed == old(closed)
      ensures r == if closed then Err(Conflict) else if id == 0 then Err(Usage) else Ok(())
      ensures ops == if r.Ok? then old(ops) + [Op.DeleteEdge(id)] else old(ops)
    {
      if closed {
        return Err(Conflict);
      }
      if id == 0 {
        return Err(Usage);
      }
      putEdges := putEdges - {id};
      deleteEdges := deleteEdges + {id};
      ops := ops + [Op.DeleteEdge(id)];
      assert ops[..|ops| - 1] == old(ops);
      r := Ok(());
    }

    /** A closed transaction accepts nothing more; its staged changes stay as they are. */
    method Close()
      requires Valid()
      modifies this`closed
      ensures Valid() && closed && Pending() == old(Pending())
    {
      closed := true;
    }

    method Abort()
      requires Valid()
      modifies this`closed
      ensures Valid() && closed && Pending() == old(Pending())
    {
      Close();
    }
  }

  // ---- a transaction that poisons the log ----

  /** Positive infinity. */
  const INFINITY: u64 := 0x7ff0_0000_0000_0000

  /** A node labelled "a" with the property "a" set to infinity. */
  const INFINITE_NODE: Node :=
    View(1, Interval(0, 1), [Property([97], DoubleValue(INFINITY))], 0, NodeBody([97]))

  lemma {:induction false} OneIdInOrder(id: u64)
    ensures InOrder({id}) == [id] && InOrder({}) == []
  {
    AscendingUnique(InOrder({id}), [id]);
  }

  lemma {:induction false} OnePutLogged(node: Node, commit: u64)
    ensures StageOps([Op.PutNode(node)]) == Staged(map[node.id := node], map[], {}, {})
    ensures LoggedTxn(StageOps([Op.PutNode(node)]), 0, commit) == Txn(0, commit, [NodeMutation(Stamp(node, commit), false)])
  {
    var ops, s := [Op.PutNode(node)], Staged(map[node.id := node], map[], {}, {});
    assert StageOps(ops[..0]) == NOTHING;
    OneIdInOrder(node.id);
    assert s.putNodes.Keys == {node.id} && s.putEdges.Keys == {};
    assert PutsInOrder(s.putNodes, commit) == [Stamp(node, commit)];
    assert PutsInOrder(s.putEdges, commit) == [];
    assert NodePuts([Stamp(node, commit)]) == [NodeMutation(Stamp(node, commit), false)];
  }

  lemma {:induction false} InfiniteNodeEncodes(node: Node, limits: Limits)
    requires node == INFINITE_NODE.(begin := 1)
    requires limits.maxStringBytes >= 1 && limits.maxProperties >= 1
    ensures EncodeNode(node, false, limits).Ok? && |NodeBytes(node, false)| < TWO_64
    ensures !EntriesReadable(node.properties, limits)
  {
    hide LittleEndian;
    var p := node.properties[0];
    assert node.properties == [p];
    assert EntriesBytes(node.properties[1..]) == [];
    NodeFixedSize(node, false);
    assert |EntryBytes(p)| == 14;
    assert !Finite(INFINITY);
    assert p in node.properties && !ValueReadable(p.value, limits);
  }

  /**
   A transaction that its own checks and the writer accept and the reader refuses: one put of a node with an
   infinite property. By the log's results, committing it fails and poisons the file.
   */
  lemma {:induction false} PoisonExample(limits: Limits)
    requires limits.maxStringBytes >= 1 && limits.maxProperties >= 1
    ensures ValidateNode(1, [97], Interval(0, 1), INFINITE_NODE.properties, limits) == Ok(())
    ensures var t := LoggedTxn(StageOps([Op.PutNode(INFINITE_NODE)]), 0, 1);
            WellSized(t) && Writable(t, limits) && !Recoverable(t, limits)
  {
    hide LoggedTxn, StageOps, EntriesReadable, NodeBytes, EncodeNode;
    var node := INFINITE_NODE.(begin := 1);
    OnePutLogged(INFINITE_NODE, 1);
    InfiniteNodeEncodes(node, limits);
    var m := NodeMutation(node, false);
    var t := LoggedTxn(StageOps([Op.PutNode(INFINITE_NODE)]), 0, 1);
    assert t.mutations == [m] && m in t.mutations;
    assert !MutationFinite(m, limits);
  }
}
