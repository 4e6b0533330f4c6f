/**
 The invariant of a store's transactions: commits are numbered, every transaction changes each entity at
 most once, and every edge is born with both endpoints live. A commit that passes the endpoint check keeps
 it.
 */
module Journal {
  import opened Bytes
  import opened Values
  import opened Ordering
  import opened OgrLog
  import opened History
  import opened Staging
  import opened Reopen
  import opened ChangeLog

  ghost predicate BornLive(t: Txn, g: Graph)
  {
    forall m | m in t.mutations && m.EdgeMutation? && !m.tombstone ::
      m.edge.body.from in g.nodes && m.edge.body.to in g.nodes
  }

  /** Every edge version is born with both endpoints live at its own commit. */
  ghost predicate EndpointsLive(ts: seq<Txn>)
  {
    forall i | 0 <= i < |ts| :: BornLive(ts[i], Replay(ts[..i + 1]))
  }

  ghost predicate AllSingle(ts: seq<Txn>)
  {
    forall t | t in ts :: Single(t)
  }

  ghost predicate IsJournal(ts: seq<Txn>)
  {
    Numbered(ts) && AllSingle(ts) && EndpointsLive(ts)
  }

  // ---- the endpoint check ----

  predicate EndpointOk(live: map<u64, Node>, s: Staged, id: u64)
  {
    (id in live || id in s.putNodes) && id !in s.deleteNodes
  }

  predicate EndpointsOk(live: map<u64, Node>, s: Staged)
  {
    forall id | id in s.putEdges ::
      EndpointOk(live, s, s.putEdges[id].body.from) && EndpointOk(live, s, s.putEdges[id].body.to)
  }

  // ---- extending the journal ----

  lemma {:induction false} StampedPuts<B>(puts: map<u64, View<B>>, commit: u64)
    requires forall id | id in puts :: puts[id].id == id
    ensures IdAscending(PutsInOrder(puts, commit))
    ensures forall v | v in PutsInOrder(puts, commit) ::
              v.begin == commit && v.id in puts && v == Stamp(puts[v.id], commit)
  {
    var ids, views := InOrder(puts.Keys), PutsInOrder(puts, commit);
    forall i | 0 <= i < |views|
      ensures views[i].id == ids[i] && views[i] == Stamp(puts[ids[i]], commit)
    {
      assert ids[i] in ids;
    }
  }

  lemma {:induction false} PutsAndDropsOnce<B(!new)>(views: seq<View<B>>, drops: seq<Version<B>>, ids: seq<u64>)
    requires IdAscending(views) && Ascending(ids) && |drops| == |ids|
    requires forall i | 0 <= i < |ids| :: drops[i].view.id == ids[i]
    requires forall v | v in views :: v.id !in ids
    ensures OncePerId(PutVersions(views) + drops)
  {
    var all := PutVersions(views) + drops;
    forall i, j | 0 <= i < j < |all|
      ensures all[i].view.id != all[j].view.id
    {
      if i < |views| && j >= |views| {
        assert views[i] in views && ids[j - |views|] in ids;
      }
    }
  }

  lemma {:induction false} LoggedIsSingle(s: Staged, parent: u64, commit: u64)
    requires Tidy(s)
    ensures Single(LoggedTxn(s, parent, commit))
  {
    hide PutVersions, NodeDropVersions, EdgeDropVersions, NodeVersions, EdgeVersions, PutsInOrder;
    var nodes, edges := PutsInOrder(s.putNodes, commit), PutsInOrder(s.putEdges, commit);
    var nodeIds, edgeIds := InOrder(s.deleteNodes), InOrder(s.deleteEdges);
    LoggedVersions(parent, commit, nodes, edges, nodeIds, edgeIds);
    StampedPuts(s.putNodes, commit);
    StampedPuts(s.putEdges, commit);
    NodeDropIds(nodeIds, commit);
    EdgeDropIds(edgeIds, commit);
    PutsAndDropsOnce(nodes, NodeDropVersions(nodeIds, commit), nodeIds);
    PutsAndDropsOnce(edges, EdgeDropVersions(edgeIds, commit), edgeIds);
  }

  /** Every logged mutation carries the commit, and every edge put was staged. */
  lemma {:induction false} LoggedMutation(s: Staged, parent: u64, commit: u64, m: Mutation)
    requires Tidy(s) && m in LoggedTxn(s, parent, commit).mutations
    ensures BeginOf(m) == commit
    ensures m.EdgeMutation? && !m.tombstone ==>
              m.edge.id in s.putEdges && m.edge == Stamp(s.putEdges[m.edge.id], commit)
  {
    hide PutsInOrder, InOrder, IdAscending, Stamp;
    StampedPuts(s.putNodes, commit);
    StampedPuts(s.putEdges, commit);
    var nodes, edges := PutsInOrder(s.putNodes, commit), PutsInOrder(s.putEdges, commit);
    var nodeIds, edgeIds := InOrder(s.deleteNodes), InOrder(s.deleteEdges);
    if m in NodePuts(nodes) {
      var i :| 0 <= i < |nodes| && m == NodeMutation(nodes[i], false);
      assert nodes[i] in nodes;
    } else if m in NodeDrops(nodeIds, commit) {
      var i :| 0 <= i < |nodeIds| && m == NodeMutation(TombstoneNode(nodeIds[i], commit), true);
    } else if m in EdgePuts(edges) {
      var i :| 0 <= i < |edges| && m == EdgeMutation(edges[i], false);
      assert edges[i] in edges;
    } else {
      var i :| 0 <= i < |edgeIds| && m == EdgeMutation(TombstoneEdge(edgeIds[i], commit), true);
    }
  }

  /** An endpoint passes the check exactly when it is live once the transaction is committed. */
  lemma EndpointMeans(g: Graph, s: Staged, commit: u64, id: u64)
    requires Tidy(s)
    ensures EndpointOk(g.nodes, s, id) <==> id in CommitStaged(g, s, commit).nodes
  {
  }

  /** Every edge whose last operation is a put has both endpoints in the graph. */
  ghost predicate NoneDangles(ops: seq<Op>, g: Graph)
  {
    forall k | 0 <= k < |ops| && IsFinal(ops, k) && ops[k].PutEdge? ::
      ops[k].edge.body.from in g.nodes && ops[k].edge.body.to in g.nodes
  }

  /** The endpoint check of a commit passes exactly when no edge it puts dangles once the operations are done. */
  lemma {:induction false} EndpointsMean(g: Graph, ops: seq<Op>, commit: u64)
    ensures EndpointsOk(g.nodes, StageOps(ops)) <==> NoneDangles(ops, ApplyOps(g, ops, commit))
  {
    hide StageOps, ApplyOps, CommitStaged, EndpointOk, IsFinal;
    StagedIsTidy(ops);
    StagingIsSequential(g, ops, commit);
    var s, after := StageOps(ops), ApplyOps(g, ops, commit);
    forall id: u64
      ensures EndpointOk(g.nodes, s, id) <==> id in after.nodes
    {
      EndpointMeans(g, s, commit, id);
    }
    if NoneDangles(ops, after) {
      forall id | id in s.putEdges
        ensures EndpointOk(g.nodes, s, s.putEdges[id].body.from) && EndpointOk(g.nodes, s, s.putEdges[id].body.to)
      {
        var k := FinalPut(ops, id);
      }
    }
    if EndpointsOk(g.nodes, s) {
      forall k | 0 <= k < |ops| && IsFinal(ops, k) && ops[k].PutEdge?
        ensures ops[k].edge.body.from in after.nodes && ops[k].edge.body.to in after.nodes
      {
        StagedEdgeIsFinal(ops, k);
      }
    }
  }

  lemma {:induction false} LoggedBornLive(ts: seq<Txn>, s: Staged, commit: u64)
    requires Tidy(s) && |ts| < TWO_64 && EndpointsOk(Replay(ts).nodes, s)
    ensures BornLive(LoggedTxn(s, |ts|, commit), Replay(ts + [LoggedTxn(s, |ts|, commit)]))
  {
    hide LoggedTxn, Replay, CommitStaged;
    var t := LoggedTxn(s, |ts|, commit);
    ReplayLogged(ts, s, commit);
    forall m | m in t.mutations && m.EdgeMutation? && !m.tombstone
      ensures m.edge.body.from in Replay(ts + [t]).nodes && m.edge.body.to in Replay(ts + [t]).nodes
    {
      LoggedMutation(s, |ts|, commit, m);
      EndpointMeans(Replay(ts), s, commit, m.edge.body.from);
      EndpointMeans(Replay(ts), s, commit, m.edge.body.to);
    }
  }

  lemma LoggedNumbers(s: Staged, parent: u64, commit: u64)
    ensures LoggedTxn(s, parent, commit).parent == parent && LoggedTxn(s, parent, commit).commit == commit
  {
  }

  /** A checked transaction extends the journal. */
  lemma {:induction false} JournalGrows(ts: seq<Txn>, s: Staged)
    requires IsJournal(ts) && Tidy(s) && |ts| + 1 < TWO_64
    requires EndpointsOk(Replay(ts).nodes, s)
    ensures IsJournal(ts + [LoggedTxn(s, |ts|, |ts| + 1)])
  {
    hide LoggedTxn, Replay, Single, BornLive, EndpointsOk, BeginOf, Tidy;
    var t := LoggedTxn(s, |ts|, |ts| + 1);
    var all := ts + [t];
    LoggedNumbers(s, |ts|, |ts| + 1);
    forall m | m in t.mutations
      ensures BeginOf(m) == |ts| + 1
    {
      LoggedMutation(s, |ts|, |ts| + 1, m);
    }
    LoggedIsSingle(s, |ts|, |ts| + 1);
    LoggedBornLive(ts, s, |ts| + 1);
    forall i | 0 <= i < |all|
      ensures BornLive(all[i], Replay(all[..i + 1]))
    {
      if i < |ts| {
        assert all[..i + 1] == ts[..i + 1];
      } else {
        assert all[..i + 1] == all;
      }
    }
    assert Numbered(all);
  }

  /** The first k transactions of a journal are a journal. */
  lemma {:induction false} JournalPrefix(ts: seq<Txn>, k: nat)
    requires IsJournal(ts) && k <= |ts|
    ensures IsJournal(ts[..k])
  {
    hide Replay, BornLive, Single;
    forall i | 0 <= i < k
      ensures BornLive(ts[..k][i], Replay(ts[..k][..i + 1]))
    {
      assert ts[..k][..i + 1] == ts[..i + 1];
    }
  }
}
