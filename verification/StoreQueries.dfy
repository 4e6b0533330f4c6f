/** Queries on a store: its snapshots are fit for querying, and a past commit never changes its answers. */
module StoreQueries {
  import opened Bytes
  import opened Values
  import opened Ordering
  import opened History
  import opened Snapshots
  import opened Execution
  import opened Journal
  import opened StoreDisk
  import opened GraphStore

  /** Every snapshot a store hands out is fit for querying. */
  lemma {:induction false} SnapshotIsFit(store: GraphStore, s: GraphSnapshot, c: u64, time: i64)
    requires store.Valid() && store.ShowsCommit(s, c, time)
    ensures Fit(s)
  {
    hide GraphSnapshot.Indexed, NaiveNodes, NaiveEdges, Live, OnDisk, Mirrors, EndpointsPresent, IdAscending, IsJournal;
    var g := Replay(store.journal[..c]);
    LiveKeyed(NodesOfLog(store.journal[..c]));
    LiveKeyed(EdgesOfLog(store.journal[..c]));
    NaiveViewsPass(g, time);
  }

  lemma {:induction false} LiveKeyed<B(!new)>(vs: seq<Version<B>>)
    ensures KeyedById(Live(vs))
  {
    if |vs| > 0 {
      LiveKeyed(vs[..|vs| - 1]);
    }
  }

  /**
   A past commit keeps answering the same: snapshots of two stores whose logs share their first c
   transactions hold the same nodes and edges at commit c and the same time.
   */
  lemma {:induction false} PastAnswersStay(one: GraphStore, s: GraphSnapshot, two: GraphStore, u: GraphSnapshot, c: u64, time: i64)
    requires one.ShowsCommit(s, c, time) && two.ShowsCommit(u, c, time)
    requires one.journal[..c] == two.journal[..c] && s.printer == u.printer
    ensures ContentsOf(s) == ContentsOf(u)
  {
    hide GraphSnapshot.Indexed, NaiveNodes, NaiveEdges, Replay;
  }
}
