/**
 Version histories: what the in-memory maps of the store hold for a logged list of transactions,
 which version a commit sees, and the naive graph that replays the log.
 */
module History {
  import opened Bytes
  import opened Results
  import opened Values
  import opened Ordering
  import opened OgrLog

  datatype Version<B> = Version(view: View<B>, tombstone: bool)

  type VersionMap<B> = map<u64, seq<Version<B>>>

  // ---- the versions a log holds ----

  function NodeVersions(ms: seq<Mutation>): (vs: seq<Version<NodeBody>>)
    ensures |vs| <= |ms|
  {
    if |ms| == 0 then [] else
    NodeVersions(ms[..|ms| - 1])
    + match ms[|ms| - 1]
      case NodeMutation(node, tombstone) => [Version(node, tombstone)]
      case EdgeMutation(_, _) => []
  }

  function EdgeVersions(ms: seq<Mutation>): (vs: seq<Version<EdgeBody>>)
    ensures |vs| <= |ms|
  {
    if |ms| == 0 then [] else
    EdgeVersions(ms[..|ms| - 1])
    + match ms[|ms| - 1]
      case NodeMutation(_, _) => []
      case EdgeMutation(edge, tombstone) => [Version(edge, tombstone)]
  }

  function Mutations(ts: seq<Txn>): seq<Mutation>
  {
    if |ts| == 0 then [] else Mutations(ts[..|ts| - 1]) + ts[|ts| - 1].mutations
  }

  function NodesOfLog(ts: seq<Txn>): seq<Version<NodeBody>>
  {
    NodeVersions(Mutations(ts))
  }

  function EdgesOfLog(ts: seq<Txn>): seq<Version<EdgeBody>>
  {
    EdgeVersions(Mutations(ts))
  }

  lemma {:induction false} NodeVersionsAppend(a: seq<Mutation>, b: seq<Mutation>)
    ensures NodeVersions(a + b) == NodeVersions(a) + NodeVersions(b)
  {
    if |b| == 0 {
      assert a + b == a;
    } else {
      NodeVersionsAppend(a, b[..|b| - 1]);
      assert (a + b)[..|a + b| - 1] == a + b[..|b| - 1];
    }
  }

  lemma {:induction false} EdgeVersionsAppend(a: seq<Mutation>, b: seq<Mutation>)
    ensures EdgeVersions(a + b) == EdgeVersions(a) + EdgeVersions(b)
  {
    if |b| == 0 {
      assert a + b == a;
    } else {
      EdgeVersionsAppend(a, b[..|b| - 1]);
      assert (a + b)[..|a + b| - 1] == a + b[..|b| - 1];
    }
  }

  lemma {:induction false} MutationsAppend(a: seq<Txn>, b: seq<Txn>)
    ensures Mutations(a + b) == Mutations(a) + Mutations(b)
  {
    if |b| == 0 {
      assert a + b == a;
    } else {
      MutationsAppend(a, b[..|b| - 1]);
      assert (a + b)[..|a + b| - 1] == a + b[..|b| - 1];
    }
  }

  lemma {:induction false} MutationsOne(t: Txn)
    ensures Mutations([t]) == t.mutations
  {
    assert Mutations([t][..0]) == [];
  }

  lemma {:induction false} NodeVersionsMembers(ms: seq<Mutation>)
    ensures forall v :: v in NodeVersions(ms) <==> NodeMutation(v.view, v.tombstone) in ms
  {
    if |ms| > 0 {
      NodeVersionsMembers(ms[..|ms| - 1]);
      assert ms == ms[..|ms| - 1] + [ms[|ms| - 1]];
    }
  }

  lemma {:induction false} EdgeVersionsMembers(ms: seq<Mutation>)
    ensures forall v :: v in EdgeVersions(ms) <==> EdgeMutation(v.view, v.tombstone) in ms
  {
    if |ms| > 0 {
      EdgeVersionsMembers(ms[..|ms| - 1]);
      assert ms == ms[..|ms| - 1] + [ms[|ms| - 1]];
    }
  }

  // ---- histories by id ----

  function HasId<B>(id: u64): Version<B> -> bool
  {
    (v: Version<B>) => v.view.id == id
  }

  /** The history of one id: its versions in log order. */
  function OfId<B>(vs: seq<Version<B>>, id: u64): seq<Version<B>>
  {
    Filter(vs, HasId(id))
  }

  function Ids<B>(vs: seq<Version<B>>): set<u64>
  {
    set i | 0 <= i < |vs| :: vs[i].view.id
  }

  function GroupById<B>(vs: seq<Version<B>>): VersionMap<B>
  {
    map id | id in Ids(vs) :: OfId(vs, id)
  }

  /** versions[v.id].push_back(v), which creates the history when it is missing. */
  function PushVersion<B>(versions: VersionMap<B>, v: Version<B>): VersionMap<B>
  {
    versions[v.view.id := (if v.view.id in versions then versions[v.view.id] else []) + [v]]
  }

  lemma {:induction false} OfIdAbsent<B(!new)>(vs: seq<Version<B>>, id: u64)
    ensures |OfId(vs, id)| == 0 <==> id !in Ids(vs)
  {
    FilterMembers(vs, HasId(id));
    if |OfId(vs, id)| > 0 {
      assert OfId(vs, id)[0] in OfId(vs, id);
      assert OfId(vs, id)[0] in vs;
    }
    if id in Ids(vs) {
      var i :| 0 <= i < |vs| && vs[i].view.id == id;
      assert vs[i] in OfId(vs, id);
    }
  }

  lemma {:induction false} IdsPushBack<B>(vs: seq<Version<B>>, v: Version<B>)
    ensures Ids(vs + [v]) == Ids(vs) + {v.view.id}
  {
    var all := vs + [v];
    assert all[|vs|] == v;
    forall i | 0 <= i < |vs|
      ensures vs[i].view.id in Ids(all)
    {
      assert all[i] == vs[i];
    }
    forall i | 0 <= i < |all|
      ensures all[i].view.id in Ids(vs) + {v.view.id}
    {
      assert i < |vs| ==> all[i] == vs[i];
    }
  }

  lemma {:induction false} GroupPushBack<B(!new)>(vs: seq<Version<B>>, v: Version<B>)
    ensures GroupById(vs + [v]) == PushVersion(GroupById(vs), v)
  {
    hide Ids;
    var id := v.view.id;
    assert (vs + [v])[..|vs|] == vs;
    OfIdAbsent(vs, id);
    IdsPushBack(vs, v);
    forall x | x in Ids(vs + [v])
      ensures GroupById(vs + [v])[x] == PushVersion(GroupById(vs), v)[x]
    {
      assert OfId(vs + [v], x) == OfId(vs, x) + if x == id then [v] else [];
    }
  }

  /** The last version begun no later than the commit. */
  function LatestAt<B>(history: seq<Version<B>>, commit: nat): Option<Version<B>>
  {
    if |history| == 0 then None
    else if history[|history| - 1].view.begin <= commit then Some(history[|history| - 1])
    else LatestAt(history[..|history| - 1], commit)
  }

  /** The entities a commit sees: those whose latest version is not a tombstone. */
  function VisibleAt<B>(versions: VersionMap<B>, commit: nat): map<u64, View<B>>
  {
    map id | id in versions && LatestAt(versions[id], commit).Some?
             && !LatestAt(versions[id], commit).value.tombstone
      :: LatestAt(versions[id], commit).value.view
  }

  // ---- the naive graph ----

  datatype Graph = Graph(nodes: map<u64, Node>, edges: map<u64, Edge>)

  /** A put replaces the entity, a tombstone removes it. */
  function Overwrite<B>(live: map<u64, View<B>>, v: Version<B>): map<u64, View<B>>
  {
    if v.tombstone then live - {v.view.id} else live[v.view.id := v.view]
  }

  function Live<B>(vs: seq<Version<B>>): map<u64, View<B>>
  {
    if |vs| == 0 then map[] else Overwrite(Live(vs[..|vs| - 1]), vs[|vs| - 1])
  }

  /** The graph after replaying a log from the empty graph. */
  function Replay(ts: seq<Txn>): Graph
  {
    Graph(Live(NodesOfLog(ts)), Live(EdgesOfLog(ts)))
  }

  /** An entity is live exactly when its history ends in a put. */
  lemma {:induction false} LiveIsLast<B(!new)>(vs: seq<Version<B>>, id: u64)
    ensures var h := OfId(vs, id);
            && (id in Live(vs) <==> |h| > 0 && !h[|h| - 1].tombstone)
            && (id in Live(vs) ==> Live(vs)[id] == h[|h| - 1].view)
  {
    if |vs| > 0 {
      LiveIsLast(vs[..|vs| - 1], id);
    }
  }

  lemma {:induction false} LatestOfEarly<B>(history: seq<Version<B>>, commit: nat)
    requires forall v | v in history :: v.view.begin <= commit
    ensures LatestAt(history, commit) == if |history| == 0 then None else Some(history[|history| - 1])
  {
    if |history| > 0 {
      assert history[|history| - 1] in history;
    }
  }

  lemma {:induction false} LatestIgnoresLate<B>(early: seq<Version<B>>, late: seq<Version<B>>, commit: nat)
    requires forall v | v in late :: v.view.begin > commit
    ensures LatestAt(early + late, commit) == LatestAt(early, commit)
  {
    if |late| == 0 {
      assert early + late == early;
    } else {
      var n := |early + late| - 1;
      assert (early + late)[n] == late[|late| - 1] && late[|late| - 1] in late;
      assert (early + late)[..n] == early + late[..|late| - 1];
      LatestIgnoresLate(early, late[..|late| - 1], commit);
    }
  }

  /** What a commit sees depends only on the versions begun by then, and is what replaying them leaves. */
  lemma {:induction false} VisibleIsLive<B(!new)>(early: seq<Version<B>>, late: seq<Version<B>>, commit: nat)
    requires forall v | v in early :: v.view.begin <= commit
    requires forall v | v in late :: v.view.begin > commit
    ensures VisibleAt(GroupById(early + late), commit) == Live(early)
  {
    var versions := GroupById(early + late);
    forall id: u64
      ensures id in VisibleAt(versions, commit) <==> id in Live(early)
      ensures id in Live(early) ==> VisibleAt(versions, commit)[id] == Live(early)[id]
    {
      VisibleIdIsLive(early, late, commit, id);
    }
  }

  lemma {:induction false} VisibleIdIsLive<B(!new)>(early: seq<Version<B>>, late: seq<Version<B>>, commit: nat, id: u64)
    requires forall v | v in early :: v.view.begin <= commit
    requires forall v | v in late :: v.view.begin > commit
    ensures var versions := GroupById(early + late);
            && (id in VisibleAt(versions, commit) <==> id in Live(early))
            && (id in Live(early) ==> VisibleAt(versions, commit)[id] == Live(early)[id])
  {
    hide Live, LatestAt, Ids;
    var all := OfId(early + late, id);
    FilterAppend(early, late, HasId(id));
    FilterMembers(early, HasId(id));
    FilterMembers(late, HasId(id));
    OfIdAbsent(early + late, id);
    LatestIgnoresLate(OfId(early, id), OfId(late, id), commit);
    LatestOfEarly(OfId(early, id), commit);
    LiveIsLast(early, id);
  }

  // ---- numbered logs ----

  /** Commits are numbered 1, 2, 3, ... and every version carries the number of its transaction. */
  ghost predicate Numbered(ts: seq<Txn>)
  {
    forall i | 0 <= i < |ts| ::
      && ts[i].parent == i && ts[i].commit == i + 1
      && forall m | m in ts[i].mutations :: BeginOf(m) == i + 1
  }

  lemma {:induction false} BeginsInRange(ts: seq<Txn>, lo: nat)
    requires forall i | 0 <= i < |ts| :: forall m | m in ts[i].mutations :: BeginOf(m) == lo + i + 1
    ensures forall m | m in Mutations(ts) :: lo < BeginOf(m) <= lo + |ts|
  {
    hide BeginOf;
    if |ts| > 0 {
      BeginsInRange(ts[..|ts| - 1], lo);
    }
  }

  lemma {:induction false} LogSplit(ts: seq<Txn>, c: nat)
    requires Numbered(ts) && c <= |ts|
    ensures NodesOfLog(ts) == NodesOfLog(ts[..c]) + NodesOfLog(ts[c..])
    ensures EdgesOfLog(ts) == EdgesOfLog(ts[..c]) + EdgesOfLog(ts[c..])
    ensures forall v | v in NodesOfLog(ts[..c]) :: 0 < v.view.begin <= c
    ensures forall v | v in EdgesOfLog(ts[..c]) :: 0 < v.view.begin <= c
    ensures forall v | v in NodesOfLog(ts[c..]) :: c < v.view.begin <= |ts|
    ensures forall v | v in EdgesOfLog(ts[c..]) :: c < v.view.begin <= |ts|
  {
    hide NodeVersions, EdgeVersions, Mutations;
    var a, b := ts[..c], ts[c..];
    assert ts == a + b;
    MutationsAppend(a, b);
    NodeVersionsAppend(Mutations(a), Mutations(b));
    EdgeVersionsAppend(Mutations(a), Mutations(b));
    BeginsInRange(a, 0);
    BeginsInRange(b, c);
    NodeVersionsMembers(Mutations(a));
    NodeVersionsMembers(Mutations(b));
    EdgeVersionsMembers(Mutations(a));
    EdgeVersionsMembers(Mutations(b));
    forall v | v in NodesOfLog(a)
      ensures 0 < v.view.begin <= c
    {
      assert BeginOf(NodeMutation(v.view, v.tombstone)) == v.view.begin;
    }
    forall v | v in NodesOfLog(b)
      ensures c < v.view.begin <= |ts|
    {
      assert BeginOf(NodeMutation(v.view, v.tombstone)) == v.view.begin;
    }
    forall v | v in EdgesOfLog(a)
      ensures 0 < v.view.begin <= c
    {
      assert BeginOf(EdgeMutation(v.view, v.tombstone)) == v.view.begin;
    }
    forall v | v in EdgesOfLog(b)
      ensures c < v.view.begin <= |ts|
    {
      assert BeginOf(EdgeMutation(v.view, v.tombstone)) == v.view.begin;
    }
  }

  /** Time travel: whatever the log holds after its first c transactions, commit c sees their replay. */
  lemma {:induction false} TimeTravel(ts: seq<Txn>, c: nat)
    requires Numbered(ts) && c <= |ts|
    ensures VisibleAt(GroupById(NodesOfLog(ts)), c) == Replay(ts[..c]).nodes
    ensures VisibleAt(GroupById(EdgesOfLog(ts)), c) == Replay(ts[..c]).edges
  {
    hide VisibleAt, GroupById, NodesOfLog, EdgesOfLog, Live;
    LogSplit(ts, c);
    VisibleIsLive(NodesOfLog(ts[..c]), NodesOfLog(ts[c..]), c);
    VisibleIsLive(EdgesOfLog(ts[..c]), EdgesOfLog(ts[c..]), c);
  }
}
