/**
 Reopening a store: the reader regroups all puts before all tombstones and the loader re-sorts each
 history with an arbitrary sort, yet the live histories and the change log come back.
 */
module Reopen {
  import opened Bytes
  import opened Values
  import opened Ordering
  import opened OgrLog
  import opened History
  import opened Staging

  // ---- the image, seen as versions ----

  function ViewsWith<B>(vs: seq<Version<B>>, tombstone: bool): seq<View<B>>
  {
    if |vs| == 0 then [] else
    ViewsWith(vs[..|vs| - 1], tombstone)
    + if vs[|vs| - 1].tombstone == tombstone then [vs[|vs| - 1].view] else []
  }

  lemma {:induction false} ViewsWithAppend<B>(a: seq<Version<B>>, b: seq<Version<B>>, tombstone: bool)
    ensures ViewsWith(a + b, tombstone) == ViewsWith(a, tombstone) + ViewsWith(b, tombstone)
  {
    if |b| == 0 {
      assert a + b == a;
    } else {
      ViewsWithAppend(a, b[..|b| - 1], tombstone);
      assert (a + b)[..|a + b| - 1] == a + b[..|b| - 1];
    }
  }

  lemma {:induction false} ViewsWithPushBack<B>(vs: seq<Version<B>>, v: Version<B>)
    ensures ViewsWith(vs + [v], v.tombstone) == ViewsWith(vs, v.tombstone) + [v.view]
    ensures ViewsWith(vs + [v], !v.tombstone) == ViewsWith(vs, !v.tombstone)
  {
    assert (vs + [v])[..|vs|] == vs;
  }

  lemma {:induction false} ViewsWithMembers<B(!new)>(vs: seq<Version<B>>, tombstone: bool)
    ensures forall x :: x in ViewsWith(vs, tombstone) <==> Version(x, tombstone) in vs
  {
    if |vs| > 0 {
      ViewsWithMembers(vs[..|vs| - 1], tombstone);
      assert vs == vs[..|vs| - 1] + [vs[|vs| - 1]];
    }
  }

  lemma {:induction false} ApplyMutationsParts(image: Image, ms: seq<Mutation>)
    ensures ApplyMutations(image, ms)
         == Image(image.latest,
                  image.nodes + ViewsWith(NodeVersions(ms), false),
                  image.edges + ViewsWith(EdgeVersions(ms), false),
                  image.nodeTombstones + ViewsWith(NodeVersions(ms), true),
                  image.edgeTombstones + ViewsWith(EdgeVersions(ms), true))
  {
    if |ms| > 0 {
      ApplyMutationsParts(image, ms[..|ms| - 1]);
      var nodes, edges := NodeVersions(ms[..|ms| - 1]), EdgeVersions(ms[..|ms| - 1]);
      match ms[|ms| - 1]
      case NodeMutation(node, tombstone) =>
        assert NodeVersions(ms) == nodes + [Version(node, tombstone)] && EdgeVersions(ms) == edges;
        ViewsWithPushBack(nodes, Version(node, tombstone));
      case EdgeMutation(edge, tombstone) =>
        assert EdgeVersions(ms) == edges + [Version(edge, tombstone)] && NodeVersions(ms) == nodes;
        ViewsWithPushBack(edges, Version(edge, tombstone));
    }
  }

  function LatestOf(ts: seq<Txn>): u64
  {
    if |ts| == 0 then 0 else ts[|ts| - 1].commit
  }

  /** What the reader returns for a whole log. */
  lemma {:induction false} ImageParts(ts: seq<Txn>)
    ensures ImageOf(ts) == Image(LatestOf(ts), ViewsWith(NodesOfLog(ts), false), ViewsWith(EdgesOfLog(ts), false),
                                 ViewsWith(NodesOfLog(ts), true), ViewsWith(EdgesOfLog(ts), true))
  {
    hide NodeVersions, EdgeVersions, ViewsWith, ApplyMutations;
    if |ts| == 0 {
      EmptyParts();
    } else {
      var front, t := ts[..|ts| - 1], ts[|ts| - 1];
      assert ts == front + [t];
      ImageParts(front);
      ImageFromAppend(EMPTY_IMAGE, front, [t]);
      ImageFromOne(ImageOf(front), t);
      ApplyMutationsParts(ImageOf(front), t.mutations);
      LogGrows(front, t);
      ViewsWithAppend(NodesOfLog(front), NodeVersions(t.mutations), false);
      ViewsWithAppend(NodesOfLog(front), NodeVersions(t.mutations), true);
      ViewsWithAppend(EdgesOfLog(front), EdgeVersions(t.mutations), false);
      ViewsWithAppend(EdgesOfLog(front), EdgeVersions(t.mutations), true);
    }
  }

  lemma EmptyParts()
    ensures ImageOf([]) == EMPTY_IMAGE
    ensures NodesOfLog([]) == [] && EdgesOfLog([]) == []
    ensures ViewsWith<NodeBody>([], false) == [] && ViewsWith<NodeBody>([], true) == []
    ensures ViewsWith<EdgeBody>([], false) == [] && ViewsWith<EdgeBody>([], true) == []
  {
  }

  // ---- histories come back ----

  function Tagged<B>(views: seq<View<B>>, tombstone: bool): (vs: seq<Version<B>>)
    ensures |vs| == |views|
  {
    seq(|views|, i requires 0 <= i < |views| => Version(views[i], tombstone))
  }

  /** All puts first, then all tombstones: the order in which the loader files versions. */
  function Regrouped<B>(vs: seq<Version<B>>): seq<Version<B>>
  {
    Tagged(ViewsWith(vs, false), false) + Tagged(ViewsWith(vs, true), true)
  }

  lemma {:induction false} OfIdPushBack<B>(vs: seq<Version<B>>, v: Version<B>, id: u64)
    ensures OfId(vs + [v], id) == OfId(vs, id) + if v.view.id == id then [v] else []
  {
    assert (vs + [v])[..|vs|] == vs;
  }

  lemma {:induction false} RegroupedPushBack<B>(vs: seq<Version<B>>, v: Version<B>)
    ensures var puts, drops := Tagged(ViewsWith(vs, false), false), Tagged(ViewsWith(vs, true), true);
            Regrouped(vs + [v]) == if v.tombstone then puts + (drops + [v]) else (puts + [v]) + drops
  {
    ViewsWithPushBack(vs, v);
  }

  lemma {:induction false} RegroupedKeepsVersions<B(!new)>(vs: seq<Version<B>>, id: u64)
    ensures multiset(OfId(Regrouped(vs), id)) == multiset(OfId(vs, id))
  {
    hide OfId, Tagged, ViewsWith;
    if |vs| == 0 {
      RegroupedNothing<B>(id);
    } else {
      var front, v := vs[..|vs| - 1], vs[|vs| - 1];
      assert vs == front + [v];
      var puts, drops := Tagged(ViewsWith(front, false), false), Tagged(ViewsWith(front, true), true);
      RegroupedKeepsVersions(front, id);
      RegroupedPushBack(front, v);
      OfIdAppend(puts, drops, id);
      OfIdAppend(puts, drops + [v], id);
      OfIdAppend(puts + [v], drops, id);
      OfIdPushBack(puts, v, id);
      OfIdPushBack(drops, v, id);
      OfIdPushBack(front, v, id);
    }
  }

  lemma {:induction false} OfIdAppend<B(!new)>(a: seq<Version<B>>, b: seq<Version<B>>, id: u64)
    ensures OfId(a + b, id) == OfId(a, id) + OfId(b, id)
  {
    FilterAppend(a, b, HasId(id));
  }

  lemma RegroupedNothing<B>(id: u64)
    ensures Regrouped<B>([]) == [] && OfId<B>([], id) == []
  {
  }

  ghost predicate BeginsRise<B>(history: seq<Version<B>>)
  {
    forall i, j | 0 <= i < j < |history| :: history[i].view.begin < history[j].view.begin
  }

  function ByBegin<B>(): (Version<B>, Version<B>) -> bool
  {
    (a: Version<B>, b: Version<B>) => a.view.begin < b.view.begin
  }

  lemma ByBeginOrder<B(!new)>()
    ensures StrictWeakOrder(ByBegin<B>())
  {
  }

  /** Any sort by begin restores a history whose begins all differ. */
  lemma {:induction false} SortRestores<B(!new)>(sorted: seq<Version<B>>, history: seq<Version<B>>)
    requires multiset(sorted) == multiset(history) && Ordered(sorted, ByBegin<B>()) && BeginsRise(history)
    ensures sorted == history
  {
    MultisetMembers(sorted, history);
    forall x, y | x in sorted && y in sorted && x != y
      ensures ByBegin<B>()(x, y) || ByBegin<B>()(y, x)
    {
      assert x in history && y in history;
      var i :| 0 <= i < |history| && history[i] == x;
      var j :| 0 <= j < |history| && history[j] == y;
    }
    OrderedUnique(sorted, history, ByBegin<B>());
  }

  /** Files all puts, then all tombstones. */
  method FileVersions<B(!new)>(puts: seq<View<B>>, drops: seq<View<B>>) returns (versions: VersionMap<B>)
    ensures versions == GroupById(Tagged(puts, false) + Tagged(drops, true))
  {
    hide GroupById;
    GroupNothing<B>();
    versions := map[];
    for i := 0 to |puts|
      invariant versions == GroupById(Tagged(puts[..i], false))
    {
      var v := Version(puts[i], false);
      GroupPushBack(Tagged(puts[..i], false), v);
      assert Tagged(puts[..i + 1], false) == Tagged(puts[..i], false) + [v];
      versions := PushVersion(versions, v);
    }
    assert puts[..|puts|] == puts;
    ghost var filed := Tagged(puts, false);
    assert filed + Tagged(drops[..0], true) == filed;
    for i := 0 to |drops|
      invariant versions == GroupById(filed + Tagged(drops[..i], true))
    {
      var v := Version(drops[i], true);
      GroupPushBack(filed + Tagged(drops[..i], true), v);
      assert filed + Tagged(drops[..i + 1], true) == filed + Tagged(drops[..i], true) + [v];
      versions := PushVersion(versions, v);
    }
    assert drops[..|drops|] == drops;
  }

  lemma GroupNothing<B>()
    ensures GroupById<B>([]) == map[]
    ensures Tagged<B>([], false) == []
  {
  }

  ghost predicate SortedFrom<B(!new)>(sorted: seq<Version<B>>, filed: seq<Version<B>>)
  {
    multiset(sorted) == multiset(filed) && Ordered(sorted, ByBegin<B>())
  }

  /** The histories of the ids in done are sorted, the others are as filed. */
  ghost predicate SortedOn<B(!new)>(versions: VersionMap<B>, filed: VersionMap<B>, done: set<u64>)
  {
    && versions.Keys == filed.Keys
    && forall id | id in filed ::
         if id in done then SortedFrom(versions[id], filed[id]) else versions[id] == filed[id]
  }

  lemma {:induction false} SortOne<B(!new)>(versions: VersionMap<B>, filed: VersionMap<B>, done: set<u64>, id: u64, sorted: seq<Version<B>>)
    requires SortedOn(versions, filed, done) && id in filed && SortedFrom(sorted, filed[id])
    ensures SortedOn(versions[id := sorted], filed, done + {id})
  {
    hide SortedFrom;
  }

  method SortHistories<B(!new)>(filed: VersionMap<B>) returns (versions: VersionMap<B>)
    ensures SortedOn(versions, filed, filed.Keys)
  {
    hide SortedFrom, SortedOn;
    var ids := InOrder(filed.Keys);
    versions := filed;
    ghost var done: set<u64> := {};
    NothingSorted(filed);
    for k := 0 to |ids|
      invariant SortedOn(versions, filed, done)
      invariant forall i | 0 <= i < |ids| :: i < k <==> ids[i] in done
      invariant done <= filed.Keys
    {
      assert ids[k] in ids;
      SortedOnKeys(versions, filed, done, ids[k]);
      var sorted := SortHistory(versions[ids[k]]);
      SortOne(versions, filed, done, ids[k], sorted);
      versions := versions[ids[k] := sorted];
      done := done + {ids[k]};
    }
    forall id | id in filed
      ensures id in done
    {
      assert id in ids;
    }
    assert done == filed.Keys;
  }

  lemma NothingSorted<B(!new)>(filed: VersionMap<B>)
    ensures SortedOn(filed, filed, {})
  {
  }

  lemma SortedOnKeys<B(!new)>(versions: VersionMap<B>, filed: VersionMap<B>, done: set<u64>, id: u64)
    requires SortedOn(versions, filed, done) && id in filed && id !in done
    ensures id in versions && versions[id] == filed[id]
  {
  }

  method SortHistory<B(!new)>(history: seq<Version<B>>) returns (sorted: seq<Version<B>>)
    ensures SortedFrom(sorted, history)
  {
    ByBeginOrder<B>();
    sorted := Sort(history, ByBegin<B>());
  }

  /** No id occurs twice with the same begin, in any history. */
  ghost predicate AllRise<B>(vs: seq<Version<B>>)
  {
    forall id: u64 :: BeginsRise(OfId(vs, id))
  }

  lemma {:induction false} IdsRegrouped<B(!new)>(vs: seq<Version<B>>)
    ensures Ids(Regrouped(vs)) == Ids(vs)
  {
    forall id: u64
      ensures id in Ids(Regrouped(vs)) <==> id in Ids(vs)
    {
      RegroupedKeepsVersions(vs, id);
      OfIdAbsent(vs, id);
      OfIdAbsent(Regrouped(vs), id);
      assert |multiset(OfId(vs, id))| == |OfId(vs, id)|;
      assert |multiset(OfId(Regrouped(vs), id))| == |OfId(Regrouped(vs), id)|;
    }
  }

  /** The loader's regrouping and re-sorting gives back the live histories. */
  method LoadVersions<B(!new)>(puts: seq<View<B>>, drops: seq<View<B>>, ghost vs: seq<Version<B>>)
    returns (versions: VersionMap<B>)
    requires puts == ViewsWith(vs, false) && drops == ViewsWith(vs, true) && AllRise(vs)
    ensures versions == GroupById(vs)
  {
    hide Ids, OfId, Tagged, ViewsWith, BeginsRise;
    var filed := FileVersions(puts, drops);
    assert filed == GroupById(Regrouped(vs));
    versions := SortHistories(filed);
    IdsRegrouped(vs);
    forall id | id in Ids(vs)
      ensures versions[id] == OfId(vs, id)
    {
      RegroupedKeepsVersions(vs, id);
      SortRestores(versions[id], OfId(vs, id));
    }
  }

  // ---- why histories rise ----

  ghost predicate OncePerId<B>(vs: seq<Version<B>>)
  {
    forall i, j | 0 <= i < j < |vs| :: vs[i].view.id != vs[j].view.id
  }

  /** A transaction changes each entity at most once. */
  ghost predicate Single(t: Txn)
  {
    OncePerId(NodeVersions(t.mutations)) && OncePerId(EdgeVersions(t.mutations))
  }

  lemma {:induction false} OnceOfId<B(!new)>(vs: seq<Version<B>>, id: u64)
    requires OncePerId(vs)
    ensures |OfId(vs, id)| <= 1
  {
    if |vs| > 0 {
      var front := vs[..|vs| - 1];
      OnceOfId(front, id);
      FilterMembers(front, HasId(id));
      if |OfId(front, id)| > 0 {
        assert OfId(front, id)[0] in OfId(front, id);
        assert OfId(front, id)[0] in front;
      }
    }
  }

  lemma {:induction false} RiseAppend<B(!new)>(a: seq<Version<B>>, b: seq<Version<B>>, c: nat)
    requires AllRise(a) && OncePerId(b)
    requires forall v | v in a :: v.view.begin < c
    requires forall v | v in b :: v.view.begin == c
    ensures AllRise(a + b)
  {
    forall id: u64
      ensures BeginsRise(OfId(a + b, id))
    {
      assert BeginsRise(OfId(a, id));
      FilterAppend(a, b, HasId(id));
      FilterMembers(a, HasId(id));
      FilterMembers(b, HasId(id));
      OnceOfId(b, id);
      var x: seq<Version<B>> := OfId(a, id);
      var y: seq<Version<B>> := OfId(b, id);
      var all: seq<Version<B>> := x + y;
      forall i, j | 0 <= i < j < |all|
        ensures all[i].view.begin < all[j].view.begin
      {
        if j == |x| {
          assert x[i] in x && y[0] in y;
        }
      }
    }
  }

  lemma EmptyRises()
    ensures AllRise(NodesOfLog([])) && AllRise(EdgesOfLog([]))
  {
  }

  lemma {:induction false} OneTxnLog(t: Txn)
    ensures NodesOfLog([t]) == NodeVersions(t.mutations) && EdgesOfLog([t]) == EdgeVersions(t.mutations)
  {
    MutationsOne(t);
  }

  lemma {:induction false} LogRises(ts: seq<Txn>)
    requires Numbered(ts) && forall t | t in ts :: Single(t)
    ensures AllRise(NodesOfLog(ts)) && AllRise(EdgesOfLog(ts))
  {
    hide NodesOfLog, EdgesOfLog, NodeVersions, EdgeVersions, AllRise;
    if |ts| == 0 {
      EmptyRises();
    } else {
      var n := |ts| - 1;
      var front, t := ts[..n], ts[n];
      assert ts == front + [t] && t in ts;
      LogRises(front);
      LogSplit(ts, n);
      assert ts[n..] == [t];
      OneTxnLog(t);
      RiseAppend(NodesOfLog(front), NodeVersions(t.mutations), n + 1);
      RiseAppend(EdgesOfLog(front), EdgeVersions(t.mutations), n + 1);
    }
  }
}
