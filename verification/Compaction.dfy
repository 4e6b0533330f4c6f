/**
 Compaction: plan what to retain, prove by probing that every retained snapshot is well formed, publish a
 replacement generation and retire the unpinned old ones. No version is rewritten.
 */
module Compaction {
  import opened Bytes
  import opened Results
  import opened Values
  import opened Checked
  import opened Ordering
  import opened OgrLog
  import opened History
  import opened Snapshots
  import opened Leases
  import opened Journal
  import opened StoreDisk
  import opened GraphStore

  datatype CompactionReport = CompactionReport(
    sourceLatest: u64, retainedFrom: u64, retainedThrough: u64, retainedNodes: nat, retainedEdges: nat,
    pinnedGenerations: nat, verifiedSnapshots: nat, verified: Extent, verificationPassed: bool, publishable: bool)

  /** How many nodes and edges snapshots held. */
  datatype Extent = Extent(nodes: nat, edges: nat)

  function Plus(a: Extent, b: Extent): Extent
  {
    Extent(a.nodes + b.nodes, a.edges + b.edges)
  }

  // ---- planning ----

  predicate InRange<B>(v: Version<B>, from: u64, through: u64)
  {
    from <= v.view.begin <= through
  }

  /** The entities with a version begun in the retained range. */
  function Touched<B>(versions: VersionMap<B>, from: u64, through: u64): set<u64>
  {
    set id | id in versions && AnyInRange(versions[id], from, through)
  }

  predicate AnyInRange<B>(history: seq<Version<B>>, from: u64, through: u64)
  {
    exists i | 0 <= i < |history| :: InRange(history[i], from, through)
  }

  /** An entity is touched when some version of it was begun in the range, both ends included. */
  lemma {:induction false} TouchedMeans<B(!new)>(versions: VersionMap<B>, from: u64, through: u64, id: u64)
    ensures id in Touched(versions, from, through)
       <==> id in versions && exists v :: v in versions[id] && from <= v.view.begin && v.view.begin <= through
  {
    if id in versions {
      if v :| v in versions[id] && from <= v.view.begin && v.view.begin <= through {
        var i :| 0 <= i < |versions[id]| && versions[id][i] == v;
        assert InRange(versions[id][i], from, through);
      }
      if i :| 0 <= i < |versions[id]| && InRange(versions[id][i], from, through) {
        assert versions[id][i] in versions[id];
      }
    }
  }

  method HasVersionInRange<B>(history: seq<Version<B>>, from: u64, through: u64) returns (retained: bool)
    ensures retained <==> AnyInRange(history, from, through)
  {
    retained := false;
    for i := 0 to |history|
      invariant retained <==> exists j | 0 <= j < i :: InRange(history[j], from, through)
    {
      if history[i].view.begin >= from && history[i].view.begin <= through {
        assert InRange(history[i], from, through);
        retained := true;
      }
    }
  }

  function TouchedAmong<B>(versions: VersionMap<B>, ids: seq<u64>, from: u64, through: u64): set<u64>
  {
    set id | id in ids && id in versions && AnyInRange(versions[id], from, through)
  }

  lemma {:induction false} TouchedNext<B>(versions: VersionMap<B>, ids: seq<u64>, k: nat, from: u64, through: u64)
    requires k < |ids| && Ascending(ids) && ids[k] in versions
    ensures ids[k] !in TouchedAmong(versions, ids[..k], from, through)
    ensures TouchedAmong(versions, ids[..k + 1], from, through)
         == TouchedAmong(versions, ids[..k], from, through)
            + if AnyInRange(versions[ids[k]], from, through) then {ids[k]} else {}
  {
    hide AnyInRange;
    assert ids[..k + 1] == ids[..k] + [ids[k]];
    assert ids[k] !in ids[..k];
  }

  lemma {:induction false} TouchedAll<B>(versions: VersionMap<B>, from: u64, through: u64)
    ensures TouchedAmong(versions, InOrder(versions.Keys), from, through) == Touched(versions, from, through)
    ensures TouchedAmong(versions, [], from, through) == {}
  {
    hide AnyInRange;
  }

  method CountTouched<B>(versions: VersionMap<B>, from: u64, through: u64) returns (count: nat)
    ensures count == |Touched(versions, from, through)|
  {
    hide AnyInRange, TouchedAmong, Touched;
    var ids := InOrder(versions.Keys);
    TouchedAll(versions, from, through);
    assert ids[..0] == [];
    count := 0;
    for k := 0 to |ids|
      invariant count == |TouchedAmong(versions, ids[..k], from, through)|
    {
      assert ids[k] in ids;
      TouchedNext(versions, ids, k, from, through);
      var retained := HasVersionInRange(versions[ids[k]], from, through);
      if retained {
        count := count + 1;
      } else {
        assert TouchedAmong(versions, ids[..k + 1], from, through) == TouchedAmong(versions, ids[..k], from, through);
      }
    }
    assert ids[..|ids|] == ids;
  }

  /** The first of the last keep commits, or of all of them. */
  function RetainedFrom(latest: u64, keep: nat): (from: u64)
    requires keep > 0
    ensures latest == 0 ==> from == 0
    ensures latest > 0 ==> 1 <= from <= latest && latest - from + 1 == if keep < latest then keep else latest
  {
    if latest == 0 then 0 else if keep >= latest then 1 else latest - keep + 1
  }

  /** No live snapshot holds a generation older than the retained range. */
  ghost predicate Publishable(store: GraphStore, keep: nat)
    requires keep > 0
    reads store, store.leases
  {
    store.latest == 0 || forall g: u64 | g in store.leases.live :: g >= RetainedFrom(store.latest, keep)
  }

  method PlanCompaction(store: GraphStore, keep: nat) returns (r: Result<CompactionReport>)
    requires store.Valid()
    ensures if keep == 0 then r == Err(Usage) else
            r.Ok?
            && r.value.sourceLatest == r.value.retainedThrough == store.latest
            && r.value.retainedFrom == RetainedFrom(store.latest, keep)
            && (r.value.publishable <==> Publishable(store, keep))
            && (store.latest > 0 ==>
                  r.value.retainedNodes == |Touched(store.nodes, r.value.retainedFrom, store.latest)|
                  && r.value.retainedEdges == |Touched(store.edges, r.value.retainedFrom, store.latest)|
                  && r.value.pinnedGenerations == |set g: u64 | g in store.leases.live|)
            && (store.latest == 0 ==>
                  r.value.retainedNodes == r.value.retainedEdges == r.value.pinnedGenerations == 0)
            && r.value.verifiedSnapshots == 0 && r.value.verified == Extent(0, 0) && !r.value.verificationPassed
  {
    hide Touched, IsJournal, OnDisk, Mirrors;
    if keep == 0 {
      return Err(Usage);
    }
    if store.latest == 0 {
      return Ok(CompactionReport(0, 0, 0, 0, 0, 0, 0, Extent(0, 0), false, true));
    }
    var from := RetainedFrom(store.latest, keep);
    var retainedNodes := CountTouched(store.nodes, from, store.latest);
    var retainedEdges := CountTouched(store.edges, from, store.latest);
    var stats := store.leases.Stats();
    var older := store.leases.HasPinnedOlderThan(from);
    return Ok(CompactionReport(store.latest, from, store.latest, retainedNodes, retainedEdges,
                               stats.pinnedGenerations, 0, Extent(0, 0), false, !older));
  }

  // ---- probing ----

  /** How much the naive view of a commit and a time holds. */
  ghost function ExtentOf(ts: seq<Txn>, commit: nat, time: i64): Extent
  {
    var g := Replay(if commit <= |ts| then ts[..commit] else ts);
    Extent(|NaiveNodes(g, time)|, |NaiveEdges(g, time)|)
  }

  /** It is the size of any list of what the commit and the time show. */
  lemma {:induction false} ExtentMeans(ts: seq<Txn>, commit: nat, time: i64, nodes: seq<Node>, edges: seq<Edge>)
    requires Numbered(ts) && commit <= |ts| && IsViewOf(nodes, edges, Replay(ts[..commit]), time)
    ensures ExtentOf(ts, commit, time) == Extent(|nodes|, |edges|)
  {
    hide Replay, NaiveNodes, NaiveEdges, ActiveIn, ActiveId, KeyedById, IdAscending, Numbered;
    var g := Replay(ts[..commit]);
    ReplayKeyed(ts, commit);
    NaiveViewMeans(g, time);
    IdAscendingUnique(nodes, NaiveNodes(g, time));
    IdAscendingUnique(edges, NaiveEdges(g, time));
  }

  ghost function Pick(times: set<i64>): (time: i64)
    requires times != {}
    ensures time in times
  {
    var time :| time in times;
    time
  }

  /** The sum over all times, in whatever order. */
  ghost function ExtentAt(ts: seq<Txn>, commit: nat, times: set<i64>): Extent
  {
    if times == {} then Extent(0, 0)
    else Plus(ExtentOf(ts, commit, Pick(times)), ExtentAt(ts, commit, times - {Pick(times)}))
  }

  /** The sum over some commits from one on. */
  ghost function ExtentFrom(ts: seq<Txn>, from: nat, commits: nat, times: set<i64>): Extent
    decreases commits
  {
    if commits == 0 then Extent(0, 0)
    else Plus(ExtentFrom(ts, from, commits - 1, times), ExtentAt(ts, from + commits - 1, times))
  }

  lemma {:induction false} ExtentNext(ts: seq<Txn>, from: nat, commits: nat, times: set<i64>)
    ensures Plus(ExtentFrom(ts, from, commits, times), ExtentAt(ts, from + commits, times))
         == ExtentFrom(ts, from, commits + 1, times)
  {
    hide ExtentAt;
  }

  lemma {:induction false} ExtentWithout(ts: seq<Txn>, commit: nat, times: set<i64>, time: i64)
    requires time in times
    ensures ExtentAt(ts, commit, times)
         == Plus(ExtentOf(ts, commit, time), ExtentAt(ts, commit, times - {time}))
    decreases |times|
  {
    hide ExtentOf;
    var first := Pick(times);
    if first != time {
      ExtentWithout(ts, commit, times - {first}, time);
      ExtentWithout(ts, commit, times - {time}, first);
      assert times - {first} - {time} == times - {time} - {first};
    }
  }

  /** One probe: materialize, check, release. On a valid store it cannot fail. */
  method Probe(store: GraphStore, commit: u64, time: i64) returns (r: Result<()>, extent: Extent)
    requires store.Valid() && commit <= store.latest
    modifies store.leases
    ensures store.Valid() && r == Ok(())
    ensures extent == ExtentOf(store.journal, commit, time)
    ensures store.leases.live == old(store.leases.live)
    ensures old(store.leases.knownGenerations) <= store.leases.knownGenerations
                                              <= old(store.leases.knownGenerations) + {GenerationOf(commit)}
    ensures store.leases.latestGeneration == Max(old(store.leases.latestGeneration), GenerationOf(commit))
  {
    hide IsJournal, OnDisk, Replay, NaiveNodes, NaiveEdges, IdAscending, EndpointsPresent, KeyedById,
      GraphSnapshot.Indexed, GraphStore.Valid;
    var s := store.MakeSnapshot(Some(commit), time);
    assert s.Ok?;
    ProbePasses(store, commit, time);
    r := VerifySnapshot(s.value);
    extent := Extent(|s.value.nodes|, |s.value.edges|);
    store.Release(s.value);
  }

  lemma {:induction false} ProbePasses(store: GraphStore, commit: u64, time: i64)
    requires store.Valid() && commit <= store.latest
    ensures commit <= |store.journal|
    ensures var g := Replay(store.journal[..commit]);
            && IdAscending(NaiveNodes(g, time)) && IdAscending(NaiveEdges(g, time))
            && EndpointsPresent(NaiveNodes(g, time), NaiveEdges(g, time))
  {
    hide OnDisk, Replay, NaiveNodes, NaiveEdges, IdAscending, EndpointsPresent, KeyedById, GroupById,
      ChangeLog.ChangesOf, ChangeLog.NonEmptyChanges, EndpointsLive, AllSingle, Numbered;
    ReplayKeyed(store.journal, commit);
    NaiveViewsPass(Replay(store.journal[..commit]), time);
  }

  /** The first and last instant of every retained put of one history. */
  function HistoryTimes<B>(history: seq<Version<B>>, from: u64, through: u64): set<i64>
  {
    if |history| == 0 then {} else
    var v := history[|history| - 1];
    HistoryTimes(history[..|history| - 1], from, through)
    + (if v.tombstone || !InRange(v, from, through) then {}
       else if v.view.interval.Valid() then {v.view.interval.start, v.view.interval.end - 1}
       else {v.view.interval.start})
  }

  function TimesAmong<B>(versions: VersionMap<B>, ids: seq<u64>, from: u64, through: u64): set<i64>
    requires forall id | id in ids :: id in versions
  {
    if |ids| == 0 then {} else
    assert ids[|ids| - 1] in ids;
    TimesAmong(versions, ids[..|ids| - 1], from, through) + HistoryTimes(versions[ids[|ids| - 1]], from, through)
  }

  function ProbeTimes<B, C>(nodes: VersionMap<B>, edges: VersionMap<C>, from: u64, through: u64): set<i64>
  {
    {0} + TimesAmong(nodes, InOrder(nodes.Keys), from, through) + TimesAmong(edges, InOrder(edges.Keys), from, through)
  }

  lemma {:induction false} ProbeTimesAre<B, C>(nodes: VersionMap<B>, edges: VersionMap<C>, from: u64, through: u64)
    ensures ProbeTimes(nodes, edges, from, through)
         == {0} + TimesAmong(nodes, InOrder(nodes.Keys), from, through)
            + TimesAmong(edges, InOrder(edges.Keys), from, through)
  {
    hide TimesAmong;
  }

  /** Both ends of every retained put are probed. */
  lemma {:induction false} RetainedPutsProbed<B>(history: seq<Version<B>>, from: u64, through: u64, i: nat)
    requires i < |history| && !history[i].tombstone && InRange(history[i], from, through)
    ensures history[i].view.interval.start in HistoryTimes(history, from, through)
    ensures history[i].view.interval.Valid() ==>
              history[i].view.interval.end - 1 in HistoryTimes(history, from, through)
    decreases |history|
  {
    if i < |history| - 1 {
      RetainedPutsProbed(history[..|history| - 1], from, through, i);
    }
  }

  /** Nothing else is probed for a history. */
  lemma {:induction false} HistoryTimesMean<B(!new)>(history: seq<Version<B>>, from: u64, through: u64, time: i64)
    ensures time in HistoryTimes(history, from, through)
       <==> exists v :: && v in history && !v.tombstone && from <= v.view.begin && v.view.begin <= through
                        && (time == v.view.interval.start
                            || (v.view.interval.start < v.view.interval.end && time == v.view.interval.end - 1))
    decreases |history|
  {
    if |history| > 0 {
      var front, last := history[..|history| - 1], history[|history| - 1];
      HistoryTimesMean(front, from, through, time);
      assert forall v :: v in history <==> v in front || v == last;
    }
  }

  /** The probe times are zero and those of the histories. */
  lemma {:induction false} ProbeTimesMean<B, C>(nodes: VersionMap<B>, edges: VersionMap<C>, from: u64, through: u64, time: i64)
    ensures time in ProbeTimes(nodes, edges, from, through)
       <==> || time == 0
            || (exists id :: id in nodes && time in HistoryTimes(nodes[id], from, through))
            || (exists id :: id in edges && time in HistoryTimes(edges[id], from, through))
  {
    hide HistoryTimes, TimesAmong;
    TimesAmongMeans(nodes, InOrder(nodes.Keys), from, through, time);
    TimesAmongMeans(edges, InOrder(edges.Keys), from, through, time);
  }

  lemma {:induction false} TimesAmongMeans<B>(versions: VersionMap<B>, ids: seq<u64>, from: u64, through: u64, time: i64)
    requires forall id | id in ids :: id in versions
    ensures time in TimesAmong(versions, ids, from, through)
       <==> exists id :: id in ids && time in HistoryTimes(versions[id], from, through)
  {
    hide HistoryTimes;
    if |ids| > 0 {
      var front, last := ids[..|ids| - 1], ids[|ids| - 1];
      assert last in ids;
      TimesAmongMeans(versions, front, from, through, time);
      assert forall id :: id in ids <==> id in front || id == last;
    }
  }

  method CollectTimes<B>(versions: VersionMap<B>, from: u64, through: u64) returns (times: set<i64>)
    ensures times == TimesAmong(versions, InOrder(versions.Keys), from, through)
  {
    hide HistoryTimes, TimesAmong, InOrder;
    var ids := InOrder(versions.Keys);
    times := {};
    TimesOfNone(versions, ids, from, through);
    for k := 0 to |ids|
      invariant times == TimesAmong(versions, ids[..k], from, through)
    {
      assert ids[k] in ids;
      TimesPushBack(versions, ids, k, from, through);
      var more := TimesOfHistory(versions[ids[k]], from, through);
      times := times + more;
    }
    assert ids[..|ids|] == ids;
  }

  lemma TimesOfNone<B>(versions: VersionMap<B>, ids: seq<u64>, from: u64, through: u64)
    ensures TimesAmong(versions, ids[..0], from, through) == {}
  {
  }

  lemma {:induction false} TimesPushBack<B>(versions: VersionMap<B>, ids: seq<u64>, k: nat, from: u64, through: u64)
    requires k < |ids| && forall id | id in ids :: id in versions
    ensures ids[k] in versions
    ensures TimesAmong(versions, ids[..k + 1], from, through)
         == TimesAmong(versions, ids[..k], from, through) + HistoryTimes(versions[ids[k]], from, through)
  {
    hide HistoryTimes;
    assert ids[k] in ids;
    assert ids[..k + 1][..k] == ids[..k];
  }

  method TimesOfHistory<B>(history: seq<Version<B>>, from: u64, through: u64) returns (times: set<i64>)
    ensures times == HistoryTimes(history, from, through)
  {
    times := {};
    for i := 0 to |history|
      invariant times == HistoryTimes(history[..i], from, through)
    {
      assert history[..i + 1][..i] == history[..i];
      var v := history[i];
      if !v.tombstone && v.view.begin >= from && v.view.begin <= through {
        times := times + {v.view.interval.start};
        if v.view.interval.end > v.view.interval.start {
          times := times + {v.view.interval.end - 1};
        }
      }
    }
    assert history[..|history|] == history;
  }

  // ---- verification and publication ----

  lemma PlusNothing(e: Extent)
    ensures Plus(Extent(0, 0), e) == e && Plus(e, Extent(0, 0)) == e
  {
  }

  lemma {:induction false} NoTimes(ts: seq<Txn>, commit: nat)
    ensures ExtentAt(ts, commit, {}) == Extent(0, 0)
  {
    hide ExtentOf;
  }

  lemma {:induction false} HeldMore(extent: Extent, ts: seq<Txn>, commit: nat, left: set<i64>, time: i64)
    requires time in left
    ensures Plus(Plus(extent, ExtentOf(ts, commit, time)), ExtentAt(ts, commit, left - {time}))
         == Plus(extent, ExtentAt(ts, commit, left))
  {
    hide ExtentOf, ExtentAt;
    ExtentWithout(ts, commit, left, time);
  }

  /** Probes one commit at every time. */
  method ProbeCommit(store: GraphStore, commit: u64, times: set<i64>) returns (r: Result<()>, probes: nat, extent: Extent)
    requires store.Valid() && commit <= store.latest
    modifies store.leases
    ensures store.Valid() && r == Ok(()) && probes == |times|
    ensures extent == ExtentAt(store.journal, commit, times)
    ensures store.leases.live == old(store.leases.live)
    ensures times == {} ==> store.leases.latestGeneration == old(store.leases.latestGeneration)
    ensures times != {} ==>
              store.leases.latestGeneration == Max(old(store.leases.latestGeneration), GenerationOf(commit))
  {
    hide GraphStore.Valid, ExtentOf, ExtentAt, Plus;
    ghost var ts := store.journal;
    var left := times;
    probes, extent := 0, Extent(0, 0);
    PlusNothing(ExtentAt(ts, commit, times));
    NoTimes(ts, commit);
    r := Ok(());
    while left != {}
      invariant store.Valid() && left <= times && probes + |left| == |times|
      invariant Plus(extent, ExtentAt(ts, commit, left)) == ExtentAt(ts, commit, times)
      invariant store.leases.live == old(store.leases.live)
      invariant store.leases.latestGeneration
             == if left == times then old(store.leases.latestGeneration)
                else Max(old(store.leases.latestGeneration), GenerationOf(commit))
      decreases |left|
    {
      var time :| time in left;
      var probed, held := Probe(store, commit, time);
      HeldMore(extent, ts, commit, left, time);
      left := left - {time};
      probes := probes + 1;
      extent := Plus(extent, held);
    }
    PlusNothing(extent);
  }

  /** One probe per commit and time. */
  function ProbesOf(commits: nat, times: set<i64>): nat
  {
    commits * |times|
  }

  /** Probes every commit from one to another; the loop, which only stops at the last one, stops. */
  method ProbeRange(store: GraphStore, from: u64, through: u64, times: set<i64>) returns (probes: nat, extent: Extent)
    requires store.Valid() && from <= through <= store.latest
    modifies store.leases
    ensures store.Valid() && store.leases.live == old(store.leases.live)
    ensures probes == ProbesOf(through - from + 1, times)
    ensures extent == ExtentFrom(store.journal, from, through - from + 1, times)
  {
    hide GraphStore.Valid, ExtentAt, ExtentFrom, Plus, ProbesOf;
    ghost var ts := store.journal;
    NothingYet(ts, from, times);
    NextProbes(0, times);
    var commit := from;
    probes, extent := 0, Extent(0, 0);
    while true
      invariant from <= commit <= through && store.Valid()
      invariant store.leases.live == old(store.leases.live)
      invariant probes == ProbesOf(commit - from, times)
      invariant extent == ExtentFrom(ts, from, commit - from, times)
      decreases through - commit
    {
      var probed, count, held := ProbeCommit(store, commit, times);
      NextProbes(commit - from, times);
      ExtentNext(ts, from, commit - from, times);
      probes := probes + count;
      extent := Plus(extent, held);
      if commit == through {
        break;
      }
      commit := commit + 1;
    }
  }

  /**
   Every retained commit is probed at every probe time and every probe passes; the report counts the
   snapshots and the nodes and edges they held.
   */
  method VerifyCompaction(store: GraphStore, report: CompactionReport) returns (r: Result<CompactionReport>)
    requires store.Valid() && report.retainedFrom <= report.retainedThrough <= store.latest
    modifies store.leases
    ensures store.Valid() && store.leases.live == old(store.leases.live)
    ensures var commits := report.retainedThrough - report.retainedFrom + 1;
            var times := ProbeTimes(store.nodes, store.edges, report.retainedFrom, report.retainedThrough);
            r == Ok(report.(verifiedSnapshots := report.verifiedSnapshots + ProbesOf(commits, times),
                            verified := Plus(report.verified,
                                             ExtentFrom(store.journal, report.retainedFrom, commits, times)),
                            verificationPassed := true))
  {
    hide *;
    var from, through := report.retainedFrom, report.retainedThrough;
    var nodeTimes := CollectTimes(store.nodes, from, through);
    var edgeTimes := CollectTimes(store.edges, from, through);
    var times := {0} + nodeTimes + edgeTimes;
    ProbeTimesAre(store.nodes, store.edges, from, through);
    var probes, extent := ProbeRange(store, from, through, times);
    return Ok(report.(verifiedSnapshots := report.verifiedSnapshots + probes, verified := Plus(report.verified, extent),
                      verificationPassed := true));
  }

  lemma NothingYet(ts: seq<Txn>, from: nat, times: set<i64>)
    ensures ExtentFrom(ts, from, 0, times) == Extent(0, 0)
  {
  }

  lemma NextProbes(commits: nat, times: set<i64>)
    ensures ProbesOf(commits + 1, times) == ProbesOf(commits, times) + |times|
    ensures ProbesOf(0, times) == 0
  {
  }

  /** A live snapshot holds a generation older than all of the last keep commits. */
  ghost predicate PinsOlder(live: multiset<u64>, latest: u64, keep: nat)
  {
    exists g: u64 :: g in live && (g == 0 || g + keep <= latest)
  }

  lemma PublishableMeans(store: GraphStore, keep: nat)
    requires keep > 0
    ensures Publishable(store, keep) <==> store.latest == 0 || !PinsOlder(store.leases.live, store.latest, keep)
  {
  }

  /** The report counts one snapshot per retained commit and probe time, and what these held. */
  ghost predicate VerifiedAll(store: GraphStore, report: CompactionReport)
    reads store
  {
    && report.retainedFrom <= report.retainedThrough
    && var commits := report.retainedThrough - report.retainedFrom + 1;
       var times := ProbeTimes(store.nodes, store.edges, report.retainedFrom, report.retainedThrough);
       && report.verifiedSnapshots == commits * |times|
       && report.verified == ExtentFrom(store.journal, report.retainedFrom, commits, times)
  }

  /**
   Compaction succeeds exactly when nothing pinned is older than what is retained; verification never stops
   it. Histories and pins stay as they were, and every generation left is either current or pinned.
   */
  method Compact(store: GraphStore, keep: nat) returns (r: Result<CompactionReport>)
    requires store.Valid()
    modifies store.leases
    ensures store.Valid() && store.leases.live == old(store.leases.live)
    ensures if keep == 0 then r == Err(Usage)
            else if store.latest > 0 && PinsOlder(old(store.leases.live), store.latest, keep) then r == Err(Conflict)
            else if store.shuttingDown then r == Err(Cancelled)
            else if store.latest + 1 >= TWO_64 then r == Err(ResourceLimit)
            else
              && r.Ok? && r.value.verificationPassed && r.value.publishable
              && r.value.sourceLatest == r.value.retainedThrough == store.latest
              && r.value.retainedFrom == RetainedFrom(store.latest, keep)
              && VerifiedAll(store, r.value)
    ensures r.Ok? ==> forall g | g in store.leases.knownGenerations ::
                        g in store.leases.live || g >= store.leases.latestGeneration > store.latest
  {
    hide GraphStore.Valid, Publishable, PinsOlder, ProbeTimes, ExtentFrom, Plus;
    if keep > 0 {
      PublishableMeans(store, keep);
    }
    var planned := PlanCompaction(store, keep);
    if planned.Err? {
      return planned;
    }
    if !planned.value.publishable {
      return Err(Conflict);
    }
    if store.shuttingDown {
      return Err(Cancelled);
    }
    RetainedInRange(store.latest, keep);
    var verified := VerifyCompaction(store, planned.value);
    ghost var from := planned.value.retainedFrom;
    PlusNothing(ExtentFrom(store.journal, from, store.latest - from + 1, ProbeTimes(store.nodes, store.edges, from, store.latest)));
    var replacement: u64 := 1;
    if store.latest != 0 {
      var next := CheckedAdd(store.latest, 1);
      if next.Err? {
        return Err(next.error);
      }
      replacement := next.value;
    }
    RegisterReplacement(store, replacement);
    var evicted := store.Evict();
    r := verified;
  }

  lemma RetainedInRange(latest: u64, keep: nat)
    requires keep > 0
    ensures RetainedFrom(latest, keep) <= latest
  {
  }

  method RegisterReplacement(store: GraphStore, generation: u64)
    requires store.Valid()
    modifies store.leases
    ensures store.Valid() && store.leases.live == old(store.leases.live)
    ensures store.leases.latestGeneration >= generation
  {
    hide IsJournal, OnDisk, Mirrors;
    store.leases.RegisterGeneration(generation);
  }
}
