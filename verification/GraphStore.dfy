/**
 The store object. Its ghost journal lists the transactions committed so far, its ghost disk says what the
 bytes look like; validity ties every real field to them, so what the methods promise holds over all runs,
 crashes and reopenings included.
 */
module GraphStore {
  import opened Bytes
  import opened Results
  import opened Values
  import opened Checked
  import opened Canonical
  import opened Ordering
  import opened OgrLog
  import opened OgrSegments
  import opened OgrWriter
  import opened OgrReader
  import opened History
  import opened Staging
  import opened Snapshots
  import opened Leases
  import opened Reopen
  import opened ChangeLog
  import opened Journal
  import opened StoreDisk

  function GenerationOf(commit: u64): u64
  {
    if commit == 0 then 1 else commit
  }

  lemma GenerationMeans(commit: u64)
    ensures GenerationOf(commit) == if commit == 0 then 1 else commit
  {
  }

  lemma GenerationsStart(latest: u64, generation: u64)
    requires generation == Max(1, if latest == 0 then 1 else latest)
    ensures generation == if latest == 0 then 1 else latest
  {
  }

  lemma {:induction false} GroupIsFiled<B(!new)>(vs: seq<Version<B>>)
    ensures Filed(GroupById(vs))
  {
    forall id | id in GroupById(vs)
      ensures forall v | v in GroupById(vs)[id] :: v.view.id == id
    {
      FilterMembers(vs, HasId(id));
    }
  }

  /** Replayed graphs file every entity under its own id. */
  lemma {:induction false} ReplayKeyed(ts: seq<Txn>, c: nat)
    requires Numbered(ts) && c <= |ts|
    ensures KeyedById(Replay(ts[..c]).nodes) && KeyedById(Replay(ts[..c]).edges)
  {
    hide Replay, GroupById, NodesOfLog, EdgesOfLog, VisibleAt, Filed, Numbered;
    TimeTravel(ts, c);
    GroupIsFiled(NodesOfLog(ts));
    GroupIsFiled(EdgesOfLog(ts));
    VisibleKeyed(GroupById(NodesOfLog(ts)), c);
    VisibleKeyed(GroupById(EdgesOfLog(ts)), c);
  }

  /** store.nodes[v.id].push_back(v) for every version in turn. */
  method PushVersions<B(!new)>(versions: VersionMap<B>, added: seq<Version<B>>, ghost base: seq<Version<B>>)
    returns (r: VersionMap<B>)
    requires versions == GroupById(base)
    ensures r == GroupById(base + added)
  {
    hide GroupById;
    r := versions;
    assert base + added[..0] == base;
    for i := 0 to |added|
      invariant r == GroupById(base + added[..i])
    {
      GroupPushBack(base + added[..i], added[i]);
      assert base + added[..i + 1] == base + added[..i] + [added[i]];
      r := PushVersion(r, added[i]);
    }
    assert added[..|added|] == added;
  }

  /** The checks of a commit that do not touch the disk. */
  function Admission(tx: Staged, closed: bool, shuttingDown: bool, latest: u64, live: map<u64, Node>): Result<()>
  {
    if closed then Err(Conflict)
    else if shuttingDown then Err(Cancelled)
    else if latest + 1 >= TWO_64 then Err(ResourceLimit)
    else if !EndpointsOk(live, tx) then Err(Conflict)
    else Ok(())
  }

  /** The real fields hold what the journal says. */
  ghost predicate Mirrors(latest: nat, nodes: VersionMap<NodeBody>, edges: VersionMap<EdgeBody>,
                          changeLog: seq<CommitChange>, ts: seq<Txn>, loaded: nat)
  {
    && latest == |ts|
    && nodes == GroupById(NodesOfLog(ts))
    && edges == GroupById(EdgesOfLog(ts))
    && loaded <= |ts|
    && changeLog == NonEmptyChanges(ts[..loaded]) + ChangesOf(ts[loaded..])
  }

  /** Filing the new versions and the new summary keeps the fields in step with the journal. */
  lemma {:induction false} MirrorsNext(latest: nat, nodes: VersionMap<NodeBody>, edges: VersionMap<EdgeBody>,
                                       changeLog: seq<CommitChange>, ts: seq<Txn>, loaded: nat, s: Staged)
    requires Mirrors(latest, nodes, edges, changeLog, ts, loaded) && Tidy(s) && |ts| + 1 < TWO_64
    ensures var t := LoggedTxn(s, |ts|, |ts| + 1);
            var c := |ts| + 1;
            Mirrors(c,
                    GroupById(NodesOfLog(ts) + PutVersions(PutsInOrder(s.putNodes, c))
                              + NodeDropVersions(InOrder(s.deleteNodes), c)),
                    GroupById(EdgesOfLog(ts) + PutVersions(PutsInOrder(s.putEdges, c))
                              + EdgeDropVersions(InOrder(s.deleteEdges), c)),
                    changeLog + [CommitChange(c, InOrder(s.putNodes.Keys), InOrder(s.putEdges.Keys),
                                              InOrder(s.deleteNodes), InOrder(s.deleteEdges))],
                    ts + [t], loaded)
  {
    hide GroupById, NodesOfLog, EdgesOfLog, PutVersions, NodeDropVersions, EdgeDropVersions, PutsInOrder, ChangeOf,
      NonEmptyChanges, NodeVersions, EdgeVersions, Tidy, InOrder;
    var c := |ts| + 1;
    var t := LoggedTxn(s, |ts|, c);
    SummaryOfStaged(s, |ts|, c);
    LogGrows(ts, t);
    LoggedVersions(|ts|, c, PutsInOrder(s.putNodes, c), PutsInOrder(s.putEdges, c),
                   InOrder(s.deleteNodes), InOrder(s.deleteEdges));
    var nodes, edges := NodesOfLog(ts), EdgesOfLog(ts);
    var a, b := PutVersions(PutsInOrder(s.putNodes, c)), NodeDropVersions(InOrder(s.deleteNodes), c);
    var d, e := PutVersions(PutsInOrder(s.putEdges, c)), EdgeDropVersions(InOrder(s.deleteEdges), c);
    assert nodes + a + b == nodes + (a + b);
    assert edges + d + e == edges + (d + e);
    assert (ts + [t])[..loaded] == ts[..loaded];
    assert (ts + [t])[loaded..] == ts[loaded..] + [t];
    assert ChangesOf(ts[loaded..] + [t]) == ChangesOf(ts[loaded..]) + [ChangeOf(t)];
  }

  lemma AdmittedFacts(s: Staged, closed: bool, shuttingDown: bool, latest: u64,
                                         live: map<u64, Node>)
    requires Admission(s, closed, shuttingDown, latest, live).Ok?
    ensures !closed && !shuttingDown && latest < 0xffff_ffff_ffff_ffff && latest + 1 < TWO_64 && EndpointsOk(live, s)
  {
  }

  /** What loading makes of bytes that read as a journal, whatever follows the journal in them. */
  method Rebuild(file: Bytes, limits: Limits, ghost ts: seq<Txn>)
    returns (latest: u64, nodes: VersionMap<NodeBody>, edges: VersionMap<EdgeBody>, changeLog: seq<CommitChange>)
    requires ReadStore(file, limits) == Ok(ImageOf(ts)) && IsJournal(ts) && |ts| < TWO_64
    ensures latest == |ts| && changeLog == NonEmptyChanges(ts)
    ensures nodes == GroupById(NodesOfLog(ts)) && edges == GroupById(EdgesOfLog(ts))
  {
    hide *;
    JournalImage(ts);
    var image := ReadStoreFile(file, limits);
    latest := image.value.latest;
    nodes := LoadVersions(image.value.nodes, image.value.nodeTombstones, NodesOfLog(ts));
    edges := LoadVersions(image.value.edges, image.value.edgeTombstones, EdgesOfLog(ts));
    changeLog := LoadChanges(image.value, ts);
  }

  class GraphStore {
    const limits: Limits
    const printer: DoublePrinter
    const leases: LeaseRegistry
    var file: Bytes
    var latest: u64
    var shuttingDown: bool
    var nodes: VersionMap<NodeBody>
    var edges: VersionMap<EdgeBody>
    var changeLog: seq<CommitChange>
    /** The transactions committed so far, how many of them were there at opening, and the state of the bytes. */
    ghost var journal: seq<Txn>
    ghost var loaded: nat
    ghost var disk: Disk

    ghost predicate Valid()
      reads this, leases
    {
      && leases.Valid()
      && IsJournal(journal)
      && Mirrors(latest, nodes, edges, changeLog, journal, loaded)
      && OnDisk(file, journal, disk, limits)
    }

    /**
     Opens any bytes that read as the committed transactions ts, whatever crashes left among them; disk is what
     is known about the bytes, and Unknown claims nothing.
     */
    constructor (file: Bytes, limits: Limits, printer: DoublePrinter, ghost disk: Disk, ghost ts: seq<Txn>)
      requires ReadStore(file, limits) == Ok(ImageOf(ts)) && IsJournal(ts) && |ts| < TWO_64
      requires OnDisk(file, ts, disk, limits)
      ensures Valid() && fresh(leases) && leases.live == multiset{}
      ensures leases.knownGenerations == {leases.latestGeneration}
      ensures leases.latestGeneration == if |ts| == 0 then 1 else |ts|
      ensures journal == ts && loaded == |ts| && this.disk == disk && !shuttingDown
      ensures this.file == file && this.limits == limits && this.printer == printer
      ensures changeLog == NonEmptyChanges(ts)
    {
      hide *;
      this.file, this.limits, this.printer := file, limits, printer;
      latest, nodes, edges, changeLog, shuttingDown := 0, map[], map[], [], false;
      leases := new LeaseRegistry();
      journal, loaded, this.disk := ts, |ts|, disk;
      new;
      assert leases.knownGenerations == {};
      Load();
      GenerationsStart(latest, leases.latestGeneration);
    }

    /** Rebuilds the in-memory state from the bytes. */
    method Load()
      requires leases.Valid() && IsJournal(journal) && |journal| < TWO_64 && loaded == |journal|
      requires ReadStore(file, limits) == Ok(ImageOf(journal)) && OnDisk(file, journal, disk, limits)
      modifies this`latest, this`nodes, this`edges, this`changeLog, leases
      ensures Valid() && leases.live == old(leases.live)
      ensures leases.knownGenerations == old(leases.knownGenerations) + {if latest == 0 then 1 else latest}
      ensures leases.latestGeneration == Max(old(leases.latestGeneration), if latest == 0 then 1 else latest)
      ensures latest == |journal| && changeLog == NonEmptyChanges(journal)
    {
      hide *;
      latest, nodes, edges, changeLog := Rebuild(file, limits, journal);
      GenerationMeans(latest);
      leases.RegisterGeneration(GenerationOf(latest));
      LoadedInMemory();
    }

    lemma {:induction false} LoadedInMemory()
      requires latest == |journal| && nodes == GroupById(NodesOfLog(journal))
      requires edges == GroupById(EdgesOfLog(journal)) && loaded == |journal|
      requires changeLog == NonEmptyChanges(journal)
      requires leases.Valid() && IsJournal(journal) && OnDisk(file, journal, disk, limits)
      ensures Valid()
    {
      hide Filter, ChangesOf, OnDisk, IsJournal;
      assert journal[..loaded] == journal;
      assert journal[loaded..] == [];
    }

    /** The checks of a commit, in order. */
    method Admit(s: Staged, closed: bool) returns (r: Result<()>)
      requires Valid()
      ensures r == Admission(s, closed, shuttingDown, latest, Replay(journal).nodes)
    {
      hide Replay, GroupById, OnDisk, VisibleAt, EndpointsOk, EndpointsLive, AllSingle, ChangesOf;
      if closed {
        return Err(Conflict);
      }
      if shuttingDown {
        return Err(Cancelled);
      }
      var next := CheckedAdd(latest, 1);
      if next.Err? {
        return Err(next.error);
      }
      var ok := CheckEndpoints(nodes, latest, s);
      SeesReplay(journal, latest);
      assert journal[..latest] == journal;
      if !ok {
        return Err(Conflict);
      }
      return Ok(());
    }

    /** Encodes and appends what was staged; the bytes change even when the append fails on reading back. */
    method AppendStaged(s: Staged) returns (r: Result<()>)
      requires |file| >= SUPERBLOCK_BYTES && latest + 1 < TWO_64
      requires WellSized(LoggedTxn(s, latest, latest + 1))
      modifies this`file
      ensures (file, r) == Append(old(file), LoggedTxn(s, latest, latest + 1), limits)
    {
      hide Append, WellSized, TxnOf, PutsInOrder, InOrder;
      var longer, appended := AppendTransaction(file, latest, latest + 1, PutsInOrder(s.putNodes, latest + 1),
                                                PutsInOrder(s.putEdges, latest + 1), InOrder(s.deleteNodes),
                                                InOrder(s.deleteEdges), limits);
      file := longer;
      r := appended;
    }

    /** Makes an appended transaction visible: histories, change log, head. */
    method Publish(s: Staged)
      requires Mirrors(latest, nodes, edges, changeLog, journal, loaded)
      requires Tidy(s) && latest + 1 < TWO_64
      modifies this`nodes, this`edges, this`changeLog, this`latest, this`journal
      ensures journal == old(journal) + [LoggedTxn(s, old(latest), old(latest) + 1)]
      ensures latest == old(latest) + 1
      ensures Mirrors(latest, nodes, edges, changeLog, journal, loaded)
    {
      hide GroupById, NodesOfLog, EdgesOfLog, PutVersions, NodeDropVersions, EdgeDropVersions, PutsInOrder,
        ChangesOf, NonEmptyChanges, Tidy, InOrder, LoggedTxn;
      var c := latest + 1;
      ghost var ts := journal;
      MirrorsNext(latest, nodes, edges, changeLog, journal, loaded, s);
      nodes := PushVersions(nodes, PutVersions(PutsInOrder(s.putNodes, c)), NodesOfLog(ts));
      nodes := PushVersions(nodes, NodeDropVersions(InOrder(s.deleteNodes), c),
                            NodesOfLog(ts) + PutVersions(PutsInOrder(s.putNodes, c)));
      edges := PushVersions(edges, PutVersions(PutsInOrder(s.putEdges, c)), EdgesOfLog(ts));
      edges := PushVersions(edges, EdgeDropVersions(InOrder(s.deleteEdges), c),
                            EdgesOfLog(ts) + PutVersions(PutsInOrder(s.putEdges, c)));
      changeLog := changeLog + [CommitChange(c, InOrder(s.putNodes.Keys), InOrder(s.putEdges.Keys),
                                             InOrder(s.deleteNodes), InOrder(s.deleteEdges))];
      latest := c;
      journal := journal + [LoggedTxn(s, c - 1, c)];
    }

    lemma {:induction false} StagedAsPending(tx: Transaction)
      requires tx.Valid()
      ensures tx.Pending() == StageOps(tx.ops) && Tidy(tx.Pending())
    {
      StagedIsTidy(tx.ops);
    }

    /** A transaction is admitted if it and the store are open, a commit number is left and no edge dangles. */
    lemma {:induction false} AdmissionMeans(tx: Transaction, g: Graph)
      requires tx.Valid()
      ensures Admission(tx.Pending(), tx.closed, shuttingDown, latest, g.nodes)
           == if tx.closed then Err(Conflict)
              else if shuttingDown then Err(Cancelled)
              else if latest + 1 >= TWO_64 then Err(ResourceLimit)
              else if !NoneDangles(tx.ops, ApplyOps(g, tx.ops, latest + 1)) then Err(Conflict)
              else Ok(())
    {
      hide StageOps, ApplyOps, NoneDangles, EndpointsOk;
      if latest + 1 < TWO_64 {
        EndpointsMean(g, tx.ops, latest + 1);
      }
    }

    lemma JournalAtLatest()
      requires Valid()
      ensures leases.Valid() && latest == |journal| < TWO_64 && IsJournal(journal) && |file| >= SUPERBLOCK_BYTES
      ensures Mirrors(latest, nodes, edges, changeLog, journal, loaded)
      ensures OnDisk(file, journal, disk, limits)
    {
    }

    lemma ValidAgain(ts: seq<Txn>, state: Disk)
      requires leases.Valid() && IsJournal(ts) && ts == journal && disk == state
      requires Mirrors(latest, nodes, edges, changeLog, journal, loaded)
      requires OnDisk(file, ts, state, limits)
      ensures Valid()
    {
    }

    lemma CommitInRange(n: nat)
      requires n < TWO_64
      ensures n < 0x1_0000_0000_0000_0000
    {
    }

    /** Logs an admitted transaction and, once it is on disk, publishes it. */
    method AppendAndPublish(s: Staged) returns (r: Result<()>)
      requires Valid() && Tidy(s) && latest + 1 < TWO_64 && EndpointsOk(Replay(journal).nodes, s)
      requires WellSized(LoggedTxn(s, latest, latest + 1))
      modifies this`file, this`latest, this`nodes, this`edges, this`changeLog, this`journal, this`disk, leases
      ensures Valid() && leases.live == old(leases.live)
      ensures var t := LoggedTxn(s, old(latest), old(latest) + 1);
              && old(|file|) >= SUPERBLOCK_BYTES && file == Append(old(file), t, limits).0
              && (r.Ok? <==> Accepted(old(file), old(disk), t, limits))
              && disk == DiskAfter(old(file), old(disk), t, limits)
              && (r.Ok? ==> latest == old(latest) + 1 && journal == old(journal) + [t])
      ensures r.Ok? ==> leases.knownGenerations == old(leases.knownGenerations) + {latest}
                        && leases.latestGeneration == Max(old(leases.latestGeneration), latest)
      ensures r.Err? ==> unchanged(leases) && journal == old(journal)
                         && latest == old(latest) && nodes == old(nodes) && edges == old(edges)
                         && changeLog == old(changeLog)
    {
      hide *;
      CommitInRange(latest + 1);
      ghost var t := LoggedTxn(s, latest, latest + 1);
      JournalAtLatest();
      DiskAfterAppend(file, journal, disk, t, limits);
      disk := DiskAfter(file, disk, t, limits);
      r := AppendStaged(s);
      if r.Err? {
        ValidAgain(journal, disk);
        return;
      }
      JournalGrows(journal, s);
      Publish(s);
      leases.RegisterGeneration(latest);
      ValidAgain(journal, disk);
    }

    /**
     Commits a transaction. It is admitted on its own merits, logged, and only then made visible; a refused
     or failed commit leaves everything but the log tail as it was.
     */
    method Commit(tx: Transaction) returns (r: Result<u64>)
      requires Valid() && tx.Valid()
      requires latest + 1 < TWO_64 ==> WellSized(LoggedTxn(tx.Pending(), latest, latest + 1))
      modifies this`file, this`latest, this`nodes, this`edges, this`changeLog, this`journal, this`disk,
               leases, tx`closed
      ensures Valid() && tx.Valid() && leases.live == old(leases.live)
      ensures if old(tx.closed) then r == Err(Conflict) && unchanged(this)
              else if shuttingDown then r == Err(Cancelled) && unchanged(this)
              else if old(latest) + 1 >= TWO_64 then r == Err(ResourceLimit) && unchanged(this)
              else if !NoneDangles(old(tx.ops), ApplyOps(Replay(old(journal)), old(tx.ops), old(latest) + 1))
              then r == Err(Conflict) && unchanged(this)
              else
                var t := LoggedTxn(old(tx.Pending()), old(latest), old(latest) + 1);
                && old(|file|) >= SUPERBLOCK_BYTES && file == Append(old(file), t, limits).0
                && (r.Ok? <==> Accepted(old(file), old(disk), t, limits))
                && disk == DiskAfter(old(file), old(disk), t, limits)
      ensures r.Ok? ==> r.value == old(latest) + 1 == latest && tx.closed
                        && journal == old(journal) + [LoggedTxn(old(tx.Pending()), old(latest), latest)]
                        && Replay(journal) == ApplyOps(Replay(old(journal)), old(tx.ops), latest)
      ensures r.Ok? ==> leases.knownGenerations == old(leases.knownGenerations) + {latest}
                        && leases.latestGeneration == Max(old(leases.latestGeneration), latest)
      ensures r.Err? ==> tx.closed == old(tx.closed) && unchanged(leases) && journal == old(journal)
                         && latest == old(latest) && nodes == old(nodes) && edges == old(edges)
                         && changeLog == old(changeLog)
    {
      hide *;
      var s := tx.Pending();
      StagedAsPending(tx);
      AdmissionMeans(tx, Replay(journal));
      var admitted := Admit(s, tx.closed);
      if admitted.Err? {
        return Err(admitted.error);
      }
      AdmittedFacts(s, tx.closed, shuttingDown, latest, Replay(journal).nodes);
      JournalAtLatest();
      ghost var before, ops := journal, tx.ops;
      ReplayLogged(before, s, latest + 1);
      StagingIsSequential(Replay(before), ops, latest + 1);
      var appended := AppendAndPublish(s);
      if appended.Err? {
        return Err(appended.error);
      }
      tx.Close();
      return Ok(latest);
    }

    method Begin() returns (r: Result<Transaction>)
      ensures r.Err? <==> shuttingDown
      ensures r.Ok? ==> fresh(r.value) && r.value.Valid() && !r.value.closed && r.value.ops == [] && r.value.limits == limits
      ensures r.Err? ==> r.error == Cancelled
    {
      if shuttingDown {
        return Err(Cancelled);
      }
      var tx := new Transaction(limits);
      return Ok(tx);
    }

    method Shutdown()
      requires Valid()
      modifies this`shuttingDown
      ensures Valid() && shuttingDown
    {
      hide *;
      JournalAtLatest();
      shuttingDown := true;
      ValidAgain(journal, disk);
    }

    /**
     The view of commit c at a time holds what is live and active after the first c transactions, whatever was
     committed, refused or compacted since.
     */
    method Snapshot(commit: Option<u64>, time: i64) returns (r: Result<GraphSnapshot>)
      requires Valid()
      modifies leases
      ensures Valid()
      ensures var c := if commit.Some? then commit.value else latest;
              if shuttingDown then r == Err(Cancelled)
              else if c > latest then r == Err(NotFound)
              else r.Ok? && ShowsCommit(r.value, c, time)
                   && IsViewOf(r.value.nodes, r.value.edges, Replay(journal[..c]), time)
      ensures r.Ok? ==> fresh(r.value) && leases.live == old(leases.live) + multiset{r.value.generation}
      ensures r.Ok? ==> leases.knownGenerations == old(leases.knownGenerations) + {r.value.generation}
                        && leases.latestGeneration == Max(old(leases.latestGeneration), r.value.generation)
      ensures r.Ok? ==> r.value.validTime == time && r.value.commit == (if commit.Some? then commit.value else latest)
                        && r.value.generation == if r.value.commit == 0 then 1 else r.value.commit
      ensures r.Err? ==> unchanged(leases)
    {
      hide Valid, ShowsCommit, IsViewOf, Replay;
      if shuttingDown {
        return Err(Cancelled);
      }
      r := MakeSnapshot(commit, time);
      if r.Ok? {
        ShownIsView(r.value, if commit.Some? then commit.value else latest, time);
      }
    }

    lemma {:induction false} ShownIsView(s: GraphSnapshot, c: u64, time: i64)
      requires Valid() && ShowsCommit(s, c, time)
      ensures IsViewOf(s.nodes, s.edges, Replay(journal[..c]), time)
      ensures s.commit == c && s.validTime == time && s.generation == if c == 0 then 1 else c
    {
      hide Replay, NaiveNodes, NaiveEdges, KeyedById, IsViewOf, OnDisk, Mirrors, EndpointsLive, AllSingle, Numbered,
        GraphSnapshot.Indexed;
      ReplayKeyed(journal, c);
      NaiveViewMeans(Replay(journal[..c]), time);
    }

    ghost predicate ShowsCommit(s: GraphSnapshot, c: u64, time: i64)
      reads this`journal, s
    {
      && s.Indexed() && s.commit == c && s.validTime == time && s.generation == GenerationOf(c)
      && c <= |journal|
      && s.nodes == NaiveNodes(Replay(journal[..c]), time)
      && s.edges == NaiveEdges(Replay(journal[..c]), time)
    }

    /** A view once taken stays true: no later commit, refusal or compaction changes what it shows. */
    twostate lemma ViewStays(s: GraphSnapshot, c: u64, time: i64)
      requires old(ShowsCommit(s, c, time)) && unchanged(s) && old(journal) <= journal
      ensures ShowsCommit(s, c, time)
    {
      hide NaiveNodes, NaiveEdges, Replay, GraphSnapshot.Indexed;
      assert journal[..c] == old(journal)[..c];
    }

    method MakeSnapshot(commit: Option<u64>, time: i64) returns (r: Result<GraphSnapshot>)
      requires Valid()
      modifies leases
      ensures Valid()
      ensures var c := if commit.Some? then commit.value else latest;
              if c > latest then r == Err(NotFound) && unchanged(leases)
              else r.Ok? && ShowsCommit(r.value, c, time)
      ensures r.Ok? ==> fresh(r.value) && leases.live == old(leases.live) + multiset{r.value.generation}
      ensures r.Ok? ==> leases.knownGenerations == old(leases.knownGenerations) + {r.value.generation}
                        && leases.latestGeneration == Max(old(leases.latestGeneration), r.value.generation)
    {
      hide IsJournal, OnDisk, Replay, GroupById, NodesOfLog, EdgesOfLog, VisibleAt, NaiveNodes, NaiveEdges,
        ChangesOf, NonEmptyChanges, Filed, GraphSnapshot.Indexed;
      var c := if commit.Some? then commit.value else latest;
      if c > latest {
        return Err(NotFound);
      }
      leases.Pin(GenerationOf(c));
      GroupIsFiled(NodesOfLog(journal));
      GroupIsFiled(EdgesOfLog(journal));
      JournalNumbered(journal);
      SeesReplay(journal, c);
      var s := Materialize(nodes, edges, c, time, printer);
      r := Ok(s);
    }

    /** What happens when the last handle on a snapshot goes away. */
    method Release(s: GraphSnapshot)
      requires Valid()
      modifies leases
      ensures Valid() && leases.live == old(leases.live) - multiset{s.generation}
      ensures leases.knownGenerations == old(leases.knownGenerations)
      ensures leases.latestGeneration == old(leases.latestGeneration)
    {
      hide IsJournal, Mirrors, OnDisk;
      leases.Unpin(s.generation);
    }

    method Evict() returns (evicted: nat)
      requires Valid()
      modifies leases
      ensures Valid() && leases.live == old(leases.live) && leases.latestGeneration == old(leases.latestGeneration)
      ensures leases.knownGenerations
           == Remaining(old(leases.knownGenerations), leases.live, leases.latestGeneration)
      ensures evicted == |old(leases.knownGenerations)| - |leases.knownGenerations|
    {
      hide Remaining, Evictable, Swept, Doomed;
      evicted := leases.EvictUnpinned();
    }
  }

  lemma JournalNumbered(ts: seq<Txn>)
    requires IsJournal(ts)
    ensures Numbered(ts)
  {
  }

  /** Whether the staged edges have both endpoints at the transaction's base. */
  method CheckEndpoints(nodes: VersionMap<NodeBody>, base: u64, s: Staged) returns (ok: bool)
    ensures ok <==> EndpointsOk(VisibleAt(nodes, base), s)
  {
    hide VisibleAt, EndpointOk;
    var ids := InOrder(s.putEdges.Keys);
    for k := 0 to |ids|
      invariant forall i | 0 <= i < k :: ids[i] in s.putEdges
                  && EndpointOk(VisibleAt(nodes, base), s, s.putEdges[ids[i]].body.from)
                  && EndpointOk(VisibleAt(nodes, base), s, s.putEdges[ids[i]].body.to)
    {
      assert ids[k] in ids;
      var body := s.putEdges[ids[k]].body;
      var from := CheckEndpoint(nodes, base, s, body.from);
      var to := CheckEndpoint(nodes, base, s, body.to);
      if !from || !to {
        return false;
      }
    }
    forall id | id in s.putEdges
      ensures EndpointOk(VisibleAt(nodes, base), s, s.putEdges[id].body.from)
           && EndpointOk(VisibleAt(nodes, base), s, s.putEdges[id].body.to)
    {
      assert id in ids;
    }
    return true;
  }

  method CheckEndpoint(nodes: VersionMap<NodeBody>, base: u64, s: Staged, id: u64) returns (ok: bool)
    ensures ok <==> EndpointOk(VisibleAt(nodes, base), s, id)
  {
    hide LatestAt;
    var found := false;
    if id in nodes {
      var version := FindLatest(nodes[id], base);
      found := version.Some? && !version.value.tombstone;
    }
    ok := (found || id in s.putNodes) && id !in s.deleteNodes;
  }

  /** Commit c of a journal sees the replay of its first c transactions. */
  lemma {:induction false} SeesReplay(ts: seq<Txn>, c: nat)
    requires Numbered(ts) && c <= |ts|
    ensures VisibleAt(GroupById(NodesOfLog(ts)), c) == Replay(ts[..c]).nodes
    ensures VisibleAt(GroupById(EdgesOfLog(ts)), c) == Replay(ts[..c]).edges
  {
    TimeTravel(ts, c);
  }

  /** The image of a journal, whose lists rise by id and begin. */
  lemma {:induction false} JournalImage(ts: seq<Txn>)
    requires IsJournal(ts) && |ts| < TWO_64
    ensures ImageOf(ts).latest == |ts|
    ensures ImageOf(ts).nodes == ViewsWith(NodesOfLog(ts), false)
    ensures ImageOf(ts).nodeTombstones == ViewsWith(NodesOfLog(ts), true)
    ensures ImageOf(ts).edges == ViewsWith(EdgesOfLog(ts), false)
    ensures ImageOf(ts).edgeTombstones == ViewsWith(EdgesOfLog(ts), true)
    ensures AllRise(NodesOfLog(ts)) && AllRise(EdgesOfLog(ts))
    ensures Numbered(ts) && forall t | t in ts :: Single(t)
  {
    hide Single, AllRise, NodesOfLog, EdgesOfLog, ViewsWith, ImageOf, EndpointsLive;
    ImageParts(ts);
    LogRises(ts);
  }

  /**
   The bytes of a store that is clean or torn read as a prefix of its journal: all of it if clean, and of a torn
   store what was committed before the tear.
   */
  lemma {:induction false} StoreReads(store: GraphStore)
    requires store.Valid() && (store.disk.Clean? || store.disk.Torn?)
    ensures var kept := Committed(store.disk.segs);
            && ReadStore(store.file, store.limits) == Ok(ImageOf(kept)) && OnDisk(store.file, kept, store.disk, store.limits)
            && kept <= store.journal && IsJournal(kept) && (store.disk.Clean? ==> kept == store.journal)
  {
    hide IsJournal, Mirrors, ReadStore, ImageOf, OnDisk, Committed;
    KnownDiskReads(store.file, store.journal, store.disk, store.limits);
    PrefixIsJournal(Committed(store.disk.segs), store.journal);
  }

  /**
   Opening a store's file once more. Behind a tear everything committed since is gone, although each of those
   commits reported success; a file that an append made unreadable cannot be opened.
   */
  method OpenAgain(store: GraphStore) returns (r: Result<GraphStore>)
    requires store.Valid() && !store.disk.Unknown?
    ensures r.Ok? <==> !store.disk.Unreadable?
    ensures r.Err? ==> ReadStore(store.file, store.limits) == Err(r.error)
    ensures r.Ok? ==>
              && r.value.Valid() && fresh(r.value) && r.value.file == store.file && r.value.disk == store.disk
              && r.value.journal == Committed(store.disk.segs) <= store.journal
              && r.value.latest == r.value.loaded == |Committed(store.disk.segs)|
              && (store.disk.Clean? ==> r.value.journal == store.journal && r.value.latest == store.latest)
  {
    hide *;
    store.JournalAtLatest();
    if store.disk.Unreadable? {
      UnreadableStore(store);
    } else {
      StoreReads(store);
    }
    var image := ReadStoreFile(store.file, store.limits);
    if image.Err? {
      return Err(image.error);
    }
    var again := new GraphStore(store.file, store.limits, store.printer, store.disk, Committed(store.disk.segs));
    again.JournalAtLatest();
    r := Ok(again);
  }

  lemma UnreadableStore(store: GraphStore)
    requires store.Valid() && store.disk.Unreadable?
    ensures ReadStore(store.file, store.limits).Err?
  {
  }

  /**
   A crash that keeps any n bytes of a clean or torn file leaves bytes that open as a store again, clean or torn,
   with some of the same transactions first to last; of a clean file, those that are still whole.
   */
  lemma {:induction false} CrashedFileOpens(file: Bytes, ts: seq<Txn>, disk: Disk, n: nat, limits: Limits)
    returns (kept: Disk)
    requires OnDisk(file, ts, disk, limits) && (disk.Clean? || disk.Torn?) && IsJournal(ts)
    requires SUPERBLOCK_BYTES <= n <= |file|
    ensures kept.Clean? || kept.Torn?
    ensures var left := Committed(kept.segs);
            && ReadStore(file[..n], limits) == Ok(ImageOf(left)) && OnDisk(file[..n], left, kept, limits)
            && left <= Committed(disk.segs) <= ts && IsJournal(left)
    ensures disk.Clean? ==> Committed(kept.segs) == Committed(disk.segs[..Fitting(disk.segs, n - SUPERBLOCK_BYTES)])
  {
    hide IsJournal, ImageOf, OnDisk, ReadStore, Fitting, Committed;
    kept := CrashedDisk(file, ts, disk, n, limits);
    KnownDiskReads(file, ts, disk, limits);
    KnownDiskReads(file[..n], Committed(kept.segs), kept, limits);
    PrefixIsJournal(Committed(kept.segs), ts);
  }

  lemma {:induction false} PrefixIsJournal(kept: seq<Txn>, ts: seq<Txn>)
    requires kept <= ts && IsJournal(ts)
    ensures IsJournal(kept)
  {
    hide IsJournal;
    assert kept == ts[..|kept|];
    JournalPrefix(ts, |kept|);
  }

  lemma {:induction false} StoreOnDisk(file: Bytes, segs: seq<Segment>, limits: Limits)
    requires IsStore(file, segs, limits)
    ensures OnDisk(file, Committed(segs), Clean(segs), limits)
    ensures ReadStore(file, limits) == Ok(ImageOf(Committed(segs)))
  {
    hide ReadStore, ImageOf, Committed, SegmentsBytes, AllAcceptable, ValidateSuperblock;
    AbandonedGroupsHarmless(file, segs, limits);
  }

  /**
   If it keeps whole records, the bytes open as a clean store again, on which every sound commit succeeds; so
   does every store after any number of such crashes.
   */
  lemma {:induction false} CrashAtRecordOpensClean(file: Bytes, segs: seq<Segment>, m: nat, limits: Limits)
    returns (kept: seq<Segment>)
    requires IsStore(file, segs, limits) && IsJournal(Committed(segs)) && m <= |AllRecords(segs)|
    ensures var n := SUPERBLOCK_BYTES + |RecordsBytes(AllRecords(segs)[..m])|;
            && n <= |file| && ReadStore(file[..n], limits) == Ok(ImageOf(Committed(kept)))
            && Committed(kept) <= Committed(segs) && IsJournal(Committed(kept))
            && OnDisk(file[..n], Committed(kept), Clean(kept), limits)
  {
    hide IsJournal, ImageOf, ReadStore, Committed, RecordsBytes, AllRecords, IsStore, OnDisk;
    kept := CrashAtRecord(file, segs, m, limits);
    StoreOnDisk(file[..SUPERBLOCK_BYTES + |RecordsBytes(AllRecords(segs)[..m])|], kept, limits);
    PrefixIsJournal(Committed(kept), Committed(segs));
  }

  /**
   Reopening refines the live store: a store opened on a journal holds the same head and histories as one
   that committed it, and the same change log without its empty commits.
   */
  lemma {:induction false} ReopenedIsLive(store: GraphStore, again: GraphStore)
    requires store.Valid() && again.Valid() && again.journal == store.journal && again.loaded == |again.journal|
    ensures again.latest == store.latest && again.nodes == store.nodes && again.edges == store.edges
    ensures again.changeLog == Filter(store.changeLog, Reports())
  {
    hide IsJournal, OnDisk, GroupById, NodesOfLog, EdgesOfLog, ChangesOf, NonEmptyChanges, Reports, Filter;
    var ts := store.journal;
    EmptyChangesDroppedLater(ts[..store.loaded], ts[store.loaded..]);
    assert ts[..store.loaded] + ts[store.loaded..] == ts;
    EmptyTail(again.journal);
  }

  lemma {:induction false} EmptyTail(ts: seq<Txn>)
    ensures NonEmptyChanges(ts[..|ts|]) + ChangesOf(ts[|ts|..]) == NonEmptyChanges(ts)
  {
    assert ts[..|ts|] == ts && ChangesOf(ts[|ts|..]) == [];
  }
}
