/**
 Store files as crashes and later appends leave them: whole transaction groups between groups that were
 abandoned at a record boundary. They read as their whole transactions, cut anywhere they read as the whole
 transactions still there, and the writer can go on appending to them.
 */
module OgrSegments {
  import opened Bytes
  import opened Results
  import opened Values
  import opened Crc32c
  import opened OgrRecord
  import opened OgrLog

  /** A whole group, or the first records of a group that was never closed. */
  datatype Segment = Whole(txn: Txn) | Part(txn: Txn, count: nat)

  function RecordsOf(g: Segment): seq<Record>
  {
    match g
    case Whole(t) => Group(t)
    case Part(t, k) => if k < |Group(t)| then Group(t)[..k] else Group(t)
  }

  function SegmentsBytes(segs: seq<Segment>): Bytes
  {
    if |segs| == 0 then [] else RecordsBytes(RecordsOf(segs[0])) + SegmentsBytes(segs[1..])
  }

  function CommittedBy(g: Segment): (ts: seq<Txn>)
    ensures |ts| <= 1
  {
    match g
    case Whole(t) => [t]
    case Part(_, _) => []
  }

  /** The transactions of the whole groups. */
  function Committed(segs: seq<Segment>): (ts: seq<Txn>)
    ensures |ts| <= |segs|
  {
    if |segs| == 0 then [] else CommittedBy(segs[0]) + Committed(segs[1..])
  }

  /** Writer and reader accept a whole group; of an abandoned one the reader accepts the records that are there. */
  predicate Acceptable(g: Segment, limits: Limits)
  {
    match g
    case Whole(t) => Sound(t, limits)
    case Part(t, k) => k < |Group(t)| && AllReadable(Group(t)[..k], limits)
  }

  predicate AllAcceptable(segs: seq<Segment>, limits: Limits)
  {
    forall g | g in segs :: Acceptable(g, limits)
  }

  // ---- lists of segments ----

  lemma {:induction false} SegmentsBytesAppend(a: seq<Segment>, b: seq<Segment>)
    ensures SegmentsBytes(a + b) == SegmentsBytes(a) + SegmentsBytes(b)
  {
    hide RecordsBytes, RecordsOf;
    if |a| == 0 {
      assert a + b == b;
    } else {
      SegmentsBytesAppend(a[1..], b);
      assert (a + b)[1..] == a[1..] + b;
      ConcatAssociative(RecordsBytes(RecordsOf(a[0])), SegmentsBytes(a[1..]), SegmentsBytes(b));
    }
  }

  lemma {:induction false} CommittedCons(g: Segment, rest: seq<Segment>)
    ensures Committed([g] + rest) == CommittedBy(g) + Committed(rest)
  {
    hide CommittedBy;
    assert ([g] + rest)[1..] == rest;
  }

  lemma {:induction false} CommittedAppend(a: seq<Segment>, b: seq<Segment>)
    ensures Committed(a + b) == Committed(a) + Committed(b)
  {
    hide CommittedBy, Committed;
    if |a| == 0 {
      assert a + b == b;
      NoneCommitted(a);
    } else {
      var g, rest := a[0], a[1..];
      CommittedAppend(rest, b);
      CommittedCons(g, rest);
      CommittedCons(g, rest + b);
      assert a == [g] + rest && a + b == [g] + (rest + b);
      var x, y := Committed(rest), Committed(b);
      assert CommittedBy(g) + (x + y) == (CommittedBy(g) + x) + y;
    }
  }

  lemma NoneCommitted(segs: seq<Segment>)
    requires |segs| == 0
    ensures Committed(segs) == []
  {
  }

  lemma {:induction false} OneSegment(g: Segment)
    ensures SegmentsBytes([g]) == RecordsBytes(RecordsOf(g))
    ensures Committed([g]) == CommittedBy(g)
  {
    hide RecordsBytes, RecordsOf;
    assert [g][1..] == [];
  }

  lemma {:induction false} SegmentsAligned(segs: seq<Segment>)
    ensures |SegmentsBytes(segs)| % 8 == 0
  {
    hide RecordsBytes, RecordsOf;
    if |segs| > 0 {
      RecordsAligned(RecordsOf(segs[0]));
      SegmentsAligned(segs[1..]);
      AlignedSum(|RecordsBytes(RecordsOf(segs[0]))|, |SegmentsBytes(segs[1..])|);
    }
  }

  lemma {:induction false} AcceptableTail(segs: seq<Segment>, limits: Limits)
    requires |segs| > 0 && AllAcceptable(segs, limits)
    ensures Acceptable(segs[0], limits) && AllAcceptable(segs[1..], limits)
  {
    hide Acceptable;
  }

  lemma {:induction false} CommittedSound(segs: seq<Segment>, limits: Limits)
    requires AllAcceptable(segs, limits)
    ensures AllSound(Committed(segs), limits)
  {
    hide Sound, Acceptable;
    if |segs| > 0 {
      AcceptableTail(segs, limits);
      CommittedSound(segs[1..], limits);
      WholeIsSound(segs[0], limits);
    }
  }

  lemma WholeIsSound(g: Segment, limits: Limits)
    requires Acceptable(g, limits)
    ensures g.Whole? ==> Sound(g.txn, limits)
  {
  }

  // ---- scanning ----

  /** The scanner's variables after a segment. */
  function AfterSegment(s: ScanState, g: Segment): ScanState
  {
    match g
    case Whole(t) => ScanState([], ApplyTxn(s.image, t))
    case Part(t, k) => if k == 0 then s else s.(group := RecordsOf(g))
  }

  function AfterSegments(s: ScanState, segs: seq<Segment>): ScanState
    decreases |segs|
  {
    if |segs| == 0 then s else AfterSegments(AfterSegment(s, segs[0]), segs[1..])
  }

  /** Only whole groups reach the image. */
  lemma {:induction false} AfterSegmentsImage(s: ScanState, segs: seq<Segment>)
    ensures AfterSegments(s, segs).image == ImageFrom(s.image, Committed(segs))
    decreases |segs|
  {
    hide ApplyTxn, RecordsOf;
    if |segs| > 0 {
      AfterSegmentsImage(AfterSegment(s, segs[0]), segs[1..]);
      match segs[0]
      case Whole(t) =>
        assert ([t] + Committed(segs[1..]))[1..] == Committed(segs[1..]);
      case Part(_, _) =>
        assert [] + Committed(segs[1..]) == Committed(segs[1..]);
    }
  }

  lemma {:induction false} ReadableSegment(g: Segment, limits: Limits)
    requires Acceptable(g, limits)
    ensures AllReadable(RecordsOf(g), limits)
  {
    hide Sound, Readable, Group;
    if g.Whole? {
      GroupReadable(g.txn, limits);
    }
  }

  lemma {:induction false} AcceptSegment(s: ScanState, g: Segment, limits: Limits)
    requires Acceptable(g, limits)
    ensures AcceptAll(s, RecordsOf(g), limits) == Ok(AfterSegment(s, g))
  {
    hide AcceptAll, Group, ApplyTxn, Writable, AllReadable;
    match g
    case Whole(t) =>
      AcceptGroup(s, t, limits);
      SoundIsFinite(t, limits);
    case Part(t, k) =>
      AcceptUnfinished(s, t, k, limits);
  }

  lemma {:induction false} SoundIsFinite(t: Txn, limits: Limits)
    requires Sound(t, limits)
    ensures Writable(t, limits) && AllFinite(t.mutations, limits)
  {
    hide MutationEncodes, MutationFinite, MutationPayload;
  }

  lemma {:induction false} ScanSegments(bytes: Bytes, o: nat, s: ScanState, segs: seq<Segment>, limits: Limits)
    requires o % 8 == 0 && AllAcceptable(segs, limits) && At(bytes, o, SegmentsBytes(segs))
    ensures Scan(bytes, o, s, limits) == Scan(bytes, o + |SegmentsBytes(segs)|, AfterSegments(s, segs), limits)
    decreases |segs|
  {
    hide Scan, AcceptAll, RecordsBytes, RecordsOf, Acceptable, AllAcceptable, AfterSegment;
    if |segs| > 0 {
      AcceptableTail(segs, limits);
      var rs := RecordsOf(segs[0]);
      AtSplit(bytes, o, RecordsBytes(rs), SegmentsBytes(segs[1..]));
      ReadableSegment(segs[0], limits);
      ScanRecords(bytes, o, s, rs, limits);
      AcceptSegment(s, segs[0], limits);
      RecordsAligned(rs);
      AlignedSum(o, |RecordsBytes(rs)|);
      ScanSegments(bytes, o + |RecordsBytes(rs)|, AfterSegment(s, segs[0]), segs[1..], limits);
    }
  }

  // ---- store files ----

  /** The bytes begin with a superblock and these segments. */
  ghost predicate BeginsWith(file: Bytes, segs: seq<Segment>, limits: Limits)
  {
    && |file| >= SUPERBLOCK_BYTES
    && ValidateSuperblock(file) == Ok(())
    && AllAcceptable(segs, limits)
    && At(file, SUPERBLOCK_BYTES, SegmentsBytes(segs))
  }

  /** Nothing follows them. */
  ghost predicate IsStore(file: Bytes, segs: seq<Segment>, limits: Limits)
  {
    BeginsWith(file, segs, limits) && |file| == SUPERBLOCK_BYTES + |SegmentsBytes(segs)|
  }

  function StateAfter(segs: seq<Segment>): ScanState
  {
    AfterSegments(ScanState([], EMPTY_IMAGE), segs)
  }

  /** Reading goes on behind the segments, with their committed transactions in the image. */
  lemma {:induction false} ReadPast(file: Bytes, segs: seq<Segment>, limits: Limits)
    requires BeginsWith(file, segs, limits)
    ensures var o := SUPERBLOCK_BYTES + |SegmentsBytes(segs)|;
            o % 8 == 0 && o <= |file| && ReadStore(file, limits) == Scan(file, o, StateAfter(segs), limits)
    ensures StateAfter(segs).image == ImageOf(Committed(segs))
  {
    hide Scan, ValidateSuperblock, SegmentsBytes, AfterSegments, AllAcceptable, ImageFrom, Committed;
    ScanSegments(file, SUPERBLOCK_BYTES, ScanState([], EMPTY_IMAGE), segs, limits);
    AfterSegmentsImage(ScanState([], EMPTY_IMAGE), segs);
    SegmentsAligned(segs);
    AlignedSum(SUPERBLOCK_BYTES, |SegmentsBytes(segs)|);
  }

  /** Any number of groups abandoned at record boundaries, anywhere, hide nothing and add nothing. */
  lemma {:induction false} AbandonedGroupsHarmless(file: Bytes, segs: seq<Segment>, limits: Limits)
    requires IsStore(file, segs, limits)
    ensures ReadStore(file, limits) == Ok(ImageOf(Committed(segs)))
  {
    hide Scan, BeginsWith, SegmentsBytes, StateAfter, ReadStore, ImageOf, Committed;
    ReadPast(file, segs, limits);
    ScanEnd(file, StateAfter(segs), limits);
  }

  // ---- crashes ----

  /** How many segments fit in the first n bytes. */
  function Fitting(segs: seq<Segment>, n: nat): (k: nat)
    ensures k <= |segs|
    decreases |segs|
  {
    if |segs| == 0 || |RecordsBytes(RecordsOf(segs[0]))| > n then 0
    else 1 + Fitting(segs[1..], n - |RecordsBytes(RecordsOf(segs[0]))|)
  }

  lemma {:induction false} FittingIsLongest(segs: seq<Segment>, n: nat, k: nat)
    requires k <= |segs|
    ensures |SegmentsBytes(segs[..k])| <= n <==> k <= Fitting(segs, n)
    decreases |segs|
  {
    hide RecordsBytes, RecordsOf;
    if k > 0 {
      var rest, size := segs[1..], |RecordsBytes(RecordsOf(segs[0]))|;
      assert segs[..k][1..] == rest[..k - 1];
      if size <= n {
        FittingIsLongest(rest, n - size, k - 1);
      }
    }
  }

  lemma {:induction false} ScanCutSegment(bytes: Bytes, o: nat, s: ScanState, g: Segment, limits: Limits)
    requires o % 8 == 0 && Acceptable(g, limits)
    requires o <= |bytes| < o + |RecordsBytes(RecordsOf(g))|
    requires bytes[o..] == RecordsBytes(RecordsOf(g))[..|bytes| - o]
    ensures Scan(bytes, o, s, limits) == Ok(s.image)
  {
    hide Scan, AcceptAll, RecordsBytes, Group, AllReadable, Sound;
    ReadableSegment(g, limits);
    var j := ScanCutRecords(bytes, o, s, RecordsOf(g), limits);
    assert j < |Group(g.txn)| && RecordsOf(g)[..j] == Group(g.txn)[..j];
    AcceptUnfinished(s, g.txn, j, limits);
  }

  /** A cut behind the first segment leaves that segment and a cut of the others. */
  lemma {:induction false} CutBehindSegment(bytes: Bytes, o: nat, segs: seq<Segment>)
    requires |segs| > 0 && o + |RecordsBytes(RecordsOf(segs[0]))| <= |bytes| <= o + |SegmentsBytes(segs)|
    requires bytes[o..] == SegmentsBytes(segs)[..|bytes| - o]
    ensures var n := |RecordsBytes(RecordsOf(segs[0]))|;
            && At(bytes, o, RecordsBytes(RecordsOf(segs[0])))
            && |bytes| <= o + n + |SegmentsBytes(segs[1..])|
            && bytes[o + n..] == SegmentsBytes(segs[1..])[..|bytes| - o - n]
  {
    hide RecordsBytes, RecordsOf;
    var piece, tail := RecordsBytes(RecordsOf(segs[0])), SegmentsBytes(segs[1..]);
    var n := |piece|;
    PrefixSlice(bytes, o, SegmentsBytes(segs), 0, n);
    PrefixSlice(bytes, o, SegmentsBytes(segs), n, |bytes| - o);
    assert (piece + tail)[0..n] == piece && (piece + tail)[n..|bytes| - o] == tail[..|bytes| - o - n];
  }

  lemma {:induction false} CutInSegment(bytes: Bytes, o: nat, segs: seq<Segment>)
    requires |segs| > 0 && o <= |bytes| < o + |RecordsBytes(RecordsOf(segs[0]))|
    requires bytes[o..] == SegmentsBytes(segs)[..|bytes| - o]
    ensures bytes[o..] == RecordsBytes(RecordsOf(segs[0]))[..|bytes| - o]
  {
    hide RecordsBytes, RecordsOf;
  }

  lemma {:induction false} ScanCutSegments(bytes: Bytes, o: nat, s: ScanState, segs: seq<Segment>, limits: Limits)
    requires o % 8 == 0 && AllAcceptable(segs, limits)
    requires o <= |bytes| <= o + |SegmentsBytes(segs)|
    requires bytes[o..] == SegmentsBytes(segs)[..|bytes| - o]
    ensures Scan(bytes, o, s, limits) == Ok(AfterSegments(s, segs[..Fitting(segs, |bytes| - o)]).image)
    decreases |segs|
  {
    hide Scan, RecordsBytes, RecordsOf, Acceptable, AllAcceptable, AfterSegment, AcceptAll, At;
    if |segs| == 0 {
      ScanEnd(bytes, s, limits);
    } else {
      AcceptableTail(segs, limits);
      var g, rest := segs[0], segs[1..];
      var n := |RecordsBytes(RecordsOf(g))|;
      if |bytes| < o + n {
        CutInSegment(bytes, o, segs);
        ScanCutSegment(bytes, o, s, g, limits);
      } else {
        CutBehindSegment(bytes, o, segs);
        ReadableSegment(g, limits);
        ScanRecords(bytes, o, s, RecordsOf(g), limits);
        AcceptSegment(s, g, limits);
        RecordsAligned(RecordsOf(g));
        AlignedSum(o, n);
        ScanCutSegments(bytes, o + n, AfterSegment(s, g), rest, limits);
        var k := Fitting(rest, |bytes| - o - n);
        assert segs[..k + 1][1..] == rest[..k];
      }
    }
  }

  /** Cut anywhere behind the superblock, a store reads as the whole transactions among the segments that fit. */
  lemma {:induction false} CutStoreReads(file: Bytes, segs: seq<Segment>, n: nat, limits: Limits)
    requires IsStore(file, segs, limits) && SUPERBLOCK_BYTES <= n <= |file|
    ensures ReadStore(file[..n], limits) == Ok(ImageOf(Committed(segs[..Fitting(segs, n - SUPERBLOCK_BYTES)])))
  {
    hide Scan, ValidateSuperblock, SegmentsBytes, AllAcceptable, AfterSegments, ImageFrom, Fitting, Committed;
    var cut := file[..n];
    ValidatePrefix(cut, file);
    assert file[SUPERBLOCK_BYTES..] == SegmentsBytes(segs);
    assert cut[SUPERBLOCK_BYTES..] == SegmentsBytes(segs)[..n - SUPERBLOCK_BYTES];
    ScanCutSegments(cut, SUPERBLOCK_BYTES, ScanState([], EMPTY_IMAGE), segs, limits);
    AfterSegmentsImage(ScanState([], EMPTY_IMAGE), segs[..Fitting(segs, n - SUPERBLOCK_BYTES)]);
  }

  // ---- logs without abandoned groups ----

  function Wholes(ts: seq<Txn>): (segs: seq<Segment>)
    ensures |segs| == |ts|
  {
    if |ts| == 0 then [] else [Whole(ts[0])] + Wholes(ts[1..])
  }

  lemma {:induction false} WholesAre(ts: seq<Txn>)
    ensures SegmentsBytes(Wholes(ts)) == TxnsBytes(ts) && Committed(Wholes(ts)) == ts
  {
    hide RecordsBytes, Group;
    if |ts| > 0 {
      WholesAre(ts[1..]);
      assert Wholes(ts)[1..] == Wholes(ts[1..]);
      assert ts == [ts[0]] + ts[1..];
    }
  }

  lemma {:induction false} WholesAcceptable(ts: seq<Txn>, limits: Limits)
    requires AllSound(ts, limits)
    ensures AllAcceptable(Wholes(ts), limits)
  {
    hide Sound;
    if |ts| > 0 {
      AllSoundTail(ts, limits);
      WholesAcceptable(ts[1..], limits);
    }
  }

  lemma {:induction false} WholesPrefix(ts: seq<Txn>, k: nat)
    requires k <= |ts|
    ensures Wholes(ts)[..k] == Wholes(ts[..k])
  {
    if k > 0 {
      WholesPrefix(ts[1..], k - 1);
      assert ts[..k][1..] == ts[1..][..k - 1];
      assert Wholes(ts)[..k] == [Whole(ts[0])] + Wholes(ts[1..])[..k - 1];
    }
  }

  /** Every cut of a log reads as the longest run of transactions that it still holds whole. */
  lemma {:induction false} CrashRecovery(file: Bytes, ts: seq<Txn>, n: nat, limits: Limits)
    requires IsLog(file, ts) && AllSound(ts, limits)
    requires SUPERBLOCK_BYTES <= n <= |file|
    ensures var k := Fitting(Wholes(ts), n - SUPERBLOCK_BYTES);
            && ReadStore(file[..n], limits) == Ok(ImageOf(ts[..k]))
            && |TxnsBytes(ts[..k])| <= n - SUPERBLOCK_BYTES
            && (k < |ts| ==> |TxnsBytes(ts[..k + 1])| > n - SUPERBLOCK_BYTES)
  {
    hide ReadStore, ValidateSuperblock, TxnsBytes, SegmentsBytes, AllAcceptable, AllSound, Wholes, Fitting, ImageOf, Committed;
    var segs := Wholes(ts);
    var k := Fitting(segs, n - SUPERBLOCK_BYTES);
    WholesAre(ts);
    WholesAcceptable(ts, limits);
    CutStoreReads(file, segs, n, limits);
    WholesPrefix(ts, k);
    WholesAre(ts[..k]);
    FittingIsLongest(segs, n - SUPERBLOCK_BYTES, k);
    if k < |ts| {
      WholesPrefix(ts, k + 1);
      WholesAre(ts[..k + 1]);
      FittingIsLongest(segs, n - SUPERBLOCK_BYTES, k + 1);
    }
  }

  lemma {:induction false} CommittedPrefix(segs: seq<Segment>, k: nat)
    requires k <= |segs|
    ensures Committed(segs[..k]) <= Committed(segs)
  {
    hide Committed;
    assert segs == segs[..k] + segs[k..];
    CommittedAppend(segs[..k], segs[k..]);
  }

  function AllRecords(segs: seq<Segment>): seq<Record>
  {
    if |segs| == 0 then [] else RecordsOf(segs[0]) + AllRecords(segs[1..])
  }

  lemma {:induction false} AllRecordsBytes(segs: seq<Segment>)
    ensures RecordsBytes(AllRecords(segs)) == SegmentsBytes(segs)
  {
    hide RecordsBytes, RecordsOf;
    if |segs| == 0 {
      NoRecords();
    } else {
      AllRecordsBytes(segs[1..]);
      RecordsBytesAppend(RecordsOf(segs[0]), AllRecords(segs[1..]));
    }
  }

  lemma NoRecords()
    ensures RecordsBytes([]) == []
  {
  }

  /** The first m records are segments again, the last one possibly cut short. */
  lemma {:induction false} FirstRecords(segs: seq<Segment>, m: nat, limits: Limits) returns (kept: seq<Segment>)
    requires AllAcceptable(segs, limits) && m <= |AllRecords(segs)|
    ensures AllAcceptable(kept, limits) && AllRecords(kept) == AllRecords(segs)[..m]
    ensures Committed(kept) <= Committed(segs)
    decreases |segs|
  {
    hide RecordsOf, Acceptable, CommittedBy;
    if m == 0 {
      kept := [];
    } else {
      AcceptableTail(segs, limits);
      var g, rest := segs[0], segs[1..];
      var own, others := RecordsOf(g), AllRecords(rest);
      if m < |own| {
        kept := [Part(g.txn, m)];
        CutSegment(g, m, limits);
        assert kept[1..] == [];
        assert (own + others)[..m] == own[..m];
        CommittedByPart(g.txn, m);
      } else {
        var tail := FirstRecords(rest, m - |own|, limits);
        kept := [g] + tail;
        assert kept[1..] == tail;
        assert (own + others)[..m] == own + others[..m - |own|];
      }
    }
  }

  lemma CommittedByPart(t: Txn, k: nat)
    ensures CommittedBy(Part(t, k)) == []
  {
  }

  lemma {:induction false} CutSegment(g: Segment, m: nat, limits: Limits)
    requires Acceptable(g, limits) && m < |RecordsOf(g)|
    ensures Acceptable(Part(g.txn, m), limits) && RecordsOf(Part(g.txn, m)) == RecordsOf(g)[..m]
  {
    hide Group, Readable, Sound;
    ReadableSegment(g, limits);
    assert RecordsOf(g)[..m] == Group(g.txn)[..m];
  }

  /**
   A crash that leaves whole records leaves a store again, with some of the same transactions first to last;
   so stores are closed under any number of crashes and appends.
   */
  lemma {:induction false} CrashAtRecord(file: Bytes, segs: seq<Segment>, m: nat, limits: Limits) returns (kept: seq<Segment>)
    requires IsStore(file, segs, limits) && m <= |AllRecords(segs)|
    ensures var n := SUPERBLOCK_BYTES + |RecordsBytes(AllRecords(segs)[..m])|;
            && n <= |file| && IsStore(file[..n], kept, limits)
            && Committed(kept) <= Committed(segs)
  {
    hide RecordsBytes, AllRecords, SegmentsBytes, AllAcceptable, ValidateSuperblock, Committed;
    kept := FirstRecords(segs, m, limits);
    var all := AllRecords(segs);
    assert all == all[..m] + all[m..];
    RecordsBytesAppend(all[..m], all[m..]);
    AllRecordsBytes(segs);
    AllRecordsBytes(kept);
    var part, tail := SegmentsBytes(kept), RecordsBytes(all[m..]);
    assert part == RecordsBytes(all[..m]) && SegmentsBytes(segs) == part + tail;
    AtSplit(file, SUPERBLOCK_BYTES, part, tail);
    var cut := file[..SUPERBLOCK_BYTES + |part|];
    ValidatePrefix(cut, file);
    assert cut[SUPERBLOCK_BYTES..SUPERBLOCK_BYTES + |part|] == file[SUPERBLOCK_BYTES..SUPERBLOCK_BYTES + |part|];
  }

  // ---- appending ----

  lemma WholeBytes(t: Txn)
    ensures RecordsBytes(RecordsOf(Whole(t))) == TxnBytes(t) && CommittedBy(Whole(t)) == [t]
  {
  }

  /** Bytes of one more segment, whole or abandoned, behind a store make a store again. */
  lemma {:induction false} AppendedSegment(file: Bytes, segs: seq<Segment>, g: Segment, limits: Limits)
    requires IsStore(file, segs, limits) && Acceptable(g, limits)
    ensures IsStore(file + RecordsBytes(RecordsOf(g)), segs + [g], limits)
    ensures Committed(segs + [g]) == Committed(segs) + CommittedBy(g)
  {
    hide SegmentsBytes, RecordsBytes, RecordsOf, Acceptable, ValidateSuperblock, Committed, CommittedBy;
    var piece := RecordsBytes(RecordsOf(g));
    ValidatePrefix(file + piece, file);
    SegmentsBytesAppend(segs, [g]);
    CommittedAppend(segs, [g]);
    OneSegment(g);
    assert (file + piece)[SUPERBLOCK_BYTES..] == file[SUPERBLOCK_BYTES..] + piece;
  }

  lemma {:induction false} PatchedStore(file: Bytes, segs: seq<Segment>, generation: u64, latest: u64, count: nat, limits: Limits)
    requires IsStore(file, segs, limits)
    ensures IsStore(Superblock(generation, latest, count) + file[SUPERBLOCK_BYTES..], segs, limits)
  {
    hide SegmentsBytes, AllAcceptable, ValidateSuperblock, Superblock;
    SuperblockValid(generation, latest, count, file[SUPERBLOCK_BYTES..]);
    var patched := Superblock(generation, latest, count) + file[SUPERBLOCK_BYTES..];
    assert patched[SUPERBLOCK_BYTES..] == file[SUPERBLOCK_BYTES..];
  }

  // ---- files that cannot be read ----

  lemma SameSlice(bytes: Bytes, more: Bytes, lo: nat, hi: nat)
    requires lo <= hi <= |bytes|
    ensures (bytes + more)[lo..hi] == bytes[lo..hi]
  {
  }

  lemma {:induction false} HeaderLonger(bytes: Bytes, more: Bytes, o: nat, limits: Limits)
    requires ReadHeader(bytes, o, limits) != Err(Format)
    ensures o + RECORD_HEADER_BYTES <= |bytes|
    ensures ReadHeader(bytes + more, o, limits) == ReadHeader(bytes, o, limits)
  {
    hide Crc, FromLittleEndian;
    assert o + RECORD_HEADER_BYTES <= |bytes|;
    SameSlice(bytes, more, o, o + 2);
    SameSlice(bytes, more, o + 2, o + 4);
    SameSlice(bytes, more, o + 4, o + 8);
    SameSlice(bytes, more, o + 8, o + 16);
    SameSlice(bytes, more, o + 16, o + 24);
    SameSlice(bytes, more, o + 24, o + 32);
    SameSlice(bytes, more, o + 32, o + 36);
    SameSlice(bytes, more, o + 36, o + 40);
    SameSlice(bytes, more, o, o + 32);
  }

  lemma {:induction false} PaddingLonger(bytes: Bytes, more: Bytes, o: nat)
    requires o <= |bytes| && SkipPadding(bytes, o).Ok?
    ensures SkipPadding(bytes + more, o) == SkipPadding(bytes, o)
    decreases |bytes| - o
  {
    if o % 8 != 0 {
      PaddingLonger(bytes, more, o + 1);
    }
  }

  /** Bytes behind it change a record's outcome only if it was a format error. */
  lemma {:induction false} DecodeLonger(bytes: Bytes, more: Bytes, o: nat, limits: Limits)
    requires DecodeRecord(bytes, o, limits) != Err(Format)
    ensures DecodeRecord(bytes + more, o, limits) == DecodeRecord(bytes, o, limits)
  {
    hide ReadHeader, Crc, SkipPadding, KindOf;
    HeaderLonger(bytes, more, o, limits);
    var header := ReadHeader(bytes, o, limits);
    if header.Ok? {
      var body := o + RECORD_HEADER_BYTES;
      var end := body + header.value.length;
      assert (bytes + more)[body..end] == bytes[body..end];
      if SkipPadding(bytes, end).Ok? {
        PaddingLonger(bytes, more, end);
      }
    }
  }

  lemma {:induction false} ScanFailsLonger(bytes: Bytes, more: Bytes, o: nat, s: ScanState, limits: Limits)
    requires Scan(bytes, o, s, limits).Err?
    ensures Scan(bytes + more, o, s, limits) == Scan(bytes, o, s, limits)
    decreases |bytes| - o
  {
    hide DecodeRecord, Accept;
    DecodeLonger(bytes, more, o, limits);
    var d := DecodeRecord(bytes, o, limits);
    if d.Ok? {
      var next := Accept(s, d.value.record, limits);
      if next.Ok? {
        ScanFailsLonger(bytes, more, d.value.next, next.value, limits);
      }
    }
  }

  /** Whatever made a file unreadable, nothing appended to it makes it readable again. */
  lemma {:induction false} UnreadableForGood(file: Bytes, more: Bytes, limits: Limits)
    requires |file| >= SUPERBLOCK_BYTES && ReadStore(file, limits).Err?
    ensures ReadStore(file + more, limits) == ReadStore(file, limits)
  {
    hide Scan, ValidateSuperblock;
    ValidatePrefix(file + more, file);
    if ValidateSuperblock(file).Ok? {
      ScanFailsLonger(file, more, SUPERBLOCK_BYTES, ScanState([], EMPTY_IMAGE), limits);
    }
  }

  /** No append to an unreadable file succeeds, and it stays unreadable. */
  lemma {:induction false} AppendToUnreadable(file: Bytes, t: Txn, limits: Limits)
    requires |file| >= SUPERBLOCK_BYTES && ReadStore(file, limits).Err?
    ensures Append(file, t, limits).1.Err?
    ensures |Append(file, t, limits).0| >= SUPERBLOCK_BYTES && ReadStore(Append(file, t, limits).0, limits).Err?
  {
    hide ReadStore, TxnBytes, FirstRefusal, Superblock, Group;
    UnreadableForGood(file, TxnBytes(t), limits);
  }

  /** A store followed by a group that the writer accepted and the reader refuses, and then by anything. */
  ghost predicate IsPoisoned(file: Bytes, segs: seq<Segment>, bad: Txn, limits: Limits)
  {
    && BeginsWith(file, segs, limits)
    && Writable(bad, limits) && !Recoverable(bad, limits)
    && At(file, SUPERBLOCK_BYTES + |SegmentsBytes(segs)|, TxnBytes(bad))
  }

  lemma {:induction false} PoisonedUnreadable(file: Bytes, segs: seq<Segment>, bad: Txn, limits: Limits)
    requires IsPoisoned(file, segs, bad, limits)
    ensures ReadStore(file, limits).Err?
  {
    hide Scan, BeginsWith, SegmentsBytes, StateAfter, TxnBytes, Writable, Recoverable, ReadStore, ImageOf;
    ReadPast(file, segs, limits);
    ScanPoisoned(file, SUPERBLOCK_BYTES + |SegmentsBytes(segs)|, StateAfter(segs), bad, limits);
  }

  lemma {:induction false} AtLonger(file: Bytes, more: Bytes, o: nat, e: Bytes)
    requires At(file, o, e)
    ensures At(file + more, o, e)
  {
    assert (file + more)[o..o + |e|] == file[o..o + |e|];
  }

  /**
   Appending to a store succeeds exactly for the transactions that writer and reader both accept, and then
   adds one whole segment; a transaction that only the reader refuses poisons the file.
   */
  lemma {:induction false} AppendToStore(file: Bytes, segs: seq<Segment>, t: Txn, limits: Limits)
    requires IsStore(file, segs, limits) && WellSized(t)
    ensures var (file', r) := Append(file, t, limits);
            && (r.Ok? <==> Sound(t, limits))
            && (Sound(t, limits) ==> IsStore(file', segs + [Whole(t)], limits))
            && (!Writable(t, limits) ==> file' == file)
            && (Writable(t, limits) && !Recoverable(t, limits) ==>
                  IsPoisoned(file', segs, t, limits) && ReadStore(file', limits).Err?)
    ensures Committed(segs + [Whole(t)]) == Committed(segs) + [t]
  {
    hide ReadStore, BeginsWith, SegmentsBytes, TxnBytes, FirstRefusal, MutationEncodes, Recoverable, Superblock,
      Group, MutationPayload, Committed, ImageOf;
    NoRefusal(t.mutations, limits);
    CommittedAppend(segs, [Whole(t)]);
    OneSegment(Whole(t));
    var longer := file + TxnBytes(t);
    if Sound(t, limits) {
      WholeBytes(t);
      AppendedSegment(file, segs, Whole(t), limits);
      AbandonedGroupsHarmless(longer, segs + [Whole(t)], limits);
      PatchedStore(longer, segs + [Whole(t)], 1, ImageOf(Committed(segs) + [t]).latest, |Group(t)|, limits);
    } else if Writable(t, limits) {
      AppendedPoison(file, segs, t, limits);
      PoisonedUnreadable(longer, segs, t, limits);
    }
  }

  lemma {:induction false} AppendedPoison(file: Bytes, segs: seq<Segment>, t: Txn, limits: Limits)
    requires IsStore(file, segs, limits) && Writable(t, limits) && !Recoverable(t, limits)
    ensures IsPoisoned(file + TxnBytes(t), segs, t, limits)
  {
    hide SegmentsBytes, TxnBytes, Writable, Recoverable, AllAcceptable, ValidateSuperblock;
    ValidatePrefix(file + TxnBytes(t), file);
    AtLonger(file, TxnBytes(t), SUPERBLOCK_BYTES, SegmentsBytes(segs));
  }

}
