/**
 What is known about the bytes of a store over a whole run of appends and crashes, and when an append succeeds
 on them.
 */
module StoreDisk {
  import opened Bytes
  import opened Results
  import opened Values
  import opened OgrRecord
  import opened OgrLog
  import opened OgrSegments
  import opened OgrTears
  import opened OgrCrashes

  /**
   Whole and abandoned groups; or the same with a quiet tear behind them; or bytes that cannot be read; or
   nothing is known, which a run reaches only when a checksum over bytes of different records is right.
   */
  datatype Disk = Clean(segs: seq<Segment>) | Torn(segs: seq<Segment>, torn: Record, cut: nat, rest: Bytes)
                | Unreadable | Unknown

  /** The bytes of a store whose commits reported success for ts. Behind a tear they hold only the first of them. */
  ghost predicate OnDisk(file: Bytes, ts: seq<Txn>, disk: Disk, limits: Limits)
  {
    && |file| >= SUPERBLOCK_BYTES
    && match disk
       case Clean(segs) => IsStore(file, segs, limits) && Committed(segs) == ts
       case Torn(segs, r, cut, rest) =>
         IsTear(file, segs, r, cut, rest, limits) && Quiet(r, cut, rest, limits) && Committed(segs) <= ts
       case Unreadable => ReadStore(file, limits).Err?
       case Unknown => true
  }

  /** The file can be read back with t behind it. */
  ghost predicate Rereads(file: Bytes, t: Txn, limits: Limits)
  {
    ReadStore(file + TxnBytes(t), limits).Ok?
  }

  /** Whether an append succeeds. */
  ghost predicate Accepted(file: Bytes, disk: Disk, t: Txn, limits: Limits)
  {
    match disk
    case Clean(_) => Sound(t, limits)
    case Torn(_, r, cut, rest) =>
      var more := rest + TxnBytes(t);
      && Writable(t, limits) && cut <= |RecordBytes(r)|
      && (Quiet(r, cut, more, limits) || (Objection(r, cut, more, limits).None? && Rereads(file, t, limits)))
    case Unreadable => false
    case Unknown => Writable(t, limits) && Rereads(file, t, limits)
  }

  /** What an append makes of the disk. */
  ghost function DiskAfter(file: Bytes, disk: Disk, t: Txn, limits: Limits): Disk
  {
    if !Writable(t, limits) then disk
    else if !Accepted(file, disk, t, limits) then Unreadable
    else
      match disk
      case Clean(segs) => Clean(segs + [Whole(t)])
      case Torn(segs, r, cut, rest) =>
        if Quiet(r, cut, rest + TxnBytes(t), limits) then Torn(segs, r, cut, rest + TxnBytes(t)) else Unknown
      case _ => Unknown
  }

  lemma SoundParts(t: Txn, limits: Limits)
    ensures Sound(t, limits) <==> Writable(t, limits) && Recoverable(t, limits)
  {
  }

  /** An append on which nothing else is known is decided by reading back. */
  lemma {:induction false} AppendDecides(file: Bytes, t: Txn, limits: Limits)
    requires |file| >= SUPERBLOCK_BYTES && WellSized(t)
    ensures var (longer, r) := Append(file, t, limits);
            && |longer| >= SUPERBLOCK_BYTES
            && (r.Ok? <==> Writable(t, limits) && Rereads(file, t, limits))
            && (!Writable(t, limits) ==> longer == file)
            && (Writable(t, limits) && r.Err? ==> ReadStore(longer, limits).Err?)
  {
    hide ReadStore, TxnBytes, FirstRefusal, Superblock, Group, MutationEncodes, MutationPayload;
    NoRefusal(t.mutations, limits);
  }

  lemma {:induction false} LongerJournal(kept: seq<Txn>, ts: seq<Txn>, t: Txn)
    requires kept <= ts
    ensures kept <= ts + [t]
  {
    assert (ts + [t])[..|kept|] == ts[..|kept|];
  }

  lemma {:induction false} AppendToTorn(file: Bytes, ts: seq<Txn>, disk: Disk, t: Txn, limits: Limits)
    requires OnDisk(file, ts, disk, limits) && disk.Torn? && WellSized(t)
    ensures var (longer, r) := Append(file, t, limits);
            && (r.Ok? <==> Accepted(file, disk, t, limits))
            && OnDisk(longer, if r.Ok? then ts + [t] else ts, DiskAfter(file, disk, t, limits), limits)
  {
    hide IsTear, Append, WellSized, Writable, Committed, ReadStore, Quiet, Objection, ImageOf, TxnBytes, RecordBytes,
      Rereads;
    var segs, r, cut, rest := disk.segs, disk.torn, disk.cut, disk.rest;
    var more := rest + TxnBytes(t);
    TearLength(file, segs, r, cut, rest, limits);
    AppendDecides(file, t, limits);
    AppendBehindTear(file, segs, r, cut, rest, t, limits);
    OnlyChecksumsDecide(r, cut, more, limits);
    LongerJournal(Committed(segs), ts, t);
    var after := Append(file, t, limits);
    assert Writable(t, limits) && after.1.Err? ==> OnDisk(after.0, ts, Unreadable, limits);
  }

  /** Appends succeed exactly when accepted, and as much is known about the bytes afterwards. */
  lemma {:induction false} DiskAfterAppend(file: Bytes, ts: seq<Txn>, disk: Disk, t: Txn, limits: Limits)
    requires OnDisk(file, ts, disk, limits) && WellSized(t)
    ensures |file| >= SUPERBLOCK_BYTES
    ensures var (longer, r) := Append(file, t, limits);
            && (r.Ok? <==> Accepted(file, disk, t, limits))
            && OnDisk(longer, if r.Ok? then ts + [t] else ts, DiskAfter(file, disk, t, limits), limits)
  {
    hide IsStore, IsTear, IsPoisoned, Append, Sound, WellSized, Writable, Recoverable, Committed, ReadStore, Quiet,
      Objection, ImageOf, TxnBytes, RecordBytes, Rereads;
    AppendDecides(file, t, limits);
    match disk
    case Clean(segs) =>
      AppendToStore(file, segs, t, limits);
      SoundParts(t, limits);
    case Torn(_, _, _, _) =>
      AppendToTorn(file, ts, disk, t, limits);
    case Unreadable =>
      AppendToUnreadable(file, t, limits);
    case Unknown =>
      var after := Append(file, t, limits);
      assert Writable(t, limits) && after.1.Err? ==> OnDisk(after.0, ts, Unreadable, limits);
  }

  /** What is known about the bytes is lost only to a checksum that is right by coincidence. */
  lemma {:induction false} UnknownByCoincidence(file: Bytes, ts: seq<Txn>, disk: Disk, t: Txn, limits: Limits)
    requires OnDisk(file, ts, disk, limits)
    requires !disk.Unknown? && DiskAfter(file, disk, t, limits).Unknown?
    ensures disk.Torn? && disk.cut <= |RecordBytes(disk.torn)|
    ensures Coincides(disk.torn, disk.cut, disk.rest + TxnBytes(t))
  {
    hide IsStore, IsTear, Writable, Committed, ReadStore, Quiet, Objection, Coincides, TxnBytes, RecordBytes, Rereads;
    OnlyChecksumsDecide(disk.torn, disk.cut, disk.rest + TxnBytes(t), limits);
  }

  /** Opening a file that is clean or torn shows the transactions before the tear, and nothing else. */
  lemma {:induction false} KnownDiskReads(file: Bytes, ts: seq<Txn>, disk: Disk, limits: Limits)
    requires OnDisk(file, ts, disk, limits) && (disk.Clean? || disk.Torn?)
    ensures ReadStore(file, limits) == Ok(ImageOf(Committed(disk.segs)))
    ensures Committed(disk.segs) <= ts && (disk.Clean? ==> Committed(disk.segs) == ts)
    ensures OnDisk(file, Committed(disk.segs), disk, limits)
  {
    hide IsStore, IsTear, Committed, ReadStore, Quiet, ImageOf, Objection;
    match disk
    case Clean(segs) => AbandonedGroupsHarmless(file, segs, limits);
    case Torn(segs, r, cut, rest) => TearReads(file, segs, r, cut, rest, limits);
  }

  lemma {:induction false} CleanCrash(file: Bytes, segs: seq<Segment>, n: nat, limits: Limits) returns (kept: Disk)
    requires IsStore(file, segs, limits) && SUPERBLOCK_BYTES <= n <= |file|
    ensures kept.Clean? || kept.Torn?
    ensures Committed(kept.segs) == Committed(segs[..Fitting(segs, n - SUPERBLOCK_BYTES)])
    ensures OnDisk(file[..n], Committed(kept.segs), kept, limits)
  {
    hide IsStore, IsTear, Committed, Quiet, Fitting, RecordBytes;
    var whole, r, cut := CrashAnywhere(file, segs, n, limits);
    kept := if cut == 0 then Clean(whole) else Torn(whole, r, cut, []);
  }

  /**
   A crash that keeps any n bytes of a clean or torn file leaves a clean or torn file again, with some of the
   same transactions first to last; of a clean one, those that are still whole.
   */
  lemma {:induction false} CrashedDisk(file: Bytes, ts: seq<Txn>, disk: Disk, n: nat, limits: Limits) returns (kept: Disk)
    requires OnDisk(file, ts, disk, limits) && (disk.Clean? || disk.Torn?) && SUPERBLOCK_BYTES <= n <= |file|
    ensures kept.Clean? || kept.Torn?
    ensures OnDisk(file[..n], Committed(kept.segs), kept, limits) && Committed(kept.segs) <= Committed(disk.segs)
    ensures disk.Clean? ==> Committed(kept.segs) == Committed(disk.segs[..Fitting(disk.segs, n - SUPERBLOCK_BYTES)])
  {
    hide IsStore, IsTear, Committed, Quiet, Fitting, OnDisk, SegmentsBytes;
    var o := TornAt(disk.segs);
    match disk
    case Clean(segs) =>
      assert IsStore(file, segs, limits) by { ShownDisk(file, ts, disk, limits); }
      kept := CleanCrash(file, segs, n, limits);
      CommittedPrefix(segs, Fitting(segs, n - SUPERBLOCK_BYTES));
    case Torn(segs, r, cut, rest) =>
      ShownDisk(file, ts, disk, limits);
      BeforeTear(file, segs, r, cut, rest, limits);
      if n <= o {
        assert file[..o][..n] == file[..n];
        kept := CleanCrash(file[..o], segs, n, limits);
        CommittedPrefix(segs, Fitting(segs, n - SUPERBLOCK_BYTES));
      } else {
        CutTear(file, segs, r, cut, rest, n, limits);
        var left := if n - o < cut then n - o else cut;
        kept := Torn(segs, r, left, rest[..n - o - left]);
        TornOnDisk(file[..n], kept, limits);
      }
  }

  lemma ShownDisk(file: Bytes, ts: seq<Txn>, disk: Disk, limits: Limits)
    requires OnDisk(file, ts, disk, limits)
    ensures disk.Clean? ==> IsStore(file, disk.segs, limits)
    ensures disk.Torn? ==> IsTear(file, disk.segs, disk.torn, disk.cut, disk.rest, limits)
                           && Quiet(disk.torn, disk.cut, disk.rest, limits)
  {
  }

  lemma TornOnDisk(file: Bytes, disk: Disk, limits: Limits)
    requires disk.Torn? && IsTear(file, disk.segs, disk.torn, disk.cut, disk.rest, limits)
    requires Quiet(disk.torn, disk.cut, disk.rest, limits)
    ensures OnDisk(file, Committed(disk.segs), disk, limits)
  {
  }
}
