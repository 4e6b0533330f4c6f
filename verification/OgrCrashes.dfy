/** Crashes at any byte: they leave a store file or a quiet tear, with the transactions that are still whole. */
module OgrCrashes {
  import opened Bytes
  import opened Values
  import opened OgrRecord
  import opened OgrLog
  import opened OgrSegments
  import opened OgrTears

  lemma {:induction false} TearBehindStore(file: Bytes, segs: seq<Segment>, r: Record, cut: nat, limits: Limits)
    requires IsStore(file, segs, limits) && |r.payload| < TWO_64 && 0 < cut < |RecordBytes(r)|
    ensures IsTear(file + RecordBytes(r)[..cut], segs, r, cut, [], limits)
  {
    hide SegmentsBytes, AllAcceptable, ValidateSuperblock, RecordBytes;
    var part := RecordBytes(r)[..cut];
    ValidatePrefix(file + part, file);
    AtLonger(file, part, SUPERBLOCK_BYTES, SegmentsBytes(segs));
    assert (file + part)[TornAt(segs)..] == part == part + [];
  }

  /** A crash while the next group is appended, in its record j after cut bytes. */
  lemma {:induction false} CrashInAppend(file: Bytes, segs: seq<Segment>, t: Txn, j: nat, cut: nat, limits: Limits)
    requires IsStore(file, segs, limits)
    requires j < |Group(t)| && AllReadable(Group(t)[..j], limits) && |Group(t)[j].payload| < TWO_64
    requires 0 < cut < |RecordBytes(Group(t)[j])|
    ensures IsTear(file + RecordsBytes(Group(t)[..j]) + RecordBytes(Group(t)[j])[..cut],
                   segs + [Part(t, j)], Group(t)[j], cut, [], limits)
    ensures Committed(segs + [Part(t, j)]) == Committed(segs)
  {
    hide Group, RecordsBytes, RecordBytes, AllReadable, IsStore, IsTear, Committed;
    assert RecordsOf(Part(t, j)) == Group(t)[..j];
    AppendedSegment(file, segs, Part(t, j), limits);
    CommittedByPart(t, j);
    assert Committed(segs) + [] == Committed(segs);
    TearBehindStore(file + RecordsBytes(Group(t)[..j]), segs + [Part(t, j)], Group(t)[j], cut, limits);
  }

  /** The first x bytes of a list of records are whole records and a part of the next. */
  lemma {:induction false} CutRecords(rs: seq<Record>, x: nat) returns (j: nat)
    requires x < |RecordsBytes(rs)|
    ensures j < |rs|
    ensures |RecordsBytes(rs[..j])| <= x < |RecordsBytes(rs[..j])| + |RecordBytes(rs[j])|
    ensures RecordsBytes(rs)[..x] == RecordsBytes(rs[..j]) + RecordBytes(rs[j])[..x - |RecordsBytes(rs[..j])|]
    decreases |rs|
  {
    hide RecordBytes;
    var first, n := RecordBytes(rs[0]), |RecordBytes(rs[0])|;
    if x < n {
      j := 0;
      NoRecords();
      assert rs[..0] == [];
      assert RecordsBytes(rs)[..x] == first[..x] == [] + first[..x];
    } else {
      var i := CutRecords(rs[1..], x - n);
      j := i + 1;
      assert rs[..j][1..] == rs[1..][..i];
      assert RecordsBytes(rs)[..x] == first + RecordsBytes(rs[1..])[..x - n];
    }
  }

  /** The first x bytes of a list of segments are whole segments and a part of the next. */
  lemma {:induction false} CutSegments(segs: seq<Segment>, x: nat)
    requires x < |SegmentsBytes(segs)|
    ensures var k := Fitting(segs, x);
            && k < |segs| && |SegmentsBytes(segs[..k])| <= x
            && x - |SegmentsBytes(segs[..k])| < |RecordsBytes(RecordsOf(segs[k]))|
            && SegmentsBytes(segs)[..x]
               == SegmentsBytes(segs[..k]) + RecordsBytes(RecordsOf(segs[k]))[..x - |SegmentsBytes(segs[..k])|]
  {
    hide RecordsBytes, RecordsOf, SegmentsBytes, Fitting;
    var k := Fitting(segs, x);
    FittingIsLongest(segs, x, k);
    FittingIsLongest(segs, x, |segs|);
    assert segs[..|segs|] == segs;
    FittingIsLongest(segs, x, k + 1);
    var before, g, after := segs[..k], segs[k], segs[k + 1..];
    assert segs[..k + 1] == before + [g] && segs == segs[..k + 1] + after;
    SegmentsBytesAppend(before, [g]);
    SegmentsBytesAppend(segs[..k + 1], after);
    OneSegment(g);
    PrefixOfSum(SegmentsBytes(before), RecordsBytes(RecordsOf(g)), SegmentsBytes(after), x);
  }

  lemma PrefixOfSum(a: Bytes, b: Bytes, c: Bytes, x: nat)
    requires |a| <= x <= |a + b|
    ensures ((a + b) + c)[..x] == a + b[..x - |a|]
  {
  }

  /** Whole segments, the last one possibly abandoned, and a part of one more record. */
  lemma {:induction false} SplitCut(segs: seq<Segment>, x: nat, limits: Limits)
    returns (kept: seq<Segment>, r: Record, cut: nat)
    requires AllAcceptable(segs, limits) && x < |SegmentsBytes(segs)|
    ensures AllAcceptable(kept, limits) && Committed(kept) == Committed(segs[..Fitting(segs, x)])
    ensures Readable(r, limits) && cut < |RecordBytes(r)|
    ensures SegmentsBytes(segs)[..x] == SegmentsBytes(kept) + RecordBytes(r)[..cut]
  {
    hide RecordsBytes, RecordBytes, RecordsOf, SegmentsBytes, Fitting, Committed, CommittedBy, Acceptable, Readable;
    CutSegments(segs, x);
    var before, g := segs[..Fitting(segs, x)], segs[Fitting(segs, x)];
    var y := x - |SegmentsBytes(before)|;
    var rs := RecordsOf(g);
    var j := CutRecords(rs, y);
    CutSegment(g, j, limits);
    ReadableSegment(g, limits);
    kept, r, cut := before + [Part(g.txn, j)], rs[j], y - |RecordsBytes(rs[..j])|;
    SegmentsBytesAppend(before, [Part(g.txn, j)]);
    CommittedAppend(before, [Part(g.txn, j)]);
    OneSegment(Part(g.txn, j));
    CommittedByPart(g.txn, j);
    assert Committed(before) + [] == Committed(before);
    ConcatAssociative(SegmentsBytes(before), RecordsBytes(rs[..j]), RecordBytes(r)[..cut]);
  }

  /**
   A crash that keeps any n bytes of a store leaves a store again, or a quiet tear, with the transactions that
   are still whole.
   */
  lemma {:induction false} CrashAnywhere(file: Bytes, segs: seq<Segment>, n: nat, limits: Limits)
    returns (kept: seq<Segment>, r: Record, cut: nat)
    requires IsStore(file, segs, limits) && SUPERBLOCK_BYTES <= n <= |file|
    ensures Committed(kept) == Committed(segs[..Fitting(segs, n - SUPERBLOCK_BYTES)])
    ensures if cut == 0 then IsStore(file[..n], kept, limits)
            else IsTear(file[..n], kept, r, cut, [], limits) && Quiet(r, cut, [], limits)
  {
    hide SegmentsBytes, AllAcceptable, ValidateSuperblock, RecordBytes, Fitting, Committed, Quiet, At, IsTear;
    var x := n - SUPERBLOCK_BYTES;
    if n == |file| {
      kept, r, cut := segs, Record(TxnBegin, 0, 0, []), 0;
      FittingIsLongest(segs, x, |segs|);
      assert segs[..|segs|] == segs && file[..n] == file;
    } else {
      kept, r, cut := SplitCut(segs, x, limits);
      var whole := n - cut;
      KeptStore(file, segs, kept, RecordBytes(r)[..cut], n, limits);
      if cut > 0 {
        FreshTearQuiet(r, cut, limits);
        TearBehindStore(file[..whole], kept, r, cut, limits);
      }
    }
  }

  /** The bytes of a store whose prefix is another list of segments and a part. */
  lemma {:induction false} KeptStore(file: Bytes, segs: seq<Segment>, kept: seq<Segment>, part: Bytes, n: nat,
                                     limits: Limits)
    requires IsStore(file, segs, limits) && AllAcceptable(kept, limits) && SUPERBLOCK_BYTES <= n <= |file|
    requires SegmentsBytes(segs)[..n - SUPERBLOCK_BYTES] == SegmentsBytes(kept) + part
    ensures |part| <= n && IsStore(file[..n - |part|], kept, limits) && file[..n] == file[..n - |part|] + part
  {
    hide SegmentsBytes, AllAcceptable, ValidateSuperblock;
    var a, b := SegmentsBytes(segs), SegmentsBytes(kept);
    var x := n - SUPERBLOCK_BYTES;
    assert |a[..x]| == x;
    assert file[SUPERBLOCK_BYTES..] == a;
    assert file[SUPERBLOCK_BYTES..n] == a[..x] == b + part;
    var m := n - |part|;
    assert file[SUPERBLOCK_BYTES..m] == file[SUPERBLOCK_BYTES..n][..|b|] == b;
    assert file[m..n] == file[SUPERBLOCK_BYTES..n][|b|..] == part;
    assert file[..m][SUPERBLOCK_BYTES..m] == file[SUPERBLOCK_BYTES..m];
    ValidatePrefix(file[..m], file);
  }

  /** A tear cut short is a tear again, and a quiet one stays quiet. */
  lemma {:induction false} CutTear(file: Bytes, segs: seq<Segment>, r: Record, cut: nat, rest: Bytes, n: nat,
                                   limits: Limits)
    requires IsTear(file, segs, r, cut, rest, limits) && TornAt(segs) < n <= |file|
    ensures var size := n - TornAt(segs);
            var left := if size < cut then size else cut;
            && size - left <= |rest|
            && IsTear(file[..n], segs, r, left, rest[..size - left], limits)
            && (Quiet(r, cut, rest, limits) ==> Quiet(r, left, rest[..size - left], limits))
  {
    hide SegmentsBytes, AllAcceptable, ValidateSuperblock, RecordBytes;
    var o := TornAt(segs);
    var size := n - o;
    var left := if size < cut then size else cut;
    var m := Remains(r, cut, rest);
    assert |file[o..]| == |m|;
    ValidatePrefix(file[..n], file);
    assert file[..n][o..] == file[o..][..size] == m[..size];
    assert m[..size] == Remains(r, left, rest[..size - left]);
    assert file[..n][SUPERBLOCK_BYTES..o] == file[SUPERBLOCK_BYTES..o];
  }

  /** What stands before a tear is a store. */
  lemma {:induction false} BeforeTear(file: Bytes, segs: seq<Segment>, r: Record, cut: nat, rest: Bytes, limits: Limits)
    requires IsTear(file, segs, r, cut, rest, limits)
    ensures TornAt(segs) <= |file| && IsStore(file[..TornAt(segs)], segs, limits)
  {
    hide SegmentsBytes, AllAcceptable, ValidateSuperblock, RecordBytes;
    var o := TornAt(segs);
    ValidatePrefix(file[..o], file);
    assert file[..o][SUPERBLOCK_BYTES..o] == file[SUPERBLOCK_BYTES..o];
  }
}
