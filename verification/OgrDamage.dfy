/**
 One wrong byte in a store file. A damaged record is never accepted; only damage in padding ends the scan
 quietly, and then what was committed before the damaged record is shown.
 */
module OgrDamage {
  import opened Bytes
  import opened Results
  import opened Values
  import opened OgrRecord
  import opened OgrLog
  import opened OgrSegments

  lemma DamageSplit(a: Bytes, b: Bytes, p: nat, x: byte)
    requires p < |a + b|
    ensures (a + b)[p := x] == if p < |a| then a[p := x] + b else a + b[p - |a| := x]
  {
  }

  /** The byte at p of the concatenated records lies in some record's padding. */
  predicate PaddingByte(rs: seq<Record>, p: nat)
    requires p < |RecordsBytes(rs)|
    decreases |rs|
  {
    var n := |RecordBytes(rs[0])|;
    if p < n then InPadding(rs[0], p) else PaddingByte(rs[1..], p - n)
  }

  /** One wrong byte stops the scan at its record: quietly in padding, with an error anywhere else. */
  lemma {:induction false} ScanDamagedRecords(bytes: Bytes, o: nat, s: ScanState, rs: seq<Record>,
                                              p: nat, x: byte, limits: Limits)
    returns (k: nat)
    requires o % 8 == 0 && AllReadable(rs, limits)
    requires p < |RecordsBytes(rs)| && x != RecordsBytes(rs)[p]
    requires At(bytes, o, RecordsBytes(rs)[p := x])
    ensures k < |rs|
    ensures match AcceptAll(s, rs[..k], limits)
            case Err(e) => Scan(bytes, o, s, limits) == Err(e)
            case Ok(s') => if PaddingByte(rs, p) then Scan(bytes, o, s, limits) == Ok(s'.image)
                           else Scan(bytes, o, s, limits).Err?
    decreases |rs|
  {
    hide Accept, RecordBytes, DecodeRecord, AllReadable;
    AllReadableTail(rs, limits);
    var r, rest := rs[0], rs[1..];
    var n := |RecordBytes(r)|;
    DamageSplit(RecordBytes(r), RecordsBytes(rest), p, x);
    if p < n {
      k := 0;
      AtSplit(bytes, o, RecordBytes(r)[p := x], RecordsBytes(rest));
      RecordDamaged(bytes, o, r, p, x, limits);
    } else {
      var damaged := RecordsBytes(rest)[p - n := x];
      AtSplit(bytes, o, RecordBytes(r), damaged);
      ScanStep(bytes, o, s, r, limits);
      var next := Accept(s, r, limits);
      if next.Err? {
        k := 1;
        assert |rest| > 0;
        assert rs[..1] == [r];
        AcceptAllOne(s, r, limits);
      } else {
        RecordSize(r);
        AlignedSum(o, n);
        var j := ScanDamagedRecords(bytes, o + n, next.value, rest, p - n, x, limits);
        k := j + 1;
        assert rs[..k][1..] == rest[..j];
      }
    }
  }

  /** Which segment the byte p of the file's body belongs to. */
  function Holder(segs: seq<Segment>, p: nat): (j: nat)
    requires p < |SegmentsBytes(segs)|
    ensures j < |segs|
    decreases |segs|
  {
    var n := |RecordsBytes(RecordsOf(segs[0]))|;
    if p < n then 0 else 1 + Holder(segs[1..], p - n)
  }

  /** The byte p of the file's body lies in some record's padding. */
  predicate PaddingOf(segs: seq<Segment>, p: nat)
    requires p < |SegmentsBytes(segs)|
    decreases |segs|
  {
    var n := |RecordsBytes(RecordsOf(segs[0]))|;
    if p < n then PaddingByte(RecordsOf(segs[0]), p) else PaddingOf(segs[1..], p - n)
  }

  /** Quiet damage shows what was committed before it; any other damage is an error. */
  ghost predicate DamageShows(r: Result<Image>, quiet: bool, kept: Image)
  {
    if quiet then r == Ok(kept) else r.Err?
  }

  lemma {:induction false} ScanDamagedSegment(bytes: Bytes, o: nat, s: ScanState, g: Segment, p: nat, x: byte, limits: Limits)
    requires o % 8 == 0 && Acceptable(g, limits)
    requires p < |RecordsBytes(RecordsOf(g))| && x != RecordsBytes(RecordsOf(g))[p]
    requires At(bytes, o, RecordsBytes(RecordsOf(g))[p := x])
    ensures DamageShows(Scan(bytes, o, s, limits), PaddingByte(RecordsOf(g), p), s.image)
  {
    hide Scan, AcceptAll, RecordsBytes, Group, PaddingByte, AllReadable, Sound;
    ReadableSegment(g, limits);
    var k := ScanDamagedRecords(bytes, o, s, RecordsOf(g), p, x, limits);
    assert k < |Group(g.txn)| && RecordsOf(g)[..k] == Group(g.txn)[..k];
    AcceptUnfinished(s, g.txn, k, limits);
  }

  /** The scanner's image when it reaches the segment that holds p. */
  function ImageBefore(s: ScanState, segs: seq<Segment>, p: nat): Image
    requires p < |SegmentsBytes(segs)|
  {
    AfterSegments(s, segs[..Holder(segs, p)]).image
  }

  lemma {:induction false} DamageInTail(s: ScanState, segs: seq<Segment>, p: nat)
    requires |segs| > 0 && |RecordsBytes(RecordsOf(segs[0]))| <= p < |SegmentsBytes(segs)|
    ensures |SegmentsBytes(segs)| == |RecordsBytes(RecordsOf(segs[0]))| + |SegmentsBytes(segs[1..])|
    ensures var q := p - |RecordsBytes(RecordsOf(segs[0]))|;
            && PaddingOf(segs, p) == PaddingOf(segs[1..], q)
            && ImageBefore(s, segs, p) == ImageBefore(AfterSegment(s, segs[0]), segs[1..], q)
  {
    hide RecordsBytes, RecordsOf, AfterSegment, PaddingByte;
    var k := Holder(segs[1..], p - |RecordsBytes(RecordsOf(segs[0]))|);
    assert segs[..k + 1][1..] == segs[1..][..k];
  }

  lemma {:induction false} DamageInHead(s: ScanState, segs: seq<Segment>, p: nat)
    requires |segs| > 0 && p < |RecordsBytes(RecordsOf(segs[0]))| && p < |SegmentsBytes(segs)|
    ensures PaddingOf(segs, p) == PaddingByte(RecordsOf(segs[0]), p) && ImageBefore(s, segs, p) == s.image
  {
    hide RecordsBytes, RecordsOf, PaddingByte;
  }

  lemma {:induction false} ScanDamagedSegments(bytes: Bytes, o: nat, s: ScanState, segs: seq<Segment>,
                                               p: nat, x: byte, limits: Limits)
    requires o % 8 == 0 && AllAcceptable(segs, limits)
    requires p < |SegmentsBytes(segs)| && x != SegmentsBytes(segs)[p]
    requires At(bytes, o, SegmentsBytes(segs)[p := x])
    ensures DamageShows(Scan(bytes, o, s, limits), PaddingOf(segs, p), ImageBefore(s, segs, p))
    decreases |segs|
  {
    hide RecordsBytes, RecordsOf, Acceptable, AllAcceptable, Scan, PaddingByte, At, PaddingOf, Holder, AfterSegment,
      AcceptAll, ImageBefore;
    AcceptableTail(segs, limits);
    var g, rest := segs[0], segs[1..];
    var piece, tail := RecordsBytes(RecordsOf(g)), SegmentsBytes(rest);
    var n := |piece|;
    DamageSplit(piece, tail, p, x);
    if p < n {
      AtSplit(bytes, o, piece[p := x], tail);
      ScanDamagedSegment(bytes, o, s, g, p, x, limits);
      DamageInHead(s, segs, p);
    } else {
      AtSplit(bytes, o, piece, tail[p - n := x]);
      ReadableSegment(g, limits);
      ScanRecords(bytes, o, s, RecordsOf(g), limits);
      AcceptSegment(s, g, limits);
      RecordsAligned(RecordsOf(g));
      AlignedSum(o, n);
      ScanDamagedSegments(bytes, o + n, AfterSegment(s, g), rest, p - n, x, limits);
      DamageInTail(s, segs, p);
    }
  }

  /**
   Changing one byte behind the superblock of a store, abandoned groups included, is caught: the file is
   refused, except that damaged padding hides the segment it lies in and everything after it.
   */
  lemma {:induction false} SingleByteDamage(file: Bytes, segs: seq<Segment>, p: nat, x: byte, limits: Limits)
    requires IsStore(file, segs, limits)
    requires SUPERBLOCK_BYTES <= p < |file| && x != file[p]
    ensures var q := p - SUPERBLOCK_BYTES;
            DamageShows(ReadStore(file[p := x], limits), PaddingOf(segs, q), ImageOf(Committed(segs[..Holder(segs, q)])))
  {
    hide Scan, ValidateSuperblock, SegmentsBytes, AllAcceptable, AfterSegments, ImageFrom, Holder, PaddingOf, Committed;
    var damaged, q := file[p := x], p - SUPERBLOCK_BYTES;
    ValidatePrefix(damaged, file);
    assert file[SUPERBLOCK_BYTES..] == SegmentsBytes(segs);
    assert damaged[SUPERBLOCK_BYTES..] == SegmentsBytes(segs)[q := x];
    ScanDamagedSegments(damaged, SUPERBLOCK_BYTES, ScanState([], EMPTY_IMAGE), segs, q, x, limits);
    AfterSegmentsImage(ScanState([], EMPTY_IMAGE), segs[..Holder(segs, q)]);
  }
}
