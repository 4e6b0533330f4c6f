/**
 What the reader accepts and nothing else: a record decodes only from its own encoding, and a group commits only
 if its commit record counts and digests exactly its records.
 */
module OgrExact {
  import opened Bytes
  import opened Results
  import opened Values
  import opened Crc32c
  import opened OgrCodec
  import opened OgrRecord
  import opened OgrLog
  import opened OgrSegments

  // ---- records ----

  /** A number that was read is the one whose encoding stands there. */
  lemma {:induction false} IntMeans(bytes: Bytes, o: nat, v: nat, width: nat)
    requires o + width <= |bytes| && v < Capacity(width)
    ensures IntAt(bytes, o, width) == v <==> At(bytes, o, LittleEndian(v, width))
  {
    hide LittleEndian, FromLittleEndian, Capacity;
    LittleEndianOnto(bytes[o..o + width]);
    LittleEndianRoundTrip(v, width);
  }

  lemma KindMeans(code: u16)
    ensures KindOf(code).Some? ==> KindCode(KindOf(code).value) == code
  {
  }

  lemma {:induction false} FieldsMean(bytes: Bytes, o: nat, r: Record)
    requires o + 32 <= |bytes| && |r.payload| < TWO_64
    requires IntAt(bytes, o, 2) == KindCode(r.kind) && IntAt(bytes, o + 2, 2) == SCHEMA && IntAt(bytes, o + 4, 4) == 0
    requires IntAt(bytes, o + 8, 8) == |r.payload|
    requires IntAt(bytes, o + 16, 8) == r.logicalId && IntAt(bytes, o + 24, 8) == r.commit
    ensures At(bytes, o, Fields(r))
  {
    CapacityValues();
    hide LittleEndian, IntAt, Capacity;
    var f := LittleEndian(r.commit, 8);
    var e := LittleEndian(r.logicalId, 8);
    var d := LittleEndian(|r.payload|, 8);
    var c := LittleEndian(0, 4);
    var b := LittleEndian(SCHEMA, 2);
    IntMeans(bytes, o, KindCode(r.kind), 2);
    IntMeans(bytes, o + 2, SCHEMA, 2);
    IntMeans(bytes, o + 4, 0, 4);
    IntMeans(bytes, o + 8, |r.payload|, 8);
    IntMeans(bytes, o + 16, r.logicalId, 8);
    IntMeans(bytes, o + 24, r.commit, 8);
    AtSplit(bytes, o + 16, e, f);
    AtSplit(bytes, o + 8, d, e + f);
    AtSplit(bytes, o + 4, c, d + (e + f));
    AtSplit(bytes, o + 2, b, c + (d + (e + f)));
    AtSplit(bytes, o, LittleEndian(KindCode(r.kind), 2), b + (c + (d + (e + f))));
  }

  lemma {:induction false} HeaderMeans(bytes: Bytes, o: nat, r: Record, limits: Limits)
    requires |r.payload| < TWO_64 && ReadHeader(bytes, o, limits) == Ok(HeaderOf(r))
    ensures At(bytes, o, HeaderBytes(r)) && Readable(r, limits)
  {
    CapacityValues();
    hide LittleEndian, IntAt, Crc, Fields, Capacity;
    FieldsMean(bytes, o, r);
    var a, b := LittleEndian(Crc(Fields(r)), 4), LittleEndian(Crc(r.payload), 4);
    assert bytes[o..o + 32] == Fields(r);
    IntMeans(bytes, o + 32, Crc(Fields(r)), 4);
    IntMeans(bytes, o + 36, Crc(r.payload), 4);
    AtSplit(bytes, o + 32, a, b);
    AtSplit(bytes, o, Fields(r), a + b);
  }

  lemma {:induction false} PaddingMeans(bytes: Bytes, o: nat)
    requires o <= |bytes| && SkipPadding(bytes, o).Ok?
    ensures var next := SkipPadding(bytes, o).value;
            next < o + 8 && forall i | o <= i < next :: bytes[i] == 0
    decreases |bytes| - o
  {
    if o % 8 != 0 {
      PaddingMeans(bytes, o + 1);
    }
  }

  lemma {:induction false} ZerosStand(bytes: Bytes, o: nat, n: nat)
    requires o + n <= |bytes| && forall i | o <= i < o + n :: bytes[i] == 0
    ensures At(bytes, o, Zeros(n))
  {
    assert bytes[o..o + n] == Zeros(n);
  }

  /** Only the encoding of a record decodes to it: no other kind, schema, flags, checksum or padding is accepted. */
  lemma {:induction false} RecordExact(bytes: Bytes, o: nat, r: Record, next: nat, limits: Limits)
    requires o % 8 == 0
    ensures DecodeRecord(bytes, o, limits) == Ok(Decoded(r, next))
       <==> At(bytes, o, RecordBytes(r)) && Readable(r, limits) && next == o + |RecordBytes(r)|
  {
    hide HeaderBytes, ReadHeader, Crc, SkipPadding, Zeros, KindCode, KindOf, RecordBytes, DecodeRecord, PaddingFor;
    if At(bytes, o, RecordBytes(r)) && Readable(r, limits) {
      RecordAt(bytes, o, r, limits);
    }
    if DecodeRecord(bytes, o, limits) == Ok(Decoded(r, next)) {
      DecodedIsEncoded(bytes, o, r, next, limits);
    }
  }

  lemma {:induction false} DecodedIsEncoded(bytes: Bytes, o: nat, r: Record, next: nat, limits: Limits)
    requires o % 8 == 0 && DecodeRecord(bytes, o, limits) == Ok(Decoded(r, next))
    ensures At(bytes, o, RecordBytes(r)) && Readable(r, limits) && next == o + |RecordBytes(r)|
  {
    hide HeaderBytes, ReadHeader, Crc, SkipPadding, Zeros, KindCode, KindOf, PaddingFor;
    var body, n := o + RECORD_HEADER_BYTES, Unpadded(r);
    var h := ReadHeader(bytes, o, limits).value;
    KindMeans(h.code);
    assert h == HeaderOf(r);
    HeaderMeans(bytes, o, r, limits);
    PaddingMeans(bytes, o + n);
    SamePadding(o, n, next - o - n);
    var zeros := Zeros(PaddingFor(n));
    ZerosStand(bytes, o + n, PaddingFor(n));
    AtSplit(bytes, body, r.payload, zeros);
    AtSplit(bytes, o, HeaderBytes(r), r.payload + zeros);
    RecordSize(r);
  }

  lemma {:induction false} SamePadding(o: nat, n: nat, k: nat)
    requires o % 8 == 0 && k < 8 && (o + n + k) % 8 == 0
    ensures k == PaddingFor(n)
  {
    AlignedSum(o, n + k);
  }

  // ---- groups ----

  /** The one payload that lets a commit record close a group: its commit, how many records, what they contain. */
  function ClosingPayload(commit: u64, open: seq<Record>): Bytes
  {
    LittleEndian(commit, 8) + (LittleEndian(|open| + 1, 8) + LittleEndian(Crc(Digest(open)), 4))
  }

  /** A group is closed by exactly that payload, and then its data records must decode. */
  lemma {:induction false} CloseExact(image: Image, group: seq<Record>, limits: Limits)
    requires 2 <= |group| < TWO_64
    ensures var open, last := group[..|group| - 1], group[|group| - 1];
            CloseGroup(image, group, limits)
              == if |last.payload| != 20 then Err(Format)
                 else if last.payload != ClosingPayload(last.commit, open) then Err(Integrity)
                 else match ApplyRecords(image, open[1..], last.commit, limits)
                      case Err(e) => Err(e)
                      case Ok(after) => Ok(after.(latest := last.commit))
  {
    hide LittleEndian, IntAt, Crc, Digest, ApplyRecords, Capacity;
    CapacityValues();
    var open, last := group[..|group| - 1], group[|group| - 1];
    var p, crc := last.payload, Crc(Digest(open));
    if |p| == 20 {
      var b, c := LittleEndian(|group|, 8), LittleEndian(crc, 4);
      IntMeans(p, 0, last.commit, 8);
      IntMeans(p, 8, |group|, 8);
      IntMeans(p, 16, crc, 4);
      AtSplit(p, 8, b, c);
      AtSplit(p, 0, LittleEndian(last.commit, 8), b + c);
      assert p[0..20] == p;
    }
  }

  predicate IsData(r: Record)
  {
    r.kind == NodeVersion || r.kind == EdgeVersion
  }

  predicate AllData(rs: seq<Record>)
  {
    forall r | r in rs :: IsData(r)
  }

  lemma {:induction false} AcceptData(s: ScanState, data: seq<Record>, limits: Limits)
    requires |s.group| > 0 && AllData(data)
    ensures AcceptAll(s, data, limits) == Ok(s.(group := s.group + data))
    decreases |data|
  {
    if |data| == 0 {
      assert s.group + data == s.group;
    } else {
      assert data[0] in data;
      var next := s.(group := s.group + [data[0]]);
      AcceptData(next, data[1..], limits);
      assert next.group + data[1..] == s.group + data;
    }
  }

  /** Any data records between a begin record and a commit record: the group is closed, whatever was open before. */
  lemma {:induction false} AcceptBetween(s: ScanState, first: Record, data: seq<Record>, last: Record, limits: Limits)
    requires first.kind == TxnBegin && AllData(data) && last.kind == TxnCommit
    ensures AcceptAll(s, [first] + data + [last], limits)
         == match CloseGroup(s.image, [first] + data + [last], limits)
            case Err(e) => Err(e)
            case Ok(image) => Ok(ScanState([], image))
  {
    hide CloseGroup, AllData;
    var begun := s.(group := [first]);
    AcceptAllOne(s, first, limits);
    AcceptAllAppend(s, [first], data, limits);
    AcceptData(begun, data, limits);
    AcceptAllAppend(s, [first] + data, [last], limits);
    AcceptAllOne(s.(group := [first] + data), last, limits);
  }

  /**
   The commit record of a transaction closes no other group: not one with fewer or more records, nor one whose
   payloads have another checksum.
   */
  lemma {:induction false} ForeignGroupRefused(s: ScanState, t: Txn, first: Record, data: seq<Record>, limits: Limits)
    requires |t.mutations| + 2 < TWO_64 && |data| + 2 < TWO_64
    requires first.kind == TxnBegin && AllData(data)
    requires |data| != |t.mutations| || Crc(Digest([first] + data)) != Crc(Digest(OpenGroup(t)))
    ensures AcceptAll(s, [first] + data + [CommitRecord(t)], limits) == Err(Integrity)
  {
    hide CloseGroup, AllData, AcceptAll, LittleEndian, Crc, Digest, OpenGroup, Capacity, ClosingPayload;
    var open, last := [first] + data, CommitRecord(t);
    AcceptBetween(s, first, data, last, limits);
    CloseExact(s.image, open + [last], limits);
    assert (open + [last])[..|open|] == open;
    PayloadTells(t, open);
  }

  /** The commit payload tells how many records there are and what their checksum is. */
  lemma {:induction false} PayloadTells(t: Txn, open: seq<Record>)
    requires |t.mutations| + 2 < TWO_64 && |open| + 1 < TWO_64
    ensures |CommitPayload(t)| == 20
    ensures CommitPayload(t) == ClosingPayload(t.commit, open)
       <==> |open| == |t.mutations| + 1 && Crc(Digest(open)) == Crc(Digest(OpenGroup(t)))
  {
    hide LittleEndian, Crc, Digest, OpenGroup, Capacity;
    CapacityValues();
    var p := CommitPayload(t);
    var b, c := LittleEndian(|open| + 1, 8), LittleEndian(Crc(Digest(open)), 4);
    CommitPayloadParts(t);
    hide TakeU64, TakeU32;
    AtSplit(p, 8, b, c);
    AtSplit(p, 0, LittleEndian(t.commit, 8), b + c);
    assert p[0..20] == p;
    IntMeans(p, 0, t.commit, 8);
    IntMeans(p, 8, |open| + 1, 8);
    IntMeans(p, 16, Crc(Digest(open)), 4);
    PayloadNumbers(t);
  }

  lemma {:induction false} PayloadNumbers(t: Txn)
    requires |t.mutations| + 2 < TWO_64
    ensures |CommitPayload(t)| == 20 && IntAt(CommitPayload(t), 0, 8) == t.commit
    ensures IntAt(CommitPayload(t), 8, 8) == |t.mutations| + 2
    ensures IntAt(CommitPayload(t), 16, 4) == Crc(Digest(OpenGroup(t)))
  {
    hide LittleEndian, Crc, Digest, OpenGroup, IntAt, Capacity;
    CommitPayloadParts(t);
  }

  /** The begin commit is not part of a payload. */
  lemma NodeStamped(node: Node, tombstone: bool, commit: u64, limits: Limits)
    ensures EncodeNode(node.(begin := commit), tombstone, limits) == EncodeNode(node, tombstone, limits)
    ensures EncodeNode(node, tombstone, limits).Ok? ==> EncodeNode(node, tombstone, limits).value == NodeBytes(node, tombstone)
  {
  }

  lemma EdgeStamped(edge: Edge, tombstone: bool, commit: u64, limits: Limits)
    ensures EncodeEdge(edge.(begin := commit), tombstone, limits) == EncodeEdge(edge, tombstone, limits)
    ensures EncodeEdge(edge, tombstone, limits).Ok? ==> EncodeEdge(edge, tombstone, limits).value == EdgeBytes(edge, tombstone)
  {
  }

  /** What a data record adds: the version in its payload, begun at the commit of its group, whatever its own header says. */
  lemma {:induction false} DataRecordMeans(image: Image, m: Mutation, id: u64, written: u64, commit: u64, limits: Limits)
    requires MutationEncodes(m, limits) && MutationFinite(m, limits)
    ensures match m
            case NodeMutation(node, tombstone) =>
              var stamped := node.(begin := commit);
              ApplyRecord(image, Record(NodeVersion, id, written, NodeBytes(node, tombstone)), commit, limits)
                == Ok(if tombstone then image.(nodeTombstones := image.nodeTombstones + [stamped])
                      else image.(nodes := image.nodes + [stamped]))
            case EdgeMutation(edge, tombstone) =>
              var stamped := edge.(begin := commit);
              ApplyRecord(image, Record(EdgeVersion, id, written, EdgeBytes(edge, tombstone)), commit, limits)
                == Ok(if tombstone then image.(edgeTombstones := image.edgeTombstones + [stamped])
                      else image.(edges := image.edges + [stamped]))
  {
    hide NodeBytes, EdgeBytes, EncodeNode, EncodeEdge, DecodeNode, DecodeEdge, EntriesReadable;
    match m
    case NodeMutation(node, tombstone) =>
      NodeStamped(node, tombstone, commit, limits);
      NodeRoundTrip(node.(begin := commit), tombstone, limits);
    case EdgeMutation(edge, tombstone) =>
      EdgeStamped(edge, tombstone, commit, limits);
      EdgeRoundTrip(edge.(begin := commit), tombstone, limits);
  }

  // ---- lost, repeated and altered records ----

  lemma {:induction false} MutationsAreData(t: Txn)
    ensures AllData(MutationRecords(t.mutations, t.commit))
    ensures Group(t) == [BeginRecord(t)] + MutationRecords(t.mutations, t.commit) + [CommitRecord(t)]
  {
    hide MutationPayload, CommitPayload;
    var rs := MutationRecords(t.mutations, t.commit);
    forall r | r in rs
      ensures IsData(r)
    {
      var i :| 0 <= i < |rs| && rs[i] == r;
    }
  }

  lemma {:induction false} DataPart(rs: seq<Record>, i: nat, j: nat)
    requires AllData(rs) && i <= |rs| && j <= |rs|
    ensures AllData(rs[..i] + rs[j..])
  {
    forall r | r in rs[..i] + rs[j..]
      ensures r in rs
    {
      assert r in rs[..i] || r in rs[j..];
    }
  }

  /** A group that lacks data records i to j, or repeats them, is refused. */
  lemma {:induction false} LostOrRepeated(s: ScanState, t: Txn, i: nat, j: nat, limits: Limits)
    requires i <= |t.mutations| && j <= |t.mutations| && i != j
    requires |t.mutations| + 2 < TWO_64 && (j < i ==> 2 * |t.mutations| + 2 < TWO_64)
    ensures var data := MutationRecords(t.mutations, t.commit);
            AcceptAll(s, [BeginRecord(t)] + (data[..i] + data[j..]) + [CommitRecord(t)], limits) == Err(Integrity)
  {
    hide MutationRecords, AcceptAll, CommitRecord, Digest, Crc, OpenGroup, AllData;
    var data := MutationRecords(t.mutations, t.commit);
    MutationsAreData(t);
    DataPart(data, i, j);
    ForeignGroupRefused(s, t, BeginRecord(t), data[..i] + data[j..], limits);
  }

  lemma {:induction false} DigestAppend(a: seq<Record>, b: seq<Record>)
    ensures Digest(a + b) == Digest(a) + Digest(b)
  {
    if |b| == 0 {
      assert a + b == a;
    } else {
      DigestAppend(a, b[..|b| - 1]);
      assert (a + b)[..|a + b| - 1] == a + b[..|b| - 1];
    }
  }

  lemma {:induction false} DigestAround(rs: seq<Record>, i: nat, r: Record)
    requires i < |rs|
    ensures Digest(rs[i := r]) == Digest(rs[..i]) + (r.payload + Digest(rs[i + 1..]))
  {
    var a, b := rs[..i], rs[i + 1..];
    assert rs[i := r] == a + ([r] + b);
    DigestAppend(a, [r] + b);
    DigestAppend([r], b);
    assert [r][..0] == [];
    assert Digest([r]) == r.payload;
  }

  /** A burst inside one payload is a burst inside the digested bytes. */
  lemma BurstInside(a: Bytes, b: Bytes, before: Bytes, after: Bytes, w: nat)
    requires SameOutside(a, b, w)
    ensures SameOutside(before + (a + after), before + (b + after), |before| + w)
  {
  }

  /**
   Up to four neighbouring bytes of one data record are wrong and its own checksums were made right again: the
   group is still refused, because its digest is wrong.
   */
  lemma {:induction false} AlteredRefused(s: ScanState, t: Txn, i: nat, r: Record, w: nat, limits: Limits)
    requires i < |t.mutations| && |t.mutations| + 2 < TWO_64 && IsData(r)
    requires var own := MutationRecord(t.mutations[i], t.commit).payload;
             SameOutside(own, r.payload, w) && own != r.payload
    ensures var data := MutationRecords(t.mutations, t.commit);
            AcceptAll(s, [BeginRecord(t)] + data[i := r] + [CommitRecord(t)], limits) == Err(Integrity)
  {
    hide AcceptAll, CommitRecord, Digest, Crc, MutationRecord, AllData, BeginRecord;
    var data, first := MutationRecords(t.mutations, t.commit), BeginRecord(t);
    var open := OpenGroup(t);
    MutationsAreData(t);
    DataReplaced(data, i, r);
    assert open == open[i + 1 := open[i + 1]];
    assert [first] + data[i := r] == open[i + 1 := r];
    DigestAround(open, i + 1, open[i + 1]);
    DigestAround(open, i + 1, r);
    var a, b := open[i + 1].payload, r.payload;
    var before, after := Digest(open[..i + 1]), Digest(open[i + 2..]);
    BurstInside(a, b, before, after, w);
    DifferentMiddle(a, b, before, after);
    BurstDetected(before + (a + after), before + (b + after), |before| + w);
    assert BeginRecord(t).kind == TxnBegin by { FirstKind(t); }
    ForeignGroupRefused(s, t, first, data[i := r], limits);
  }

  lemma FirstKind(t: Txn)
    ensures BeginRecord(t).kind == TxnBegin
  {
  }

  lemma {:induction false} DifferentMiddle(a: Bytes, b: Bytes, before: Bytes, after: Bytes)
    requires |a| == |b| && a != b
    ensures before + (a + after) != before + (b + after)
  {
    assert a == (before + (a + after))[|before|..|before| + |a|];
    assert b == (before + (b + after))[|before|..|before| + |b|];
  }

  lemma {:induction false} DataReplaced(rs: seq<Record>, i: nat, r: Record)
    requires AllData(rs) && IsData(r) && i < |rs|
    ensures AllData(rs[i := r])
  {
    forall x | x in rs[i := r]
      ensures IsData(x)
    {
      var k :| 0 <= k < |rs| && rs[i := r][k] == x;
      assert k != i ==> rs[k] in rs;
    }
  }

  // ---- store files ----

  /** Records behind a store that the group state machine refuses make the file unreadable with its error. */
  lemma {:induction false} RefusedRecords(file: Bytes, segs: seq<Segment>, rs: seq<Record>, rest: Bytes, limits: Limits)
    requires IsStore(file, segs, limits) && AllReadable(rs, limits)
    requires AcceptAll(StateAfter(segs), rs, limits).Err?
    ensures ReadStore(file + (RecordsBytes(rs) + rest), limits) == Err(AcceptAll(StateAfter(segs), rs, limits).error)
  {
    hide Scan, ReadStore, SegmentsBytes, StateAfter, RecordsBytes, AcceptAll, AllReadable, AllAcceptable,
      ValidateSuperblock, ImageOf, Committed;
    var bytes := RecordsBytes(rs);
    var longer := file + (bytes + rest);
    ValidatePrefix(longer, file);
    AtLonger(file, bytes + rest, SUPERBLOCK_BYTES, SegmentsBytes(segs));
    ReadPast(longer, segs, limits);
    assert longer[|file|..|file| + |bytes|] == bytes;
    ScanRecords(longer, |file|, StateAfter(segs), rs, limits);
  }

  /** A store in which a transaction lost or repeats some of its records cannot be read: no partial transaction is shown. */
  lemma {:induction false} PartialGroupUnreadable(file: Bytes, segs: seq<Segment>, t: Txn, i: nat, j: nat, rest: Bytes,
                                                  limits: Limits)
    requires IsStore(file, segs, limits) && Sound(t, limits)
    requires i <= |t.mutations| && j <= |t.mutations| && i != j
    requires |t.mutations| + 2 < TWO_64 && (j < i ==> 2 * |t.mutations| + 2 < TWO_64)
    ensures var data := MutationRecords(t.mutations, t.commit);
            var rs := [BeginRecord(t)] + (data[..i] + data[j..]) + [CommitRecord(t)];
            ReadStore(file + (RecordsBytes(rs) + rest), limits) == Err(Integrity)
  {
    hide IsStore, ReadStore, RecordsBytes, StateAfter, AcceptAll, Sound, MutationRecords, Readable, BeginRecord,
      CommitRecord;
    var data := MutationRecords(t.mutations, t.commit);
    var rs := [BeginRecord(t)] + (data[..i] + data[j..]) + [CommitRecord(t)];
    LostOrRepeated(StateAfter(segs), t, i, j, limits);
    GroupReadable(t, limits);
    MutationsAreData(t);
    forall r | r in rs
      ensures r in Group(t)
    {
      if r in data[..i] + data[j..] {
        assert r in data;
      }
    }
    RefusedRecords(file, segs, rs, rest, limits);
  }

  /** A store in which a record of a transaction was altered, its own checksums included, cannot be read. */
  lemma {:induction false} AlteredGroupUnreadable(file: Bytes, segs: seq<Segment>, t: Txn, i: nat, r: Record, w: nat,
                                                  rest: Bytes, limits: Limits)
    requires IsStore(file, segs, limits) && Sound(t, limits) && i < |t.mutations| && IsData(r)
    requires var own := MutationRecord(t.mutations[i], t.commit).payload;
             SameOutside(own, r.payload, w) && own != r.payload
    ensures var data := MutationRecords(t.mutations, t.commit);
            var rs := [BeginRecord(t)] + data[i := r] + [CommitRecord(t)];
            ReadStore(file + (RecordsBytes(rs) + rest), limits) == Err(Integrity)
  {
    hide IsStore, ReadStore, RecordsBytes, StateAfter, AcceptAll, MutationRecord, BeginRecord, CommitRecord,
      MutationEncodes, MutationFinite, MutationPayload, IsData, SameOutside;
    var data := MutationRecords(t.mutations, t.commit);
    var rs := [BeginRecord(t)] + data[i := r] + [CommitRecord(t)];
    AlteredRefused(StateAfter(segs), t, i, r, w, limits);
    GroupReadable(t, limits);
    MutationsAreData(t);
    assert data[i] in Group(t);
    SameLength(data[i].payload, r.payload, w);
    forall x | x in rs
      ensures Readable(x, limits)
    {
      if x in data[i := r] {
        var k :| 0 <= k < |data| && data[i := r][k] == x;
        assert k != i ==> data[k] in data;
      }
    }
    RefusedRecords(file, segs, rs, rest, limits);
  }

  lemma SameLength(a: Bytes, b: Bytes, w: nat)
    requires SameOutside(a, b, w)
    ensures |a| == |b|
  {
  }

  lemma {:induction false} NoGroupOpen(s: ScanState, segs: seq<Segment>)
    requires if |segs| == 0 then s.group == [] else segs[|segs| - 1].Whole?
    ensures AfterSegments(s, segs).group == []
    decreases |segs|
  {
    hide ApplyTxn, RecordsOf;
    if |segs| > 0 {
      NoGroupOpen(AfterSegment(s, segs[0]), segs[1..]);
    }
  }

  /** A record behind a whole group that does not begin a new one makes the file unreadable. */
  lemma {:induction false} StrayRecordUnreadable(file: Bytes, segs: seq<Segment>, r: Record, rest: Bytes, limits: Limits)
    requires IsStore(file, segs, limits) && (segs == [] || segs[|segs| - 1].Whole?)
    requires r.kind != TxnBegin && Readable(r, limits)
    ensures ReadStore(file + (RecordBytes(r) + rest), limits) == Err(Format)
  {
    hide IsStore, ReadStore, RecordBytes, AcceptAll, AfterSegments, Readable, CloseGroup;
    NoGroupOpen(ScanState([], EMPTY_IMAGE), segs);
    AcceptAllOne(StateAfter(segs), r, limits);
    NoRecords();
    assert [r][1..] == [];
    assert RecordsBytes([r]) == RecordBytes(r) + [] == RecordBytes(r);
    RefusedRecords(file, segs, [r], rest, limits);
  }
}
