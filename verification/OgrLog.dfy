/**
 Transaction groups and the recovery scan. A transaction is its list of mutations; its group is a
 begin record, one record per mutation and a counted, digested commit record.
 */
module OgrLog {
  import opened Bytes
  import opened Crc32c
  import opened Results
  import opened Values
  import opened OgrCodec
  import opened OgrRecord

  const SUPERBLOCK_BYTES := 4096
  const MAGIC: Bytes := [79, 71, 82, 49]

  datatype Mutation =
    | NodeMutation(node: Node, tombstone: bool)
    | EdgeMutation(edge: Edge, tombstone: bool)

  datatype Txn = Txn(parent: u64, commit: u64, mutations: seq<Mutation>)

  datatype Image = Image(latest: u64, nodes: seq<Node>, edges: seq<Edge>,
                         nodeTombstones: seq<Node>, edgeTombstones: seq<Edge>)

  const EMPTY_IMAGE := Image(0, [], [], [], [])

  // ---- the superblock ----

  function Superblock(generation: u64, latest: u64, recordCount: nat): (b: Bytes)
    ensures |b| == SUPERBLOCK_BYTES
  {
    var fields := MAGIC + (LittleEndian(1, 2) + (LittleEndian(0, 2) + (LittleEndian(SUPERBLOCK_BYTES, 4)
                  + (LittleEndian(generation, 8) + (LittleEndian(latest, 8) + LittleEndian(recordCount, 8))))));
    fields + LittleEndian(Crc(fields), 4) + Zeros(4056)
  }

  function ValidateSuperblock(bytes: Bytes): Result<()>
  {
    if |bytes| < SUPERBLOCK_BYTES then Err(Format)
    else if bytes[..4] != MAGIC then Err(Format)
    else if IntAt(bytes, 4, 2) != 1 || IntAt(bytes, 8, 4) != SUPERBLOCK_BYTES then Err(Unsupported)
    else Ok(())
  }

  lemma {:induction false} SuperblockValid(generation: u64, latest: u64, recordCount: nat, rest: Bytes)
    ensures ValidateSuperblock(Superblock(generation, latest, recordCount) + rest) == Ok(())
  {
    hide LittleEndian, IntAt, Crc;
    var tail := LittleEndian(generation, 8) + (LittleEndian(latest, 8) + LittleEndian(recordCount, 8));
    var size := LittleEndian(SUPERBLOCK_BYTES, 4);
    var versions := LittleEndian(1, 2) + (LittleEndian(0, 2) + (size + tail));
    var bytes := Superblock(generation, latest, recordCount) + rest;
    assert bytes[..4] == MAGIC;
    assert At(bytes, 0, MAGIC + versions);
    AtSplit(bytes, 0, MAGIC, versions);
    AtSplit(bytes, 4, LittleEndian(1, 2), LittleEndian(0, 2) + (size + tail));
    AtSplit(bytes, 6, LittleEndian(0, 2), size + tail);
    AtSplit(bytes, 8, size, tail);
    CapacityValues();
    TakeIntAt(bytes, 4, 1, 2);
    TakeIntAt(bytes, 8, SUPERBLOCK_BYTES, 4);
  }

  // ---- writing a transaction group ----

  function MutationPayload(m: Mutation): Bytes
  {
    match m
    case NodeMutation(node, tombstone) => NodeBytes(node, tombstone)
    case EdgeMutation(edge, tombstone) => EdgeBytes(edge, tombstone)
  }

  function EncodeMutation(m: Mutation, limits: Limits): Result<Bytes>
  {
    match m
    case NodeMutation(node, tombstone) => EncodeNode(node, tombstone, limits)
    case EdgeMutation(edge, tombstone) => EncodeEdge(edge, tombstone, limits)
  }

  function MutationRecord(m: Mutation, commit: u64): Record
  {
    match m
    case NodeMutation(node, _) => Record(NodeVersion, node.id, commit, MutationPayload(m))
    case EdgeMutation(edge, _) => Record(EdgeVersion, edge.id, commit, MutationPayload(m))
  }

  function MutationRecords(ms: seq<Mutation>, commit: u64): (rs: seq<Record>)
    ensures |rs| == |ms| && forall i | 0 <= i < |ms| :: rs[i] == MutationRecord(ms[i], commit)
  {
    seq(|ms|, i requires 0 <= i < |ms| => MutationRecord(ms[i], commit))
  }

  function BeginRecord(t: Txn): Record
  {
    Record(TxnBegin, t.commit, t.commit, LittleEndian(t.parent, 8) + LittleEndian(|t.mutations|, 8))
  }

  /** The payloads of rs, one after the other. */
  function Digest(rs: seq<Record>): Bytes
  {
    if |rs| == 0 then [] else Digest(rs[..|rs| - 1]) + rs[|rs| - 1].payload
  }

  /** Everything before the commit record. */
  function OpenGroup(t: Txn): (rs: seq<Record>)
    ensures |rs| == |t.mutations| + 1
  {
    [BeginRecord(t)] + MutationRecords(t.mutations, t.commit)
  }

  function CommitPayload(t: Txn): Bytes
  {
    LittleEndian(t.commit, 8) + (LittleEndian(|t.mutations| + 2, 8) + LittleEndian(Crc(Digest(OpenGroup(t))), 4))
  }

  function CommitRecord(t: Txn): Record
  {
    Record(TxnCommit, t.commit, t.commit, CommitPayload(t))
  }

  function Group(t: Txn): (rs: seq<Record>)
    ensures |rs| == |t.mutations| + 2
  {
    OpenGroup(t) + [CommitRecord(t)]
  }

  function RecordsBytes(rs: seq<Record>): Bytes
  {
    if |rs| == 0 then [] else RecordBytes(rs[0]) + RecordsBytes(rs[1..])
  }

  function TxnBytes(t: Txn): Bytes
  {
    RecordsBytes(Group(t))
  }

  function TxnsBytes(ts: seq<Txn>): Bytes
  {
    if |ts| == 0 then [] else TxnBytes(ts[0]) + TxnsBytes(ts[1..])
  }

  lemma {:induction false} RecordsAligned(rs: seq<Record>)
    ensures |RecordsBytes(rs)| % 8 == 0
  {
    hide RecordBytes;
    if |rs| > 0 {
      RecordsAligned(rs[1..]);
      RecordSize(rs[0]);
      AlignedSum(|RecordBytes(rs[0])|, |RecordsBytes(rs[1..])|);
    }
  }

  // ---- reading ----

  function ApplyMutation(image: Image, m: Mutation): Image
  {
    match m
    case NodeMutation(node, true) => image.(nodeTombstones := image.nodeTombstones + [node])
    case NodeMutation(node, false) => image.(nodes := image.nodes + [node])
    case EdgeMutation(edge, true) => image.(edgeTombstones := image.edgeTombstones + [edge])
    case EdgeMutation(edge, false) => image.(edges := image.edges + [edge])
  }

  function ApplyMutations(image: Image, ms: seq<Mutation>): Image
  {
    if |ms| == 0 then image else ApplyMutation(ApplyMutations(image, ms[..|ms| - 1]), ms[|ms| - 1])
  }

  function ApplyTxn(image: Image, t: Txn): Image
  {
    ApplyMutations(image, t.mutations).(latest := t.commit)
  }

  /** What a store holding exactly these transactions means. */
  function ImageFrom(image: Image, ts: seq<Txn>): Image
    decreases |ts|
  {
    if |ts| == 0 then image else ImageFrom(ApplyTxn(image, ts[0]), ts[1..])
  }

  function ImageOf(ts: seq<Txn>): Image
  {
    ImageFrom(EMPTY_IMAGE, ts)
  }

  /** Decodes one data record of a closed group into the image. */
  function ApplyRecord(image: Image, r: Record, commit: u64, limits: Limits): Result<Image>
  {
    match r.kind
    case NodeVersion =>
      var d :- DecodeNode(r.payload, commit, limits);
      Ok(ApplyMutation(image, NodeMutation(d.0, d.1)))
    case EdgeVersion =>
      var d :- DecodeEdge(r.payload, commit, limits);
      Ok(ApplyMutation(image, EdgeMutation(d.0, d.1)))
    case _ => Ok(image)
  }

  function ApplyRecords(image: Image, rs: seq<Record>, commit: u64, limits: Limits): Result<Image>
  {
    if |rs| == 0 then Ok(image) else
    var before :- ApplyRecords(image, rs[..|rs| - 1], commit, limits);
    ApplyRecord(before, rs[|rs| - 1], commit, limits)
  }

  /** The checks on a group that ends in a commit record, and its effect. */
  function CloseGroup(image: Image, group: seq<Record>, limits: Limits): Result<Image>
    requires |group| >= 2
  {
    var last := group[|group| - 1];
    var open := group[..|group| - 1];
    var commit :- TakeU64(last.payload, 0);
    var count :- TakeU64(last.payload, 8);
    var digest :- TakeU32(last.payload, 16);
    if digest.next != |last.payload| then Err(Format)
    else if commit.value != last.commit || count.value != |group| then Err(Integrity)
    else if Crc(Digest(open)) != digest.value then Err(Integrity)
    else
      var after :- ApplyRecords(image, open[1..], last.commit, limits);
      Ok(after.(latest := last.commit))
  }

  /** The scanner's variables: the records of the open group and what has been committed so far. */
  datatype ScanState = ScanState(group: seq<Record>, image: Image)

  function Accept(s: ScanState, r: Record, limits: Limits): Result<ScanState>
  {
    if r.kind == TxnBegin then Ok(s.(group := [r]))
    else if |s.group| == 0 then Err(Format)
    else if r.kind != TxnCommit then Ok(s.(group := s.group + [r]))
    else
      var image :- CloseGroup(s.image, s.group + [r], limits);
      Ok(ScanState([], image))
  }

  function Scan(bytes: Bytes, o: nat, s: ScanState, limits: Limits): Result<Image>
    decreases |bytes| - o
  {
    if o >= |bytes| then Ok(s.image) else
    match DecodeRecord(bytes, o, limits)
    case Err(e) => if e == Format then Ok(s.image) else Err(e)
    case Ok(d) =>
      var s' :- Accept(s, d.record, limits);
      Scan(bytes, d.next, s', limits)
  }

  function ReadStore(bytes: Bytes, limits: Limits): Result<Image>
  {
    var ok :- ValidateSuperblock(bytes);
    Scan(bytes, SUPERBLOCK_BYTES, ScanState([], EMPTY_IMAGE), limits)
  }

  // ---- scanning whole records ----

  function AcceptAll(s: ScanState, rs: seq<Record>, limits: Limits): Result<ScanState>
    decreases |rs|
  {
    if |rs| == 0 then Ok(s) else
    var s' :- Accept(s, rs[0], limits);
    AcceptAll(s', rs[1..], limits)
  }

  predicate Readable(r: Record, limits: Limits)
  {
    |r.payload| <= limits.maxRecordBytes
  }

  predicate AllReadable(rs: seq<Record>, limits: Limits)
  {
    forall r | r in rs :: Readable(r, limits)
  }

  lemma {:induction false} ScanStep(bytes: Bytes, o: nat, s: ScanState, r: Record, limits: Limits)
    requires o % 8 == 0 && Readable(r, limits) && At(bytes, o, RecordBytes(r))
    ensures Scan(bytes, o, s, limits)
         == match Accept(s, r, limits)
            case Err(e) => Err(e)
            case Ok(s') => Scan(bytes, o + |RecordBytes(r)|, s', limits)
  {
    hide DecodeRecord, Accept, RecordBytes;
    RecordAt(bytes, o, r, limits);
  }

  /** The scan over whole records is the fold of Accept over them. */
  lemma {:induction false} ScanRecords(bytes: Bytes, o: nat, s: ScanState, rs: seq<Record>, limits: Limits)
    requires o % 8 == 0 && AllReadable(rs, limits) && At(bytes, o, RecordsBytes(rs))
    ensures Scan(bytes, o, s, limits)
         == match AcceptAll(s, rs, limits)
            case Err(e) => Err(e)
            case Ok(s') => Scan(bytes, o + |RecordsBytes(rs)|, s', limits)
    decreases |rs|
  {
    hide Scan, Accept, RecordBytes;
    if |rs| > 0 {
      AtSplit(bytes, o, RecordBytes(rs[0]), RecordsBytes(rs[1..]));
      ScanStep(bytes, o, s, rs[0], limits);
      var next := Accept(s, rs[0], limits);
      if next.Ok? {
        RecordSize(rs[0]);
        AlignedSum(o, |RecordBytes(rs[0])|);
        ScanRecords(bytes, o + |RecordBytes(rs[0])|, next.value, rs[1..], limits);
      }
    }
  }

  lemma {:induction false} AcceptAllAppend(s: ScanState, a: seq<Record>, b: seq<Record>, limits: Limits)
    ensures AcceptAll(s, a + b, limits)
         == match AcceptAll(s, a, limits)
            case Err(e) => Err(e)
            case Ok(s') => AcceptAll(s', b, limits)
    decreases |a|
  {
    hide Accept;
    if |a| == 0 {
      assert a + b == b;
    } else {
      assert (a + b)[1..] == a[1..] + b;
      var next := Accept(s, a[0], limits);
      if next.Ok? {
        AcceptAllAppend(next.value, a[1..], b, limits);
      }
    }
  }

  lemma {:induction false} RecordsBytesAppend(a: seq<Record>, b: seq<Record>)
    ensures RecordsBytes(a + b) == RecordsBytes(a) + RecordsBytes(b)
  {
    hide RecordBytes;
    if |a| == 0 {
      assert a + b == b;
    } else {
      RecordsBytesAppend(a[1..], b);
      assert (a + b)[1..] == a[1..] + b;
      ConcatAssociative(RecordBytes(a[0]), RecordsBytes(a[1..]), RecordsBytes(b));
    }
  }

  // ---- what a written group does to the scanner ----

  predicate MutationEncodes(m: Mutation, limits: Limits)
  {
    EncodeMutation(m, limits).Ok?
  }

  /** All doubles of m are finite. */
  predicate MutationFinite(m: Mutation, limits: Limits)
  {
    match m
    case NodeMutation(node, _) => EntriesReadable(node.properties, limits)
    case EdgeMutation(edge, _) => EntriesReadable(edge.properties, limits)
  }

  function BeginOf(m: Mutation): u64
  {
    match m
    case NodeMutation(node, _) => node.begin
    case EdgeMutation(edge, _) => edge.begin
  }

  /** What the writer checks. */
  predicate Writable(t: Txn, limits: Limits)
  {
    && |t.mutations| + 2 < TWO_64
    && forall m | m in t.mutations ::
         MutationEncodes(m, limits) && BeginOf(m) == t.commit && |MutationPayload(m)| < TWO_64
  }

  /** What the reader checks on top of it. */
  predicate Recoverable(t: Txn, limits: Limits)
  {
    && limits.maxRecordBytes >= 20
    && forall m | m in t.mutations ::
         |MutationPayload(m)| <= limits.maxRecordBytes && MutationFinite(m, limits)
  }

  predicate Sound(t: Txn, limits: Limits)
  {
    Writable(t, limits) && Recoverable(t, limits)
  }

  predicate AllSound(ts: seq<Txn>, limits: Limits)
  {
    forall t | t in ts :: Sound(t, limits)
  }

  lemma {:induction false} AllSoundTail(ts: seq<Txn>, limits: Limits)
    requires |ts| > 0 && AllSound(ts, limits)
    ensures Sound(ts[0], limits) && AllSound(ts[1..], limits)
  {
    hide Sound;
  }

  lemma {:induction false} AllReadableTail(rs: seq<Record>, limits: Limits)
    requires |rs| > 0 && AllReadable(rs, limits)
    ensures Readable(rs[0], limits) && AllReadable(rs[1..], limits)
  {
    hide Readable;
  }

  lemma {:induction false} GroupReadable(t: Txn, limits: Limits)
    requires Sound(t, limits)
    ensures AllReadable(Group(t), limits)
  {
    hide LittleEndian, MutationPayload, Digest, Crc, MutationFinite, MutationEncodes;
    forall r | r in Group(t)
      ensures Readable(r, limits)
    {
      if r in MutationRecords(t.mutations, t.commit) {
        var i :| 0 <= i < |t.mutations| && r == MutationRecord(t.mutations[i], t.commit);
      } else {
        assert |BeginRecord(t).payload| == 16 && |CommitRecord(t).payload| == 20;
      }
    }
  }

  lemma {:induction false} ApplyMutationRecord(image: Image, m: Mutation, commit: u64, limits: Limits)
    requires MutationEncodes(m, limits) && BeginOf(m) == commit
    ensures ApplyRecord(image, MutationRecord(m, commit), commit, limits)
         == if MutationFinite(m, limits) then Ok(ApplyMutation(image, m)) else Err(Format)
  {
    hide NodeBytes, EdgeBytes, DecodeNode, DecodeEdge, EntriesReadable, ApplyMutation, StringFits, PropertiesFit;
    match m
    case NodeMutation(node, tombstone) => NodeRoundTrip(node, tombstone, limits);
    case EdgeMutation(edge, tombstone) => EdgeRoundTrip(edge, tombstone, limits);
  }

  predicate AllFinite(ms: seq<Mutation>, limits: Limits)
  {
    forall m | m in ms :: MutationFinite(m, limits)
  }

  lemma {:induction false} ApplyMutationRecords(image: Image, ms: seq<Mutation>, commit: u64, limits: Limits)
    requires forall m | m in ms :: MutationEncodes(m, limits) && BeginOf(m) == commit
    ensures ApplyRecords(image, MutationRecords(ms, commit), commit, limits)
         == if AllFinite(ms, limits) then Ok(ApplyMutations(image, ms)) else Err(Format)
  {
    hide MutationEncodes, MutationFinite, ApplyRecord, ApplyMutation, MutationRecord, BeginOf;
    if |ms| > 0 {
      var front, last := ms[..|ms| - 1], ms[|ms| - 1];
      assert ms == front + [last];
      assert MutationRecords(ms, commit)[..|ms| - 1] == MutationRecords(front, commit);
      ApplyMutationRecords(image, front, commit, limits);
      ApplyMutationRecord(ApplyMutations(image, front), last, commit, limits);
      assert AllFinite(ms, limits) <==> AllFinite(front, limits) && MutationFinite(last, limits);
    }
  }

  lemma {:induction false} CommitPayloadParts(t: Txn)
    requires |t.mutations| + 2 < TWO_64
    ensures |CommitPayload(t)| == 20
    ensures TakeU64(CommitPayload(t), 0) == Ok(Taken(t.commit, 8))
    ensures TakeU64(CommitPayload(t), 8) == Ok(Taken(|t.mutations| + 2, 16))
    ensures TakeU32(CommitPayload(t), 16) == Ok(Taken(Crc(Digest(OpenGroup(t))), 20))
  {
    hide LittleEndian, TakeU64, TakeU32, Crc, Digest, OpenGroup;
    var payload := CommitPayload(t);
    var c := LittleEndian(Crc(Digest(OpenGroup(t))), 4);
    var b := LittleEndian(|t.mutations| + 2, 8);
    assert At(payload, 0, LittleEndian(t.commit, 8) + (b + c));
    AtSplit(payload, 0, LittleEndian(t.commit, 8), b + c);
    AtSplit(payload, 8, b, c);
    TakeU64At(payload, 0, t.commit);
    TakeU64At(payload, 8, |t.mutations| + 2);
    TakeU32At(payload, 16, Crc(Digest(OpenGroup(t))));
  }

  /** Closing a written group commits it, or finds a non-finite double. */
  lemma {:induction false} CloseWrittenGroup(image: Image, t: Txn, limits: Limits)
    requires Writable(t, limits)
    ensures CloseGroup(image, Group(t), limits)
         == if AllFinite(t.mutations, limits) then Ok(ApplyTxn(image, t)) else Err(Format)
  {
    hide CommitPayload, TakeU64, TakeU32, Crc, Digest, MutationRecords, ApplyRecords, ApplyMutations,
      AllFinite, MutationEncodes, BeginRecord;
    CommitPayloadParts(t);
    var group := Group(t);
    assert group[..|group| - 1] == OpenGroup(t);
    assert OpenGroup(t)[1..] == MutationRecords(t.mutations, t.commit);
    ApplyMutationRecords(image, t.mutations, t.commit, limits);
  }

  /** The data records of a group pile up behind its begin record. */
  lemma {:induction false} AcceptOpenGroup(s: ScanState, t: Txn, k: nat, limits: Limits)
    requires 0 < k <= |OpenGroup(t)|
    ensures AcceptAll(s, Group(t)[..k], limits) == Ok(s.(group := Group(t)[..k]))
  {
    hide MutationPayload, CommitPayload;
    var rs := Group(t)[..k];
    if k == 1 {
      assert rs == [BeginRecord(t)];
      assert AcceptAll(s.(group := rs), rs[1..], limits) == Ok(s.(group := rs));
    } else {
      AcceptOpenGroup(s, t, k - 1, limits);
      var front := Group(t)[..k - 1];
      var r := MutationRecord(t.mutations[k - 2], t.commit);
      assert rs == front + [r];
      AcceptAllAppend(s, front, [r], limits);
      AcceptAllOne(s.(group := front), r, limits);
    }
  }

  lemma {:induction false} AcceptAllOne(s: ScanState, r: Record, limits: Limits)
    ensures AcceptAll(s, [r], limits) == Accept(s, r, limits)
  {
    hide Accept;
    var next := Accept(s, r, limits);
    if next.Ok? {
      assert AcceptAll(next.value, [r][1..], limits) == next;
    }
  }

  /** A whole written group commits its transaction whatever group was open before it. */
  lemma {:induction false} AcceptGroup(s: ScanState, t: Txn, limits: Limits)
    requires Writable(t, limits)
    ensures AcceptAll(s, Group(t), limits)
         == if AllFinite(t.mutations, limits) then Ok(ScanState([], ApplyTxn(s.image, t))) else Err(Format)
  {
    hide AcceptAll, OpenGroup, CommitPayload, CloseGroup, AllFinite, ApplyTxn, MutationEncodes;
    var n := |OpenGroup(t)|;
    assert Group(t)[..n] == OpenGroup(t);
    AcceptOpenGroup(s, t, n, limits);
    AcceptAllAppend(s, OpenGroup(t), [CommitRecord(t)], limits);
    AcceptAllOne(s.(group := OpenGroup(t)), CommitRecord(t), limits);
    CloseWrittenGroup(s.image, t, limits);
  }

  // ---- recovery ----

  /** A log cut inside a list of records shows the records before the cut and stops quietly. */
  lemma {:induction false} ScanCutRecords(bytes: Bytes, o: nat, s: ScanState, rs: seq<Record>, limits: Limits)
    returns (k: nat)
    requires o % 8 == 0 && AllReadable(rs, limits)
    requires o <= |bytes| < o + |RecordsBytes(rs)|
    requires bytes[o..] == RecordsBytes(rs)[..|bytes| - o]
    ensures k < |rs|
    ensures Scan(bytes, o, s, limits)
         == match AcceptAll(s, rs[..k], limits)
            case Err(e) => Err(e)
            case Ok(s') => Ok(s'.image)
    decreases |rs|
  {
    hide Accept, RecordBytes, DecodeRecord, AllReadable;
    AllReadableTail(rs, limits);
    var r, rest := rs[0], rs[1..];
    var n := |RecordBytes(r)|;
    if |bytes| < o + n {
      k := 0;
      assert bytes[o..] == RecordBytes(r)[..|bytes| - o];
      RecordCut(bytes, o, r, limits);
    } else {
      assert bytes[o..o + n] == bytes[o..][..n] == RecordBytes(r);
      ScanStep(bytes, o, s, r, limits);
      var next := Accept(s, r, limits);
      if next.Err? {
        k := 1;
        if |rs| == 1 {
          assert false;
        }
      } else {
        assert bytes[o + n..] == bytes[o..][n..] == RecordsBytes(rs)[..|bytes| - o][n..];
        assert RecordsBytes(rs)[..|bytes| - o][n..] == RecordsBytes(rest)[..|bytes| - o - n];
        RecordSize(r);
        AlignedSum(o, n);
        var j := ScanCutRecords(bytes, o + n, next.value, rest, limits);
        k := j + 1;
        assert rs[..k][1..] == rest[..j];
      }
    }
  }

  /** An unfinished group leaves the image alone, whatever group was open before it. */
  lemma {:induction false} AcceptUnfinished(s: ScanState, t: Txn, k: nat, limits: Limits)
    requires k < |Group(t)|
    ensures AcceptAll(s, Group(t)[..k], limits) == Ok(if k == 0 then s else s.(group := Group(t)[..k]))
  {
    if k > 0 {
      AcceptOpenGroup(s, t, k, limits);
    }
  }

  /** A store file: a superblock and the groups of ts. */
  ghost predicate IsLog(file: Bytes, ts: seq<Txn>)
  {
    && |file| >= SUPERBLOCK_BYTES
    && ValidateSuperblock(file) == Ok(())
    && file[SUPERBLOCK_BYTES..] == TxnsBytes(ts)
  }

  lemma {:induction false} ValidatePrefix(a: Bytes, b: Bytes)
    requires |a| >= SUPERBLOCK_BYTES && |b| >= SUPERBLOCK_BYTES
    requires a[..SUPERBLOCK_BYTES] == b[..SUPERBLOCK_BYTES]
    ensures ValidateSuperblock(a) == ValidateSuperblock(b)
  {
    assert a[..4] == a[..SUPERBLOCK_BYTES][..4] && b[..4] == b[..SUPERBLOCK_BYTES][..4];
    assert a[4..6] == a[..SUPERBLOCK_BYTES][4..6] && b[4..6] == b[..SUPERBLOCK_BYTES][4..6];
    assert a[8..12] == a[..SUPERBLOCK_BYTES][8..12] && b[8..12] == b[..SUPERBLOCK_BYTES][8..12];
  }

  // ---- appending ----

  lemma {:induction false} ImageFromAppend(image: Image, a: seq<Txn>, b: seq<Txn>)
    ensures ImageFrom(image, a + b) == ImageFrom(ImageFrom(image, a), b)
    decreases |a|
  {
    hide ApplyTxn;
    if |a| == 0 {
      assert a + b == b;
    } else {
      assert (a + b)[1..] == a[1..] + b;
      ImageFromAppend(ApplyTxn(image, a[0]), a[1..], b);
    }
  }

  lemma ScanEnd(bytes: Bytes, s: ScanState, limits: Limits)
    ensures Scan(bytes, |bytes|, s, limits) == Ok(s.image)
  {
  }

  lemma {:induction false} ImageFromOne(image: Image, t: Txn)
    ensures ImageFrom(image, [t]) == ApplyTxn(image, t)
  {
    hide ApplyTxn;
    assert ImageFrom(ApplyTxn(image, t), [t][1..]) == ApplyTxn(image, t);
  }

  // ---- transactions the reader refuses ----

  /** The first record the reader refuses for its size. */
  lemma {:induction false} FirstOversize(rs: seq<Record>, limits: Limits) returns (k: nat)
    requires !AllReadable(rs, limits)
    ensures k < |rs| && !Readable(rs[k], limits) && AllReadable(rs[..k], limits)
  {
    if Readable(rs[0], limits) {
      assert rs == [rs[0]] + rs[1..];
      var j := FirstOversize(rs[1..], limits);
      k := j + 1;
      assert rs[..k] == [rs[0]] + rs[1..][..j];
    } else {
      k := 0;
    }
  }

  lemma {:induction false} ReadableGroupRecoverable(t: Txn, limits: Limits)
    requires Writable(t, limits) && AllReadable(Group(t), limits)
    ensures Recoverable(t, limits) <==> AllFinite(t.mutations, limits)
  {
    hide LittleEndian, MutationPayload, Digest, Crc, MutationFinite, MutationEncodes, BeginRecord;
    var group := Group(t);
    assert group[|group| - 1] == CommitRecord(t) && |CommitRecord(t).payload| == 20;
    assert CommitRecord(t) in group;
    forall m | m in t.mutations
      ensures |MutationPayload(m)| <= limits.maxRecordBytes
    {
      var i :| 0 <= i < |t.mutations| && t.mutations[i] == m;
      assert group[i + 1] == MutationRecord(m, t.commit);
      assert Readable(group[i + 1], limits);
    }
  }

  lemma {:induction false} GroupPayloadSizes(t: Txn, k: nat, limits: Limits)
    requires Writable(t, limits) && k < |Group(t)|
    ensures |Group(t)[k].payload| < TWO_64
  {
    hide LittleEndian, MutationPayload, Digest, Crc, MutationEncodes;
    if 0 < k < |Group(t)| - 1 {
      assert Group(t)[k] == MutationRecord(t.mutations[k - 1], t.commit);
      assert t.mutations[k - 1] in t.mutations;
    }
  }

  /** A group the writer accepted but the reader cannot makes every later read fail, whatever follows it. */
  lemma {:induction false} ScanPoisoned(bytes: Bytes, o: nat, s: ScanState, t: Txn, limits: Limits)
    requires o % 8 == 0 && At(bytes, o, TxnBytes(t))
    requires Writable(t, limits) && !Recoverable(t, limits)
    ensures Scan(bytes, o, s, limits).Err?
  {
    hide Scan, AcceptAll, RecordsBytes, Group, AllFinite, Writable, Recoverable, AllReadable, ApplyTxn, At;
    if AllReadable(Group(t), limits) {
      ReadableGroupRecoverable(t, limits);
      ScanRecords(bytes, o, s, Group(t), limits);
      AcceptGroup(s, t, limits);
    } else {
      var k := FirstOversize(Group(t), limits);
      ScanToOversize(bytes, o, s, t, k, limits);
    }
  }

  lemma {:induction false} ScanToOversize(bytes: Bytes, o: nat, s: ScanState, t: Txn, k: nat, limits: Limits)
    requires o % 8 == 0 && At(bytes, o, TxnBytes(t)) && Writable(t, limits)
    requires k < |Group(t)| && !Readable(Group(t)[k], limits) && AllReadable(Group(t)[..k], limits)
    ensures Scan(bytes, o, s, limits) == Err(ResourceLimit)
  {
    hide Scan, AcceptAll, RecordsBytes, RecordBytes, Group, Writable, AllReadable, Readable, At, Accept;
    var before := Group(t)[..k];
    SplitAtRecord(bytes, o, Group(t), k);
    GroupPayloadSizes(t, k, limits);
    ScanRecords(bytes, o, s, before, limits);
    AcceptUnfinished(s, t, k, limits);
    RecordsAligned(before);
    AlignedSum(o, |RecordsBytes(before)|);
    ScanOversize(bytes, o + |RecordsBytes(before)|, AcceptAll(s, before, limits).value, Group(t)[k], limits);
  }

  lemma {:induction false} SplitAtRecord(bytes: Bytes, o: nat, rs: seq<Record>, k: nat)
    requires k < |rs| && At(bytes, o, RecordsBytes(rs))
    ensures At(bytes, o, RecordsBytes(rs[..k]))
    ensures At(bytes, o + |RecordsBytes(rs[..k])|, RecordBytes(rs[k]))
  {
    hide RecordBytes;
    var a, b := rs[..k], rs[k..];
    assert rs == a + b;
    RecordsBytesAppend(a, b);
    AtSplit(bytes, o, RecordsBytes(a), RecordsBytes(b));
    AtSplit(bytes, o + |RecordsBytes(a)|, RecordBytes(rs[k]), RecordsBytes(b[1..]));
  }

  lemma {:induction false} ScanOversize(bytes: Bytes, o: nat, s: ScanState, r: Record, limits: Limits)
    requires o % 8 == 0 && At(bytes, o, RecordBytes(r))
    requires !Readable(r, limits) && |r.payload| < TWO_64
    ensures Scan(bytes, o, s, limits) == Err(ResourceLimit)
  {
    hide DecodeRecord, Accept, RecordBytes;
    RecordSize(r);
    RecordAt(bytes, o, r, limits);
    assert o < |bytes|;
  }

  // ---- the writer's transactions ----

  function TombstoneNode(id: u64, commit: u64): Node
  {
    View(id, Interval(0, 1), [], commit, NodeBody([]))
  }

  function TombstoneEdge(id: u64, commit: u64): Edge
  {
    View(id, Interval(0, 1), [], commit, EdgeBody(0, 0, []))
  }

  function NodePuts(nodes: seq<Node>): (ms: seq<Mutation>)
    ensures |ms| == |nodes|
  {
    seq(|nodes|, i requires 0 <= i < |nodes| => NodeMutation(nodes[i], false))
  }

  function EdgePuts(edges: seq<Edge>): (ms: seq<Mutation>)
    ensures |ms| == |edges|
  {
    seq(|edges|, i requires 0 <= i < |edges| => EdgeMutation(edges[i], false))
  }

  function NodeDrops(ids: seq<u64>, commit: u64): (ms: seq<Mutation>)
    ensures |ms| == |ids|
  {
    seq(|ids|, i requires 0 <= i < |ids| => NodeMutation(TombstoneNode(ids[i], commit), true))
  }

  function EdgeDrops(ids: seq<u64>, commit: u64): (ms: seq<Mutation>)
    ensures |ms| == |ids|
  {
    seq(|ids|, i requires 0 <= i < |ids| => EdgeMutation(TombstoneEdge(ids[i], commit), true))
  }

  /** The transaction the writer logs: node puts, node tombstones, edge puts, edge tombstones. */
  function TxnOf(parent: u64, commit: u64, nodes: seq<Node>, edges: seq<Edge>,
                 nodeIds: seq<u64>, edgeIds: seq<u64>): Txn
  {
    Txn(parent, commit, NodePuts(nodes) + NodeDrops(nodeIds, commit) + EdgePuts(edges) + EdgeDrops(edgeIds, commit))
  }

  /** The first mutation the writer refuses, if any. */
  function FirstRefusal(ms: seq<Mutation>, limits: Limits): Result<()>
  {
    if |ms| == 0 then Ok(()) else
    var before :- FirstRefusal(ms[..|ms| - 1], limits);
    var payload :- EncodeMutation(ms[|ms| - 1], limits);
    Ok(())
  }

  lemma {:induction false} NoRefusal(ms: seq<Mutation>, limits: Limits)
    ensures FirstRefusal(ms, limits).Ok? <==> forall m | m in ms :: MutationEncodes(m, limits)
  {
    hide EncodeMutation;
    if |ms| > 0 {
      assert ms == ms[..|ms| - 1] + [ms[|ms| - 1]];
      NoRefusal(ms[..|ms| - 1], limits);
      assert MutationEncodes(ms[|ms| - 1], limits) <==> EncodeMutation(ms[|ms| - 1], limits).Ok?;
    }
  }

  /** The file after appending t, and whether the append is reported as a success. */
  function Append(file: Bytes, t: Txn, limits: Limits): (Bytes, Result<()>)
    requires |file| >= SUPERBLOCK_BYTES
  {
    match FirstRefusal(t.mutations, limits)
    case Err(e) => (file, Err(e))
    case Ok(_) =>
      var longer := file + TxnBytes(t);
      match ReadStore(longer, limits)
      case Err(e) => (longer, Err(e))
      case Ok(image) =>
        (Superblock(1, image.latest, |Group(t)|) + longer[SUPERBLOCK_BYTES..], Ok(()))
  }

  /** What the caller of the writer guarantees: one commit number throughout, and machine-sized payloads. */
  predicate WellSized(t: Txn)
  {
    && |t.mutations| + 2 < TWO_64
    && forall m | m in t.mutations :: BeginOf(m) == t.commit && |MutationPayload(m)| < TWO_64
  }
}
