/** Where the fields of the format stand, byte by byte, in what the writer produces. */
module OgrLayout {
  import opened Bytes
  import opened Results
  import opened Values
  import opened Canonical
  import opened Crc32c
  import opened OgrCodec
  import opened OgrRecord
  import opened OgrLog
  import opened OgrSegments
  import opened OgrExact

  // ---- the superblock ----

  /** What stands at an offset is one number, and something follows. */
  lemma {:induction false} NumberThen(bytes: Bytes, o: nat, v: nat, width: nat, tail: Bytes)
    requires v < Capacity(width) && At(bytes, o, LittleEndian(v, width) + tail)
    ensures o + width <= |bytes| && IntAt(bytes, o, width) == v && At(bytes, o + width, tail)
  {
    hide LittleEndian, IntAt, Capacity;
    AtSplit(bytes, o, LittleEndian(v, width), tail);
    TakeIntAt(bytes, o, v, width);
  }

  /** Every field of a superblock at its offset, the checksum over what precedes it, and zeros behind. */
  lemma {:induction false} SuperblockLayout(generation: u64, latest: u64, recordCount: u64)
    ensures var b := Superblock(generation, latest, recordCount);
            && |b| == 4096 && b[0..4] == Ascii("OGR1")
            && IntAt(b, 4, 2) == 1 && IntAt(b, 6, 2) == 0 && IntAt(b, 8, 4) == 4096
            && IntAt(b, 12, 8) == generation && IntAt(b, 20, 8) == latest && IntAt(b, 28, 8) == recordCount
            && IntAt(b, 36, 4) == Crc(b[0..36]) && b[40..] == Zeros(4056)
  {
    hide LittleEndian, IntAt, Crc, Capacity, Zeros;
    CapacityValues();
    var b := Superblock(generation, latest, recordCount);
    var numbers := LittleEndian(latest, 8) + LittleEndian(recordCount, 8);
    var tail := LittleEndian(generation, 8) + numbers;
    var sized := LittleEndian(SUPERBLOCK_BYTES, 4) + tail;
    var versioned := LittleEndian(1, 2) + (LittleEndian(0, 2) + sized);
    var fields := MAGIC + versioned;
    var sum := LittleEndian(Crc(fields), 4);
    assert b == fields + (sum + Zeros(4056));
    assert At(b, 0, b);
    AtSplit(b, 0, fields, sum + Zeros(4056));
    AtSplit(b, 0, MAGIC, versioned);
    NumberThen(b, 4, 1, 2, LittleEndian(0, 2) + sized);
    NumberThen(b, 6, 0, 2, sized);
    NumberThen(b, 8, SUPERBLOCK_BYTES, 4, tail);
    NumberThen(b, 12, generation, 8, numbers);
    NumberThen(b, 20, latest, 8, LittleEndian(recordCount, 8));
    TakeIntAt(b, 28, recordCount, 8);
    NumberThen(b, 36, Crc(fields), 4, Zeros(4056));
    assert b[40..4096] == b[40..];
  }

  /** Opening accepts 4096 bytes that begin with the magic, major version one and the size, and looks at no more. */
  lemma {:induction false} ValidateMeans(b: Bytes)
    ensures ValidateSuperblock(b)
         == if |b| < 4096 || b[..4] != Ascii("OGR1") then Err(Format)
            else if b[4..6] != [1, 0] || b[8..12] != [0, 16, 0, 0] then Err(Unsupported)
            else Ok(())
  {
    if |b| >= 4096 {
      CapacityValues();
      assert LittleEndian(1, 2) == [1] + LittleEndian(0, 1) && LittleEndian(0, 1) == [0] + LittleEndian(0, 0);
      FourThousand();
      hide LittleEndian, Capacity, FromLittleEndian;
      IntMeans(b, 4, 1, 2);
      IntMeans(b, 8, 4096, 4);
    }
  }

  lemma {:induction false} FourThousand()
    ensures LittleEndian(4096, 4) == [0, 16, 0, 0]
  {
    assert LittleEndian(16, 3) == [16] + LittleEndian(0, 2);
    assert LittleEndian(0, 2) == [0] + LittleEndian(0, 1) && LittleEndian(0, 1) == [0] + LittleEndian(0, 0);
  }

  lemma {:induction false} AppendedBytes(file: Bytes, segs: seq<Segment>, t: Txn, limits: Limits)
    requires IsStore(file, segs, limits) && Sound(t, limits)
    ensures |file| >= 4096
    ensures Append(file, t, limits) == (Superblock(1, t.commit, |Group(t)|) + (file[4096..] + TxnBytes(t)), Ok(()))
  {
    hide ReadStore, IsStore, TxnBytes, FirstRefusal, MutationEncodes, Superblock, Group, Sound, Committed, ImageOf, Acceptable;
    SoundIsFinite(t, limits);
    NoRefusal(t.mutations, limits);
    WholeBytes(t);
    WholeAcceptable(t, limits);
    AppendedSegment(file, segs, Whole(t), limits);
    AbandonedGroupsHarmless(file + TxnBytes(t), segs + [Whole(t)], limits);
    LatestIsLast(Committed(segs), t);
    StoreIsLong(file, segs, limits);
    assert (file + TxnBytes(t))[4096..] == file[4096..] + TxnBytes(t);
  }

  /** After an append that succeeds the superblock holds generation one, the commit and the number of records. */
  lemma {:induction false} AppendUpdatesSuperblock(file: Bytes, segs: seq<Segment>, t: Txn, limits: Limits)
    requires IsStore(file, segs, limits) && Sound(t, limits)
    ensures |file| >= 4096
    ensures var (longer, r) := Append(file, t, limits);
            && r == Ok(()) && |longer| >= 4096
            && IntAt(longer, 12, 8) == 1 && IntAt(longer, 20, 8) == t.commit
            && IntAt(longer, 28, 8) == |t.mutations| + 2
            && longer[4096..] == file[4096..] + TxnBytes(t)
  {
    hide IsStore, Append, TxnBytes, Superblock, Sound, IntAt, Acceptable, OpenGroup, CommitRecord;
    WholeAcceptable(t, limits);
    AppendedBytes(file, segs, t, limits);
    var block, rest := Superblock(1, t.commit, |Group(t)|), file[4096..] + TxnBytes(t);
    SuperblockLayout(1, t.commit, |Group(t)|);
    SameInts(block, rest);
    assert (block + rest)[4096..] == rest;
  }

  lemma StoreIsLong(file: Bytes, segs: seq<Segment>, limits: Limits)
    requires IsStore(file, segs, limits)
    ensures |file| >= 4096
  {
  }

  lemma WholeAcceptable(t: Txn, limits: Limits)
    requires Sound(t, limits)
    ensures Acceptable(Whole(t), limits) && |t.mutations| + 2 < TWO_64
  {
  }

  lemma {:induction false} SameInts(block: Bytes, rest: Bytes)
    requires |block| == 4096
    ensures IntAt(block + rest, 12, 8) == IntAt(block, 12, 8) && IntAt(block + rest, 20, 8) == IntAt(block, 20, 8)
    ensures IntAt(block + rest, 28, 8) == IntAt(block, 28, 8)
  {
    hide FromLittleEndian;
    SameSlice(block, rest, 12, 20);
    SameSlice(block, rest, 20, 28);
    SameSlice(block, rest, 28, 36);
  }

  lemma {:induction false} LatestIsLast(ts: seq<Txn>, t: Txn)
    ensures ImageOf(ts + [t]).latest == t.commit
  {
    hide ImageFrom;
    ImageFromAppend(EMPTY_IMAGE, ts, [t]);
    ImageFromOne(ImageOf(ts), t);
  }

  // ---- records ----

  /** Header fields, checksums, payload and padding of every record, each at its offset. */
  lemma {:induction false} RecordLayout(r: Record)
    requires |r.payload| < TWO_64
    ensures var b, n := RecordBytes(r), |r.payload|;
            && 40 + n <= |b| < 48 + n && |b| % 8 == 0
            && IntAt(b, 0, 2) == (match r.kind case TxnBegin => 0x01 case NodeVersion => 0x10
                                               case EdgeVersion => 0x11 case TxnCommit => 0x30)
            && IntAt(b, 2, 2) == 1 && IntAt(b, 4, 4) == 0 && IntAt(b, 8, 8) == n
            && IntAt(b, 16, 8) == r.logicalId && IntAt(b, 24, 8) == r.commit
            && IntAt(b, 32, 4) == Crc(b[0..32]) && IntAt(b, 36, 4) == Crc(b[40..40 + n])
            && b[40..40 + n] == r.payload && forall i | 40 + n <= i < |b| :: b[i] == 0
  {
    hide LittleEndian, IntAt, Crc, Fields, HeaderBytes, RecordBytes, PaddingFor;
    var b, n := RecordBytes(r), |r.payload|;
    RecordSize(r);
    assert At(b, 0, b);
    RecordParts(b, 0, r);
    ChecksumsAt(b, 0, r);
    FieldsAt(b, 0, r);
    forall i | 40 + n <= i < |b|
      ensures b[i] == 0
    {
      assert b[i] == b[40 + n..][i - 40 - n];
    }
  }

  /** The records of a transaction: what each is about and what the first and last one hold. */
  lemma {:induction false} GroupLayout(t: Txn)
    requires |t.mutations| + 2 < TWO_64
    ensures var rs, n := Group(t), |t.mutations|;
            && |rs| == n + 2
            && rs[0].kind == TxnBegin && rs[n + 1].kind == TxnCommit
            && rs[0].logicalId == rs[n + 1].logicalId == t.commit
            && (forall i | 0 <= i < n + 2 :: rs[i].commit == t.commit)
            && |rs[0].payload| == 16 && IntAt(rs[0].payload, 0, 8) == t.parent && IntAt(rs[0].payload, 8, 8) == n
            && |rs[n + 1].payload| == 20 && IntAt(rs[n + 1].payload, 0, 8) == t.commit
            && IntAt(rs[n + 1].payload, 8, 8) == n + 2
    ensures forall i | 0 <= i < |t.mutations| ::
              match t.mutations[i]
              case NodeMutation(node, tombstone) =>
                Group(t)[i + 1] == Record(NodeVersion, node.id, t.commit, NodeBytes(node, tombstone))
              case EdgeMutation(edge, tombstone) =>
                Group(t)[i + 1] == Record(EdgeVersion, edge.id, t.commit, EdgeBytes(edge, tombstone))
  {
    hide LittleEndian, IntAt, NodeBytes, EdgeBytes, Crc, Digest, Capacity, CommitPayload;
    CapacityValues();
    var first := BeginRecord(t).payload;
    assert Group(t)[0] == BeginRecord(t);
    assert At(first, 0, LittleEndian(t.parent, 8) + LittleEndian(|t.mutations|, 8));
    NumberThen(first, 0, t.parent, 8, LittleEndian(|t.mutations|, 8));
    TakeIntAt(first, 8, |t.mutations|, 8);
    PayloadNumbers(t);
  }

  /** Node puts, node tombstones, edge puts, edge tombstones, each in the order given. */
  lemma MutationOrder(parent: u64, commit: u64, nodes: seq<Node>, edges: seq<Edge>, nodeIds: seq<u64>, edgeIds: seq<u64>)
    ensures var t := TxnOf(parent, commit, nodes, edges, nodeIds, edgeIds);
            var a, b, c := |nodes|, |nodes| + |nodeIds|, |nodes| + |nodeIds| + |edges|;
            && t.parent == parent && t.commit == commit && |t.mutations| == c + |edgeIds|
            && (forall i | 0 <= i < a :: t.mutations[i] == NodeMutation(nodes[i], false))
            && (forall i | a <= i < b ::
                  t.mutations[i] == NodeMutation(View(nodeIds[i - a], Interval(0, 1), [], commit, NodeBody([])), true))
            && (forall i | b <= i < c :: t.mutations[i] == EdgeMutation(edges[i - b], false))
            && (forall i | c <= i < |t.mutations| ::
                  t.mutations[i] == EdgeMutation(View(edgeIds[i - c], Interval(0, 1), [], commit, EdgeBody(0, 0, [])), true))
  {
  }
}
