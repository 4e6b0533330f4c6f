/** The writer as the program runs it: bytes pushed onto a vector, field by field. */
module OgrWriter {
  import opened Bytes
  import opened Crc32c
  import opened Results
  import opened Values
  import opened OgrCodec
  import opened OgrRecord
  import opened OgrLog
  import opened OgrReader

  /** A growing vector of bytes. */
  class ByteVector {
    var data: Bytes

    constructor ()
      ensures data == []
    {
      data := [];
    }

    method PutU8(value: byte)
      modifies this
      ensures data == old(data) + [value]
    {
      data := data + [value];
    }

    method PutU16(value: u16)
      modifies this
      ensures data == old(data) + LittleEndian(value, 2)
    {
      PutU8(value % 0x100);
      PutU8(value / 0x100 % 0x100);
      assert LittleEndian(value, 2) == [value % 0x100] + LittleEndian(value / 0x100, 1);
    }

    /** The loops of the 32-bit and 64-bit writers: the bytes value >> 0, value >> 8, ... */
    method PutBytes(value: nat, width: nat)
      modifies this
      ensures data == old(data) + LittleEndian(value, width)
    {
      var k := 0;
      while k < width
        invariant k <= width && data == old(data) + LittleEndian(value, k)
      {
        LittleEndianPushBack(value, k);
        PutU8(ShiftBytes(value, k) % 0x100);
        k := k + 1;
      }
    }

    method PutU32(value: u32)
      modifies this
      ensures data == old(data) + LittleEndian(value, 4)
    {
      PutBytes(value, 4);
    }

    method PutU64(value: u64)
      modifies this
      ensures data == old(data) + LittleEndian(value, 8)
    {
      PutBytes(value, 8);
    }

    method PutI64(value: i64)
      modifies this
      ensures data == old(data) + LittleEndian(ToUnsigned(value), 8)
    {
      PutU64(ToUnsigned(value));
    }

    method Insert(more: Bytes)
      modifies this
      ensures data == old(data) + more
    {
      data := data + more;
    }

    /** Zero bytes up to the next multiple of eight. */
    method Pad()
      modifies this
      ensures data == old(data) + Zeros(PaddingFor(|old(data)|))
    {
      ghost var n := 0;
      while |data| % 8 != 0
        invariant n <= PaddingFor(|old(data)|)
        invariant data == old(data) + Zeros(n)
        decreases PaddingFor(|old(data)|) - n
      {
        PutU8(0);
        assert Zeros(n + 1) == Zeros(n) + [0];
        n := n + 1;
      }
    }

    method PutString(value: Text, limits: Limits) returns (r: Result<()>)
      modifies this
      ensures r == if StringFits(value, limits) then Ok(()) else Err(ResourceLimit)
      ensures data == if r.Ok? then old(data) + StringBytes(value) else old(data)
    {
      if |value| > limits.maxStringBytes || |value| > 0xffff_ffff {
        return Err(ResourceLimit);
      }
      PutU32(|value|);
      Insert(value);
      return Ok(());
    }

    method PutValue(value: Value, limits: Limits) returns (r: Result<()>)
      modifies this
      ensures r == if ValueFits(value, limits) then Ok(()) else Err(ResourceLimit)
      ensures r.Ok? ==> data == old(data) + ValueBytes(value)
    {
      hide LittleEndian, StringBytes;
      ghost var before := data;
      r := Ok(());
      match value {
        case BoolValue(flag) =>
          PutU8(1);
          PutU8(if flag then 1 else 0);
        case IntValue(number) =>
          PutU8(2);
          PutI64(number);
          ConcatAssociative(before, [2], LittleEndian(ToUnsigned(number), 8));
        case DoubleValue(bits) =>
          PutU8(3);
          PutU64(bits);
          ConcatAssociative(before, [3], LittleEndian(bits, 8));
        case TextValue(text) =>
          PutU8(4);
          r := PutString(text, limits);
          ConcatAssociative(before, [4], StringBytes(text));
      }
    }

    method PutProperties(properties: PropertyMap, limits: Limits) returns (r: Result<()>)
      modifies this
      ensures r == if PropertiesFit(properties, limits) then Ok(()) else Err(ResourceLimit)
      ensures r.Ok? ==> data == old(data) + PropertiesBytes(properties)
    {
      hide LittleEndian, StringBytes, ValueBytes, StringFits, ValueFits, EntriesBytes;
      if |properties| > limits.maxProperties || |properties| > 0xffff_ffff {
        return Err(ResourceLimit);
      }
      PutU32(|properties|);
      ghost var head := data;
      EntriesBytesNil();
      for i := 0 to |properties|
        invariant data == head + EntriesBytes(properties[..i])
        invariant EntriesFit(properties[..i], limits)
      {
        ghost var before := data;
        var p := properties[i];
        assert p in properties;
        assert properties[..i + 1] == properties[..i] + [p];
        EntriesPushBack(properties[..i], p);
        var key := PutString(p.key, limits);
        if key.Err? {
          return key;
        }
        var value := PutValue(p.value, limits);
        if value.Err? {
          return value;
        }
        assert data == before + EntryBytes(p);
      }
      assert properties[..|properties|] == properties;
      return Ok(());
    }
  }

  lemma EntriesBytesNil()
    ensures EntriesBytes([]) == []
  {
  }

  method WriteNode(node: Node, tombstone: bool, limits: Limits) returns (r: Result<Bytes>)
    ensures r == EncodeNode(node, tombstone, limits)
  {
    hide LittleEndian, StringBytes, PropertiesBytes, StringFits, PropertiesFit;
    if node.id == 0 {
      return Err(Format);
    }
    if !tombstone {
      if node.body.labelText == [] {
        return Err(Format);
      }
      if !node.interval.Valid() {
        return Err(Temporal);
      }
    }
    var payload := new ByteVector();
    payload.PutU64(node.id);
    payload.PutI64(node.interval.start);
    payload.PutI64(node.interval.end);
    payload.PutU8(if tombstone then 1 else 0);
    assert payload.data == NodeFixed(node, tombstone);
    var name := payload.PutString(node.body.labelText, limits);
    if name.Err? {
      return Err(name.error);
    }
    var properties := payload.PutProperties(node.properties, limits);
    if properties.Err? {
      return Err(properties.error);
    }
    ConcatAssociative(NodeFixed(node, tombstone), StringBytes(node.body.labelText), PropertiesBytes(node.properties));
    return Ok(payload.data);
  }

  method WriteEdge(edge: Edge, tombstone: bool, limits: Limits) returns (r: Result<Bytes>)
    ensures r == EncodeEdge(edge, tombstone, limits)
  {
    hide LittleEndian, StringBytes, PropertiesBytes, StringFits, PropertiesFit;
    if edge.id == 0 {
      return Err(Format);
    }
    if !tombstone {
      if edge.body.from == 0 || edge.body.to == 0 {
        return Err(Format);
      }
      if edge.body.kind == [] {
        return Err(Format);
      }
      if !edge.interval.Valid() {
        return Err(Temporal);
      }
    }
    var payload := new ByteVector();
    payload.PutU64(edge.id);
    payload.PutU64(edge.body.from);
    payload.PutU64(edge.body.to);
    payload.PutI64(edge.interval.start);
    payload.PutI64(edge.interval.end);
    payload.PutU8(if tombstone then 1 else 0);
    assert payload.data == EdgeFixed(edge, tombstone);
    var name := payload.PutString(edge.body.kind, limits);
    if name.Err? {
      return Err(name.error);
    }
    var properties := payload.PutProperties(edge.properties, limits);
    if properties.Err? {
      return Err(properties.error);
    }
    ConcatAssociative(EdgeFixed(edge, tombstone), StringBytes(edge.body.kind), PropertiesBytes(edge.properties));
    return Ok(payload.data);
  }

  method WriteRecord(r: Record) returns (record: Bytes)
    requires |r.payload| < TWO_64
    ensures record == RecordBytes(r)
  {
    hide LittleEndian, Crc;
    var header := new ByteVector();
    header.PutU16(KindCode(r.kind));
    header.PutU16(SCHEMA);
    header.PutU32(0);
    header.PutU64(|r.payload|);
    header.PutU64(r.logicalId);
    header.PutU64(r.commit);
    assert header.data == Fields(r);
    var headerCrc := ComputeCrc(header.data);
    var payloadCrc := ComputeCrc(r.payload);
    header.PutU32(headerCrc);
    header.PutU32(payloadCrc);
    assert header.data == HeaderBytes(r);
    header.Insert(r.payload);
    header.Pad();
    ConcatAssociative(HeaderBytes(r), r.payload, Zeros(PaddingFor(Unpadded(r))));
    record := header.data;
  }

  /** Magic, versions, size, generation, latest commit, record count, checksum, and zeros up to the full size. */
  method WriteSuperblock(generation: u64, latest: u64, recordCount: u64) returns (block: Bytes)
    ensures block == Superblock(generation, latest, recordCount)
  {
    hide LittleEndian, Crc;
    var header := new ByteVector();
    header.Insert(MAGIC);
    header.PutU16(1);
    header.PutU16(0);
    header.PutU32(SUPERBLOCK_BYTES);
    header.PutU64(generation);
    header.PutU64(latest);
    header.PutU64(recordCount);
    ghost var fields := MAGIC + (LittleEndian(1, 2) + (LittleEndian(0, 2) + (LittleEndian(SUPERBLOCK_BYTES, 4)
                        + (LittleEndian(generation, 8) + (LittleEndian(latest, 8) + LittleEndian(recordCount, 8))))));
    assert header.data == fields;
    var checksum := ComputeCrc(header.data);
    header.PutU32(checksum);
    header.Insert(Zeros(4056));
    block := header.data;
  }

  lemma {:induction false} RecordsBytesOne(r: Record)
    ensures RecordsBytes([r]) == RecordBytes(r)
  {
    hide RecordBytes;
    assert RecordsBytes([r][1..]) == [];
  }

  lemma MutationRecordsPushBack(ms: seq<Mutation>, m: Mutation, commit: u64)
    ensures MutationRecords(ms + [m], commit) == MutationRecords(ms, commit) + [MutationRecord(m, commit)]
  {
  }

  lemma {:induction false} RefusalAt(ms: seq<Mutation>, k: nat, limits: Limits)
    requires k < |ms| && FirstRefusal(ms[..k], limits).Ok?
    ensures match EncodeMutation(ms[k], limits)
            case Err(e) => FirstRefusal(ms, limits) == Err(e)
            case Ok(_) => FirstRefusal(ms[..k + 1], limits) == Ok(())
  {
    hide EncodeMutation;
    assert ms[..k + 1][..k] == ms[..k];
    if EncodeMutation(ms[k], limits).Err? {
      RefusalPersists(ms, k + 1, limits);
    }
  }

  lemma {:induction false} RefusalPersists(ms: seq<Mutation>, k: nat, limits: Limits)
    requires k <= |ms| && FirstRefusal(ms[..k], limits).Err?
    ensures FirstRefusal(ms, limits) == FirstRefusal(ms[..k], limits)
    decreases |ms|
  {
    hide EncodeMutation;
    if k == |ms| {
      assert ms[..k] == ms;
    } else {
      assert ms[..|ms| - 1][..k] == ms[..k];
      RefusalPersists(ms[..|ms| - 1], k, limits);
    }
  }

  lemma {:induction false} RefusalAppend(a: seq<Mutation>, b: seq<Mutation>, limits: Limits)
    ensures FirstRefusal(a + b, limits)
         == if FirstRefusal(a, limits).Err? then FirstRefusal(a, limits) else FirstRefusal(b, limits)
    decreases |b|
  {
    hide EncodeMutation;
    if |b| == 0 {
      assert a + b == a;
    } else {
      assert (a + b)[..|a + b| - 1] == a + b[..|b| - 1];
      RefusalAppend(a, b[..|b| - 1], limits);
    }
  }

  lemma {:induction false} MutationRecordsAppend(a: seq<Mutation>, b: seq<Mutation>, commit: u64)
    ensures MutationRecords(a + b, commit) == MutationRecords(a, commit) + MutationRecords(b, commit)
  {
    hide MutationRecord;
  }

  /** The records of the group being written, and the payload bytes its commit record will digest. */
  class GroupWriter {
    var written: Bytes
    var count: nat
    var digestInput: Bytes
    const commit: u64
    const limits: Limits
    ghost var records: seq<Record>

    ghost predicate Valid()
      reads this
    {
      written == RecordsBytes(records) && count == |records| && digestInput == Digest(records)
    }

    constructor (commit: u64, limits: Limits)
      ensures Valid() && records == [] && this.commit == commit && this.limits == limits
    {
      written, count, digestInput, records := [], 0, [], [];
      this.commit, this.limits := commit, limits;
    }

    method Push(r: Record)
      requires Valid() && |r.payload| < TWO_64
      modifies this
      ensures Valid() && records == old(records) + [r]
    {
      hide RecordBytes;
      var bytes := WriteRecord(r);
      digestInput := digestInput + r.payload;
      written := written + bytes;
      count := count + 1;
      records := records + [r];
      assert records[..|records| - 1] == old(records);
      RecordsBytesAppend(old(records), [r]);
      RecordsBytesOne(r);
    }

    /** One turn of the four mutation loops: encode, stop on a refusal, stage the record. */
    method PushMutation(m: Mutation) returns (r: Result<()>)
      requires Valid() && |MutationPayload(m)| < TWO_64
      modifies this
      ensures Valid()
      ensures match EncodeMutation(m, limits)
              case Err(e) => r == Err(e)
              case Ok(_) => r == Ok(()) && records == old(records) + [MutationRecord(m, commit)]
    {
      hide NodeBytes, EdgeBytes, RecordsBytes, Digest;
      var payload: Result<Bytes>;
      match m {
        case NodeMutation(node, tombstone) => payload := WriteNode(node, tombstone, limits);
        case EdgeMutation(edge, tombstone) => payload := WriteEdge(edge, tombstone, limits);
      }
      if payload.Err? {
        return Err(payload.error);
      }
      Push(match m
           case NodeMutation(node, _) => Record(NodeVersion, node.id, commit, payload.value)
           case EdgeMutation(edge, _) => Record(EdgeVersion, edge.id, commit, payload.value));
      return Ok(());
    }
  
    /** One of the four loops over the staged changes. */
    method PushAll(ms: seq<Mutation>) returns (r: Result<()>)
      requires Valid() && forall m | m in ms :: |MutationPayload(m)| < TWO_64
      modifies this
      ensures Valid()
      ensures r == FirstRefusal(ms, limits)
      ensures r.Ok? ==> records == old(records) + MutationRecords(ms, commit)
    {
      hide MutationPayload, EncodeMutation, MutationRecord, RecordsBytes, Digest;
      assert ms[..0] == [];
      for k := 0 to |ms|
        invariant Valid() && FirstRefusal(ms[..k], limits) == Ok(())
        invariant records == old(records) + MutationRecords(ms[..k], commit)
      {
        assert ms[k] in ms;
        var staged := PushMutation(ms[k]);
        RefusalAt(ms, k, limits);
        if staged.Err? {
          return staged;
        }
        assert ms[..k + 1] == ms[..k] + [ms[k]];
        MutationRecordsPushBack(ms[..k], ms[k], commit);
      }
      assert ms[..|ms|] == ms;
      r := Ok(());
    }
  }

  lemma {:induction false} BeginPayload(parent: u64, commit: u64, nodes: seq<Node>, edges: seq<Edge>,
                     nodeIds: seq<u64>, edgeIds: seq<u64>)
    ensures BeginRecord(TxnOf(parent, commit, nodes, edges, nodeIds, edgeIds))
         == Record(TxnBegin, commit, commit,
                   LittleEndian(parent, 8)
                   + LittleEndian(|nodes| + |edges| + |nodeIds| + |edgeIds|, 8))
  {
    hide LittleEndian;
  }

  lemma {:induction false} CommitPayloadPushed(t: Txn, data: Bytes)
    requires data == [] + LittleEndian(t.commit, 8) + LittleEndian(|t.mutations| + 2, 8)
                     + LittleEndian(Crc(Digest(OpenGroup(t))), 4)
    ensures data == CommitPayload(t)
  {
    hide LittleEndian, Crc, Digest, OpenGroup;
  }

  /** The four loops, each stopping at the first refusal. */
  method StageAll(group: GroupWriter, puts: seq<Mutation>, drops: seq<Mutation>,
                  edgePuts: seq<Mutation>, edgeDrops: seq<Mutation>)
    returns (r: Result<()>)
    requires group.Valid()
    requires forall m | m in puts + drops + edgePuts + edgeDrops :: |MutationPayload(m)| < TWO_64
    modifies group
    ensures group.Valid()
    ensures r == FirstRefusal(puts + drops + edgePuts + edgeDrops, group.limits)
    ensures r.Ok? ==>
              group.records == old(group.records) + MutationRecords(puts, group.commit)
                               + MutationRecords(drops, group.commit) + MutationRecords(edgePuts, group.commit)
                               + MutationRecords(edgeDrops, group.commit)
  {
    hide MutationRecords, MutationPayload, FirstRefusal, RecordsBytes, Digest;
    RefusalAppend(puts, drops, group.limits);
    RefusalAppend(puts + drops, edgePuts, group.limits);
    RefusalAppend(puts + drops + edgePuts, edgeDrops, group.limits);
    r := group.PushAll(puts);
    if r.Err? {
      return;
    }
    r := group.PushAll(drops);
    if r.Err? {
      return;
    }
    r := group.PushAll(edgePuts);
    if r.Err? {
      return;
    }
    r := group.PushAll(edgeDrops);
  }

  method BeginData(parent: u64, commit: u64, nodes: seq<Node>, edges: seq<Edge>, nodeIds: seq<u64>, edgeIds: seq<u64>)
    returns (data: Bytes)
    requires |nodes| + |edges| + |nodeIds| + |edgeIds| < TWO_64
    ensures BeginRecord(TxnOf(parent, commit, nodes, edges, nodeIds, edgeIds)) == Record(TxnBegin, commit, commit, data)
    ensures |data| == 16
  {
    hide LittleEndian, BeginRecord, TxnOf;
    var begin := new ByteVector();
    begin.PutU64(parent);
    begin.PutU64(|nodes| + |edges| + |nodeIds| + |edgeIds|);
    BeginPayload(parent, commit, nodes, edges, nodeIds, edgeIds);
    assert begin.data == LittleEndian(parent, 8) + LittleEndian(|nodes| + |edges| + |nodeIds| + |edgeIds|, 8);
    data := begin.data;
  }

  /** Encodes every staged version, then seals the group with its counted, digested commit record. */
  method BuildGroup(parent: u64, commit: u64, nodes: seq<Node>, edges: seq<Edge>,
                    nodeIds: seq<u64>, edgeIds: seq<u64>, limits: Limits)
    returns (group: GroupWriter, r: Result<()>)
    requires WellSized(TxnOf(parent, commit, nodes, edges, nodeIds, edgeIds))
    ensures var t := TxnOf(parent, commit, nodes, edges, nodeIds, edgeIds);
            r == FirstRefusal(t.mutations, limits)
            && (r.Ok? ==> group.written == TxnBytes(t) && group.count == |Group(t)|)
  {
    hide LittleEndian, Digest, RecordsBytes, MutationRecords, MutationPayload, FirstRefusal, BeginRecord,
      BeginOf, NodePuts, EdgePuts, NodeDrops, EdgeDrops, Crc, CommitPayload, OpenGroup;
    ghost var t := TxnOf(parent, commit, nodes, edges, nodeIds, edgeIds);
    var puts, drops := NodePuts(nodes), NodeDrops(nodeIds, commit);
    var edgePuts, edgeDrops := EdgePuts(edges), EdgeDrops(edgeIds, commit);
    assert t.mutations == puts + drops + edgePuts + edgeDrops;
    OpenGroupParts(t, puts, drops, edgePuts, edgeDrops);

    group := new GroupWriter(commit, limits);
    var begin := BeginData(parent, commit, nodes, edges, nodeIds, edgeIds);
    group.Push(Record(TxnBegin, commit, commit, begin));

    r := StageAll(group, puts, drops, edgePuts, edgeDrops);
    if r.Err? {
      return;
    }
    assert group.records == OpenGroup(t);
    var last := CommitData(t, group);
    group.Push(Record(TxnCommit, commit, commit, last));
  }

  lemma {:induction false} OpenGroupParts(t: Txn, puts: seq<Mutation>, drops: seq<Mutation>,
                       edgePuts: seq<Mutation>, edgeDrops: seq<Mutation>)
    requires t.mutations == puts + drops + edgePuts + edgeDrops
    ensures OpenGroup(t) == [BeginRecord(t)] + MutationRecords(puts, t.commit) + MutationRecords(drops, t.commit)
                            + MutationRecords(edgePuts, t.commit) + MutationRecords(edgeDrops, t.commit)
  {
    hide MutationRecords, BeginRecord;
    MutationRecordsAppend(puts, drops, t.commit);
    MutationRecordsAppend(puts + drops, edgePuts, t.commit);
    MutationRecordsAppend(puts + drops + edgePuts, edgeDrops, t.commit);
  }

  method CommitData(ghost t: Txn, group: GroupWriter) returns (data: Bytes)
    requires group.Valid() && group.records == OpenGroup(t) && group.commit == t.commit
    requires |t.mutations| + 2 < TWO_64
    ensures data == CommitPayload(t) && |data| == 20
  {
    hide LittleEndian, Digest, RecordsBytes, Crc, CommitPayload;
    var digest := ComputeCrc(group.digestInput);
    var last := new ByteVector();
    last.PutU64(group.commit);
    last.PutU64(group.count + 1);
    last.PutU32(digest);
    CommitPayloadPushed(t, last.data);
    data := last.data;
  }

  lemma {:induction false} GroupSize(parent: u64, commit: u64, nodes: seq<Node>, edges: seq<Edge>,
                                     nodeIds: seq<u64>, edgeIds: seq<u64>)
    requires WellSized(TxnOf(parent, commit, nodes, edges, nodeIds, edgeIds))
    ensures |Group(TxnOf(parent, commit, nodes, edges, nodeIds, edgeIds))| < TWO_64
  {
    hide TxnOf, MutationPayload;
  }

  /**
   Appends one transaction: nothing reaches the file before every version has been encoded; then the
   whole group is written, the store is read back and the superblock is replaced.
   */
  method AppendTransaction(file: Bytes, parent: u64, commit: u64, nodes: seq<Node>, edges: seq<Edge>,
                           nodeIds: seq<u64>, edgeIds: seq<u64>, limits: Limits)
    returns (longer: Bytes, r: Result<()>)
    requires |file| >= SUPERBLOCK_BYTES
    requires WellSized(TxnOf(parent, commit, nodes, edges, nodeIds, edgeIds))
    ensures (longer, r) == Append(file, TxnOf(parent, commit, nodes, edges, nodeIds, edgeIds), limits)
  {
    hide TxnBytes, TxnOf, FirstRefusal, WellSized, ReadStore, Superblock, Group;
    var group, built := BuildGroup(parent, commit, nodes, edges, nodeIds, edgeIds, limits);
    if built.Err? {
      return file, built;
    }
    longer := file + group.written;
    var current := ReadStoreFile(longer, limits);
    if current.Err? {
      return longer, Err(current.error);
    }
    GroupSize(parent, commit, nodes, edges, nodeIds, edgeIds);
    var superblock := WriteSuperblock(1, current.value.latest, group.count);
    longer := superblock + longer[SUPERBLOCK_BYTES..];
    r := Ok(());
  }
}
