/** The reader as the program runs it: an offset moved through the bytes, and the recovery scan. */
module OgrReader {
  import opened Bytes
  import opened Crc32c
  import opened Results
  import opened Values
  import opened OgrCodec
  import opened OgrRecord
  import opened OgrLog

  /** What a read at o must answer, given its specification. */
  ghost predicate Answers<T>(spec: Result<Taken<T>>, r: Result<T>, offset: nat)
  {
    match spec
    case Ok(taken) => r == Ok(taken.value) && offset == taken.next
    case Err(e) => r == Err(e)
  }

  /** A byte string and the offset the take functions move. */
  class Cursor {
    const bytes: Bytes
    var offset: nat

    constructor (bytes: Bytes)
      ensures this.bytes == bytes && offset == 0
    {
      this.bytes, offset := bytes, 0;
    }

    method TakeU8() returns (r: Result<byte>)
      modifies this
      ensures Answers(OgrCodec.TakeU8(bytes, old(offset)), r, offset)
    {
      if offset + 1 > |bytes| {
        return Err(Format);
      }
      r := Ok(bytes[offset]);
      offset := offset + 1;
    }

    /** The loops of the 32-bit and 64-bit readers: each byte lands eight bits higher. */
    method TakeBytes(width: nat) returns (value: nat)
      requires offset + width <= |bytes|
      modifies this
      ensures value == IntAt(bytes, old(offset), width) && offset == old(offset) + width
    {
      var start := offset;
      var scale: nat := 1;
      value := 0;
      assert bytes[start..start] == [];
      for k := 0 to width
        invariant offset == start + k && scale == Capacity(k)
        invariant value == FromLittleEndian(bytes[start..start + k])
      {
        assert bytes[start..start + k + 1] == bytes[start..start + k] + [bytes[offset]];
        FromLittleEndianPushBack(bytes[start..start + k], bytes[offset]);
        value := value + bytes[offset] * scale;
        scale := 0x100 * scale;
        offset := offset + 1;
      }
    }

    method TakeU16() returns (r: Result<u16>)
      modifies this
      ensures Answers(OgrCodec.TakeInt(bytes, old(offset), 2), r, offset)
    {
      if offset + 2 > |bytes| {
        return Err(Format);
      }
      CapacityValues();
      var value := TakeBytes(2);
      r := Ok(value);
    }

    method TakeU32() returns (r: Result<u32>)
      modifies this
      ensures Answers(OgrCodec.TakeU32(bytes, old(offset)), r, offset)
    {
      if offset + 4 > |bytes| {
        return Err(Format);
      }
      CapacityValues();
      var value := TakeBytes(4);
      r := Ok(value);
    }

    method TakeU64() returns (r: Result<u64>)
      modifies this
      ensures Answers(OgrCodec.TakeU64(bytes, old(offset)), r, offset)
    {
      if offset + 8 > |bytes| {
        return Err(Format);
      }
      CapacityValues();
      var value := TakeBytes(8);
      r := Ok(value);
    }

    method TakeI64() returns (r: Result<i64>)
      modifies this
      ensures Answers(OgrCodec.TakeI64(bytes, old(offset)), r, offset)
    {
      var raw := TakeU64();
      if raw.Err? {
        return Err(raw.error);
      }
      r := Ok(ToSigned(raw.value));
    }

    method TakeString(limits: Limits) returns (r: Result<Text>)
      modifies this
      ensures Answers(OgrCodec.TakeString(bytes, old(offset), limits), r, offset)
    {
      hide OgrCodec.TakeU32;
      var size := TakeU32();
      if size.Err? {
        return Err(size.error);
      }
      if size.value > limits.maxStringBytes || offset + size.value > |bytes| {
        return Err(Format);
      }
      r := Ok(bytes[offset..offset + size.value]);
      offset := offset + size.value;
    }

    method TakeValue(limits: Limits) returns (r: Result<Value>)
      modifies this
      ensures Answers(OgrCodec.TakeValue(bytes, old(offset), limits), r, offset)
    {
      hide OgrCodec.TakeI64, OgrCodec.TakeU64, OgrCodec.TakeString, Finite;
      var tag := TakeU8();
      if tag.Err? {
        return Err(tag.error);
      }
      if tag.value == 1 {
        var raw := TakeU8();
        r := if raw.Err? then Err(raw.error) else Ok(BoolValue(raw.value != 0));
      } else if tag.value == 2 {
        var raw := TakeI64();
        r := if raw.Err? then Err(raw.error) else Ok(IntValue(raw.value));
      } else if tag.value == 3 {
        var raw := TakeU64();
        r := if raw.Err? then Err(raw.error)
             else if Finite(raw.value) then Ok(DoubleValue(raw.value)) else Err(Format);
      } else if tag.value == 4 {
        var raw := TakeString(limits);
        r := if raw.Err? then Err(raw.error) else Ok(TextValue(raw.value));
      } else {
        r := Err(Unsupported);
      }
    }

    method TakeProperties(limits: Limits) returns (r: Result<PropertyMap>)
      modifies this
      ensures Answers(OgrCodec.TakeProperties(bytes, old(offset), limits), r, offset)
    {
      hide OgrCodec.TakeU32, OgrCodec.TakeString, OgrCodec.TakeValue, Emplace, HasKey, KeySorted;
      var count := TakeU32();
      if count.Err? {
        return Err(count.error);
      }
      if count.value > limits.maxProperties {
        return Err(ResourceLimit);
      }
      var properties: PropertyMap := NO_PROPERTIES;
      var i := 0;
      while i < count.value
        invariant i <= count.value && offset <= |bytes|
        invariant OgrCodec.TakeProperties(bytes, old(offset), limits)
               == TakeEntries(bytes, offset, count.value - i, properties, limits)
      {
        var key := TakeString(limits);
        if key.Err? {
          return Err(key.error);
        }
        var value := TakeValue(limits);
        if value.Err? {
          return Err(value.error);
        }
        if HasKey(properties, key.value) {
          return Err(Format);
        }
        properties := Emplace(properties, Property(key.value, value.value));
        i := i + 1;
      }
      r := Ok(properties);
    }
  }

  const NO_PROPERTIES: PropertyMap := []

  method ReadNode(payload: Bytes, commit: u64, limits: Limits) returns (r: Result<(Node, bool)>)
    ensures r == DecodeNode(payload, commit, limits)
  {
    hide OgrCodec.TakeU64, OgrCodec.TakeI64, OgrCodec.TakeU8, OgrCodec.TakeString, OgrCodec.TakeProperties;
    var cursor := new Cursor(payload);
    var id := cursor.TakeU64();
    if id.Err? {
      return Err(id.error);
    }
    var start := cursor.TakeI64();
    if start.Err? {
      return Err(start.error);
    }
    var end := cursor.TakeI64();
    if end.Err? {
      return Err(end.error);
    }
    var flag := cursor.TakeU8();
    if flag.Err? {
      return Err(flag.error);
    }
    var name := cursor.TakeString(limits);
    if name.Err? {
      return Err(name.error);
    }
    var properties := cursor.TakeProperties(limits);
    if properties.Err? {
      return Err(properties.error);
    }
    if cursor.offset != |payload| {
      return Err(Format);
    }
    var interval := Interval(start.value, end.value);
    if flag.value == 0 && !interval.Valid() {
      return Err(Temporal);
    }
    r := Ok((View(id.value, interval, properties.value, commit, NodeBody(name.value)), flag.value != 0));
  }

  method ReadEdge(payload: Bytes, commit: u64, limits: Limits) returns (r: Result<(Edge, bool)>)
    ensures r == DecodeEdge(payload, commit, limits)
  {
    hide OgrCodec.TakeU64, OgrCodec.TakeI64, OgrCodec.TakeU8, OgrCodec.TakeString, OgrCodec.TakeProperties;
    var cursor := new Cursor(payload);
    var id := cursor.TakeU64();
    if id.Err? {
      return Err(id.error);
    }
    var from := cursor.TakeU64();
    if from.Err? {
      return Err(from.error);
    }
    var to := cursor.TakeU64();
    if to.Err? {
      return Err(to.error);
    }
    var start := cursor.TakeI64();
    if start.Err? {
      return Err(start.error);
    }
    var end := cursor.TakeI64();
    if end.Err? {
      return Err(end.error);
    }
    var flag := cursor.TakeU8();
    if flag.Err? {
      return Err(flag.error);
    }
    var name := cursor.TakeString(limits);
    if name.Err? {
      return Err(name.error);
    }
    var properties := cursor.TakeProperties(limits);
    if properties.Err? {
      return Err(properties.error);
    }
    if cursor.offset != |payload| {
      return Err(Format);
    }
    var interval := Interval(start.value, end.value);
    if flag.value == 0 && !interval.Valid() {
      return Err(Temporal);
    }
    r := Ok((View(id.value, interval, properties.value, commit, EdgeBody(from.value, to.value, name.value)),
             flag.value != 0));
  }

  /** Past the padding of the record that ends at o. */
  method PassPadding(bytes: Bytes, o: nat) returns (r: Result<nat>)
    requires o <= |bytes|
    ensures r == SkipPadding(bytes, o)
  {
    var offset := o;
    while offset % 8 != 0 && offset < |bytes|
      invariant o <= offset <= |bytes|
      invariant SkipPadding(bytes, o) == SkipPadding(bytes, offset)
      decreases |bytes| - offset
    {
      if bytes[offset] != 0 {
        return Err(Format);
      }
      offset := offset + 1;
    }
    r := if offset % 8 != 0 then Err(Format) else Ok(offset);
  }

  /** Takes the eight header fields one after the other, then checks them. */
  method TakeHeader(bytes: Bytes, o: nat, limits: Limits) returns (r: Result<Header>)
    ensures r == ReadHeader(bytes, o, limits)
  {
    hide Crc, IntAt;
    if o + RECORD_HEADER_BYTES > |bytes| {
      return Err(Format);
    }
    CapacityValues();
    var c := new Cursor(bytes);
    c.offset := o;
    var code := c.TakeU16();
    var schema := c.TakeU16();
    var flags := c.TakeU32();
    var length := c.TakeU64();
    var logicalId := c.TakeU64();
    var commit := c.TakeU64();
    var headerCrc := c.TakeU32();
    var payloadCrc := c.TakeU32();
    assert code.Ok? && schema.Ok? && flags.Ok? && length.Ok?;
    assert logicalId.Ok? && commit.Ok? && headerCrc.Ok? && payloadCrc.Ok?;
    if schema.value != SCHEMA || flags.value != 0 {
      return Err(Unsupported);
    }
    if length.value > limits.maxRecordBytes {
      return Err(ResourceLimit);
    }
    var crc := ComputeCrc(bytes[o..o + 32]);
    if crc != headerCrc.value {
      return Err(Integrity);
    }
    return Ok(Header(code.value, length.value, logicalId.value, commit.value, payloadCrc.value));
  }

  method ReadRecord(bytes: Bytes, o: nat, limits: Limits) returns (r: Result<Decoded>)
    ensures r == DecodeRecord(bytes, o, limits)
  {
    hide ReadHeader, Crc, SkipPadding, KindOf;
    var header := TakeHeader(bytes, o, limits);
    if header.Err? {
      return Err(header.error);
    }
    var body := o + RECORD_HEADER_BYTES;
    var h := header.value;
    if body + h.length > |bytes| {
      return Err(Format);
    }
    var payload := bytes[body..body + h.length];
    var crc := ComputeCrc(payload);
    if crc != h.payloadCrc {
      return Err(Integrity);
    }
    var next := PassPadding(bytes, body + h.length);
    if next.Err? {
      return Err(next.error);
    }
    match KindOf(h.code) {
      case None => r := Err(Unsupported);
      case Some(kind) => r := Ok(Decoded(Record(kind, h.logicalId, h.commit, payload), next.value));
    }
  }

  lemma {:induction false} DigestPushBack(rs: seq<Record>, k: nat)
    requires k < |rs|
    ensures Digest(rs[..k + 1]) == Digest(rs[..k]) + rs[k].payload
  {
    assert rs[..k + 1][..k] == rs[..k];
  }

  lemma {:induction false} ApplyRecordsPushBack(image: Image, rs: seq<Record>, k: nat, commit: u64, limits: Limits)
    requires k < |rs|
    ensures ApplyRecords(image, rs[..k + 1], commit, limits)
         == match ApplyRecords(image, rs[..k], commit, limits)
            case Err(e) => Err(e)
            case Ok(before) => ApplyRecord(before, rs[k], commit, limits)
  {
    hide ApplyRecord;
    assert rs[..k + 1][..k] == rs[..k];
  }

  lemma {:induction false} ApplyRecordsFails(image: Image, rs: seq<Record>, k: nat, commit: u64, limits: Limits)
    requires k <= |rs| && ApplyRecords(image, rs[..k], commit, limits).Err?
    ensures ApplyRecords(image, rs, commit, limits) == ApplyRecords(image, rs[..k], commit, limits)
    decreases |rs| - k
  {
    hide ApplyRecord;
    if k == |rs| {
      assert rs[..k] == rs;
    } else {
      ApplyRecordsPushBack(image, rs, k, commit, limits);
      ApplyRecordsFails(image, rs, k + 1, commit, limits);
    }
  }

  method DigestInput(rs: seq<Record>) returns (input: Bytes)
    ensures input == Digest(rs)
  {
    input := [];
    for i := 0 to |rs|
      invariant input == Digest(rs[..i])
    {
      DigestPushBack(rs, i);
      input := input + rs[i].payload;
    }
    assert rs[..|rs|] == rs;
  }

  method DecodeInto(start: Image, rs: seq<Record>, commit: u64, limits: Limits) returns (r: Result<Image>)
    ensures r == ApplyRecords(start, rs, commit, limits)
  {
    hide DecodeNode, DecodeEdge;
    var image := start;
    for i := 0 to |rs|
      invariant ApplyRecords(start, rs[..i], commit, limits) == Ok(image)
    {
      ApplyRecordsPushBack(start, rs, i, commit, limits);
      if rs[i].kind == NodeVersion {
        var node := ReadNode(rs[i].payload, commit, limits);
        if node.Err? {
          ApplyRecordsFails(start, rs, i + 1, commit, limits);
          return Err(node.error);
        }
        if node.value.1 {
          image := image.(nodeTombstones := image.nodeTombstones + [node.value.0]);
        } else {
          image := image.(nodes := image.nodes + [node.value.0]);
        }
      } else if rs[i].kind == EdgeVersion {
        var edge := ReadEdge(rs[i].payload, commit, limits);
        if edge.Err? {
          ApplyRecordsFails(start, rs, i + 1, commit, limits);
          return Err(edge.error);
        }
        if edge.value.1 {
          image := image.(edgeTombstones := image.edgeTombstones + [edge.value.0]);
        } else {
          image := image.(edges := image.edges + [edge.value.0]);
        }
      }
    }
    assert rs[..|rs|] == rs;
    r := Ok(image);
  }

  /** Checks the commit record against its group and adds the group to the image. */
  method Close(image: Image, group: seq<Record>, limits: Limits) returns (r: Result<Image>)
    requires |group| >= 2
    ensures r == CloseGroup(image, group, limits)
  {
    hide OgrCodec.TakeU64, OgrCodec.TakeU32, Digest, Crc, ApplyRecords;
    var last := group[|group| - 1];
    var cursor := new Cursor(last.payload);
    var commit := cursor.TakeU64();
    if commit.Err? {
      return Err(commit.error);
    }
    var count := cursor.TakeU64();
    if count.Err? {
      return Err(count.error);
    }
    var digest := cursor.TakeU32();
    if digest.Err? {
      return Err(digest.error);
    }
    if cursor.offset != |last.payload| {
      return Err(Format);
    }
    if commit.value != last.commit || count.value != |group| {
      return Err(Integrity);
    }
    var open := group[..|group| - 1];
    var input := DigestInput(open);
    var crc := ComputeCrc(input);
    if crc != digest.value {
      return Err(Integrity);
    }
    var after := DecodeInto(image, open[1..], last.commit, limits);
    if after.Err? {
      return after;
    }
    r := Ok(after.value.(latest := last.commit));
  }

  /** Checks magic, major version and superblock size; the minor version may be anything. */
  method CheckSuperblock(bytes: Bytes) returns (r: Result<()>)
    ensures r == ValidateSuperblock(bytes)
  {
    hide IntAt;
    if |bytes| < SUPERBLOCK_BYTES {
      return Err(Format);
    }
    if bytes[..4] != MAGIC {
      return Err(Format);
    }
    CapacityValues();
    var c := new Cursor(bytes);
    c.offset := 4;
    var major := c.TakeU16();
    var minor := c.TakeU16();
    var size := c.TakeU32();
    assert major.Ok? && minor.Ok? && size.Ok?;
    if major.value != 1 || size.value != SUPERBLOCK_BYTES {
      return Err(Unsupported);
    }
    return Ok(());
  }

  /** The recovery scan. */
  method ReadStoreFile(bytes: Bytes, limits: Limits) returns (r: Result<Image>)
    ensures r == ReadStore(bytes, limits)
  {
    hide DecodeRecord, CloseGroup, ValidateSuperblock;
    var valid := CheckSuperblock(bytes);
    if valid.Err? {
      return Err(valid.error);
    }
    var image := EMPTY_IMAGE;
    var offset := SUPERBLOCK_BYTES;
    var group: seq<Record> := [];
    while offset < |bytes|
      invariant Scan(bytes, SUPERBLOCK_BYTES, ScanState([], EMPTY_IMAGE), limits)
             == Scan(bytes, offset, ScanState(group, image), limits)
      decreases |bytes| - offset
    {
      var decoded := ReadRecord(bytes, offset, limits);
      if decoded.Err? {
        if decoded.error == Format {
          break;
        }
        return Err(decoded.error);
      }
      offset := decoded.value.next;
      var record := decoded.value.record;
      if record.kind == TxnBegin {
        group := [record];
      } else if |group| == 0 {
        return Err(Format);
      } else {
        group := group + [record];
        if record.kind == TxnCommit {
          var closed := Close(image, group, limits);
          if closed.Err? {
            return closed;
          }
          image := closed.value;
          group := [];
        }
      }
    }
    r := Ok(image);
  }
}
