/** Framed records: two checksums, padding to eight bytes, and what the reader makes of them. */
module OgrRecord {
  import opened Bytes
  import opened Crc32c
  import opened Results
  import opened Values
  import opened OgrCodec

  const RECORD_HEADER_BYTES := 40
  const SCHEMA: u16 := 1

  datatype RecordKind = TxnBegin | NodeVersion | EdgeVersion | TxnCommit

  function KindCode(kind: RecordKind): u16
  {
    match kind
    case TxnBegin => 0x01
    case NodeVersion => 0x10
    case EdgeVersion => 0x11
    case TxnCommit => 0x30
  }

  function KindOf(code: u16): Option<RecordKind>
  {
    if code == 0x01 then Some(TxnBegin)
    else if code == 0x10 then Some(NodeVersion)
    else if code == 0x11 then Some(EdgeVersion)
    else if code == 0x30 then Some(TxnCommit)
    else None
  }

  datatype Record = Record(kind: RecordKind, logicalId: u64, commit: u64, payload: Bytes)

  // ---- writing ----

  /** The 32 header bytes covered by the header checksum. */
  function Fields(r: Record): (b: Bytes)
    ensures |b| == 32
  {
    LittleEndian(KindCode(r.kind), 2) + (LittleEndian(SCHEMA, 2) + (LittleEndian(0, 4)
    + (LittleEndian(|r.payload|, 8) + (LittleEndian(r.logicalId, 8) + LittleEndian(r.commit, 8)))))
  }

  function Zeros(n: nat): (b: Bytes)
    ensures |b| == n && forall i | 0 <= i < n :: b[i] == 0
  {
    seq(n, _ => 0)
  }

  function PaddingFor(size: nat): (n: nat)
    ensures n < 8 && (size + n) % 8 == 0
  {
    (8 - size % 8) % 8
  }

  function HeaderBytes(r: Record): (b: Bytes)
    ensures |b| == RECORD_HEADER_BYTES
  {
    Fields(r) + (LittleEndian(Crc(Fields(r)), 4) + LittleEndian(Crc(r.payload), 4))
  }

  /** Where the padding of r starts. */
  function Unpadded(r: Record): nat
  {
    RECORD_HEADER_BYTES + |r.payload|
  }

  function RecordBytes(r: Record): Bytes
  {
    HeaderBytes(r) + (r.payload + Zeros(PaddingFor(Unpadded(r))))
  }

  lemma {:induction false} RecordSize(r: Record)
    ensures |RecordBytes(r)| == Unpadded(r) + PaddingFor(Unpadded(r))
    ensures |RecordBytes(r)| % 8 == 0
  {
    hide HeaderBytes, PaddingFor;
  }

  lemma AlignedSum(a: nat, b: nat)
    requires a % 8 == 0
    ensures (a + b) % 8 == b % 8
  {
  }

  // ---- reading ----

  datatype Header = Header(code: u16, length: u64, logicalId: u64, commit: u64, payloadCrc: u32)

  /** The checks on a record header, first failure first. */
  function ReadHeader(bytes: Bytes, o: nat, limits: Limits): (h: Result<Header>)
    ensures h.Ok? ==> o + RECORD_HEADER_BYTES <= |bytes|
    ensures o + RECORD_HEADER_BYTES <= |bytes| ==> h != Err(Format)
  {
    if o + RECORD_HEADER_BYTES > |bytes| then Err(Format) else
    CapacityValues();
    var code := IntAt(bytes, o, 2);
    var length := IntAt(bytes, o + 8, 8);
    if IntAt(bytes, o + 2, 2) != SCHEMA || IntAt(bytes, o + 4, 4) != 0 then Err(Unsupported)
    else if length > limits.maxRecordBytes then Err(ResourceLimit)
    else if Crc(bytes[o..o + 32]) != IntAt(bytes, o + 32, 4) then Err(Integrity)
    else Ok(Header(code, length, IntAt(bytes, o + 16, 8), IntAt(bytes, o + 24, 8), IntAt(bytes, o + 36, 4)))
  }

  function SkipPadding(bytes: Bytes, o: nat): (r: Result<nat>)
    requires o <= |bytes|
    ensures r.Ok? ==> o <= r.value <= |bytes| && r.value % 8 == 0
    ensures r.Err? ==> r.error == Format
    decreases |bytes| - o
  {
    if o % 8 == 0 then Ok(o)
    else if o == |bytes| || bytes[o] != 0 then Err(Format)
    else SkipPadding(bytes, o + 1)
  }

  datatype Decoded = Decoded(record: Record, next: nat)

  function DecodeRecord(bytes: Bytes, o: nat, limits: Limits): (d: Result<Decoded>)
    ensures d.Ok? ==> o < d.value.next <= |bytes| && d.value.next % 8 == 0
  {
    var h :- ReadHeader(bytes, o, limits);
    var body := o + RECORD_HEADER_BYTES;
    if body + h.length > |bytes| then Err(Format) else
    var payload := bytes[body..body + h.length];
    if Crc(payload) != h.payloadCrc then Err(Integrity) else
    var next :- SkipPadding(bytes, body + h.length);
    match KindOf(h.code)
    case None => Err(Unsupported)
    case Some(kind) => Ok(Decoded(Record(kind, h.logicalId, h.commit, payload), next))
  }

  // ---- reading what was written ----

  lemma {:induction false} FieldsAt(bytes: Bytes, o: nat, r: Record)
    requires |r.payload| < TWO_64
    requires At(bytes, o, Fields(r))
    ensures IntAt(bytes, o, 2) == KindCode(r.kind)
    ensures IntAt(bytes, o + 2, 2) == SCHEMA
    ensures IntAt(bytes, o + 4, 4) == 0
    ensures IntAt(bytes, o + 8, 8) == |r.payload|
    ensures IntAt(bytes, o + 16, 8) == r.logicalId
    ensures IntAt(bytes, o + 24, 8) == r.commit
  {
    CapacityValues();
    hide LittleEndian, IntAt, Capacity;
    var f := LittleEndian(r.commit, 8);
    var e := LittleEndian(r.logicalId, 8);
    var d := LittleEndian(|r.payload|, 8);
    var c := LittleEndian(0, 4);
    var b := LittleEndian(SCHEMA, 2);
    AtSplit(bytes, o, LittleEndian(KindCode(r.kind), 2), b + (c + (d + (e + f))));
    AtSplit(bytes, o + 2, b, c + (d + (e + f)));
    AtSplit(bytes, o + 4, c, d + (e + f));
    AtSplit(bytes, o + 8, d, e + f);
    AtSplit(bytes, o + 16, e, f);
    TakeIntAt(bytes, o, KindCode(r.kind), 2);
    TakeIntAt(bytes, o + 2, SCHEMA, 2);
    TakeIntAt(bytes, o + 4, 0, 4);
    TakeIntAt(bytes, o + 8, |r.payload|, 8);
    TakeIntAt(bytes, o + 16, r.logicalId, 8);
    TakeIntAt(bytes, o + 24, r.commit, 8);
  }

  function HeaderOf(r: Record): Header
    requires |r.payload| < TWO_64
  {
    Header(KindCode(r.kind), |r.payload|, r.logicalId, r.commit, Crc(r.payload))
  }

  lemma {:induction false} ChecksumsAt(bytes: Bytes, o: nat, r: Record)
    requires At(bytes, o, HeaderBytes(r))
    ensures At(bytes, o, Fields(r)) && bytes[o..o + 32] == Fields(r)
    ensures IntAt(bytes, o + 32, 4) == Crc(Fields(r))
    ensures IntAt(bytes, o + 36, 4) == Crc(r.payload)
  {
    CapacityValues();
    hide LittleEndian, IntAt, Crc, Fields, Capacity;
    var a, b := LittleEndian(Crc(Fields(r)), 4), LittleEndian(Crc(r.payload), 4);
    AtSplit(bytes, o, Fields(r), a + b);
    AtSplit(bytes, o + 32, a, b);
    TakeIntAt(bytes, o + 32, Crc(Fields(r)), 4);
    TakeIntAt(bytes, o + 36, Crc(r.payload), 4);
  }

  lemma {:induction false} HeaderAt(bytes: Bytes, o: nat, r: Record, limits: Limits)
    requires |r.payload| < TWO_64
    requires At(bytes, o, HeaderBytes(r))
    ensures ReadHeader(bytes, o, limits)
         == if |r.payload| <= limits.maxRecordBytes then Ok(HeaderOf(r)) else Err(ResourceLimit)
  {
    hide LittleEndian, IntAt, Crc, Fields, HeaderBytes, Capacity;
    ChecksumsAt(bytes, o, r);
    FieldsAt(bytes, o, r);
  }

  lemma {:induction false} PaddingAt(bytes: Bytes, o: nat, n: nat)
    requires n < 8 && (o + n) % 8 == 0 && At(bytes, o, Zeros(n))
    ensures SkipPadding(bytes, o) == Ok(o + n)
    decreases n
  {
    if n > 0 {
      assert bytes[o] == bytes[o..o + n][0];
      assert bytes[o + 1..o + n] == bytes[o..o + n][1..];
      PaddingAt(bytes, o + 1, n - 1);
    }
  }

  lemma {:induction false} RecordParts(bytes: Bytes, o: nat, r: Record)
    requires At(bytes, o, RecordBytes(r))
    ensures At(bytes, o, HeaderBytes(r))
    ensures At(bytes, o + RECORD_HEADER_BYTES, r.payload)
    ensures At(bytes, o + Unpadded(r), Zeros(PaddingFor(Unpadded(r))))
  {
    hide HeaderBytes, Zeros, PaddingFor;
    var zeros := Zeros(PaddingFor(Unpadded(r)));
    AtSplit(bytes, o, HeaderBytes(r), r.payload + zeros);
    AtSplit(bytes, o + RECORD_HEADER_BYTES, r.payload, zeros);
  }

  lemma KindRoundTrip(kind: RecordKind)
    ensures KindOf(KindCode(kind)) == Some(kind)
  {
  }

  /** A whole record reads back as itself; one over the reader's limit is refused. */
  lemma {:induction false} RecordAt(bytes: Bytes, o: nat, r: Record, limits: Limits)
    requires o % 8 == 0 && |r.payload| < TWO_64
    requires At(bytes, o, RecordBytes(r))
    ensures DecodeRecord(bytes, o, limits)
         == if |r.payload| <= limits.maxRecordBytes then Ok(Decoded(r, o + |RecordBytes(r)|))
            else Err(ResourceLimit)
  {
    hide HeaderBytes, ReadHeader, Crc, SkipPadding, Zeros, KindCode, KindOf, RecordBytes, PaddingFor;
    RecordParts(bytes, o, r);
    RecordSize(r);
    HeaderAt(bytes, o, r, limits);
    AlignedSum(o, Unpadded(r) + PaddingFor(Unpadded(r)));
    PaddingAt(bytes, o + Unpadded(r), PaddingFor(Unpadded(r)));
    KindRoundTrip(r.kind);
  }

  lemma {:induction false} PaddingCut(bytes: Bytes, o: nat)
    requires o <= |bytes| < o + 8 - o % 8 && o % 8 != 0
    ensures SkipPadding(bytes, o) == Err(Format)
    decreases |bytes| - o
  {
    if o < |bytes| && bytes[o] == 0 {
      PaddingCut(bytes, o + 1);
    }
  }

  lemma {:induction false} PrefixSlice(bytes: Bytes, o: nat, e: Bytes, lo: nat, hi: nat)
    requires o <= |bytes| <= o + |e| && bytes[o..] == e[..|bytes| - o]
    requires lo <= hi && o + hi <= |bytes|
    ensures bytes[o + lo..o + hi] == e[lo..hi]
  {
    forall i | lo <= i < hi
      ensures bytes[o + i] == e[i]
    {
      assert bytes[o + i] == bytes[o..][i] && e[i] == e[..|bytes| - o][i];
    }
  }

  /** A record cut short anywhere reads as a format error, the one error that ends the scan quietly. */
  lemma {:induction false} RecordCut(bytes: Bytes, o: nat, r: Record, limits: Limits)
    requires o % 8 == 0 && |r.payload| <= limits.maxRecordBytes
    requires o <= |bytes| < o + |RecordBytes(r)|
    requires bytes[o..] == RecordBytes(r)[..|bytes| - o]
    ensures DecodeRecord(bytes, o, limits) == Err(Format)
  {
    hide HeaderBytes, DecodeRecord, Zeros, PaddingFor;
    RecordSize(r);
    var body, end := o + RECORD_HEADER_BYTES, o + Unpadded(r);
    if |bytes| < body {
      CutInHeader(bytes, o, limits);
    } else {
      assert RecordBytes(r)[0..RECORD_HEADER_BYTES] == HeaderBytes(r);
      PrefixSlice(bytes, o, RecordBytes(r), 0, RECORD_HEADER_BYTES);
      if end <= |bytes| {
        assert RecordBytes(r)[RECORD_HEADER_BYTES..Unpadded(r)] == r.payload;
        PrefixSlice(bytes, o, RecordBytes(r), RECORD_HEADER_BYTES, Unpadded(r));
        PaddingRoom(o, Unpadded(r), |bytes|);
      }
      CutAfterHeader(bytes, o, r, limits);
    }
  }

  lemma {:induction false} PaddingRoom(o: nat, n: nat, size: nat)
    requires o % 8 == 0 && o + n <= size < o + n + PaddingFor(n)
    ensures (o + n) % 8 != 0 && size < o + n + 8 - (o + n) % 8
  {
    AlignedSum(o, n);
  }

  lemma CutInHeader(bytes: Bytes, o: nat, limits: Limits)
    requires |bytes| < o + RECORD_HEADER_BYTES
    ensures DecodeRecord(bytes, o, limits) == Err(Format)
  {
  }

  lemma {:induction false} CutAfterHeader(bytes: Bytes, o: nat, r: Record, limits: Limits)
    requires |r.payload| <= limits.maxRecordBytes
    requires At(bytes, o, HeaderBytes(r))
    requires o + Unpadded(r) <= |bytes| ==>
               && At(bytes, o + RECORD_HEADER_BYTES, r.payload)
               && (o + Unpadded(r)) % 8 != 0
               && |bytes| < o + Unpadded(r) + 8 - (o + Unpadded(r)) % 8
    ensures DecodeRecord(bytes, o, limits) == Err(Format)
  {
    hide HeaderBytes, ReadHeader, Crc, SkipPadding, KindCode, KindOf;
    HeaderAt(bytes, o, r, limits);
    if o + Unpadded(r) <= |bytes| {
      PaddingCut(bytes, o + Unpadded(r));
    }
  }

  // ---- one damaged byte ----

  lemma {:induction false} DamagedFields(bytes: Bytes, o: nat, r: Record, p: nat, x: byte, limits: Limits)
    requires p < 32 && x != Fields(r)[p]
    requires At(bytes, o, HeaderBytes(r)[p := x])
    ensures ReadHeader(bytes, o, limits).Err?
  {
    CapacityValues();
    hide LittleEndian, Crc, IntAt, Capacity;
    var a, b := LittleEndian(Crc(Fields(r)), 4), LittleEndian(Crc(r.payload), 4);
    var damaged := Fields(r)[p := x];
    assert HeaderBytes(r)[p := x] == damaged + (a + b);
    AtSplit(bytes, o, damaged, a + b);
    AtSplit(bytes, o + 32, a, b);
    TakeIntAt(bytes, o + 32, Crc(Fields(r)), 4);
    SingleByteDetected(Fields(r), p, x);
  }

  lemma {:induction false} DamagedInt(bytes: Bytes, o: nat, v: u32, p: nat, x: byte)
    requires p < 4 && x != LittleEndian(v, 4)[p]
    requires At(bytes, o, LittleEndian(v, 4)[p := x])
    ensures IntAt(bytes, o, 4) != v
  {
    var raw := bytes[o..o + 4];
    LittleEndianOnto(raw);
    assert raw[p] == x;
  }

  lemma {:induction false} DamagedHeaderCrc(bytes: Bytes, o: nat, r: Record, p: nat, x: byte, limits: Limits)
    requires 32 <= p < 36 && x != HeaderBytes(r)[p]
    requires At(bytes, o, HeaderBytes(r)[p := x])
    ensures ReadHeader(bytes, o, limits).Err?
  {
    hide LittleEndian, Crc, IntAt;
    var a, b := LittleEndian(Crc(Fields(r)), 4), LittleEndian(Crc(r.payload), 4);
    var damaged := a[p - 32 := x];
    assert HeaderBytes(r)[p := x] == Fields(r) + (damaged + b);
    AtSplit(bytes, o, Fields(r), damaged + b);
    AtSplit(bytes, o + 32, damaged, b);
    DamagedInt(bytes, o + 32, Crc(Fields(r)), p - 32, x);
  }

  lemma {:induction false} DamagedPayloadCrc(bytes: Bytes, o: nat, r: Record, p: nat, x: byte, limits: Limits)
    requires 36 <= p < 40 && x != HeaderBytes(r)[p] && |r.payload| < TWO_64
    requires At(bytes, o, HeaderBytes(r)[p := x])
    ensures ReadHeader(bytes, o, limits).Ok? ==>
              ReadHeader(bytes, o, limits).value.length == |r.payload|
              && ReadHeader(bytes, o, limits).value.payloadCrc != Crc(r.payload)
  {
    hide LittleEndian, Crc, IntAt;
    var a, b := LittleEndian(Crc(Fields(r)), 4), LittleEndian(Crc(r.payload), 4);
    var damaged := b[p - 36 := x];
    assert HeaderBytes(r)[p := x] == Fields(r) + (a + damaged);
    AtSplit(bytes, o, Fields(r), a + damaged);
    AtSplit(bytes, o + 32, a, damaged);
    FieldsAt(bytes, o, r);
    DamagedInt(bytes, o + 36, Crc(r.payload), p - 36, x);
  }

  lemma {:induction false} DamagedPadding(bytes: Bytes, o: nat, n: nat, p: nat, x: byte)
    requires n < 8 && (o + n) % 8 == 0 && p < n && x != 0
    requires At(bytes, o, Zeros(n)[p := x])
    ensures SkipPadding(bytes, o) == Err(Format)
    decreases n
  {
    assert bytes[o] == bytes[o..o + n][0];
    if p > 0 {
      assert bytes[o + 1..o + n] == bytes[o..o + n][1..];
      DamagedPadding(bytes, o + 1, n - 1, p - 1, x);
    }
  }

  /** The byte at p lies in the padding of r. */
  predicate InPadding(r: Record, p: nat)
  {
    p >= Unpadded(r)
  }

  lemma {:induction false} DamagedInHeader(bytes: Bytes, o: nat, r: Record, p: nat, x: byte, limits: Limits)
    requires |r.payload| <= limits.maxRecordBytes
    requires p < RECORD_HEADER_BYTES && x != HeaderBytes(r)[p]
    requires At(bytes, o, HeaderBytes(r)[p := x])
    requires At(bytes, o + RECORD_HEADER_BYTES, r.payload)
    ensures DecodeRecord(bytes, o, limits).Err?
    ensures DecodeRecord(bytes, o, limits).error != Format
  {
    HeaderParts(r);
    hide HeaderBytes, ReadHeader, Crc, SkipPadding, Fields, KindOf;
    if p < 32 {
      DamagedFields(bytes, o, r, p, x, limits);
    } else if p < 36 {
      DamagedHeaderCrc(bytes, o, r, p, x, limits);
    } else {
      DamagedPayloadCrc(bytes, o, r, p, x, limits);
    }
  }

  lemma {:induction false} DamagedInPayload(bytes: Bytes, o: nat, r: Record, q: nat, x: byte, limits: Limits)
    requires |r.payload| <= limits.maxRecordBytes
    requires q < |r.payload| && x != r.payload[q]
    requires At(bytes, o, HeaderBytes(r))
    requires At(bytes, o + RECORD_HEADER_BYTES, r.payload[q := x])
    ensures DecodeRecord(bytes, o, limits) == Err(Integrity)
  {
    hide HeaderBytes, ReadHeader, Crc, SkipPadding, KindCode, KindOf;
    HeaderAt(bytes, o, r, limits);
    SingleByteDetected(r.payload, q, x);
  }

  lemma {:induction false} DamagedInPadding(bytes: Bytes, o: nat, r: Record, q: nat, x: byte, limits: Limits)
    requires o % 8 == 0 && |r.payload| <= limits.maxRecordBytes
    requires q < PaddingFor(Unpadded(r)) && x != 0
    requires At(bytes, o, HeaderBytes(r))
    requires At(bytes, o + RECORD_HEADER_BYTES, r.payload)
    requires At(bytes, o + Unpadded(r), Zeros(PaddingFor(Unpadded(r)))[q := x])
    ensures DecodeRecord(bytes, o, limits) == Err(Format)
  {
    hide HeaderBytes, ReadHeader, Crc, SkipPadding, Zeros, KindCode, KindOf;
    HeaderAt(bytes, o, r, limits);
    DamagedPadding(bytes, o + Unpadded(r), PaddingFor(Unpadded(r)), q, x);
  }

  /** A record with one wrong byte is never accepted, and only wrong padding reads as a format error. */
  lemma {:induction false} RecordDamaged(bytes: Bytes, o: nat, r: Record, p: nat, x: byte, limits: Limits)
    requires o % 8 == 0 && |r.payload| <= limits.maxRecordBytes
    requires p < |RecordBytes(r)| && x != RecordBytes(r)[p]
    requires At(bytes, o, RecordBytes(r)[p := x])
    ensures DecodeRecord(bytes, o, limits).Err?
    ensures DecodeRecord(bytes, o, limits).error == Format <==> InPadding(r, p)
  {
    hide HeaderBytes, DecodeRecord, Zeros, PaddingFor;
    RecordSize(r);
    var zeros := Zeros(PaddingFor(Unpadded(r)));
    var body := o + RECORD_HEADER_BYTES;
    var q := p - RECORD_HEADER_BYTES;
    if p < RECORD_HEADER_BYTES {
      var damaged := HeaderBytes(r)[p := x];
      assert RecordBytes(r)[p := x] == damaged + (r.payload + zeros);
      AtSplit(bytes, o, damaged, r.payload + zeros);
      AtSplit(bytes, body, r.payload, zeros);
      DamagedInHeader(bytes, o, r, p, x, limits);
    } else if q < |r.payload| {
      var damaged := r.payload[q := x];
      assert RecordBytes(r)[p := x] == HeaderBytes(r) + (damaged + zeros);
      AtSplit(bytes, o, HeaderBytes(r), damaged + zeros);
      AtSplit(bytes, body, damaged, zeros);
      DamagedInPayload(bytes, o, r, q, x, limits);
    } else {
      var damaged := zeros[q - |r.payload| := x];
      assert RecordBytes(r)[p := x] == HeaderBytes(r) + (r.payload + damaged);
      AtSplit(bytes, o, HeaderBytes(r), r.payload + damaged);
      AtSplit(bytes, body, r.payload, damaged);
      DamagedInPadding(bytes, o, r, q - |r.payload|, x, limits);
    }
  }

  lemma HeaderParts(r: Record)
    ensures forall p | 0 <= p < 32 :: HeaderBytes(r)[p] == Fields(r)[p]
  {
  }
}
