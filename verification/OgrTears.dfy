/**
 Tears inside a record. Nothing truncates them, and later appends continue behind them, so the reader finds the
 first bytes of one record followed by other records. Depending on where the tear lies it stops there quietly,
 refuses the whole file, or goes by a checksum over bytes of different records.
 */
module OgrTears {
  import opened Bytes
  import opened Results
  import opened Values
  import opened Crc32c
  import opened OgrCodec
  import opened OgrRecord
  import opened OgrLog
  import opened OgrSegments

  /** The header bytes up to the end of the header's own checksum. */
  const CHECKED_BYTES := 36

  /** Where the torn record starts. */
  function TornAt(segs: seq<Segment>): nat
  {
    SUPERBLOCK_BYTES + |SegmentsBytes(segs)|
  }

  /** What is there: the first bytes of the record and whatever was appended since. */
  function Remains(r: Record, cut: nat, rest: Bytes): Bytes
    requires cut <= |RecordBytes(r)|
  {
    RecordBytes(r)[..cut] + rest
  }

  /** A store, then some but not all bytes of a record, then nothing or bytes that begin with no zero. */
  ghost predicate IsTear(file: Bytes, segs: seq<Segment>, r: Record, cut: nat, rest: Bytes, limits: Limits)
  {
    && BeginsWith(file, segs, limits)
    && |r.payload| < TWO_64 && 0 < cut < |RecordBytes(r)|
    && file[TornAt(segs)..] == Remains(r, cut, rest)
    && (rest == [] || rest[0] != 0)
  }

  /**
   The reader takes the tear for the end: the header is still incomplete, or it is intact and the payload is
   still incomplete, or the padding is broken.
   */
  predicate Quiet(r: Record, cut: nat, rest: Bytes, limits: Limits)
  {
    var size := cut + |rest|;
    || size < RECORD_HEADER_BYTES
    || (CHECKED_BYTES <= cut && Readable(r, limits) && (size < Unpadded(r) || Unpadded(r) <= cut))
  }

  function HeaderObjection(m: Bytes, limits: Limits): Option<ErrorCode>
    requires |m| >= RECORD_HEADER_BYTES
  {
    if IntAt(m, 2, 2) != SCHEMA || IntAt(m, 4, 4) != 0 then Some(Unsupported)
    else if IntAt(m, 8, 8) > limits.maxRecordBytes then Some(ResourceLimit)
    else if Crc(m[..32]) != IntAt(m, 32, 4) then Some(Integrity)
    else None
  }

  /** The first check that a complete header, and then a complete payload, fails. */
  function Objection(r: Record, cut: nat, rest: Bytes, limits: Limits): (e: Option<ErrorCode>)
    requires cut <= |RecordBytes(r)|
    ensures e.Some? ==> e.value != Format
  {
    var m := Remains(r, cut, rest);
    if |m| < RECORD_HEADER_BYTES then None
    else if cut < CHECKED_BYTES then HeaderObjection(m, limits)
    else if !Readable(r, limits) then Some(ResourceLimit)
    else if cut < Unpadded(r) <= |m| && Crc(m[RECORD_HEADER_BYTES..Unpadded(r)]) != IntAt(m, 36, 4) then Some(Integrity)
    else None
  }

  /** A checksum is right although it covers bytes of different records. */
  predicate Coincides(r: Record, cut: nat, rest: Bytes)
    requires cut <= |RecordBytes(r)|
  {
    var m := Remains(r, cut, rest);
    && |m| >= RECORD_HEADER_BYTES
    && if cut < CHECKED_BYTES then Crc(m[..32]) == IntAt(m, 32, 4)
       else cut < Unpadded(r) <= |m| && Crc(m[RECORD_HEADER_BYTES..Unpadded(r)]) == IntAt(m, 36, 4)
  }

  /** Every tear is quiet, objected to, or saved by such a coincidence. */
  lemma OnlyChecksumsDecide(r: Record, cut: nat, rest: Bytes, limits: Limits)
    requires cut <= |RecordBytes(r)|
    ensures Quiet(r, cut, rest, limits) ==> Objection(r, cut, rest, limits).None?
    ensures !Quiet(r, cut, rest, limits) && Objection(r, cut, rest, limits).None? ==> Coincides(r, cut, rest)
  {
    hide RecordBytes, Crc, HeaderBytes;
  }

  // ---- what the record reader makes of the remains ----

  lemma {:induction false} TailSlice(bytes: Bytes, o: nat, m: Bytes, lo: nat, hi: nat)
    requires o <= |bytes| && bytes[o..] == m && lo <= hi <= |m|
    ensures o + |m| == |bytes| && bytes[o + lo..o + hi] == m[lo..hi]
  {
    assert bytes[o + lo..o + hi] == bytes[o..][lo..hi];
  }

  lemma {:induction false} ObjectedHeader(bytes: Bytes, o: nat, m: Bytes, limits: Limits)
    requires o <= |bytes| && bytes[o..] == m && |m| >= RECORD_HEADER_BYTES
    ensures HeaderObjection(m, limits).Some? ==> ReadHeader(bytes, o, limits) == Err(HeaderObjection(m, limits).value)
  {
    hide Crc, FromLittleEndian;
    TailSlice(bytes, o, m, 2, 4);
    TailSlice(bytes, o, m, 4, 8);
    TailSlice(bytes, o, m, 8, 16);
    TailSlice(bytes, o, m, 32, 36);
    TailSlice(bytes, o, m, 0, 32);
  }

  /** A header whose first 36 bytes are intact, whatever stands where the payload's checksum should. */
  lemma {:induction false} CheckedHeader(bytes: Bytes, o: nat, r: Record, limits: Limits)
    requires |r.payload| < TWO_64 && o + RECORD_HEADER_BYTES <= |bytes|
    requires At(bytes, o, HeaderBytes(r)[..CHECKED_BYTES])
    ensures ReadHeader(bytes, o, limits)
         == if Readable(r, limits) then Ok(HeaderOf(r).(payloadCrc := IntAt(bytes, o + 36, 4))) else Err(ResourceLimit)
  {
    hide LittleEndian, IntAt, Crc, Fields, Capacity;
    CapacityValues();
    var crc := LittleEndian(Crc(Fields(r)), 4);
    assert HeaderBytes(r)[..CHECKED_BYTES] == Fields(r) + crc;
    AtSplit(bytes, o, Fields(r), crc);
    TakeIntAt(bytes, o + 32, Crc(Fields(r)), 4);
    FieldsAt(bytes, o, r);
  }

  lemma {:induction false} KeptHeader(bytes: Bytes, o: nat, r: Record, cut: nat, rest: Bytes)
    requires CHECKED_BYTES <= cut <= |RecordBytes(r)| && o <= |bytes| && bytes[o..] == Remains(r, cut, rest)
    ensures At(bytes, o, HeaderBytes(r)[..CHECKED_BYTES])
  {
    hide HeaderBytes;
    TailSlice(bytes, o, Remains(r, cut, rest), 0, CHECKED_BYTES);
    assert Remains(r, cut, rest)[0..CHECKED_BYTES] == HeaderBytes(r)[..CHECKED_BYTES];
  }

  lemma {:induction false} BrokenPadding(bytes: Bytes, o: nat, n: nat, p: nat)
    requires n < 8 && (o + n) % 8 == 0 && p < n && o + p <= |bytes|
    requires At(bytes, o, Zeros(p)) && (o + p < |bytes| ==> bytes[o + p] != 0)
    ensures SkipPadding(bytes, o) == Err(Format)
    decreases p
  {
    if p > 0 {
      assert bytes[o] == bytes[o..o + p][0];
      assert bytes[o + 1..o + p] == bytes[o..o + p][1..];
      BrokenPadding(bytes, o + 1, n - 1, p - 1);
    }
  }

  /** A record whose padding ends early or runs into a nonzero byte reads as a format error. */
  lemma {:induction false} PaddingOverrun(bytes: Bytes, o: nat, r: Record, p: nat, limits: Limits)
    requires o % 8 == 0 && |r.payload| <= limits.maxRecordBytes && p < PaddingFor(Unpadded(r))
    requires At(bytes, o, HeaderBytes(r)) && At(bytes, o + RECORD_HEADER_BYTES, r.payload)
    requires At(bytes, o + Unpadded(r), Zeros(p))
    requires o + Unpadded(r) + p < |bytes| ==> bytes[o + Unpadded(r) + p] != 0
    ensures DecodeRecord(bytes, o, limits) == Err(Format)
  {
    hide HeaderBytes, ReadHeader, Crc, SkipPadding, Zeros, KindCode, KindOf, PaddingFor;
    HeaderAt(bytes, o, r, limits);
    AlignedSum(o, Unpadded(r) + PaddingFor(Unpadded(r)));
    BrokenPadding(bytes, o + Unpadded(r), PaddingFor(Unpadded(r)), p);
  }

  lemma {:induction false} TornInPadding(bytes: Bytes, o: nat, r: Record, cut: nat, rest: Bytes, limits: Limits)
    requires o % 8 == 0 && o <= |bytes| && Readable(r, limits) && Unpadded(r) <= cut < |RecordBytes(r)|
    requires bytes[o..] == Remains(r, cut, rest) && (rest == [] || rest[0] != 0)
    ensures DecodeRecord(bytes, o, limits) == Err(Format)
  {
    hide HeaderBytes, DecodeRecord, PaddingFor, Zeros;
    RecordSize(r);
    var p := cut - Unpadded(r);
    var zeros := Zeros(PaddingFor(Unpadded(r)))[..p];
    assert zeros == Zeros(p);
    assert RecordBytes(r)[..cut] == HeaderBytes(r) + (r.payload + zeros);
    TailAfter(bytes, o, RecordBytes(r)[..cut], rest);
    AtSplit(bytes, o, HeaderBytes(r), r.payload + zeros);
    AtSplit(bytes, o + RECORD_HEADER_BYTES, r.payload, zeros);
    assert o + cut < |bytes| ==> bytes[o + cut] == bytes[o + cut..][0];
    PaddingOverrun(bytes, o, r, p, limits);
  }

  lemma {:induction false} TailAfter(bytes: Bytes, o: nat, e: Bytes, tail: Bytes)
    requires o <= |bytes| && bytes[o..] == e + tail
    ensures At(bytes, o, e) && bytes[o + |e|..] == tail
  {
    assert bytes[o..o + |e|] == bytes[o..][..|e|];
    assert bytes[o + |e|..] == bytes[o..][|e|..];
  }

  lemma {:induction false} TornDecodes(bytes: Bytes, o: nat, r: Record, cut: nat, rest: Bytes, limits: Limits)
    requires o % 8 == 0 && o <= |bytes| && |r.payload| < TWO_64 && 0 < cut < |RecordBytes(r)|
    requires bytes[o..] == Remains(r, cut, rest) && (rest == [] || rest[0] != 0)
    ensures Quiet(r, cut, rest, limits) ==> DecodeRecord(bytes, o, limits) == Err(Format)
    ensures var e := Objection(r, cut, rest, limits); e.Some? ==> DecodeRecord(bytes, o, limits) == Err(e.value)
  {
    hide RecordBytes, ReadHeader, HeaderObjection, Crc, SkipPadding, KindCode, KindOf, IntAt, HeaderBytes;
    var m := Remains(r, cut, rest);
    TailSlice(bytes, o, m, 0, 0);
    if |m| < RECORD_HEADER_BYTES {
      CutInHeader(bytes, o, limits);
    } else if cut < CHECKED_BYTES {
      ObjectedHeader(bytes, o, m, limits);
    } else {
      KeptHeader(bytes, o, r, cut, rest);
      CheckedHeader(bytes, o, r, limits);
      if Readable(r, limits) && Unpadded(r) <= |m| {
        TailSlice(bytes, o, m, RECORD_HEADER_BYTES, Unpadded(r));
        SamePayloadCrc(bytes, o, m);
        if Unpadded(r) <= cut {
          TornInPadding(bytes, o, r, cut, rest, limits);
        }
      }
    }
  }

  lemma {:induction false} SamePayloadCrc(bytes: Bytes, o: nat, m: Bytes)
    requires o <= |bytes| && bytes[o..] == m && |m| >= RECORD_HEADER_BYTES
    ensures o + RECORD_HEADER_BYTES <= |bytes| && IntAt(bytes, o + 36, 4) == IntAt(m, 36, 4)
  {
    hide FromLittleEndian;
    TailSlice(bytes, o, m, 36, 40);
  }

  // ---- reading a torn file ----

  lemma ScanStops(bytes: Bytes, o: nat, s: ScanState, e: ErrorCode, limits: Limits)
    requires o < |bytes| && DecodeRecord(bytes, o, limits) == Err(e)
    ensures Scan(bytes, o, s, limits) == if e == Format then Ok(s.image) else Err(e)
  {
  }

  /**
   A quiet tear hides itself and everything behind it and nothing before it; an objection makes the whole file
   unreadable, the transactions before the tear included.
   */
  lemma {:induction false} TearReads(file: Bytes, segs: seq<Segment>, r: Record, cut: nat, rest: Bytes, limits: Limits)
    requires IsTear(file, segs, r, cut, rest, limits)
    ensures Quiet(r, cut, rest, limits) ==> ReadStore(file, limits) == Ok(ImageOf(Committed(segs)))
    ensures var e := Objection(r, cut, rest, limits); e.Some? ==> ReadStore(file, limits) == Err(e.value)
  {
    hide Scan, ReadStore, BeginsWith, SegmentsBytes, StateAfter, Committed, ImageOf, DecodeRecord, RecordBytes, Quiet;
    ReadPast(file, segs, limits);
    var o, s, e := TornAt(segs), StateAfter(segs), Objection(r, cut, rest, limits);
    TailSlice(file, o, Remains(r, cut, rest), 0, 0);
    TornDecodes(file, o, r, cut, rest, limits);
    if Quiet(r, cut, rest, limits) {
      ScanStops(file, o, s, Format, limits);
    }
    if e.Some? {
      ScanStops(file, o, s, e.value, limits);
    }
  }

  // ---- appending behind a tear ----

  lemma {:induction false} TearGrows(file: Bytes, more: Bytes, segs: seq<Segment>, r: Record, cut: nat, rest: Bytes,
                                     limits: Limits)
    requires IsTear(file, segs, r, cut, rest, limits) && |more| > 0 && more[0] != 0
    ensures IsTear(file + more, segs, r, cut, rest + more, limits)
  {
    hide SegmentsBytes, AllAcceptable, ValidateSuperblock, RecordBytes;
    ValidatePrefix(file + more, file);
    AtLonger(file, more, SUPERBLOCK_BYTES, SegmentsBytes(segs));
    assert (file + more)[TornAt(segs)..] == file[TornAt(segs)..] + more;
  }

  lemma {:induction false} TearPatched(file: Bytes, latest: u64, count: nat, segs: seq<Segment>, r: Record, cut: nat,
                                       rest: Bytes, limits: Limits)
    requires IsTear(file, segs, r, cut, rest, limits)
    ensures IsTear(Superblock(1, latest, count) + file[SUPERBLOCK_BYTES..], segs, r, cut, rest, limits)
  {
    hide SegmentsBytes, AllAcceptable, ValidateSuperblock, Superblock, RecordBytes;
    var patched, end := Superblock(1, latest, count) + file[SUPERBLOCK_BYTES..], TornAt(segs);
    SuperblockValid(1, latest, count, file[SUPERBLOCK_BYTES..]);
    assert patched[SUPERBLOCK_BYTES..end] == file[SUPERBLOCK_BYTES..end];
    assert patched[end..] == file[end..];
  }

  /** The begin record's type, schema and flags: the first eight bytes of every transaction. */
  const TXN_START: Bytes := [1, 0, 1, 0, 0, 0, 0, 0]

  predicate StartsLikeTxn(rest: Bytes)
  {
    |rest| >= RECORD_HEADER_BYTES && rest[..8] == TXN_START
  }

  lemma {:induction false} TxnStart(t: Txn)
    ensures StartsLikeTxn(TxnBytes(t)) && TxnBytes(t)[0] == 1
  {
    hide Crc, MutationRecords;
    var first := BeginRecord(t);
    var tail := RecordsBytes(Group(t)[1..]);
    assert Group(t)[0] == first;
    assert TxnBytes(t) == RecordBytes(first) + tail;
    StartOfFields(first);
    assert TxnBytes(t)[..8] == Fields(first)[..8];
    assert TxnBytes(t)[0] == TxnBytes(t)[..8][0];
  }

  /** Type, schema and flags take the first eight header bytes. */
  lemma {:induction false} StartOfFields(r: Record)
    ensures Fields(r)[..8] == [KindCode(r.kind), 0, 1, 0, 0, 0, 0, 0]
    ensures HeaderBytes(r)[..8] == Fields(r)[..8]
  {
    hide Crc;
    SmallLittleEndian(KindCode(r.kind));
    SmallLittleEndian(SCHEMA);
    ZeroFlags();
  }

  lemma {:induction false} SmallLittleEndian(v: nat)
    requires v < 256
    ensures LittleEndian(v, 2) == [v, 0]
  {
    assert LittleEndian(0, 1) == [0];
  }

  lemma {:induction false} ZeroFlags()
    ensures LittleEndian(0, 4) == [0, 0, 0, 0]
  {
    assert LittleEndian(0, 4) == [0] + LittleEndian(0, 3) == [0, 0] + LittleEndian(0, 2);
    assert LittleEndian(0, 2) == [0, 0];
  }

  /**
   An append behind a tear writes its bytes if the writer accepts the transaction. It is reported as a success
   and never read as long as the tear stays quiet; once there is an objection the append fails with it and the
   file cannot be read any more.
   */
  lemma {:induction false} AppendBehindTear(file: Bytes, segs: seq<Segment>, r: Record, cut: nat, rest: Bytes, next: Txn,
                                            limits: Limits)
    requires IsTear(file, segs, r, cut, rest, limits) && WellSized(next)
    ensures |file| >= SUPERBLOCK_BYTES
    ensures var (longer, result) := Append(file, next, limits);
            var more := rest + TxnBytes(next);
            var e := Objection(r, cut, more, limits);
            if !Writable(next, limits) then longer == file && result.Err?
            else
              && IsTear(longer, segs, r, cut, more, limits)
              && (Quiet(r, cut, more, limits) ==>
                    result == Ok(()) && ReadStore(longer, limits) == Ok(ImageOf(Committed(segs))))
              && (e.Some? ==> result == Err(e.value) && ReadStore(longer, limits) == Err(e.value))
  {
    hide ReadStore, Group, TxnBytes, FirstRefusal, MutationEncodes, Superblock, ImageOf, Quiet, Objection, IsTear,
      MutationPayload, Committed;
    NoRefusal(next.mutations, limits);
    TearLength(file, segs, r, cut, rest, limits);
    if Writable(next, limits) {
      var longer, more := file + TxnBytes(next), rest + TxnBytes(next);
      TxnStart(next);
      TearGrows(file, TxnBytes(next), segs, r, cut, rest, limits);
      TearReads(longer, segs, r, cut, more, limits);
      var image := ReadStore(longer, limits);
      if image.Ok? {
        TearPatched(longer, image.value.latest, |Group(next)|, segs, r, cut, more, limits);
        var patched := Superblock(1, image.value.latest, |Group(next)|) + longer[SUPERBLOCK_BYTES..];
        TearReads(patched, segs, r, cut, more, limits);
      }
    }
  }

  lemma TearLength(file: Bytes, segs: seq<Segment>, r: Record, cut: nat, rest: Bytes, limits: Limits)
    requires IsTear(file, segs, r, cut, rest, limits)
    ensures |file| >= SUPERBLOCK_BYTES && 0 < cut < |RecordBytes(r)|
  {
  }

  // ---- which tears are which ----

  /** Nothing appended yet: quiet wherever the tear is, unless the reader refuses the record for its size. */
  lemma FreshTearQuiet(r: Record, cut: nat, limits: Limits)
    ensures Quiet(r, cut, [], limits) <==> cut < RECORD_HEADER_BYTES || Readable(r, limits)
  {
  }

  lemma {:induction false} NonzeroByte(b: Bytes, i: nat)
    requires i < |b| && b[i] != 0
    ensures FromLittleEndian(b) >= Capacity(i)
  {
    if i > 0 {
      NonzeroByte(b[1..], i - 1);
    }
  }

  /** The byte of schema or flags that a transaction starting k bytes too late spoils. */
  function SpoiledByte(k: nat): nat
  {
    if k == 1 then 3 else if k < 4 then k + 2 else k
  }

  /** One to seven header bytes followed by a transaction: schema or flags come out wrong. */
  lemma {:induction false} TornInSchema(r: Record, cut: nat, rest: Bytes, limits: Limits)
    requires 1 <= cut <= 7 && StartsLikeTxn(rest)
    ensures cut <= |RecordBytes(r)| && Objection(r, cut, rest, limits) == Some(Unsupported)
  {
    hide HeaderBytes, Crc, KindCode, FromLittleEndian, Capacity;
    CapacityValues();
    var m, q := Remains(r, cut, rest), SpoiledByte(cut);
    assert m[q] == rest[q - cut] == rest[..8][q - cut] == TXN_START[q - cut] == 1;
    if cut == 1 {
      assert m[2..4][1] == 1;
      NonzeroByte(m[2..4], 1);
    } else {
      assert m[4..8][q - 4] == 1;
      NonzeroByte(m[4..8], q - 4);
    }
  }

  /** Ten to fifteen header bytes followed by a transaction: the length comes out at 2^32 or more. */
  lemma {:induction false} TornInLength(r: Record, cut: nat, rest: Bytes, limits: Limits)
    requires 10 <= cut <= 15 && StartsLikeTxn(rest) && limits.maxRecordBytes < 0x1_0000_0000
    ensures cut <= |RecordBytes(r)| && Objection(r, cut, rest, limits) == Some(ResourceLimit)
  {
    hide RecordBytes, HeaderBytes, Crc, FromLittleEndian, Capacity;
    RecordSize(r);
    var m, k := Remains(r, cut, rest), if cut < 12 then cut + 2 else cut;
    assert m[k] == rest[k - cut] == rest[..8][k - cut] == TXN_START[k - cut] == 1;
    assert m[8..16][k - 8] == 1;
    NonzeroByte(m[8..16], k - 8);
    LargeCapacity(k - 8);
    KeptSchema(r, cut, rest);
  }

  lemma {:induction false} LargeCapacity(n: nat)
    requires n >= 4
    ensures Capacity(n) >= 0x1_0000_0000
  {
    if n == 4 {
      CapacityValues();
    } else {
      LargeCapacity(n - 1);
    }
  }

  lemma {:induction false} KeptSchema(r: Record, cut: nat, rest: Bytes)
    requires 8 <= cut <= |RecordBytes(r)| && cut + |rest| >= RECORD_HEADER_BYTES
    ensures var m := Remains(r, cut, rest); IntAt(m, 2, 2) == SCHEMA && IntAt(m, 4, 4) == 0
  {
    hide HeaderBytes, IntAt, Capacity, Crc, LittleEndian;
    CapacityValues();
    var m := Remains(r, cut, rest);
    StartOfFields(r);
    assert m[..8] == HeaderBytes(r)[..8];
    assert m[2..4] == m[..8][2..4] == [1, 0] && m[4..8] == m[..8][4..8] == [0, 0, 0, 0];
    SmallLittleEndian(SCHEMA);
    ZeroFlags();
    TakeIntAt(m, 2, SCHEMA, 2);
    TakeIntAt(m, 4, 0, 4);
  }

  lemma {:induction false} KeptLength(r: Record, cut: nat, rest: Bytes)
    requires 16 <= cut <= |RecordBytes(r)| && cut + |rest| >= RECORD_HEADER_BYTES && |r.payload| < TWO_64
    ensures IntAt(Remains(r, cut, rest), 8, 8) == |r.payload|
  {
    hide IntAt, Capacity, Crc, LittleEndian;
    CapacityValues();
    var m := Remains(r, cut, rest);
    var start := LittleEndian(KindCode(r.kind), 2) + LittleEndian(SCHEMA, 2) + LittleEndian(0, 4);
    var length := LittleEndian(|r.payload|, 8);
    assert Fields(r)[..16] == start + length;
    assert m[..16] == m[0..16] == start + length;
    AtSplit(m, 0, start, length);
    TakeIntAt(m, 8, |r.payload|, 8);
  }

  /**
   Eight to 35 header bytes: schema and flags are intact, so length and header checksum decide; from 16 bytes on
   the length is intact too.
   */
  lemma {:induction false} TornInHeader(r: Record, cut: nat, rest: Bytes, limits: Limits)
    requires 8 <= cut < CHECKED_BYTES && cut <= |RecordBytes(r)| && cut + |rest| >= RECORD_HEADER_BYTES
    ensures 16 <= cut && |r.payload| < TWO_64 ==> IntAt(Remains(r, cut, rest), 8, 8) == |r.payload|
    ensures var m := Remains(r, cut, rest);
            Objection(r, cut, rest, limits)
              == if IntAt(m, 8, 8) > limits.maxRecordBytes then Some(ResourceLimit)
                 else if Crc(m[..32]) != IntAt(m, 32, 4) then Some(Integrity)
                 else None
  {
    hide RecordBytes, IntAt, Crc;
    KeptSchema(r, cut, rest);
    if 16 <= cut && |r.payload| < TWO_64 {
      KeptLength(r, cut, rest);
    }
  }

  lemma {:induction false} KeptFields(r: Record, cut: nat, rest: Bytes)
    requires 32 <= cut < CHECKED_BYTES && cut <= |RecordBytes(r)| && cut + |rest| >= RECORD_HEADER_BYTES
    ensures var m := Remains(r, cut, rest);
            && m[..32] == Fields(r)
            && m[32..36] == LittleEndian(Crc(Fields(r)), 4)[..cut - 32] + rest[..CHECKED_BYTES - cut]
  {
    hide Fields, Crc, LittleEndian, IntAt;
    var m := Remains(r, cut, rest);
    assert m[..32] == m[0..32] == Fields(r);
    assert RecordBytes(r)[..cut] == Fields(r) + LittleEndian(Crc(Fields(r)), 4)[..cut - 32];
  }

  /** A tear in the header's checksum goes unnoticed exactly when the appended bytes continue it. */
  lemma {:induction false} TornInHeaderChecksum(r: Record, cut: nat, rest: Bytes, limits: Limits)
    requires 32 <= cut < CHECKED_BYTES && cut + |rest| >= RECORD_HEADER_BYTES && Readable(r, limits)
    ensures cut <= |RecordBytes(r)|
    ensures Objection(r, cut, rest, limits)
         == if rest[..CHECKED_BYTES - cut] == HeaderBytes(r)[cut..CHECKED_BYTES] then None else Some(Integrity)
  {
    hide Fields, Crc, IntAt, RecordBytes, LittleEndian;
    RecordSize(r);
    KeptFields(r, cut, rest);
    TornInHeader(r, cut, rest, limits);
    var m, own := Remains(r, cut, rest), LittleEndian(Crc(Fields(r)), 4);
    assert HeaderBytes(r)[cut..CHECKED_BYTES] == own[cut - 32..];
    assert own == own[..cut - 32] + own[cut - 32..];
    SameInt(m, 32, Crc(Fields(r)));
    if m[32..36] == own {
      assert rest[..CHECKED_BYTES - cut] == m[32..36][cut - 32..] == own[cut - 32..];
    }
  }

  lemma {:induction false} SameInt(m: Bytes, o: nat, v: u32)
    requires o + 4 <= |m|
    ensures IntAt(m, o, 4) == v <==> m[o..o + 4] == LittleEndian(v, 4)
  {
    hide LittleEndian, FromLittleEndian, Capacity;
    CapacityValues();
    LittleEndianOnto(m[o..o + 4]);
    LittleEndianRoundTrip(v, 4);
  }

  /** The torn payload followed by what stands where its missing bytes should. */
  function Patched(r: Record, cut: nat, rest: Bytes): Bytes
    requires RECORD_HEADER_BYTES <= cut < Unpadded(r) <= cut + |rest|
  {
    r.payload[..cut - RECORD_HEADER_BYTES] + rest[..Unpadded(r) - cut]
  }

  lemma {:induction false} PatchedRemains(r: Record, cut: nat, rest: Bytes)
    requires RECORD_HEADER_BYTES <= cut < Unpadded(r) <= cut + |rest|
    ensures cut <= |RecordBytes(r)|
    ensures Remains(r, cut, rest)[RECORD_HEADER_BYTES..Unpadded(r)] == Patched(r, cut, rest)
    ensures IntAt(Remains(r, cut, rest), 36, 4) == Crc(r.payload)
  {
    hide Crc, LittleEndian, Fields, IntAt, PaddingFor, Zeros;
    var kept := r.payload[..cut - RECORD_HEADER_BYTES];
    assert RecordBytes(r)[..cut] == HeaderBytes(r) + kept;
    var m := Remains(r, cut, rest);
    assert m[..RECORD_HEADER_BYTES] == HeaderBytes(r);
    assert m[RECORD_HEADER_BYTES..] == kept + rest;
    assert m[0..RECORD_HEADER_BYTES] == HeaderBytes(r);
    ChecksumsAt(m, 0, r);
  }

  /** A tear in a payload, once enough bytes follow: the checksum of the patched payload decides. */
  lemma {:induction false} TornInPayload(r: Record, cut: nat, rest: Bytes, limits: Limits)
    requires RECORD_HEADER_BYTES <= cut < Unpadded(r) <= cut + |rest| && Readable(r, limits)
    ensures cut <= |RecordBytes(r)|
    ensures Objection(r, cut, rest, limits)
         == if Crc(Patched(r, cut, rest)) == Crc(r.payload) then None else Some(Integrity)
  {
    hide Crc, RecordBytes, Patched, IntAt;
    PatchedRemains(r, cut, rest);
  }

  /** With at most four payload bytes missing, it goes unnoticed exactly when the appended bytes continue it. */
  lemma {:induction false} TornInPayloadEnd(r: Record, cut: nat, rest: Bytes, limits: Limits)
    requires RECORD_HEADER_BYTES <= cut < Unpadded(r) <= cut + |rest| && Readable(r, limits)
    requires Unpadded(r) - cut <= 4
    ensures cut <= |RecordBytes(r)|
    ensures Objection(r, cut, rest, limits)
         == if rest[..Unpadded(r) - cut] == r.payload[cut - RECORD_HEADER_BYTES..] then None else Some(Integrity)
  {
    hide Crc, RecordBytes, Objection;
    TornInPayload(r, cut, rest, limits);
    var q, missing := cut - RECORD_HEADER_BYTES, Unpadded(r) - cut;
    var patched := Patched(r, cut, rest);
    assert r.payload == r.payload[..q] + r.payload[q..];
    if patched == r.payload {
      assert rest[..missing] == patched[q..] == r.payload[q..];
    } else {
      BurstDetected(patched, r.payload, q);
    }
  }

  // ---- the consequences for appends ----

  lemma WritableIsSized(t: Txn, limits: Limits)
    requires Writable(t, limits)
    ensures WellSized(t)
  {
  }

  /**
   A tear in the first seven header bytes, or in bytes 10 to 15: every append that the writer accepts fails, and
   from the first one on the whole file cannot be read.
   */
  lemma {:induction false} TornHeaderBlocksAppends(file: Bytes, segs: seq<Segment>, r: Record, cut: nat, rest: Bytes,
                                                   next: Txn, limits: Limits)
    requires IsTear(file, segs, r, cut, rest, limits) && (rest == [] || StartsLikeTxn(rest))
    requires Writable(next, limits)
    requires cut <= 7 || (10 <= cut <= 15 && limits.maxRecordBytes < 0x1_0000_0000)
    ensures |file| >= SUPERBLOCK_BYTES
    ensures var (longer, result) := Append(file, next, limits);
            var e := if cut <= 7 then Unsupported else ResourceLimit;
            && result == Err(e) && ReadStore(longer, limits) == Err(e)
            && IsTear(longer, segs, r, cut, rest + TxnBytes(next), limits) && StartsLikeTxn(rest + TxnBytes(next))
  {
    hide IsTear, Append, TxnBytes, ReadStore, Objection, Writable, WellSized, ImageOf, Committed, Quiet, RecordBytes;
    var more := rest + TxnBytes(next);
    TearLength(file, segs, r, cut, rest, limits);
    TxnStart(next);
    assert more[..8] == if rest == [] then TxnBytes(next)[..8] else rest[..8];
    if cut <= 7 {
      TornInSchema(r, cut, more, limits);
    } else {
      TornInLength(r, cut, more, limits);
    }
    WritableIsSized(next, limits);
    AppendBehindTear(file, segs, r, cut, rest, next, limits);
  }

  /**
   A tear in padding, or one with an intact header and a payload that stays incomplete: every append that the
   writer accepts is reported as a success and never read.
   */
  lemma {:induction false} TearLosesAppends(file: Bytes, segs: seq<Segment>, r: Record, cut: nat, rest: Bytes, next: Txn,
                                            limits: Limits)
    requires IsTear(file, segs, r, cut, rest, limits) && Readable(r, limits) && CHECKED_BYTES <= cut
    requires Unpadded(r) <= cut || cut + |rest| + |TxnBytes(next)| < Unpadded(r)
    requires Writable(next, limits)
    ensures |file| >= SUPERBLOCK_BYTES
    ensures var (longer, result) := Append(file, next, limits);
            && result == Ok(()) && IsTear(longer, segs, r, cut, rest + TxnBytes(next), limits)
            && ReadStore(longer, limits) == ReadStore(file, limits) == Ok(ImageOf(Committed(segs)))
  {
    hide IsTear, Append, TxnBytes, ReadStore, Objection, Writable, WellSized, ImageOf, Committed, RecordBytes;
    TearLength(file, segs, r, cut, rest, limits);
    TearReads(file, segs, r, cut, rest, limits);
    WritableIsSized(next, limits);
    AppendBehindTear(file, segs, r, cut, rest, next, limits);
  }

  /**
   A tear behind the checked header bytes, when an append supplies the payload bytes that were still missing: it
   fails and makes the file unreadable, unless the payload checksum happens to be right.
   */
  lemma {:induction false} TornPayloadEndsReading(file: Bytes, segs: seq<Segment>, r: Record, cut: nat, rest: Bytes,
                                                  next: Txn, limits: Limits)
    requires IsTear(file, segs, r, cut, rest, limits) && Readable(r, limits)
    requires CHECKED_BYTES <= cut < Unpadded(r) <= cut + |rest + TxnBytes(next)|
    requires cut <= |RecordBytes(r)| && !Coincides(r, cut, rest + TxnBytes(next))
    requires Writable(next, limits)
    ensures |file| >= SUPERBLOCK_BYTES
    ensures var (longer, result) := Append(file, next, limits);
            result == Err(Integrity) && ReadStore(longer, limits) == Err(Integrity)
  {
    hide IsTear, Append, TxnBytes, ReadStore, Writable, WellSized, ImageOf, Committed, RecordBytes, Crc, IntAt;
    TearLength(file, segs, r, cut, rest, limits);
    WritableIsSized(next, limits);
    OnlyChecksumsDecide(r, cut, rest + TxnBytes(next), limits);
    AppendBehindTear(file, segs, r, cut, rest, next, limits);
  }
}
