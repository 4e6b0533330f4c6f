/**
 The payload encodings of the OGR format as functions on byte strings, and the proof that reading
 undoes writing at any place in a larger string.
 */
module OgrCodec {
  import opened Bytes
  import opened Results
  import opened Values

  // ---- writing ----

  predicate StringFits(s: Text, limits: Limits)
  {
    |s| <= limits.maxStringBytes && |s| < 0x1_0000_0000
  }

  predicate ValueFits(v: Value, limits: Limits)
  {
    v.TextValue? ==> StringFits(v.text, limits)
  }

  predicate EntriesFit(ps: seq<Property>, limits: Limits)
  {
    forall p | p in ps :: StringFits(p.key, limits) && ValueFits(p.value, limits)
  }

  predicate PropertiesFit(ps: PropertyMap, limits: Limits)
  {
    |ps| <= limits.maxProperties && |ps| < 0x1_0000_0000 && EntriesFit(ps, limits)
  }

  function StringBytes(s: Text): Bytes
  {
    LittleEndian(|s|, 4) + s
  }

  function ValueBytes(v: Value): Bytes
  {
    match v
    case BoolValue(flag) => [1, if flag then 1 else 0]
    case IntValue(number) => [2] + LittleEndian(ToUnsigned(number), 8)
    case DoubleValue(bits) => [3] + LittleEndian(bits, 8)
    case TextValue(text) => [4] + StringBytes(text)
  }

  function EntryBytes(p: Property): Bytes
  {
    StringBytes(p.key) + ValueBytes(p.value)
  }

  function EntriesBytes(ps: seq<Property>): Bytes
  {
    if |ps| == 0 then [] else EntryBytes(ps[0]) + EntriesBytes(ps[1..])
  }

  lemma {:induction false} EntriesPushBack(ps: seq<Property>, p: Property)
    ensures EntriesBytes(ps + [p]) == EntriesBytes(ps) + EntryBytes(p)
  {
    hide EntryBytes;
    if |ps| == 0 {
      assert ps + [p] == [p];
      assert EntriesBytes([]) == [];
    } else {
      EntriesPushBack(ps[1..], p);
      assert (ps + [p])[1..] == ps[1..] + [p];
    }
  }

  function PropertiesBytes(ps: PropertyMap): Bytes
  {
    LittleEndian(|ps|, 4) + EntriesBytes(ps)
  }

  function FlagByte(flag: bool): byte
  {
    if flag then 1 else 0
  }

  function NodeFixed(node: Node, tombstone: bool): Bytes
  {
    LittleEndian(node.id, 8) + (LittleEndian(ToUnsigned(node.interval.start), 8)
    + (LittleEndian(ToUnsigned(node.interval.end), 8) + [FlagByte(tombstone)]))
  }

  function NodeBytes(node: Node, tombstone: bool): Bytes
  {
    NodeFixed(node, tombstone) + (StringBytes(node.body.labelText) + PropertiesBytes(node.properties))
  }

  function EdgeFixed(edge: Edge, tombstone: bool): Bytes
  {
    LittleEndian(edge.id, 8) + (LittleEndian(edge.body.from, 8) + (LittleEndian(edge.body.to, 8)
    + (LittleEndian(ToUnsigned(edge.interval.start), 8)
    + (LittleEndian(ToUnsigned(edge.interval.end), 8) + [FlagByte(tombstone)]))))
  }

  function EdgeBytes(edge: Edge, tombstone: bool): Bytes
  {
    EdgeFixed(edge, tombstone) + (StringBytes(edge.body.kind) + PropertiesBytes(edge.properties))
  }

  /** What the writer checks before it encodes a version, first failure first. */
  function EncodeNode(node: Node, tombstone: bool, limits: Limits): Result<Bytes>
  {
    if node.id == 0 then Err(Format)
    else if !tombstone && node.body.labelText == [] then Err(Format)
    else if !tombstone && !node.interval.Valid() then Err(Temporal)
    else if !StringFits(node.body.labelText, limits) then Err(ResourceLimit)
    else if !PropertiesFit(node.properties, limits) then Err(ResourceLimit)
    else Ok(NodeBytes(node, tombstone))
  }

  function EncodeEdge(edge: Edge, tombstone: bool, limits: Limits): Result<Bytes>
  {
    if edge.id == 0 then Err(Format)
    else if !tombstone && (edge.body.from == 0 || edge.body.to == 0) then Err(Format)
    else if !tombstone && edge.body.kind == [] then Err(Format)
    else if !tombstone && !edge.interval.Valid() then Err(Temporal)
    else if !StringFits(edge.body.kind, limits) then Err(ResourceLimit)
    else if !PropertiesFit(edge.properties, limits) then Err(ResourceLimit)
    else Ok(EdgeBytes(edge, tombstone))
  }

  // ---- reading ----

  /** A value read from a byte string and the offset just after it. */
  datatype Taken<+T> = Taken(value: T, next: nat)

  function IntAt(bytes: Bytes, o: nat, width: nat): (v: nat)
    requires o + width <= |bytes|
    ensures v < Capacity(width)
  {
    FromLittleEndian(bytes[o..o + width])
  }

  function TakeInt(bytes: Bytes, o: nat, width: nat): (r: Result<Taken<nat>>)
    ensures r.Ok? ==> r.value.next == o + width <= |bytes| && r.value.value < Capacity(width)
  {
    if o + width > |bytes| then Err(Format) else Ok(Taken(IntAt(bytes, o, width), o + width))
  }

  function TakeU64(bytes: Bytes, o: nat): (r: Result<Taken<u64>>)
    ensures r.Ok? ==> r.value.next == o + 8 <= |bytes|
  {
    CapacityValues();
    var raw :- TakeInt(bytes, o, 8);
    Ok(Taken(raw.value, raw.next))
  }

  function TakeU32(bytes: Bytes, o: nat): (r: Result<Taken<u32>>)
    ensures r.Ok? ==> r.value.next == o + 4 <= |bytes|
  {
    CapacityValues();
    var raw :- TakeInt(bytes, o, 4);
    Ok(Taken(raw.value, raw.next))
  }

  function TakeI64(bytes: Bytes, o: nat): (r: Result<Taken<i64>>)
    ensures r.Ok? ==> r.value.next == o + 8 <= |bytes|
  {
    var raw :- TakeU64(bytes, o);
    Ok(Taken(ToSigned(raw.value), raw.next))
  }

  function TakeU8(bytes: Bytes, o: nat): (r: Result<Taken<byte>>)
    ensures r.Ok? ==> r.value.next == o + 1 <= |bytes|
  {
    if o + 1 > |bytes| then Err(Format) else Ok(Taken(bytes[o], o + 1))
  }

  function TakeString(bytes: Bytes, o: nat, limits: Limits): (r: Result<Taken<Text>>)
    ensures r.Ok? ==> o < r.value.next <= |bytes|
  {
    var size :- TakeU32(bytes, o);
    if size.value > limits.maxStringBytes || size.next + size.value > |bytes| then Err(Format)
    else Ok(Taken(bytes[size.next..size.next + size.value], size.next + size.value))
  }

  function TakeValue(bytes: Bytes, o: nat, limits: Limits): (r: Result<Taken<Value>>)
    ensures r.Ok? ==> o < r.value.next <= |bytes|
  {
    var tag :- TakeU8(bytes, o);
    if tag.value == 1 then
      var raw :- TakeU8(bytes, tag.next);
      Ok(Taken(BoolValue(raw.value != 0), raw.next))
    else if tag.value == 2 then
      var raw :- TakeI64(bytes, tag.next);
      Ok(Taken(IntValue(raw.value), raw.next))
    else if tag.value == 3 then
      var raw :- TakeU64(bytes, tag.next);
      if Finite(raw.value) then Ok(Taken(DoubleValue(raw.value), raw.next)) else Err(Format)
    else if tag.value == 4 then
      var raw :- TakeString(bytes, tag.next, limits);
      Ok(Taken(TextValue(raw.value), raw.next))
    else Err(Unsupported)
  }

  function TakeEntries(bytes: Bytes, o: nat, count: nat, acc: PropertyMap, limits: Limits)
    : (r: Result<Taken<PropertyMap>>)
    requires o <= |bytes|
    ensures r.Ok? ==> o <= r.value.next <= |bytes|
    decreases count
  {
    if count == 0 then Ok(Taken(acc, o)) else
    var key :- TakeString(bytes, o, limits);
    var value :- TakeValue(bytes, key.next, limits);
    if HasKey(acc, key.value) then Err(Format)
    else TakeEntries(bytes, value.next, count - 1, Emplace(acc, Property(key.value, value.value)), limits)
  }

  function TakeProperties(bytes: Bytes, o: nat, limits: Limits): (r: Result<Taken<PropertyMap>>)
    ensures r.Ok? ==> o < r.value.next <= |bytes|
  {
    var count :- TakeU32(bytes, o);
    if count.value > limits.maxProperties then Err(ResourceLimit)
    else TakeEntries(bytes, count.next, count.value, [], limits)
  }

  function DecodeNode(payload: Bytes, commit: u64, limits: Limits): Result<(Node, bool)>
  {
    var id :- TakeU64(payload, 0);
    var start :- TakeI64(payload, id.next);
    var end :- TakeI64(payload, start.next);
    var flag :- TakeU8(payload, end.next);
    var name :- TakeString(payload, flag.next, limits);
    var properties :- TakeProperties(payload, name.next, limits);
    var interval := Interval(start.value, end.value);
    if properties.next != |payload| then Err(Format)
    else if flag.value == 0 && !interval.Valid() then Err(Temporal)
    else Ok((View(id.value, interval, properties.value, commit, NodeBody(name.value)), flag.value != 0))
  }

  function DecodeEdge(payload: Bytes, commit: u64, limits: Limits): Result<(Edge, bool)>
  {
    var id :- TakeU64(payload, 0);
    var from :- TakeU64(payload, id.next);
    var to :- TakeU64(payload, from.next);
    var start :- TakeI64(payload, to.next);
    var end :- TakeI64(payload, start.next);
    var flag :- TakeU8(payload, end.next);
    var name :- TakeString(payload, flag.next, limits);
    var properties :- TakeProperties(payload, name.next, limits);
    var interval := Interval(start.value, end.value);
    if properties.next != |payload| then Err(Format)
    else if flag.value == 0 && !interval.Valid() then Err(Temporal)
    else Ok((View(id.value, interval, properties.value, commit, EdgeBody(from.value, to.value, name.value)),
             flag.value != 0))
  }

  // ---- reading undoes writing ----

  /** The reader alone insists on finite doubles. */
  predicate ValueReadable(v: Value, limits: Limits)
  {
    ValueFits(v, limits) && (v.DoubleValue? ==> Finite(v.bits))
  }

  predicate EntriesReadable(ps: seq<Property>, limits: Limits)
  {
    forall p | p in ps :: StringFits(p.key, limits) && ValueReadable(p.value, limits)
  }

  lemma {:induction false} TakeIntAt(bytes: Bytes, o: nat, v: nat, width: nat)
    requires v < Capacity(width) && At(bytes, o, LittleEndian(v, width))
    ensures IntAt(bytes, o, width) == v
    ensures TakeInt(bytes, o, width) == Ok(Taken(v, o + width))
  {
    LittleEndianRoundTrip(v, width);
  }

  lemma {:induction false} TakeU64At(bytes: Bytes, o: nat, v: u64)
    requires At(bytes, o, LittleEndian(v, 8))
    ensures TakeU64(bytes, o) == Ok(Taken(v, o + 8))
  {
    CapacityValues();
    TakeIntAt(bytes, o, v, 8);
  }

  lemma {:induction false} TakeU32At(bytes: Bytes, o: nat, v: u32)
    requires At(bytes, o, LittleEndian(v, 4))
    ensures TakeU32(bytes, o) == Ok(Taken(v, o + 4))
  {
    CapacityValues();
    TakeIntAt(bytes, o, v, 4);
  }

  lemma {:induction false} TakeI64At(bytes: Bytes, o: nat, v: i64)
    requires At(bytes, o, LittleEndian(ToUnsigned(v), 8))
    ensures TakeI64(bytes, o) == Ok(Taken(v, o + 8))
  {
    TakeU64At(bytes, o, ToUnsigned(v));
  }

  lemma {:induction false} TakeStringAt(bytes: Bytes, o: nat, s: Text, limits: Limits)
    requires StringFits(s, limits) && At(bytes, o, StringBytes(s))
    ensures TakeString(bytes, o, limits) == Ok(Taken(s, o + |StringBytes(s)|))
  {
    AtSplit(bytes, o, LittleEndian(|s|, 4), s);
    TakeU32At(bytes, o, |s|);
  }

  /** A value that fits reads back exactly, except that a non-finite double is refused. */
  lemma {:induction false} TakeValueAt(bytes: Bytes, o: nat, v: Value, limits: Limits)
    requires ValueFits(v, limits) && At(bytes, o, ValueBytes(v))
    ensures TakeValue(bytes, o, limits)
         == if ValueReadable(v, limits) then Ok(Taken(v, o + |ValueBytes(v)|)) else Err(Format)
  {
    match v
    case BoolValue(flag) =>
      TakeBoolAt(bytes, o, flag, limits);
    case IntValue(number) =>
      TakeNumberAt(bytes, o, number, limits);
    case DoubleValue(bits) =>
      TakeDoubleAt(bytes, o, bits, limits);
    case TextValue(text) =>
      TakeTextAt(bytes, o, text, limits);
  }

  lemma {:induction false} TakeBoolAt(bytes: Bytes, o: nat, flag: bool, limits: Limits)
    requires At(bytes, o, ValueBytes(BoolValue(flag)))
    ensures TakeValue(bytes, o, limits) == Ok(Taken(BoolValue(flag), o + 2))
  {
    hide TakeString, TakeI64, TakeU64;
    assert bytes[o] == bytes[o..o + 2][0] && bytes[o + 1] == bytes[o..o + 2][1];
  }

  lemma {:induction false} TakeNumberAt(bytes: Bytes, o: nat, number: i64, limits: Limits)
    requires At(bytes, o, ValueBytes(IntValue(number)))
    ensures TakeValue(bytes, o, limits) == Ok(Taken(IntValue(number), o + 9))
  {
    hide TakeString, TakeI64, TakeU64, LittleEndian;
    AtSplit(bytes, o, [2], LittleEndian(ToUnsigned(number), 8));
    TakeI64At(bytes, o + 1, number);
    assert bytes[o] == bytes[o..o + 1][0];
  }

  lemma {:induction false} TakeDoubleAt(bytes: Bytes, o: nat, bits: u64, limits: Limits)
    requires At(bytes, o, ValueBytes(DoubleValue(bits)))
    ensures TakeValue(bytes, o, limits)
         == if Finite(bits) then Ok(Taken(DoubleValue(bits), o + 9)) else Err(Format)
  {
    hide TakeString, TakeI64, TakeU64, LittleEndian, Finite;
    AtSplit(bytes, o, [3], LittleEndian(bits, 8));
    TakeU64At(bytes, o + 1, bits);
    assert bytes[o] == bytes[o..o + 1][0];
  }

  lemma {:induction false} TakeTextAt(bytes: Bytes, o: nat, text: Text, limits: Limits)
    requires StringFits(text, limits) && At(bytes, o, ValueBytes(TextValue(text)))
    ensures TakeValue(bytes, o, limits) == Ok(Taken(TextValue(text), o + 1 + |StringBytes(text)|))
  {
    hide TakeString, TakeI64, TakeU64, StringBytes, StringFits;
    AtSplit(bytes, o, [4], StringBytes(text));
    TakeStringAt(bytes, o + 1, text, limits);
    assert bytes[o] == bytes[o..o + 1][0];
  }

  lemma {:induction false} EmplaceNext(ps: PropertyMap, k: nat)
    requires k < |ps|
    ensures KeySorted(ps[..k]) && KeySorted(ps[..k + 1])
    ensures !HasKey(ps[..k], ps[k].key)
    ensures Emplace(ps[..k], ps[k]) == ps[..k + 1]
  {
    forall i | 0 <= i < k
      ensures ps[i].key != ps[k].key
    {
      LessIrreflexive(ps[k].key);
    }
    assert ps[..k + 1] == ps[..k] + [ps[k]];
  }

  lemma {:induction false} TakeEntriesStep(bytes: Bytes, o: nat, count: nat, ps: PropertyMap, k: nat, limits: Limits)
    requires k < |ps| && count > 0 && o <= |bytes|
    requires StringFits(ps[k].key, limits) && ValueFits(ps[k].value, limits)
    requires At(bytes, o, EntryBytes(ps[k]))
    ensures KeySorted(ps[..k]) && KeySorted(ps[..k + 1])
    ensures TakeEntries(bytes, o, count, ps[..k], limits)
         == if ValueReadable(ps[k].value, limits)
            then TakeEntries(bytes, o + |EntryBytes(ps[k])|, count - 1, ps[..k + 1], limits)
            else Err(Format)
  {
    hide StringBytes, ValueBytes, TakeString, TakeValue, ValueReadable, StringFits, ValueFits, Emplace,
      HasKey, KeySorted;
    var p := ps[k];
    EmplaceNext(ps, k);
    AtSplit(bytes, o, StringBytes(p.key), ValueBytes(p.value));
    TakeStringAt(bytes, o, p.key, limits);
    TakeValueAt(bytes, o + |StringBytes(p.key)|, p.value, limits);
  }

  lemma {:induction false} NoEntriesLeft(bytes: Bytes, o: nat, ps: PropertyMap, limits: Limits)
    requires At(bytes, o, EntriesBytes(ps[|ps|..]))
    ensures |EntriesBytes(ps[|ps|..])| == 0 && o <= |bytes|
    ensures TakeEntries(bytes, o, 0, ps, limits) == Ok(Taken(ps, o))
  {
    hide EntryBytes;
  }

  lemma {:induction false} FirstEntry(ps: seq<Property>, k: nat)
    requires k < |ps|
    ensures EntriesBytes(ps[k..]) == EntryBytes(ps[k]) + EntriesBytes(ps[k + 1..])
  {
    hide EntryBytes;
    assert ps[k..][1..] == ps[k + 1..];
  }

  lemma AtRoom(bytes: Bytes, o: nat, e: Bytes)
    requires At(bytes, o, e)
    ensures o + |e| <= |bytes|
  {
  }

  lemma {:induction false} TakeEntriesAt(bytes: Bytes, o: nat, ps: PropertyMap, k: nat, limits: Limits)
    requires k <= |ps| && EntriesFit(ps, limits)
    requires At(bytes, o, EntriesBytes(ps[k..]))
    ensures KeySorted(ps[..k])
    ensures TakeEntries(bytes, o, |ps| - k, ps[..k], limits)
         == if EntriesReadable(ps[k..], limits) then Ok(Taken(ps, o + |EntriesBytes(ps[k..])|))
            else Err(Format)
    decreases |ps| - k
  {
    hide EntryBytes, StringBytes, ValueBytes, TakeString, TakeValue, ValueReadable, EntriesReadable,
      StringFits, ValueFits, Emplace, LittleEndian, HasKey, KeySorted, EntriesBytes, TakeEntries, At;
    if k == |ps| {
      assert ps[..k] == ps && ps[k..] == [];
      EntriesReadableNil(limits);
      NoEntriesLeft(bytes, o, ps, limits);
    } else {
      var rest := ps[k + 1..];
      FirstEntry(ps, k);
      assert ps[k..] == [ps[k]] + rest;
      AtSplit(bytes, o, EntryBytes(ps[k]), EntriesBytes(rest));
      AtRoom(bytes, o, EntryBytes(ps[k]));
      TakeEntriesStep(bytes, o, |ps| - k, ps, k, limits);
      EntriesReadableCons(ps[k], rest, limits);
      TakeEntriesAt(bytes, o + |EntryBytes(ps[k])|, ps, k + 1, limits);
    }
  }

  lemma EntriesReadableNil(limits: Limits)
    ensures EntriesReadable([], limits)
  {
  }

  lemma {:induction false} EntriesReadableCons(p: Property, rest: seq<Property>, limits: Limits)
    ensures EntriesReadable([p] + rest, limits)
       <==> StringFits(p.key, limits) && ValueReadable(p.value, limits) && EntriesReadable(rest, limits)
  {
    assert forall q :: q in [p] + rest <==> q == p || q in rest;
  }

  lemma {:induction false} TakePropertiesAt(bytes: Bytes, o: nat, ps: PropertyMap, limits: Limits)
    requires PropertiesFit(ps, limits)
    requires At(bytes, o, PropertiesBytes(ps))
    ensures TakeProperties(bytes, o, limits)
         == if EntriesReadable(ps, limits) then Ok(Taken(ps, o + |PropertiesBytes(ps)|)) else Err(Format)
  {
    hide EntriesBytes, TakeEntries, EntriesReadable, LittleEndian, KeySorted;
    AtSplit(bytes, o, LittleEndian(|ps|, 4), EntriesBytes(ps));
    TakeU32At(bytes, o, |ps|);
    assert ps[0..] == ps && ps[..0] == [];
    TakeEntriesAt(bytes, o + 4, ps, 0, limits);
  }

  lemma NodeFixedSize(node: Node, tombstone: bool)
    ensures |NodeFixed(node, tombstone)| == 25
  {
  }

  lemma EdgeFixedSize(edge: Edge, tombstone: bool)
    ensures |EdgeFixed(edge, tombstone)| == 41
  {
  }

  lemma {:induction false} NodeFixedAt(bytes: Bytes, node: Node, tombstone: bool)
    requires At(bytes, 0, NodeFixed(node, tombstone))
    ensures TakeU64(bytes, 0) == Ok(Taken(node.id, 8))
    ensures TakeI64(bytes, 8) == Ok(Taken(node.interval.start, 16))
    ensures TakeI64(bytes, 16) == Ok(Taken(node.interval.end, 24))
    ensures TakeU8(bytes, 24) == Ok(Taken(FlagByte(tombstone), 25))
  {
    hide LittleEndian, TakeU64, TakeI64, FlagByte, ToUnsigned;
    var d := [FlagByte(tombstone)];
    var c := LittleEndian(ToUnsigned(node.interval.end), 8);
    var b := LittleEndian(ToUnsigned(node.interval.start), 8);
    AtSplit(bytes, 0, LittleEndian(node.id, 8), b + (c + d));
    AtSplit(bytes, 8, b, c + d);
    AtSplit(bytes, 16, c, d);
    TakeU64At(bytes, 0, node.id);
    TakeI64At(bytes, 8, node.interval.start);
    TakeI64At(bytes, 16, node.interval.end);
  }

  /** Decoding undoes encoding for every version the writer accepts exactly when its doubles are finite. */
  lemma {:induction false} NodeRoundTrip(node: Node, tombstone: bool, limits: Limits)
    requires EncodeNode(node, tombstone, limits).Ok?
    ensures DecodeNode(EncodeNode(node, tombstone, limits).value, node.begin, limits)
         == if EntriesReadable(node.properties, limits) then Ok((node, tombstone)) else Err(Format)
  {
    hide PropertiesBytes, PropertiesFit, EntriesReadable, StringBytes, TakeString, TakeProperties, TakeI64,
      TakeU64, NodeFixed, LittleEndian;
    var bytes := NodeBytes(node, tombstone);
    var name := StringBytes(node.body.labelText);
    var tail := PropertiesBytes(node.properties);
    assert At(bytes, 0, bytes);
    assert |NodeFixed(node, tombstone)| == 25 by {
      NodeFixedSize(node, tombstone);
    }
    AtSplit(bytes, 0, NodeFixed(node, tombstone), name + tail);
    AtSplit(bytes, 25, name, tail);
    NodeFixedAt(bytes, node, tombstone);
    TakeStringAt(bytes, 25, node.body.labelText, limits);
    TakePropertiesAt(bytes, 25 + |name|, node.properties, limits);
  }

  lemma {:induction false} EdgeFixedAt(bytes: Bytes, edge: Edge, tombstone: bool)
    requires At(bytes, 0, EdgeFixed(edge, tombstone))
    ensures TakeU64(bytes, 0) == Ok(Taken(edge.id, 8))
    ensures TakeU64(bytes, 8) == Ok(Taken(edge.body.from, 16))
    ensures TakeU64(bytes, 16) == Ok(Taken(edge.body.to, 24))
    ensures TakeI64(bytes, 24) == Ok(Taken(edge.interval.start, 32))
    ensures TakeI64(bytes, 32) == Ok(Taken(edge.interval.end, 40))
    ensures TakeU8(bytes, 40) == Ok(Taken(FlagByte(tombstone), 41))
  {
    hide LittleEndian, TakeU64, TakeI64, FlagByte, ToUnsigned;
    var f := [FlagByte(tombstone)];
    var e := LittleEndian(ToUnsigned(edge.interval.end), 8);
    var d := LittleEndian(ToUnsigned(edge.interval.start), 8);
    var c := LittleEndian(edge.body.to, 8);
    var b := LittleEndian(edge.body.from, 8);
    AtSplit(bytes, 0, LittleEndian(edge.id, 8), b + (c + (d + (e + f))));
    AtSplit(bytes, 8, b, c + (d + (e + f)));
    AtSplit(bytes, 16, c, d + (e + f));
    AtSplit(bytes, 24, d, e + f);
    AtSplit(bytes, 32, e, f);
    TakeU64At(bytes, 0, edge.id);
    TakeU64At(bytes, 8, edge.body.from);
    TakeU64At(bytes, 16, edge.body.to);
    TakeI64At(bytes, 24, edge.interval.start);
    TakeI64At(bytes, 32, edge.interval.end);
  }

  lemma {:induction false} EdgeRoundTrip(edge: Edge, tombstone: bool, limits: Limits)
    requires EncodeEdge(edge, tombstone, limits).Ok?
    ensures DecodeEdge(EncodeEdge(edge, tombstone, limits).value, edge.begin, limits)
         == if EntriesReadable(edge.properties, limits) then Ok((edge, tombstone)) else Err(Format)
  {
    hide PropertiesBytes, PropertiesFit, EntriesReadable, StringBytes, TakeString, TakeProperties, TakeI64,
      TakeU64, EdgeFixed, LittleEndian;
    var bytes := EdgeBytes(edge, tombstone);
    var name := StringBytes(edge.body.kind);
    var tail := PropertiesBytes(edge.properties);
    assert At(bytes, 0, bytes);
    assert |EdgeFixed(edge, tombstone)| == 41 by {
      EdgeFixedSize(edge, tombstone);
    }
    AtSplit(bytes, 0, EdgeFixed(edge, tombstone), name + tail);
    AtSplit(bytes, 41, name, tail);
    EdgeFixedAt(bytes, edge, tombstone);
    TakeStringAt(bytes, 41, edge.body.kind, limits);
    TakePropertiesAt(bytes, 41 + |name|, edge.properties, limits);
  }
}
