/** What the encoder and the decoder of versions refuse, and with which error, in terms of the version and the bytes. */
module OgrRefusals {
  import opened Bytes
  import opened Results
  import opened Values
  import opened OgrCodec

  // ---- doubles ----

  /** The finite doubles: less than infinity when the sign bit is disregarded. */
  lemma FiniteMeans(bits: u64)
    ensures Finite(bits) <==> bits % 0x8000_0000_0000_0000 < 0x7ff0_0000_0000_0000
  {
  }

  // ---- writing ----

  predicate ShortEnough(t: Text, limits: Limits)
  {
    |t| <= limits.maxStringBytes && |t| < 0x1_0000_0000
  }

  ghost predicate PropertiesInLimits(ps: PropertyMap, limits: Limits)
  {
    && |ps| <= limits.maxProperties && |ps| < 0x1_0000_0000
    && forall i | 0 <= i < |ps| ::
         ShortEnough(ps[i].key, limits) && (ps[i].value.TextValue? ==> ShortEnough(ps[i].value.text, limits))
  }

  lemma {:induction false} LimitsMean(ps: PropertyMap, limits: Limits)
    ensures PropertiesFit(ps, limits) <==> PropertiesInLimits(ps, limits)
  {
    if PropertiesInLimits(ps, limits) {
      forall p | p in ps
        ensures StringFits(p.key, limits) && ValueFits(p.value, limits)
      {
        var i :| 0 <= i < |ps| && ps[i] == p;
        assert ShortEnough(ps[i].key, limits);
      }
    }
    if PropertiesFit(ps, limits) {
      forall i | 0 <= i < |ps|
        ensures ShortEnough(ps[i].key, limits) && (ps[i].value.TextValue? ==> ShortEnough(ps[i].value.text, limits))
      {
        assert ps[i] in ps;
      }
    }
  }

  /** A node version is written with an id, and unless it is a tombstone with a label and a proper interval, within limits. */
  lemma {:induction false} EncodeNodeMeans(node: Node, tombstone: bool, limits: Limits)
    ensures var r := EncodeNode(node, tombstone, limits);
            if node.id == 0 || (!tombstone && |node.body.labelText| == 0) then r == Err(Format)
            else if !tombstone && node.interval.start >= node.interval.end then r == Err(Temporal)
            else if !ShortEnough(node.body.labelText, limits) || !PropertiesInLimits(node.properties, limits)
            then r == Err(ResourceLimit)
            else r.Ok?
  {
    hide NodeBytes, PropertiesFit, PropertiesInLimits;
    LimitsMean(node.properties, limits);
  }

  lemma {:induction false} EncodeEdgeMeans(edge: Edge, tombstone: bool, limits: Limits)
    ensures var r := EncodeEdge(edge, tombstone, limits);
            if edge.id == 0 || (!tombstone && (edge.body.from == 0 || edge.body.to == 0 || |edge.body.kind| == 0))
            then r == Err(Format)
            else if !tombstone && edge.interval.start >= edge.interval.end then r == Err(Temporal)
            else if !ShortEnough(edge.body.kind, limits) || !PropertiesInLimits(edge.properties, limits)
            then r == Err(ResourceLimit)
            else r.Ok?
  {
    hide EdgeBytes, PropertiesFit, PropertiesInLimits;
    LimitsMean(edge.properties, limits);
  }

  // ---- reading ----

  /** The parts of a node payload, with anything behind them. */
  lemma {:induction false} NodeParts(node: Node, tombstone: bool, extra: Bytes, limits: Limits)
    requires StringFits(node.body.labelText, limits) && PropertiesFit(node.properties, limits)
    requires EntriesReadable(node.properties, limits)
    ensures var payload := NodeBytes(node, tombstone) + extra;
            && TakeU64(payload, 0) == Ok(Taken(node.id, 8))
            && TakeI64(payload, 8) == Ok(Taken(node.interval.start, 16))
            && TakeI64(payload, 16) == Ok(Taken(node.interval.end, 24))
            && TakeU8(payload, 24) == Ok(Taken(FlagByte(tombstone), 25))
            && TakeString(payload, 25, limits) == Ok(Taken(node.body.labelText, 25 + |StringBytes(node.body.labelText)|))
            && TakeProperties(payload, 25 + |StringBytes(node.body.labelText)|, limits)
               == Ok(Taken(node.properties, |NodeBytes(node, tombstone)|))
  {
    hide PropertiesBytes, PropertiesFit, EntriesReadable, StringBytes, TakeString, TakeProperties, TakeI64, TakeU64, TakeU8,
      NodeFixed, LittleEndian, FlagByte;
    var bytes := NodeBytes(node, tombstone);
    var payload, name, tail := bytes + extra, StringBytes(node.body.labelText), PropertiesBytes(node.properties);
    assert At(payload, 0, bytes);
    NodeFixedSize(node, tombstone);
    AtSplit(payload, 0, NodeFixed(node, tombstone), name + tail);
    AtSplit(payload, 25, name, tail);
    NodeFixedAt(payload, node, tombstone);
    TakeStringAt(payload, 25, node.body.labelText, limits);
    TakePropertiesAt(payload, 25 + |name|, node.properties, limits);
  }

  /** A readable node payload with bytes behind it is refused; so is one whose interval is empty, unless it is a tombstone. */
  lemma {:induction false} DecodeNodeRefuses(node: Node, tombstone: bool, extra: Bytes, commit: u64, limits: Limits)
    requires StringFits(node.body.labelText, limits) && PropertiesFit(node.properties, limits)
    requires EntriesReadable(node.properties, limits)
    ensures var r := DecodeNode(NodeBytes(node, tombstone) + extra, commit, limits);
            if extra != [] then r == Err(Format)
            else if !tombstone && node.interval.start >= node.interval.end then r == Err(Temporal)
            else r == Ok((node.(begin := commit), tombstone))
  {
    hide PropertiesFit, EntriesReadable, StringBytes, TakeString, TakeProperties, TakeI64, TakeU64, TakeU8, NodeBytes;
    NodeParts(node, tombstone, extra, limits);
  }

  lemma {:induction false} EdgeParts(edge: Edge, tombstone: bool, extra: Bytes, limits: Limits)
    requires StringFits(edge.body.kind, limits) && PropertiesFit(edge.properties, limits)
    requires EntriesReadable(edge.properties, limits)
    ensures var payload := EdgeBytes(edge, tombstone) + extra;
            && TakeU64(payload, 0) == Ok(Taken(edge.id, 8))
            && TakeU64(payload, 8) == Ok(Taken(edge.body.from, 16))
            && TakeU64(payload, 16) == Ok(Taken(edge.body.to, 24))
            && TakeI64(payload, 24) == Ok(Taken(edge.interval.start, 32))
            && TakeI64(payload, 32) == Ok(Taken(edge.interval.end, 40))
            && TakeU8(payload, 40) == Ok(Taken(FlagByte(tombstone), 41))
            && TakeString(payload, 41, limits) == Ok(Taken(edge.body.kind, 41 + |StringBytes(edge.body.kind)|))
            && TakeProperties(payload, 41 + |StringBytes(edge.body.kind)|, limits)
               == Ok(Taken(edge.properties, |EdgeBytes(edge, tombstone)|))
  {
    hide PropertiesBytes, PropertiesFit, EntriesReadable, StringBytes, TakeString, TakeProperties, TakeI64, TakeU64, TakeU8,
      EdgeFixed, LittleEndian, FlagByte;
    var bytes := EdgeBytes(edge, tombstone);
    var payload, name, tail := bytes + extra, StringBytes(edge.body.kind), PropertiesBytes(edge.properties);
    assert At(payload, 0, bytes);
    EdgeFixedSize(edge, tombstone);
    AtSplit(payload, 0, EdgeFixed(edge, tombstone), name + tail);
    AtSplit(payload, 41, name, tail);
    EdgeFixedAt(payload, edge, tombstone);
    TakeStringAt(payload, 41, edge.body.kind, limits);
    TakePropertiesAt(payload, 41 + |name|, edge.properties, limits);
  }

  lemma {:induction false} DecodeEdgeRefuses(edge: Edge, tombstone: bool, extra: Bytes, commit: u64, limits: Limits)
    requires StringFits(edge.body.kind, limits) && PropertiesFit(edge.properties, limits)
    requires EntriesReadable(edge.properties, limits)
    ensures var r := DecodeEdge(EdgeBytes(edge, tombstone) + extra, commit, limits);
            if extra != [] then r == Err(Format)
            else if !tombstone && edge.interval.start >= edge.interval.end then r == Err(Temporal)
            else r == Ok((edge.(begin := commit), tombstone))
  {
    hide PropertiesFit, EntriesReadable, StringBytes, TakeString, TakeProperties, TakeI64, TakeU64, TakeU8, EdgeBytes;
    EdgeParts(edge, tombstone, extra, limits);
  }

  /** A text longer than the limit is refused by the reader, whatever stands behind its length. */
  lemma {:induction false} LongStringRefused(bytes: Bytes, o: nat, n: u32, limits: Limits)
    requires At(bytes, o, LittleEndian(n, 4)) && (n > limits.maxStringBytes || o + 4 + n > |bytes|)
    ensures TakeString(bytes, o, limits) == Err(Format)
  {
    hide LittleEndian;
    TakeU32At(bytes, o, n);
  }

  lemma {:induction false} ManyPropertiesRefused(bytes: Bytes, o: nat, n: u32, limits: Limits)
    requires At(bytes, o, LittleEndian(n, 4)) && n > limits.maxProperties
    ensures TakeProperties(bytes, o, limits) == Err(ResourceLimit)
  {
    hide LittleEndian, TakeEntries;
    TakeU32At(bytes, o, n);
  }

  /** Tags one to four are a boolean, any nonzero byte being true, an integer, a double and a text; all others are unknown. */
  lemma {:induction false} TagsMean(bytes: Bytes, o: nat, limits: Limits)
    requires o < |bytes|
    ensures bytes[o] !in {1, 2, 3, 4} ==> TakeValue(bytes, o, limits) == Err(Unsupported)
    ensures bytes[o] == 1 && o + 1 < |bytes| ==>
              TakeValue(bytes, o, limits) == Ok(Taken(BoolValue(bytes[o + 1] != 0), o + 2))
    ensures bytes[o] == 2 && TakeValue(bytes, o, limits).Ok? ==> TakeValue(bytes, o, limits).value.value.IntValue?
    ensures bytes[o] == 3 && TakeValue(bytes, o, limits).Ok? ==> TakeValue(bytes, o, limits).value.value.DoubleValue?
    ensures bytes[o] == 4 && TakeValue(bytes, o, limits).Ok? ==> TakeValue(bytes, o, limits).value.value.TextValue?
  {
    hide TakeI64, TakeU64, TakeString, Finite;
  }

  /** A key that occurs twice is refused. */
  lemma {:induction false} DuplicateRefused(bytes: Bytes, o: nat, p: Property, count: nat, acc: PropertyMap, limits: Limits)
    requires o <= |bytes| && count > 0 && At(bytes, o, EntryBytes(p))
    requires StringFits(p.key, limits) && ValueReadable(p.value, limits) && HasKey(acc, p.key)
    ensures TakeEntries(bytes, o, count, acc, limits) == Err(Format)
  {
    hide StringBytes, ValueBytes, TakeString, TakeValue, StringFits, Emplace, HasKey, KeySorted;
    AtSplit(bytes, o, StringBytes(p.key), ValueBytes(p.value));
    TakeStringAt(bytes, o, p.key, limits);
    TakeValueAt(bytes, o + |StringBytes(p.key)|, p.value, limits);
  }
}
