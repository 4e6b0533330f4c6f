/** Property values, property maps in key order, intervals, versions and limits. */
module Values {
  import opened Bytes
  import opened Results

  type Text = Bytes

  /** A double is its 64-bit pattern. */
  datatype Value =
    | BoolValue(flag: bool)
    | IntValue(number: i64)
    | DoubleValue(bits: u64)
    | TextValue(text: Text)

  /** The exponent field is not all ones. */
  predicate Finite(bits: u64)
  {
    bits / 0x10_0000_0000_0000 % 0x800 != 0x7ff
  }

  /** Bytewise lexicographic order. */
  predicate Less(a: Text, b: Text)
  {
    b != [] && (a == [] || a[0] < b[0] || (a[0] == b[0] && Less(a[1..], b[1..])))
  }

  lemma {:induction false} LessTransitive(a: Text, b: Text, c: Text)
    requires Less(a, b) && Less(b, c)
    ensures Less(a, c)
  {
    if a != [] && a[0] == b[0] == c[0] {
      LessTransitive(a[1..], b[1..], c[1..]);
    }
  }

  lemma {:induction false} LessIrreflexive(a: Text)
    ensures !Less(a, a)
  {
    if a != [] {
      LessIrreflexive(a[1..]);
    }
  }

  lemma {:induction false} LessTrichotomy(a: Text, b: Text)
    ensures Less(a, b) || a == b || Less(b, a)
    ensures !(Less(a, b) && Less(b, a))
    ensures !Less(a, a)
    decreases |a| + |b|
  {
    if a != [] {
      LessIrreflexive(a);
      if b != [] {
        LessTrichotomy(a[1..], b[1..]);
        assert a[0] == b[0] && a[1..] == b[1..] ==> a == [a[0]] + a[1..] == [b[0]] + b[1..] == b;
      }
    }
  }

  /** At k, a and b differ for the first time: a ends there or has the smaller byte. */
  predicate SmallerAt(a: Text, b: Text, k: nat)
  {
    k <= |a| && k < |b| && a[..k] == b[..k] && (k == |a| || a[k] < b[k])
  }

  lemma {:induction false} SmallerIsLess(a: Text, b: Text, k: nat)
    requires SmallerAt(a, b, k)
    ensures Less(a, b)
  {
    if k > 0 {
      assert a[0] == a[..k][0] && b[0] == b[..k][0];
      assert a[1..][..k - 1] == a[..k][1..] && b[1..][..k - 1] == b[..k][1..];
      SmallerIsLess(a[1..], b[1..], k - 1);
    }
  }

  lemma {:induction false} LessIsSmaller(a: Text, b: Text) returns (k: nat)
    requires Less(a, b)
    ensures SmallerAt(a, b, k)
  {
    k := 0;
    if a != [] && a[0] == b[0] {
      var j := LessIsSmaller(a[1..], b[1..]);
      k := j + 1;
      assert a[..k] == [a[0]] + a[1..][..j] && b[..k] == [b[0]] + b[1..][..j];
    }
  }

  /** One text is less than another exactly when it is the smaller where they first differ. */
  lemma {:induction false} LessMeans(a: Text, b: Text)
    ensures Less(a, b) <==> exists k :: SmallerAt(a, b, k)
  {
    if Less(a, b) {
      var k := LessIsSmaller(a, b);
    }
    if k :| SmallerAt(a, b, k) {
      SmallerIsLess(a, b, k);
    }
  }

  lemma {:induction false} LessExtension(a: Text, b: Text)
    requires b != []
    ensures Less(a, a + b)
  {
    if a != [] {
      LessExtension(a[1..], b);
      assert (a + b)[1..] == a[1..] + b;
    }
  }

  datatype Property = Property(key: Text, value: Value)

  predicate KeySorted(ps: seq<Property>)
  {
    forall i, j | 0 <= i < j < |ps| :: Less(ps[i].key, ps[j].key)
  }

  /** An ordered map from keys to values, as the sequence its iteration visits. */
  type PropertyMap = ps: seq<Property> | KeySorted(ps)

  predicate HasKey(ps: PropertyMap, key: Text)
  {
    exists i | 0 <= i < |ps| :: ps[i].key == key
  }

  function Lookup(ps: PropertyMap, key: Text): (r: Option<Value>)
    ensures r.Some? <==> HasKey(ps, key)
    ensures r.Some? ==> Property(key, r.value) in ps
  {
    if |ps| == 0 then None
    else if ps[0].key == key then Some(ps[0].value)
    else Lookup(ps[1..], key)
  }

  lemma {:induction false} LookupEntry(ps: PropertyMap, i: nat)
    requires i < |ps|
    ensures Lookup(ps, ps[i].key) == Some(ps[i].value)
  {
    if i > 0 {
      LessTrichotomy(ps[0].key, ps[i].key);
      LookupEntry(ps[1..], i - 1);
    }
  }

  function EmplaceSeq(ps: seq<Property>, p: Property): (r: seq<Property>)
    ensures multiset(r) == multiset(ps) + multiset{p}
  {
    if |ps| == 0 then [p]
    else
      var last := |ps| - 1;
      assert ps == ps[..last] + [ps[last]];
      if Less(ps[last].key, p.key) then ps + [p] else EmplaceSeq(ps[..last], p) + [ps[last]]
  }

  lemma {:induction false} EmplaceAddsOne(ps: seq<Property>, p: Property, q: Property)
    ensures q in EmplaceSeq(ps, p) <==> q in ps || q == p
  {
    assert q in EmplaceSeq(ps, p) <==> q in multiset(EmplaceSeq(ps, p));
  }

  lemma SortedPushBack(ps: seq<Property>, p: Property)
    requires KeySorted(ps)
    requires forall q | q in ps :: Less(q.key, p.key)
    ensures KeySorted(ps + [p])
  {
  }

  lemma {:induction false} SortedBelowLast(ps: seq<Property>, p: Property)
    requires KeySorted(ps) && |ps| > 0 && Less(ps[|ps| - 1].key, p.key)
    ensures forall q | q in ps :: Less(q.key, p.key)
  {
    forall i | 0 <= i < |ps| - 1
      ensures Less(ps[i].key, p.key)
    {
      LessTransitive(ps[i].key, ps[|ps| - 1].key, p.key);
    }
  }

  lemma {:induction false} EmplaceKeepsOrder(ps: seq<Property>, p: Property)
    requires KeySorted(ps)
    requires forall q | q in ps :: q.key != p.key
    ensures KeySorted(EmplaceSeq(ps, p))
  {
    if |ps| > 0 {
      var last := |ps| - 1;
      LessTrichotomy(ps[last].key, p.key);
      if Less(ps[last].key, p.key) {
        SortedBelowLast(ps, p);
        SortedPushBack(ps, p);
      } else {
        var front := EmplaceSeq(ps[..last], p);
        EmplaceKeepsOrder(ps[..last], p);
        forall q | q in front
          ensures Less(q.key, ps[last].key)
        {
          EmplaceAddsOne(ps[..last], p, q);
        }
        SortedPushBack(front, ps[last]);
      }
    }
  }

  /** Insertion of a key that is not present yet. */
  function Emplace(ps: PropertyMap, p: Property): (r: PropertyMap)
    requires !HasKey(ps, p.key)
    ensures multiset(r) == multiset(ps) + multiset{p}
  {
    EmplaceKeepsOrder(ps, p);
    EmplaceSeq(ps, p)
  }

  datatype Interval = Interval(start: i64, end: i64) {
    predicate Contains(time: i64) {
      start <= time < end
    }

    predicate Valid() {
      start < end
    }
  }

  /** Intervals that meet share no instant and leave none out: each holds its start and not its end. */
  lemma IntervalsPartitionTime(a: i64, b: i64, c: i64, time: i64)
    requires a < b < c
    ensures a <= time < c <==> Interval(a, b).Contains(time) || Interval(b, c).Contains(time)
    ensures !(Interval(a, b).Contains(time) && Interval(b, c).Contains(time))
    ensures Interval(a, b).Valid() && !Interval(b, b).Valid() && !Interval(b, a).Valid()
  {
  }

  datatype NodeBody = NodeBody(labelText: Text)
  datatype EdgeBody = EdgeBody(from: u64, to: u64, kind: Text)

  /** One committed version of an entity; B is what nodes and edges do not share. */
  datatype View<B> = View(id: u64, interval: Interval, properties: PropertyMap, begin: u64, body: B)

  type Node = View<NodeBody>
  type Edge = View<EdgeBody>

  datatype Limits = Limits(maxStringBytes: u64, maxProperties: u64, maxRecordBytes: u64,
                           maxQueryBytes: u64, maxPathHops: u64)
}
