/**
 Predicates over property values, and the two ways a query finds its seeds: an index seek for equality, a
 label scan for everything else.
 */
module Comparison {
  import opened Bytes
  import opened Results
  import opened Values
  import opened Canonical
  import opened Ordering
  import opened Indexes
  import opened Snapshots

  // ---- numbers as doubles ----

  function PowerOfTwo(n: nat): (p: nat)
    ensures p > 0
  {
    if n == 0 then 1 else 2 * PowerOfTwo(n - 1)
  }

  const TWO_52 := 0x10_0000_0000_0000
  const TWO_53 := 0x20_0000_0000_0000

  /** How many low bits of n a 53-bit significand cannot hold. */
  function Excess(n: nat): nat
  {
    if n < TWO_53 then 0 else 1 + Excess(n / 2)
  }

  /** The multiple of unit nearest to n; a tie goes to the even multiple. */
  function RoundToMultiple(n: nat, unit: nat): nat
    requires unit > 0
  {
    var q, r := n / unit, n % unit;
    if 2 * r < unit || (2 * r == unit && q % 2 == 0) then q * unit else (q + 1) * unit
  }

  /** The integer that converting n to a double yields. */
  function Nearest(n: int): int
  {
    if n < 0 then 0 - RoundToMultiple(-n, PowerOfTwo(Excess(-n))) else RoundToMultiple(n, PowerOfTwo(Excess(n)))
  }

  /** A finite double in units of 2^-1074, the least positive double. */
  function Scaled(bits: u64): int
  {
    var exponent, fraction := bits / TWO_52 % 0x800, bits % TWO_52;
    var magnitude := if exponent == 0 then fraction else (TWO_52 + fraction) * PowerOfTwo(exponent - 1);
    if bits < 0x8000_0000_0000_0000 then magnitude else -magnitude
  }

  predicate IsNumeric(v: Value)
  {
    v.IntValue? || v.DoubleValue?
  }

  function NumericValue(v: Value): int
    requires IsNumeric(v)
  {
    match v
    case IntValue(number) => Nearest(number) * PowerOfTwo(1074)
    case DoubleValue(bits) => Scaled(bits)
  }

  lemma {:induction false} MultipleIsAtLeast(n: nat, unit: nat, bound: nat)
    requires unit > 0 && bound * unit <= n
    ensures RoundToMultiple(n, unit) >= bound * unit
  {
    var q := n / unit;
    assert n == q * unit + n % unit;
    AtMostTimes(q + 1, bound, unit);
    AtMostTimes(bound, q, unit);
    AtMostTimes(q, q + 1, unit);
  }

  lemma {:induction false} AtMostTimes(a: int, b: int, unit: nat)
    requires unit > 0
    ensures a <= b <==> a * unit <= b * unit
  {
    if a <= b {
      assert (b - a) * unit >= 0;
    } else {
      assert (a - b - 1) * unit >= 0;
    }
  }

  lemma {:induction false} ExcessIsTight(n: nat)
    requires n >= TWO_52
    ensures TWO_52 * PowerOfTwo(Excess(n)) <= n
  {
    if n >= TWO_53 {
      ExcessIsTight(n / 2);
    }
  }

  /** Integers of 53 bits convert exactly, longer ones never fall below 2^53. */
  lemma {:induction false} NearestMagnitude(n: nat)
    ensures n <= TWO_53 ==> Nearest(n) == n && Nearest(0 - n) == 0 - n
    ensures n >= TWO_53 ==> Nearest(n) >= TWO_53 && Nearest(0 - n) <= -TWO_53
  {
    if n >= TWO_53 {
      var unit := PowerOfTwo(Excess(n));
      ExcessIsTight(n);
      MultipleIsAtLeast(n, unit, TWO_52);
      assert unit == 2 * PowerOfTwo(Excess(n) - 1);
      if n == TWO_53 {
        assert Excess(TWO_52) == 0;
        assert Excess(n) == 1 && PowerOfTwo(0) == 1;
      }
    } else {
      assert PowerOfTwo(0) == 1;
    }
  }

  lemma {:induction false} ExcessIsEnough(n: nat)
    ensures n < TWO_53 * PowerOfTwo(Excess(n))
  {
    if n >= TWO_53 {
      ExcessIsEnough(n / 2);
    }
  }

  lemma {:induction false} RoundedIsNear(n: nat, unit: nat) returns (k: nat)
    requires unit > 0
    ensures RoundToMultiple(n, unit) == k * unit
    ensures 0 - unit <= 2 * (n - k * unit) <= unit
    ensures 2 * (n - k * unit) == unit || 2 * (n - k * unit) == 0 - unit ==> k % 2 == 0
  {
    var q, r := n / unit, n % unit;
    assert n == q * unit + r;
    assert (q + 1) * unit == q * unit + unit;
    k := if 2 * r < unit || (2 * r == unit && q % 2 == 0) then q else q + 1;
  }

  /**
   Converting an integer rounds it to a multiple of the unit in the last place of a 53-bit significand, at most
   half a unit away and to an even multiple in the middle; the sign makes no difference.
   */
  lemma {:induction false} NearestRounds(n: nat) returns (unit: nat, k: nat)
    ensures if n < TWO_53 then unit == 1 else unit == PowerOfTwo(Excess(n)) && TWO_52 * unit <= n < TWO_53 * unit
    ensures Nearest(n) == k * unit && 0 - unit <= 2 * (n - Nearest(n)) <= unit
    ensures 2 * (n - Nearest(n)) == unit || 2 * (n - Nearest(n)) == 0 - unit ==> k % 2 == 0
    ensures Nearest(0 - n) == 0 - Nearest(n)
  {
    hide RoundToMultiple;
    unit := PowerOfTwo(Excess(n));
    k := RoundedIsNear(n, unit);
    ExcessIsEnough(n);
    if n >= TWO_53 {
      ExcessIsTight(n);
    }
    if n == 0 {
      RoundsToItself(0);
    }
  }

  lemma RoundsToItself(n: nat)
    ensures RoundToMultiple(n, 1) == n
  {
  }

  /** An integer below 2^53 in magnitude shares its double with no other integer. */
  lemma {:induction false} NearestInjective(m: int, n: int)
    requires -TWO_53 < m < TWO_53 || (-TWO_53 <= m <= TWO_53 && -TWO_53 <= n <= TWO_53)
    ensures Nearest(m) == Nearest(n) <==> m == n
  {
    hide Nearest;
    NearestMagnitude(if m < 0 then -m else m);
    NearestMagnitude(if n < 0 then -n else n);
  }

  // ---- the order of doubles ----

  function Magnitude(exponent: nat, fraction: nat): nat
  {
    if exponent == 0 then fraction else (TWO_52 + fraction) * PowerOfTwo(exponent - 1)
  }

  lemma {:induction false} PowerRises(a: nat, b: nat)
    requires a <= b
    ensures PowerOfTwo(a) <= PowerOfTwo(b)
  {
    if a < b {
      PowerRises(a, b - 1);
    }
  }

  lemma LessTimes(a: nat, b: nat, unit: nat)
    requires unit > 0 && a < b
    ensures a * unit < b * unit
  {
    assert (b - a) * unit > 0;
  }

  lemma {:induction false} MagnitudeRises(e: nat, f: nat, e': nat, f': nat)
    requires f < TWO_52 && f' < TWO_52 && (e < e' || (e == e' && f < f'))
    ensures Magnitude(e, f) < Magnitude(e', f')
  {
    if e == e' {
      if e > 0 {
        LessTimes(TWO_52 + f, TWO_52 + f', PowerOfTwo(e - 1));
      }
    } else {
      var unit := PowerOfTwo(e' - 1);
      AtMostTimes(TWO_52, TWO_52 + f', unit);
      AtMostTimes(1, unit, TWO_52);
      if e > 0 {
        LessTimes(TWO_52 + f, TWO_53, PowerOfTwo(e - 1));
        PowerRises(e, e' - 1);
        AtMostTimes(PowerOfTwo(e), unit, TWO_52);
      }
    }
  }

  /** Positive doubles are ordered as their bits, and the sign bit negates. */
  lemma {:induction false} BitsOrderDoubles(a: u64, b: u64)
    requires a < b < 0x8000_0000_0000_0000
    ensures 0 <= Scaled(a) < Scaled(b)
    ensures Scaled(b + 0x8000_0000_0000_0000) == -Scaled(b)
  {
    hide PowerOfTwo, Magnitude;
    BitsSplit(a);
    BitsSplit(b);
    BitsSplit(b + 0x8000_0000_0000_0000);
    MagnitudeRises(a / TWO_52, a % TWO_52, b / TWO_52, b % TWO_52);
  }

  lemma {:induction false} BitsSplit(bits: u64)
    ensures var magnitude := Magnitude(bits / TWO_52 % 0x800, bits % TWO_52);
            Scaled(bits) == if bits < 0x8000_0000_0000_0000 then magnitude else 0 - magnitude
    ensures bits < 0x8000_0000_0000_0000 ==> bits / TWO_52 % 0x800 == bits / TWO_52
    ensures bits >= 0x8000_0000_0000_0000 ==>
              && bits / TWO_52 % 0x800 == (bits - 0x8000_0000_0000_0000) / TWO_52
              && bits % TWO_52 == (bits - 0x8000_0000_0000_0000) % TWO_52
  {
    hide PowerOfTwo;
  }

  // ---- predicates ----

  datatype PredicateOp = Equal | NotEqual | Below | BelowEqual | Above | AboveEqual

  datatype Predicate = Predicate(key: Text, op: PredicateOp, value: Value, parameter: Option<Text>)

  function Compare(a: int, b: int): int
  {
    if a < b then -1 else if a > b then 1 else 0
  }

  function CompareText(a: Text, b: Text): int
  {
    if Less(a, b) then -1 else if Less(b, a) then 1 else 0
  }

  predicate ApplyComparison(comparison: int, op: PredicateOp)
  {
    match op
    case Equal => comparison == 0
    case NotEqual => comparison != 0
    case Below => comparison < 0
    case BelowEqual => comparison <= 0
    case Above => comparison > 0
    case AboveEqual => comparison >= 0
  }

  predicate FiniteNumber(v: Value)
  {
    v.DoubleValue? ==> Finite(v.bits)
  }

  function CompareProperty(lhs: Value, op: PredicateOp, rhs: Value): Result<bool>
  {
    if IsNumeric(lhs) && IsNumeric(rhs) then
      if !FiniteNumber(lhs) || !FiniteNumber(rhs) then Err(QueryType)
      else Ok(ApplyComparison(Compare(NumericValue(lhs), NumericValue(rhs)), op))
    else if lhs.TextValue? && rhs.TextValue? then
      Ok(ApplyComparison(CompareText(lhs.text, rhs.text), op))
    else if lhs.BoolValue? && rhs.BoolValue? then
      if op != Equal && op != NotEqual then Err(QueryType)
      else Ok(ApplyComparison(if lhs.flag == rhs.flag then 0 else 1, op))
    else if op == Equal then Ok(false)
    else if op == NotEqual then Ok(true)
    else Err(QueryType)
  }

  /** A node without the property matches no predicate, not even a negative one. */
  function PropertyMatches(node: Node, condition: Option<Predicate>): Result<bool>
  {
    if condition.None? then Ok(true) else
    var p := condition.value;
    var found := Lookup(node.properties, p.key);
    if found.None? then Ok(false) else CompareProperty(found.value, p.op, p.value)
  }

  /** A named parameter must be supplied; its value replaces the literal. */
  function BindPredicate(condition: Option<Predicate>, parameters: PropertyMap): Result<Option<Predicate>>
  {
    if condition.None? || condition.value.parameter.None? then Ok(condition) else
    var found := Lookup(parameters, condition.value.parameter.value);
    if found.None? then Err(QueryType)
    else Ok(Some(condition.value.(value := found.value, parameter := None)))
  }

  /** Whether two unequal integers are taken for equal because they round to one double. */
  predicate Collide(v: Value, w: Value)
  {
    v.IntValue? && w.IntValue? && v != w && Nearest(v.number) == Nearest(w.number)
  }

  /** Equality as a predicate: equal values, or integers that collide. */
  lemma {:induction false} EqualMeans(v: Value, w: Value)
    requires !v.DoubleValue? && !w.DoubleValue?
    ensures CompareProperty(v, Equal, w) == Ok(v == w || Collide(v, w))
  {
    hide Nearest, PowerOfTwo;
    if v.IntValue? && w.IntValue? {
      var a, b := Nearest(v.number), Nearest(w.number);
      AtMostTimes(a, b, PowerOfTwo(1074));
      AtMostTimes(b, a, PowerOfTwo(1074));
    } else if v.TextValue? && w.TextValue? {
      LessTrichotomy(v.text, w.text);
    }
  }

  /** The six operators agree: comparable values are below, equal or above, exactly one of the three. */
  lemma {:induction false} OperatorsAgree(v: Value, w: Value)
    requires CompareProperty(v, Below, w).Ok?
    ensures forall op :: CompareProperty(v, op, w).Ok?
    ensures var below, equal, above := CompareProperty(v, Below, w).value, CompareProperty(v, Equal, w).value,
                                       CompareProperty(v, Above, w).value;
            && (below || equal || above) && !(below && equal) && !(equal && above) && !(below && above)
            && CompareProperty(v, NotEqual, w) == Ok(!equal)
            && CompareProperty(v, BelowEqual, w) == Ok(below || equal)
            && CompareProperty(v, AboveEqual, w) == Ok(equal || above)
            && CompareProperty(w, Above, v) == Ok(below)
  {
    hide NumericValue;
    if v.TextValue? && w.TextValue? {
      LessTrichotomy(v.text, w.text);
    }
  }

  /** Ordering predicates fail exactly on booleans, mixed types and non-finite numbers. */
  lemma {:induction false} OrderingFails(v: Value, w: Value, op: PredicateOp)
    requires op != Equal && op != NotEqual
    ensures CompareProperty(v, op, w).Ok?
       <==> (v.TextValue? && w.TextValue?) || (IsNumeric(v) && IsNumeric(w) && FiniteNumber(v) && FiniteNumber(w))
  {
    hide NumericValue;
  }

  // ---- filtering seeds ----

  predicate Fails(node: Node, condition: Option<Predicate>)
  {
    PropertyMatches(node, condition).Err?
  }

  function MatchTest(condition: Option<Predicate>): Node -> bool
  {
    (n: Node) => PropertyMatches(n, condition) == Ok(true)
  }

  /** The seeds that match, unless one of them cannot be compared. */
  function Filtered(seeds: seq<Node>, condition: Option<Predicate>): Result<seq<Node>>
  {
    if exists i | 0 <= i < |seeds| :: Fails(seeds[i], condition) then Err(QueryType)
    else Ok(Filter(seeds, MatchTest(condition)))
  }

  lemma MatchesErrors(node: Node, condition: Option<Predicate>)
    ensures PropertyMatches(node, condition).Err? ==> PropertyMatches(node, condition).error == QueryType
  {
  }

  lemma {:induction false} FilterNextOfRange<T(!new)>(s: seq<T>, begin: nat, index: nat, p: T -> bool)
    requires begin <= index < |s|
    ensures Filter(s[begin..index + 1], p) == Filter(s[begin..index], p) + if p(s[index]) then [s[index]] else []
  {
    var longer := s[begin..index + 1];
    assert longer[..index - begin] == s[begin..index] && longer[index - begin] == s[index];
  }

  /** One worker's share: the matching seeds from begin to end, or the first failure. */
  method FilterRange(seeds: seq<Node>, begin: nat, end: nat, condition: Option<Predicate>) returns (r: Result<seq<Node>>)
    requires begin <= end <= |seeds|
    ensures r == Filtered(seeds[begin..end], condition)
  {
    hide PropertyMatches;
    var kept := [];
    for index := begin to end
      invariant kept == Filter(seeds[begin..index], MatchTest(condition))
      invariant forall i | begin <= i < index :: !Fails(seeds[i], condition)
    {
      var matches := PropertyMatches(seeds[index], condition);
      if matches.Err? {
        assert Fails(seeds[begin..end][index - begin], condition);
        MatchesErrors(seeds[index], condition);
        return Err(matches.error);
      }
      FilterNextOfRange(seeds, begin, index, MatchTest(condition));
      if matches.value {
        kept := kept + [seeds[index]];
      }
    }
    return Ok(kept);
  }

  lemma {:induction false} NothingFiltered(seeds: seq<Node>)
    ensures Filtered(seeds, None) == Ok(seeds)
  {
    AllKept(seeds, MatchTest(None));
  }

  lemma {:induction false} AllKept<T>(s: seq<T>, p: T -> bool)
    requires forall x | x in s :: p(x)
    ensures Filter(s, p) == s
  {
    if |s| > 0 {
      AllKept(s[..|s| - 1], p);
    }
  }

  method FilterSeeds(seeds: seq<Node>, condition: Option<Predicate>) returns (r: Result<seq<Node>>)
    ensures r == Filtered(seeds, condition)
  {
    if condition.None? {
      NothingFiltered(seeds);
      return Ok(seeds);
    }
    r := FilterRange(seeds, 0, |seeds|, condition);
    assert seeds[0..|seeds|] == seeds;
  }

  // ---- seek and scan ----

  /** Property index, then label filter. */
  function Sought(nodes: seq<Node>, name: Text, key: Text, value: Value, printer: DoublePrinter): seq<Node>
  {
    Filter(Filter(nodes, PropertyTest(key, value, printer)), LabelTest(name))
  }

  /** Label index, then predicate filter. */
  function Scanned(nodes: seq<Node>, name: Text, condition: Option<Predicate>): Result<seq<Node>>
  {
    Filtered(Filter(nodes, LabelTest(name)), condition)
  }

  function Both<T>(p: T -> bool, q: T -> bool): T -> bool
  {
    (x: T) => p(x) && q(x)
  }

  lemma {:induction false} FilterTwice<T>(s: seq<T>, p: T -> bool, q: T -> bool)
    ensures Filter(Filter(s, p), q) == Filter(s, Both(p, q))
  {
    if |s| > 0 {
      var front, last := s[..|s| - 1], s[|s| - 1];
      FilterTwice(front, p, q);
      var kept := Filter(front, p);
      assert (kept + [last])[..|kept|] == kept;
      assert kept + [] == kept;
    }
  }

  ghost predicate NoDoublesUnder(nodes: seq<Node>, name: Text, key: Text)
  {
    forall n | n in nodes && n.body.labelText == name ::
      Lookup(n.properties, key).Some? ==> !Lookup(n.properties, key).value.DoubleValue?
  }

  ghost predicate NoCollision(nodes: seq<Node>, name: Text, key: Text, value: Value)
  {
    forall n | n in nodes && n.body.labelText == name ::
      Lookup(n.properties, key).Some? ==> !Collide(Lookup(n.properties, key).value, value)
  }

  /** On one labelled node, the index and the comparison differ exactly on a collision. */
  lemma {:induction false} SeekDiffersFromScan(n: Node, key: Text, value: Value, printer: DoublePrinter)
    requires !value.DoubleValue?
    requires Lookup(n.properties, key).Some? ==> !Lookup(n.properties, key).value.DoubleValue?
    ensures var found := Lookup(n.properties, key);
            && (PropertyTest(key, value, printer)(n) <==> found == Some(value))
            && PropertyMatches(n, Some(Predicate(key, Equal, value, None)))
               == Ok(found == Some(value) || (found.Some? && Collide(found.value, value)))
  {
    hide CanonicalValue, Collide, CompareProperty;
    var found := Lookup(n.properties, key);
    if found.Some? {
      EqualMeans(found.value, value);
      if CanonicalValue(found.value, printer) == CanonicalValue(value, printer) {
        CanonicalInjective(found.value, value, printer);
      }
    }
  }

  lemma {:induction false} FiltersAgree<T(!new)>(s: seq<T>, p: T -> bool, q: T -> bool)
    ensures Filter(s, p) == Filter(s, q) <==> forall x | x in s :: p(x) == q(x)
  {
    FilterMembers(s, p);
    FilterMembers(s, q);
    if forall x | x in s :: p(x) == q(x) {
      FilterSame(s, p, q);
    }
  }

  ghost predicate Comparable(nodes: seq<Node>, name: Text, condition: Option<Predicate>)
  {
    forall n | n in nodes && n.body.labelText == name :: !Fails(n, condition)
  }

  lemma {:induction false} ScannedAsOneFilter(nodes: seq<Node>, name: Text, condition: Option<Predicate>)
    requires Comparable(nodes, name, condition)
    ensures Scanned(nodes, name, condition) == Ok(Filter(nodes, Both(LabelTest(name), MatchTest(condition))))
  {
    hide Fails, PropertyMatches;
    FilterTwice(nodes, LabelTest(name), MatchTest(condition));
    FilterMembers(nodes, LabelTest(name));
    var labelled := Filter(nodes, LabelTest(name));
    forall i | 0 <= i < |labelled|
      ensures !Fails(labelled[i], condition)
    {
      assert labelled[i] in labelled;
    }
  }

  /**
   Equality through the index selects the same seeds in the same order as scanning the label and comparing,
   exactly when no labelled node holds another integer that rounds to the same double.
   */
  lemma {:induction false} SeekIsScan(nodes: seq<Node>, name: Text, key: Text, value: Value, printer: DoublePrinter)
    requires !value.DoubleValue? && NoDoublesUnder(nodes, name, key)
    ensures Scanned(nodes, name, Some(Predicate(key, Equal, value, None))) == Ok(Sought(nodes, name, key, value, printer))
       <==> NoCollision(nodes, name, key, value)
  {
    hide PropertyTest, PropertyMatches, Collide, Scanned, Lookup;
    var test := Some(Predicate(key, Equal, value, None));
    var sought := Both(PropertyTest(key, value, printer), LabelTest(name));
    var scanned := Both(LabelTest(name), MatchTest(test));
    forall n | n in nodes
      ensures n.body.labelText == name ==> !Fails(n, test)
      ensures sought(n) == scanned(n)
         <==> (n.body.labelText == name && Lookup(n.properties, key).Some?
               ==> !Collide(Lookup(n.properties, key).value, value))
    {
      if n.body.labelText == name {
        SeekDiffersFromScan(n, key, value, printer);
        if Lookup(n.properties, key).Some? && Collide(Lookup(n.properties, key).value, value) {
          CollideDiffer(Lookup(n.properties, key).value, value);
        }
      }
    }
    FilterTwice(nodes, PropertyTest(key, value, printer), LabelTest(name));
    ScannedAsOneFilter(nodes, name, test);
    FiltersAgree(nodes, sought, scanned);
  }

  lemma CollideDiffer(v: Value, w: Value)
    requires Collide(v, w)
    ensures v != w
  {
  }

  /** Below 2^53 nothing collides, whatever the nodes hold; up to 2^53 nothing collides among such integers. */
  lemma {:induction false} SmallNeverCollides(v: Value, w: Value)
    requires w.IntValue? ==> -TWO_53 < w.number < TWO_53
                             || (-TWO_53 <= w.number <= TWO_53
                                 && (v.IntValue? ==> -TWO_53 <= v.number <= TWO_53))
    ensures !Collide(v, w)
  {
    hide Nearest;
    if v.IntValue? && w.IntValue? {
      NearestInjective(w.number, v.number);
    }
  }

  /** 2^53 + 1 rounds to 2^53: scanning finds it, seeking does not. */
  lemma {:induction false} CollisionExample()
    ensures Collide(IntValue(TWO_53 + 1), IntValue(TWO_53))
  {
    NearestMagnitude(TWO_53);
    assert Excess(TWO_52) == 0;
    assert Excess(TWO_53 + 1) == 1;
    assert PowerOfTwo(0) == 1 && PowerOfTwo(1) == 2;
    assert Nearest(TWO_53 + 1) == RoundToMultiple(TWO_53 + 1, 2) == TWO_53;
  }
}
