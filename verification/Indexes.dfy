/** Position indexes built by one pass over a list, and what looking a key up in them returns. */
module Indexes {
  import opened Ordering

  /** Where the elements satisfying p are, in order. */
  function Positions<T>(items: seq<T>, p: T -> bool): (r: seq<nat>)
    ensures forall j | 0 <= j < |r| :: r[j] < |items|
  {
    if |items| == 0 then []
    else Positions(items[..|items| - 1], p) + if p(items[|items| - 1]) then [|items| - 1] else []
  }

  function EntryAt<K, V>(index: map<K, seq<V>>, k: K): seq<V>
  {
    if k in index then index[k] else []
  }

  /** index[k].push_back(i), which creates the entry when it is missing. */
  function Push<K, V>(index: map<K, seq<V>>, k: K, i: V): map<K, seq<V>>
  {
    index[k := EntryAt(index, k) + [i]]
  }

  /** The index answers every key with the positions of the items that have it. */
  ghost predicate ScanEquivalent<K(!new), T>(index: map<K, seq<nat>>, items: seq<T>, test: K -> (T -> bool))
  {
    forall k :: EntryAt(index, k) == Positions(items, test(k))
  }

  lemma IndexesNothing<K(!new), T>(test: K -> (T -> bool))
    ensures ScanEquivalent(map[], [], test)
  {
  }

  lemma {:induction false} PositionsPushBack<T>(items: seq<T>, i: nat, p: T -> bool)
    requires i < |items|
    ensures Positions(items[..i + 1], p) == Positions(items[..i], p) + if p(items[i]) then [i] else []
  {
    assert items[..i + 1][..i] == items[..i];
  }

  /** Filing item i under the one key it has. */
  lemma {:induction false} IndexesPush<K(!new), T>(index: map<K, seq<nat>>, items: seq<T>, i: nat, key: K, test: K -> (T -> bool))
    requires i < |items| && ScanEquivalent(index, items[..i], test)
    requires forall k :: test(k)(items[i]) <==> k == key
    ensures ScanEquivalent(Push(index, key, i), items[..i + 1], test)
  {
    forall k
      ensures EntryAt(Push(index, key, i), k) == Positions(items[..i + 1], test(k))
    {
      PositionsPushBack(items, i, test(k));
    }
  }

  function Picked<T>(items: seq<T>, positions: seq<nat>): (r: seq<T>)
    requires forall j | 0 <= j < |positions| :: positions[j] < |items|
    ensures |r| == |positions|
  {
    seq(|positions|, j requires 0 <= j < |positions| => items[positions[j]])
  }

  /** The items at the indexed positions. */
  method Gather<T>(items: seq<T>, positions: seq<nat>, ghost p: T -> bool) returns (r: seq<T>)
    requires positions == Positions(items, p)
    ensures r == Filter(items, p)
  {
    r := [];
    for k := 0 to |positions|
      invariant r == Picked(items, positions[..k])
    {
      r := r + [items[positions[k]]];
    }
    assert positions[..|positions|] == positions;
    GatherIsFilter(items, p);
  }

  lemma {:induction false} GatherIsFilter<T>(items: seq<T>, p: T -> bool)
    ensures Picked(items, Positions(items, p)) == Filter(items, p)
  {
    if |items| > 0 {
      var front, last := items[..|items| - 1], items[|items| - 1];
      GatherIsFilter(front, p);
      assert Picked(items, Positions(front, p)) == Picked(front, Positions(front, p));
      assert Picked(items, Positions(items, p)) == Picked(items, Positions(front, p)) + if p(last) then [last] else [];
    }
  }

  lemma {:induction false} FilterSame<T>(s: seq<T>, p: T -> bool, q: T -> bool)
    requires forall x | x in s :: p(x) == q(x)
    ensures Filter(s, p) == Filter(s, q)
  {
    if |s| > 0 {
      assert s[|s| - 1] in s;
      FilterSame(s[..|s| - 1], p, q);
    }
  }
}
