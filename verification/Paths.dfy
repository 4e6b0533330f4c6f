/**
 Bounded breadth-first search, level by level: level k + 1 extends every walk of level k by every leaving
 edge whose far end is not on the walk yet. The levels up to the bound are exactly the simple paths.
 */
module Paths {
  import opened Bytes
  import opened Values
  import opened Ordering
  import opened Snapshots

  datatype Direction = Out | In

  /** What a traversal follows: edges of one type in one direction. */
  datatype Traversal = Traversal(edges: seq<Edge>, kind: Text, direction: Direction)

  type Walk = seq<Edge>

  function NearEnd(t: Traversal, e: Edge): u64
  {
    if t.direction == Out then e.body.from else e.body.to
  }

  function FarEnd(t: Traversal, e: Edge): u64
  {
    if t.direction == Out then e.body.to else e.body.from
  }

  function LeavingTest(t: Traversal, node: u64): Edge -> bool
  {
    if t.direction == Out then OutTest((node, t.kind)) else InTest((node, t.kind))
  }

  /** The edges that can be followed from a node, by id. */
  function Leaving(t: Traversal, node: u64): seq<Edge>
  {
    Filter(t.edges, LeavingTest(t, node))
  }

  /** The nodes on a walk from the seed. */
  function NodesOn(t: Traversal, seed: u64, w: Walk): (r: seq<u64>)
    ensures |r| == |w| + 1
  {
    if |w| == 0 then [seed] else NodesOn(t, seed, w[..|w| - 1]) + [FarEnd(t, w[|w| - 1])]
  }

  function EndOf(t: Traversal, seed: u64, w: Walk): u64
  {
    NodesOn(t, seed, w)[|w|]
  }

  /** Every edge continues the walk along the type and direction, and no node is met twice. */
  ghost predicate IsSimplePath(t: Traversal, seed: u64, w: Walk)
  {
    && Distinct(NodesOn(t, seed, w))
    && forall i | 0 <= i < |w| ::
         w[i] in t.edges && w[i].body.kind == t.kind && NearEnd(t, w[i]) == NodesOn(t, seed, w)[i]
  }

  // ---- extending walks ----

  /** The edges among es that leave the walk's nodes, each appended to the walk. */
  function Extend(t: Traversal, seed: u64, w: Walk, es: seq<Edge>): (r: seq<Walk>)
    ensures |r| <= |es|
    ensures forall i | 0 <= i < |r| :: |r[i]| == |w| + 1
  {
    if |es| == 0 then []
    else
      var last := es[|es| - 1];
      Extend(t, seed, w, es[..|es| - 1])
      + if FarEnd(t, last) in NodesOn(t, seed, w) then [] else [w + [last]]
  }

  function Extensions(t: Traversal, seed: u64, w: Walk): (r: seq<Walk>)
    ensures forall i | 0 <= i < |r| :: |r[i]| == |w| + 1
  {
    Extend(t, seed, w, Leaving(t, EndOf(t, seed, w)))
  }

  function ExtendAll(t: Traversal, seed: u64, ws: seq<Walk>): seq<Walk>
  {
    if |ws| == 0 then [] else ExtendAll(t, seed, ws[..|ws| - 1]) + Extensions(t, seed, ws[|ws| - 1])
  }

  function Level(t: Traversal, seed: u64, k: nat): seq<Walk>
  {
    if k == 0 then [[]] else ExtendAll(t, seed, Level(t, seed, k - 1))
  }

  /** Levels 1 to h, in order. */
  function PathsUpTo(t: Traversal, seed: u64, h: nat): seq<Walk>
  {
    if h == 0 then [] else PathsUpTo(t, seed, h - 1) + Level(t, seed, h)
  }

  // ---- exactly the simple paths ----

  lemma {:induction false} LeavingMeans(t: Traversal, node: u64, e: Edge)
    ensures e in Leaving(t, node) <==> e in t.edges && e.body.kind == t.kind && NearEnd(t, e) == node
  {
    FilterMembers(t.edges, LeavingTest(t, node));
  }

  lemma {:induction false} NodesOnLonger(t: Traversal, seed: u64, w: Walk, e: Edge)
    ensures NodesOn(t, seed, w + [e]) == NodesOn(t, seed, w) + [FarEnd(t, e)]
  {
    assert (w + [e])[..|w|] == w;
  }

  /** A simple path is a shorter one and a leaving edge to a new node. */
  lemma {:induction false} SimplePathStep(t: Traversal, seed: u64, w: Walk, e: Edge)
    ensures IsSimplePath(t, seed, w + [e])
       <==> IsSimplePath(t, seed, w) && e in Leaving(t, EndOf(t, seed, w)) && FarEnd(t, e) !in NodesOn(t, seed, w)
  {
    hide NodesOn;
    NodesOnLonger(t, seed, w, e);
    LeavingMeans(t, EndOf(t, seed, w), e);
    var nodes, longer := NodesOn(t, seed, w), NodesOn(t, seed, w + [e]);
    assert longer[|w| + 1] == FarEnd(t, e) && forall i | 0 <= i <= |w| :: longer[i] == nodes[i];
    if IsSimplePath(t, seed, w + [e]) {
      assert (w + [e])[|w|] == e;
      assert forall i | 0 <= i < |w| :: (w + [e])[i] == w[i];
    }
  }

  lemma {:induction false} ExtendMembers(t: Traversal, seed: u64, w: Walk, es: seq<Edge>, v: Walk)
    ensures v in Extend(t, seed, w, es)
       <==> |v| == |w| + 1 && v[..|w|] == w && v[|w|] in es && FarEnd(t, v[|w|]) !in NodesOn(t, seed, w)
  {
    hide NodesOn, FarEnd;
    if |es| > 0 {
      ExtendMembers(t, seed, w, es[..|es| - 1], v);
      assert es == es[..|es| - 1] + [es[|es| - 1]];
      assert |v| == |w| + 1 ==> v == v[..|w|] + [v[|w|]];
    }
  }

  lemma {:induction false} ExtendAllMembers(t: Traversal, seed: u64, ws: seq<Walk>, v: Walk)
    ensures v in ExtendAll(t, seed, ws) <==> |v| > 0 && v[..|v| - 1] in ws && v in Extensions(t, seed, v[..|v| - 1])
  {
    hide NodesOn;
    if |ws| > 0 {
      var last := ws[|ws| - 1];
      ExtendAllMembers(t, seed, ws[..|ws| - 1], v);
      ExtendMembers(t, seed, last, Leaving(t, EndOf(t, seed, last)), v);
      assert ws == ws[..|ws| - 1] + [last];
    }
  }

  lemma {:induction false} SimplePathPrefix(t: Traversal, seed: u64, w: Walk)
    requires |w| > 0
    ensures IsSimplePath(t, seed, w)
       <==> IsSimplePath(t, seed, w[..|w| - 1]) && w in Extensions(t, seed, w[..|w| - 1])
  {
    hide IsSimplePath, Leaving, NodesOn;
    var front, last := w[..|w| - 1], w[|w| - 1];
    assert w == front + [last];
    SimplePathStep(t, seed, front, last);
    ExtendMembers(t, seed, front, Leaving(t, EndOf(t, seed, front)), w);
  }

  /** Level k holds the simple paths of k edges and nothing else. */
  lemma {:induction false} LevelExact(t: Traversal, seed: u64, k: nat)
    ensures forall w :: w in Level(t, seed, k) <==> |w| == k && IsSimplePath(t, seed, w)
    decreases k
  {
    hide IsSimplePath, Extensions;
    forall w: Walk
      ensures w in Level(t, seed, k) <==> |w| == k && IsSimplePath(t, seed, w)
    {
      if k == 0 {
        EmptyPathIsSimple(t, seed);
      } else {
        LevelExact(t, seed, k - 1);
        ExtendAllMembers(t, seed, Level(t, seed, k - 1), w);
        if |w| > 0 {
          SimplePathPrefix(t, seed, w);
        }
      }
    }
  }

  lemma EmptyPathIsSimple(t: Traversal, seed: u64)
    ensures IsSimplePath(t, seed, [])
  {
  }

  // ---- each once, by length and then by edge ids ----

  /** Shorter first; equally long walks by the first edge id that differs. */
  ghost predicate Precedes(v: Walk, w: Walk)
  {
    || |v| < |w|
    || (|v| == |w| && exists i | 0 <= i < |v| :: v[..i] == w[..i] && v[i].id < w[i].id)
  }

  ghost predicate InPathOrder(ws: seq<Walk>)
  {
    forall i, j | 0 <= i < j < |ws| :: Precedes(ws[i], ws[j])
  }

  lemma {:induction false} OrderConcat(a: seq<Walk>, b: seq<Walk>)
    requires InPathOrder(a) && InPathOrder(b)
    requires forall i, j | 0 <= i < |a| && 0 <= j < |b| :: Precedes(a[i], b[j])
    ensures InPathOrder(a + b)
  {
    hide Precedes;
    var all := a + b;
    forall i, j | 0 <= i < j < |all|
      ensures Precedes(all[i], all[j])
    {
      if j < |a| {
        assert Precedes(a[i], a[j]);
      } else if i >= |a| {
        assert Precedes(b[i - |a|], b[j - |a|]);
      } else {
        assert Precedes(a[i], b[j - |a|]);
      }
    }
  }

  lemma {:induction false} SiblingOrder(w: Walk, d: Edge, e: Edge)
    requires d.id < e.id
    ensures Precedes(w + [d], w + [e])
  {
    assert (w + [d])[..|w|] == (w + [e])[..|w|];
  }

  lemma {:induction false} ExtendOrdered(t: Traversal, seed: u64, w: Walk, es: seq<Edge>)
    requires IdAscending(es)
    ensures InPathOrder(Extend(t, seed, w, es))
  {
    hide Precedes, NodesOn;
    if |es| > 0 {
      var front, last := es[..|es| - 1], es[|es| - 1];
      var before := Extend(t, seed, w, front);
      ExtendOrdered(t, seed, w, front);
      forall i | 0 <= i < |before|
        ensures Precedes(before[i], w + [last])
      {
        ExtendMembers(t, seed, w, front, before[i]);
        assert before[i] in before;
        assert before[i] == w + [before[i][|w|]];
        SiblingOrder(w, before[i][|w|], last);
      }
      OrderConcat(before, if FarEnd(t, last) in NodesOn(t, seed, w) then [] else [w + [last]]);
    }
  }

  lemma {:induction false} CousinOrder(v: Walk, w: Walk, d: Edge, e: Edge)
    requires |v| == |w| && Precedes(v, w)
    ensures Precedes(v + [d], w + [e])
  {
    var i :| 0 <= i < |v| && v[..i] == w[..i] && v[i].id < w[i].id;
    assert (v + [d])[..i] == v[..i] && (w + [e])[..i] == w[..i];
    assert (v + [d])[i] == v[i] && (w + [e])[i] == w[i];
  }

  /** Extensions of an earlier walk come before extensions of a later one. */
  lemma {:induction false} CousinsOrdered(t: Traversal, seed: u64, front: seq<Walk>, last: Walk, x: Walk, y: Walk)
    requires forall m | 0 <= m < |front| :: |front[m]| == |last| && Precedes(front[m], last)
    requires x in ExtendAll(t, seed, front) && y in Extensions(t, seed, last)
    ensures Precedes(x, y)
  {
    hide Precedes, NodesOn, Leaving, Extend, ExtendAll;
    ExtendAllMembers(t, seed, front, x);
    ExtendMembers(t, seed, last, Leaving(t, EndOf(t, seed, last)), y);
    var v := x[..|x| - 1];
    var m :| 0 <= m < |front| && front[m] == v;
    assert x == v + [x[|v|]] && y == last + [y[|last|]];
    CousinOrder(v, last, x[|v|], y[|last|]);
  }

  lemma {:induction false} ExtendAllOrdered(t: Traversal, seed: u64, ws: seq<Walk>, k: nat)
    requires InPathOrder(ws) && IdAscending(t.edges)
    requires forall i | 0 <= i < |ws| :: |ws[i]| == k
    ensures InPathOrder(ExtendAll(t, seed, ws))
  {
    hide Precedes, NodesOn, Leaving, IdAscending, Extend;
    if |ws| > 0 {
      var front, last := ws[..|ws| - 1], ws[|ws| - 1];
      var before, after := ExtendAll(t, seed, front), Extensions(t, seed, last);
      ExtendAllOrdered(t, seed, front, k);
      LeavingAscends(t, EndOf(t, seed, last));
      ExtendOrdered(t, seed, last, Leaving(t, EndOf(t, seed, last)));
      forall i, j | 0 <= i < |before| && 0 <= j < |after|
        ensures Precedes(before[i], after[j])
      {
        assert before[i] in before && after[j] in after;
        CousinsOrdered(t, seed, front, last, before[i], after[j]);
      }
      OrderConcat(before, after);
    }
  }

  lemma {:induction false} LeavingAscends(t: Traversal, node: u64)
    requires IdAscending(t.edges)
    ensures IdAscending(Leaving(t, node))
  {
    FilterKeepsIds(t.edges, LeavingTest(t, node));
  }

  lemma OnlyOneOrdered(w: Walk)
    ensures InPathOrder([w])
  {
  }

  lemma {:induction false} LevelOrdered(t: Traversal, seed: u64, k: nat)
    requires IdAscending(t.edges)
    ensures InPathOrder(Level(t, seed, k))
    ensures forall i | 0 <= i < |Level(t, seed, k)| :: |Level(t, seed, k)[i]| == k
  {
    hide Precedes, InPathOrder, IdAscending, ExtendAll, Extensions;
    if k == 0 {
      OnlyOneOrdered([]);
    } else {
      var ws := Level(t, seed, k - 1);
      LevelOrdered(t, seed, k - 1);
      ExtendAllOrdered(t, seed, ws, k - 1);
      forall i | 0 <= i < |Level(t, seed, k)|
        ensures |Level(t, seed, k)[i]| == k
      {
        var v := Level(t, seed, k)[i];
        assert v in Level(t, seed, k);
        ExtendAllMembers(t, seed, ws, v);
      }
    }
  }

  /**
   Up to the bound, the levels list the simple paths of one to h edges, each edge sequence once, by length
   and then by edge ids.
   */
  lemma {:induction false} PathsExact(t: Traversal, seed: u64, h: nat)
    requires IdAscending(t.edges)
    ensures forall w :: w in PathsUpTo(t, seed, h) <==> 1 <= |w| <= h && IsSimplePath(t, seed, w)
    ensures InPathOrder(PathsUpTo(t, seed, h))
  {
    hide IsSimplePath, Level;
    if h > 0 {
      var shorter, level := PathsUpTo(t, seed, h - 1), Level(t, seed, h);
      PathsExact(t, seed, h - 1);
      LevelExact(t, seed, h);
      LevelOrdered(t, seed, h);
      forall i, j | 0 <= i < |shorter| && 0 <= j < |level|
        ensures Precedes(shorter[i], level[j])
      {
        assert shorter[i] in shorter;
      }
      OrderConcat(shorter, level);
    }
  }

  /** Path order is irreflexive, so a list in path order repeats nothing. */
  lemma {:induction false} OrderedPathsDistinct(ws: seq<Walk>)
    requires InPathOrder(ws)
    ensures Distinct(ws)
  {
    forall i, j | 0 <= i < j < |ws|
      ensures ws[i] != ws[j]
    {
      assert Precedes(ws[i], ws[j]);
    }
  }
}
