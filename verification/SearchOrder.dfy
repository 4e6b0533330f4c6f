/**
 A first-in-first-out search visits the walks in level order: after k visits the queue holds what the first
 k walks of the level list discovered, less those k.
 */
module SearchOrder {
  import opened Bytes
  import opened Ordering
  import opened Paths

  /** What visiting a walk adds to the queue: nothing once the hop bound is reached. */
  function Offspring(t: Traversal, seed: u64, h: nat, w: Walk): seq<Walk>
  {
    if |w| < h then Extensions(t, seed, w) else []
  }

  function OffspringAll(t: Traversal, seed: u64, h: nat, ws: seq<Walk>): seq<Walk>
  {
    if |ws| == 0 then [] else OffspringAll(t, seed, h, ws[..|ws| - 1]) + Offspring(t, seed, h, ws[|ws| - 1])
  }

  /** Every walk that is ever queued, the empty one first. */
  function Discovered(t: Traversal, seed: u64, h: nat): (r: seq<Walk>)
    ensures |r| == 1 + |PathsUpTo(t, seed, h)|
  {
    [[]] + PathsUpTo(t, seed, h)
  }

  /** The queue after k visits. */
  function QueueAfter(t: Traversal, seed: u64, h: nat, k: nat): seq<Walk>
    requires k <= |Discovered(t, seed, h)|
  {
    var seen := [[]] + OffspringAll(t, seed, h, Discovered(t, seed, h)[..k]);
    if k <= |seen| then seen[k..] else []
  }

  lemma {:induction false} OffspringAllConcat(t: Traversal, seed: u64, h: nat, a: seq<Walk>, b: seq<Walk>)
    ensures OffspringAll(t, seed, h, a + b) == OffspringAll(t, seed, h, a) + OffspringAll(t, seed, h, b)
  {
    hide Offspring;
    if |b| == 0 {
      assert a + b == a;
    } else {
      OffspringAllConcat(t, seed, h, a, b[..|b| - 1]);
      assert (a + b)[..|a + b| - 1] == a + b[..|b| - 1];
    }
  }

  lemma {:induction false} OffspringOfLevel(t: Traversal, seed: u64, h: nat, ws: seq<Walk>, k: nat)
    requires forall i | 0 <= i < |ws| :: |ws[i]| == k
    ensures OffspringAll(t, seed, h, ws) == if k < h then ExtendAll(t, seed, ws) else []
  {
    hide Extensions;
    if |ws| > 0 {
      OffspringOfLevel(t, seed, h, ws[..|ws| - 1], k);
    }
  }

  lemma {:induction false} DiscoveredGrows(t: Traversal, seed: u64, j: nat)
    ensures j == 0 ==> Discovered(t, seed, j) == Level(t, seed, j)
    ensures j > 0 ==> Discovered(t, seed, j) == Discovered(t, seed, j - 1) + Level(t, seed, j)
    ensures PathsUpTo(t, seed, j + 1) == PathsUpTo(t, seed, j) + Level(t, seed, j + 1)
    ensures PathsUpTo(t, seed, 0) == []
  {
    hide ExtendAll;
  }

  lemma {:induction false} OffspringOfShorter(t: Traversal, seed: u64, h: nat, j: nat)
    requires j < h && IdAscending(t.edges)
    ensures OffspringAll(t, seed, h, Discovered(t, seed, j)) == PathsUpTo(t, seed, j + 1)
  {
    hide ExtendAll, Offspring, OffspringAll, Discovered, PathsUpTo, InPathOrder, IdAscending;
    LevelOrdered(t, seed, j);
    OffspringOfLevel(t, seed, h, Level(t, seed, j), j);
    DiscoveredGrows(t, seed, j);
    if j == 0 {
      assert [] + Level(t, seed, 1) == Level(t, seed, 1);
    } else {
      OffspringOfShorter(t, seed, h, j - 1);
      OffspringAllConcat(t, seed, h, Discovered(t, seed, j - 1), Level(t, seed, j));
    }
  }

  /** Everything queued after the seed is discovered by something queued. */
  lemma {:induction false} DiscoveredIsClosed(t: Traversal, seed: u64, h: nat)
    requires IdAscending(t.edges)
    ensures OffspringAll(t, seed, h, Discovered(t, seed, h)) == PathsUpTo(t, seed, h)
  {
    hide ExtendAll, Offspring, OffspringAll, Discovered, PathsUpTo, InPathOrder, IdAscending, Level;
    LevelOrdered(t, seed, h);
    OffspringOfLevel(t, seed, h, Level(t, seed, h), h);
    DiscoveredGrows(t, seed, h);
    if h > 0 {
      OffspringOfShorter(t, seed, h, h - 1);
      OffspringAllConcat(t, seed, h, Discovered(t, seed, h - 1), Level(t, seed, h));
      assert PathsUpTo(t, seed, h) + [] == PathsUpTo(t, seed, h);
    }
  }

  /** What k visits discovered is the beginning of the level list. */
  lemma {:induction false} DiscoveredSoFar(t: Traversal, seed: u64, h: nat, k: nat)
    requires IdAscending(t.edges) && k <= |Discovered(t, seed, h)|
    ensures OffspringAll(t, seed, h, Discovered(t, seed, h)[..k]) <= PathsUpTo(t, seed, h)
  {
    hide Discovered, OffspringAll, PathsUpTo;
    var all := Discovered(t, seed, h);
    DiscoveredIsClosed(t, seed, h);
    OffspringAllConcat(t, seed, h, all[..k], all[k..]);
    assert all == all[..k] + all[k..];
  }

  lemma {:induction false} OffspringMembers(t: Traversal, seed: u64, h: nat, ws: seq<Walk>, w: Walk, v: Walk)
    requires w in ws && v in Offspring(t, seed, h, w)
    ensures v in OffspringAll(t, seed, h, ws)
  {
    hide Offspring;
    if w != ws[|ws| - 1] {
      assert ws == ws[..|ws| - 1] + [ws[|ws| - 1]];
      OffspringMembers(t, seed, h, ws[..|ws| - 1], w, v);
    }
  }

  /** Where a walk's one-edge-shorter prefix is queued. */
  lemma {:induction false} PrefixIsEarlier(t: Traversal, seed: u64, h: nat, k: nat)
    requires IdAscending(t.edges) && 0 < k < |Discovered(t, seed, h)|
    ensures var v := Discovered(t, seed, h)[k];
            0 < |v| <= h && v[..|v| - 1] in Discovered(t, seed, h)[..k] && v in Extensions(t, seed, v[..|v| - 1])
  {
    hide PathsUpTo, IsSimplePath, Extensions;
    PathsExact(t, seed, h);
    var all, paths := Discovered(t, seed, h), PathsUpTo(t, seed, h);
    var v := all[k];
    assert v == paths[k - 1] && v in paths;
    var w := v[..|v| - 1];
    SimplePathPrefix(t, seed, v);
    if w == [] {
      assert all[..k][0] == w;
    } else {
      assert w in paths;
      var j :| 0 <= j < |paths| && paths[j] == w;
      assert j > k - 1 ==> Precedes(paths[k - 1], paths[j]);
      assert j < k - 1 && all[..k][j + 1] == w;
    }
  }

  /** The search does not run dry early: before the last walk is visited the queue is not empty. */
  lemma {:induction false} QueueNotEmpty(t: Traversal, seed: u64, h: nat, k: nat)
    requires IdAscending(t.edges) && k < |Discovered(t, seed, h)|
    ensures k <= |OffspringAll(t, seed, h, Discovered(t, seed, h)[..k])|
  {
    hide PathsUpTo, OffspringAll, Extensions;
    var all, paths := Discovered(t, seed, h), PathsUpTo(t, seed, h);
    var found := OffspringAll(t, seed, h, all[..k]);
    DiscoveredSoFar(t, seed, h, k);
    if k > 0 {
      var v := all[k];
      PrefixIsEarlier(t, seed, h, k);
      OffspringMembers(t, seed, h, all[..k], v[..|v| - 1], v);
      var i :| 0 <= i < |found| && found[i] == v;
      PathsExact(t, seed, h);
      OrderedPathsDistinct(paths);
      assert paths[i] == v && paths[k - 1] == v;
      assert i == k - 1;
    }
  }

  /** The walk visited next is the next one in level order, and visiting it queues its offspring. */
  lemma {:induction false} NextVisit(t: Traversal, seed: u64, h: nat, k: nat)
    requires IdAscending(t.edges) && k < |Discovered(t, seed, h)|
    ensures var queue, w := QueueAfter(t, seed, h, k), Discovered(t, seed, h)[k];
            && |queue| > 0 && queue[0] == w
            && QueueAfter(t, seed, h, k + 1) == queue[1..] + Offspring(t, seed, h, w)
            && OffspringAll(t, seed, h, Discovered(t, seed, h)[..k + 1])
               == OffspringAll(t, seed, h, Discovered(t, seed, h)[..k]) + Offspring(t, seed, h, w)
  {
    hide PathsUpTo, Offspring;
    var all := Discovered(t, seed, h);
    DiscoveredSoFar(t, seed, h, k);
    QueueNotEmpty(t, seed, h, k);
    assert all[..k + 1][..k] == all[..k];
  }

  /** The queue is empty exactly when everything was visited. */
  lemma {:induction false} QueueEmptyAtEnd(t: Traversal, seed: u64, h: nat)
    requires IdAscending(t.edges)
    ensures QueueAfter(t, seed, h, |Discovered(t, seed, h)|) == []
    ensures OffspringAll(t, seed, h, Discovered(t, seed, h)[..|Discovered(t, seed, h)|]) == PathsUpTo(t, seed, h)
  {
    hide PathsUpTo, OffspringAll;
    DiscoveredIsClosed(t, seed, h);
    assert Discovered(t, seed, h)[..|Discovered(t, seed, h)|] == Discovered(t, seed, h);
  }
}
