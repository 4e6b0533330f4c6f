/** Generation leases: how many live snapshots hold each generation, and which generations are known. */
module Leases {
  import opened Bytes
  import opened Ordering

  datatype CacheStats = CacheStats(knownGenerations: nat, pinnedGenerations: nat, totalPins: nat)

  function Max(a: u64, b: u64): u64
  {
    if a > b then a else b
  }

  /** The part of live that lies in the given generations. */
  ghost function Within(live: multiset<u64>, ids: seq<u64>): multiset<u64>
  {
    if |ids| == 0 then multiset{} else Within(live, ids[..|ids| - 1])[ids[|ids| - 1] := live[ids[|ids| - 1]]]
  }

  lemma {:induction false} WithinCounts(live: multiset<u64>, ids: seq<u64>)
    ensures forall g: u64 :: Within(live, ids)[g] == if g in ids then live[g] else 0
  {
    if |ids| > 0 {
      WithinCounts(live, ids[..|ids| - 1]);
      assert ids == ids[..|ids| - 1] + [ids[|ids| - 1]];
    }
  }

  lemma {:induction false} WithinPushBack(live: multiset<u64>, ids: seq<u64>, k: nat)
    requires k < |ids| && Ascending(ids)
    ensures |Within(live, ids[..k + 1])| == |Within(live, ids[..k])| + live[ids[k]]
  {
    assert ids[..k + 1][..k] == ids[..k];
    var before := Within(live, ids[..k]);
    WithinCounts(live, ids[..k]);
    assert ids[k] !in ids[..k];
    assert before[ids[k]] == 0;
  }

  lemma WithinNone(live: multiset<u64>)
    ensures |Within(live, [])| == 0
  {
  }

  lemma {:induction false} WithinAll(live: multiset<u64>, ids: seq<u64>)
    requires forall g: u64 :: g in ids <==> live[g] > 0
    ensures Within(live, ids) == live
  {
    WithinCounts(live, ids);
  }

  /** The unpinned generations among ids that are older than the latest. */
  ghost function Doomed(ids: seq<u64>, pinned: set<u64>, latest: u64): set<u64>
  {
    set g | g in ids && g < latest && g !in pinned
  }

  lemma {:induction false} DoomedPushBack(ids: seq<u64>, k: nat, pinned: set<u64>, latest: u64)
    requires k < |ids| && Ascending(ids)
    ensures Doomed(ids[..k + 1], pinned, latest)
         == Doomed(ids[..k], pinned, latest) + if ids[k] < latest && ids[k] !in pinned then {ids[k]} else {}
    ensures ids[k] !in Doomed(ids[..k], pinned, latest)
  {
    assert ids[..k + 1] == ids[..k] + [ids[k]];
    assert ids[k] !in ids[..k];
  }

  class LeaseRegistry {
    var pins: map<u64, nat>
    var knownGenerations: set<u64>
    var latestGeneration: u64
    /** The generations of the snapshots that are alive. */
    ghost var live: multiset<u64>

    ghost predicate Valid()
      reads this
    {
      && (forall g: u64 :: g in pins <==> live[g] > 0)
      && (forall g: u64 | g in pins :: pins[g] == live[g])
      && pins.Keys <= knownGenerations
      && forall g | g in knownGenerations :: g <= latestGeneration
    }

    constructor ()
      ensures Valid() && live == multiset{} && knownGenerations == {} && latestGeneration == 1
    {
      pins, knownGenerations, latestGeneration, live := map[], {}, 1, multiset{};
    }

    method RegisterGeneration(generation: u64)
      requires Valid()
      modifies this`latestGeneration, this`knownGenerations
      ensures Valid() && knownGenerations == old(knownGenerations) + {generation}
      ensures latestGeneration == Max(old(latestGeneration), generation)
    {
      latestGeneration := Max(latestGeneration, generation);
      knownGenerations := knownGenerations + {generation};
    }

    method Pin(generation: u64)
      requires Valid()
      modifies this
      ensures Valid() && live == old(live) + multiset{generation}
      ensures knownGenerations == old(knownGenerations) + {generation}
      ensures latestGeneration == Max(old(latestGeneration), generation)
    {
      latestGeneration := Max(latestGeneration, generation);
      knownGenerations := knownGenerations + {generation};
      pins := pins[generation := (if generation in pins then pins[generation] else 0) + 1];
      live := live + multiset{generation};
    }

    method Unpin(generation: u64)
      requires Valid()
      modifies this`pins, this`live
      ensures Valid() && live == old(live) - multiset{generation}
    {
      live := live - multiset{generation};
      if generation !in pins {
        return;
      }
      if pins[generation] <= 1 {
        pins := pins - {generation};
      } else {
        pins := pins[generation := pins[generation] - 1];
      }
    }

    method Stats() returns (stats: CacheStats)
      requires Valid()
      ensures stats == CacheStats(|knownGenerations|, |set g: u64 | g in live|, |live|)
    {
      hide Within;
      var ids := InOrder(pins.Keys);
      WithinNone(live);
      assert ids[..0] == [];
      var total := 0;
      for k := 0 to |ids|
        invariant total == |Within(live, ids[..k])|
      {
        assert ids[k] in ids;
        WithinPushBack(live, ids, k);
        total := total + pins[ids[k]];
      }
      assert ids[..|ids|] == ids;
      WithinAll(live, ids);
      assert pins.Keys == set g: u64 | g in live;
      stats := CacheStats(|knownGenerations|, |pins|, total);
    }

    method HasPinnedOlderThan(generation: u64) returns (r: bool)
      requires Valid()
      ensures r <==> exists g: u64 :: g in live && g < generation
    {
      var ids := InOrder(pins.Keys);
      for k := 0 to |ids|
        invariant forall i | 0 <= i < k :: ids[i] >= generation
      {
        assert ids[k] in ids;
        if pins[ids[k]] != 0 && ids[k] < generation {
          return true;
        }
      }
      forall g: u64 | g in live
        ensures g >= generation
      {
        assert g in ids;
      }
      return false;
    }

    /** Forgets exactly the unpinned generations older than the latest. */
    method EvictUnpinned() returns (evicted: nat)
      requires Valid()
      modifies this`knownGenerations
      ensures Valid() && live == old(live)
      ensures knownGenerations == Remaining(old(knownGenerations), live, latestGeneration)
      ensures evicted == |old(knownGenerations)| - |knownGenerations|
    {
      var ids := InOrder(knownGenerations);
      evicted, knownGenerations := Sweep(ids, knownGenerations, pins.Keys, latestGeneration);
      EvictableIsDoomed(ids, old(knownGenerations), pins.Keys, live, latestGeneration);
    }
  }

  /** gone has been erased from known, and counted. */
  ghost predicate Swept(known: set<u64>, gone: set<u64>, left: set<u64>, evicted: nat)
  {
    left == known - gone && evicted + |left| == |known|
  }

  lemma {:induction false} SweptOne(known: set<u64>, gone: set<u64>, left: set<u64>, evicted: nat, g: u64)
    requires Swept(known, gone, left, evicted) && g in known && g !in gone
    ensures Swept(known, gone + {g}, left - {g}, evicted + 1)
  {
    assert left == (left - {g}) + {g};
  }

  /** The loop over the known generations that erases the doomed ones. */
  method Sweep(ids: seq<u64>, known: set<u64>, pinned: set<u64>, latest: u64) returns (evicted: nat, left: set<u64>)
    requires Ascending(ids) && forall g | g in ids :: g in known
    ensures Swept(known, Doomed(ids, pinned, latest), left, evicted)
  {
    hide Doomed, Swept;
    DoomedNone(pinned, latest);
    assert ids[..0] == [];
    evicted, left := 0, known;
    SweptNothing(known);
    for k := 0 to |ids|
      invariant Swept(known, Doomed(ids[..k], pinned, latest), left, evicted)
    {
      assert ids[k] in ids;
      DoomedPushBack(ids, k, pinned, latest);
      if ids[k] < latest && ids[k] !in pinned {
        SweptOne(known, Doomed(ids[..k], pinned, latest), left, evicted, ids[k]);
        left := left - {ids[k]};
        evicted := evicted + 1;
      } else {
        assert Doomed(ids[..k + 1], pinned, latest) == Doomed(ids[..k], pinned, latest);
      }
    }
    assert ids[..|ids|] == ids;
  }

  lemma {:induction false} SweptNothing(known: set<u64>)
    ensures Swept(known, {}, known, 0)
  {
    assert known - {} == known;
  }

  lemma DoomedNone(pinned: set<u64>, latest: u64)
    ensures Doomed([], pinned, latest) == {}
  {
  }

  /** The known generations no snapshot holds and no later commit needs. */
  ghost function Evictable(known: set<u64>, live: multiset<u64>, latest: u64): set<u64>
  {
    set g | g in known && g < latest && g !in live
  }

  /** The generations that are current or pinned. */
  ghost function Remaining(known: set<u64>, live: multiset<u64>, latest: u64): (left: set<u64>)
    ensures forall g :: g in left <==> g in known && (g >= latest || g in live)
  {
    known - Evictable(known, live, latest)
  }

  lemma EvictableIsDoomed(ids: seq<u64>, known: set<u64>, pinned: set<u64>, live: multiset<u64>, latest: u64)
    requires forall g :: g in ids <==> g in known
    requires forall g: u64 :: g in pinned <==> live[g] > 0
    ensures Evictable(known, live, latest) == Doomed(ids, pinned, latest)
  {
  }
}
