/** How seeds are dealt to at most four workers, and why merging in worker order loses nothing. */
module Partition {

  datatype Range = Range(begin: nat, end: nat)

  /** Consecutive non-empty ranges from 0 to n. */
  ghost predicate Covers(ranges: seq<Range>, n: nat)
  {
    && |ranges| > 0 && ranges[0].begin == 0 && ranges[|ranges| - 1].end == n
    && (forall i | 0 <= i < |ranges| :: ranges[i].begin < ranges[i].end <= n)
    && (forall i | 0 <= i < |ranges| - 1 :: ranges[i].end == ranges[i + 1].begin)
  }

  /** Ranges that stop short of n have the full size. */
  ghost predicate FullSized(ranges: seq<Range>, n: nat, chunk: nat)
  {
    forall i | 0 <= i < |ranges| :: ranges[i].end == ranges[i].begin + chunk || ranges[i].end == n
  }

  /** The chunk size that lets the workers cover everything. */
  lemma ChunksReach(n: nat, workers: nat, chunk: nat)
    requires n >= 2 && workers == (if n < 4 then n else 4) && chunk == (n + workers - 1) / workers
    ensures chunk > 0 && workers * chunk >= n
  {
  }

  /** Up to four workers with ceil(n / workers) items each; the last ones may get nothing. */
  method Split(n: nat) returns (ranges: seq<Range>)
    requires n >= 2
    ensures Covers(ranges, n) && |ranges| <= 4
    ensures forall i | 0 <= i < |ranges| - 1 ::
              ranges[i].end - ranges[i].begin == if n < 4 then 1 else (n + 3) / 4
  {
    hide FullSized, Covers;
    var workers := if n < 4 then n else 4;
    var chunk := (n + workers - 1) / workers;
    ChunksReach(n, workers, chunk);
    ranges := [];
    NoneSized(n, chunk);
    var worker := 0;
    while worker < workers
      invariant worker <= workers && |ranges| == worker
      invariant worker == 0 || Covers(ranges, if worker * chunk < n then worker * chunk else n)
      invariant worker > 0 ==> (worker - 1) * chunk < n
      invariant FullSized(ranges, n, chunk)
    {
      var begin := worker * chunk;
      if begin >= n {
        break;
      }
      NextChunk(worker, chunk);
      var end := if n < begin + chunk then n else begin + chunk;
      FullSizedNext(ranges, n, chunk, Range(begin, end));
      CoversNext(ranges, begin, end);
      ranges := ranges + [Range(begin, end)];
      worker := worker + 1;
    }
    OnlyLastIsShort(ranges, n, chunk);
    ChunkSize(n, workers, chunk);
  }

  lemma ChunkSize(n: nat, workers: nat, chunk: nat)
    requires n >= 2 && workers == (if n < 4 then n else 4) && chunk == (n + workers - 1) / workers
    ensures chunk == if n < 4 then 1 else (n + 3) / 4
  {
  }

  lemma {:induction false} CoversNext(ranges: seq<Range>, begin: nat, end: nat)
    requires (if |ranges| == 0 then begin == 0 else Covers(ranges, begin)) && begin < end
    ensures Covers(ranges + [Range(begin, end)], end)
  {
    var longer := ranges + [Range(begin, end)];
    forall i | 0 <= i < |longer| - 1
      ensures longer[i].end == longer[i + 1].begin
    {
      assert i < |ranges| - 1 ==> ranges[i].end == ranges[i + 1].begin;
    }
  }

  lemma NoneSized(n: nat, chunk: nat)
    ensures FullSized([], n, chunk)
  {
  }

  lemma FullSizedNext(ranges: seq<Range>, n: nat, chunk: nat, next: Range)
    requires FullSized(ranges, n, chunk) && (next.end == next.begin + chunk || next.end == n)
    ensures FullSized(ranges + [next], n, chunk)
  {
  }

  lemma {:induction false} OnlyLastIsShort(ranges: seq<Range>, n: nat, chunk: nat)
    requires Covers(ranges, n)
    requires FullSized(ranges, n, chunk)
    ensures forall i | 0 <= i < |ranges| - 1 :: ranges[i].end - ranges[i].begin == chunk
  {
    forall i | 0 <= i < |ranges| - 1
      ensures ranges[i].end < n
    {
      assert ranges[i].end == ranges[i + 1].begin;
    }
  }

  lemma NextChunk(worker: nat, chunk: nat)
    ensures (worker + 1) * chunk == worker * chunk + chunk
  {
  }

  /** Slices over covering ranges concatenate to the whole. */
  lemma {:induction false} SliceGrows<T>(s: seq<T>, ranges: seq<Range>, k: nat)
    requires Covers(ranges, |s|) && k < |ranges|
    ensures s[..ranges[k].end] == s[..ranges[k].begin] + s[ranges[k].begin..ranges[k].end]
    ensures k > 0 ==> ranges[k].begin == ranges[k - 1].end
  {
    if k > 0 {
      assert ranges[k - 1].end == ranges[k - 1 + 1].begin;
    }
  }
}
