/** The latency percentiles of one statistics row (internal/app/scheduler.go).

    Which value is the k-th smallest is said by counting, without any sorting; the sorted copy
    is how the code finds it. */
module Percentiles {

  function Below(xs: seq<int>, v: int): nat {
    if xs == [] then 0 else (if xs[0] < v then 1 else 0) + Below(xs[1..], v)
  }

  function UpTo(xs: seq<int>, v: int): nat {
    if xs == [] then 0 else (if xs[0] <= v then 1 else 0) + UpTo(xs[1..], v)
  }

  /** `v` is the value at position `k`, counted from 0, in order of size. */
  predicate IsRank(xs: seq<int>, k: int, v: int) {
    Below(xs, v) <= k < UpTo(xs, v)
  }

  lemma {:induction false} UpToIsBelow(xs: seq<int>, u: int, v: int)
    requires u < v
    ensures UpTo(xs, u) <= Below(xs, v)
    decreases |xs|
  {
    if xs != [] {
      UpToIsBelow(xs[1..], u, v);
    }
  }

  /** There is at most one value at a position. */
  lemma RankIsUnique(xs: seq<int>, k: int, u: int, v: int)
    requires IsRank(xs, k, u) && IsRank(xs, k, v)
    ensures u == v
  {
    if u < v {
      UpToIsBelow(xs, u, v);
    }
    if v < u {
      UpToIsBelow(xs, v, u);
    }
  }

  /** The value at a later position is not smaller. */
  lemma RanksAreOrdered(xs: seq<int>, j: int, k: int, u: int, v: int)
    requires IsRank(xs, j, u) && IsRank(xs, k, v) && j <= k
    ensures u <= v
  {
    if v < u {
      UpToIsBelow(xs, v, u);
    }
  }

  lemma {:induction false} CountLast(xs: seq<int>, x: int, v: int)
    ensures Below(xs + [x], v) == Below(xs, v) + if x < v then 1 else 0
    ensures UpTo(xs + [x], v) == UpTo(xs, v) + if x <= v then 1 else 0
    decreases |xs|
  {
    if xs == [] {
      assert [] + [x] == [x] && [x][1..] == [];
    } else {
      assert (xs + [x])[1..] == xs[1..] + [x];
      CountLast(xs[1..], x, v);
    }
  }

  predicate Sorted(xs: seq<int>) {
    forall i, j :: 0 <= i < j < |xs| ==> xs[i] <= xs[j]
  }

  function Insert(x: int, xs: seq<int>): seq<int> {
    if xs == [] || x <= xs[0] then [x] + xs else [xs[0]] + Insert(x, xs[1..])
  }

  /** `sort.Ints` */
  function SortInts(xs: seq<int>): seq<int> {
    if xs == [] then [] else Insert(xs[0], SortInts(xs[1..]))
  }

  lemma {:induction false} InsertSorts(x: int, xs: seq<int>)
    requires Sorted(xs)
    ensures Sorted(Insert(x, xs)) && |Insert(x, xs)| == |xs| + 1
    ensures forall i :: 0 <= i < |xs| + 1 ==> Insert(x, xs)[i] == x || Insert(x, xs)[i] in xs
    decreases |xs|
  {
    if xs != [] && x > xs[0] {
      InsertSorts(x, xs[1..]);
      assert forall y :: y in xs[1..] ==> xs[0] <= y;
    }
  }

  lemma {:induction false} SortSorts(xs: seq<int>)
    ensures Sorted(SortInts(xs)) && |SortInts(xs)| == |xs|
    decreases |xs|
  {
    if xs != [] {
      SortSorts(xs[1..]);
      InsertSorts(xs[0], SortInts(xs[1..]));
    }
  }

  lemma {:induction false} InsertCounts(x: int, xs: seq<int>, v: int)
    ensures Below(Insert(x, xs), v) == Below([x] + xs, v)
    ensures UpTo(Insert(x, xs), v) == UpTo([x] + xs, v)
    decreases |xs|
  {
    assert ([x] + xs)[1..] == xs;
    if xs != [] && x > xs[0] {
      InsertCounts(x, xs[1..], v);
      assert ([x] + xs[1..])[1..] == xs[1..];
      assert Insert(x, xs)[1..] == Insert(x, xs[1..]);
    }
  }

  lemma {:induction false} SortCounts(xs: seq<int>, v: int)
    ensures Below(SortInts(xs), v) == Below(xs, v) && UpTo(SortInts(xs), v) == UpTo(xs, v)
    decreases |xs|
  {
    if xs != [] {
      SortCounts(xs[1..], v);
      var rest := SortInts(xs[1..]);
      InsertCounts(xs[0], rest, v);
      assert ([xs[0]] + rest)[1..] == rest;
    }
  }

  lemma {:induction false} SortedBounds(s: seq<int>, k: nat, v: int)
    requires Sorted(s) && k < |s| && v == s[k]
    ensures IsRank(s, k, v)
    decreases |s|
  {
    if k == 0 {
      NoneBelow(s, v);
    } else {
      SortedBounds(s[1..], k - 1, v);
    }
  }

  lemma {:induction false} NoneBelow(s: seq<int>, v: int)
    requires forall i :: 0 <= i < |s| ==> v <= s[i]
    ensures Below(s, v) == 0
    decreases |s|
  {
    if s != [] {
      NoneBelow(s[1..], v);
    }
  }

  /** Position `k` of the sorted copy holds the value that counting gives that position. */
  lemma SortedHoldsRanks(xs: seq<int>, k: nat)
    requires k < |xs|
    ensures k < |SortInts(xs)| && IsRank(xs, k, SortInts(xs)[k])
  {
    SortSorts(xs);
    SortedBounds(SortInts(xs), k, SortInts(xs)[k]);
    SortCounts(xs, SortInts(xs)[k]);
  }

  /** `percentiles` */
  method LatencyPercentiles(latencies: seq<int>) returns (p50: int, p95: int)
    ensures latencies == [] ==> p50 == 0 && p95 == 0
    ensures latencies != [] ==> IsRank(latencies, |latencies| * 50 / 100, p50)
    ensures latencies != [] ==> IsRank(latencies, |latencies| * 95 / 100, p95)
    ensures p50 <= p95
  {
    if |latencies| == 0 {
      return 0, 0;
    }
    var sorted := SortInts(latencies);
    var n := |latencies|;
    SortedHoldsRanks(latencies, n * 50 / 100);
    SortedHoldsRanks(latencies, n * 95 / 100);
    p50 := sorted[n * 50 / 100];
    var p95idx := n * 95 / 100;
    if p95idx >= n {
      p95idx := n - 1;
    }
    p95 := sorted[p95idx];
    RanksAreOrdered(latencies, n * 50 / 100, n * 95 / 100, p50, p95);
  }
}
