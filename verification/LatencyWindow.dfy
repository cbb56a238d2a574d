/** stats.go: the ring of latency samples and its nearest-rank percentiles. */
module LatencyWindow {
  import opened Prelude

  const CAPACITY: nat := 1024

  function Sum(s: seq<int>): int {
    if s == [] then 0 else Sum(s[..|s| - 1]) + s[|s| - 1]
  }

  /** The last min(n, 1024) samples. */
  function Window(samples: seq<int>): seq<int> {
    if |samples| <= CAPACITY then samples else samples[|samples| - CAPACITY..]
  }

  /** No more than 1024 samples, and those the last ones. */
  lemma WindowMeaning(samples: seq<int>)
    ensures |Window(samples)| == Min(|samples|, 1024)
    ensures exists gone :: samples == gone + Window(samples)
  {
    assert samples == samples[..|samples| - |Window(samples)|] + Window(samples);
  }

  ghost predicate NonNegative(s: seq<int>) {
    forall i :: 0 <= i < |s| ==> s[i] >= 0
  }

  lemma NonNegativePush(s: seq<int>, x: int)
    requires NonNegative(s) && x >= 0
    ensures NonNegative(s + [x])
  {
  }

  lemma SumPush(s: seq<int>, x: int)
    ensures Sum(s + [x]) == Sum(s) + x
  {
    assert (s + [x])[..|s|] == s;
  }

  // ---------- order statistics ----------

  function CountLess(s: seq<int>, v: int): nat {
    if s == [] then 0 else CountLess(s[..|s| - 1], v) + (if s[|s| - 1] < v then 1 else 0)
  }

  /** `v` is the rank-th smallest element of `s`: it occurs in s, fewer than `rank`
      elements are below it and at least `rank` are not above it. */
  ghost predicate IsOrderStatistic(s: seq<int>, rank: nat, v: int) {
    v in s && CountLess(s, v) < rank <= CountLess(s, v + 1)
  }

  /** The smallest rank r with r >= pct/100 of n, at least 1. */
  function NearestRank(pct: nat, n: nat): nat {
    (pct * n + 99) / 100
  }

  lemma RankBounds(pct: nat, n: nat)
    requires 1 <= pct <= 100 && n >= 1
    ensures 1 <= NearestRank(pct, n) <= n
    ensures 100 * NearestRank(pct, n) >= pct * n > 100 * (NearestRank(pct, n) - 1)
  {
    assert pct * n <= 100 * n && pct * n >= n;
  }

  lemma RanksGrow(n: nat)
    ensures NearestRank(95, n) <= NearestRank(99, n)
  {
  }

  predicate Sorted(s: seq<int>) {
    forall i, j :: 0 <= i <= j < |s| ==> s[i] <= s[j]
  }

  function Insert(x: int, s: seq<int>): seq<int> {
    if s == [] || s[|s| - 1] <= x then s + [x] else Insert(x, s[..|s| - 1]) + [s[|s| - 1]]
  }

  function SortedCopy(s: seq<int>): seq<int> {
    if s == [] then [] else Insert(s[|s| - 1], SortedCopy(s[..|s| - 1]))
  }

  lemma {:induction false} InsertElements(x: int, s: seq<int>)
    ensures |Insert(x, s)| == |s| + 1
    ensures forall e :: e in Insert(x, s) ==> e in s || e == x
  {
    if !(s == [] || s[|s| - 1] <= x) {
      InsertElements(x, s[..|s| - 1]);
    }
  }

  lemma {:induction false} InsertSorted(x: int, s: seq<int>)
    requires Sorted(s)
    ensures Sorted(Insert(x, s))
  {
    if !(s == [] || s[|s| - 1] <= x) {
      var front, last := s[..|s| - 1], s[|s| - 1];
      InsertSorted(x, front);
      InsertElements(x, front);
      var t := Insert(x, front);
      forall i | 0 <= i < |t|
        ensures t[i] <= last
      {
        assert t[i] in t;
      }
    }
  }

  lemma {:induction false} InsertCounts(x: int, s: seq<int>, v: int)
    ensures CountLess(Insert(x, s), v) == CountLess(s, v) + (if x < v then 1 else 0)
  {
    if s == [] || s[|s| - 1] <= x {
      assert (s + [x])[..|s|] == s;
    } else {
      var t := Insert(x, s[..|s| - 1]);
      InsertCounts(x, s[..|s| - 1], v);
      assert (t + [s[|s| - 1]])[..|t|] == t;
    }
  }

  lemma {:induction false} SortedCopySorts(s: seq<int>, v: int)
    ensures Sorted(SortedCopy(s)) && |SortedCopy(s)| == |s|
    ensures CountLess(SortedCopy(s), v) == CountLess(s, v)
    ensures forall e :: e in SortedCopy(s) ==> e in s
  {
    if s != [] {
      var front := s[..|s| - 1];
      SortedCopySorts(front, v);
      InsertSorted(s[|s| - 1], SortedCopy(front));
      InsertElements(s[|s| - 1], SortedCopy(front));
      InsertCounts(s[|s| - 1], SortedCopy(front), v);
    }
  }

  lemma {:induction false} CountLessSplit(a: seq<int>, b: seq<int>, v: int)
    ensures CountLess(a + b, v) == CountLess(a, v) + CountLess(b, v)
  {
    if b == [] {
      assert a + b == a;
    } else {
      assert (a + b)[..|a + b| - 1] == a + b[..|b| - 1];
      CountLessSplit(a, b[..|b| - 1], v);
    }
  }

  lemma {:induction false} CountLessSorted(s: seq<int>, v: int, k: nat)
    requires Sorted(s) && k <= |s|
    ensures k < |s| && s[k] >= v ==> CountLess(s, v) <= k
    ensures k > 0 && s[k - 1] < v ==> CountLess(s, v) >= k
  {
    if s != [] {
      var front := s[..|s| - 1];
      if k < |s| {
        CountLessSorted(front, v, k);
        if k == |s| - 1 {
          CountAtMost(front, v);
        }
      } else if s[|s| - 1] < v {
        if k > 1 {
          assert s[k - 2] <= s[k - 1];
        }
        CountLessSorted(front, v, k - 1);
      }
    }
  }

  lemma {:induction false} CountAtMost(s: seq<int>, v: int)
    ensures CountLess(s, v) <= |s|
  {
    if s != [] {
      CountAtMost(s[..|s| - 1], v);
    }
  }

  /** The element at position rank - 1 of the sorted copy is the rank-th smallest. */
  lemma SortedPositionIsOrderStatistic(s: seq<int>, rank: nat)
    requires 1 <= rank <= |s|
    ensures rank <= |SortedCopy(s)|
    ensures IsOrderStatistic(s, rank, SortedCopy(s)[rank - 1])
  {
    hide CountLess, SortedCopy, Sorted;
    var t := SortedCopy(s);
    SortedCopySorts(s, 0);
    var v := t[rank - 1];
    SortedCopySorts(s, v);
    SortedCopySorts(s, v + 1);
    CountLessSorted(t, v, rank - 1);
    CountLessSorted(t, v + 1, rank);
    assert v in t;
  }

  /** There is only one rank-th smallest value, and it grows with the rank. */
  lemma OrderStatisticsGrow(s: seq<int>, r1: nat, v1: int, r2: nat, v2: int)
    requires IsOrderStatistic(s, r1, v1) && IsOrderStatistic(s, r2, v2) && r1 <= r2
    ensures v1 <= v2
  {
    if v2 < v1 {
      CountLessMonotone(s, v2 + 1, v1);
    }
  }

  lemma {:induction false} CountLessMonotone(s: seq<int>, v: int, w: int)
    requires v <= w
    ensures CountLess(s, v) <= CountLess(s, w)
  {
    if s != [] {
      CountLessMonotone(s[..|s| - 1], v, w);
    }
  }

  lemma Transfer(s: seq<int>, t: seq<int>, rank: nat, v: int)
    requires IsOrderStatistic(s, rank, v)
    requires CountLess(s, v) == CountLess(t, v) && CountLess(s, v + 1) == CountLess(t, v + 1)
    requires forall e :: e in s ==> e in t
    ensures IsOrderStatistic(t, rank, v)
  {
  }

  /** percentileFromSorted: sorts its argument in place (sort.Slice, whose algorithm is
      not modelled) and picks the nearest rank. */
  method PercentileFromSorted(values: array<int>, pct: nat) returns (v: int)
    requires 1 <= pct <= 100
    modifies values
    ensures values[..] == SortedCopy(old(values[..]))
    ensures values.Length == 0 ==> v == 0
    ensures values.Length > 0 ==> IsOrderStatistic(old(values[..]), NearestRank(pct, values.Length), v)
  {
    var n := values.Length;
    if n == 0 {
      return 0;
    }
    var sorted := SortedCopy(values[..]);
    SortedCopySorts(values[..], 0);
    forall i | 0 <= i < n {
      values[i] := sorted[i];
    }
    assert values[..] == sorted;
    var rank := NearestRank(pct, n);
    RankBounds(pct, n);
    SortedPositionIsOrderStatistic(old(values[..]), rank);
    v := values[rank - 1];
  }

  /** The two calls Snapshot makes on one copied window; the second one sorts what is
      sorted already. */
  method TwoPercentiles(buf: array<int>) returns (p95: int, p99: int)
    requires buf.Length > 0
    modifies buf
    ensures IsOrderStatistic(old(buf[..]), NearestRank(95, buf.Length), p95)
    ensures IsOrderStatistic(old(buf[..]), NearestRank(99, buf.Length), p99)
    ensures p95 <= p99
  {
    hide *;
    p95 := PercentileFromSorted(buf, 95);
    p99 := PercentileFromSorted(buf, 99);
    OfSortedCopy(old(buf[..]), NearestRank(99, buf.Length), p99);
    RanksGrow(buf.Length);
    OrderStatisticsGrow(old(buf[..]), NearestRank(95, buf.Length), p95, NearestRank(99, buf.Length), p99);
  }

  // ---------- the ring ----------

  /** How the slots, written next at `p`, hold the samples: in order while there is
      room, then as the window cut at `p`. */
  ghost predicate Ring(slots: seq<int>, p: nat, count: nat, samples: seq<int>) {
    && |slots| == CAPACITY && p < CAPACITY
    && count == Min(|samples|, CAPACITY)
    && if |samples| < CAPACITY then p == |samples| && slots[..p] == samples
       else slots[p..] + slots[..p] == Window(samples)
  }

  function Advance(p: nat): nat {
    (p + 1) % CAPACITY
  }

  lemma RingPushRoom(slots: seq<int>, p: nat, samples: seq<int>, ns: int)
    requires |slots| == CAPACITY && |samples| == p < CAPACITY && slots[..p] == samples
    ensures Ring(slots[p := ns], Advance(p), p + 1, samples + [ns])
  {
    var slots' := slots[p := ns];
    assert slots'[..p + 1] == samples + [ns];
    if p + 1 == CAPACITY {
      assert slots'[0..] + slots'[..0] == slots'[..p + 1];
    }
  }

  lemma WindowSlides(samples: seq<int>, ns: int)
    requires |samples| >= CAPACITY
    ensures |Window(samples)| == CAPACITY && Window(samples + [ns]) == Window(samples)[1..] + [ns]
  {
  }

  lemma RingPushFull(slots: seq<int>, p: nat, samples: seq<int>, ns: int)
    requires |slots| == CAPACITY <= |samples| && p < CAPACITY
    requires slots[p..] + slots[..p] == Window(samples)
    ensures Ring(slots[p := ns], Advance(p), CAPACITY, samples + [ns])
  {
    WindowSlides(samples, ns);
    RotatePush(slots, p, ns);
    hide Window;
    var slots' := slots[p := ns];
    if p + 1 == CAPACITY {
      assert slots'[0..] + slots'[..0] == slots'[p + 1..] + slots'[..p + 1];
    }
  }

  lemma RotatePush(s: seq<int>, p: nat, x: int)
    requires p < |s|
    ensures s[p := x][p + 1..] + s[p := x][..p + 1] == (s[p..] + s[..p])[1..] + [x]
  {
    var t := s[p := x];
    assert t[p + 1..] == s[p + 1..] && t[..p + 1] == s[..p] + [x];
    assert (s[p..] + s[..p])[1..] == s[p + 1..] + s[..p];
  }

  lemma RingPush(slots: seq<int>, p: nat, count: nat, samples: seq<int>, ns: int)
    requires Ring(slots, p, count, samples)
    ensures Ring(slots[p := ns], Advance(p), if count < CAPACITY then count + 1 else count, samples + [ns])
  {
    if |samples| < CAPACITY {
      RingPushRoom(slots, p, samples, ns);
    } else {
      RingPushFull(slots, p, samples, ns);
    }
  }

  /** The filled slots are the window, rotated. */
  lemma RingIsWindow(slots: seq<int>, p: nat, count: nat, samples: seq<int>, v: int)
    requires Ring(slots, p, count, samples)
    ensures |Window(samples)| == count
    ensures multiset(slots[..count]) == multiset(Window(samples))
    ensures CountLess(slots[..count], v) == CountLess(Window(samples), v)
  {
    if |samples| >= CAPACITY {
      var newer, older := slots[..p], slots[p..];
      assert slots[..count] == newer + older;
      CountLessSplit(newer, older, v);
      CountLessSplit(older, newer, v);
    }
  }

  class Stats {
    var requests: nat
    var successes: nat
    var failures: nat
    var timeouts: nat
    const latencies: array<int>
    var latIdx: nat
    var latCount: nat
    var latSum: int
    ghost var samples: seq<int>  // every latency recorded so far, clipped at 0

    ghost predicate Valid()
      reads this, latencies
    {
      && latencies.Length == CAPACITY
      && Ring(latencies[..], latIdx, latCount, samples)
      && latSum == Sum(samples)
      && NonNegative(samples)
      && requests == successes + failures && timeouts <= failures && successes == |samples|
    }

    constructor ()
      ensures Valid() && samples == [] && requests == 0 && fresh(latencies)
    {
      latencies := new int[CAPACITY];
      requests, successes, failures, timeouts, latIdx, latCount, latSum, samples := 0, 0, 0, 0, 0, 0, 0, [];
    }

    method RecordSuccess(latency: int)
      requires Valid()
      modifies this, latencies
      ensures Valid()
      ensures samples == old(samples) + [Max(0, latency)]
      ensures requests == old(requests) + 1 && successes == old(successes) + 1
      ensures failures == old(failures) && timeouts == old(timeouts)
    {
      hide Ring, Sum, Advance, NonNegative;
      requests := requests + 1;
      successes := successes + 1;
      var ns := latency;
      if ns < 0 {
        ns := 0;
      }
      SumPush(samples, ns);
      NonNegativePush(samples, ns);
      Store(ns);
      latSum := latSum + ns;
      samples := samples + [ns];
    }

    /** The part of RecordSuccess that writes the ring. */
    method Store(ns: int)
      requires latencies.Length == CAPACITY && Ring(latencies[..], latIdx, latCount, samples)
      modifies `latIdx, `latCount, latencies
      ensures Ring(latencies[..], latIdx, latCount, samples + [ns])
    {
      RingPush(latencies[..], latIdx, latCount, samples, ns);
      assert latIdx < latencies.Length;
      hide Ring, Advance;
      latencies[latIdx] := ns;
      assert latencies[..] == old(latencies[..])[latIdx := ns];
      latIdx := Advance(latIdx);
      latCount := if latCount < CAPACITY then latCount + 1 else latCount;
    }

    method RecordFailure(isTimeout: bool)
      requires Valid()
      modifies this
      ensures Valid() && samples == old(samples)
      ensures requests == old(requests) + 1 && failures == old(failures) + 1 && successes == old(successes)
      ensures timeouts == old(timeouts) + (if isTimeout then 1 else 0)
    {
      requests := requests + 1;
      failures := failures + 1;
      if isTimeout {
        timeouts := timeouts + 1;
      }
    }

    /** The percentiles of a snapshot are nearest-rank order statistics of the last
        min(n, 1024) samples; without samples both are 0. */
    method Percentiles() returns (p95: int, p99: int)
      requires Valid()
      ensures samples == [] ==> p95 == p99 == 0
      ensures samples != [] ==>
                && IsOrderStatistic(Window(samples), NearestRank(95, latCount), p95)
                && IsOrderStatistic(Window(samples), NearestRank(99, latCount), p99)
                && p95 <= p99
    {
      assert latCount <= CAPACITY == latencies.Length && (samples == [] <==> latCount == 0);
      hide *;
      if latCount == 0 {
        return 0, 0;
      }
      var buf := new int[latCount];
      forall i | 0 <= i < latCount {
        buf[i] := latencies[i];
      }
      ghost var slots := latencies[..latCount];
      assert buf[..] == slots;
      p95, p99 := TwoPercentiles(buf);
      WindowStatistic(NearestRank(95, latCount), p95);
      WindowStatistic(NearestRank(99, latCount), p99);
    }

    lemma WindowStatistic(rank: nat, v: int)
      requires Valid() && latCount <= CAPACITY && IsOrderStatistic(latencies[..latCount], rank, v)
      ensures IsOrderStatistic(Window(samples), rank, v)
    {
      RingIsWindow(latencies[..], latIdx, latCount, samples, v);
      RingIsWindow(latencies[..], latIdx, latCount, samples, v + 1);
      assert latencies[..][..latCount] == latencies[..latCount];
      hide Ring, CountLess;
      forall e | e in latencies[..latCount]
        ensures e in Window(samples)
      {
        assert e in multiset(latencies[..latCount]);
      }
      Transfer(latencies[..latCount], Window(samples), rank, v);
    }
  }

  lemma OfSortedCopy(s: seq<int>, rank: nat, v: int)
    requires IsOrderStatistic(SortedCopy(s), rank, v)
    ensures IsOrderStatistic(s, rank, v)
  {
    SortedCopySorts(s, v);
    SortedCopySorts(s, v + 1);
    hide CountLess, SortedCopy, Sorted;
    Transfer(SortedCopy(s), s, rank, v);
  }

  lemma {:induction false} SumSplit(a: seq<int>, b: seq<int>)
    ensures Sum(a + b) == Sum(a) + Sum(b)
  {
    if b == [] {
      assert a + b == a;
    } else {
      assert (a + b)[..|a + b| - 1] == a + b[..|b| - 1];
      SumSplit(a, b[..|b| - 1]);
    }
  }

  lemma {:induction false} SumZero(s: seq<int>)
    requires NonNegative(s)
    ensures Sum(s) >= 0 && (Sum(s) == 0 <==> forall i :: 0 <= i < |s| ==> s[i] == 0)
  {
    if s != [] {
      SumZero(s[..|s| - 1]);
      assert forall i :: 0 <= i < |s| - 1 ==> s[..|s| - 1][i] == s[i];
    }
  }

  /** latSum is never reduced, so the reported average, latSum over the window length,
      is the mean of the window if and only if every overwritten sample was 0. */
  lemma AverageIsWindowMean(samples: seq<int>)
    requires NonNegative(samples)
    ensures Sum(samples) == Sum(Window(samples))
            <==> forall i :: 0 <= i < |samples| - 1024 ==> samples[i] == 0
  {
    WindowSplit(samples);
    hide Sum, Window;
    var k := |samples| - |Window(samples)|;
    var gone := samples[..k];
    SumSplit(gone, Window(samples));
    assert NonNegative(gone);
    SumZero(gone);
    assert forall i :: 0 <= i < k ==> gone[i] == samples[i];
  }

  lemma WindowSplit(samples: seq<int>)
    ensures |Window(samples)| == Min(|samples|, 1024)
    ensures samples == samples[..|samples| - |Window(samples)|] + Window(samples)
  {
  }
}
