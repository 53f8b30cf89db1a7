/**
 * The summary written for one finished window of a radar target
 * (`calculate_summary` in src/main.py).
 *
 * A window is the list of `(timestamp, speed, distance)` triples stored for one
 * threat id, in arrival order. Timestamps are whole epoch seconds; speeds and
 * distances are the integers the radar reports.
 */
module Summaries {

  /** One stored triple `(timestamp, speed, distance)`. */
  datatype Sample = Sample(timestamp: int, speed: int, distance: int)

  /** One `(speed, distance)` pair of a summary's "data" list. */
  datatype Reading = Reading(speed: int, distance: int)

  /** The JSON object written per window: "timestamp", "max", "95% max", "average", "data". */
  datatype Summary = Summary(timestamp: int, max: int, max95: int, average: real, data: seq<Reading>)

  // ---------------------------------------------------------------------------
  // Projections of a window (the list comprehensions of calculate_summary)
  // ---------------------------------------------------------------------------

  function Speeds(w: seq<Sample>): (r: seq<int>)
    ensures |r| == |w| && forall i :: 0 <= i < |w| ==> r[i] == w[i].speed
  {
    seq(|w|, i requires 0 <= i < |w| => w[i].speed)
  }

  function Timestamps(w: seq<Sample>): (r: seq<int>)
    ensures |r| == |w| && forall i :: 0 <= i < |w| ==> r[i] == w[i].timestamp
  {
    seq(|w|, i requires 0 <= i < |w| => w[i].timestamp)
  }

  function ReadingOf(s: Sample): Reading {
    Reading(s.speed, s.distance)
  }

  function Readings(w: seq<Sample>): (r: seq<Reading>)
    ensures |r| == |w| && forall i :: 0 <= i < |w| ==> r[i] == ReadingOf(w[i])
  {
    seq(|w|, i requires 0 <= i < |w| => ReadingOf(w[i]))
  }

  lemma ReadingsAppend(w: seq<Sample>, s: Sample)
    ensures Readings(w + [s]) == Readings(w) + [ReadingOf(s)]
  {
    assert forall i :: 0 <= i < |w| + 1 ==> Readings(w + [s])[i] == (Readings(w) + [ReadingOf(s)])[i];
  }

  // ---------------------------------------------------------------------------
  // min, max and sum over a non-empty list
  // ---------------------------------------------------------------------------

  /** Python's `min` over a non-empty list. */
  function Lowest(s: seq<int>): (m: int)
    requires |s| > 0
    ensures m in s && forall i :: 0 <= i < |s| ==> m <= s[i]
  {
    if |s| == 1 then s[0]
    else
      var rest := Lowest(s[1..]);
      if s[0] <= rest then s[0] else rest
  }

  /** Python's `max` over a non-empty list. */
  function Highest(s: seq<int>): (m: int)
    requires |s| > 0
    ensures m in s && forall i :: 0 <= i < |s| ==> s[i] <= m
  {
    if |s| == 1 then s[0]
    else
      var rest := Highest(s[1..]);
      if s[0] >= rest then s[0] else rest
  }

  function Sum(s: seq<int>): int {
    if s == [] then 0 else s[0] + Sum(s[1..])
  }

  lemma {:induction false} SumBetween(s: seq<int>, lo: int, hi: int)
    requires forall i :: 0 <= i < |s| ==> lo <= s[i] <= hi
    ensures |s| * lo <= Sum(s) <= |s| * hi
  {
    if s != [] {
      SumBetween(s[1..], lo, hi);
      assert |s| * lo == (|s| - 1) * lo + lo;
      assert |s| * hi == (|s| - 1) * hi + hi;
    }
  }

  /** `sum(speeds) / len(speeds)`: Python's true division, here over the reals. */
  function Mean(s: seq<int>): (r: real)
    requires |s| > 0
    ensures r * |s| as real == Sum(s) as real
  {
    Sum(s) as real / |s| as real
  }

  /** If n * lo <= total <= n * hi, the quotient total / n lies in [lo, hi]. */
  lemma QuotientBetween(total: int, n: int, lo: int, hi: int)
    requires n > 0 && n * lo <= total <= n * hi
    ensures lo as real <= total as real / n as real <= hi as real
  {
    var t, m, l, h := total as real, n as real, lo as real, hi as real;
    var nl, nh := n * lo, n * hi;
    assert nl as real == m * l;
    assert nh as real == m * h;
    assert m * l <= t <= m * h;
    assert t / m - l == (t - m * l) / m;
    assert h - t / m == (m * h - t) / m;
  }

  /** The mean lies between the smallest and the largest value. */
  lemma MeanBetween(s: seq<int>)
    requires |s| > 0
    ensures Lowest(s) as real <= Mean(s) <= Highest(s) as real
  {
    SumBetween(s, Lowest(s), Highest(s));
    QuotientBetween(Sum(s), |s|, Lowest(s), Highest(s));
  }

  // ---------------------------------------------------------------------------
  // sorted(speeds, reverse=True)
  // ---------------------------------------------------------------------------

  predicate Descending(s: seq<int>) {
    forall i, j :: 0 <= i < j < |s| ==> s[i] >= s[j]
  }

  /** Inserts `x` into a list sorted from largest to smallest. */
  function Insert(x: int, s: seq<int>): (r: seq<int>)
    requires Descending(s)
    ensures |r| == |s| + 1 && multiset(r) == multiset(s) + multiset{x}
    ensures Descending(r)
  {
    if s == [] || x >= s[0] then
      ConsDescending(x, s);
      [x] + s
    else
      var t := Insert(x, s[1..]);
      BoundedByMultiset(t, s[1..], x, s[0]);
      ConsDescending(s[0], t);
      assert multiset([s[0]] + t) == multiset(s) + multiset{x} by {
        assert s == [s[0]] + s[1..];
      }
      [s[0]] + t
  }

  /** A value at least every element of a descending list can go in front of it. */
  lemma ConsDescending(h: int, t: seq<int>)
    requires Descending(t)
    requires forall j :: 0 <= j < |t| ==> t[j] <= h
    ensures Descending([h] + t)
  {
    forall i, j | 0 <= i < j < |t| + 1 ensures ([h] + t)[i] >= ([h] + t)[j] {
      if i > 0 {
        assert ([h] + t)[i] == t[i - 1];
      }
    }
  }

  /** Every element of a permutation of `u` plus `x` is bounded by a bound of `u` and `x`. */
  lemma BoundedByMultiset(t: seq<int>, u: seq<int>, x: int, b: int)
    requires multiset(t) == multiset(u) + multiset{x}
    requires x <= b && forall i :: 0 <= i < |u| ==> u[i] <= b
    ensures forall j :: 0 <= j < |t| ==> t[j] <= b
  {
    forall j | 0 <= j < |t| ensures t[j] <= b {
      assert t[j] in multiset(t);
      if t[j] != x {
        assert t[j] in multiset(u);
        var k :| 0 <= k < |u| && u[k] == t[j];
      }
    }
  }

  /** `sorted(s, reverse=True)`: the same values, from largest to smallest. */
  function SortDesc(s: seq<int>): (r: seq<int>)
    ensures |r| == |s| && multiset(r) == multiset(s)
    ensures Descending(r)
  {
    if s == [] then []
    else
      assert s == [s[0]] + s[1..];
      Insert(s[0], SortDesc(s[1..]))
  }

  /** The first element of a descending permutation of `s` is the largest element of `s`. */
  lemma DescendingHead(s: seq<int>, r: seq<int>)
    requires |s| > 0 && multiset(r) == multiset(s) && Descending(r)
    ensures |r| > 0 && r[0] in s && forall i :: 0 <= i < |s| ==> s[i] <= r[0]
  {
    assert |r| == |multiset(r)| == |s|;
    assert r[0] in multiset(r);
    forall i | 0 <= i < |s| ensures s[i] <= r[0] {
      assert s[i] in multiset(s);
      var j :| 0 <= j < |r| && r[j] == s[i];
    }
  }

  // ---------------------------------------------------------------------------
  // The summary
  // ---------------------------------------------------------------------------

  /**
   * Index `int(n * 0.95)` into the descending list. The source multiplies by the
   * float 0.95; the model uses the exact integer quotient.
   */
  function Index95(n: nat): (k: nat)
    requires n > 0
    ensures k < n
  {
    n * 95 / 100
  }

  /**
   * `sorted(speeds, reverse=True)[int(len(speeds) * 0.95)]`: the (k+1)-th
   * fastest speed for k = int(n * 0.95). At most k speeds are faster than it and
   * at least k + 1 are at least as fast; counted from the fastest, it sits
   * among the slowest samples.
   */
  function Max95(speeds: seq<int>): (v: int)
    requires |speeds| > 0
    ensures v in speeds
    ensures CountAbove(speeds, v) <= Index95(|speeds|)
    ensures CountAtLeast(speeds, v) >= Index95(|speeds|) + 1
  {
    var sorted, k := SortDesc(speeds), Index95(|speeds|);
    assert sorted[k] in multiset(speeds) by {
      assert sorted[k] in multiset(sorted);
    }
    SortCounts(speeds, sorted[k]);
    DescendingRank(sorted, k);
    sorted[k]
  }

  /** `calculate_summary(data)` for a non-empty window. */
  function CalculateSummary(w: seq<Sample>): (r: Summary)
    requires |w| > 0
    // "max" is the largest speed
    ensures r.max in Speeds(w) && forall i :: 0 <= i < |w| ==> w[i].speed <= r.max
    // "95% max" is one of the speeds, never exceeds "max", and is the (k+1)-th fastest for k = int(n * 0.95)
    ensures r.max95 in Speeds(w) && r.max95 <= r.max
    ensures CountAbove(Speeds(w), r.max95) <= Index95(|w|) && CountAtLeast(Speeds(w), r.max95) >= Index95(|w|) + 1
    // "average" lies between the slowest and the fastest speed
    ensures Lowest(Speeds(w)) as real <= r.average <= r.max as real
    // "timestamp" is the earliest timestamp of the window
    ensures r.timestamp in Timestamps(w) && forall i :: 0 <= i < |w| ==> r.timestamp <= w[i].timestamp
    // "data" lists every (speed, distance) pair in arrival order
    ensures |r.data| == |w| && forall i :: 0 <= i < |w| ==> r.data[i] == Reading(w[i].speed, w[i].distance)
    // a single sample is its own max, 95% max and average
    ensures |w| == 1 ==> r.max95 == r.max == w[0].speed && r.average == r.max as real
  {
    var speeds := Speeds(w);
    var sorted := SortDesc(speeds);
    DescendingHead(speeds, sorted);
    MeanBetween(speeds);
    assert Highest(speeds) == sorted[0];
    Summary(Lowest(Timestamps(w)), sorted[0], Max95(speeds), Mean(speeds), Readings(w))
  }

  // ---------------------------------------------------------------------------
  // What "95% max" is: an order statistic counted from the fastest sample
  // ---------------------------------------------------------------------------

  /** Number of values strictly greater than `v`. */
  function CountAbove(s: seq<int>, v: int): nat {
    if s == [] then 0 else (if s[0] > v then 1 else 0) + CountAbove(s[1..], v)
  }

  /** Number of values greater than or equal to `v`. */
  function CountAtLeast(s: seq<int>, v: int): nat {
    if s == [] then 0 else (if s[0] >= v then 1 else 0) + CountAtLeast(s[1..], v)
  }

  lemma {:induction false} InsertCounts(x: int, s: seq<int>, v: int)
    requires Descending(s)
    ensures CountAbove(Insert(x, s), v) == CountAbove(s, v) + (if x > v then 1 else 0)
    ensures CountAtLeast(Insert(x, s), v) == CountAtLeast(s, v) + (if x >= v then 1 else 0)
  {
    if s == [] || x >= s[0] {
      assert ([x] + s)[1..] == s;
    } else {
      InsertCounts(x, s[1..], v);
      var t := Insert(x, s[1..]);
      assert ([s[0]] + t)[1..] == t;
    }
  }

  /** Sorting does not change how many values lie above a threshold. */
  lemma {:induction false} SortCounts(s: seq<int>, v: int)
    ensures CountAbove(SortDesc(s), v) == CountAbove(s, v)
    ensures CountAtLeast(SortDesc(s), v) == CountAtLeast(s, v)
  {
    if s != [] {
      SortCounts(s[1..], v);
      InsertCounts(s[0], SortDesc(s[1..]), v);
    }
  }

  lemma {:induction false} CountAboveAtMost(r: seq<int>, v: int, k: nat)
    requires k <= |r|
    requires forall i :: k <= i < |r| ==> r[i] <= v
    ensures CountAbove(r, v) <= k
  {
    if r != [] {
      CountAboveAtMost(r[1..], v, if k > 0 then k - 1 else 0);
    }
  }

  lemma {:induction false} CountAtLeastAtLeast(r: seq<int>, v: int, m: nat)
    requires m <= |r|
    requires forall i :: 0 <= i < m ==> r[i] >= v
    ensures CountAtLeast(r, v) >= m
  {
    if r != [] && m > 0 {
      CountAtLeastAtLeast(r[1..], v, m - 1);
    }
  }

  /** In a descending list, at most k values lie above `r[k]` and at least k + 1 are at least `r[k]`. */
  lemma DescendingRank(r: seq<int>, k: nat)
    requires Descending(r) && k < |r|
    ensures CountAbove(r, r[k]) <= k && CountAtLeast(r, r[k]) >= k + 1
  {
    CountAboveAtMost(r, r[k], k);
    CountAtLeastAtLeast(r, r[k], k + 1);
  }

  /** For lo < hi, the values at least `hi` are among those above `lo`, so there are no more of them. */
  lemma {:induction false} CountsMonotone(s: seq<int>, lo: int, hi: int)
    requires lo < hi
    ensures CountAtLeast(s, hi) <= CountAbove(s, lo)
  {
    if s != [] {
      CountsMonotone(s[1..], lo, hi);
    }
  }

  /**
   * The two counts of "95% max" determine the value: a speed with at most k
   * faster samples and at least k + 1 samples at least as fast is the
   * "95% max" of the window.
   */
  lemma Max95Unique(w: seq<Sample>, v: int)
    requires |w| > 0
    requires CountAbove(Speeds(w), v) <= Index95(|w|)
    requires CountAtLeast(Speeds(w), v) >= Index95(|w|) + 1
    ensures v == CalculateSummary(w).max95
  {
    var m := CalculateSummary(w).max95;
    if v < m {
      CountsMonotone(Speeds(w), v, m);
      assert false;
    } else if m < v {
      CountsMonotone(Speeds(w), m, v);
      assert false;
    }
  }

  /** A window of two samples: "95% max" is the slower one, not the faster. */
  lemma TwoSampleWindow()
    ensures var r := CalculateSummary([Sample(0, 20, 50), Sample(1, 25, 60)]);
            r.timestamp == 0 && r.max == 25 && r.max95 == 20 && 20.0 <= r.average <= 25.0
            && r.data == [Reading(20, 50), Reading(25, 60)]
  {
    var w := [Sample(0, 20, 50), Sample(1, 25, 60)];
    var r := CalculateSummary(w);
    assert Speeds(w) == [20, 25];
    assert [20, 25][1..] == [25] && [25][1..] == [];
    assert CountAtLeast([20, 25], r.max95) >= 2;
  }
}
