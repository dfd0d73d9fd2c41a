/** Order statistics of a benchmark result, over exact reals. */
module Percentile {

  predicate Ascending(s: seq<real>) {
    forall i, j :: 0 <= i <= j < |s| ==> s[i] <= s[j]
  }

  function InsertInOrder(x: real, s: seq<real>): seq<real> {
    if s == [] || x <= s[0] then [x] + s else [s[0]] + InsertInOrder(x, s[1..])
  }

  /** A sorted copy of the samples. */
  function Sorted(s: seq<real>): (r: seq<real>)
    ensures |r| == |s|
  {
    if s == [] then [] else SortLength(s[0], Sorted(s[1..])); InsertInOrder(s[0], Sorted(s[1..]))
  }

  lemma {:induction false} SortLength(x: real, s: seq<real>)
    ensures |InsertInOrder(x, s)| == |s| + 1
  {
    if s != [] && x > s[0] { SortLength(x, s[1..]); }
  }

  // ----- the statistics as the result object computes them

  function Median(samples: seq<real>): real {
    if samples == [] then 0.0
    else
      var sorted := Sorted(samples);
      var n := |sorted|;
      if n % 2 == 1 then sorted[n / 2] else (sorted[n / 2 - 1] + sorted[n / 2]) * 0.5
  }

  function Ceiling(x: real): int {
    -((-x).Floor)
  }

  function Rank(p: real, n: nat): (rank: real)
    requires 0.0 <= p <= 100.0 && n >= 1
    ensures 0.0 <= rank <= (n - 1) as real
  {
    Portion(p / 100.0, (n - 1) as real)
  }

  function Times(x: real, y: real): real {
    x * y
  }

  lemma TimesBounds(x: real, d: real)
    requires 0.0 <= x <= 1.0 && d >= 0.0
    ensures 0.0 <= Times(x, d) <= d
  {
    TimesMonotone(0.0, x, d);
    TimesMonotone(x, 1.0, d);
  }

  lemma TimesMonotone(x: real, y: real, d: real)
    requires x <= y && d >= 0.0
    ensures Times(x, d) <= Times(y, d)
  {
  }

  /** A fraction of a length. */
  function Portion(x: real, m: real): (r: real)
    requires 0.0 <= x <= 1.0 && m >= 0.0
    ensures 0.0 <= r <= m
  {
    TimesBounds(x, m);
    Times(x, m)
  }

  /** The point a fraction of the way from a to b. */
  function Lerp(a: real, b: real, frac: real): real {
    a + Times(frac, b - a)
  }

  /** Linear interpolation between the two elements straddling a rank. */
  function At(sorted: seq<real>, rank: real): real
    requires sorted != [] && 0.0 <= rank <= (|sorted| - 1) as real
  {
    var lo, hi := rank.Floor, Ceiling(rank);
    var frac := rank - lo as real;
    Lerp(sorted[lo], sorted[hi], frac)
  }

  function Percentile(samples: seq<real>, p: real): real
    requires 0.0 <= p <= 100.0
  {
    if samples == [] then 0.0
    else
      var sorted := Sorted(samples);
      if |sorted| == 1 then sorted[0] else At(sorted, Rank(p, |sorted|))
  }

  /** The smallest and the largest sample. */
  function Minimum(samples: seq<real>): real {
    if samples == [] then 0.0
    else if |samples| == 1 then samples[0]
    else
      var rest := Minimum(samples[1..]);
      if samples[0] <= rest then samples[0] else rest
  }

  function Maximum(samples: seq<real>): real {
    if samples == [] then 0.0
    else if |samples| == 1 then samples[0]
    else
      var rest := Maximum(samples[1..]);
      if samples[0] < rest then rest else samples[0]
  }

  // ----- sorting

  lemma {:induction false} InsertKeeps(x: real, s: seq<real>)
    requires Ascending(s)
    ensures Ascending(InsertInOrder(x, s)) && multiset(InsertInOrder(x, s)) == multiset(s) + multiset{x}
  {
    if s != [] && x > s[0] {
      var rest := s[1..];
      assert s == [s[0]] + rest;
      TailAscending(s);
      hide Ascending;
      InsertKeeps(x, rest);
      BelowAll(s[0], x, rest, InsertInOrder(x, rest));
      PrependAscending(s[0], InsertInOrder(x, rest));
      assert multiset([s[0]] + InsertInOrder(x, rest)) == multiset{s[0]} + multiset(InsertInOrder(x, rest));
      assert multiset(s) == multiset{s[0]} + multiset(rest);
    } else {
      assert multiset([x] + s) == multiset{x} + multiset(s);
      PrependAscending(x, s);
    }
  }

  lemma TailAscending(s: seq<real>)
    requires s != [] && Ascending(s)
    ensures Ascending(s[1..]) && forall i :: 0 <= i < |s[1..]| ==> s[0] <= s[1..][i]
  {
  }

  lemma PrependAscending(x: real, s: seq<real>)
    requires Ascending(s) && forall i :: 0 <= i < |s| ==> x <= s[i]
    ensures Ascending([x] + s)
  {
  }

  lemma BelowAll(least: real, x: real, s: seq<real>, r: seq<real>)
    requires multiset(r) == multiset(s) + multiset{x}
    requires least <= x && forall i :: 0 <= i < |s| ==> least <= s[i]
    ensures forall i :: 0 <= i < |r| ==> least <= r[i]
  {
    forall i | 0 <= i < |r|
      ensures least <= r[i]
    {
      assert r[i] in multiset(r);
      assert r[i] == x || r[i] in s;
    }
  }

  /** The sorted copy is ascending and holds the same samples. */
  lemma {:induction false} SortedIsSorted(s: seq<real>)
    ensures Ascending(Sorted(s)) && multiset(Sorted(s)) == multiset(s)
  {
    if s != [] {
      SortedIsSorted(s[1..]);
      InsertKeeps(s[0], Sorted(s[1..]));
      assert s == [s[0]] + s[1..];
    }
  }

  /** Two ascending lists of the same samples are the same list. */
  lemma {:induction false} AscendingUnique(a: seq<real>, b: seq<real>)
    requires Ascending(a) && Ascending(b) && multiset(a) == multiset(b)
    ensures a == b
  {
    if a == [] {
      assert |multiset(b)| == |b|;
    } else {
      assert |multiset(a)| == |a| && |multiset(b)| == |b|;
      LeastFirst(a, b);
      LeastFirst(b, a);
      TailAscending(a);
      TailAscending(b);
      hide Ascending;
      assert a == [a[0]] + a[1..] && b == [b[0]] + b[1..];
      assert multiset(a[1..]) == multiset(a) - multiset{a[0]};
      assert multiset(b[1..]) == multiset(b) - multiset{b[0]};
      AscendingUnique(a[1..], b[1..]);
    }
  }

  lemma LeastFirst(a: seq<real>, b: seq<real>)
    requires a != [] && b != [] && Ascending(a) && multiset(a) == multiset(b)
    ensures a[0] <= b[0]
  {
    assert b[0] in multiset(b);
    var i :| 0 <= i < |a| && a[i] == b[0];
  }

  // ----- the theorems

  /** The order the samples were collected in does not matter. */
  lemma PercentileIgnoresOrder(s: seq<real>, t: seq<real>, p: real)
    requires multiset(s) == multiset(t) && 0.0 <= p <= 100.0
    ensures Percentile(s, p) == Percentile(t, p) && Median(s) == Median(t)
  {
    hide Sorted, At, Ascending;
    SortedIsSorted(s);
    SortedIsSorted(t);
    AscendingUnique(Sorted(s), Sorted(t));
    assert |s| == |multiset(s)| && |t| == |multiset(t)|;
  }

  /** Interpolation between ascending elements is monotone in the rank. */
  lemma AtIsMonotone(sorted: seq<real>, x: real, y: real)
    requires sorted != [] && Ascending(sorted) && 0.0 <= x <= y <= (|sorted| - 1) as real
    ensures At(sorted, x) <= At(sorted, y)
  {
    hide At;
    var i, j := x.Floor, y.Floor;
    if i == j {
      SameSegment(sorted, x, y);
    } else {
      AtBetween(sorted, x);
      AtBetween(sorted, y);
      assert Ceiling(x) <= j;
    }
  }

  lemma AtBetween(sorted: seq<real>, x: real)
    requires sorted != [] && Ascending(sorted) && 0.0 <= x <= (|sorted| - 1) as real
    ensures sorted[x.Floor] <= At(sorted, x) <= sorted[Ceiling(x)]
  {
    hide Lerp;
    LerpBetween(sorted[x.Floor], sorted[Ceiling(x)], x - x.Floor as real);
  }

  lemma LerpBetween(a: real, b: real, frac: real)
    requires a <= b && 0.0 <= frac <= 1.0
    ensures a <= Lerp(a, b, frac) <= b
  {
    hide Times;
    TimesBounds(frac, b - a);
  }

  lemma LerpMonotone(a: real, b: real, x: real, y: real)
    requires a <= b && x <= y
    ensures Lerp(a, b, x) <= Lerp(a, b, y)
  {
    hide Times;
    TimesMonotone(x, y, b - a);
  }

  lemma SameSegment(sorted: seq<real>, x: real, y: real)
    requires sorted != [] && Ascending(sorted) && 0.0 <= x <= y <= (|sorted| - 1) as real
    requires x.Floor == y.Floor
    ensures At(sorted, x) <= At(sorted, y)
  {
    hide Lerp;
    var i := x.Floor;
    var fx, fy := x - i as real, y - i as real;
    if x == i as real {
      hide At;
      AtInteger(sorted, i);
      AtBetween(sorted, y);
    } else {
      assert Ceiling(x) == i + 1 && Ceiling(y) == i + 1;
      LerpMonotone(sorted[i], sorted[i + 1], fx, fy);
    }
  }

  /** A whole rank is an element. */
  lemma AtInteger(sorted: seq<real>, i: nat)
    requires i < |sorted|
    ensures At(sorted, i as real) == sorted[i]
  {
    assert (i as real).Floor == i && Ceiling(i as real) == i;
    assert Times(0.0, sorted[i] - sorted[i]) == 0.0;
  }

  // ----- the value at every percentile

  /** The point a fraction t of the way from a to b, as a weighted sum. */
  function Mix(a: real, b: real, t: real): real {
    (1.0 - t) * a + t * b
  }

  /** The percentile that falls x steps into n sorted samples. */
  function PercentAt(x: real, n: nat): real
    requires n > 1
  {
    100.0 * x / (n - 1) as real
  }

  lemma RankOfPercentAt(x: real, n: nat)
    requires n > 1 && 0.0 <= x <= (n - 1) as real
    ensures 0.0 <= PercentAt(x, n) <= 100.0
    ensures Rank(PercentAt(x, n), n) == x
  {
    var m := (n - 1) as real;
    FractionOf(x, m);
    assert PercentAt(x, n) == 100.0 * (x / m);
    assert Times(x / m, m) == x;
  }

  lemma FractionOf(x: real, m: real)
    requires 0.0 <= x <= m && m > 0.0
    ensures 0.0 <= x / m <= 1.0 && (x / m) * m == x
    ensures 100.0 * x / m == 100.0 * (x / m)
  {
  }

  /**
   Between the neighbouring ranks i and i + 1 the percentile runs straight from one
   sorted sample to the next; at a whole rank it is the sample there.
   */
  lemma PercentileBetweenRanks(samples: seq<real>, i: nat, t: real)
    requires i + 1 < |samples| && 0.0 <= t <= 1.0
    ensures 0.0 <= PercentAt(i as real + t, |samples|) <= 100.0
    ensures Percentile(samples, PercentAt(i as real + t, |samples|))
            == Mix(Sorted(samples)[i], Sorted(samples)[i + 1], t)
  {
    hide At, Sorted, Rank, Mix, PercentAt;
    var sorted := Sorted(samples);
    RankOfPercentAt(i as real + t, |samples|);
    AtBetweenRanks(sorted, i, t);
  }

  lemma AtBetweenRanks(sorted: seq<real>, i: nat, t: real)
    requires i + 1 < |sorted| && 0.0 <= t <= 1.0
    ensures At(sorted, i as real + t) == Mix(sorted[i], sorted[i + 1], t)
  {
    var x := i as real + t;
    if t == 0.0 {
      AtInteger(sorted, i);
    } else if t == 1.0 {
      AtInteger(sorted, i + 1);
      assert x == (i + 1) as real;
    } else {
      assert x.Floor == i && Ceiling(x) == i + 1;
      LerpIsMix(sorted[i], sorted[i + 1], t);
    }
  }

  lemma LerpIsMix(a: real, b: real, t: real)
    ensures Lerp(a, b, t) == Mix(a, b, t)
  {
  }

  lemma PercentileAtRank(samples: seq<real>, i: nat)
    requires 1 < |samples| && i < |samples|
    ensures 0.0 <= PercentAt(i as real, |samples|) <= 100.0
    ensures Percentile(samples, PercentAt(i as real, |samples|)) == Sorted(samples)[i]
  {
    hide At, Sorted, Rank, PercentAt;
    RankOfPercentAt(i as real, |samples|);
    AtInteger(Sorted(samples), i);
  }

  lemma LoneSample(x: real, p: real)
    requires 0.0 <= p <= 100.0
    ensures Percentile([x], p) == x
  {
    assert [x][1..] == [];
  }

  /** So it is affine between neighbouring ranks. */
  lemma PercentileIsAffine(samples: seq<real>, i: nat, p: real, q: real, t: real)
    requires i + 1 < |samples| && 0.0 <= t <= 1.0
    requires PercentAt(i as real, |samples|) <= p <= PercentAt((i + 1) as real, |samples|)
    requires PercentAt(i as real, |samples|) <= q <= PercentAt((i + 1) as real, |samples|)
    ensures 0.0 <= p <= 100.0 && 0.0 <= q <= 100.0 && 0.0 <= Mix(p, q, t) <= 100.0
    ensures Percentile(samples, Mix(p, q, t)) == Mix(Percentile(samples, p), Percentile(samples, q), t)
  {
    hide Percentile, Sorted, PercentAt, Mix;
    var n, low, high := |samples|, Sorted(samples)[i], Sorted(samples)[i + 1];
    var a := StepsInto(p, i, n);
    var b := StepsInto(q, i, n);
    MixInUnit(a, b, t);
    MixOfPercents(i as real, a, b, t, n);
    PercentileBetweenRanks(samples, i, a);
    PercentileBetweenRanks(samples, i, b);
    PercentileBetweenRanks(samples, i, Mix(a, b, t));
    MixOfMixes(low, high, a, b, t);
  }

  /** How far past rank i a percentile of that segment lies. */
  lemma StepsInto(p: real, i: nat, n: nat) returns (a: real)
    requires i + 1 < n && PercentAt(i as real, n) <= p <= PercentAt((i + 1) as real, n)
    ensures 0.0 <= a <= 1.0 && p == PercentAt(i as real + a, n)
  {
    var m := (n - 1) as real;
    a := p * m / 100.0 - i as real;
    PercentTimes(i as real, m);
    PercentTimes((i + 1) as real, m);
    TimesMonotone(PercentAt(i as real, n), p, m);
    TimesMonotone(p, PercentAt((i + 1) as real, n), m);
    assert 100.0 * (i as real + a) == p * m;
    QuotientBack(p, m);
  }

  lemma PercentTimes(x: real, m: real)
    requires m > 0.0
    ensures (100.0 * x / m) * m == 100.0 * x
  {
  }

  lemma QuotientBack(p: real, m: real)
    requires m > 0.0
    ensures p * m / m == p
  {
  }

  lemma MixInUnit(a: real, b: real, t: real)
    requires 0.0 <= a <= 1.0 && 0.0 <= b <= 1.0 && 0.0 <= t <= 1.0
    ensures 0.0 <= Mix(a, b, t) <= 1.0
  {
    TimesBounds(a, 1.0 - t);
    TimesBounds(b, t);
    assert Times(a, 1.0 - t) == (1.0 - t) * a && Times(b, t) == t * b;
  }

  lemma MixOfPercents(x: real, a: real, b: real, t: real, n: nat)
    requires n > 1
    ensures Mix(PercentAt(x + a, n), PercentAt(x + b, n), t) == PercentAt(x + Mix(a, b, t), n)
  {
    hide PercentAt, Mix, Times;
    var f := 100.0 / (n - 1) as real;
    ScaledPercent(x + a, n, f);
    ScaledPercent(x + b, n, f);
    ScaledPercent(x + Mix(a, b, t), n, f);
    MixScaled(x, a, b, t, f);
  }

  lemma ScaledPercent(x: real, n: nat, f: real)
    requires n > 1 && f == 100.0 / (n - 1) as real
    ensures PercentAt(x, n) == Times(f, x)
  {
  }

  lemma MixScaled(x: real, a: real, b: real, t: real, f: real)
    ensures Mix(Times(f, x + a), Times(f, x + b), t) == Times(f, x + Mix(a, b, t))
  {
  }

  lemma MixOfMixes(low: real, high: real, a: real, b: real, t: real)
    ensures Mix(low, high, Mix(a, b, t)) == Mix(Mix(low, high, a), Mix(low, high, b), t)
  {
  }

  lemma RankIsMonotone(p: real, q: real, n: nat)
    requires 0.0 <= p <= q <= 100.0 && n >= 1
    ensures Rank(p, n) <= Rank(q, n)
  {
    hide Portion;
    PortionMonotone(p / 100.0, q / 100.0, (n - 1) as real);
  }

  lemma PortionMonotone(x: real, y: real, m: real)
    requires 0.0 <= x <= y <= 1.0 && m >= 0.0
    ensures Portion(x, m) <= Portion(y, m)
  {
    hide Times;
    TimesMonotone(x, y, m);
  }

  /** A higher percentile is never smaller. */
  lemma PercentileIsMonotone(samples: seq<real>, p: real, q: real)
    requires 0.0 <= p <= q <= 100.0
    ensures Percentile(samples, p) <= Percentile(samples, q)
  {
    hide At, Sorted;
    if |samples| > 1 {
      var sorted := Sorted(samples);
      SortedIsSorted(samples);
      RankIsMonotone(p, q, |sorted|);
      AtIsMonotone(sorted, Rank(p, |sorted|), Rank(q, |sorted|));
    }
  }

  lemma {:induction false} MinimumIsLeast(s: seq<real>)
    requires s != []
    ensures Minimum(s) in s && forall i :: 0 <= i < |s| ==> Minimum(s) <= s[i]
  {
    if |s| > 1 {
      MinimumIsLeast(s[1..]);
      assert forall i :: 1 <= i < |s| ==> s[i] == s[1..][i - 1];
      assert s == [s[0]] + s[1..];
    }
  }

  lemma {:induction false} MaximumIsGreatest(s: seq<real>)
    requires s != []
    ensures Maximum(s) in s && forall i :: 0 <= i < |s| ==> s[i] <= Maximum(s)
  {
    if |s| > 1 {
      MaximumIsGreatest(s[1..]);
      assert forall i :: 1 <= i < |s| ==> s[i] == s[1..][i - 1];
      assert s == [s[0]] + s[1..];
    }
  }

  /** The ends of the sorted copy are the minimum and the maximum. */
  lemma EndsOfSorted(samples: seq<real>)
    requires samples != []
    ensures var sorted := Sorted(samples);
            sorted[0] == Minimum(samples) && sorted[|sorted| - 1] == Maximum(samples)
  {
    hide Sorted, Minimum, Maximum;
    var sorted := Sorted(samples);
    SortedIsSorted(samples);
    MinimumIsLeast(samples);
    MaximumIsGreatest(samples);
    var first, last := sorted[0], sorted[|sorted| - 1];
    assert first in multiset(sorted) && last in multiset(sorted);
    assert first in samples && last in samples;
    assert Minimum(samples) in multiset(samples) && Maximum(samples) in multiset(samples);
    assert Minimum(samples) in sorted && Maximum(samples) in sorted;
  }

  /** Percentile 0 is the minimum, 100 the maximum and 50 the median. */
  lemma PercentileLandmarks(samples: seq<real>)
    ensures Percentile(samples, 0.0) == Minimum(samples)
    ensures Percentile(samples, 100.0) == Maximum(samples)
    ensures Percentile(samples, 50.0) == Median(samples)
  {
    hide At, Sorted;
    if samples != [] {
      var sorted := Sorted(samples);
      var n := |sorted|;
      EndsOfSorted(samples);
      if n > 1 {
        assert Rank(0.0, n) == 0 as real && Rank(100.0, n) == (n - 1) as real;
        AtInteger(sorted, 0);
        AtInteger(sorted, n - 1);
        MiddleRank(sorted);
      }
    }
  }

  /** Every percentile lies between the minimum and the maximum. */
  lemma PercentileInRange(samples: seq<real>, p: real)
    requires 0.0 <= p <= 100.0
    ensures Minimum(samples) <= Percentile(samples, p) <= Maximum(samples)
  {
    hide Percentile, Minimum, Maximum;
    PercentileLandmarks(samples);
    PercentileIsMonotone(samples, 0.0, p);
    PercentileIsMonotone(samples, p, 100.0);
  }

  // ----- the documented promise of a non-negative result

  /** How many samples are not negative. */
  function NonNegatives(s: seq<real>): (k: nat)
    ensures k <= |s|
  {
    if s == [] then 0 else NonNegatives(s[1..]) + if s[0] >= 0.0 then 1 else 0
  }

  lemma {:induction false} NonNegativesOfInsert(x: real, s: seq<real>)
    ensures NonNegatives(InsertInOrder(x, s)) == NonNegatives(s) + if x >= 0.0 then 1 else 0
  {
    if s == [] || x <= s[0] {
      assert ([x] + s)[1..] == s;
    } else {
      NonNegativesOfInsert(x, s[1..]);
      assert ([s[0]] + InsertInOrder(x, s[1..]))[1..] == InsertInOrder(x, s[1..]);
    }
  }

  lemma {:induction false} NonNegativesOfSorted(s: seq<real>)
    ensures NonNegatives(Sorted(s)) == NonNegatives(s)
  {
    if s != [] {
      NonNegativesOfSorted(s[1..]);
      NonNegativesOfInsert(s[0], Sorted(s[1..]));
    }
  }

  /** In an ascending list the non-negative samples are the last ones. */
  lemma {:induction false} NonNegativesAreLast(s: seq<real>, i: nat)
    requires Ascending(s) && i < |s|
    ensures s[i] >= 0.0 <==> i + NonNegatives(s) >= |s|
  {
    TailAscending(s);
    if s[0] >= 0.0 {
      AllNonNegative(s);
    } else if i > 0 {
      NonNegativesAreLast(s[1..], i - 1);
    }
  }

  lemma {:induction false} AllNonNegative(s: seq<real>)
    requires forall i :: 0 <= i < |s| ==> s[i] >= 0.0
    ensures NonNegatives(s) == |s|
  {
    if s != [] { AllNonNegative(s[1..]); }
  }

  /** Some negative sample is outweighed by every sample that is not negative. */
  ghost predicate LeastNegativeOutweighed(samples: seq<real>) {
    exists x :: x in samples && x < 0.0 && forall y :: y in samples && y >= 0.0 ==> x + y >= 0.0
  }

  /**
   The median is non-negative exactly when more than half of the samples are, or
   exactly half of them are and the largest negative one is outweighed by the smallest
   of the others.
   */
  lemma MedianNonNegativeExactlyWhen(samples: seq<real>)
    ensures var n, k := |samples|, NonNegatives(samples);
            Median(samples) >= 0.0
            <==> n == 0 || 2 * k > n || (2 * k == n && LeastNegativeOutweighed(samples))
  {
    hide Sorted, NonNegatives, Ascending, LeastNegativeOutweighed;
    if samples != [] {
      var sorted, n := Sorted(samples), |samples|;
      SortedIsSorted(samples);
      NonNegativesOfSorted(samples);
      NonNegativesAreLast(sorted, n / 2);
      if n % 2 == 0 {
        NonNegativesAreLast(sorted, n / 2 - 1);
        if 2 * NonNegatives(samples) == n {
          CentralPair(samples, sorted, n / 2);
        } else {
          assert 2 * NonNegatives(samples) > n <==> sorted[n / 2 - 1] >= 0.0;
          OrderedAt(sorted, n / 2 - 1, n / 2);
        }
      }
    }
  }

  lemma OrderedAt(s: seq<real>, i: nat, j: nat)
    requires Ascending(s) && i <= j < |s|
    ensures s[i] <= s[j]
  {
  }

  lemma CentralPair(samples: seq<real>, sorted: seq<real>, h: nat)
    requires Ascending(sorted) && multiset(sorted) == multiset(samples)
    requires 0 < h < |sorted| && sorted[h - 1] < 0.0 <= sorted[h]
    ensures LeastNegativeOutweighed(samples) <==> sorted[h - 1] + sorted[h] >= 0.0
  {
    var low, high := sorted[h - 1], sorted[h];
    SameElements(samples, sorted);
    forall x | x in samples
      ensures x < 0.0 ==> x <= low
      ensures x >= 0.0 ==> x >= high
    {
      var i :| 0 <= i < |sorted| && sorted[i] == x;
    }
    assert low in sorted && high in sorted;
    assert low in samples && high in samples;
  }

  lemma SameElements(s: seq<real>, t: seq<real>)
    requires multiset(s) == multiset(t)
    ensures forall x :: x in s <==> x in t
  {
    assert forall x :: x in s <==> x in multiset(s);
    assert forall x :: x in t <==> x in multiset(t);
  }

  /** A positive sample does not save the median. */
  lemma NegativeMedian()
    ensures Median([5.0, -1.0, -3.0]) == -1.0
  {
    assert [5.0, -1.0, -3.0][1..] == [-1.0, -3.0] && [-1.0, -3.0][1..] == [-3.0] && [-3.0][1..] == [];
    assert Sorted([]) == [] && Sorted([-3.0]) == [-3.0];
    assert [-3.0] + [-1.0] == [-3.0, -1.0] && Sorted([-1.0, -3.0]) == [-3.0, -1.0];
    assert [-3.0, -1.0][1..] == [-1.0] && InsertInOrder(5.0, [-1.0]) == [-1.0, 5.0];
    assert Sorted([5.0, -1.0, -3.0]) == [-3.0, -1.0, 5.0];
  }

  /** The minimum and the maximum promise the same. */
  lemma ExtremesNonNegativeExactlyWhen(samples: seq<real>)
    ensures Minimum(samples) >= 0.0 <==> NonNegatives(samples) == |samples|
    ensures Maximum(samples) >= 0.0 <==> samples == [] || NonNegatives(samples) > 0
  {
    hide Sorted, NonNegatives, Ascending, Minimum, Maximum;
    if samples == [] {
      EmptyMinimum();
    } else {
      var sorted, n := Sorted(samples), |samples|;
      SortedIsSorted(samples);
      NonNegativesOfSorted(samples);
      EndsOfSorted(samples);
      NonNegativesAreLast(sorted, 0);
      NonNegativesAreLast(sorted, n - 1);
    }
  }

  /**
   The documented promise that a percentile is non-negative holds for all of them
   exactly when no sample is negative; samples collected elsewhere may be.
   */
  lemma NonNegativeExactlyWhen(samples: seq<real>)
    ensures (forall p :: 0.0 <= p <= 100.0 ==> Percentile(samples, p) >= 0.0)
            <==> forall i :: 0 <= i < |samples| ==> samples[i] >= 0.0
  {
    hide Percentile, Minimum, Maximum;
    PercentileLandmarks(samples);
    forall p | 0.0 <= p <= 100.0
      ensures Minimum(samples) <= Percentile(samples, p)
    {
      PercentileInRange(samples, p);
    }
    if samples == [] {
      EmptyMinimum();
    } else {
      MinimumIsLeast(samples);
      assert Percentile(samples, 0.0) == Minimum(samples);
    }
  }

  lemma EmptyMinimum()
    ensures Minimum([]) == 0.0 && Maximum([]) == 0.0 && NonNegatives([]) == 0
  {
  }

  /** One negative sample is enough to break the promise. */
  lemma NegativePercentile()
    ensures Percentile([-1.0], 50.0) == -1.0
  {
  }

  lemma MiddleRank(sorted: seq<real>)
    requires |sorted| > 1
    ensures var n := |sorted|;
            At(sorted, Rank(50.0, n))
            == if n % 2 == 1 then sorted[n / 2] else (sorted[n / 2 - 1] + sorted[n / 2]) * 0.5
  {
    var n := |sorted|;
    var rank := Rank(50.0, n);
    assert rank == (n - 1) as real / 2.0;
    if n % 2 == 1 {
      assert rank == (n / 2) as real;
      AtInteger(sorted, n / 2);
    } else {
      var k := n / 2;
      assert rank == k as real - 0.5;
      assert rank.Floor == k - 1 && Ceiling(rank) == k;
    }
  }
}
