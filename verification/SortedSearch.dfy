/** Search variants over a sorted range, and their agreement with the plain search. */
module SortedSearch {
  import opened CanTypes

  // ----- the order, and the plain search

  predicate Equivalent<T>(less: (T, T) -> bool, x: T, y: T) {
    !less(x, y) && !less(y, x)
  }

  ghost predicate StrictWeakOrder<T(!new)>(less: (T, T) -> bool) {
    && (forall x :: !less(x, x))
    && (forall x, y, z :: less(x, y) && less(y, z) ==> less(x, z))
    && (forall x, y, z :: !less(x, y) && !less(y, z) ==> !less(x, z))
  }

  ghost predicate SortedBy<T>(less: (T, T) -> bool, a: seq<T>) {
    forall i, j :: 0 <= i <= j < |a| ==> !less(a[j], a[i])
  }

  /** The standard lower bound: the first index in [lo, hi) whose element is not less than value, or hi. */
  function LowerBound<T>(less: (T, T) -> bool, a: seq<T>, value: T, lo: nat, hi: nat): (p: nat)
    requires lo <= hi <= |a|
    ensures lo <= p <= hi
    ensures forall i :: lo <= i < p ==> less(a[i], value)
    ensures p < hi ==> !less(a[p], value)
    decreases hi - lo
  {
    if lo == hi || !less(a[lo], value) then lo else LowerBound(less, a, value, lo + 1, hi)
  }

  /** The index of the first element not less than value. */
  function FirstNotLess<T>(less: (T, T) -> bool, a: seq<T>, value: T): nat {
    LowerBound(less, a, value, 0, |a|)
  }

  function FindSorted<T>(less: (T, T) -> bool, a: seq<T>, value: T): Option<nat> {
    var it := LowerBound(less, a, value, 0, |a|);
    if it == |a| then None
    else if less(a[it], value) || less(value, a[it]) then None
    else Some(it)
  }

  /** In a sorted range everything from the first element not less on is not less. */
  lemma PartitionedAt<T(!new)>(less: (T, T) -> bool, a: seq<T>, value: T, i: nat)
    requires StrictWeakOrder(less) && SortedBy(less, a) && i < |a|
    ensures less(a[i], value) <==> i < FirstNotLess(less, a, value)
  {
    var p := FirstNotLess(less, a, value);
    if p <= i {
      assert !less(a[i], a[p]) && !less(a[p], value);
    }
  }

  /** The plain search returns the first equal index, and nothing exactly when there is none. */
  lemma FindSortedIsFirst<T(!new)>(less: (T, T) -> bool, a: seq<T>, value: T)
    requires StrictWeakOrder(less) && SortedBy(less, a)
    ensures match FindSorted(less, a, value)
            case Some(i) => i < |a| && Equivalent(less, a[i], value)
                            && forall j :: 0 <= j < i ==> !Equivalent(less, a[j], value)
            case None => forall j :: 0 <= j < |a| ==> !Equivalent(less, a[j], value)
  {
    var p := FirstNotLess(less, a, value);
    forall j | 0 <= j < |a| && Equivalent(less, a[j], value)
      ensures FindSorted(less, a, value) == Some(p) && p <= j
    {
      PartitionedAt(less, a, value, j);
      assert !less(a[j], a[p]);
      assert !less(value, a[j]);
    }
  }

  // ----- galloping

  function Log2(n: nat): nat
    requires n >= 1
  {
    if n == 1 then 0 else 1 + Log2(n / 2)
  }

  /** Doubling m < n steps further costs one more level of n. */
  lemma {:induction false} Log2Monotone(m: nat, n: nat)
    requires 1 <= m <= n
    ensures Log2(m) <= Log2(n)
  {
    if m > 1 { Log2Monotone(m / 2, n / 2); }
  }

  function Max(x: nat, y: nat): nat {
    if x < y then y else x
  }

  /**
   Galloping search. It returns what the plain search returns; with P the index of
   the first element not less than value, it doubles its offset at most log2(P) + 1
   times and searches a bracket of at most max(P, 2) elements.
   */
  method ExponentialSearch<T(!new)>(less: (T, T) -> bool, a: seq<T>, value: T)
    returns (r: Option<nat>, ghost doublings: nat, ghost bracket: nat)
    requires StrictWeakOrder(less) && SortedBy(less, a)
    ensures r == FindSorted(less, a, value)
    ensures var p := FirstNotLess(less, a, value);
            doublings <= (if p == 0 then 0 else Log2(p) + 1) && bracket <= Max(p, 2)
  {
    doublings, bracket := 0, 0;
    var n := |a|;
    if n == 0 {
      return None, doublings, bracket;
    }
    if !less(a[0], value) && !less(value, a[0]) {
      return Some(0), doublings, bracket;
    }
    ghost var p := FirstNotLess(less, a, value);
    var i := 1;
    while i < n && less(a[i], value)
      invariant i >= 1 && doublings == Log2(i)
      invariant i > 1 ==> i % 2 == 0 && i / 2 < p && i / 2 < n
      invariant doublings > 0 ==> p > 0 && Log2(i / 2) <= Log2(p) && doublings == Log2(i / 2) + 1
      decreases n - i
    {
      PartitionedAt(less, a, value, i);
      Log2Monotone(i, p);
      i := i * 2;
      doublings := doublings + 1;
    }
    if i < n {
      PartitionedAt(less, a, value, i);
    }
    var lo := i / 2;
    var hi := if i < n then i + 1 else n;
    bracket := hi - lo;
    var it := LowerBound(less, a, value, lo, hi);
    BracketHoldsAnswer(less, a, value, lo, hi);
    if it == n {
      return None, doublings, bracket;
    }
    if less(a[it], value) || less(value, a[it]) {
      return None, doublings, bracket;
    }
    return Some(it), doublings, bracket;
  }

  /** Searching a bracket that holds the answer finds the answer. */
  lemma BracketHoldsAnswer<T(!new)>(less: (T, T) -> bool, a: seq<T>, value: T, lo: nat, hi: nat)
    requires StrictWeakOrder(less) && SortedBy(less, a)
    requires lo <= FirstNotLess(less, a, value) <= hi <= |a|
    requires hi < |a| ==> FirstNotLess(less, a, value) < hi
    ensures LowerBound(less, a, value, lo, hi) == FirstNotLess(less, a, value)
  {
    var p, q := FirstNotLess(less, a, value), LowerBound(less, a, value, lo, hi);
    if q < hi { PartitionedAt(less, a, value, q); }
  }

  // ----- interpolation

  ghost predicate Ascending(a: seq<real>) {
    forall i, j :: 0 <= i <= j < |a| ==> a[i] <= a[j]
  }

  /** The probe computation: where in a span of width steps an offset lies. */
  type Locator = (real, real, int) -> int

  /** The computation never leaves the span it interpolates in. */
  ghost predicate StaysInSpan(locate: Locator) {
    forall offset, span, width :: 0.0 <= offset <= span && span > 0.0 && width > 0 ==>
      0 <= locate(offset, span, width) <= width
  }

  /** The probe in exact arithmetic. */
  function ExactLocator(): Locator {
    (offset: real, span: real, width: int) => if span == 0.0 then 0 else (offset * width as real / span).Floor
  }

  lemma ExactStaysInSpan()
    ensures StaysInSpan(ExactLocator())
  {
    forall offset: real, span: real, width: int | 0.0 <= offset <= span && span > 0.0 && width > 0
      ensures 0 <= ExactLocator()(offset, span, width) <= width
    {
      ExactProbe(offset, span, width);
    }
  }

  lemma ExactProbe(offset: real, span: real, width: int)
    requires 0.0 <= offset <= span && span > 0.0 && width > 0
    ensures 0 <= ExactLocator()(offset, span, width) <= width
  {
    FractionInSpan(offset, span, width as real);
    FloorInRange(offset * width as real / span, width);
  }

  lemma FloorInRange(x: real, width: int)
    requires 0.0 <= x <= width as real
    ensures 0 <= x.Floor <= width
  {
  }

  lemma FractionInSpan(offset: real, span: real, width: real)
    requires 0.0 <= offset <= span && span > 0.0 && width > 0.0
    ensures 0.0 <= offset * width / span <= width
  {
    var n := offset * width;
    ProductOrdered(offset, span, width);
    QuotientInRange(n, span, width);
  }

  lemma ProductOrdered(x: real, y: real, w: real)
    requires 0.0 <= x <= y && w > 0.0
    ensures 0.0 <= x * w <= y * w
  {
  }

  lemma QuotientInRange(n: real, d: real, w: real)
    requires d > 0.0 && 0.0 <= n <= d * w
    ensures 0.0 <= n / d <= w
  {
    var q := n / d;
    assert q * d == n;
    FactorSign(q, d);
    assert (w - q) * d == d * w - n;
    FactorSign(w - q, d);
  }

  lemma FactorSign(y: real, s: real)
    requires y * s >= 0.0 && s > 0.0
    ensures y >= 0.0
  {
  }

  /**
   Interpolation search. Whatever the probe computation, an index returned holds the
   value and at most |a| probes are made; when the computation stays in its span, as
   exact arithmetic does, a miss means the value is not there.
   */
  method InterpolationSearch(locate: Locator, a: seq<real>, value: real) returns (r: Option<nat>, ghost probes: nat)
    requires Ascending(a)
    ensures r.Some? ==> r.value < |a| && a[r.value] == value
    ensures StaysInSpan(locate) ==> (r.None? <==> value !in a)
    ensures probes <= |a|
  {
    probes := 0;
    var lo, hi := 0, |a| - 1;
    while lo <= hi && value >= a[lo] && value <= a[hi]
      invariant 0 <= lo <= hi + 1 <= |a|
      invariant forall i :: 0 <= i < |a| && a[i] == value ==> lo <= i <= hi
      invariant probes + (hi + 1 - lo) <= |a|
      decreases hi + 1 - lo
    {
      if lo == hi {
        if a[lo] == value {
          return Some(lo), probes;
        }
        return None, probes;
      }
      var loVal, hiVal := a[lo], a[hi];
      if hiVal == loVal {
        if a[lo] == value {
          return Some(lo), probes;
        }
        return None, probes;
      }
      var span := hiVal - loVal;
      var offset := value - loVal;
      var pos := lo + locate(offset, span, hi - lo);
      if pos < lo || pos > hi {
        return None, probes;
      }
      var probe := a[pos];
      probes := probes + 1;
      if probe == value {
        return Some(pos), probes;
      }
      if probe < value {
        lo := pos + 1;
      } else {
        hi := pos - 1;
      }
    }
    return None, probes;
  }
}
