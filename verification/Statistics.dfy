/** The median and the median absolute deviation, as the grid
    (internal/snapshot/hexes.go) and the outlier check
    (internal/quality/spatial.go) both compute them, over exact reals. */
module Statistics {
  import opened Contents
  import opened Sorting

  const AtMost := (a: real, b: real) => a <= b

  function MedianOfSorted(s: seq<real>): real
    requires s != []
  {
    var mid := |s| / 2;
    if |s| % 2 == 1 then s[mid] else (s[mid - 1] + s[mid]) / 2.0
  }

  function Median(vs: seq<real>): real
    requires vs != []
  {
    SortCorrect(AtMost, vs);
    MedianOfSorted(Sort(AtMost, vs))
  }

  /** The order readings arrive in cannot move a median. */
  lemma MedianByContents(a: seq<real>, b: seq<real>)
    requires a != [] && multiset(a) == multiset(b)
    ensures b != [] && Median(a) == Median(b)
  {
    assert a[0] in multiset(b);
    SortByContents(AtMost, a, b);
  }

  /** Half away from zero, as math.Round. */
  function Round(x: real): int {
    if x >= 0.0 then (x + 0.5).Floor else -((-x + 0.5).Floor)
  }

  lemma RoundNearest(x: real)
    ensures -0.5 <= Round(x) as real - x <= 0.5
  {
  }

  /** A half goes away from zero. */
  lemma RoundHalf(n: int)
    ensures Round(n as real + 0.5) == if n >= 0 then n + 1 else n
  {
    if n < 0 {
      assert (-(n as real + 0.5) + 0.5) == (-n) as real;
    }
  }

  lemma RoundFixed(n: int)
    ensures Round(n as real) == n
  {
  }

  /** One decimal place, as published values carry. */
  function Round1(v: real): real { Round(v * 10.0) as real / 10.0 }

  /** Four decimal places, as published centres carry. */
  function Round4(v: real): real { Round(v * 10000.0) as real / 10000.0 }

  function Abs(x: real): real { if x < 0.0 then -x else x }

  function Max(a: real, b: real): real { if a < b then b else a }

  /** How many values lie in [lo, hi]. */
  function CountWithin(lo: real, hi: real, s: seq<real>): nat {
    |Collect(v => if lo <= v <= hi then Some(v) else None, s)|
  }

  lemma CountSplit(lo: real, hi: real, s: seq<real>, k: nat)
    requires k <= |s|
    ensures CountWithin(lo, hi, s) == CountWithin(lo, hi, s[..k]) + CountWithin(lo, hi, s[k..])
    ensures CountWithin(lo, hi, s[..k]) <= k && CountWithin(lo, hi, s[k..]) <= |s| - k
  {
    assert s == s[..k] + s[k..];
    CollectConcat(v => if lo <= v <= hi then Some(v) else None, s[..k], s[k..]);
  }

  lemma {:induction false} NoneWithin(lo: real, hi: real, s: seq<real>)
    requires forall i | 0 <= i < |s| :: s[i] < lo || hi < s[i]
    ensures CountWithin(lo, hi, s) == 0
    decreases |s|
  {
    if s != [] {
      NoneWithin(lo, hi, s[..|s| - 1]);
    }
  }

  /** In a sorted slice, an element with a majority of [lo, hi] on both sides is
      itself in [lo, hi]. */
  lemma MiddleWithin(lo: real, hi: real, s: seq<real>, k: nat)
    requires SortedBy(AtMost, s) && k < |s|
    requires CountWithin(lo, hi, s) > k && CountWithin(lo, hi, s) > |s| - k - 1
    ensures lo <= s[k] <= hi
  {
    if s[k] < lo {
      NoneWithin(lo, hi, s[..k + 1]);
      CountSplit(lo, hi, s, k + 1);
    }
    if hi < s[k] {
      NoneWithin(lo, hi, s[k..]);
      CountSplit(lo, hi, s, k);
    }
  }

  lemma SortedBreakdown(lo: real, hi: real, s: seq<real>)
    requires SortedBy(AtMost, s) && 2 * CountWithin(lo, hi, s) > |s|
    ensures s != [] && lo <= MedianOfSorted(s) <= hi
  {
    var mid := |s| / 2;
    MiddleWithin(lo, hi, s, mid);
    if |s| % 2 == 0 {
      MiddleWithin(lo, hi, s, mid - 1);
    }
  }

  /** The breakdown point of the median: while strictly more than half of the
      values lie in [lo, hi], so does the median, whatever the others are. */
  lemma MedianBreakdown(lo: real, hi: real, vs: seq<real>)
    requires 2 * CountWithin(lo, hi, vs) > |vs|
    ensures vs != [] && lo <= Median(vs) <= hi
  {
    var s := Sort(AtMost, vs);
    SortCorrect(AtMost, vs);
    CollectContents(v => if lo <= v <= hi then Some(v) else None, vs, s);
    SortedBreakdown(lo, hi, s);
  }

  /** The same of the values a rule finds: while more than half of them lie in
      [lo, hi], so does their median. reports and within are the rule spelt out. */
  lemma MedianWhere<T(!new)>(f: T -> Option<real>, reports: T -> bool, within: T -> bool, s: seq<T>, lo: real, hi: real)
    requires forall x | x in s :: reports(x) == f(x).Some? && within(x) == (f(x).Some? && lo <= f(x).value <= hi)
    requires 2 * Count(within, s) > Count(reports, s)
    ensures Collect(f, s) != [] && lo <= Median(Collect(f, s)) <= hi
  {
    var vs := Collect(f, s);
    var inside := (v: real) => if lo <= v <= hi then Some(v) else None;
    var through := (x: T) => match f(x) case None => None case Some(v) => inside(v);
    CollectCount(f, reports, s);
    CollectCount(through, within, s);
    CollectThrough(inside, f, through, s);
    MedianBreakdown(lo, hi, vs);
  }

  lemma Round1Near(v: real)
    ensures v - 0.05 <= Round1(v) <= v + 0.05
  {
    RoundNearest(v * 10.0);
  }

  lemma Round1Within(v: real, lo: real, hi: real)
    requires lo <= v <= hi
    ensures lo - 0.05 <= Round1(v) <= hi + 0.05
  {
    Round1Near(v);
  }

  lemma Round4Near(v: real)
    ensures v - 0.00005 <= Round4(v) <= v + 0.00005
  {
    RoundNearest(v * 10000.0);
  }

  lemma MedianOfOne(a: real)
    ensures Median([a]) == a
  {
    assert [a][1..] == [];
    assert Sort(AtMost, [a]) == [a];
  }

  lemma MedianOfTwo(a: real, b: real)
    requires a <= b
    ensures Median([a, b]) == (a + b) / 2.0
  {
    var vs := [a, b];
    assert vs[1..] == [b] && [b][1..] == [];
    assert Sort(AtMost, [b]) == [b];
    assert Sort(AtMost, vs) == Insert(AtMost, a, [b]) == vs;
  }

  function Deviations(centre: real, vs: seq<real>): (ds: seq<real>)
    ensures |ds| == |vs|
    ensures forall i | 0 <= i < |vs| :: ds[i] == Abs(vs[i] - centre)
  {
    seq(|vs|, i requires 0 <= i < |vs| => Abs(vs[i] - centre))
  }

  datatype Spread = Spread(median: real, mad: real)

  /** The pair, with the program's zeros for an empty slice. */
  function MedianMad(vs: seq<real>): Spread {
    if vs == [] then Spread(0.0, 0.0)
    else var m := Median(vs); Spread(m, Median(Deviations(m, vs)))
  }

  lemma {:induction false} CountTransfer(lo: real, hi: real, a: seq<real>, lo': real, hi': real, b: seq<real>)
    requires |a| == |b|
    requires forall i | 0 <= i < |a| :: lo <= a[i] <= hi ==> lo' <= b[i] <= hi'
    ensures CountWithin(lo, hi, a) <= CountWithin(lo', hi', b)
    decreases |a|
  {
    if a != [] {
      var n := |a| - 1;
      CountTransfer(lo, hi, a[..n], lo', hi', b[..n]);
    }
  }

  /** The breakdown point of the pair: with a strict majority in [lo, hi], the
      median is there and the MAD is at most the interval's width. */
  lemma MadBreakdown(lo: real, hi: real, vs: seq<real>)
    requires 2 * CountWithin(lo, hi, vs) > |vs|
    ensures lo <= MedianMad(vs).median <= hi
    ensures 0.0 <= MedianMad(vs).mad <= hi - lo
  {
    MedianBreakdown(lo, hi, vs);
    var m := Median(vs);
    CountTransfer(lo, hi, vs, 0.0, hi - lo, Deviations(m, vs));
    MedianBreakdown(0.0, hi - lo, Deviations(m, vs));
  }

  /** Sorted already. */
  lemma MedianInOrder(s: seq<real>)
    requires s != [] && SortedBy(AtMost, s)
    ensures Median(s) == MedianOfSorted(s)
  {
    SortCorrect(AtMost, s);
    SortedUnique(AtMost, Sort(AtMost, s), s);
  }

  /** n values at c and as many displaced by d. */
  function Halves(n: nat, c: real, d: real): seq<real> { Repeated(c, n) + Repeated(c + d, n) }

  lemma HalvesMedian(n: nat, c: real, d: real)
    requires n >= 1
    ensures Median(Halves(n, c, d)) == c + d / 2.0
  {
    hide Median, MedianOfSorted;
    if d >= 0.0 {
      HalvesInOrder(n, c, d);
    } else {
      var up, down := Repeated(c, n), Repeated(c + d, n);
      assert multiset(up + down) == multiset(down + up);
      assert c + d - d == c;
      MedianByContents(Halves(n, c, d), Halves(n, c + d, -d));
      HalvesInOrder(n, c + d, -d);
    }
  }

  lemma HalvesInOrder(n: nat, c: real, d: real)
    requires n >= 1 && d >= 0.0
    ensures Median(Halves(n, c, d)) == c + d / 2.0
  {
    hide Repeated;
    MedianInOrder(Halves(n, c, d));
  }

  lemma MedianOfEqual(s: seq<real>, x: real)
    requires s != [] && forall i | 0 <= i < |s| :: s[i] == x
    ensures Median(s) == x
  {
    MedianInOrder(s);
  }

  lemma {:induction false} CountAll(lo: real, hi: real, s: seq<real>)
    requires forall i | 0 <= i < |s| :: lo <= s[i] <= hi
    ensures CountWithin(lo, hi, s) == |s|
    decreases |s|
  {
    if s != [] {
      CountAll(lo, hi, s[..|s| - 1]);
    }
  }

  predicate Among(vs: seq<real>, lo: real, hi: real) { forall v | v in vs :: lo <= v <= hi }

  lemma MedianAmong(vs: seq<real>, lo: real, hi: real)
    requires vs != [] && Among(vs, lo, hi)
    ensures lo <= Median(vs) <= hi
  {
    hide Median, CountWithin;
    assert forall i | 0 <= i < |vs| :: vs[i] in vs;
    CountAll(lo, hi, vs);
    MedianBreakdown(lo, hi, vs);
  }

  lemma HalvesCount(n: nat, c: real, d: real)
    requires d != 0.0
    ensures CountWithin(c, c, Halves(n, c, d)) == n
  {
    hide CountWithin, Repeated;
    var vs := Halves(n, c, d);
    CountSplit(c, c, vs, n);
    assert vs[..n] == Repeated(c, n) && vs[n..] == Repeated(c + d, n);
    CountAll(c, c, Repeated(c, n));
    NoneWithin(c, c, Repeated(c + d, n));
  }

  /** Exactly half is not enough, at any even length: when half the values agree on
      c, the other half carry the median and the MAD as far away as they please. */
  lemma BreakdownIsTight(n: nat, c: real, d: real)
    requires n >= 1 && d != 0.0
    ensures 2 * CountWithin(c, c, Halves(n, c, d)) == |Halves(n, c, d)|
    ensures MedianMad(Halves(n, c, d)) == Spread(c + d / 2.0, Abs(d) / 2.0)
  {
    hide CountWithin, Repeated, Median;
    HalvesCount(n, c, d);
    HalvesMedian(n, c, d);
    MedianOfEqual(Deviations(c + d / 2.0, Halves(n, c, d)), Abs(d) / 2.0);
  }

  lemma MedianMadByContents(a: seq<real>, b: seq<real>)
    requires multiset(a) == multiset(b)
    ensures MedianMad(a) == MedianMad(b)
  {
    assert |multiset(a)| == |a| && |multiset(b)| == |b|;
    if a != [] {
      MedianByContents(a, b);
      var m := Median(a);
      var f := (v: real) => Some(Abs(v - m));
      DeviationsCollected(m, a);
      DeviationsCollected(m, b);
      CollectContents(f, a, b);
      MedianByContents(Deviations(m, a), Deviations(m, b));
    }
  }

  lemma {:induction false} DeviationsCollected(centre: real, vs: seq<real>)
    ensures Deviations(centre, vs) == Collect(v => Some(Abs(v - centre)), vs)
    decreases |vs|
  {
    if vs != [] {
      var n := |vs| - 1;
      DeviationsCollected(centre, vs[..n]);
      assert Deviations(centre, vs) == Deviations(centre, vs[..n]) + [Abs(vs[n] - centre)];
    }
  }

  /** The loop of internal/quality/spatial.go: a sorted clone for the median, a
      filled slice of deviations, sorted in turn. The input is not reordered
      because it is a value. */
  method MedianAbsoluteDeviation(values: seq<real>) returns (median: real, mad: real)
    ensures Spread(median, mad) == MedianMad(values)
  {
    if |values| == 0 {
      return 0.0, 0.0;
    }
    var sorted := Sort(AtMost, values);
    SortCorrect(AtMost, values);
    median := MedianOfSorted(sorted);

    var deviations := [];
    for i := 0 to |values|
      invariant |deviations| == i
      invariant forall j | 0 <= j < i :: deviations[j] == Abs(values[j] - median)
    {
      deviations := deviations + [Abs(values[i] - median)];
    }
    assert deviations == Deviations(median, values);
    SortCorrect(AtMost, deviations);
    mad := MedianOfSorted(Sort(AtMost, deviations));
  }
}
