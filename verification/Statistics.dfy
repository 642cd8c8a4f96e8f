/**
  Statistics of a histogram (Percentile and HistogramValidator.statistics in
  esmond/api/perfsonar/validators.py): mode, mean, range, variance, and four percentiles
  found in one streaming pass over the sorted buckets.
*/
module Statistics {
  import opened Wrappers
  import opened Histograms

  // ---------- the percentile rule (NIST/SEMATECH e-Handbook, section 7.2.6.2) ----------

  // p(N+1)/100 == Rank + Fraction, with Rank whole and 0 <= Fraction < 1
  function Rank(p: nat, n: nat): (k: nat)
  {
    p * (n + 1) / 100
  }

  function Fraction(p: nat, n: nat): (d: real)
    ensures 0.0 <= d < 1.0
  {
    (p * (n + 1) % 100) as real / 100.0
  }

  function Nist(p: nat, y: seq<real>): real
    requires y != []
  {
    var k := Rank(p, |y|);
    if k == 0 then y[0]
    else if k >= |y| then y[|y| - 1]
    else Interpolate(y[k - 1], y[k], Fraction(p, |y|))
  }

  function Interpolate(a: real, b: real, d: real): real {
    a + d * (b - a)
  }

  class Percentile {
    var value: Option<real>
    var isCalculated: bool
    const percentile: nat
    const sampleSize: nat
    const k: nat
    const d: real

    constructor (percentile: nat, sampleSize: nat)
      ensures this.percentile == percentile && this.sampleSize == sampleSize
      ensures k == Rank(percentile, sampleSize) && d == Fraction(percentile, sampleSize)
      ensures value == None && !isCalculated
    {
      this.percentile, this.sampleSize := percentile, sampleSize;
      k, d := Rank(percentile, sampleSize), Fraction(percentile, sampleSize);
      value, isCalculated := None, false;
    }

    ghost predicate Valid()
    {
      k == Rank(percentile, sampleSize) && d == Fraction(percentile, sampleSize)
    }

    // Called with the running count and value of a bucket; decides at once, or keeps the
    // value and waits for the next bucket.
    method FindValue(count: nat, histValue: real)
      requires Valid()
      modifies this
      ensures (value, isCalculated) == old(Offer(value, isCalculated, percentile, sampleSize, count, histValue))
    {
      if value.Some? {
        value := Some(Interpolate(value.value, histValue, d));
        isCalculated := true;
      } else if k == 0 {
        value := Some(histValue);
        isCalculated := true;
      } else if count >= sampleSize && k >= sampleSize {
        value := Some(histValue);
        isCalculated := true;
      } else if k as real + d < count as real {
        value := Some(histValue);
        isCalculated := true;
      } else {
        value := Some(histValue);
      }
    }
  }

  // A waiting percentile interpolates; otherwise it decides unless the bucket ends exactly
  // at its rank, short of the end of the sample.
  function Offer(value: Option<real>, isCalculated: bool, p: nat, n: nat, count: nat, histValue: real)
    : (Option<real>, bool)
  {
    var k := Rank(p, n);
    if value.Some? then (Some(Interpolate(value.value, histValue, Fraction(p, n))), true)
    else (Some(histValue), isCalculated || k == 0 || (count >= n && k >= n) || k < count)
  }

  // ---------- moments ----------

  function Sum(y: seq<real>): real {
    if y == [] then 0.0 else y[0] + Sum(y[1..])
  }

  function Square(x: real): real {
    x * x
  }

  function SumOfSquares(y: seq<real>): real {
    if y == [] then 0.0 else Square(y[0]) + SumOfSquares(y[1..])
  }

  function SumOfDeviations(y: seq<real>, m: real): real {
    if y == [] then 0.0 else Square(y[0] - m) + SumOfDeviations(y[1..], m)
  }

  function Mean(y: seq<real>): real
    requires y != []
  {
    Sum(y) / |y| as real
  }

  function Variance(y: seq<real>): real
    requires y != []
  {
    SumOfDeviations(y, Mean(y)) / |y| as real
  }

  lemma {:induction false} SumAppend(a: seq<real>, b: seq<real>)
    ensures Sum(a + b) == Sum(a) + Sum(b)
  {
    if a == [] {
      assert a + b == b;
    } else {
      SumAppend(a[1..], b);
      assert (a + b)[1..] == a[1..] + b;
    }
  }

  lemma {:induction false} SumOfDeviationsAppend(a: seq<real>, b: seq<real>, m: real)
    ensures SumOfDeviations(a + b, m) == SumOfDeviations(a, m) + SumOfDeviations(b, m)
  {
    if a == [] {
      assert a + b == b;
    } else {
      SumOfDeviationsAppend(a[1..], b, m);
      assert (a + b)[1..] == a[1..] + b;
    }
  }

  // n times v, by repeated addition, so that the sums below stay linear
  function Times(v: real, n: nat): real {
    if n == 0 then 0.0 else v + Times(v, n - 1)
  }

  lemma TimesNext(x: real, n: nat)
    requires n > 0
    ensures x * n as real == x + x * (n - 1) as real
  {
    assert n as real == (n - 1) as real + 1.0;
  }

  lemma {:induction false} TimesIsProduct(v: real, n: nat)
    ensures Times(v, n) == v * n as real
  {
    if n > 0 {
      TimesIsProduct(v, n - 1);
      TimesNext(v, n);
    }
  }

  method Multiply(v: real, n: nat) returns (product: real)
    ensures product == Times(v, n)
  {
    TimesIsProduct(v, n);
    product := v * n as real;
  }

  lemma {:induction false} SumRepeat(v: real, n: nat)
    ensures Sum(Repeat(v, n)) == Times(v, n)
  {
    if n > 0 {
      SumRepeat(v, n - 1);
      assert Repeat(v, n)[1..] == Repeat(v, n - 1);
    }
  }

  lemma {:induction false} DeviationsRepeat(v: real, n: nat, m: real)
    ensures SumOfDeviations(Repeat(v, n), m) == Times(Square(v - m), n)
  {
    if n > 0 {
      DeviationsRepeat(v, n - 1, m);
      assert Repeat(v, n)[1..] == Repeat(v, n - 1);
    }
  }

  lemma {:induction false} SumInsert(x: Item, items: seq<Item>)
    ensures Sum(Expand(InsertItem(x, items))) == Sum(Repeat(x.value, x.count)) + Sum(Expand(items))
  {
    if items == [] || x.value <= items[0].value {
      SumExpandCons(x, items);
    } else {
      SumInsert(x, items[1..]);
      SumExpandCons(items[0], InsertItem(x, items[1..]));
      SumExpandCons(items[0], items[1..]);
      assert items == [items[0]] + items[1..];
    }
  }

  lemma {:induction false} SumExpandCons(x: Item, items: seq<Item>)
    ensures Sum(Expand([x] + items)) == Sum(Repeat(x.value, x.count)) + Sum(Expand(items))
  {
    ExpandCons(x, items);
    SumAppend(Repeat(x.value, x.count), Expand(items));
  }

  /** Sorting the buckets does not change the sum of the sample. */
  lemma {:induction false} SumSorted(items: seq<Item>)
    ensures Sum(Expand(SortItems(items))) == Sum(Expand(items))
  {
    if items != [] {
      SumSorted(items[1..]);
      SumInsert(items[0], SortItems(items[1..]));
      SumExpandCons(items[0], items[1..]);
      assert items == [items[0]] + items[1..];
    }
  }

  // The deviations about m, from the moments of the sample.
  function FromMoments(squares: real, s: real, n: real, m: real): real {
    squares - 2.0 * (m * s) + m * m * n
  }

  lemma {:induction false} DeviationsExpand(y: seq<real>, m: real)
    ensures SumOfDeviations(y, m) == FromMoments(SumOfSquares(y), Sum(y), |y| as real, m)
    ensures SumOfDeviations(y, m) >= 0.0
  {
    if y != [] {
      var r := y[1..];
      DeviationsExpand(r, m);
      MomentsNext(y[0], SumOfSquares(r), Sum(r), |r| as real, m);
      assert |y| as real == |r| as real + 1.0;
    }
  }

  lemma MomentsNext(x: real, squares: real, s: real, n: real, m: real)
    ensures Square(x - m) + FromMoments(squares, s, n, m)
            == FromMoments(Square(x) + squares, x + s, n + 1.0, m)
    ensures Square(x - m) >= 0.0
  {
    assert Square(x - m) == (x - m) * (x - m) == x * x - 2.0 * (m * x) + m * m;
    assert Square(x - m) >= 0.0;
    assert m * (x + s) == m * x + m * s;
    assert m * m * (n + 1.0) == m * m * n + m * m;
  }

  /** The two-pass variance is the mean of the squares less the square of the mean. */
  lemma {:induction false} VarianceIdentity(y: seq<real>)
    requires y != []
    ensures Variance(y) == SumOfSquares(y) / |y| as real - Mean(y) * Mean(y)
    ensures Variance(y) >= 0.0
  {
    var n, m, deviations := |y| as real, Mean(y), SumOfDeviations(y, Mean(y));
    assert deviations == FromMoments(SumOfSquares(y), Sum(y), n, m) && deviations >= 0.0 by {
      DeviationsExpand(y, m);
    }
    assert m == Sum(y) / n && Variance(y) == deviations / n;
    Steiner(SumOfSquares(y), Sum(y), n, m, deviations, Variance(y));
  }

  lemma Steiner(squares: real, s: real, n: real, m: real, deviations: real, variance: real)
    requires n > 0.0 && m == s / n && variance == deviations / n
    requires deviations == FromMoments(squares, s, n, m) && deviations >= 0.0
    ensures variance == squares / n - m * m
    ensures variance >= 0.0
  {
    var mm := m * m;
    assert m * n == s;
    assert m * s == mm * n by {
      assert m * (m * n) == mm * n;
    }
    DivideDifference(squares, mm, n);
  }

  lemma DivideDifference(a: real, b: real, n: real)
    requires n > 0.0
    ensures (a - b * n) / n == a / n - b
  {
  }

  // ---------- the mode ----------

  // the largest of the first n counts
  function MaxCount(h: Histogram, n: nat := |h|): int
    requires 0 < n <= |h|
  {
    var last := h[n - 1].count;
    if n == 1 then last
    else var m := MaxCount(h, n - 1); if last > m then last else m
  }

  // the keys with the given count among the first n, in insertion order
  function Attaining(h: Histogram, m: int, n: nat := |h|): seq<string>
    requires n <= |h|
  {
    if n == 0 then []
    else Attaining(h, m, n - 1) + if h[n - 1].count == m then [h[n - 1].key] else []
  }

  lemma {:induction false} AttainingKeys(h: Histogram, m: int, key: string, n: nat := |h|)
    requires n <= |h|
    ensures key in Attaining(h, m, n) <==> exists i | 0 <= i < n :: h[i].key == key && h[i].count == m
  {
    if n > 0 {
      AttainingKeys(h, m, key, n - 1);
      if h[n - 1].key == key && h[n - 1].count == m {
        assert key in Attaining(h, m, n);
      }
    }
  }

  lemma {:induction false} MaxCountIsMax(h: Histogram, n: nat := |h|)
    requires 0 < n <= |h|
    ensures forall i | 0 <= i < n :: h[i].count <= MaxCount(h, n)
    ensures Attaining(h, MaxCount(h, n), n) != []
    ensures forall m | m > MaxCount(h, n) :: Attaining(h, m, n) == []
  {
    if n > 1 {
      MaxCountIsMax(h, n - 1);
    } else {
      assert Attaining(h, h[0].count, 1) == [h[0].key];
    }
  }

  // The first key of the running mode is looked up again to find the running maximum.
  lemma {:induction false} CountOfMode(h: Histogram, n: nat)
    requires DistinctKeys(h) && 0 < n <= |h|
    ensures Attaining(h, MaxCount(h, n), n) != []
    ensures CountOf(h, Attaining(h, MaxCount(h, n), n)[0]) == MaxCount(h, n)
  {
    MaxCountIsMax(h, n);
    var key := Attaining(h, MaxCount(h, n), n)[0];
    AttainingKeys(h, MaxCount(h, n), key, n);
    var j :| 0 <= j < n && h[j].key == key && h[j].count == MaxCount(h, n);
    CountOfDistinct(h, j);
  }

  // ---------- all statistics of one histogram ----------

  // An object with no entries is stored when some bucket is not a number.
  datatype Summary =
    | NotNumeric
    | Stats(mode: seq<real>, mean: real, minimum: real, maximum: real, quantiles: map<nat, real>, variance: real)

  const QUANTILES: seq<nat> := [25, 50, 75, 95]

  function Values(keys: seq<string>, read: Reader): (values: seq<real>)
    ensures |values| == |keys|
    ensures forall i | 0 <= i < |keys| :: values[i] == ValueOf(read, keys[i])
  {
    seq(|keys|, i requires 0 <= i < |keys| => ValueOf(read, keys[i]))
  }

  // What the statistics of a histogram should be, read off its expanded sample.
  function StatisticsOf(h: Histogram, read: Reader): Summary
    requires h != [] && PositiveCounts(h)
  {
    if !Numeric(h, read) then NotNumeric
    else
      SampleOfHistogram(h, read);
      var y := Sample(h, read);
      Stats(Values(Attaining(h, MaxCount(h)), read), Mean(y), y[0], y[|y| - 1],
            map p | p in QUANTILES :: Nist(p, y), Variance(y))
  }

  // No two targets wait for the same bucket boundary inside the sample.
  ghost predicate Separated(quantiles: seq<nat>, n: nat) {
    && (forall i | 0 <= i < |quantiles| :: Rank(quantiles[i], n) <= n)
    && (forall i, j | 0 <= i < j < |quantiles| ::
          && quantiles[i] != quantiles[j]
          && Rank(quantiles[i], n) <= Rank(quantiles[j], n)
          && (0 < Rank(quantiles[i], n) < n ==> Rank(quantiles[i], n) < Rank(quantiles[j], n)))
  }

  /** The arithmetic the single pass rests on: for 25, 50, 75 and 95 no two percentiles
      share a rank strictly inside the sample, and no rank exceeds the sample size. */
  lemma QuantilesSeparated(n: nat)
    requires n > 0
    ensures Separated(QUANTILES, n)
  {
    forall i, j | 0 <= i < j < |QUANTILES|
      ensures Rank(QUANTILES[i], n) <= Rank(QUANTILES[j], n)
      ensures 0 < Rank(QUANTILES[i], n) < n ==> Rank(QUANTILES[i], n) < Rank(QUANTILES[j], n)
    {
      var p, q := QUANTILES[i], QUANTILES[j];
      assert q * (n + 1) - p * (n + 1) == (q - p) * (n + 1) >= 20 * (n + 1);
    }
    assert forall i | 0 <= i < |QUANTILES| :: QUANTILES[i] * (n + 1) < 100 * (n + 1);
  }

  // ---------- the streaming pass ----------

  // What a percentile holds once the first c sample points have gone by: nothing yet, or
  // the last of those c points while it waits for the next.
  ghost predicate Holds(value: Option<real>, p: nat, c: nat, y: seq<real>) {
    var k := Rank(p, |y|);
    match value
    case None => c == 0 || k > c
    case Some(v) => 0 < c == k < |y| && v == y[c - 1]
  }

  // A bucket covering sample points c..count settles the percentile or makes it wait.
  lemma OfferIsRight(value: Option<real>, p: nat, c: nat, y: seq<real>, count: nat, histValue: real)
    requires y != [] && Holds(value, p, c, y) && Rank(p, |y|) <= |y|
    requires c < count <= |y| && Rank(p, |y|) <= count
    requires forall i | c <= i < count :: y[i] == histValue
    ensures var (v, calculated) := Offer(value, false, p, |y|, count, histValue);
            if calculated then v == Some(Nist(p, y)) else Holds(v, p, count, y)
  {
    var k := Rank(p, |y|);
    assert y[c] == histValue && y[count - 1] == histValue;
    if value.None? && 0 < k < count && k < |y| {
      assert y[k] == y[k - 1] == histValue;
      assert Interpolate(histValue, histValue, Fraction(p, |y|)) == histValue;
    }
  }

  ghost predicate Queued(ps: seq<Percentile>, n: nat) {
    && (forall i | 0 <= i < |ps| :: ps[i].sampleSize == n && ps[i].Valid() && ps[i].k <= n)
    && (forall i, j | 0 <= i < j < |ps| ::
          && ps[i] != ps[j]
          && ps[i].percentile != ps[j].percentile
          && ps[i].k <= ps[j].k
          && (0 < ps[i].k < n ==> ps[i].k < ps[j].k))
  }

  // The percentiles found so far have the right values, and no others are recorded.
  ghost predicate Found(ps: seq<Percentile>, q: nat, y: seq<real>, found: map<nat, real>)
    requires y != [] && q <= |ps|
  {
    && (forall i | 0 <= i < q :: ps[i].percentile in found && found[ps[i].percentile] == Nist(ps[i].percentile, y))
    && (forall p | p in found :: exists i | 0 <= i < q :: ps[i].percentile == p)
  }

  // After c sample points the percentile at the head holds what it should, and those
  // behind it are untouched.
  ghost predicate Pending(ps: seq<Percentile>, q: nat, c: nat, y: seq<real>)
    requires q <= |ps|
    reads ps
  {
    && (forall i | q <= i < |ps| :: !ps[i].isCalculated && Holds(ps[i].value, ps[i].percentile, c, y))
    && (forall i | q < i < |ps| :: ps[i].value == None)
  }

  // The nested while: one bucket is offered to the percentile at the head of the queue
  // until one of them has to wait or is not reached.
  method VisitBucket(ps: seq<Percentile>, q: nat, found: map<nat, real>, currCount: nat, histValue: real,
                     ghost before: nat, ghost y: seq<real>)
    returns (q': nat, found': map<nat, real>)
    requires y != [] && Queued(ps, |y|)
    requires q <= |ps| && Found(ps, q, y, found) && Pending(ps, q, before, y)
    requires before < currCount <= |y|
    requires forall i | before <= i < currCount :: y[i] == histValue
    modifies ps
    ensures q' <= |ps| && Found(ps, q', y, found') && Pending(ps, q', currCount, y)
  {
    q', found' := q, found;
    while q' < |ps| && currCount >= ps[q'].k
      invariant q' <= |ps| && Found(ps, q', y, found') && Pending(ps, q', before, y)
      decreases |ps| - q'
    {
      var p := ps[q'];
      OfferIsRight(p.value, p.percentile, before, y, currCount, histValue);
      p.FindValue(currCount, histValue);
      if p.isCalculated {
        FoundNext(ps, q', y, found');
        found' := found'[p.percentile := p.value.value];
      } else {
        break;
      }
      q' := q' + 1;
    }
  }

  lemma FoundNext(ps: seq<Percentile>, q: nat, y: seq<real>, found: map<nat, real>)
    requires y != [] && Queued(ps, |y|) && q < |ps| && Found(ps, q, y, found)
    ensures Found(ps, q + 1, y, found[ps[q].percentile := Nist(ps[q].percentile, y)])
  {
    forall p | p in found ensures exists i | 0 <= i < q + 1 :: ps[i].percentile == p {
      var i :| 0 <= i < q && ps[i].percentile == p;
    }
  }

  // A larger count starts the mode list afresh, an equal one extends it.
  method NextMode(h: Histogram, i: nat, mode: seq<string>) returns (next: seq<string>)
    requires DistinctKeys(h) && i < |h|
    requires mode == if i == 0 then [] else Attaining(h, MaxCount(h, i), i)
    ensures next == Attaining(h, MaxCount(h, i + 1), i + 1)
  {
    var b := h[i];
    if i > 0 {
      MaxCountIsMax(h, i);
      CountOfMode(h, i);
    }
    next := mode;
    if mode == [] || b.count > CountOf(h, mode[0]) {
      next := [b.key];
    } else if b.count == CountOf(h, mode[0]) {
      next := mode + [b.key];
    }
  }

  // Pass one, in insertion order: the mode, the numerator of the mean, the sample size.
  method FirstPass(h: Histogram, read: Reader)
    returns (numeric: bool, mode: seq<string>, meanNum: real, sampleSize: int)
    requires h != [] && DistinctKeys(h) && PositiveCounts(h)
    ensures numeric == Numeric(h, read)
    ensures numeric ==>
              && mode == Attaining(h, MaxCount(h))
              && meanNum == SumUpTo(Items(h, read), |h|)
              && sampleSize == CountUpTo(Items(h, read), |h|)
  {
    numeric, mode, meanNum, sampleSize := true, [], 0.0, 0;
    var items := Items(h, read);
    for i := 0 to |h|
      invariant numeric && forall j | 0 <= j < i :: read(h[j].key).Some?
      invariant mode == if i == 0 then [] else Attaining(h, MaxCount(h, i), i)
      invariant meanNum == SumUpTo(items, i)
      invariant sampleSize == CountUpTo(items, i)
    {
      var b := h[i];
      if read(b.key) == None {
        numeric := false;
        return;
      }
      mode, meanNum, sampleSize := VisitFirst(h, items, i, mode, meanNum, sampleSize);
    }
  }

  // One bucket of the first pass.
  method VisitFirst(h: Histogram, items: seq<Item>, i: nat, mode: seq<string>, meanNum: real, sampleSize: int)
    returns (mode': seq<string>, meanNum': real, sampleSize': int)
    requires DistinctKeys(h) && PositiveItems(items) && i < |h| == |items|
    requires mode == if i == 0 then [] else Attaining(h, MaxCount(h, i), i)
    requires meanNum == SumUpTo(items, i) && sampleSize == CountUpTo(items, i)
    ensures mode' == Attaining(h, MaxCount(h, i + 1), i + 1)
    ensures meanNum' == SumUpTo(items, i + 1) && sampleSize' == CountUpTo(items, i + 1)
  {
    mode' := NextMode(h, i, mode);
    meanNum' := AddWeighted(items, i, meanNum);
    sampleSize' := sampleSize + items[i].count;
  }

  method AddWeighted(items: seq<Item>, i: nat, sum: real) returns (next: real)
    requires PositiveItems(items) && i < |items| && sum == SumUpTo(items, i)
    ensures next == SumUpTo(items, i + 1)
  {
    var weighted := Multiply(items[i].value, items[i].count);
    next := sum + weighted;
  }

  method AddDeviation(sorted: seq<Item>, i: nat, mean: real, deviations: real) returns (next: real)
    requires PositiveItems(sorted) && i < |sorted|
    requires deviations == DeviationsUpTo(sorted, i, mean)
    ensures next == DeviationsUpTo(sorted, i + 1, mean)
  {
    var weighted := Multiply(Square(sorted[i].value - mean), sorted[i].count);
    next := deviations + weighted;
  }

  // Pass two, in sorted order: the squared deviations and the percentiles.
  method SecondPass(sorted: seq<Item>, sampleSize: nat, mean: real) returns (deviations: real, found: map<nat, real>)
    requires sorted != [] && PositiveItems(sorted) && sampleSize == |Expand(sorted)| > 0
    ensures deviations == DeviationsUpTo(sorted, |sorted|, mean)
    ensures found == map p | p in QUANTILES :: Nist(p, Expand(sorted))
  {
    ghost var y := Expand(sorted);
    deviations, found := 0.0, map[];
    var ps := MakePercentiles(sampleSize);
    var q: nat, currCount: nat := 0, 0;
    for i := 0 to |sorted|
      invariant q <= |ps| && Found(ps, q, y, found) && Pending(ps, q, currCount, y)
      invariant currCount == CountUpTo(sorted, i)
      invariant deviations == DeviationsUpTo(sorted, i, mean)
      invariant fresh(ps)
    {
      deviations := AddDeviation(sorted, i, mean, deviations);
      q, found, currCount := VisitItem(sorted, i, ps, q, found, currCount, y);
    }
    EndOfSample(sorted);
    AllFound(ps, q, y, found);
  }

  // One bucket of the second pass: count it, then offer it to the percentiles.
  method VisitItem(sorted: seq<Item>, i: nat, ps: seq<Percentile>, q: nat, found: map<nat, real>, currCount: nat,
                   ghost y: seq<real>)
    returns (q': nat, found': map<nat, real>, count: nat)
    requires PositiveItems(sorted) && i < |sorted| && y == Expand(sorted) != []
    requires Queued(ps, |y|) && q <= |ps| && Found(ps, q, y, found) && Pending(ps, q, currCount, y)
    requires currCount == CountUpTo(sorted, i)
    modifies ps
    ensures q' <= |ps| && Found(ps, q', y, found') && Pending(ps, q', count, y)
    ensures count == CountUpTo(sorted, i + 1)
  {
    PlaceOfBucket(sorted, i);
    count := currCount + sorted[i].count;
    q', found' := VisitBucket(ps, q, found, count, sorted[i].value, currCount, y);
  }

  // HistogramValidator.statistics
  method Compute(h: Histogram, read: Reader) returns (stats: Summary)
    requires h != [] && PositiveCounts(h) && DistinctKeys(h)
    ensures stats == StatisticsOf(h, read)
  {
    var numeric, mode, meanNum, sampleSize := FirstPass(h, read);
    if !numeric {
      return NotNumeric;
    }
    var items := Items(h, read);
    var sorted := SortItems(items);
    SampleOfHistogram(h, read);
    MeanOfSample(items);
    SortItemsSorts(items);
    Extremes(sorted);
    var mean := meanNum / sampleSize as real;
    var deviations, found := SecondPass(sorted, sampleSize, mean);
    assert deviations == SumOfDeviations(Expand(sorted), mean) by {
      DeviationsUpToExpand(sorted, |sorted|, mean);
      assert sorted[..|sorted|] == sorted;
    }
    stats := Stats(Values(mode, read), mean, sorted[0].value, sorted[|sorted| - 1].value, found,
                   deviations / sampleSize as real);
  }

  lemma {:induction false} MeanOfSample(items: seq<Item>)
    requires PositiveItems(items)
    ensures SumUpTo(items, |items|) == Sum(Expand(SortItems(items)))
    ensures CountUpTo(items, |items|) == |Expand(SortItems(items))|
  {
    SumUpToExpands(items, |items|);
    assert items[..|items|] == items;
    SumSorted(items);
    EndOfSample(items);
    SortItemsSorts(items);
    assert |multiset(Expand(SortItems(items)))| == |multiset(Expand(items))|;
  }

  method MakePercentiles(sampleSize: nat) returns (ps: seq<Percentile>)
    requires sampleSize > 0
    ensures fresh(ps) && |ps| == |QUANTILES| && Queued(ps, sampleSize)
    ensures forall i | 0 <= i < |ps| :: ps[i].percentile == QUANTILES[i] && ps[i].value == None && !ps[i].isCalculated
  {
    QuantilesSeparated(sampleSize);
    ps := [];
    for i := 0 to |QUANTILES|
      invariant |ps| == i && fresh(ps)
      invariant forall j | 0 <= j < i :: ps[j].percentile == QUANTILES[j] && ps[j].sampleSize == sampleSize
      invariant forall j | 0 <= j < i :: ps[j].Valid() && ps[j].value == None && !ps[j].isCalculated
      invariant forall j, l | 0 <= j < l < i :: ps[j] != ps[l]
    {
      var p := new Percentile(QUANTILES[i], sampleSize);
      ps := ps + [p];
    }
  }

  // At the end of the sample nothing is still waiting.
  lemma AllFound(ps: seq<Percentile>, q: nat, y: seq<real>, found: map<nat, real>)
    requires y != [] && Queued(ps, |y|) && |ps| == |QUANTILES|
    requires forall i | 0 <= i < |ps| :: ps[i].percentile == QUANTILES[i]
    requires q <= |ps| && Found(ps, q, y, found)
    requires q < |ps| ==> Holds(ps[q].value, ps[q].percentile, |y|, y)
    ensures found == map p | p in QUANTILES :: Nist(p, y)
  {
    assert q == |ps|;
    forall p | p in QUANTILES ensures p in found && found[p] == Nist(p, y) {
      var i :| 0 <= i < |QUANTILES| && QUANTILES[i] == p;
      assert ps[i].percentile == p;
    }
  }

  // The running totals of the two passes over the first n buckets.
  function SumUpTo(items: seq<Item>, n: nat): real
    requires n <= |items| && PositiveItems(items)
  {
    if n == 0 then 0.0 else SumUpTo(items, n - 1) + Times(items[n - 1].value, items[n - 1].count)
  }

  function DeviationsUpTo(items: seq<Item>, n: nat, m: real): real
    requires n <= |items| && PositiveItems(items)
  {
    if n == 0 then 0.0
    else var x := items[n - 1]; DeviationsUpTo(items, n - 1, m) + Times(Square(x.value - m), x.count)
  }

  function CountUpTo(items: seq<Item>, n: nat): int
    requires n <= |items|
  {
    if n == 0 then 0 else CountUpTo(items, n - 1) + items[n - 1].count
  }

  lemma {:induction false} SumUpToExpands(items: seq<Item>, n: nat)
    requires n <= |items| && PositiveItems(items)
    ensures SumUpTo(items, n) == Sum(Expand(items[..n]))
  {
    if n == 0 {
      assert Expand(items[..0]) == [];
    } else {
      SumUpToExpands(items, n - 1);
      var x := items[n - 1];
      ExpandNext(items, n - 1);
      SumNext(Expand(items[..n - 1]), x.value, x.count, Expand(items[..n]));
    }
  }

  lemma {:induction false} SumNext(before: seq<real>, v: real, count: nat, after: seq<real>)
    requires after == before + Repeat(v, count)
    ensures Sum(after) == Sum(before) + Times(v, count)
  {
    SumAppend(before, Repeat(v, count));
    SumRepeat(v, count);
  }

  lemma {:induction false} DeviationsUpToExpand(items: seq<Item>, n: nat, m: real)
    requires n <= |items| && PositiveItems(items)
    ensures DeviationsUpTo(items, n, m) == SumOfDeviations(Expand(items[..n]), m)
  {
    if n == 0 {
      assert Expand(items[..0]) == [];
    } else {
      DeviationsUpToExpand(items, n - 1, m);
      var x := items[n - 1];
      ExpandNext(items, n - 1);
      DeviationsNext(Expand(items[..n - 1]), x.value, x.count, Expand(items[..n]), m);
    }
  }

  lemma {:induction false} DeviationsNext(before: seq<real>, v: real, count: nat, after: seq<real>, m: real)
    requires after == before + Repeat(v, count)
    ensures SumOfDeviations(after, m) == SumOfDeviations(before, m) + Times(Square(v - m), count)
  {
    SumOfDeviationsAppend(before, Repeat(v, count), m);
    DeviationsRepeat(v, count, m);
  }

  lemma {:induction false} SizeUpTo(items: seq<Item>, n: nat)
    requires n <= |items| && PositiveItems(items)
    ensures CountUpTo(items, n) == |Expand(items[..n])|
  {
    if n > 0 {
      SizeUpTo(items, n - 1);
      ExpandNext(items, n - 1);
    }
  }

  lemma {:induction false} EndOfSample(items: seq<Item>)
    requires PositiveItems(items)
    ensures CountUpTo(items, |items|) == |Expand(items)|
  {
    SizeUpTo(items, |items|);
    assert items[..|items|] == items;
  }

  // Bucket i covers the sample points from the count before it to the count after it.
  lemma {:induction false} PlaceOfBucket(items: seq<Item>, i: nat)
    requires PositiveItems(items) && i < |items|
    ensures 0 <= CountUpTo(items, i) < CountUpTo(items, i) + items[i].count <= |Expand(items)|
    ensures forall j | CountUpTo(items, i) <= j < CountUpTo(items, i) + items[i].count ::
              Expand(items)[j] == items[i].value
  {
    SizeUpTo(items, i);
    ExpandAt(items, i);
  }

  // The first and last buckets hold the ends of the sample.
  lemma {:induction false} Extremes(items: seq<Item>)
    requires items != [] && PositiveItems(items)
    ensures Expand(items) != [] && Expand(items)[0] == items[0].value
    ensures Expand(items)[|Expand(items)| - 1] == items[|items| - 1].value
  {
    ExpandAt(items, 0);
    ExpandAt(items, |items| - 1);
    assert items[..0] == [] && items[..|items|] == items;
  }

  // ---------- what the statistics mean ----------

  lemma InterpolateBetween(a: real, b: real, d: real, d': real)
    requires a <= b && 0.0 <= d <= d' < 1.0
    ensures a <= Interpolate(a, b, d) <= Interpolate(a, b, d') <= b
  {
    TimesMonotone(0.0, d, b - a);
    TimesMonotone(d, d', b - a);
    TimesMonotone(d', 1.0, b - a);
  }

  lemma TimesMonotone(x: real, y: real, z: real)
    requires x <= y && z >= 0.0
    ensures x * z <= y * z
  {
    assert (y - x) * z >= 0.0;
  }

  // The percentile rule in the sample's own terms: with p(N+1) between 100k and 100(k+1) the
  // percentile is the first point for k = 0, the last for k >= N, and otherwise lies as many
  // hundredths of the way from the k-th point to the next as p(N+1) exceeds 100k.
  predicate FollowsRule(v: real, p: nat, k: nat, y: seq<real>)
    requires y != []
  {
    if k == 0 then v == y[0]
    else if k >= |y| then v == y[|y| - 1]
    else 100.0 * (v - y[k - 1]) == (p * (|y| + 1) - 100 * k) as real * (y[k] - y[k - 1])
  }

  lemma {:induction false} NistRule(p: nat, y: seq<real>, k: nat)
    requires y != [] && 100 * k <= p * (|y| + 1) < 100 * (k + 1)
    ensures FollowsRule(Nist(p, y), p, k, y)
  {
    var m := p * (|y| + 1);
    assert m / 100 == k && m % 100 == m - 100 * k;
    if 0 < k < |y| {
      Hundredths(y[k - 1], y[k], m - 100 * k);
    }
  }

  lemma Hundredths(a: real, b: real, r: nat)
    requires r < 100
    ensures 100.0 * (Interpolate(a, b, r as real / 100.0) - a) == r as real * (b - a)
  {
    var d := r as real / 100.0;
    assert 100.0 * d == r as real;
    assert 100.0 * (d * (b - a)) == (100.0 * d) * (b - a);
  }

  /** The stored percentiles are those of 25, 50, 75 and 95, by the rule on the sorted, fully
      expanded sample. */
  lemma {:induction false} PercentilesFollowRule(h: Histogram, read: Reader, p: nat, k: nat)
    requires h != [] && PositiveCounts(h) && Numeric(h, read)
    requires 100 * k <= p * (Total(h) + 1) < 100 * (k + 1)
    ensures var (s, y) := (StatisticsOf(h, read), Sample(h, read));
            && (p in s.quantiles <==> p in {25, 50, 75, 95})
            && y != [] && (p in s.quantiles ==> FollowsRule(s.quantiles[p], p, k, y))
  {
    var y := Sample(h, read);
    StatisticsAre(h, read, y);
    assert p in QUANTILES <==> p in {25, 50, 75, 95} by {
      assert QUANTILES[0] == 25 && QUANTILES[1] == 50 && QUANTILES[2] == 75 && QUANTILES[3] == 95;
    }
    NistRule(p, y, k);
  }

  lemma NistInRange(p: nat, y: seq<real>)
    requires y != [] && Sorted(y)
    ensures y[0] <= Nist(p, y) <= y[|y| - 1]
    ensures var k := Rank(p, |y|); 0 < k < |y| ==> y[k - 1] <= Nist(p, y) <= y[k]
  {
    var k := Rank(p, |y|);
    if 0 < k < |y| {
      var d := Fraction(p, |y|);
      InterpolateBetween(y[k - 1], y[k], d, d);
    }
  }

  /** A larger percentage never gives a smaller percentile. */
  lemma NistMonotone(p: nat, q: nat, y: seq<real>)
    requires y != [] && Sorted(y) && p <= q
    ensures Nist(p, y) <= Nist(q, y)
  {
    var n := |y|;
    RankMonotone(p, q, n);
    NistInRange(p, y);
    NistInRange(q, y);
    if 0 < Rank(p, n) == Rank(q, n) < n {
      InterpolateBetween(y[Rank(p, n) - 1], y[Rank(p, n)], Fraction(p, n), Fraction(q, n));
    }
  }

  lemma RankMonotone(p: nat, q: nat, n: nat)
    requires p <= q
    ensures Rank(p, n) <= Rank(q, n)
    ensures Rank(p, n) == Rank(q, n) ==> Fraction(p, n) <= Fraction(q, n)
  {
    ProductMonotone(p, q, n + 1);
    DivideMonotone(p * (n + 1), q * (n + 1));
  }

  lemma ProductMonotone(p: nat, q: nat, m: nat)
    requires p <= q
    ensures p * m <= q * m
  {
    assert (q - p) * m >= 0;
  }

  lemma DivideMonotone(a: nat, b: nat)
    requires a <= b
    ensures a / 100 <= b / 100
    ensures a / 100 == b / 100 ==> (a % 100) as real / 100.0 <= (b % 100) as real / 100.0
  {
  }

  // The statistics of a numeric histogram, read off its sample.
  lemma {:induction false} StatisticsAre(h: Histogram, read: Reader, y: seq<real>)
    requires h != [] && PositiveCounts(h) && Numeric(h, read) && y == Sample(h, read)
    ensures y != [] && Sorted(y) && |y| == Total(h)
    ensures StatisticsOf(h, read) ==
            Stats(Values(Attaining(h, MaxCount(h)), read), Mean(y), y[0], y[|y| - 1],
                  map p | p in QUANTILES :: Nist(p, y), Variance(y))
  {
    SampleOfHistogram(h, read);
  }

  /** minimum <= percentile-25 <= median <= percentile-75 <= percentile-95 <= maximum */
  lemma PercentilesOrdered(h: Histogram, read: Reader)
    requires h != [] && PositiveCounts(h) && Numeric(h, read)
    ensures var s := StatisticsOf(h, read);
            s.minimum <= s.quantiles[25] <= s.quantiles[50] <= s.quantiles[75] <= s.quantiles[95] <= s.maximum
  {
    var y := Sample(h, read);
    StatisticsAre(h, read, y);
    assert 25 in QUANTILES && 50 in QUANTILES && 75 in QUANTILES && 95 in QUANTILES by {
      assert QUANTILES[0] == 25 && QUANTILES[1] == 50 && QUANTILES[2] == 75 && QUANTILES[3] == 95;
    }
    NistInRange(25, y);
    NistMonotone(25, 50, y);
    NistMonotone(50, 75, y);
    NistMonotone(75, 95, y);
    NistInRange(95, y);
  }

  datatype Moments = Moments(size: real, sum: real, squares: real, mean: real, variance: real)

  // The mean, and the mean of the squares less the squared mean.
  predicate HasMoments(m: Moments) {
    m.size > 0.0 && m.mean == m.sum / m.size && m.variance == m.squares / m.size - m.mean * m.mean
  }

  lemma {:induction false} MomentsOfSample(y: seq<real>)
    requires y != []
    ensures HasMoments(Moments(|y| as real, Sum(y), SumOfSquares(y), Mean(y), Variance(y)))
    ensures Variance(y) >= 0.0
  {
    VarianceIdentity(y);
  }

  /** The mean is the mean of the counted values, in whatever order the buckets came; the
      variance is non-negative and the mean of the squares less the squared mean. */
  lemma {:induction false} MomentsOfStatistics(h: Histogram, read: Reader)
    requires h != [] && PositiveCounts(h) && Numeric(h, read)
    ensures var s := StatisticsOf(h, read);
            && HasMoments(Moments(Total(h) as real, Sum(Expand(Items(h, read))), SumOfSquares(Sample(h, read)),
                                  s.mean, s.variance))
            && s.variance >= 0.0
  {
    var y := Sample(h, read);
    StatisticsAre(h, read, y);
    SumSorted(Items(h, read));
    MomentsOfSample(y);
  }

  /** Minimum and maximum are the ends of the sample. */
  lemma RangeOfStatistics(h: Histogram, read: Reader)
    requires h != [] && PositiveCounts(h) && Numeric(h, read)
    ensures var s := StatisticsOf(h, read);
            && s.minimum in Sample(h, read) && s.maximum in Sample(h, read)
            && forall v | v in Sample(h, read) :: s.minimum <= v <= s.maximum
  {
    StatisticsAre(h, read, Sample(h, read));
  }

  /** The mode list is exactly the values of the buckets with the largest count. */
  lemma ModeIsLargest(h: Histogram, read: Reader)
    requires h != [] && PositiveCounts(h) && Numeric(h, read)
    ensures forall v :: v in StatisticsOf(h, read).mode <==>
              exists i | 0 <= i < |h| ::
                v == ValueOf(read, h[i].key) && forall j | 0 <= j < |h| :: h[j].count <= h[i].count
  {
    var m, keys := MaxCount(h), Attaining(h, MaxCount(h));
    var values := Values(keys, read);
    MaxCountIsMax(h);
    AttainingKeys(h, m, keys[0]);
    forall v | v in values
      ensures exists i | 0 <= i < |h| ::
                v == ValueOf(read, h[i].key) && forall j | 0 <= j < |h| :: h[j].count <= h[i].count
    {
      var k :| 0 <= k < |values| && values[k] == v;
      AttainingKeys(h, m, keys[k]);
    }
    forall i | 0 <= i < |h| && forall j | 0 <= j < |h| :: h[j].count <= h[i].count
      ensures ValueOf(read, h[i].key) in values
    {
      AttainingKeys(h, m, h[i].key);
      assert h[i].key in keys;
      var k :| 0 <= k < |keys| && keys[k] == h[i].key;
      assert values[k] == ValueOf(read, h[i].key);
    }
  }
}
