/**
  What merging does to the statistics of a histogram: the merged one describes the pooled sample.
*/
module MergedStatistics {
  import opened Wrappers
  import opened Histograms
  import opened Statistics
  import Sorting

  // ---------- the pooled sample ----------

  // The counted values, bucket by bucket.
  function Counted(h: Histogram, read: Reader): multiset<real> {
    multiset(Expand(Items(h, read)))
  }

  lemma CountedCons(b: Bucket, rest: Histogram, read: Reader)
    ensures Counted([b] + rest, read) == multiset(Repeat(ValueOf(read, b.key), b.count)) + Counted(rest, read)
  {
    var x := Item(ValueOf(read, b.key), b.count);
    assert Items([b] + rest, read) == [x] + Items(rest, read);
    ExpandCons(x, Items(rest, read));
  }

  lemma RepeatAdds(v: real, m: nat, n: nat)
    ensures multiset(Repeat(v, m + n)) == multiset(Repeat(v, m)) + multiset(Repeat(v, n))
  {
    assert Repeat(v, m + n) == Repeat(v, m) + Repeat(v, n);
  }

  lemma {:induction false} AddBucketPools(agg: Histogram, b: Bucket, read: Reader)
    requires PositiveCounts(agg) && b.count > 0
    ensures Counted(AddBucket(agg, b), read) == multiset(Repeat(ValueOf(read, b.key), b.count)) + Counted(agg, read)
  {
    if agg == [] {
      assert [b] == [b] + [];
      CountedCons(b, [], read);
    } else {
      var head, rest := agg[0], agg[1..];
      assert agg == [head] + rest;
      CountedCons(head, rest, read);
      if head.key == b.key {
        CountedCons(Bucket(b.key, head.count + b.count), rest, read);
        RepeatAdds(ValueOf(read, b.key), head.count, b.count);
      } else {
        KeysOfTail(agg);
        AddBucketPools(rest, b, read);
        CountedCons(head, AddBucket(rest, b), read);
      }
    }
  }

  lemma {:induction false} MergePools(curr: Histogram, agg: Histogram, read: Reader)
    requires PositiveCounts(curr) && PositiveCounts(agg)
    ensures Counted(Merge(curr, agg), read) == Counted(curr, read) + Counted(agg, read)
    decreases |curr|
  {
    if curr == [] {
      assert Items(curr, read) == [];
    } else {
      assert curr == [curr[0]] + curr[1..];
      KeysOfTail(curr);
      AddBucketCounts(agg, curr[0]);
      AddBucketPools(agg, curr[0], read);
      CountedCons(curr[0], curr[1..], read);
      MergePools(curr[1..], AddBucket(agg, curr[0]), read);
    }
  }

  /** A merged histogram stands for the samples of both, pooled. */
  lemma {:induction false} SamplesPool(curr: Histogram, agg: Histogram, read: Reader)
    requires PositiveCounts(curr) && PositiveCounts(agg)
    ensures multiset(Sample(Merge(curr, agg), read)) == multiset(Sample(curr, read)) + multiset(Sample(agg, read))
  {
    MergeAdds(curr, agg);
    MergePools(curr, agg, read);
    SampleOfHistogram(curr, read);
    SampleOfHistogram(agg, read);
    SampleOfHistogram(Merge(curr, agg), read);
  }

  predicate AtMost(x: real, y: real) {
    x <= y
  }

  /** Only one ascending list holds the values of a sample. */
  lemma SampleIsUnique(h: Histogram, read: Reader, y: seq<real>)
    requires PositiveCounts(h) && Sorted(y) && multiset(y) == multiset(Sample(h, read))
    ensures y == Sample(h, read)
  {
    SampleOfHistogram(h, read);
    assert Sorting.Separates(multiset(y), AtMost);
    Sorting.SortedIsUnique(y, Sample(h, read), AtMost);
  }

  // ---------- sums over a pooled sample ----------

  function Fold(f: real -> real, y: seq<real>): real {
    if y == [] then 0.0 else f(y[0]) + Fold(f, y[1..])
  }

  lemma {:induction false} FoldAppend(f: real -> real, a: seq<real>, b: seq<real>)
    ensures Fold(f, a + b) == Fold(f, a) + Fold(f, b)
  {
    if a == [] {
      assert a + b == b;
    } else {
      FoldAppend(f, a[1..], b);
      assert (a + b)[1..] == a[1..] + b;
    }
  }

  lemma Without(y: seq<real>, x: real) returns (before: seq<real>, after: seq<real>)
    requires x in y
    ensures y == before + ([x] + after)
    ensures multiset(before + after) == multiset(y) - multiset{x}
  {
    var i :| 0 <= i < |y| && y[i] == x;
    before, after := y[..i], y[i + 1..];
    assert y == before + ([x] + after);
  }

  lemma {:induction false} FoldPermuted(f: real -> real, a: seq<real>, b: seq<real>)
    requires multiset(a) == multiset(b)
    ensures Fold(f, a) == Fold(f, b)
    decreases |a|
  {
    if a == [] {
      assert |multiset(b)| == 0;
    } else {
      assert a[0] in multiset(b);
      var before, after := Without(b, a[0]);
      Sorting.WithoutHead(a);
      FoldPermuted(f, a[1..], before + after);
      FoldAppend(f, before, [a[0]] + after);
      FoldAppend(f, before, after);
    }
  }

  function Identity(x: real): real {
    x
  }

  lemma {:induction false} SumsAreFolds(y: seq<real>)
    ensures Sum(y) == Fold(Identity, y) && SumOfSquares(y) == Fold(Square, y)
  {
    if y != [] {
      SumsAreFolds(y[1..]);
    }
  }

  lemma {:induction false} SumsOfPool(y: seq<real>, a: seq<real>, b: seq<real>)
    requires multiset(y) == multiset(a) + multiset(b)
    ensures Sum(y) == Sum(a) + Sum(b) && SumOfSquares(y) == SumOfSquares(a) + SumOfSquares(b)
  {
    FoldPermuted(Identity, y, a + b);
    FoldPermuted(Square, y, a + b);
    FoldAppend(Identity, a, b);
    FoldAppend(Square, a, b);
    SumsAreFolds(y);
    SumsAreFolds(a);
    SumsAreFolds(b);
  }

  // Scaling by a positive factor keeps apart what is different.
  lemma ScaleApart(x: real, y: real, m: real, p: real, q: real)
    requires m > 0.0 && p == x * m && q == y * m
    ensures x == y <==> p == q
  {
    assert x < y ==> (y - x) * m > 0.0;
    assert x > y ==> (x - y) * m > 0.0;
    assert (y - x) * m == q - p;
    assert (x - y) * m == p - q;
  }

  // A pooled mean is that of one part exactly when both parts have it.
  lemma PooledMean(a: real, m: real, b: real, n: real)
    requires m > 0.0 && n > 0.0
    ensures (a + b) / (m + n) == b / n <==> a / m == b / n
  {
    var x, y, z := a / m, b / n, (a + b) / (m + n);
    var part, rest := y * m, y * n;
    assert a == x * m && b == rest;
    assert a + b == z * (m + n);
    assert y * (m + n) == part + rest;
    ScaleApart(x, y, m, a, part);
    ScaleApart(z, y, m + n, a + b, part + rest);
  }

  // ---------- the moments and the range ----------

  // The moments of a pooled sample against those of one part.
  lemma PooledMoments(a: Moments, c: Moments, pool: Moments)
    requires HasMoments(a) && HasMoments(c) && HasMoments(pool)
    requires pool.size == a.size + c.size && pool.sum == a.sum + c.sum && pool.squares == a.squares + c.squares
    ensures pool.mean == c.mean <==> a.mean == c.mean
    ensures pool.mean == c.mean ==> (pool.variance == c.variance <==> a.variance == c.variance)
  {
    PooledMean(a.sum, a.size, c.sum, c.size);
    PooledMean(a.squares, a.size, c.squares, c.size);
  }

  function MomentsAbout(h: Histogram, read: Reader): Moments
    requires h != [] && PositiveCounts(h) && Numeric(h, read)
  {
    var (y, s) := (Sample(h, read), StatisticsOf(h, read));
    Moments(|y| as real, Sum(y), SumOfSquares(y), s.mean, s.variance)
  }

  lemma MomentsHold(h: Histogram, read: Reader)
    requires h != [] && PositiveCounts(h) && Numeric(h, read)
    ensures HasMoments(MomentsAbout(h, read))
  {
    StatisticsAre(h, read, Sample(h, read));
    MomentsOfSample(Sample(h, read));
  }

  lemma {:induction false} MomentsPool(curr: Histogram, agg: Histogram, read: Reader)
    requires curr != [] && PositiveCounts(curr) && Numeric(curr, read)
    requires agg != [] && PositiveCounts(agg) && Numeric(agg, read)
    requires var merged := Merge(curr, agg); merged != [] && PositiveCounts(merged) && Numeric(merged, read)
    ensures var (m, c, a) := (MomentsAbout(Merge(curr, agg), read), MomentsAbout(curr, read), MomentsAbout(agg, read));
            m.size == a.size + c.size && m.sum == a.sum + c.sum && m.squares == a.squares + c.squares
  {
    var (y, yc, ya) := (Sample(Merge(curr, agg), read), Sample(curr, read), Sample(agg, read));
    SamplesPool(curr, agg, read);
    SumsOfPool(y, yc, ya);
    SizeOfPool(y, yc, ya);
  }

  lemma SizeOfPool(y: seq<real>, a: seq<real>, b: seq<real>)
    requires multiset(y) == multiset(a) + multiset(b)
    ensures |y| as real == |a| as real + |b| as real
  {
    assert |multiset(y)| == |multiset(a)| + |multiset(b)|;
  }

  /** Merging two numeric histograms keeps the mean of the one exactly when both have it, and
      then keeps its variance exactly when both have that. */
  lemma {:induction false} MergedMoments(curr: Histogram, agg: Histogram, read: Reader)
    requires curr != [] && PositiveCounts(curr) && Numeric(curr, read)
    requires agg != [] && PositiveCounts(agg) && Numeric(agg, read)
    requires var merged := Merge(curr, agg); merged != [] && PositiveCounts(merged) && Numeric(merged, read)
    ensures var (m, c, a) := (StatisticsOf(Merge(curr, agg), read), StatisticsOf(curr, read), StatisticsOf(agg, read));
            && (m.mean == c.mean <==> a.mean == c.mean)
            && (m.mean == c.mean ==> (m.variance == c.variance <==> a.variance == c.variance))
  {
    MomentsHold(Merge(curr, agg), read);
    MomentsHold(curr, read);
    MomentsHold(agg, read);
    MomentsPool(curr, agg, read);
    PooledMoments(MomentsAbout(agg, read), MomentsAbout(curr, read), MomentsAbout(Merge(curr, agg), read));
  }

  ghost predicate Spans(lo: real, hi: real, y: multiset<real>) {
    lo in y && hi in y && forall v | v in y :: lo <= v <= hi
  }

  lemma SortedSpans(y: seq<real>)
    requires y != [] && Sorted(y)
    ensures Spans(y[0], y[|y| - 1], multiset(y))
  {
    forall v | v in multiset(y) ensures y[0] <= v <= y[|y| - 1] {
      var i :| 0 <= i < |y| && y[i] == v;
    }
  }

  lemma RangeSpans(h: Histogram, read: Reader)
    requires h != [] && PositiveCounts(h) && Numeric(h, read)
    ensures Spans(StatisticsOf(h, read).minimum, StatisticsOf(h, read).maximum, multiset(Sample(h, read)))
  {
    StatisticsAre(h, read, Sample(h, read));
    SortedSpans(Sample(h, read));
  }

  lemma SpanOfPool(a: multiset<real>, lo: real, hi: real, b: multiset<real>, lo': real, hi': real,
                   least: real, greatest: real)
    requires Spans(lo, hi, a) && Spans(lo', hi', b) && Spans(least, greatest, a + b)
    ensures least == (if lo < lo' then lo else lo') && greatest == (if hi > hi' then hi else hi')
  {
    assert lo in a + b && hi in a + b && lo' in a + b && hi' in a + b;
    assert (least in a || least in b) && (greatest in a || greatest in b);
  }

  /** The range of a merged histogram is the hull of both ranges. */
  lemma {:induction false} MergedRange(curr: Histogram, agg: Histogram, read: Reader)
    requires curr != [] && PositiveCounts(curr) && Numeric(curr, read)
    requires agg != [] && PositiveCounts(agg) && Numeric(agg, read)
    requires var merged := Merge(curr, agg); merged != [] && PositiveCounts(merged) && Numeric(merged, read)
    ensures var (m, c, a) := (StatisticsOf(Merge(curr, agg), read), StatisticsOf(curr, read), StatisticsOf(agg, read));
            && m.minimum == (if c.minimum < a.minimum then c.minimum else a.minimum)
            && m.maximum == (if c.maximum > a.maximum then c.maximum else a.maximum)
  {
    var (m, c, a) := (StatisticsOf(Merge(curr, agg), read), StatisticsOf(curr, read), StatisticsOf(agg, read));
    SamplesPool(curr, agg, read);
    RangeSpans(Merge(curr, agg), read);
    RangeSpans(curr, read);
    RangeSpans(agg, read);
    SpanOfPool(multiset(Sample(curr, read)), c.minimum, c.maximum,
               multiset(Sample(agg, read)), a.minimum, a.maximum, m.minimum, m.maximum);
  }

  lemma NumericKeys(h: Histogram, read: Reader)
    ensures Numeric(h, read) <==> forall key | HasKey(h, key) :: read(key).Some?
  {
    if forall key | HasKey(h, key) :: read(key).Some? {
      forall i | 0 <= i < |h| ensures read(h[i].key).Some? {
        assert HasKey(h, h[i].key);
      }
    }
  }

  // A merged histogram is numeric exactly when both are.
  lemma {:induction false} NumericMerge(curr: Histogram, agg: Histogram, read: Reader)
    ensures Numeric(Merge(curr, agg), read) <==> Numeric(curr, read) && Numeric(agg, read)
  {
    MergeAdds(curr, agg);
    NumericKeys(curr, read);
    NumericKeys(agg, read);
    NumericKeys(Merge(curr, agg), read);
  }

  // One label, counted once.
  function Single(key: string): (h: Histogram)
    ensures h != [] && PositiveCounts(h) && DistinctKeys(h) && h[0].key == key
    ensures forall read: Reader | read(key).Some? :: Numeric(h, read)
  {
    [Bucket(key, 1)]
  }

  lemma SingleMean(key: string, read: Reader)
    requires read(key).Some?
    ensures StatisticsOf(Single(key), read).mean == read(key).value
  {
    var v := read(key).value;
    CountedCons(Bucket(key, 1), [], read);
    assert Single(key) == [Bucket(key, 1)] + [];
    SampleOfHistogram(Single(key), read);
    SampleIsUnique(Single(key), read, [v]);
    StatisticsAre(Single(key), read, [v]);
    assert Sum([v]) == v + Sum([v][1..]);
  }
}
