/**
  When a statistics row agrees with the aggregation of the same bin and window.
*/
module StatisticsRows {
  import opened Wrappers
  import opened Histograms
  import opened Rollups
  import opened RollupRuns
  import opened RollupTheorems
  import S = Statistics
  import M = MergedStatistics

  // A statistics row and the aggregation of the same bin and window agree.
  ghost predicate Follows(s: Setup, posts: seq<Post>, e: EventType, bin: int)
    requires GoodPosts(s, posts)
  {
    var store := Replay(s, posts).0;
    var row := Lookup(store, CellAt(e, bin));
    match Lookup(store, Cell(AggregationSummary, Freq(e.window), bin))
    case None => row == None
    case Some(HistogramDoc(h)) => Good(h) && row == Some(StatisticsDoc(S.StatisticsOf(h, s.read)))
    case Some(_) => false
  }

  // With window 0 agreement is a matter of the last histogram of the bin and all of them.
  lemma {:induction false} WindowZeroRow(s: Setup, posts: seq<Post>, e: EventType, bin: int)
    requires WellFormed(s) && GoodPosts(s, posts) && s.dataType.HistogramType?
    requires e in s.config && e.summary.StatisticsSummary? && e.window == 0 && Aggregates(s, None)
    ensures var ps := InBin(Replay(s, posts).1, e, bin);
            && AllHistograms(ps)
            && (Follows(s, posts, e, bin) <==>
                  ps != [] ==> S.StatisticsOf(MergeAll(ps), s.read) == S.StatisticsOf(ps[|ps| - 1].v.h, s.read))
  {
    AggregateOfBin(s, posts, e, bin);
    BinContent(s, posts, e, bin);
  }

  ghost predicate AllNumeric(ps: seq<Point>, read: Reader) {
    forall i | 0 <= i < |ps| :: ps[i].v.HistogramValue? && Numeric(ps[i].v.h, read)
  }

  lemma AllNumericNext(before: seq<Point>, p: Point, read: Reader)
    requires p.v.HistogramValue?
    ensures AllNumeric(before + [p], read) <==> AllNumeric(before, read) && Numeric(p.v.h, read)
  {
    var ps := before + [p];
    assert ps[|before|] == p && forall i | 0 <= i < |before| :: ps[i] == before[i];
  }

  lemma {:induction false} NumericMergeAll(ps: seq<Point>, read: Reader)
    requires ps != [] && AllHistograms(ps)
    ensures Numeric(MergeAll(ps), read) <==> AllNumeric(ps, read)
  {
    var n := |ps| - 1;
    var before, p := ps[..n], ps[n];
    assert ps == before + [p];
    AllNumericNext(before, p, read);
    MergeNext(before, p);
    if n > 0 {
      NumericMergeAll(before, read);
      M.NumericMerge(p.v.h, MergeAll(before), read);
    }
  }

  // The statistics of several numeric histograms together are those of the last one.
  ghost predicate LastSpeaksForAll(ps: seq<Point>, read: Reader)
    requires |ps| > 1 && AllHistograms(ps) && AllNumeric(ps, read)
  {
    var n := |ps| - 1;
    NumericMergeAll(ps, read);
    NumericMergeAll(ps[..n], read);
    var earlier, last, all :=
      S.StatisticsOf(MergeAll(ps[..n]), read), S.StatisticsOf(ps[n].v.h, read), S.StatisticsOf(MergeAll(ps), read);
    && earlier.mean == last.mean && earlier.variance == last.variance
    && last.minimum <= earlier.minimum && earlier.maximum <= last.maximum
    && all.mode == last.mode && all.quantiles == last.quantiles
  }

  lemma {:induction false} LastAgainstAll(ps: seq<Point>, read: Reader)
    requires |ps| > 1 && AllHistograms(ps) && AllNumeric(ps, read)
    ensures S.StatisticsOf(MergeAll(ps), read) == S.StatisticsOf(ps[|ps| - 1].v.h, read) <==> LastSpeaksForAll(ps, read)
  {
    var n := |ps| - 1;
    NumericMergeAll(ps, read);
    NumericMergeAll(ps[..n], read);
    M.MergedMoments(ps[n].v.h, MergeAll(ps[..n]), read);
    M.MergedRange(ps[n].v.h, MergeAll(ps[..n]), read);
  }

  lemma {:induction false} NotAllNumeric(ps: seq<Point>, read: Reader)
    requires ps != [] && AllHistograms(ps) && !AllNumeric(ps, read)
    ensures S.StatisticsOf(MergeAll(ps), read) == S.StatisticsOf(ps[|ps| - 1].v.h, read) <==>
              !Numeric(ps[|ps| - 1].v.h, read)
  {
    NumericMergeAll(ps, read);
  }

  /** Exactly when a row with window 0 agrees with the aggregation of its bin, in every run: the
      bin has at most one histogram, or the last one has a label that is not a number, or all are
      numeric and the last one has the mean and variance of the earlier ones, covers their range,
      and has the modes and percentiles of all of them. */
  lemma {:induction false} WindowZeroBins(s: Setup, posts: seq<Post>, e: EventType, bin: int)
    requires WellFormed(s) && GoodPosts(s, posts) && s.dataType.HistogramType?
    requires e in s.config && e.summary.StatisticsSummary? && e.window == 0 && Aggregates(s, None)
    ensures var ps := InBin(Replay(s, posts).1, e, bin);
            && AllHistograms(ps)
            && (Follows(s, posts, e, bin) <==>
                  || |ps| <= 1
                  || !Numeric(ps[|ps| - 1].v.h, s.read)
                  || (AllNumeric(ps, s.read) && LastSpeaksForAll(ps, s.read)))
  {
    var ps := InBin(Replay(s, posts).1, e, bin);
    WindowZeroRow(s, posts, e, bin);
    if |ps| > 1 {
      if AllNumeric(ps, s.read) {
        LastAgainstAll(ps, s.read);
      } else {
        NotAllNumeric(ps, s.read);
      }
    }
  }

  /** A statistics row that also has an aggregation agrees with it in every run exactly when its
      window is not 0, for every reader of labels that tells some numeric label from another. */
  lemma FollowsIffWindowed(s: Setup, e: EventType, key: string, other: string)
    requires WellFormed(s) && s.dataType.HistogramType?
    requires e in s.config && e.summary.StatisticsSummary? && Aggregates(s, Freq(e.window))
    requires s.read(key).Some? && s.read(other) != s.read(key)
    ensures (forall posts, bin | GoodPosts(s, posts) :: Follows(s, posts, e, bin)) <==> e.window != 0
  {
    if e.window == 0 {
      var posts := [HistogramPost(0, M.Single(other)), HistogramPost(0, M.Single(key))];
      WindowZeroDiffers(s, e, posts, key, other);
      assert GoodPosts(s, posts) && !Follows(s, posts, e, 0);
    } else {
      forall posts, bin | GoodPosts(s, posts) ensures Follows(s, posts, e, bin) {
        AggregateOfBin(s, posts, e, bin);
        StatisticsFollowAggregate(s, posts, e, bin);
      }
    }
  }

  lemma WindowZeroDiffers(s: Setup, e: EventType, posts: seq<Post>, key: string, other: string)
    requires WellFormed(s) && s.dataType.HistogramType?
    requires e in s.config && e.summary.StatisticsSummary? && e.window == 0 && Aggregates(s, None)
    requires s.read(key).Some? && s.read(other) != s.read(key)
    requires posts == [HistogramPost(0, M.Single(other)), HistogramPost(0, M.Single(key))]
    ensures GoodPosts(s, posts) && !Follows(s, posts, e, 0)
  {
    var first, second := M.Single(other), M.Single(key);
    var ps := TwoHistograms(s, posts, e, 0, first, second);
    WindowZeroBins(s, posts, e, 0);
    if s.read(other).Some? {
      M.SingleMean(key, s.read);
      M.SingleMean(other, s.read);
      assert ps[..1] == [ps[0]];
      assert MergeAll(ps[..1]) == first;
    } else {
      assert !Numeric(ps[0].v.h, s.read);
    }
  }

  function HistogramPost(ts: int, h: Histogram): Post {
    Post(ts, Posted(None, None, Missing, Missing, Some(h)))
  }

  lemma {:induction false} HistogramAccepted(s: Setup, posts: seq<Post>, ts: int, h: Histogram)
    requires WellFormed(s) && s.dataType.HistogramType? && Good(h) && GoodPosts(s, posts)
    ensures GoodPosts(s, posts + [HistogramPost(ts, h)])
    ensures var p := HistogramPost(ts, h);
            Replay(s, posts + [p]).1 == Replay(s, posts).1 + [Point(ts, p.posted, HistogramValue(h))]
  {
    var more := posts + [HistogramPost(ts, h)];
    assert more[..|posts|] == posts;
  }

  lemma TwoHistograms(s: Setup, posts: seq<Post>, e: EventType, ts: int, first: Histogram, second: Histogram)
    returns (points: seq<Point>)
    requires WellFormed(s) && s.dataType.HistogramType? && Good(first) && Good(second) && e.window == 0
    requires posts == [HistogramPost(ts, first), HistogramPost(ts, second)]
    ensures GoodPosts(s, posts) && points == InBin(Replay(s, posts).1, e, ts)
    ensures |points| == 2 && points[0].v == HistogramValue(first) && points[1].v == HistogramValue(second)
  {
    assert posts == ([] + [posts[0]]) + [posts[1]];
    HistogramAccepted(s, [], ts, first);
    HistogramAccepted(s, [] + [posts[0]], ts, second);
    var p0 := Point(ts, posts[0].posted, HistogramValue(first));
    var p1 := Point(ts, posts[1].posted, HistogramValue(second));
    points := ([] + [p0]) + [p1];
    InBinNext([], p0, e, ts);
    InBinNext([] + [p0], p1, e, ts);
  }

  // ---------- what a statistics row describes ----------

  // The samples of several histograms, pooled.
  ghost function Pooled(ps: seq<Point>, read: Reader): multiset<real>
    requires AllHistograms(ps)
  {
    if ps == [] then multiset{}
    else Pooled(ps[..|ps| - 1], read) + multiset(Sample(ps[|ps| - 1].v.h, read))
  }

  lemma {:induction false} MergeAllPools(ps: seq<Point>, read: Reader)
    requires ps != [] && AllHistograms(ps)
    ensures multiset(Sample(MergeAll(ps), read)) == Pooled(ps, read)
  {
    var n := |ps| - 1;
    if n > 0 {
      MergeAllPools(ps[..n], read);
      M.SamplesPool(ps[n].v.h, MergeAll(ps[..n]), read);
    } else {
      assert Pooled(ps[..0], read) == multiset{};
    }
  }

  // How often a label was counted in all histograms together.
  function CountIn(ps: seq<Point>, key: string): int {
    SumOf(KeyCounts(key), ps)
  }

  ghost predicate MostCounted(ps: seq<Point>, key: string) {
    CountIn(ps, key) > 0 && forall key' :: CountIn(ps, key') <= CountIn(ps, key)
  }

  // The values of the labels with the largest pooled count.
  ghost predicate IsPooledMode(ps: seq<Point>, read: Reader, v: real) {
    exists key | MostCounted(ps, key) :: v == ValueOf(read, key)
  }

  predicate Largest(h: Histogram, i: nat)
    requires i < |h|
  {
    forall j | 0 <= j < |h| :: h[j].count <= h[i].count
  }

  lemma {:induction false} LargestIsMostCounted(ps: seq<Point>, h: Histogram, i: nat)
    requires PositiveCounts(h) && DistinctKeys(h) && i < |h| && forall key :: CountOf(h, key) == CountIn(ps, key)
    ensures Largest(h, i) <==> MostCounted(ps, h[i].key)
  {
    forall j | 0 <= j < |h| ensures CountIn(ps, h[j].key) == h[j].count {
      CountOfDistinct(h, j);
    }
    if Largest(h, i) {
      forall key ensures CountIn(ps, key) <= CountIn(ps, h[i].key) {
        if !HasKey(h, key) {
          CountOfAbsent(h, key);
        }
      }
    } else {
      var j :| 0 <= j < |h| && h[j].count > h[i].count;
      assert CountIn(ps, h[j].key) > CountIn(ps, h[i].key);
    }
  }

  lemma {:induction false} ModesPool(ps: seq<Point>, read: Reader, v: real)
    requires ps != [] && AllHistograms(ps) && Numeric(MergeAll(ps), read)
    ensures v in S.StatisticsOf(MergeAll(ps), read).mode <==> IsPooledMode(ps, read, v)
  {
    var h := MergeAll(ps);
    forall key ensures CountOf(h, key) == CountIn(ps, key) {
      MergeAllAdds(KeyCounts(key), ps);
    }
    S.ModeIsLargest(h, read);
    forall i | 0 <= i < |h| ensures Largest(h, i) <==> MostCounted(ps, h[i].key) {
      LargestIsMostCounted(ps, h, i);
    }
    if v in S.StatisticsOf(h, read).mode {
      var i :| 0 <= i < |h| && v == ValueOf(read, h[i].key) && Largest(h, i);
    }
    if IsPooledMode(ps, read, v) {
      var key :| MostCounted(ps, key) && v == ValueOf(read, key);
      CountedKey(h, key);
      var i :| 0 <= i < |h| && h[i].key == key;
      assert Largest(h, i);
    }
  }

  lemma {:induction false} CountedKey(h: Histogram, key: string)
    requires CountOf(h, key) > 0
    ensures HasKey(h, key)
  {
    if !HasKey(h, key) {
      CountOfAbsent(h, key);
    }
  }

  /** A statistics row whose window is not 0 and also has an aggregation describes the pooled
      sample of all the histograms posted to its bin: mean, variance, range and NIST percentiles
      of the one ascending list that holds all their values, and the labels counted most often. */
  lemma {:induction false} RowDescribesPool(s: Setup, posts: seq<Post>, e: EventType, bin: int, y: seq<real>)
    requires WellFormed(s) && GoodPosts(s, posts) && s.dataType.HistogramType?
    requires e in s.config && e.summary.StatisticsSummary? && e.window != 0 && Aggregates(s, Freq(e.window))
    ensures var ps := InBin(Replay(s, posts).1, e, bin);
            var row := Lookup(Replay(s, posts).0, CellAt(e, bin));
            && AllHistograms(ps)
            && (ps != [] && AllNumeric(ps, s.read) && Sorted(y) && multiset(y) == Pooled(ps, s.read) ==>
                  && y != [] && row.Some? && row.value.StatisticsDoc? && row.value.stats.Stats?
                  && var stats := row.value.stats;
                  && stats.mean == S.Mean(y) && stats.variance == S.Variance(y)
                  && stats.minimum == y[0] && stats.maximum == y[|y| - 1]
                  && stats.quantiles == (map p | p in S.QUANTILES :: S.Nist(p, y))
                  && forall v :: v in stats.mode <==> IsPooledMode(ps, s.read, v))
  {
    var ps := InBin(Replay(s, posts).1, e, bin);
    AggregateOfBin(s, posts, e, bin);
    BinContent(s, posts, e, bin);
    if ps != [] && AllNumeric(ps, s.read) && Sorted(y) && multiset(y) == Pooled(ps, s.read) {
      PoolStatistics(ps, s.read, y);
    }
  }

  lemma {:induction false} PoolStatistics(ps: seq<Point>, read: Reader, y: seq<real>)
    requires ps != [] && AllHistograms(ps) && AllNumeric(ps, read)
    requires Sorted(y) && multiset(y) == Pooled(ps, read)
    ensures y != []
    ensures var stats := S.StatisticsOf(MergeAll(ps), read);
            && stats.Stats?
            && stats.mean == S.Mean(y) && stats.variance == S.Variance(y)
            && stats.minimum == y[0] && stats.maximum == y[|y| - 1]
            && stats.quantiles == (map p | p in S.QUANTILES :: S.Nist(p, y))
            && forall v :: v in stats.mode <==> IsPooledMode(ps, read, v)
  {
    NumericMergeAll(ps, read);
    MergeAllPools(ps, read);
    M.SampleIsUnique(MergeAll(ps), read, y);
    S.StatisticsAre(MergeAll(ps), read, y);
    forall v ensures v in S.StatisticsOf(MergeAll(ps), read).mode <==> IsPooledMode(ps, read, v) {
      ModesPool(ps, read, v);
    }
  }
}
