/**
  Consequences of the rollup invariant for the tables a client reads.
*/
module RollupTheorems {
  import opened Wrappers
  import opened Histograms
  import opened Rollups
  import opened RollupRuns
  import S = Statistics

  // ---------- which posts are accepted ----------

  // The first valid value posted at a time.
  function FirstValid(t: DataType, posts: seq<Post>, ts: int): Option<Value> {
    if posts == [] then None
    else
      var last := posts[|posts| - 1];
      var before := FirstValid(t, posts[..|posts| - 1], ts);
      if before.Some? then before
      else if last.ts == ts && Validate(t, last.posted).Success? then Some(Validate(t, last.posted).value)
      else None
  }

  lemma {:induction false} PointsAreFirstValid(s: Setup, posts: seq<Post>, ts: int)
    requires WellFormed(s) && GoodPosts(s, posts) && !s.dataType.HistogramType?
    ensures var ps := InBin(Replay(s, posts).1, BASE, ts);
            match FirstValid(s.dataType, posts, ts)
            case None => ps == []
            case Some(v) => |ps| == 1 && ps[0].v == v
  {
    if posts != [] {
      var n := |posts| - 1;
      var (store, points) := Replay(s, posts[..n]);
      PointsAreFirstValid(s, posts[..n], ts);
      BaseCellExists(s, posts[..n], ts);
      var posted := posts[n].posted;
      if SaveResult(s, store, posts[n].ts, posted).1.Saved? {
        InBinNext(points, Point(posts[n].ts, posted, Validate(s.dataType, posted).value), BASE, ts);
      }
    }
  }

  lemma {:induction false} BaseCellExists(s: Setup, posts: seq<Post>, ts: int)
    requires WellFormed(s) && GoodPosts(s, posts)
    ensures CellAt(BASE, ts) in Replay(s, posts).0 <==> InBin(Replay(s, posts).1, BASE, ts) != []
  {
    BinContent(s, posts, BASE, ts);
  }

  function BaseContent(t: DataType, v: Value): Content {
    match v
    case IntegerValue(n) => Rate(n)
    case RatioValue(num, den) => Agg(num, den)
    case HistogramValue(h) => HistogramDoc(h)
  }

  /** The base table of a counter type holds, at each time, the first valid value posted
      for that time, and nothing at other times. */
  lemma {:induction false} BaseHoldsFirstValid(s: Setup, posts: seq<Post>, ts: int)
    requires WellFormed(s) && GoodPosts(s, posts) && !s.dataType.HistogramType?
    ensures Lookup(Replay(s, posts).0, CellAt(BASE, ts)) ==
            match FirstValid(s.dataType, posts, ts) {
              case None => None
              case Some(v) => Some(BaseContent(s.dataType, v))
            }
  {
    PointsAreFirstValid(s, posts, ts);
    BinContent(s, posts, BASE, ts);
    var ps := InBin(Replay(s, posts).1, BASE, ts);
    if ps != [] {
      SingleBase(s, ps);
    }
  }

  // The base cell of a single point is its value.
  lemma {:induction false} SingleBase(s: Setup, ps: seq<Point>)
    requires |ps| == 1 && GoodPoints(s, ps) && !s.dataType.HistogramType?
    ensures Expected(s, BASE, ps) == BaseContent(s.dataType, ps[0].v)
  {
    assert ps == [] + [ps[0]];
    SumNext(Numerators, [], ps[0]);
    SumNext(Denominators, [], ps[0]);
  }

  /** After any run a post is accepted exactly when it is valid and, for a counter type, no
      valid value was posted at its time before; one that is not accepted changes nothing. */
  lemma {:induction false} AcceptedExactlyWhen(s: Setup, posts: seq<Post>, post: Post)
    requires WellFormed(s) && GoodPosts(s, posts + [post])
    ensures GoodPosts(s, posts) && GoodPosted(s.dataType, post.posted)
    ensures var (store, _) := Replay(s, posts);
            var (store', outcome) := SaveResult(s, store, post.ts, post.posted);
            && (outcome.Saved? <==>
                  Validate(s.dataType, post.posted).Success? &&
                  (s.dataType.HistogramType? || FirstValid(s.dataType, posts, post.ts).None?))
            && (!outcome.Saved? ==> store' == store && Replay(s, posts + [post]) == Replay(s, posts))
  {
    forall i | 0 <= i < |posts| ensures GoodPosted(s.dataType, posts[i].posted) {
      assert posts[i] == (posts + [post])[i];
    }
    assert (posts + [post])[|posts|] == post && (posts + [post])[..|posts|] == posts;
    BaseCellExists(s, posts, post.ts);
    if !s.dataType.HistogramType? {
      PointsAreFirstValid(s, posts, post.ts);
    }
  }

  // ---------- aggregations ----------

  function MeasureOf(m: Measure, content: Option<Content>): int {
    match (m, content)
    case (Numerators, Some(Rate(val))) => val
    case (Numerators, Some(Agg(val, _))) => val
    case (Denominators, Some(Agg(_, count))) => count
    case (KeyCounts(key), Some(HistogramDoc(h))) => CountOf(h, key)
    case (TotalCounts, Some(HistogramDoc(h))) => Total(h)
    case _ => 0
  }

  predicate Additive(t: DataType, m: Measure) {
    match t
    case IntegerType => m == Numerators
    case FloatType => m == Numerators
    case PercentageType => m == Numerators || m == Denominators
    case HistogramType => m.KeyCounts? || m == TotalCounts
  }

  lemma {:induction false} MergeAllAdds(m: Measure, ps: seq<Point>)
    requires ps != [] && AllHistograms(ps) && (m.KeyCounts? || m == TotalCounts)
    ensures MeasureOf(m, Some(HistogramDoc(MergeAll(ps)))) == SumOf(m, ps)
  {
    var last := ps[|ps| - 1].v.h;
    if |ps| > 1 {
      MergeAllAdds(m, ps[..|ps| - 1]);
      MergeAdds(last, MergeAll(ps[..|ps| - 1]));
    } else {
      assert SumOf(m, ps[..0]) == 0;
    }
  }

  /** Conservation: in every reachable state an aggregation bin adds up exactly the accepted
      points that fall in it: integer and float values, both halves of percentages, and
      histogram counts key by key as well as in total. */
  lemma {:induction false} AggregationConserves(s: Setup, posts: seq<Post>, e: EventType, bin: int, m: Measure)
    requires WellFormed(s) && GoodPosts(s, posts) && Additive(s.dataType, m)
    requires e in s.config && e.summary.AggregationSummary?
    ensures MeasureOf(m, Lookup(Replay(s, posts).0, CellAt(e, bin))) == SumOf(m, InBin(Replay(s, posts).1, e, bin))
  {
    BinContent(s, posts, e, bin);
    var ps := InBin(Replay(s, posts).1, e, bin);
    if s.dataType.HistogramType? && ps != [] {
      MergeAllAdds(m, ps);
    }
  }

  /** An integer average reads back as the exact mean of the accepted points of its bin: the
      number of points is counted, whatever their values. */
  lemma {:induction false} IntegerAverageIsMean(s: Setup, posts: seq<Post>, e: EventType, bin: int)
    requires WellFormed(s) && GoodPosts(s, posts) && s.dataType.IntegerType?
    requires e in s.config && e.summary.AverageSummary?
    ensures var ps := InBin(Replay(s, posts).1, e, bin);
            match Lookup(Replay(s, posts).0, CellAt(e, bin))
            case None => ps == []
            case Some(cell) =>
              && ps != [] && cell.Agg? && cell.count == |ps|
              && AverageOf(cell.val, cell.count, BaseFreq(IntegerType)) == SumOf(Numerators, ps) as real / |ps| as real
  {
    BinContent(s, posts, e, bin);
    var n := |InBin(Replay(s, posts).1, e, bin)|;
    assert n as real * (BaseFreq(IntegerType) as real / 1000.0) == n as real;
  }

  // ---------- coarser windows ----------

  function InRange(points: seq<Point>, lo: int, hi: int): seq<Point> {
    if points == [] then []
    else
      var last := points[|points| - 1];
      InRange(points[..|points| - 1], lo, hi) + if lo <= last.ts < hi then [last] else []
  }

  lemma BinIsRange(e: EventType, bin: int, ts: int)
    requires !e.summary.BaseSummary? && e.window > 0 && bin % e.window == 0
    ensures BinOf(e, ts) == bin <==> bin <= ts < bin + e.window
  {
    var w := e.window;
    assert ts == ts / w * w + ts % w;
    if bin <= ts < bin + w {
      QuotientUnique(ts, w, bin / w);
    }
  }

  lemma QuotientUnique(ts: int, w: int, q: int)
    requires w > 0 && q * w <= ts < q * w + w
    ensures ts / w == q
  {
    var d := ts / w - q;
    assert d * w == (ts - ts % w) - q * w;
    SmallMultiple(d, w);
  }

  lemma SmallMultiple(d: int, w: int)
    requires w > 0 && -w < d * w < w
    ensures d == 0
  {
    if d > 0 {
      AtLeastOnce(d, w);
    } else if d < 0 {
      AtLeastOnce(-d, w);
    }
  }

  lemma AtLeastOnce(d: int, w: int)
    requires d >= 1 && w > 0
    ensures d * w >= w
  {
    assert (d - 1) * w >= 0;
  }

  lemma {:induction false} BinsAreRanges(points: seq<Point>, e: EventType, bin: int)
    requires !e.summary.BaseSummary? && e.window > 0 && bin % e.window == 0
    ensures InBin(points, e, bin) == InRange(points, bin, bin + e.window)
  {
    if points != [] {
      BinsAreRanges(points[..|points| - 1], e, bin);
      BinIsRange(e, bin, points[|points| - 1].ts);
    }
  }

  lemma {:induction false} RangesAdd(m: Measure, points: seq<Point>, lo: int, mid: int, hi: int)
    requires lo <= mid <= hi
    ensures SumOf(m, InRange(points, lo, mid)) + SumOf(m, InRange(points, mid, hi)) == SumOf(m, InRange(points, lo, hi))
  {
    if points != [] {
      RangesAdd(m, points[..|points| - 1], lo, mid, hi);
      RangeNext(m, points, lo, mid);
      RangeNext(m, points, mid, hi);
      RangeNext(m, points, lo, hi);
    }
  }

  lemma RangeNext(m: Measure, points: seq<Point>, lo: int, hi: int)
    requires points != []
    ensures var last := points[|points| - 1];
            SumOf(m, InRange(points, lo, hi))
            == SumOf(m, InRange(points[..|points| - 1], lo, hi)) + if lo <= last.ts < hi then Weight(m, last.v) else 0
  {
    var rest := InRange(points[..|points| - 1], lo, hi);
    SumNext(m, rest, points[|points| - 1]);
    assert rest + [] == rest;
  }

  lemma {:induction false} EmptyRange(points: seq<Point>, at: int)
    ensures InRange(points, at, at) == []
  {
    if points != [] {
      EmptyRange(points[..|points| - 1], at);
    }
  }

  // n cells from a given time on, one every step, added up.
  function SumCells(m: Measure, store: Store, e: EventType, step: int, from: int, n: nat): int
    decreases n
  {
    if n == 0 then 0
    else MeasureOf(m, Lookup(store, CellAt(e, from))) + SumCells(m, store, e, step, from + step, n - 1)
  }

  lemma {:induction false} CellIsRange(s: Setup, posts: seq<Post>, e: EventType, bin: int, m: Measure)
    requires WellFormed(s) && GoodPosts(s, posts) && Additive(s.dataType, m)
    requires e in s.config && e.summary.AggregationSummary? && e.window > 0 && bin % e.window == 0
    ensures MeasureOf(m, Lookup(Replay(s, posts).0, CellAt(e, bin)))
            == SumOf(m, InRange(Replay(s, posts).1, bin, bin + e.window))
  {
    AggregationConserves(s, posts, e, bin, m);
    BinsAreRanges(Replay(s, posts).1, e, bin);
  }

  ghost predicate CellHoldsRange(m: Measure, store: Store, points: seq<Point>, e: EventType, step: int, bin: int) {
    MeasureOf(m, Lookup(store, CellAt(e, bin))) == SumOf(m, InRange(points, bin, bin + step))
  }

  lemma {:induction false} RangesTile(m: Measure, store: Store, points: seq<Point>, e: EventType, step: int,
                                      from: int, n: nat, to: int)
    requires step > 0 && from % step == 0 && to == from + n * step
    requires forall bin | bin % step == 0 :: CellHoldsRange(m, store, points, e, step, bin)
    ensures SumCells(m, store, e, step, from, n) == SumOf(m, InRange(points, from, to))
    decreases n
  {
    if n == 0 {
      EmptyRange(points, from);
    } else {
      var next := from + step;
      NextMultiple(from, n, step);
      RangesTile(m, store, points, e, step, next, n - 1, to);
      assert CellHoldsRange(m, store, points, e, step, from);
      RangesAdd(m, points, from, next, to);
    }
  }

  lemma NextMultiple(from: int, n: nat, w: int)
    requires n > 0 && w > 0 && from % w == 0
    ensures (from + w) % w == 0
    ensures from + w + (n - 1) * w == from + n * w
    ensures from + w <= from + n * w
  {
    assert from + w == (from / w + 1) * w;
    ProductMod(from / w + 1, w);
    AtLeastOnce(n, w);
  }

  lemma {:induction false} CellsAddUp(s: Setup, posts: seq<Post>, e: EventType, from: int, n: nat, to: int, m: Measure)
    requires WellFormed(s) && GoodPosts(s, posts) && Additive(s.dataType, m)
    requires e in s.config && e.summary.AggregationSummary? && e.window > 0 && from % e.window == 0
    requires to == from + n * e.window
    ensures SumCells(m, Replay(s, posts).0, e, e.window, from, n) == SumOf(m, InRange(Replay(s, posts).1, from, to))
  {
    var (store, points) := Replay(s, posts);
    forall bin | bin % e.window == 0 ensures CellHoldsRange(m, store, points, e, e.window, bin) {
      CellIsRange(s, posts, e, bin, m);
    }
    RangesTile(m, store, points, e, e.window, from, n, to);
  }

  lemma {:induction false} InstantsAreRanges(points: seq<Point>, ts: int)
    ensures InBin(points, BASE, ts) == InRange(points, ts, ts + 1)
  {
    if points != [] {
      InstantsAreRanges(points[..|points| - 1], ts);
    }
  }

  lemma {:induction false} BaseCellIsRange(s: Setup, posts: seq<Post>, ts: int, m: Measure)
    requires WellFormed(s) && GoodPosts(s, posts) && Additive(s.dataType, m) && !s.dataType.HistogramType?
    ensures CellHoldsRange(m, Replay(s, posts).0, Replay(s, posts).1, BASE, 1, ts)
  {
    BinContent(s, posts, BASE, ts);
    InstantsAreRanges(Replay(s, posts).1, ts);
  }

  /** For a counter type, adding up the base table second by second over a window gives that
      window's aggregation bin, in every reachable state. */
  lemma {:induction false} BinFromBase(s: Setup, posts: seq<Post>, e: EventType, bin: int, m: Measure)
    requires WellFormed(s) && GoodPosts(s, posts) && Additive(s.dataType, m) && !s.dataType.HistogramType?
    requires e in s.config && e.summary.AggregationSummary? && e.window > 0 && bin % e.window == 0
    ensures SumCells(m, Replay(s, posts).0, BASE, 1, bin, e.window)
            == MeasureOf(m, Lookup(Replay(s, posts).0, CellAt(e, bin)))
  {
    var (store, points) := Replay(s, posts);
    forall ts | ts % 1 == 0 ensures CellHoldsRange(m, store, points, BASE, 1, ts) {
      BaseCellIsRange(s, posts, ts, m);
    }
    RangesTile(m, store, points, BASE, 1, bin, e.window, bin + e.window);
    CellIsRange(s, posts, e, bin, m);
  }

  lemma ProductMod(a: int, w: int)
    requires w > 0
    ensures a * w % w == 0
  {
    QuotientUnique(a * w, w, a);
  }

  lemma DivisorDivides(bin: int, k: nat, w: int)
    requires w > 0 && k * w > 0 && bin % (k * w) == 0
    ensures bin % w == 0
  {
    var q := bin / (k * w);
    assert bin == q * (k * w) == (q * k) * w;
    ProductMod(q * k, w);
  }

  /** When one window divides another, adding up the fine bins inside a coarse bin gives the
      coarse bin, in every reachable state. */
  lemma {:induction false} CoarseFromFine(s: Setup, posts: seq<Post>, fine: EventType, coarse: EventType,
                                          k: nat, bin: int, m: Measure)
    requires WellFormed(s) && GoodPosts(s, posts) && Additive(s.dataType, m)
    requires fine in s.config && fine.summary.AggregationSummary? && fine.window > 0
    requires coarse in s.config && coarse.summary.AggregationSummary?
    requires coarse.window == k * fine.window > 0 && bin % coarse.window == 0
    ensures SumCells(m, Replay(s, posts).0, fine, fine.window, bin, k)
            == MeasureOf(m, Lookup(Replay(s, posts).0, CellAt(coarse, bin)))
  {
    DivisorDivides(bin, k, fine.window);
    CellsAddUp(s, posts, fine, bin, k, bin + coarse.window, m);
    CellIsRange(s, posts, coarse, bin, m);
  }

  // ---------- statistics ----------

  // The aggregation of a statistics row's bin merges the histograms of that bin.
  lemma {:induction false} AggregateOfBin(s: Setup, posts: seq<Post>, e: EventType, bin: int)
    requires WellFormed(s) && GoodPosts(s, posts) && s.dataType.HistogramType?
    requires e in s.config && e.summary.StatisticsSummary? && Aggregates(s, Freq(e.window))
    ensures DocOf(Lookup(Replay(s, posts).0, Cell(AggregationSummary, Freq(e.window), bin)),
                  InBin(Replay(s, posts).1, e, bin))
  {
    var a := AggregationOf(s, Freq(e.window));
    SameBins(Replay(s, posts).1, a, e, bin);
    BinContent(s, posts, a, bin);
  }

  /** A statistics row whose window is not zero and also has an aggregation holds the
      statistics of that bin's current aggregate; any other row holds those of the last
      histogram posted to its bin. */
  lemma {:induction false} StatisticsFollowAggregate(s: Setup, posts: seq<Post>, e: EventType, bin: int)
    requires WellFormed(s) && GoodPosts(s, posts) && s.dataType.HistogramType?
    requires e in s.config && e.summary.StatisticsSummary?
    ensures var (store, points) := Replay(s, posts);
            var ps := InBin(points, e, bin);
            if ps == [] then CellAt(e, bin) !in store
            else if e.window != 0 && Aggregates(s, Freq(e.window)) then
              var agg := Lookup(store, Cell(AggregationSummary, Freq(e.window), bin));
              && agg.Some? && agg.value.HistogramDoc? && Good(agg.value.h)
              && Lookup(store, CellAt(e, bin)) == Some(StatisticsDoc(S.StatisticsOf(agg.value.h, s.read)))
            else
              var last := ps[|ps| - 1].v;
              && last.HistogramValue? && Good(last.h)
              && Lookup(store, CellAt(e, bin)) == Some(StatisticsDoc(S.StatisticsOf(last.h, s.read)))
  {
    BinContent(s, posts, e, bin);
    if Aggregates(s, Freq(e.window)) {
      AggregateOfBin(s, posts, e, bin);
    }
  }

  // ---------- percentages ----------

  function Ratio(num: int, den: int): real
    requires den > 0
  {
    num as real / den as real
  }

  ghost predicate AllPercentages(ps: seq<Point>) {
    forall i | 0 <= i < |ps| :: ps[i].v.RatioValue? && ps[i].v.num >= 0 && ps[i].v.den > 0
  }

  lemma ScaledSum(x: real, a: int, b: int)
    ensures x * (a + b) as real == x * a as real + x * b as real
  {
    assert (a + b) as real == a as real + b as real;
  }

  lemma RatioBounds(x: real, num: int, den: int)
    requires den > 0
    ensures x <= Ratio(num, den) <==> x * den as real <= num as real
    ensures Ratio(num, den) <= x <==> num as real <= x * den as real
  {
    var r, d := Ratio(num, den), den as real;
    assert r * d == num as real;
    assert x <= r <==> x * d <= r * d by {
      assert (r - x) * d == r * d - x * d;
      if x > r {
        assert (x - r) * d > 0.0;
        assert (x - r) * d == x * d - r * d;
      } else {
        assert (r - x) * d >= 0.0;
      }
    }
    if x != r {
      assert x * d != r * d by {
        if x > r {
          assert (x - r) * d > 0.0;
          assert (x - r) * d == x * d - r * d;
        } else {
          assert (r - x) * d > 0.0;
          assert (r - x) * d == r * d - x * d;
        }
      }
    }
  }

  lemma {:induction false} PooledBetween(ps: seq<Point>) returns (least: nat, greatest: nat)
    requires ps != [] && AllPercentages(ps)
    ensures SumOf(Denominators, ps) > 0 && SumOf(Numerators, ps) >= 0
    ensures least < |ps| && greatest < |ps|
    ensures Ratio(ps[least].v.num, ps[least].v.den)
            <= Ratio(SumOf(Numerators, ps), SumOf(Denominators, ps))
            <= Ratio(ps[greatest].v.num, ps[greatest].v.den)
    decreases |ps|
  {
    var n := |ps| - 1;
    var last := ps[n].v;
    if n == 0 {
      least, greatest := 0, 0;
      assert SumOf(Numerators, ps[..0]) == 0 && SumOf(Denominators, ps[..0]) == 0;
    } else {
      var l, g := PooledBetween(ps[..n]);
      var num, den := SumOf(Numerators, ps[..n]), SumOf(Denominators, ps[..n]);
      assert SumOf(Numerators, ps) == num + last.num && SumOf(Denominators, ps) == den + last.den;
      Mediant(num, den, last.num, last.den);
      if Ratio(num, den) <= Ratio(last.num, last.den) {
        least, greatest := l, n;
      } else {
        least, greatest := n, g;
      }
    }
  }

  lemma Mediant(a: int, b: int, c: int, d: int)
    requires b > 0 && d > 0
    ensures Ratio(a, b) <= Ratio(c, d) ==> Ratio(a, b) <= Ratio(a + c, b + d) <= Ratio(c, d)
    ensures Ratio(c, d) <= Ratio(a, b) ==> Ratio(c, d) <= Ratio(a + c, b + d) <= Ratio(a, b)
  {
    var x, y := Ratio(a, b), Ratio(c, d);
    RatioBounds(x, a, b);
    RatioBounds(y, c, d);
    RatioBounds(x, c, d);
    RatioBounds(y, a, b);
    RatioBounds(x, a + c, b + d);
    RatioBounds(y, a + c, b + d);
    ScaledSum(x, b, d);
    ScaledSum(y, b, d);
    assert (a + c) as real == a as real + c as real;
  }

  // A percentage cell whose pooled ratio lies between those of two points.
  ghost predicate PooledRatio(cell: Content, least: Point, greatest: Point) {
    && cell.Agg? && cell.count > 0
    && least.v.RatioValue? && least.v.den > 0 && greatest.v.RatioValue? && greatest.v.den > 0
    && Ratio(least.v.num, least.v.den) <= Ratio(cell.val, cell.count) <= Ratio(greatest.v.num, greatest.v.den)
    && (greatest.v.num <= greatest.v.den ==> Ratio(cell.val, cell.count) <= 1.0)
  }

  lemma {:induction false} PooledCell(ps: seq<Point>) returns (least: Point, greatest: Point)
    requires ps != [] && AllPercentages(ps)
    ensures least in ps && greatest in ps
    ensures PooledRatio(Agg(SumOf(Numerators, ps), SumOf(Denominators, ps)), least, greatest)
  {
    var l, g := PooledBetween(ps);
    least, greatest := ps[l], ps[g];
    RatioBounds(1.0, greatest.v.num, greatest.v.den);
  }

  /** Every percentage bin a client can read has a positive denominator, and the pooled ratio
      lies between the ratios of two of its points; it is at most 1 when theirs are. */
  lemma {:induction false} PercentageBins(s: Setup, posts: seq<Post>, e: EventType, bin: int)
    requires WellFormed(s) && GoodPosts(s, posts) && s.dataType.PercentageType?
    requires e in s.config && Allowed(s.dataType, e.summary)
    ensures var ps := InBin(Replay(s, posts).1, e, bin);
            match Lookup(Replay(s, posts).0, CellAt(e, bin))
            case None => ps == []
            case Some(cell) =>
              ps != [] && exists least, greatest | least in ps && greatest in ps :: PooledRatio(cell, least, greatest)
  {
    BinContent(s, posts, e, bin);
    var ps := InBin(Replay(s, posts).1, e, bin);
    if ps != [] {
      assert AllPercentages(ps);
      var least, greatest := PooledCell(ps);
    }
  }

  // ---------- floats ----------

  function Abs(x: real): real {
    if x >= 0.0 then x else -x
  }

  // What was really posted, before truncation to four decimal places.
  function TrueSum(ps: seq<Point>): real {
    if ps == [] then 0.0
    else
      var posted := ps[|ps| - 1].posted;
      TrueSum(ps[..|ps| - 1]) + if posted.asReal.Some? then posted.asReal.value else 0.0
  }

  ghost predicate AllFloats(ps: seq<Point>) {
    forall i | 0 <= i < |ps| ::
      && ps[i].posted.asReal.Some?
      && ps[i].v == RatioValue(Truncate(ps[i].posted.asReal.value * 10000.0), 1)
  }

  lemma TruncationError(x: real)
    ensures Abs(Truncate(x) as real - x) < 1.0
    ensures Abs(Truncate(x) as real) <= Abs(x)
  {
  }

  lemma {:induction false} SumError(ps: seq<Point>)
    requires AllFloats(ps)
    ensures ps != [] ==> Abs(SumOf(Numerators, ps) as real - TrueSum(ps) * 10000.0) < |ps| as real
    ensures ps == [] ==> SumOf(Numerators, ps) == 0 && TrueSum(ps) == 0.0
  {
    if ps != [] {
      var n := |ps| - 1;
      SumError(ps[..n]);
      TruncationError(ps[n].posted.asReal.value * 10000.0);
      assert |ps| as real == n as real + 1.0;
    }
  }

  lemma ScaleError(val: real, sum: real, n: real)
    requires n > 0.0 && Abs(val - sum * 10000.0) < n
    ensures Abs(val / 10000.0 - sum) < n / 10000.0
    ensures Abs(val / (n * 10000.0) - sum / n) < 1.0 / 10000.0
  {
    var error := val / 10000.0 - sum;
    assert val / (n * 10000.0) == val / 10000.0 / n by {
      NestedQuotient(val, 10000.0, n);
    }
    DivideDifference(val / 10000.0, sum, n);
    assert Abs(error) < n / 10000.0;
    QuotientBelow(error, n, 1.0 / 10000.0);
  }

  lemma DivideDifference(x: real, y: real, n: real)
    requires n > 0.0
    ensures x / n - y / n == (x - y) / n
  {
  }

  lemma NestedQuotient(x: real, a: real, b: real)
    requires a > 0.0 && b > 0.0
    ensures b * a > 0.0 && x / (b * a) == x / a / b
  {
    var q := x / a / b;
    assert q * b == x / a;
    assert q * (b * a) == q * b * a == x;
  }

  lemma QuotientBelow(x: real, n: real, bound: real)
    requires n > 0.0 && Abs(x) < n * bound
    ensures Abs(x / n) < bound
  {
    var q := x / n;
    assert q * n == x;
    CancelFactor(q, bound, n);
    CancelFactor(-bound, q, n);
  }

  lemma CancelFactor(a: real, b: real, n: real)
    requires n > 0.0 && a * n < b * n
    ensures a < b
  {
    if b <= a {
      S.TimesMonotone(b, a, n);
    }
  }

  // How close the value read from a cell is to what was posted to its bin.
  ghost predicate ReadsBack(e: EventType, ps: seq<Point>, cell: Content) {
    && cell.Agg? && cell.count > 0
    && var read := AverageOf(cell.val, cell.count, BaseFreq(FloatType));
    match e.summary
    case AggregationSummary => Abs(read - TrueSum(ps)) < |ps| as real / 10000.0
    case AverageSummary => ps != [] && Abs(read - TrueSum(ps) / |ps| as real) < 1.0 / 10000.0
    case BaseSummary =>
      && |ps| == 1 && ps[0].posted.asReal.Some?
      && Abs(read - ps[0].posted.asReal.value) < 1.0 / 10000.0
      && Abs(read) <= Abs(ps[0].posted.asReal.value)
    case StatisticsSummary => false
  }

  /** A float reads back within 1/10000 of what was posted and never larger in magnitude; an
      n-point aggregation is within n/10000 of the true sum, and an average within 1/10000
      of the true mean. */
  lemma {:induction false} FloatBins(s: Setup, posts: seq<Post>, e: EventType, bin: int)
    requires WellFormed(s) && GoodPosts(s, posts) && s.dataType.FloatType?
    requires e in s.config && Allowed(s.dataType, e.summary)
    ensures var ps := InBin(Replay(s, posts).1, e, bin);
            match Lookup(Replay(s, posts).0, CellAt(e, bin))
            case None => ps == []
            case Some(cell) => ps != [] && ReadsBack(e, ps, cell)
  {
    BinContent(s, posts, e, bin);
    var ps := InBin(Replay(s, posts).1, e, bin);
    if ps != [] {
      if e.summary.BaseSummary? {
        assert e == BASE;
        PointsAreFirstValid(s, posts, bin);
      }
      FloatCell(s, e, ps);
    }
  }

  lemma FloatCell(s: Setup, e: EventType, ps: seq<Point>)
    requires s.dataType.FloatType? && GoodPoints(s, ps) && ps != []
    requires Allowed(s.dataType, e.summary) && (e.summary.BaseSummary? ==> |ps| == 1)
    ensures ReadsBack(e, ps, Expected(s, e, ps))
  {
    var val := SumOf(Numerators, ps);
    FloatPoints(s, ps);
    assert Abs(val as real / 10000.0 - TrueSum(ps)) < |ps| as real / 10000.0
        && Abs(val as real / (|ps| as real * 10000.0) - TrueSum(ps) / |ps| as real) < 1.0 / 10000.0 by {
      SumError(ps);
      ScaleError(val as real, TrueSum(ps), |ps| as real);
    }
    ReadScale(val, 1);
    ReadScale(val, |ps|);
    if e.summary.BaseSummary? {
      SingleFloat(ps);
    }
  }

  lemma ReadScale(val: int, count: int)
    requires count > 0
    ensures AverageOf(val, count, BaseFreq(FloatType)) == val as real / (count as real * 10000.0)
    ensures count == 1 ==> AverageOf(val, count, BaseFreq(FloatType)) == val as real / 10000.0
  {
    assert BaseFreq(FloatType) as real / 1000.0 == 10000.0;
  }

  lemma FloatPoints(s: Setup, ps: seq<Point>)
    requires s.dataType.FloatType? && GoodPoints(s, ps)
    ensures AllFloats(ps)
  {
    assert BaseFreq(s.dataType) as real / 1000.0 == 10000.0;
  }

  lemma {:induction false} SingleFloat(ps: seq<Point>)
    requires |ps| == 1 && AllFloats(ps)
    ensures var v := ps[0].posted.asReal.value;
            && TrueSum(ps) == v
            && Abs(SumOf(Numerators, ps) as real / 10000.0) <= Abs(v)
  {
    TruncationError(ps[0].posted.asReal.value * 10000.0);
    assert TrueSum(ps[..0]) == 0.0 && SumOf(Numerators, ps[..0]) == 0;
  }
}
