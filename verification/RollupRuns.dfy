/**
  What every run of posts leaves in the summary tables: each cell is the fold of exactly
  the accepted points that fall in its bin.
*/
module RollupRuns {
  import opened Wrappers
  import opened Histograms
  import opened Rollups
  import S = Statistics

  // ---------- runs ----------

  datatype Post = Post(ts: int, posted: Posted)

  datatype Point = Point(ts: int, posted: Posted, v: Value)

  ghost predicate GoodPosts(s: Setup, posts: seq<Post>) {
    forall i | 0 <= i < |posts| :: GoodPosted(s.dataType, posts[i].posted)
  }

  ghost predicate GoodPoints(s: Setup, points: seq<Point>) {
    forall i | 0 <= i < |points| ::
      && Fits(s.dataType, points[i].v)
      && Validate(s.dataType, points[i].posted) == Success(points[i].v)
  }

  // The tables and the accepted points after posting everything in order.
  ghost function Replay(s: Setup, posts: seq<Post>): (r: (Store, seq<Point>))
    requires GoodPosts(s, posts)
    ensures GoodStore(r.0) && GoodPoints(s, r.1)
  {
    if posts == [] then (map[], [])
    else
      var n := |posts| - 1;
      var (store, points) := Replay(s, posts[..n]);
      var (store', outcome) := SaveResult(s, store, posts[n].ts, posts[n].posted);
      if outcome.Saved? then
        ValidValuesFit(s.dataType, posts[n].posted);
        (store', points + [Point(posts[n].ts, posts[n].posted, Validate(s.dataType, posts[n].posted).value)])
      else (store', points)
  }

  // ---------- folds over the points of a bin ----------

  function InBin(points: seq<Point>, e: EventType, bin: int): (ps: seq<Point>)
    ensures forall p | p in ps :: p in points && BinOf(e, p.ts) == bin
  {
    if points == [] then []
    else
      var n := |points| - 1;
      InBin(points[..n], e, bin) + if BinOf(e, points[n].ts) == bin then [points[n]] else []
  }

  // What can be added up over points.
  datatype Measure = Numerators | Denominators | KeyCounts(key: string) | TotalCounts

  function Weight(m: Measure, v: Value): int {
    match m
    case Numerators => (match v case IntegerValue(n) => n case RatioValue(num, _) => num case HistogramValue(_) => 0)
    case Denominators => if v.RatioValue? then v.den else 1
    case KeyCounts(key) => if v.HistogramValue? then CountOf(v.h, key) else 0
    case TotalCounts => if v.HistogramValue? then Total(v.h) else 0
  }

  function SumOf(m: Measure, ps: seq<Point>): int {
    if ps == [] then 0 else SumOf(m, ps[..|ps| - 1]) + Weight(m, ps[|ps| - 1].v)
  }

  ghost predicate AllHistograms(ps: seq<Point>) {
    forall i | 0 <= i < |ps| :: ps[i].v.HistogramValue? && Good(ps[i].v.h)
  }

  ghost function MergeAll(ps: seq<Point>): (h: Histogram)
    requires ps != [] && AllHistograms(ps)
    ensures Good(h)
  {
    var last := ps[|ps| - 1].v.h;
    if |ps| == 1 then last
    else
      var rest := MergeAll(ps[..|ps| - 1]);
      MergeAdds(last, rest);
      Merge(last, rest)
  }

  predicate AggregatesBefore(s: Setup, freq: Option<int>, n: nat)
    requires n <= |s.config|
  {
    exists i | 0 <= i < n :: s.config[i].summary.AggregationSummary? && Freq(s.config[i].window) == freq
  }

  predicate Aggregates(s: Setup, freq: Option<int>) {
    AggregatesBefore(s, freq, |s.config|)
  }

  // What a configured cell should hold, given the points of its bin in posting order.
  ghost function Expected(s: Setup, e: EventType, ps: seq<Point>): Content
    requires ps != [] && GoodPoints(s, ps) && Allowed(s.dataType, e.summary)
  {
    match s.dataType
    case IntegerType =>
      if e.summary.AverageSummary? then Agg(SumOf(Numerators, ps), |ps|) else Rate(SumOf(Numerators, ps))
    case FloatType => Agg(SumOf(Numerators, ps), if e.summary.AggregationSummary? then 1 else |ps|)
    case PercentageType => Agg(SumOf(Numerators, ps), SumOf(Denominators, ps))
    case HistogramType =>
      var last := ps[|ps| - 1].v.h;
      match e.summary
      case BaseSummary => HistogramDoc(last)
      case AggregationSummary => HistogramDoc(MergeAll(ps))
      case StatisticsSummary =>
        StatisticsDoc(S.StatisticsOf(
          if e.window != 0 && Aggregates(s, Freq(e.window)) then MergeAll(ps) else last, s.read))
  }

  ghost predicate CellMatches(s: Setup, store: Store, points: seq<Point>, e: EventType, bin: int)
    requires GoodPoints(s, points) && Allowed(s.dataType, e.summary)
  {
    var ps := InBin(points, e, bin);
    BinsAreGood(s, points, e, bin);
    Lookup(store, CellAt(e, bin)) == if ps == [] then None else Some(Expected(s, e, ps))
  }

  // The tables are the materialised view of the points.
  ghost predicate Matches(s: Setup, store: Store, points: seq<Point>)
    requires GoodPoints(s, points)
  {
    && (forall e, bin | e in s.config && Allowed(s.dataType, e.summary) :: CellMatches(s, store, points, e, bin))
    && (forall c | c in store :: exists e | e in s.config ::
          Allowed(s.dataType, e.summary) && c == CellAt(e, c.ts))
  }

  lemma {:induction false} BinsAreGood(s: Setup, points: seq<Point>, e: EventType, bin: int)
    requires GoodPoints(s, points)
    ensures GoodPoints(s, InBin(points, e, bin))
  {
    var ps := InBin(points, e, bin);
    forall i | 0 <= i < |ps|
      ensures Fits(s.dataType, ps[i].v) && Validate(s.dataType, ps[i].posted) == Success(ps[i].v)
    {
      assert ps[i] in points;
    }
  }

  // ---------- one accepted point ----------

  function BinAt(freq: Option<int>, ts: int): int
    requires freq.Some? ==> freq.value > 0
  {
    if freq.Some? then ts / freq.value * freq.value else ts
  }

  // Entries are told apart by summary type and frequency, and so are their cells.
  lemma KeysDiffer(s: Setup, i: nat, j: nat)
    requires WellFormed(s) && i < |s.config| && j < |s.config| && i != j
    ensures s.config[i].summary != s.config[j].summary || Freq(s.config[i].window) != Freq(s.config[j].window)
  {
    var lo, hi := if i < j then i else j, if i < j then j else i;
    assert s.config[lo].summary == s.config[hi].summary ==> Freq(s.config[lo].window) != Freq(s.config[hi].window);
  }

  // The cell of entry j is out of reach of all others among the first n.
  lemma OthersMissCell(s: Setup, n: nat, j: nat, ts: int, bin: int)
    requires WellFormed(s) && n <= |s.config| && j < |s.config|
    ensures forall i | 0 <= i < n && i != j :: CellOf(s.config[i], ts) != CellAt(s.config[j], bin)
  {
    forall i | 0 <= i < n && i != j ensures CellOf(s.config[i], ts) != CellAt(s.config[j], bin) {
      KeysDiffer(s, i, j);
    }
  }

  lemma {:induction false} Frame(s: Setup, store: Store, ts: int, v: Value, n: nat, c: Cell)
    requires Fits(s.dataType, v) && GoodStore(store) && n <= |s.config|
    requires forall j | 0 <= j < n :: Allowed(s.dataType, s.config[j].summary) ==> CellOf(s.config[j], ts) != c
    ensures Lookup(WriteUpTo(s, store, ts, v, n).0, c) == Lookup(store, c)
  {
    if n > 0 {
      Frame(s, store, ts, v, n - 1, c);
    }
  }

  ghost function AggregateDoc(store: Store, freq: Option<int>, ts: int): Option<Content>
    requires freq.Some? ==> freq.value > 0
  {
    Lookup(store, Cell(AggregationSummary, freq, BinAt(freq, ts)))
  }

  // The per-save cache holds the aggregates that already existed and were just extended.
  lemma {:induction false} CacheUpTo(s: Setup, store: Store, ts: int, v: Value, n: nat, freq: Option<int>)
    requires WellFormed(s) && s.dataType.HistogramType?
    requires Fits(s.dataType, v) && GoodStore(store) && n <= |s.config|
    requires freq.Some? ==> freq.value > 0
    ensures CacheHolds(s, store, ts, v, WriteUpTo(s, store, ts, v, n).1, freq, n)
  {
    if n > 0 {
      CacheUpTo(s, store, ts, v, n - 1, freq);
      CacheStep(s, store, ts, v, n, freq);
    }
  }

  lemma {:induction false} CacheStep(s: Setup, store: Store, ts: int, v: Value, n: nat, freq: Option<int>)
    requires WellFormed(s) && s.dataType.HistogramType?
    requires Fits(s.dataType, v) && GoodStore(store) && 0 < n <= |s.config|
    requires freq.Some? ==> freq.value > 0
    requires CacheHolds(s, store, ts, v, WriteUpTo(s, store, ts, v, n - 1).1, freq, n - 1)
    ensures CacheHolds(s, store, ts, v, WriteUpTo(s, store, ts, v, n).1, freq, n)
  {
    var (before, cache) := WriteUpTo(s, store, ts, v, n - 1);
    if s.config[n - 1].summary.AggregationSummary? {
      AggregateUntouched(s, store, ts, v, n - 1);
      OnlyOneAggregation(s, n - 1);
    }
    CacheNext(s, store, before, cache, ts, v, freq, n);
  }

  lemma {:induction false} AggregateUntouched(s: Setup, store: Store, ts: int, v: Value, n: nat)
    requires WellFormed(s) && Fits(s.dataType, v) && GoodStore(store)
    requires n < |s.config| && s.config[n].summary.AggregationSummary?
    ensures Lookup(WriteUpTo(s, store, ts, v, n).0, CellOf(s.config[n], ts))
            == AggregateDoc(store, Freq(s.config[n].window), ts)
  {
    OthersMissCell(s, n, n, ts, BinOf(s.config[n], ts));
    Frame(s, store, ts, v, n, CellOf(s.config[n], ts));
  }

  lemma CacheNext(s: Setup, store: Store, before: Store, cache: Cache, ts: int, v: Value, freq: Option<int>, n: nat)
    requires s.dataType.HistogramType? && Fits(s.dataType, v) && GoodStore(before) && GoodCache(cache)
    requires 0 < n <= |s.config| && (freq.Some? ==> freq.value > 0)
    requires CacheHolds(s, store, ts, v, cache, freq, n - 1)
    requires var e := s.config[n - 1];
             e.summary.AggregationSummary? ==> Lookup(before, CellOf(e, ts)) == AggregateDoc(store, Freq(e.window), ts)
    requires var e := s.config[n - 1];
             e.summary.AggregationSummary? && Freq(e.window) == freq ==> !AggregatesBefore(s, freq, n - 1)
    ensures CacheHolds(s, store, ts, v, Write(s, before, cache, ts, v, s.config[n - 1]).1, freq, n)
  {
    var e := s.config[n - 1];
    if e.summary.AggregationSummary? && Freq(e.window) == freq {
      assert AggregatesBefore(s, freq, n);
    } else {
      assert AggregatesBefore(s, freq, n) <==> AggregatesBefore(s, freq, n - 1);
    }
  }

  ghost predicate CacheHolds(s: Setup, store: Store, ts: int, v: Value, cache: Cache, freq: Option<int>, n: nat)
    requires v.HistogramValue? && (freq.Some? ==> freq.value > 0) && n <= |s.config|
  {
    var doc := AggregateDoc(store, freq, ts);
    if AggregatesBefore(s, freq, n) && doc.Some? && doc.value.HistogramDoc?
    then freq in cache && cache[freq] == Merge(v.h, doc.value.h)
    else freq !in cache
  }

  lemma OnlyOneAggregation(s: Setup, n: nat)
    requires WellFormed(s) && n < |s.config| && s.config[n].summary.AggregationSummary?
    ensures !AggregatesBefore(s, Freq(s.config[n].window), n) && AggregatesBefore(s, Freq(s.config[n].window), n + 1)
  {
    forall i | 0 <= i < n && s.config[i].summary.AggregationSummary?
      ensures Freq(s.config[i].window) != Freq(s.config[n].window)
    {
      KeysDiffer(s, i, n);
    }
  }

  // What one accepted point leaves in a configured cell, in terms of the tables before it.
  ghost function Written(s: Setup, store: Store, ts: int, v: Value, e: EventType): Content
    requires Fits(s.dataType, v) && GoodStore(store) && Allowed(s.dataType, e.summary)
  {
    var prev := Lookup(store, CellOf(e, ts));
    if !s.dataType.HistogramType? then CounterContent(s.dataType, e.summary, prev, v)
    else
      match e.summary
      case BaseSummary => HistogramDoc(v.h)
      case AggregationSummary => HistogramDoc(MergeInto(prev, v.h))
      case StatisticsSummary =>
        var freq := Freq(e.window);
        StatisticsDoc(S.StatisticsOf(
          if e.window != 0 && Aggregates(s, freq) then MergeInto(AggregateDoc(store, freq, ts), v.h) else v.h, s.read))
  }

  lemma {:induction false} Effect(s: Setup, store: Store, ts: int, v: Value, n: nat, j: nat)
    requires WellFormed(s) && Fits(s.dataType, v) && GoodStore(store)
    requires j < n <= |s.config| && Allowed(s.dataType, s.config[j].summary)
    ensures Lookup(WriteUpTo(s, store, ts, v, n).0, CellOf(s.config[j], ts))
            == Some(Written(s, store, ts, v, s.config[j]))
  {
    if j < n - 1 {
      Effect(s, store, ts, v, n - 1, j);
      KeysDiffer(s, j, n - 1);
    } else {
      EffectOfLast(s, store, ts, v, n);
    }
  }

  lemma {:induction false} EffectOfLast(s: Setup, store: Store, ts: int, v: Value, n: nat)
    requires WellFormed(s) && Fits(s.dataType, v) && GoodStore(store)
    requires 0 < n <= |s.config| && Allowed(s.dataType, s.config[n - 1].summary)
    ensures Lookup(WriteUpTo(s, store, ts, v, n).0, CellOf(s.config[n - 1], ts))
            == Some(Written(s, store, ts, v, s.config[n - 1]))
  {
    var e := s.config[n - 1];
    var (before, cache) := WriteUpTo(s, store, ts, v, n - 1);
    assert Lookup(before, CellOf(e, ts)) == Lookup(store, CellOf(e, ts)) by {
      OthersMissCell(s, n - 1, n - 1, ts, BinOf(e, ts));
      Frame(s, store, ts, v, n - 1, CellOf(e, ts));
    }
    if e.summary.StatisticsSummary? {
      CacheForStatistics(s, store, ts, v, n - 1);
    }
    WriteIsWritten(s, store, before, cache, ts, v, e);
  }

  // A statistics entry finds all aggregations of its window in the cache.
  lemma {:induction false} CacheForStatistics(s: Setup, store: Store, ts: int, v: Value, n: nat)
    requires WellFormed(s) && Fits(s.dataType, v) && GoodStore(store)
    requires n < |s.config| && s.config[n].summary.StatisticsSummary? && s.dataType.HistogramType?
    ensures CacheHolds(s, store, ts, v, WriteUpTo(s, store, ts, v, n).1, Freq(s.config[n].window), |s.config|)
  {
    CacheUpTo(s, store, ts, v, n, Freq(s.config[n].window));
    AggregationsComeFirst(s, n);
  }

  lemma WriteIsWritten(s: Setup, store: Store, before: Store, cache: Cache, ts: int, v: Value, e: EventType)
    requires Fits(s.dataType, v) && GoodStore(store) && GoodStore(before) && GoodCache(cache)
    requires Allowed(s.dataType, e.summary)
    requires Lookup(before, CellOf(e, ts)) == Lookup(store, CellOf(e, ts))
    requires e.summary.StatisticsSummary? ==> CacheHolds(s, store, ts, v, cache, Freq(e.window), |s.config|)
    ensures Lookup(Write(s, before, cache, ts, v, e).0, CellOf(e, ts)) == Some(Written(s, store, ts, v, e))
  {
  }

  lemma AggregationsComeFirst(s: Setup, n: nat)
    requires WellFormed(s) && n < |s.config| && s.config[n].summary.StatisticsSummary?
    ensures forall freq :: Aggregates(s, freq) <==> AggregatesBefore(s, freq, n)
  {
    forall freq | Aggregates(s, freq) ensures AggregatesBefore(s, freq, n) {
      var i :| 0 <= i < |s.config| && s.config[i].summary.AggregationSummary? && Freq(s.config[i].window) == freq;
      assert i < n;
    }
  }

  // ---------- the invariant ----------

  lemma {:induction false} InBinNext(points: seq<Point>, p: Point, e: EventType, bin: int)
    ensures InBin(points + [p], e, bin) == InBin(points, e, bin) + if BinOf(e, p.ts) == bin then [p] else []
  {
    assert (points + [p])[..|points|] == points;
  }

  lemma {:induction false} SumNext(m: Measure, ps: seq<Point>, p: Point)
    ensures SumOf(m, ps + [p]) == SumOf(m, ps) + Weight(m, p.v)
  {
    assert (ps + [p])[..|ps|] == ps;
  }

  lemma {:induction false} MergeNext(ps: seq<Point>, p: Point)
    ensures AllHistograms(ps + [p]) <==> AllHistograms(ps) && p.v.HistogramValue? && Good(p.v.h)
    ensures AllHistograms(ps + [p]) ==> MergeAll(ps + [p]) == if ps == [] then p.v.h else Merge(p.v.h, MergeAll(ps))
  {
    var more := ps + [p];
    assert more[..|ps|] == ps;
    assert more[|ps|] == p && forall i | 0 <= i < |ps| :: more[i] == ps[i];
  }

  // A cell whose bin the accepted point falls in.
  lemma {:induction false} CellHit(s: Setup, store: Store, points: seq<Point>, p: Point, j: nat)
    requires WellFormed(s) && GoodStore(store) && GoodPoints(s, points) && GoodPoints(s, points + [p])
    requires Matches(s, store, points) && Fits(s.dataType, p.v)
    requires j < |s.config| && Allowed(s.dataType, s.config[j].summary)
    ensures CellMatches(s, WriteUpTo(s, store, p.ts, p.v, |s.config|).0, points + [p],
                        s.config[j], BinOf(s.config[j], p.ts))
  {
    var e := s.config[j];
    var bin := BinOf(e, p.ts);
    var ps, ps' := InBin(points, e, bin), InBin(points + [p], e, bin);
    BinsAreGood(s, points, e, bin);
    BinsAreGood(s, points + [p], e, bin);
    assert ps' == ps + [p] by {
      InBinNext(points, p, e, bin);
    }
    assert Written(s, store, p.ts, p.v, e) == Expected(s, e, ps') by {
      assert CellMatches(s, store, points, e, bin);
      if e.summary.StatisticsSummary? && Aggregates(s, Freq(e.window)) {
        AggregateMatches(s, store, points, e, p.ts);
      }
      WrittenIsExpected(s, store, ps, p, e);
    }
    Effect(s, store, p.ts, p.v, |s.config|, j);
  }

  // A cell whose bin the accepted point does not fall in.
  lemma {:induction false} CellMiss(s: Setup, store: Store, points: seq<Point>, p: Point, j: nat, bin: int)
    requires WellFormed(s) && GoodStore(store) && GoodPoints(s, points) && GoodPoints(s, points + [p])
    requires Matches(s, store, points) && Fits(s.dataType, p.v)
    requires j < |s.config| && Allowed(s.dataType, s.config[j].summary) && bin != BinOf(s.config[j], p.ts)
    ensures CellMatches(s, WriteUpTo(s, store, p.ts, p.v, |s.config|).0, points + [p], s.config[j], bin)
  {
    var e := s.config[j];
    var store' := WriteUpTo(s, store, p.ts, p.v, |s.config|).0;
    assert Lookup(store', CellAt(e, bin)) == Lookup(store, CellAt(e, bin)) by {
      OthersMissCell(s, |s.config|, j, p.ts, bin);
      Frame(s, store, p.ts, p.v, |s.config|, CellAt(e, bin));
    }
    assert InBin(points + [p], e, bin) == InBin(points, e, bin) by {
      InBinNext(points, p, e, bin);
    }
    assert CellMatches(s, store, points, e, bin);
  }

  ghost predicate DocOf(doc: Option<Content>, ps: seq<Point>) {
    AllHistograms(ps) && doc == if ps == [] then None else Some(HistogramDoc(MergeAll(ps)))
  }

  lemma WrittenIsExpected(s: Setup, store: Store, ps: seq<Point>, p: Point, e: EventType)
    requires GoodStore(store) && GoodPoints(s, ps) && GoodPoints(s, ps + [p]) && Fits(s.dataType, p.v)
    requires Allowed(s.dataType, e.summary)
    requires Lookup(store, CellOf(e, p.ts)) == if ps == [] then None else Some(Expected(s, e, ps))
    requires e.summary.StatisticsSummary? && Aggregates(s, Freq(e.window)) ==>
               DocOf(AggregateDoc(store, Freq(e.window), p.ts), ps)
    ensures Written(s, store, p.ts, p.v, e) == Expected(s, e, ps + [p])
  {
    SumNext(Numerators, ps, p);
    SumNext(Denominators, ps, p);
    MergeNext(ps, p);
  }

  lemma AggregationOf(s: Setup, freq: Option<int>) returns (a: EventType)
    requires Aggregates(s, freq)
    ensures a in s.config && a.summary.AggregationSummary? && Freq(a.window) == freq
  {
    var i :| 0 <= i < |s.config| && s.config[i].summary.AggregationSummary? && Freq(s.config[i].window) == freq;
    a := s.config[i];
  }

  // A statistics entry finds the aggregate of its own bin in the tables.
  lemma {:induction false} AggregateMatches(s: Setup, store: Store, points: seq<Point>, e: EventType, ts: int)
    requires WellFormed(s) && s.dataType.HistogramType? && GoodPoints(s, points) && Matches(s, store, points)
    requires e in s.config && e.summary.StatisticsSummary? && Aggregates(s, Freq(e.window))
    ensures DocOf(AggregateDoc(store, Freq(e.window), ts), InBin(points, e, BinOf(e, ts)))
  {
    var a := AggregationOf(s, Freq(e.window));
    var bin := BinOf(e, ts);
    SameBins(points, a, e, bin);
    BinsAreGood(s, points, a, bin);
    assert CellMatches(s, store, points, a, bin);
  }

  lemma {:induction false} SameBins(points: seq<Point>, a: EventType, e: EventType, bin: int)
    requires !a.summary.BaseSummary? && !e.summary.BaseSummary? && Freq(a.window) == Freq(e.window)
    ensures InBin(points, a, bin) == InBin(points, e, bin)
  {
    if points != [] {
      SameBins(points[..|points| - 1], a, e, bin);
    }
  }

  /** After any run of posts every configured cell holds the fold of exactly the accepted
      points in its bin, an empty bin has no cell, and there are no other cells. */
  lemma {:induction false} EveryRunMatches(s: Setup, posts: seq<Post>)
    requires WellFormed(s) && GoodPosts(s, posts)
    ensures Matches(s, Replay(s, posts).0, Replay(s, posts).1)
  {
    if posts != [] {
      var n := |posts| - 1;
      EveryRunMatches(s, posts[..n]);
      var (store, points) := Replay(s, posts[..n]);
      var (ts, posted) := (posts[n].ts, posts[n].posted);
      if SaveResult(s, store, ts, posted).1.Saved? {
        ValidValuesFit(s.dataType, posted);
        var p := Point(ts, posted, Validate(s.dataType, posted).value);
        AcceptedStep(s, store, points, p);
      }
    }
  }

  lemma {:induction false} AcceptedStep(s: Setup, store: Store, points: seq<Point>, p: Point)
    requires WellFormed(s) && GoodStore(store) && GoodPoints(s, points) && GoodPoints(s, points + [p])
    requires Matches(s, store, points) && Fits(s.dataType, p.v)
    ensures Matches(s, WriteUpTo(s, store, p.ts, p.v, |s.config|).0, points + [p])
  {
    var store' := WriteUpTo(s, store, p.ts, p.v, |s.config|).0;
    forall e, bin | e in s.config && Allowed(s.dataType, e.summary)
      ensures CellMatches(s, store', points + [p], e, bin)
    {
      var j :| 0 <= j < |s.config| && s.config[j] == e;
      if bin == BinOf(e, p.ts) {
        CellHit(s, store, points, p, j);
      } else {
        CellMiss(s, store, points, p, j, bin);
      }
    }
    forall c | c in store'
      ensures exists e | e in s.config :: Allowed(s.dataType, e.summary) && c == CellAt(e, c.ts)
    {
      if forall j | 0 <= j < |s.config| :: Allowed(s.dataType, s.config[j].summary) ==> CellOf(s.config[j], p.ts) != c {
        Frame(s, store, p.ts, p.v, |s.config|, c);
      } else {
        var j :| 0 <= j < |s.config| && Allowed(s.dataType, s.config[j].summary) && CellOf(s.config[j], p.ts) == c;
        assert s.config[j] in s.config;
      }
    }
  }

  // The content of one bin after a run, for the theorems about what clients read.
  lemma {:induction false} BinContent(s: Setup, posts: seq<Post>, e: EventType, bin: int)
    requires WellFormed(s) && GoodPosts(s, posts) && e in s.config && Allowed(s.dataType, e.summary)
    ensures var ps := InBin(Replay(s, posts).1, e, bin);
            && GoodPoints(s, ps)
            && Lookup(Replay(s, posts).0, CellAt(e, bin)) == if ps == [] then None else Some(Expected(s, e, ps))
  {
    EveryRunMatches(s, posts);
    BinsAreGood(s, Replay(s, posts).1, e, bin);
    assert CellMatches(s, Replay(s, posts).0, Replay(s, posts).1, e, bin);
  }
}
