/**
  What the summary tables hold in terms of what was posted: which posts are accepted, and which
  posted values are added up in each cell.
*/
module RollupPosts {
  import opened Wrappers
  import opened Histograms
  import opened Rollups
  import opened RollupRuns
  import opened RollupTheorems

  // ---------- which posts are accepted ----------

  // The posted fields are what their data type demands.
  predicate Passes(t: DataType, p: Posted) {
    match t
    case IntegerType => p.asInteger.Some?
    case FloatType => p.asReal.Some?
    case PercentageType =>
      p.numerator.IntegerField? && p.denominator.IntegerField? && p.numerator.n >= 0 && p.denominator.n > 0
    case HistogramType => p.asHistogram.Some?
  }

  lemma PassesIff(t: DataType, p: Posted)
    ensures Validate(t, p).Success? <==> Passes(t, p)
  {
  }

  /** What a refused post is told: the first of its fields that is missing, not an integer or out
      of range, a missing one before the others. */
  lemma ErrorsNameTheField(t: DataType, p: Posted, error: ParseError)
    requires Validate(t, p) == Failure(error)
    ensures t.IntegerType? ==> error == ValueMustBeInteger
    ensures t.FloatType? ==> error == ValueMustBeFloat
    ensures t.HistogramType? ==> error == ValueMustBeHistogram
    ensures t.PercentageType? ==>
              && (error == MissingNumerator <==> p.numerator.Missing?)
              && (error == MissingDenominator <==> !p.numerator.Missing? && p.denominator.Missing?)
              && (error == NumeratorMustBeInteger <==> p.numerator.NotInteger? && !p.denominator.Missing?)
              && (error == DenominatorMustBeInteger <==> p.numerator.IntegerField? && p.denominator.NotInteger?)
              && (error == DenominatorMustBePositive <==>
                    p.numerator.IntegerField? && p.denominator.IntegerField? && p.denominator.n <= 0)
              && (error == NumeratorMustNotBeNegative <==>
                    && p.numerator.IntegerField? && p.numerator.n < 0
                    && p.denominator.IntegerField? && p.denominator.n > 0)
  {
  }

  predicate TakenAt(t: DataType, posts: seq<Post>, ts: int) {
    exists i | 0 <= i < |posts| :: posts[i].ts == ts && Passes(t, posts[i].posted)
  }

  // The accepted posts: all that pass, but for counter types only the first at each time.
  function Accepted(t: DataType, posts: seq<Post>): seq<Post> {
    if posts == [] then []
    else
      var n := |posts| - 1;
      var before, last := posts[..n], posts[n];
      if Passes(t, last.posted) && (t.HistogramType? || !TakenAt(t, before, last.ts)) then Accepted(t, before) + [last]
      else Accepted(t, before)
  }

  lemma {:induction false} TakenIffValid(t: DataType, posts: seq<Post>, ts: int)
    ensures TakenAt(t, posts, ts) <==> FirstValid(t, posts, ts).Some?
  {
    if posts != [] {
      var n := |posts| - 1;
      TakenIffValid(t, posts[..n], ts);
      PassesIff(t, posts[n].posted);
      assert forall i | 0 <= i < n :: posts[i] == posts[..n][i];
    }
  }

  /** After any run a post conflicts exactly when its type is a counter and one that passes was
      posted at its time before, is saved exactly when it passes and does not conflict, and is
      rejected otherwise. */
  lemma {:induction false} OutcomeOfPost(s: Setup, posts: seq<Post>, post: Post)
    requires WellFormed(s) && GoodPosts(s, posts) && GoodPosted(s.dataType, post.posted)
    ensures var outcome := SaveResult(s, Replay(s, posts).0, post.ts, post.posted).1;
            && (outcome == Conflict <==> !s.dataType.HistogramType? && TakenAt(s.dataType, posts, post.ts))
            && (outcome == Saved <==> outcome != Conflict && Passes(s.dataType, post.posted))
            && (outcome.Rejected? <==> outcome != Conflict && !Passes(s.dataType, post.posted))
            && (outcome.Rejected? ==> Validate(s.dataType, post.posted) == Failure(outcome.error))
  {
    PassesIff(s.dataType, post.posted);
    TakenIffValid(s.dataType, posts, post.ts);
    if !s.dataType.HistogramType? {
      BaseCellExists(s, posts, post.ts);
      PointsAreFirstValid(s, posts, post.ts);
    }
  }

  function Sources(points: seq<Point>): (posts: seq<Post>)
    ensures |posts| == |points|
    ensures forall i | 0 <= i < |points| :: posts[i] == Post(points[i].ts, points[i].posted)
  {
    seq(|points|, i requires 0 <= i < |points| => Post(points[i].ts, points[i].posted))
  }

  lemma SourcesNext(points: seq<Point>, p: Point)
    ensures Sources(points + [p]) == Sources(points) + [Post(p.ts, p.posted)]
  {
  }

  lemma {:induction false} ReplayAccepts(s: Setup, posts: seq<Post>)
    requires WellFormed(s) && GoodPosts(s, posts)
    ensures Sources(Replay(s, posts).1) == Accepted(s.dataType, posts)
  {
    if posts != [] {
      var n := |posts| - 1;
      ReplayAccepts(s, posts[..n]);
      OutcomeOfPost(s, posts[..n], posts[n]);
      if Passes(s.dataType, posts[n].posted) {
        PassesIff(s.dataType, posts[n].posted);
        SourcesNext(Replay(s, posts[..n]).1,
                    Point(posts[n].ts, posts[n].posted, Validate(s.dataType, posts[n].posted).value));
      }
    }
  }

  // ---------- which posts a cell adds up ----------

  // The posts from a time on and before another.
  function PostsIn(posts: seq<Post>, lo: int, hi: int): seq<Post> {
    if posts == [] then []
    else
      var last := posts[|posts| - 1];
      PostsIn(posts[..|posts| - 1], lo, hi) + if lo <= last.ts < hi then [last] else []
  }

  lemma {:induction false} SourcesInRange(points: seq<Point>, lo: int, hi: int)
    ensures Sources(InRange(points, lo, hi)) == PostsIn(Sources(points), lo, hi)
  {
    if points != [] {
      var n := |points| - 1;
      var before, last := points[..n], points[n];
      SourcesInRange(before, lo, hi);
      assert Sources(points)[..n] == Sources(before);
      SourcesNext(InRange(before, lo, hi), last);
      assert InRange(before, lo, hi) + [] == InRange(before, lo, hi);
    }
  }

  // Where the bin of a configured entry that starts at a time ends.
  function BinEnd(e: EventType, bin: int): int {
    if !e.summary.BaseSummary? && e.window > 0 then bin + e.window else bin + 1
  }

  predicate StartsBin(e: EventType, bin: int) {
    !e.summary.BaseSummary? && e.window > 0 ==> bin % e.window == 0
  }

  lemma {:induction false} InstantBins(points: seq<Point>, e: EventType, bin: int)
    requires e.summary.BaseSummary? || e.window <= 0
    ensures InBin(points, e, bin) == InRange(points, bin, bin + 1)
  {
    if points != [] {
      InstantBins(points[..|points| - 1], e, bin);
    }
  }

  lemma {:induction false} BinSources(s: Setup, posts: seq<Post>, e: EventType, bin: int)
    requires WellFormed(s) && GoodPosts(s, posts) && StartsBin(e, bin)
    ensures Sources(InBin(Replay(s, posts).1, e, bin)) ==
            PostsIn(Accepted(s.dataType, posts), bin, BinEnd(e, bin))
  {
    var points := Replay(s, posts).1;
    if !e.summary.BaseSummary? && e.window > 0 {
      BinsAreRanges(points, e, bin);
    } else {
      InstantBins(points, e, bin);
    }
    SourcesInRange(points, bin, BinEnd(e, bin));
    ReplayAccepts(s, posts);
  }

  // What one post adds to a cell.
  function Amount(m: Measure, t: DataType, p: Posted): int {
    match (m, t)
    case (Numerators, IntegerType) => if p.asInteger.Some? then p.asInteger.value else 0
    case (Numerators, FloatType) => if p.asReal.Some? then Truncate(p.asReal.value * 10000.0) else 0
    case (Numerators, PercentageType) => if p.numerator.IntegerField? then p.numerator.n else 0
    case (Denominators, PercentageType) => if p.denominator.IntegerField? then p.denominator.n else 0
    case (KeyCounts(key), HistogramType) => if p.asHistogram.Some? then CountOf(p.asHistogram.value, key) else 0
    case (TotalCounts, HistogramType) => if p.asHistogram.Some? then Total(p.asHistogram.value) else 0
    case _ => 0
  }

  function Amounts(m: Measure, t: DataType, posts: seq<Post>): int {
    if posts == [] then 0
    else Amounts(m, t, posts[..|posts| - 1]) + Amount(m, t, posts[|posts| - 1].posted)
  }

  lemma AmountIsWeight(s: Setup, m: Measure, p: Point)
    requires Additive(s.dataType, m) && Validate(s.dataType, p.posted) == Success(p.v)
    ensures Weight(m, p.v) == Amount(m, s.dataType, p.posted)
  {
    assert BaseFreq(FloatType) as real / 1000.0 == 10000.0;
  }

  lemma {:induction false} AmountsAreSums(s: Setup, m: Measure, ps: seq<Point>)
    requires Additive(s.dataType, m) && GoodPoints(s, ps)
    ensures SumOf(m, ps) == Amounts(m, s.dataType, Sources(ps))
  {
    if ps != [] {
      var n := |ps| - 1;
      AmountsAreSums(s, m, ps[..n]);
      AmountIsWeight(s, m, ps[n]);
      assert Sources(ps)[..n] == Sources(ps[..n]);
    }
  }

  // The summaries that are kept for a data type; others are skipped when a point is saved.
  predicate Kept(t: DataType, summary: SummaryType) {
    || summary == BaseSummary
    || summary == AggregationSummary
    || (summary == AverageSummary && (t == IntegerType || t == FloatType))
    || (summary == StatisticsSummary && t == HistogramType)
  }

  // A cell holds what was posted to its bin: sums of posted values, how many there were for an
  // average, posted denominators for a percentage, and counts by label for histograms.
  ghost predicate HoldsPosts(t: DataType, summary: SummaryType, cell: Content, ps: seq<Post>)
    requires ps != []
  {
    match t
    case IntegerType =>
      if summary == AverageSummary then cell == Agg(Amounts(Numerators, t, ps), |ps|)
      else cell == Rate(Amounts(Numerators, t, ps))
    case FloatType => cell == Agg(Amounts(Numerators, t, ps), if summary == AggregationSummary then 1 else |ps|)
    case PercentageType => cell == Agg(Amounts(Numerators, t, ps), Amounts(Denominators, t, ps))
    case HistogramType =>
      match summary
      case StatisticsSummary => cell.StatisticsDoc?
      case BaseSummary =>
        var last := ps[|ps| - 1].posted;
        last.asHistogram.Some? && cell == HistogramDoc(last.asHistogram.value)
      case _ =>
        && cell.HistogramDoc? && Good(cell.h) && Total(cell.h) == Amounts(TotalCounts, t, ps)
        && forall key :: CountOf(cell.h, key) == Amounts(KeyCounts(key), t, ps)
  }

  lemma {:induction false} ExpectedHoldsPosts(s: Setup, e: EventType, ps: seq<Point>)
    requires ps != [] && GoodPoints(s, ps) && Allowed(s.dataType, e.summary)
    ensures HoldsPosts(s.dataType, e.summary, Expected(s, e, ps), Sources(ps))
  {
    if s.dataType.HistogramType? {
      if e.summary.AggregationSummary? {
        MergedHoldsPosts(s, ps);
      }
    } else {
      AmountsAreSums(s, Numerators, ps);
      if s.dataType.PercentageType? {
        AmountsAreSums(s, Denominators, ps);
      }
    }
  }

  lemma {:induction false} MergedHoldsPosts(s: Setup, ps: seq<Point>)
    requires s.dataType.HistogramType? && ps != [] && GoodPoints(s, ps)
    ensures AllHistograms(ps) && Total(MergeAll(ps)) == Amounts(TotalCounts, s.dataType, Sources(ps))
    ensures forall key :: CountOf(MergeAll(ps), key) == Amounts(KeyCounts(key), s.dataType, Sources(ps))
  {
    MergeAllAdds(TotalCounts, ps);
    AmountsAreSums(s, TotalCounts, ps);
    forall key ensures CountOf(MergeAll(ps), key) == Amounts(KeyCounts(key), s.dataType, Sources(ps)) {
      MergeAllAdds(KeyCounts(key), ps);
      AmountsAreSums(s, KeyCounts(key), ps);
    }
  }

  lemma {:induction false} SkippedHasNoCell(s: Setup, posts: seq<Post>, e: EventType, bin: int)
    requires WellFormed(s) && GoodPosts(s, posts) && e in s.config && !Allowed(s.dataType, e.summary)
    ensures CellAt(e, bin) !in Replay(s, posts).0
  {
    EveryRunMatches(s, posts);
    var i :| 0 <= i < |s.config| && s.config[i] == e;
    forall j | 0 <= j < |s.config| && Allowed(s.dataType, s.config[j].summary)
      ensures CellAt(s.config[j], bin) != CellAt(e, bin)
    {
      KeysDiffer(s, i, j);
    }
  }

  /** In every run the cell of a configured entry and bin holds exactly the posts of that bin that
      were accepted; a bin without any, or a summary the data type does not keep, has no cell. */
  lemma {:induction false} BinsHoldPosts(s: Setup, posts: seq<Post>, e: EventType, bin: int)
    requires WellFormed(s) && GoodPosts(s, posts) && e in s.config && StartsBin(e, bin)
    ensures var ps := PostsIn(Accepted(s.dataType, posts), bin, BinEnd(e, bin));
            match Lookup(Replay(s, posts).0, CellAt(e, bin))
            case None => ps == [] || !Kept(s.dataType, e.summary)
            case Some(cell) =>
              ps != [] && Kept(s.dataType, e.summary) && HoldsPosts(s.dataType, e.summary, cell, ps)
  {
    BinSources(s, posts, e, bin);
    if Allowed(s.dataType, e.summary) {
      BinContent(s, posts, e, bin);
      var ps := InBin(Replay(s, posts).1, e, bin);
      if ps != [] {
        ExpectedHoldsPosts(s, e, ps);
      }
    } else {
      SkippedHasNoCell(s, posts, e, bin);
    }
  }

  // ---------- the base table ----------

  lemma {:induction false} PostsInMembers(posts: seq<Post>, lo: int, hi: int)
    ensures forall p :: p in PostsIn(posts, lo, hi) <==> p in posts && lo <= p.ts < hi
  {
    if posts != [] {
      PostsInMembers(posts[..|posts| - 1], lo, hi);
      assert posts == posts[..|posts| - 1] + [posts[|posts| - 1]];
    }
  }

  lemma {:induction false} PostsInNext(posts: seq<Post>, p: Post, lo: int, hi: int)
    ensures PostsIn(posts + [p], lo, hi) == PostsIn(posts, lo, hi) + if lo <= p.ts < hi then [p] else []
  {
    assert (posts + [p])[..|posts|] == posts;
  }

  /** For a counter type the one post accepted at a time is the first that passes. */
  lemma {:induction false} FirstIsAccepted(t: DataType, posts: seq<Post>, ts: int)
    requires !t.HistogramType?
    ensures var ps := PostsIn(Accepted(t, posts), ts, ts + 1);
            if TakenAt(t, posts, ts) then
              exists i | 0 <= i < |posts| ::
                && posts[i].ts == ts && Passes(t, posts[i].posted) && !TakenAt(t, posts[..i], ts) && ps == [posts[i]]
            else ps == []
  {
    if posts != [] {
      var n := |posts| - 1;
      var before, last := posts[..n], posts[n];
      FirstIsAccepted(t, before, ts);
      PostsInNext(Accepted(t, before), last, ts, ts + 1);
      assert PostsIn(Accepted(t, before), ts, ts + 1) + [] == PostsIn(Accepted(t, before), ts, ts + 1);
      if TakenAt(t, before, ts) {
        var i :| 0 <= i < n && before[i].ts == ts && Passes(t, before[i].posted) && !TakenAt(t, before[..i], ts)
          && PostsIn(Accepted(t, before), ts, ts + 1) == [before[i]];
        assert before[..i] == posts[..i] && before[i] == posts[i];
      } else {
        assert posts == before + [last] && posts[n] == last;
        NotTakenNext(t, before, last, ts);
      }
    }
  }

  // What a single accepted post leaves in the base table.
  predicate BaseHolds(t: DataType, cell: Content, p: Posted) {
    match t
    case IntegerType => p.asInteger.Some? && cell == Rate(p.asInteger.value)
    case FloatType => p.asReal.Some? && cell == Agg(Truncate(p.asReal.value * 10000.0), 1)
    case PercentageType =>
      p.numerator.IntegerField? && p.denominator.IntegerField? && cell == Agg(p.numerator.n, p.denominator.n)
    case HistogramType => p.asHistogram.Some? && cell == HistogramDoc(p.asHistogram.value)
  }

  /** The base table of a counter type holds, at each time, the fields of the first post for that
      time that passes the checks, and nothing where there is none. */
  lemma {:induction false} BaseHoldsFirstPosted(s: Setup, posts: seq<Post>, ts: int)
    requires WellFormed(s) && GoodPosts(s, posts) && !s.dataType.HistogramType?
    ensures match Lookup(Replay(s, posts).0, CellAt(BASE, ts))
            case None => !TakenAt(s.dataType, posts, ts)
            case Some(cell) =>
              exists i | 0 <= i < |posts| ::
                && posts[i].ts == ts && Passes(s.dataType, posts[i].posted) && !TakenAt(s.dataType, posts[..i], ts)
                && BaseHolds(s.dataType, cell, posts[i].posted)
  {
    BinsHoldPosts(s, posts, BASE, ts);
    FirstIsAccepted(s.dataType, posts, ts);
    if TakenAt(s.dataType, posts, ts) {
      var i :| 0 <= i < |posts| && posts[i].ts == ts && Passes(s.dataType, posts[i].posted)
        && !TakenAt(s.dataType, posts[..i], ts) && PostsIn(Accepted(s.dataType, posts), ts, ts + 1) == [posts[i]];
      SinglePost(s.dataType, posts[i]);
    }
  }

  lemma SinglePost(t: DataType, p: Post)
    ensures forall m :: Amounts(m, t, [p]) == Amount(m, t, p.posted)
  {
    forall m ensures Amounts(m, t, [p]) == Amount(m, t, p.posted) {
      assert [p][..0] == [];
    }
  }

  /** The base table of histograms holds, at each time, the last histogram posted for it. */
  lemma {:induction false} BaseHoldsLastHistogram(s: Setup, posts: seq<Post>, ts: int)
    requires WellFormed(s) && GoodPosts(s, posts) && s.dataType.HistogramType?
    ensures match Lookup(Replay(s, posts).0, CellAt(BASE, ts))
            case None => !TakenAt(s.dataType, posts, ts)
            case Some(cell) =>
              exists i | 0 <= i < |posts| ::
                && posts[i].ts == ts && BaseHolds(s.dataType, cell, posts[i].posted)
                && !TakenAt(s.dataType, posts[i + 1..], ts)
  {
    BinsHoldPosts(s, posts, BASE, ts);
    LastIsAccepted(s.dataType, posts, ts);
  }

  lemma {:induction false} LastIsAccepted(t: DataType, posts: seq<Post>, ts: int)
    requires t.HistogramType?
    ensures var ps := PostsIn(Accepted(t, posts), ts, ts + 1);
            if TakenAt(t, posts, ts) then
              && ps != []
              && exists i | 0 <= i < |posts| ::
                   posts[i].ts == ts && ps[|ps| - 1] == posts[i] && !TakenAt(t, posts[i + 1..], ts)
            else ps == []
  {
    if posts != [] {
      var n := |posts| - 1;
      var before, last := posts[..n], posts[n];
      LastIsAccepted(t, before, ts);
      PostsInNext(Accepted(t, before), last, ts, ts + 1);
      assert PostsIn(Accepted(t, before), ts, ts + 1) + [] == PostsIn(Accepted(t, before), ts, ts + 1);
      if last.ts == ts && Passes(t, last.posted) {
        assert posts[n] == last && posts[n + 1..] == [];
      } else if TakenAt(t, before, ts) {
        var was := PostsIn(Accepted(t, before), ts, ts + 1);
        var i :| 0 <= i < n && before[i].ts == ts && was[|was| - 1] == before[i] && !TakenAt(t, before[i + 1..], ts);
        assert posts[i] == before[i] && posts[i + 1..] == before[i + 1..] + [last];
        NotTakenNext(t, before[i + 1..], last, ts);
      } else {
        assert posts == before + [last];
        NotTakenNext(t, before, last, ts);
      }
    }
  }

  lemma NotTakenNext(t: DataType, posts: seq<Post>, p: Post, ts: int)
    ensures TakenAt(t, posts + [p], ts) <==> TakenAt(t, posts, ts) || (p.ts == ts && Passes(t, p.posted))
  {
    var more := posts + [p];
    assert more[|posts|] == p && forall i | 0 <= i < |posts| :: more[i] == posts[i];
  }

  // ---------- cells and readings ----------

  /** Two points share a cell of two configured windows exactly when the summary and the window are
      the same and both times lie in the same multiple of it. */
  lemma {:induction false} CellsAreBins(e: EventType, e': EventType, ts: int, ts': int)
    requires !e.summary.BaseSummary? && !e'.summary.BaseSummary? && e.window > 0 && e'.window > 0
    ensures CellOf(e, ts) == CellOf(e', ts') <==>
              && e == e'
              && exists k ::
                   k * e.window <= ts < k * e.window + e.window && k * e.window <= ts' < k * e.window + e.window
  {
    var w := e.window;
    if e == e' && BinOf(e, ts) == BinOf(e, ts') {
      var k := ts / w;
      QuotientBounds(ts, w);
      QuotientBounds(ts', w);
      assert k * w <= ts < k * w + w && k * w <= ts' < k * w + w;
    }
    if k :| e == e' && k * w <= ts < k * w + w && k * w <= ts' < k * w + w {
      QuotientUnique(ts, w, k);
      QuotientUnique(ts', w, k);
    }
  }

  lemma QuotientBounds(ts: int, w: int)
    requires w > 0
    ensures ts / w * w <= ts < ts / w * w + w
  {
    assert ts == ts / w * w + ts % w;
  }

  /** A percentage reads back as its numerator over its denominator. */
  lemma PercentageReadsBack(val: int, count: int)
    requires count > 0
    ensures AverageOf(val, count, BaseFreq(PercentageType)) == val as real / count as real
  {
    assert BaseFreq(PercentageType) as real / 1000.0 == 1.0;
  }
}
