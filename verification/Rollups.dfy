/**
  Writing one time-series point and all its summaries (PSTimeSeriesObject in
  esmond/api/perfsonar/api_v2.py, the validators, and the counter columns of
  esmond/cassandra.py).  A post is checked, then written to every summary configured for
  its event type; each write is flushed before the next post.
*/
module Rollups {
  import opened Wrappers
  import opened Histograms
  import S = Statistics

  // ---------- configuration ----------

  datatype DataType = IntegerType | FloatType | PercentageType | HistogramType

  datatype SummaryType = AggregationSummary | AverageSummary | BaseSummary | StatisticsSummary

  datatype EventType = EventType(summary: SummaryType, window: int)

  // One event type of one metadata object, with its summaries in ORDER BY summary_type.
  datatype Setup = Setup(dataType: DataType, config: seq<EventType>, read: Reader)

  function Order(s: SummaryType): nat {
    match s
    case AggregationSummary => 0
    case AverageSummary => 1
    case BaseSummary => 2
    case StatisticsSummary => 3
  }

  predicate Allowed(t: DataType, s: SummaryType) {
    match s
    case BaseSummary => true
    case AggregationSummary => true
    case AverageSummary => t.IntegerType? || t.FloatType?
    case StatisticsSummary => t.HistogramType?
  }

  function Freq(window: int): Option<int> {
    if window > 0 then Some(window) else None
  }

  const BASE: EventType := EventType(BaseSummary, 0)

  // Two windows that are not the same; all that are not positive mean no window.
  predicate Distinct(window: int, other: int) {
    window != other && (window > 0 || other > 0)
  }

  ghost predicate WellFormed(s: Setup) {
    && BASE in s.config
    && (forall i | 0 <= i < |s.config| :: s.config[i].summary.BaseSummary? ==> s.config[i] == BASE)
    && (forall i, j | 0 <= i < j < |s.config| ::
          && Order(s.config[i].summary) <= Order(s.config[j].summary)
          && (s.config[i].summary == s.config[j].summary ==> Distinct(s.config[i].window, s.config[j].window)))
  }

  // ---------- cells ----------

  // A row is a path ending in the summary type, plus the frequency; a column is a time.
  datatype Cell = Cell(summary: SummaryType, freq: Option<int>, ts: int)

  // A base rate, an aggregation (both counters), or a JSON document.
  datatype Content =
    | Rate(val: int)
    | Agg(val: int, count: int)
    | HistogramDoc(h: Histogram)
    | StatisticsDoc(stats: S.Summary)

  type Store = map<Cell, Content>

  function BinOf(e: EventType, ts: int): int {
    if !e.summary.BaseSummary? && e.window > 0 then ts / e.window * e.window else ts
  }

  function CellAt(e: EventType, bin: int): Cell {
    Cell(e.summary, Freq(e.window), bin)
  }

  function CellOf(e: EventType, ts: int): Cell {
    CellAt(e, BinOf(e, ts))
  }

  // ---------- validation ----------

  datatype Field = Missing | NotInteger | IntegerField(n: int)

  // How the posted JSON value reads under each validator's conversions.
  datatype Posted = Posted(asInteger: Option<int>, asReal: Option<real>,
                           numerator: Field, denominator: Field,
                           asHistogram: Option<Histogram>)

  datatype Value = IntegerValue(n: int) | RatioValue(num: int, den: int) | HistogramValue(h: Histogram)

  datatype ParseError =
    | ValueMustBeInteger | ValueMustBeFloat | ValueMustBeHistogram
    | MissingNumerator | MissingDenominator | NumeratorMustBeInteger | DenominatorMustBeInteger
    | DenominatorMustBePositive | NumeratorMustNotBeNegative

  const FLOAT_PRECISION: int := 10000

  // base_freq: floats carry their precision, the rest are plain seconds, both in milliseconds
  function BaseFreq(t: DataType): (f: int)
    ensures f > 0
  {
    if t.FloatType? then FLOAT_PRECISION * 1000 else 1000
  }

  // AggregationBin.average, the value a client reads
  function AverageOf(val: int, count: int, baseFreq: int): real
    requires count > 0 && baseFreq > 0
  {
    val as real / (count as real * (baseFreq as real / 1000.0))
  }

  // Conversion to an integer goes towards zero.
  function Truncate(x: real): int {
    if x >= 0.0 then x.Floor else -((-x).Floor)
  }

  function Validate(t: DataType, p: Posted): Result<Value, ParseError> {
    match t
    case IntegerType =>
      if p.asInteger.Some? then Success(IntegerValue(p.asInteger.value)) else Failure(ValueMustBeInteger)
    case FloatType =>
      if p.asReal.Some? then Success(RatioValue(Truncate(p.asReal.value * (BaseFreq(t) as real / 1000.0)), 1))
      else Failure(ValueMustBeFloat)
    case PercentageType =>
      if p.numerator.Missing? then Failure(MissingNumerator)
      else if p.denominator.Missing? then Failure(MissingDenominator)
      else if p.numerator.NotInteger? then Failure(NumeratorMustBeInteger)
      else if p.denominator.NotInteger? then Failure(DenominatorMustBeInteger)
      else if p.denominator.n <= 0 then Failure(DenominatorMustBePositive)
      else if p.numerator.n < 0 then Failure(NumeratorMustNotBeNegative)
      else Success(RatioValue(p.numerator.n, p.denominator.n))
    case HistogramType =>
      if p.asHistogram.Some? then Success(HistogramValue(p.asHistogram.value)) else Failure(ValueMustBeHistogram)
  }

  predicate Good(h: Histogram) {
    h != [] && PositiveCounts(h) && DistinctKeys(h)
  }

  ghost predicate GoodPosted(t: DataType, p: Posted) {
    t.HistogramType? && p.asHistogram.Some? ==> Good(p.asHistogram.value)
  }

  // ---------- writing one summary ----------

  // Histograms aggregated so far while saving one point, by frequency.
  type Cache = map<Option<int>, Histogram>

  function Lookup(store: Store, c: Cell): Option<Content> {
    if c in store then Some(store[c]) else None
  }

  // counter columns add what is inserted
  function AddRate(prev: Option<Content>, v: int): Content {
    match prev case Some(Rate(x)) => Rate(x + v) case _ => Rate(v)
  }

  function AddAgg(prev: Option<Content>, v: int, count: int): Content {
    match prev case Some(Agg(x, n)) => Agg(x + v, n + count) case _ => Agg(v, count)
  }

  ghost predicate Fits(t: DataType, v: Value) {
    match t
    case IntegerType => v.IntegerValue?
    case FloatType => v.RatioValue? && v.den == 1
    case PercentageType => v.RatioValue? && v.num >= 0 && v.den > 0
    case HistogramType => v.HistogramValue? && Good(v.h)
  }

  function CounterContent(t: DataType, s: SummaryType, prev: Option<Content>, v: Value): Content
    requires Fits(t, v) && !t.HistogramType?
  {
    match t
    case IntegerType => if s.AverageSummary? then AddAgg(prev, v.n, 1) else AddRate(prev, v.n)
    // a float aggregation does not increase the count
    case FloatType => AddAgg(prev, v.num, if s.AggregationSummary? && prev.Some? then 0 else 1)
    case PercentageType => AddAgg(prev, v.num, v.den)
  }

  ghost predicate GoodStore(store: Store) {
    forall c | c in store && store[c].HistogramDoc? :: Good(store[c].h)
  }

  ghost predicate GoodCache(cache: Cache) {
    forall f | f in cache :: Good(cache[f])
  }

  function MergeInto(prev: Option<Content>, h: Histogram): (merged: Histogram)
    requires Good(h) && (prev.Some? && prev.value.HistogramDoc? ==> Good(prev.value.h))
    ensures Good(merged)
  {
    match prev
    case Some(HistogramDoc(agg)) => MergeAdds(h, agg); Merge(h, agg)
    case _ => h
  }

  // database_write, once the value has been validated
  function Write(s: Setup, store: Store, cache: Cache, ts: int, v: Value, e: EventType): (r: (Store, Cache))
    requires Fits(s.dataType, v) && GoodStore(store) && GoodCache(cache)
    ensures GoodStore(r.0) && GoodCache(r.1)
  {
    var c := CellOf(e, ts);
    if !Allowed(s.dataType, e.summary) then (store, cache)
    else if !s.dataType.HistogramType? then
      (store[c := CounterContent(s.dataType, e.summary, Lookup(store, c), v)], cache)
    else
      match e.summary
      case AggregationSummary =>
        var merged := MergeInto(Lookup(store, c), v.h);
        (store[c := HistogramDoc(merged)],
         if c in store && store[c].HistogramDoc? then cache[Freq(e.window) := merged] else cache)
      case StatisticsSummary =>
        var h := if e.window != 0 && Freq(e.window) in cache then cache[Freq(e.window)] else v.h;
        (store[c := StatisticsDoc(S.StatisticsOf(h, s.read))], cache)
      case BaseSummary =>
        (store[c := HistogramDoc(v.h)], cache)
  }

  // The first n configured summaries, in order.
  function WriteUpTo(s: Setup, store: Store, ts: int, v: Value, n: nat): (r: (Store, Cache))
    requires Fits(s.dataType, v) && GoodStore(store) && n <= |s.config|
    ensures GoodStore(r.0) && GoodCache(r.1)
  {
    if n == 0 then (store, map[])
    else
      var (store', cache) := WriteUpTo(s, store, ts, v, n - 1);
      Write(s, store', cache, ts, v, s.config[n - 1])
  }

  // ---------- saving a point ----------

  datatype Outcome = Saved | Conflict | Rejected(error: ParseError)

  // Counter tables refuse a second point at the same time; raw tables overwrite.
  predicate Exists(s: Setup, store: Store, ts: int) {
    !s.dataType.HistogramType? && CellOf(BASE, ts) in store
  }

  lemma ValidValuesFit(t: DataType, p: Posted)
    requires GoodPosted(t, p) && Validate(t, p).Success?
    ensures Fits(t, Validate(t, p).value)
  {
  }

  function SaveResult(s: Setup, store: Store, ts: int, p: Posted): (r: (Store, Outcome))
    requires GoodPosted(s.dataType, p) && GoodStore(store)
    ensures GoodStore(r.0)
  {
    if Exists(s, store, ts) then (store, Conflict)
    else
      match Validate(s.dataType, p)
      case Failure(error) => (store, Rejected(error))
      case Success(v) =>
        ValidValuesFit(s.dataType, p);
        (WriteUpTo(s, store, ts, v, |s.config|).0, Saved)
  }

  class Archive {
    const setup: Setup
    var store: Store

    ghost predicate Valid()
      reads this
    {
      WellFormed(setup) && GoodStore(store)
    }

    constructor (setup: Setup)
      requires WellFormed(setup)
      ensures Valid() && this.setup == setup && store == map[]
    {
      this.setup, store := setup, map[];
    }

    // save: the conflict check, then one write per configured summary
    method Save(ts: int, p: Posted) returns (outcome: Outcome)
      requires Valid() && GoodPosted(setup.dataType, p)
      modifies this`store
      ensures Valid()
      ensures (store, outcome) == SaveResult(setup, old(store), ts, p)
    {
      if Exists(setup, store, ts) {
        return Conflict;
      }
      var cache: Cache := map[];
      for i := 0 to |setup.config|
        invariant GoodStore(store) && GoodCache(cache)
        invariant match Validate(setup.dataType, p) {
                    case Failure(_) => store == old(store) && BASE !in setup.config[..i]
                    case Success(v) =>
                      Fits(setup.dataType, v) && (store, cache) == WriteUpTo(setup, old(store), ts, v, i)
                  }
      {
        var result := DatabaseWrite(ts, p, setup.config[i], cache);
        match result {
          case Failure(error) => return Rejected(error);
          case Success(c) => cache := c;
        }
      }
      assert setup.config[..|setup.config|] == setup.config;
      outcome := Saved;
    }

    // database_write: skip what the type does not allow, validate, summarise, insert
    method DatabaseWrite(ts: int, p: Posted, e: EventType, cache: Cache) returns (result: Result<Cache, ParseError>)
      requires Valid() && GoodCache(cache) && GoodPosted(setup.dataType, p)
      modifies this`store
      ensures Valid()
      ensures match Validate(setup.dataType, p) {
                case Failure(error) =>
                  && store == old(store)
                  && result == if Allowed(setup.dataType, e.summary) then Failure(error) else Success(cache)
                case Success(v) =>
                  && Fits(setup.dataType, v) && result.Success? && GoodCache(result.value)
                  && (store, result.value) == Write(setup, old(store), cache, ts, v, e)
              }
    {
      if Validate(setup.dataType, p).Success? {
        ValidValuesFit(setup.dataType, p);
      }
      if !Allowed(setup.dataType, e.summary) {
        return Success(cache);
      }
      match Validate(setup.dataType, p) {
        case Failure(error) => return Failure(error);
        case Success(v) =>
          var c := CellOf(e, ts);
          if !setup.dataType.HistogramType? {
            store := store[c := CounterContent(setup.dataType, e.summary, Lookup(store, c), v)];
            return Success(cache);
          }
          var cache' := cache;
          match e.summary {
            case AggregationSummary =>
              if c in store && store[c].HistogramDoc? {
                MergeAdds(v.h, store[c].h);
                var merged := Aggregate(v.h, store[c].h);
                cache' := cache'[Freq(e.window) := merged];
                store := store[c := HistogramDoc(merged)];
              } else {
                store := store[c := HistogramDoc(v.h)];
              }
            case StatisticsSummary =>
              var h := v.h;
              if e.window != 0 {
                if Freq(e.window) in cache' {
                  h := cache'[Freq(e.window)];
                }
              }
              var stats := S.Compute(h, setup.read);
              store := store[c := StatisticsDoc(stats)];
            case BaseSummary =>
              store := store[c := HistogramDoc(v.h)];
          }
          return Success(cache');
      }
    }
  }
}
