/**
  Time series kept in one row a year, and reading a page of them back (the query functions
  of esmond/cassandra.py and TimeSeriesViewset.retrieve in esmond/api/perfsonar/api_v2.py).
  All of it refines one flat list in ascending time order.  Times are milliseconds, as
  stored, unless said otherwise.
*/
module Storage {
  import opened Wrappers

  datatype Point = Point(ts: int, val: string)

  // The rows of one path and frequency, by year; a missing row is an empty one.
  datatype Table = Table(yearOf: int -> int, rows: map<int, seq<Point>>)

  predicate Ascending(s: seq<Point>) {
    forall i, j | 0 <= i < j < |s| :: s[i].ts < s[j].ts
  }

  function RowOf(t: Table, year: int): seq<Point> {
    if year in t.rows then t.rows[year] else []
  }

  function InYear(yearOf: int -> int, s: seq<Point>, year: int): seq<Point> {
    if s == [] then []
    else if yearOf(s[0].ts) == year then [s[0]] + InYear(yearOf, s[1..], year)
    else InYear(yearOf, s[1..], year)
  }

  function Between(s: seq<Point>, lo: int, hi: int): seq<Point> {
    if s == [] then []
    else if lo <= s[0].ts <= hi then [s[0]] + Between(s[1..], lo, hi)
    else Between(s[1..], lo, hi)
  }

  ghost predicate Monotone(yearOf: int -> int) {
    forall a: int, b: int | a <= b :: yearOf(a) <= yearOf(b)
  }

  // The rows partition the flat list.
  ghost predicate Represents(t: Table, flat: seq<Point>) {
    && Monotone(t.yearOf) && Ascending(flat)
    && forall year :: RowOf(t, year) == InYear(t.yearOf, flat, year)
  }

  // ---------- writing ----------

  // A column is inserted in order, or overwritten.
  function Put(s: seq<Point>, p: Point): seq<Point> {
    if s == [] || p.ts < s[0].ts then [p] + s
    else if p.ts == s[0].ts then [p] + s[1..]
    else [s[0]] + Put(s[1..], p)
  }

  // The write key carries the year of the point's own time.
  function Write(t: Table, p: Point): Table {
    var year := t.yearOf(p.ts);
    t.(rows := t.rows[year := Put(RowOf(t, year), p)])
  }

  lemma {:induction false} PutAscends(s: seq<Point>, p: Point)
    requires Ascending(s)
    ensures Ascending(Put(s, p))
    ensures forall q | q in Put(s, p) :: q == p || q in s
  {
    if s == [] || p.ts <= s[0].ts {
    } else {
      PutAscends(s[1..], p);
      forall q | q in Put(s[1..], p) ensures s[0].ts < q.ts {
        assert q == p || q in s[1..];
      }
    }
  }

  lemma {:induction false} InYearCons(yearOf: int -> int, x: Point, rest: seq<Point>, year: int)
    ensures InYear(yearOf, [x] + rest, year) ==
            if yearOf(x.ts) == year then [x] + InYear(yearOf, rest, year) else InYear(yearOf, rest, year)
  {
    assert ([x] + rest)[1..] == rest;
  }

  lemma {:induction false} PutCons(x: Point, rest: seq<Point>, p: Point)
    ensures Put([x] + rest, p) ==
            if p.ts < x.ts then [p] + ([x] + rest) else if p.ts == x.ts then [p] + rest else [x] + Put(rest, p)
  {
    assert ([x] + rest)[1..] == rest;
  }

  lemma {:induction false} PutInYear(yearOf: int -> int, s: seq<Point>, p: Point, year: int)
    requires Monotone(yearOf) && Ascending(s)
    ensures InYear(yearOf, Put(s, p), year) ==
            if yearOf(p.ts) == year then Put(InYear(yearOf, s, year), p) else InYear(yearOf, s, year)
  {
    if s == [] || p.ts < s[0].ts {
      var found := InYear(yearOf, s, year);
      InYearCons(yearOf, p, s, year);
      InYearLater(yearOf, s, p.ts, year);
      assert found != [] ==> found[0] in found;
    } else {
      var x, rest := s[0], s[1..];
      var found := InYear(yearOf, rest, year);
      PutCons(x, found, p);
      if p.ts == x.ts {
        InYearCons(yearOf, p, rest, year);
      } else {
        PutInYear(yearOf, rest, p, year);
        InYearCons(yearOf, x, Put(rest, p), year);
      }
    }
  }

  lemma {:induction false} InYearLater(yearOf: int -> int, s: seq<Point>, ts: int, year: int)
    requires Ascending(s) && (s != [] ==> ts < s[0].ts)
    ensures forall q | q in InYear(yearOf, s, year) :: q in s && ts < q.ts && yearOf(q.ts) == year
  {
    if s != [] {
      InYearLater(yearOf, s[1..], ts, year);
    }
  }

  /** Writing a point to its year's row is inserting it into the flat list. */
  lemma WriteRefinesPut(t: Table, flat: seq<Point>, p: Point)
    requires Represents(t, flat)
    ensures Represents(Write(t, p), Put(flat, p))
  {
    PutAscends(flat, p);
    forall year ensures RowOf(Write(t, p), year) == InYear(t.yearOf, Put(flat, p), year) {
      PutInYear(t.yearOf, flat, p, year);
    }
  }

  // ---------- reading ----------

  function YearRange(first: int, last: int): seq<int>
    decreases last - first
  {
    if last < first then [] else YearRange(first, last - 1) + [last]
  }

  // _get_row_keys
  method GetRowKeys(t: Table, tsMin: int, tsMax: int) returns (keys: seq<int>)
    ensures keys == YearRange(t.yearOf(tsMin), t.yearOf(tsMax))
  {
    var first, last := t.yearOf(tsMin), t.yearOf(tsMax);
    keys := [];
    if first != last {
      var year := first;
      while year <= last
        invariant year == first || year <= last + 1
        invariant keys == YearRange(first, year - 1)
      {
        keys := keys + [year];
        year := year + 1;
      }
    } else {
      keys := keys + [first];
      assert YearRange(first, first - 1) == [];
    }
  }

  function Take(s: seq<Point>, n: nat): seq<Point> {
    if |s| <= n then s else s[..n]
  }

  // multiget: in requested key order, the first columns of each row in the range
  function Multiget(t: Table, keys: seq<int>, lo: int, hi: int, count: nat): seq<Point> {
    if keys == [] then []
    else
      var n := |keys| - 1;
      Multiget(t, keys[..n], lo, hi, count) + Take(Between(RowOf(t, keys[n]), lo, hi), count)
  }

  // multiget_count, added up over the keys
  function Counted(t: Table, keys: seq<int>, lo: int, hi: int): nat {
    if keys == [] then 0
    else
      var n := |keys| - 1;
      Counted(t, keys[..n], lo, hi) + |Between(RowOf(t, keys[n]), lo, hi)|
  }

  method CountColumns(t: Table, keys: seq<int>, lo: int, hi: int) returns (count: nat)
    ensures count == Counted(t, keys, lo, hi)
  {
    count := 0;
    for i := 0 to |keys|
      invariant count == Counted(t, keys[..i], lo, hi)
    {
      assert keys[..i + 1][..i] == keys[..i];
      count := count + |Between(RowOf(t, keys[i]), lo, hi)|;
    }
    assert keys[..|keys|] == keys;
  }

  // query_raw_data and its siblings: nested loops over rows and columns.  Without a column
  // count the columns are counted first.
  method Query(t: Table, tsMin: int, tsMax: int, columnCount: Option<nat>) returns (results: seq<Point>)
    ensures results == QueryResult(t, tsMin, tsMax, Columns(t, tsMin, tsMax, columnCount))
  {
    var keys := GetRowKeys(t, tsMin, tsMax);
    var columnsPerRow: nat;
    if columnCount.Some? {
      columnsPerRow := columnCount.value;
    } else {
      var count := CountColumns(t, keys, tsMin, tsMax);
      columnsPerRow := count + 5;
    }
    results := ReadRows(t, keys, tsMin, tsMax, columnsPerRow);
  }

  // The loop over the rows that were found.
  method ReadRows(t: Table, keys: seq<int>, lo: int, hi: int, count: nat) returns (results: seq<Point>)
    ensures results == Multiget(t, keys, lo, hi, count)
  {
    results := [];
    for i := 0 to |keys|
      invariant results == Multiget(t, keys[..i], lo, hi, count)
    {
      assert keys[..i + 1][..i] == keys[..i];
      results := AppendAll(results, Take(Between(RowOf(t, keys[i]), lo, hi), count));
    }
    assert keys[..|keys|] == keys;
  }

  // The inner loop over the columns of one row.
  method AppendAll(results: seq<Point>, columns: seq<Point>) returns (r: seq<Point>)
    ensures r == results + columns
  {
    r := results;
    for j := 0 to |columns|
      invariant r == results + columns[..j]
    {
      r := r + [columns[j]];
    }
  }

  // A list sliced by the paginator.
  function Slice(s: seq<Point>, offset: nat, limit: nat): seq<Point> {
    if offset > |s| then [] else Take(s[offset..], limit)
  }

  // What the uncapped query would return, row by row.
  function Whole(yearOf: int -> int, s: seq<Point>, first: int, last: int): seq<Point>
    decreases last - first
  {
    if last < first then [] else Whole(yearOf, s, first, last - 1) + InYear(yearOf, s, last)
  }

  lemma {:induction false} BetweenInYear(yearOf: int -> int, s: seq<Point>, lo: int, hi: int, year: int)
    ensures Between(InYear(yearOf, s, year), lo, hi) == InYear(yearOf, Between(s, lo, hi), year)
  {
    if s != [] {
      BetweenInYear(yearOf, s[1..], lo, hi, year);
      BetweenCons(s[0], InYear(yearOf, s[1..], year), lo, hi);
      InYearCons(yearOf, s[0], Between(s[1..], lo, hi), year);
    }
  }

  lemma {:induction false} BetweenCons(x: Point, rest: seq<Point>, lo: int, hi: int)
    ensures Between([x] + rest, lo, hi) ==
            if lo <= x.ts <= hi then [x] + Between(rest, lo, hi) else Between(rest, lo, hi)
  {
    assert ([x] + rest)[1..] == rest;
  }

  lemma {:induction false} BetweenMembers(s: seq<Point>, lo: int, hi: int)
    ensures forall p :: p in Between(s, lo, hi) <==> p in s && lo <= p.ts <= hi
  {
    if s != [] {
      BetweenMembers(s[1..], lo, hi);
      assert s == [s[0]] + s[1..];
    }
  }

  lemma {:induction false} BetweenAscends(s: seq<Point>, lo: int, hi: int)
    requires Ascending(s)
    ensures Ascending(Between(s, lo, hi))
  {
    if s != [] {
      BetweenAscends(s[1..], lo, hi);
      BetweenMembers(s[1..], lo, hi);
      forall q | q in Between(s[1..], lo, hi) ensures s[0].ts < q.ts {
        assert q in s[1..];
      }
    }
  }

  lemma NoneEarlier(yearOf: int -> int, s: seq<Point>)
    requires Monotone(yearOf) && Ascending(s) && s != []
    ensures forall p | p in s[1..] :: yearOf(s[0].ts) <= yearOf(p.ts)
  {
  }

  // Rows are consecutive pieces of an ascending list.
  lemma {:induction false} WholeHead(yearOf: int -> int, x: Point, rest: seq<Point>, first: int, last: int)
    requires first <= yearOf(x.ts) && forall p | p in rest :: yearOf(x.ts) <= yearOf(p.ts)
    ensures Whole(yearOf, [x] + rest, first, last) ==
            if yearOf(x.ts) <= last then [x] + Whole(yearOf, rest, first, last) else Whole(yearOf, rest, first, last)
    decreases last - first
  {
    if first <= last {
      var before, now := Whole(yearOf, rest, first, last - 1), InYear(yearOf, rest, last);
      WholeHead(yearOf, x, rest, first, last - 1);
      InYearCons(yearOf, x, rest, last);
      if yearOf(x.ts) < last {
        Associate([x], before, now);
      } else if yearOf(x.ts) == last {
        NothingEarlier(yearOf, rest, first, last - 1);
      }
    }
  }

  lemma {:induction false} NothingEarlier(yearOf: int -> int, s: seq<Point>, first: int, last: int)
    requires forall p | p in s :: last < yearOf(p.ts)
    ensures Whole(yearOf, s, first, last) == []
    decreases last - first
  {
    if first <= last {
      NothingEarlier(yearOf, s, first, last - 1);
      NotInYear(yearOf, s, last);
    }
  }

  lemma {:induction false} NotInYear(yearOf: int -> int, s: seq<Point>, year: int)
    requires forall p | p in s :: yearOf(p.ts) != year
    ensures InYear(yearOf, s, year) == []
  {
    if s != [] {
      NotInYear(yearOf, s[1..], year);
    }
  }

  lemma {:induction false} WholeIsAll(yearOf: int -> int, s: seq<Point>, first: int, last: int)
    requires Monotone(yearOf) && Ascending(s)
    requires forall p | p in s :: first <= yearOf(p.ts) <= last
    ensures Whole(yearOf, s, first, last) == s
  {
    if s == [] {
      NothingToFind(yearOf, first, last);
    } else {
      NoneEarlier(yearOf, s);
      WholeHead(yearOf, s[0], s[1..], first, last);
      WholeIsAll(yearOf, s[1..], first, last);
      assert s == [s[0]] + s[1..];
    }
  }

  lemma {:induction false} NothingToFind(yearOf: int -> int, first: int, last: int)
    ensures Whole(yearOf, [], first, last) == []
    decreases last - first
  {
    if first <= last {
      NothingToFind(yearOf, first, last - 1);
    }
  }

  // The last row read, and what would be read of it without a cap.
  lemma LastRow(t: Table, flat: seq<Point>, lo: int, hi: int, first: int, last: int, cap: nat)
    requires first <= last && RowOf(t, last) == InYear(t.yearOf, flat, last)
    ensures Multiget(t, YearRange(first, last), lo, hi, cap) ==
            Multiget(t, YearRange(first, last - 1), lo, hi, cap) + Take(Between(RowOf(t, last), lo, hi), cap)
    ensures Whole(t.yearOf, Between(flat, lo, hi), first, last) ==
            Whole(t.yearOf, Between(flat, lo, hi), first, last - 1) + Between(RowOf(t, last), lo, hi)
  {
    var keys := YearRange(first, last);
    assert keys[..|keys| - 1] == YearRange(first, last - 1);
    BetweenInYear(t.yearOf, flat, lo, hi, last);
  }

  // Capping every row keeps the first so many points of the whole.
  lemma {:induction false} CapKeepsPrefix(t: Table, flat: seq<Point>, lo: int, hi: int, first: int, last: int, cap: nat)
    requires forall year :: RowOf(t, year) == InYear(t.yearOf, flat, year)
    ensures Take(Multiget(t, YearRange(first, last), lo, hi, cap), cap)
            == Take(Whole(t.yearOf, Between(flat, lo, hi), first, last), cap)
    decreases last - first
  {
    if first <= last {
      CapKeepsPrefix(t, flat, lo, hi, first, last - 1, cap);
      LastRow(t, flat, lo, hi, first, last, cap);
      TakeConcat(Multiget(t, YearRange(first, last - 1), lo, hi, cap),
                 Whole(t.yearOf, Between(flat, lo, hi), first, last - 1),
                 Between(RowOf(t, last), lo, hi), cap);
    }
  }

  lemma TakeConcat(a: seq<Point>, b: seq<Point>, c: seq<Point>, n: nat)
    requires Take(a, n) == Take(b, n)
    ensures Take(a + Take(c, n), n) == Take(b + c, n)
  {
    if |a| < n {
      assert a == b;
    } else {
      assert (a + Take(c, n))[..n] == a[..n] && (b + c)[..n] == b[..n];
    }
  }

  lemma SliceOfTake(s: seq<Point>, s': seq<Point>, offset: nat, limit: nat, cap: nat)
    requires Take(s, cap) == Take(s', cap) && offset + limit <= cap && limit > 0
    ensures Slice(s, offset, limit) == Slice(s', offset, limit)
  {
    if |s| >= cap {
      assert s[offset..][..limit] == s[..cap][offset..offset + limit];
      assert s'[offset..][..limit] == s'[..cap][offset..offset + limit];
    }
  }

  const DEFAULT_PAGE: nat := 1500
  const DEFAULT_CAP: nat := 1000000

  function PageLimit(limit: Option<nat>): nat {
    if limit.Some? && limit.value > 0 then limit.value else DEFAULT_PAGE
  }

  function PageOffset(offset: Option<nat>): nat {
    if offset.Some? then offset.value else 0
  }

  function Cap(limit: Option<nat>, offset: Option<nat>): nat {
    if limit.Some? then limit.value + PageOffset(offset) else DEFAULT_CAP
  }

  function QueryResult(t: Table, lo: int, hi: int, count: nat): seq<Point> {
    Multiget(t, YearRange(t.yearOf(lo), t.yearOf(hi)), lo, hi, count)
  }

  // The number of columns read from each row.
  function Columns(t: Table, lo: int, hi: int, columnCount: Option<nat>): nat {
    match columnCount
    case Some(count) => count
    case None => Counted(t, YearRange(t.yearOf(lo), t.yearOf(hi)), lo, hi) + 5
  }

  function Page(t: Table, begin: int, end: int, limit: Option<nat>, offset: Option<nat>): seq<Point> {
    Slice(ToSeconds(QueryResult(t, begin * 1000, end * 1000, Cap(limit, offset))), PageOffset(offset), PageLimit(limit))
  }

  datatype RequestError = StartAfterEnd | TimeMustBeInteger

  // A time parameter of a request.
  datatype Param = Absent | NotAnInteger | Seconds(n: int)

  datatype TimeFilters = TimeFilters(time: Param, start: Param, end: Param, range: Param)

  // The parameters that decide, most important first, and the range they ask for; an absent
  // end is open.
  function Requested(f: TimeFilters, now: int): (seq<Param>, (int, Option<int>)) {
    match f
    case TimeFilters(Absent, Absent, Absent, Absent) => ([], (0, Some(now)))
    case TimeFilters(Absent, Absent, Absent, r) => ([r], (now - Number(r), None))
    case TimeFilters(Absent, Absent, e, Absent) => ([e], (0, Some(Number(e))))
    case TimeFilters(Absent, Absent, e, r) => ([e, r], (Number(e) - Number(r), Some(Number(e))))
    case TimeFilters(Absent, s, Absent, Absent) => ([s], (Number(s), None))
    case TimeFilters(Absent, s, Absent, r) => ([s, r], (Number(s), Some(Number(s) + Number(r))))
    case TimeFilters(Absent, s, e, _) => ([s, e], (Number(s), Some(Number(e))))
    case TimeFilters(t, _, _, _) => ([t], (Number(t), Some(Number(t))))
  }

  function Number(p: Param): int {
    if p.Seconds? then p.n else 0
  }

  function Resolved(f: TimeFilters, now: int): Result<(int, Option<int>), RequestError> {
    var (params, (begin, end)) := Requested(f, now);
    if exists p | p in params :: !p.Seconds? then Failure(TimeMustBeInteger)
    else if end.Some? && end.value < begin then Failure(StartAfterEnd)
    else Success((begin, end))
  }

  method ValidTime(p: Param) returns (r: Result<int, RequestError>)
    ensures r == if p.Seconds? then Success(p.n) else Failure(TimeMustBeInteger)
  {
    if !p.Seconds? {
      return Failure(TimeMustBeInteger);
    }
    r := Success(p.n);
  }

  method HandleTimeFilters(f: TimeFilters, now: int) returns (r: Result<(int, Option<int>), RequestError>)
    ensures r == Resolved(f, now)
  {
    var begin, end := 0, Some(now);
    if f.time != Absent {
      begin :- ValidTime(f.time);
      end := Some(begin);
    } else if f.start != Absent && f.end != Absent {
      begin :- ValidTime(f.start);
      var e :- ValidTime(f.end);
      end := Some(e);
    } else if f.start != Absent && f.range != Absent {
      begin :- ValidTime(f.start);
      var length :- ValidTime(f.range);
      end := Some(begin + length);
    } else if f.end != Absent && f.range != Absent {
      var e :- ValidTime(f.end);
      end := Some(e);
      var length :- ValidTime(f.range);
      begin := e - length;
    } else if f.start != Absent {
      begin :- ValidTime(f.start);
      end := None;
    } else if f.end != Absent {
      var e :- ValidTime(f.end);
      end := Some(e);
    } else if f.range != Absent {
      var length :- ValidTime(f.range);
      begin := now - length;
      end := None;
    }
    if end.Some? && end.value < begin {
      return Failure(StartAfterEnd);
    }
    r := Success((begin, end));
  }

  /** What the time filters ask for: an instant; a start with an end or a range; an end with a
      range; a start or a range of the past with an open end; all before an end; or all until now. */
  lemma TimeFiltersMean(f: TimeFilters, now: int)
    ensures f.time.Seconds? ==> Resolved(f, now) == Success((f.time.n, Some(f.time.n)))
    ensures f.time.Absent? && f.start.Seconds? && f.end.Seconds? ==>
              Resolved(f, now) ==
              if f.end.n < f.start.n then Failure(StartAfterEnd) else Success((f.start.n, Some(f.end.n)))
    ensures f.time.Absent? && f.start.Seconds? && f.end.Absent? && f.range.Seconds? ==>
              Resolved(f, now) ==
              if f.range.n < 0 then Failure(StartAfterEnd) else Success((f.start.n, Some(f.start.n + f.range.n)))
    ensures f.time.Absent? && f.start.Absent? && f.end.Seconds? && f.range.Seconds? ==>
              Resolved(f, now) ==
              if f.range.n < 0 then Failure(StartAfterEnd) else Success((f.end.n - f.range.n, Some(f.end.n)))
    ensures f.time.Absent? && f.start.Seconds? && f.end.Absent? && f.range.Absent? ==>
              Resolved(f, now) == Success((f.start.n, None))
    ensures f.time.Absent? && f.start.Absent? && f.end.Seconds? && f.range.Absent? ==>
              Resolved(f, now) == if f.end.n < 0 then Failure(StartAfterEnd) else Success((0, Some(f.end.n)))
    ensures f.time.Absent? && f.start.Absent? && f.end.Absent? && f.range.Seconds? ==>
              Resolved(f, now) == Success((now - f.range.n, None))
    ensures f.time.Absent? && f.start.Absent? && f.end.Absent? && f.range.Absent? ==>
              Resolved(f, now) == if now < 0 then Failure(StartAfterEnd) else Success((0, Some(now)))
  {
  }

  /** A time that is not an integer is an error exactly when it takes part in the decision. */
  lemma TimesMustBeIntegers(f: TimeFilters, now: int)
    ensures Resolved(f, now) == Failure(TimeMustBeInteger) <==>
              || f.time.NotAnInteger?
              || (f.time.Absent? && (f.start.NotAnInteger? || f.end.NotAnInteger?))
              || (f.time.Absent? && f.range.NotAnInteger? && (f.start.Absent? || f.end.Absent?))
  {
  }

  // An open end is a little after the time of the query.
  const BUFFER: int := 3600

  // retrieve; the clock is read for the time filters and again for the query
  method Retrieve(t: Table, f: TimeFilters, now: int, later: int, limit: Option<nat>, offset: Option<nat>)
    returns (r: Result<seq<Point>, RequestError>)
    ensures match Resolved(f, now)
            case Failure(error) => r == Failure(error)
            case Success((begin, end)) =>
              r == Success(Page(t, begin, if end.Some? then end.value else later + 3600, limit, offset))
  {
    var times :- HandleTimeFilters(f, now);
    var (begin, end) := times;
    var maxResults := DEFAULT_CAP;
    if limit.Some? {
      maxResults := limit.value;
      if offset.Some? {
        maxResults := maxResults + offset.value;
      }
    }
    var endTime := if end.Some? then end.value else later + BUFFER;
    var results := Query(t, begin * 1000, endTime * 1000, Some(maxResults));
    r := Success(Slice(ToSeconds(results), PageOffset(offset), PageLimit(limit)));
  }

  // The serializer turns milliseconds into seconds.
  function ToSeconds(s: seq<Point>): (r: seq<Point>)
    ensures |r| == |s| && forall i | 0 <= i < |s| :: r[i] == Point(s[i].ts / 1000, s[i].val)
  {
    seq(|s|, i requires 0 <= i < |s| => Point(s[i].ts / 1000, s[i].val))
  }

  ghost predicate WholeSeconds(s: seq<Point>) {
    forall i | 0 <= i < |s| :: s[i].ts % 1000 == 0
  }

  lemma {:induction false} SecondsBetween(s: seq<Point>, begin: int, end: int)
    requires WholeSeconds(s)
    ensures ToSeconds(Between(s, begin * 1000, end * 1000)) == Between(ToSeconds(s), begin, end)
  {
    if s != [] {
      SecondsBetween(s[1..], begin, end);
      InSeconds(s[0].ts, begin, end);
      SecondsCons(s[0], s[1..]);
      SecondsCons(s[0], Between(s[1..], begin * 1000, end * 1000));
      BetweenCons(Point(s[0].ts / 1000, s[0].val), ToSeconds(s[1..]), begin, end);
      assert s == [s[0]] + s[1..];
    }
  }

  lemma SecondsCons(x: Point, rest: seq<Point>)
    ensures ToSeconds([x] + rest) == [Point(x.ts / 1000, x.val)] + ToSeconds(rest)
  {
    assert ([x] + rest)[1..] == rest;
  }

  lemma InSeconds(ts: int, begin: int, end: int)
    requires ts % 1000 == 0
    ensures begin * 1000 <= ts <= end * 1000 <==> begin <= ts / 1000 <= end
  {
  }

  lemma SecondsTake(s: seq<Point>, n: nat)
    ensures ToSeconds(Take(s, n)) == Take(ToSeconds(s), n)
  {
  }

  lemma SecondsSlice(s: seq<Point>, offset: nat, limit: nat)
    ensures Slice(ToSeconds(s), offset, limit) == ToSeconds(Slice(s, offset, limit))
  {
    if offset <= |s| {
      assert ToSeconds(s)[offset..] == ToSeconds(s[offset..]);
      SecondsTake(s[offset..], limit);
    }
  }

  // A query none of whose rows is cut short is the whole.
  lemma {:induction false} UncutIsWhole(t: Table, flat: seq<Point>, lo: int, hi: int, first: int, last: int, cap: nat)
    requires forall year :: RowOf(t, year) == InYear(t.yearOf, flat, year)
    requires forall year | first <= year <= last :: |Between(RowOf(t, year), lo, hi)| <= cap
    ensures Multiget(t, YearRange(first, last), lo, hi, cap) == Whole(t.yearOf, Between(flat, lo, hi), first, last)
    decreases last - first
  {
    if first <= last {
      UncutIsWhole(t, flat, lo, hi, first, last - 1, cap);
      LastRow(t, flat, lo, hi, first, last, cap);
    }
  }

  lemma {:induction false} CountCovers(t: Table, lo: int, hi: int, first: int, last: int, year: int)
    requires first <= year <= last
    ensures |Between(RowOf(t, year), lo, hi)| <= Counted(t, YearRange(first, last), lo, hi)
    decreases last - first
  {
    var keys := YearRange(first, last);
    assert keys[..|keys| - 1] == YearRange(first, last - 1);
    if year < last {
      CountCovers(t, lo, hi, first, last - 1, year);
    }
  }

  lemma RangeIsWhole(yearOf: int -> int, flat: seq<Point>, lo: int, hi: int)
    requires Monotone(yearOf) && Ascending(flat)
    ensures Whole(yearOf, Between(flat, lo, hi), yearOf(lo), yearOf(hi)) == Between(flat, lo, hi)
  {
    BetweenAscends(flat, lo, hi);
    BetweenMembers(flat, lo, hi);
    WholeIsAll(yearOf, Between(flat, lo, hi), yearOf(lo), yearOf(hi));
  }

  /** A query without a column count returns all points of the range, in order. */
  lemma UncountedQueryIsAll(t: Table, flat: seq<Point>, lo: int, hi: int)
    requires Represents(t, flat)
    ensures QueryResult(t, lo, hi, Columns(t, lo, hi, None)) == Between(flat, lo, hi)
  {
    var first, last := t.yearOf(lo), t.yearOf(hi);
    forall year | first <= year <= last
      ensures |Between(RowOf(t, year), lo, hi)| <= Columns(t, lo, hi, None)
    {
      CountCovers(t, lo, hi, first, last, year);
    }
    UncutIsWhole(t, flat, lo, hi, first, last, Columns(t, lo, hi, None));
    RangeIsWhole(t.yearOf, flat, lo, hi);
  }

  // ---------- pages ----------

  // The columns read from every row are enough for the page: always, when a limit is given.
  predicate CapCovers(limit: Option<nat>, offset: Option<nat>) {
    if limit.None? then PageOffset(offset) + DEFAULT_PAGE <= DEFAULT_CAP else limit.value > 0
  }

  function YearAt(yearOf: int -> int, second: int): int {
    yearOf(second * 1000)
  }

  // No year has more whole seconds than columns are read from a row.
  ghost predicate YearsFit(yearOf: int -> int, cap: nat) {
    forall second :: YearAt(yearOf, second) < YearAt(yearOf, second + cap)
  }

  // At most n points of a list, after the first k.
  predicate IsCut(page: seq<Point>, range: seq<Point>, k: nat, n: nat) {
    page == if |range| <= k then [] else if |range| < k + n then range[k..] else range[k..k + n]
  }

  // The page is the one asked for: an absent offset is 0, an absent or zero limit 1500.
  ghost predicate RightPage(t: Table, flat: seq<Point>, begin: int, end: int, limit: Option<nat>, offset: Option<nat>) {
    var page, range := Page(t, begin, end, limit, offset), Between(ToSeconds(flat), begin, end);
    match (limit, offset)
    case (None, None) => IsCut(page, range, 0, 1500)
    case (None, Some(k)) => IsCut(page, range, k, 1500)
    case (Some(n), None) => IsCut(page, range, 0, if n > 0 then n else 1500)
    case (Some(n), Some(k)) => IsCut(page, range, k, if n > 0 then n else 1500)
  }

  lemma SliceIsCut(range: seq<Point>, k: nat, n: nat)
    ensures IsCut(Slice(range, k, n), range, k, n)
  {
  }

  lemma SliceOfRows(t: Table, flat: seq<Point>, begin: int, end: int, limit: Option<nat>, offset: Option<nat>)
    requires WholeSeconds(flat)
    requires var rows := QueryResult(t, begin * 1000, end * 1000, Cap(limit, offset));
             var range := Between(flat, begin * 1000, end * 1000);
             Slice(rows, PageOffset(offset), PageLimit(limit)) == Slice(range, PageOffset(offset), PageLimit(limit))
    ensures Page(t, begin, end, limit, offset)
            == Slice(Between(ToSeconds(flat), begin, end), PageOffset(offset), PageLimit(limit))
  {
    var rows := QueryResult(t, begin * 1000, end * 1000, Cap(limit, offset));
    SecondsSlice(rows, PageOffset(offset), PageLimit(limit));
    SecondsSlice(Between(flat, begin * 1000, end * 1000), PageOffset(offset), PageLimit(limit));
    SecondsBetween(flat, begin, end);
  }

  /** A page is the slice [offset, offset + limit) of the flat list between begin and end when the
      columns read from every row cover it, as they do for every positive limit and any offset, or
      when no year has more whole seconds than that. */
  lemma {:induction false} PageIsSlice(t: Table, flat: seq<Point>, begin: int, end: int,
                                       limit: Option<nat>, offset: Option<nat>)
    requires Represents(t, flat) && WholeSeconds(flat)
    requires CapCovers(limit, offset) || YearsFit(t.yearOf, Cap(limit, offset))
    ensures Page(t, begin, end, limit, offset)
            == Slice(Between(ToSeconds(flat), begin, end), PageOffset(offset), PageLimit(limit))
    ensures RightPage(t, flat, begin, end, limit, offset)
  {
    var lo, hi, cap := begin * 1000, end * 1000, Cap(limit, offset);
    var first, last := t.yearOf(lo), t.yearOf(hi);
    RangeIsWhole(t.yearOf, flat, lo, hi);
    if CapCovers(limit, offset) {
      CapKeepsPrefix(t, flat, lo, hi, first, last, cap);
      SliceOfTake(QueryResult(t, lo, hi, cap), Between(flat, lo, hi), PageOffset(offset), PageLimit(limit), cap);
    } else {
      forall year | first <= year <= last ensures |Between(RowOf(t, year), lo, hi)| <= cap {
        RowFits(t.yearOf, flat, year, cap);
        BetweenShorter(RowOf(t, year), lo, hi);
      }
      UncutIsWhole(t, flat, lo, hi, first, last, cap);
    }
    SliceOfRows(t, flat, begin, end, limit, offset);
    SliceIsCut(Between(ToSeconds(flat), begin, end), PageOffset(offset), PageLimit(limit));
  }

  lemma {:induction false} BetweenShorter(s: seq<Point>, lo: int, hi: int)
    ensures |Between(s, lo, hi)| <= |s|
  {
    if s != [] {
      BetweenShorter(s[1..], lo, hi);
    }
  }

  lemma {:induction false} InYearMembers(yearOf: int -> int, s: seq<Point>, year: int)
    ensures forall p | p in InYear(yearOf, s, year) :: p in s && yearOf(p.ts) == year
  {
    if s != [] {
      InYearMembers(yearOf, s[1..], year);
    }
  }

  lemma AscendingCons(x: Point, s: seq<Point>)
    requires Ascending(s) && WholeSeconds(s) && x.ts % 1000 == 0 && forall p | p in s :: x.ts < p.ts
    ensures Ascending([x] + s) && WholeSeconds([x] + s)
  {
    assert forall i | 0 <= i < |s| :: s[i] in s;
  }

  // The points of one year, a whole number of seconds apart.
  lemma {:induction false} InYearAscends(yearOf: int -> int, s: seq<Point>, year: int)
    requires Ascending(s) && WholeSeconds(s)
    ensures Ascending(InYear(yearOf, s, year)) && WholeSeconds(InYear(yearOf, s, year))
  {
    if s != [] {
      var found := InYear(yearOf, s[1..], year);
      InYearAscends(yearOf, s[1..], year);
      InYearMembers(yearOf, s[1..], year);
      AscendingCons(s[0], found);
    }
  }

  lemma {:induction false} SecondsApart(s: seq<Point>, i: nat)
    requires Ascending(s) && WholeSeconds(s) && i < |s|
    ensures s[0].ts + i * 1000 <= s[i].ts
  {
    if i > 0 {
      SecondsApart(s, i - 1);
      assert s[i - 1].ts < s[i].ts && s[i - 1].ts % 1000 == 0 && s[i].ts % 1000 == 0;
    }
  }

  // A row with more points shows a year that does not fit.
  lemma LongRow(yearOf: int -> int, row: seq<Point>, year: int, cap: nat) returns (second: int)
    requires Monotone(yearOf) && Ascending(row) && WholeSeconds(row) && |row| > cap
    requires forall p | p in row :: yearOf(p.ts) == year
    ensures YearAt(yearOf, second) >= YearAt(yearOf, second + cap)
  {
    second := row[0].ts / 1000;
    SecondsApart(row, cap);
    assert row[0].ts == second * 1000 && row[0] in row && row[cap] in row;
    assert yearOf((second + cap) * 1000) <= yearOf(row[cap].ts);
  }

  lemma RowFits(yearOf: int -> int, flat: seq<Point>, year: int, cap: nat)
    requires Monotone(yearOf) && Ascending(flat) && WholeSeconds(flat) && YearsFit(yearOf, cap)
    ensures |InYear(yearOf, flat, year)| <= cap
  {
    InYearAscends(yearOf, flat, year);
    InYearMembers(yearOf, flat, year);
    if |InYear(yearOf, flat, year)| > cap {
      var second := LongRow(yearOf, InYear(yearOf, flat, year), year, cap);
    }
  }

  lemma {:induction false} AllBetween(s: seq<Point>, lo: int, hi: int)
    requires forall i | 0 <= i < |s| :: lo <= s[i].ts <= hi
    ensures Between(s, lo, hi) == s
  {
    if s != [] {
      AllBetween(s[1..], lo, hi);
    }
  }

  // One point a second from a given second on.
  predicate Steady(s: seq<Point>, start: int) {
    forall i | 0 <= i < |s| :: s[i] == Point((start + i) * 1000, "")
  }

  lemma {:induction false} SteadyExists(start: int, n: nat) returns (s: seq<Point>)
    ensures |s| == n && Steady(s, start)
  {
    if n == 0 {
      s := [];
    } else {
      var before := SteadyExists(start, n - 1);
      s := before + [Point((start + n - 1) * 1000, "")];
    }
  }

  lemma SteadyAscends(s: seq<Point>, start: int)
    requires Steady(s, start)
    ensures Ascending(s) && WholeSeconds(s)
  {
  }

  lemma SteadySeconds(s: seq<Point>, start: int)
    requires Steady(s, start)
    ensures forall i | 0 <= i < |s| :: ToSeconds(s)[i] == Point(start + i, "")
  {
    forall i | 0 <= i < |s| ensures ToSeconds(s)[i] == Point(start + i, "") {
      assert s[i].ts == (start + i) * 1000;
    }
  }

  lemma {:induction false} SteadyRange(s: seq<Point>, start: int, end: int)
    requires Steady(s, start) && start + |s| <= end + 1
    ensures Between(s, start * 1000, end * 1000) == s
    ensures Between(ToSeconds(s), start, end) == ToSeconds(s)
  {
    SteadySeconds(s, start);
    AllBetween(s, start * 1000, end * 1000);
    AllBetween(ToSeconds(s), start, end);
  }

  lemma {:induction false} InYearPrefix(yearOf: int -> int, s: seq<Point>, year: int, m: nat)
    requires m <= |s| && forall i | 0 <= i < m :: yearOf(s[i].ts) == year
    ensures |InYear(yearOf, s, year)| >= m
  {
    if m > 0 {
      InYearPrefix(yearOf, s[1..], year, m - 1);
    }
  }

  // How many points a query reads from the rows of some years, and how many there are.
  ghost function Read(t: Table, lo: int, hi: int, first: int, last: int, cap: nat): nat {
    |Multiget(t, YearRange(first, last), lo, hi, cap)|
  }

  ghost function Stored(t: Table, flat: seq<Point>, lo: int, hi: int, first: int, last: int): nat {
    |Whole(t.yearOf, Between(flat, lo, hi), first, last)|
  }

  lemma LastRowLength(t: Table, flat: seq<Point>, lo: int, hi: int, first: int, last: int, cap: nat)
    requires first <= last && RowOf(t, last) == InYear(t.yearOf, flat, last)
    ensures var n := |Between(RowOf(t, last), lo, hi)|;
            && Read(t, lo, hi, first, last, cap) ==
               Read(t, lo, hi, first, last - 1, cap) + (if n <= cap then n else cap)
            && Stored(t, flat, lo, hi, first, last) == Stored(t, flat, lo, hi, first, last - 1) + n
  {
    LastRow(t, flat, lo, hi, first, last, cap);
  }

  lemma NoRows(t: Table, flat: seq<Point>, lo: int, hi: int, first: int, last: int, cap: nat)
    requires last < first
    ensures Read(t, lo, hi, first, last, cap) == Stored(t, flat, lo, hi, first, last) == 0
  {
  }

  // A row that is cut short is missing from the result.
  lemma {:induction false} CutLoses(t: Table, flat: seq<Point>, lo: int, hi: int,
                                    first: int, last: int, cap: nat, year: int)
    requires forall y :: RowOf(t, y) == InYear(t.yearOf, flat, y)
    requires |Between(RowOf(t, year), lo, hi)| > cap
    ensures Read(t, lo, hi, first, last, cap) + (if first <= year <= last then 1 else 0)
            <= Stored(t, flat, lo, hi, first, last)
    decreases last - first
  {
    if first <= last {
      CutLoses(t, flat, lo, hi, first, last - 1, cap, year);
      LastRowLength(t, flat, lo, hi, first, last, cap);
    } else {
      NoRows(t, flat, lo, hi, first, last, cap);
    }
  }

  lemma SliceLength(s: seq<Point>, offset: nat, limit: nat)
    requires |s| <= offset + limit
    ensures |Slice(s, offset, limit)| == if offset < |s| then |s| - offset else 0
  {
  }

  /** And in all other cases some archive's page is shorter than the slice: with one point a
      second from the start of a year that does not fit, that year's row loses some. */
  lemma UncoveredPageFallsShort(yearOf: int -> int, limit: Option<nat>, offset: Option<nat>)
    returns (t: Table, flat: seq<Point>, begin: int, end: int)
    requires Monotone(yearOf) && !CapCovers(limit, offset) && !YearsFit(yearOf, Cap(limit, offset))
    ensures t.yearOf == yearOf && Represents(t, flat) && WholeSeconds(flat) && begin <= end
    ensures |Page(t, begin, end, limit, offset)|
            < |Slice(Between(ToSeconds(flat), begin, end), PageOffset(offset), PageLimit(limit))|
  {
    var n, cap := PageOffset(offset) + PageLimit(limit), Cap(limit, offset);
    begin :| YearAt(yearOf, begin) >= YearAt(yearOf, begin + cap);
    end := begin + n;
    flat := SteadyExists(begin, n);
    t := WriteAll(Table(yearOf, map[]), flat);
    SteadyAscends(flat, begin);
    AscendingIsWritten(yearOf, flat);
    QueryIsCut(t, flat, begin, end, cap);
    SteadyRange(flat, begin, end);
    SliceLength(ToSeconds(flat), PageOffset(offset), PageLimit(limit));
    CutPage(t, begin, end, limit, offset);
  }

  lemma CutPage(t: Table, begin: int, end: int, limit: Option<nat>, offset: Option<nat>)
    requires |QueryResult(t, begin * 1000, end * 1000, Cap(limit, offset))| < PageOffset(offset) + PageLimit(limit)
    ensures |Page(t, begin, end, limit, offset)| < PageLimit(limit)
  {
    SliceLength(ToSeconds(QueryResult(t, begin * 1000, end * 1000, Cap(limit, offset))),
                PageOffset(offset), PageLimit(limit));
  }

  lemma QueryIsCut(t: Table, flat: seq<Point>, begin: int, end: int, cap: nat)
    requires Represents(t, flat) && Steady(flat, begin) && cap < |flat| && begin + |flat| <= end + 1
    requires YearAt(t.yearOf, begin) >= YearAt(t.yearOf, begin + cap)
    ensures |QueryResult(t, begin * 1000, end * 1000, cap)| < |flat|
  {
    var lo, hi, year := begin * 1000, end * 1000, YearAt(t.yearOf, begin);
    SteadyRange(flat, begin, end);
    RangeIsWhole(t.yearOf, flat, lo, hi);
    assert |Between(RowOf(t, year), lo, hi)| > cap by {
      forall i | 0 <= i < cap + 1 ensures t.yearOf(flat[i].ts) == year {
        SameYear(t.yearOf, begin, cap, i);
      }
      InYearPrefix(t.yearOf, flat, year, cap + 1);
      BetweenInYear(t.yearOf, flat, lo, hi, year);
    }
    CutLoses(t, flat, lo, hi, t.yearOf(lo), t.yearOf(hi), cap, year);
  }

  lemma SameYear(yearOf: int -> int, begin: int, cap: nat, i: nat)
    requires Monotone(yearOf) && YearAt(yearOf, begin) >= YearAt(yearOf, begin + cap) && i <= cap
    ensures yearOf((begin + i) * 1000) == YearAt(yearOf, begin)
  {
    assert yearOf(begin * 1000) <= yearOf((begin + i) * 1000) <= yearOf((begin + cap) * 1000);
  }

  /** Whatever the calendar: every page that a request asks for is the right one exactly when it
      has a positive limit, or no limit and an offset that the default of a million columns still
      covers, or no year has more whole seconds than columns are read from its row. */
  lemma {:induction false} PagesAreSlicesIff(yearOf: int -> int, limit: Option<nat>, offset: Option<nat>)
    requires Monotone(yearOf)
    ensures (forall t: Table, flat, begin, end | t.yearOf == yearOf && Represents(t, flat) && WholeSeconds(flat) ::
               RightPage(t, flat, begin, end, limit, offset))
            <==>
              match (limit, offset)
              case (Some(n), None) => n > 0 || YearsFit(yearOf, 0)
              case (Some(n), Some(k)) => n > 0 || YearsFit(yearOf, k)
              case (None, None) => true
              case (None, Some(k)) => k + 1500 <= 1_000_000 || YearsFit(yearOf, 1_000_000)
  {
    if CapCovers(limit, offset) || YearsFit(yearOf, Cap(limit, offset)) {
      forall t: Table, flat, begin, end | t.yearOf == yearOf && Represents(t, flat) && WholeSeconds(flat)
        ensures RightPage(t, flat, begin, end, limit, offset)
      {
        PageIsSlice(t, flat, begin, end, limit, offset);
      }
    } else {
      var t, flat, begin, end := UncoveredPageFallsShort(yearOf, limit, offset);
      SliceIsCut(Between(ToSeconds(flat), begin, end), PageOffset(offset), PageLimit(limit));
      assert !RightPage(t, flat, begin, end, limit, offset);
    }
  }

  // m pages of n points, one after another, the first from offset k on.
  function Chain(page: nat -> seq<Point>, n: nat, k: nat, m: nat): seq<Point>
    decreases m
  {
    if m == 0 then [] else page(k) + Chain(page, n, k + n, m - 1)
  }

  lemma {:induction false} ChainIsCut(page: nat -> seq<Point>, range: seq<Point>, n: nat, k: nat, m: nat, total: nat)
    requires total == m * n && forall k': nat :: IsCut(page(k'), range, k', n)
    ensures IsCut(Chain(page, n, k, m), range, k, total)
    decreases m
  {
    if m > 0 {
      FewerPages(m, n);
      ChainIsCut(page, range, n, k + n, m - 1, total - n);
      CutsConcatenate(page(k), Chain(page, n, k + n, m - 1), range, k, n, total - n);
    }
  }

  /** Consecutive pages put together are the range itself: no point is skipped or repeated where
      one page ends and the next begins. */
  lemma {:induction false} PagesConcatenate(t: Table, flat: seq<Point>, begin: int, end: int,
                                            page: nat -> seq<Point>, n: nat, k: nat, m: nat)
    requires Represents(t, flat) && WholeSeconds(flat) && n > 0
    requires forall k': nat :: page(k') == Page(t, begin, end, Some(n), Some(k'))
    ensures IsCut(Chain(page, n, k, m), Between(ToSeconds(flat), begin, end), k, m * n)
  {
    forall k': nat ensures IsCut(page(k'), Between(ToSeconds(flat), begin, end), k', n) {
      PageIsSlice(t, flat, begin, end, Some(n), Some(k'));
    }
    ChainIsCut(page, Between(ToSeconds(flat), begin, end), n, k, m, m * n);
  }

  lemma FewerPages(m: nat, n: nat)
    requires m > 0
    ensures (m - 1) * n == m * n - n && (m - 1) * n >= 0
  {
  }

  lemma CutsConcatenate(a: seq<Point>, b: seq<Point>, range: seq<Point>, k: nat, n: nat, rest: nat)
    requires IsCut(a, range, k, n) && IsCut(b, range, k + n, rest)
    ensures IsCut(a + b, range, k, n + rest)
  {
  }

  // ---------- a whole run of writes ----------

  function WriteAll(t: Table, points: seq<Point>): Table {
    if points == [] then t
    else Write(WriteAll(t, points[..|points| - 1]), points[|points| - 1])
  }

  // The value of the last write at a time.
  function LastAt(points: seq<Point>, ts: int): Option<Point> {
    if points == [] then None
    else if points[|points| - 1].ts == ts then Some(points[|points| - 1])
    else LastAt(points[..|points| - 1], ts)
  }

  lemma {:induction false} PutMembers(s: seq<Point>, p: Point)
    requires Ascending(s)
    ensures forall q :: q in Put(s, p) <==> q == p || (q in s && q.ts != p.ts)
  {
    if s == [] || p.ts <= s[0].ts {
      forall q ensures q in Put(s, p) <==> q == p || (q in s && q.ts != p.ts) {
        assert s != [] ==> s == [s[0]] + s[1..];
      }
    } else {
      PutMembers(s[1..], p);
      assert s == [s[0]] + s[1..];
    }
  }

  /** After any writes in any order, the rows hold, in ascending order and once each, exactly the
      last value written at every time. */
  lemma {:induction false} RunsAreRepresented(yearOf: int -> int, points: seq<Point>) returns (flat: seq<Point>)
    requires Monotone(yearOf)
    ensures Represents(WriteAll(Table(yearOf, map[]), points), flat)
    ensures forall q :: q in flat <==> LastAt(points, q.ts) == Some(q)
  {
    if points == [] {
      flat := [];
    } else {
      var before, p := points[..|points| - 1], points[|points| - 1];
      var was := RunsAreRepresented(yearOf, before);
      flat := Put(was, p);
      WriteRefinesPut(WriteAll(Table(yearOf, map[]), before), was, p);
      PutMembers(was, p);
    }
  }

  lemma {:induction false} PutLast(s: seq<Point>, p: Point)
    requires forall q | q in s :: q.ts < p.ts
    ensures Put(s, p) == s + [p]
  {
    if s != [] {
      PutLast(s[1..], p);
      assert s == [s[0]] + s[1..];
    }
  }

  // Writing an ascending list point by point leaves it as the flat list.
  lemma {:induction false} AscendingIsWritten(yearOf: int -> int, s: seq<Point>)
    requires Monotone(yearOf) && Ascending(s)
    ensures Represents(WriteAll(Table(yearOf, map[]), s), s)
    ensures WriteAll(Table(yearOf, map[]), s).yearOf == yearOf
  {
    if s != [] {
      var before, p := s[..|s| - 1], s[|s| - 1];
      AscendingIsWritten(yearOf, before);
      WriteRefinesPut(WriteAll(Table(yearOf, map[]), before), before, p);
      PutLast(before, p);
      assert before + [p] == s;
    }
  }
}
