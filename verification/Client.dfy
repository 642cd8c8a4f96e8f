/**
  The client's looping query (NodeInfo._query_with_limit in
  esmond/api/client/perfsonar/query.py): pages of a fixed size are fetched one after another,
  each starting one second after the last point of the page before.  Times are seconds.
*/
module Client {
  import opened Wrappers
  import opened Storage

  const LIMIT: nat := 1000

  // The last point of the range is lost when it sits at the end of the range and a full page
  // ends one second before it.
  predicate DropsLast(range: seq<Point>, end: int) {
    var n := |range|;
    n > 1 && range[n - 1].ts == end && range[n - 2].ts == end - 1 && (n - 1) % LIMIT == 0
  }

  function Fetched(range: seq<Point>, end: int): seq<Point> {
    if DropsLast(range, end) then range[..|range| - 1] else range
  }

  /** Over a fixed archive the loop ends, and returns the points between start and end, in
      order and once each, but for the one case DropsLast names. */
  method QueryWithLimit(t: Table, start: int, end: int, ghost flat: seq<Point>)
    returns (r: Result<seq<Point>, RequestError>)
    requires Represents(t, flat) && WholeSeconds(flat)
    ensures r == if end < start then Failure(StartAfterEnd)
                 else Success(Fetched(Between(ToSeconds(flat), start, end), end))
  {
    ghost var range := Between(ToSeconds(flat), start, end);
    RangeAscends(flat, start, end);
    var timeStart := start;
    var payload: seq<Point> := [];
    while true
      invariant AtBoundary(range, start, end, payload, timeStart)
      decreases end - timeStart
    {
      var page := Request(t, timeStart, end);
      if page.Failure? {
        return Failure(page.error);
      }
      var data := page.value;
      NextPage(t, flat, start, end, |payload|, timeStart);
      LoopStep(range, start, end, payload, timeStart, data);
      payload := payload + data;
      if |data| < LIMIT {
        break;
      }
      timeStart := data[|data| - 1].ts + 1;
      if timeStart >= end {
        break;
      }
    }
    r := Success(payload);
  }

  // One request to the server, at any time of its clock.
  method Request(t: Table, timeStart: int, end: int) returns (r: Result<seq<Point>, RequestError>)
    ensures r == if end < timeStart then Failure(StartAfterEnd) else Success(Page(t, timeStart, end, Some(LIMIT), None))
  {
    var now: int, later: int := *, *;
    r := Retrieve(t, TimeFilters(Absent, Seconds(timeStart), Seconds(end), Absent), now, later, Some(LIMIT), None);
  }

  // Between two requests: a whole number of full pages, and the next start just after them.
  ghost predicate AtBoundary(range: seq<Point>, start: int, end: int, payload: seq<Point>, timeStart: int) {
    && |payload| <= |range| && payload == range[..|payload|]
    && |payload| % LIMIT == 0
    && timeStart == (if payload == [] then start else payload[|payload| - 1].ts + 1)
    && (payload != [] ==> timeStart < end)
  }

  // The page asked for next is the next piece of the range.
  lemma {:induction false} NextPage(t: Table, flat: seq<Point>, start: int, end: int, k: nat, timeStart: int)
    requires Represents(t, flat) && WholeSeconds(flat) && timeStart <= end
    requires k <= |Between(ToSeconds(flat), start, end)|
    requires timeStart == if k == 0 then start else Between(ToSeconds(flat), start, end)[k - 1].ts + 1
    ensures Page(t, timeStart, end, Some(LIMIT), None) == Take(Between(ToSeconds(flat), start, end)[k..], LIMIT)
  {
    RangeAscends(flat, start, end);
    PageIsSlice(t, flat, timeStart, end, Some(LIMIT), None);
    RestOfRange(ToSeconds(flat), start, end, k, timeStart);
    var rest := Between(ToSeconds(flat), timeStart, end);
    assert rest[0..] == rest;
  }

  // What the three ways out of the loop body establish.
  lemma LoopStep(range: seq<Point>, start: int, end: int, payload: seq<Point>, timeStart: int, data: seq<Point>)
    requires AtBoundary(range, start, end, payload, timeStart)
    requires Ascending(range) && forall p | p in range :: start <= p.ts <= end
    requires data == Take(range[|payload|..], LIMIT)
    ensures |data| < LIMIT ==> payload + data == Fetched(range, end)
    ensures |data| >= LIMIT ==>
              var next := data[|data| - 1].ts + 1;
              if next >= end then payload + data == Fetched(range, end)
              else AtBoundary(range, start, end, payload + data, next) && timeStart < next
  {
    if |data| < LIMIT {
      ShortPage(range, end, payload, data);
    } else {
      FullPage(range, payload, data);
      var k := |payload + data|;
      assert data[|data| - 1] == range[k - 1];
      if range[k - 1].ts + 1 >= end {
        FullPageAtEnd(range, end, k);
      }
    }
  }

  lemma ShortPage(range: seq<Point>, end: int, payload: seq<Point>, data: seq<Point>)
    requires |payload| <= |range| && payload == range[..|payload|] && |payload| % LIMIT == 0
    requires data == Take(range[|payload|..], LIMIT) && |data| < LIMIT
    requires payload != [] ==> payload[|payload| - 1].ts + 1 < end
    ensures payload + data == Fetched(range, end)
  {
    assert payload + data == range;
    NothingDropped(range, end, |payload|);
  }

  lemma FullPage(range: seq<Point>, payload: seq<Point>, data: seq<Point>)
    requires |payload| <= |range| && payload == range[..|payload|] && |payload| % LIMIT == 0
    requires data == Take(range[|payload|..], LIMIT) && |data| >= LIMIT && Ascending(range)
    ensures |payload + data| <= |range| && payload + data == range[..|payload + data|]
    ensures |payload + data| % LIMIT == 0
    ensures forall i | 0 <= i < |payload| :: payload[i].ts < data[|data| - 1].ts
    ensures forall i | 0 <= i < |data| :: data[i].ts <= data[|data| - 1].ts && data[i] in range
  {
    var k := |payload|;
    assert forall i | 0 <= i < |data| :: data[i] == range[k + i];
  }

  lemma {:induction false} RangeAscends(flat: seq<Point>, start: int, end: int)
    requires Ascending(flat) && WholeSeconds(flat)
    ensures Ascending(ToSeconds(flat)) && Ascending(Between(ToSeconds(flat), start, end))
    ensures forall p | p in Between(ToSeconds(flat), start, end) :: start <= p.ts <= end
  {
    var s := ToSeconds(flat);
    assert Ascending(s) by {
      forall i, j | 0 <= i < j < |s| ensures s[i].ts < s[j].ts {
        assert flat[i].ts == 1000 * s[i].ts && flat[j].ts == 1000 * s[j].ts;
      }
    }
    BetweenAscends(s, start, end);
    BetweenMembers(s, start, end);
  }

  // Restarting one second after the k-th point of a range leaves the points after it.
  lemma {:induction false} RestOfRange(s: seq<Point>, start: int, end: int, k: nat, from: int)
    requires Ascending(s) && k <= |Between(s, start, end)| && start <= from
    requires from == if k == 0 then start else Between(s, start, end)[k - 1].ts + 1
    ensures Between(s, from, end) == Between(s, start, end)[k..]
  {
    BetweenAscends(s, start, end);
    BetweenMembers(s, start, end);
    SuffixBetween(Between(s, start, end), k, from, end);
    BetweenTwice(s, start, from, end);
  }

  lemma {:induction false} SuffixBetween(range: seq<Point>, k: nat, from: int, end: int)
    requires Ascending(range) && k <= |range|
    requires forall p | p in range :: p.ts <= end && (k == 0 ==> from <= p.ts)
    requires k > 0 ==> from == range[k - 1].ts + 1
    ensures Between(range, from, end) == range[k..]
  {
    var before, after := range[..k], range[k..];
    assert forall p | p in before :: p.ts < from;
    assert forall p | p in after :: from <= p.ts <= end;
    assert range == before + after;
    SplitBetween(before, after, from, end);
  }

  lemma {:induction false} SplitBetween(before: seq<Point>, after: seq<Point>, lo: int, hi: int)
    requires forall p | p in before :: p.ts < lo
    requires forall p | p in after :: lo <= p.ts <= hi
    ensures Between(before + after, lo, hi) == after
  {
    BetweenConcat(before, after, lo, hi);
    AllBefore(before, lo, hi);
    AllBetween(after, lo, hi);
  }

  lemma {:induction false} BetweenTwice(s: seq<Point>, start: int, from: int, end: int)
    requires start <= from
    ensures Between(Between(s, start, end), from, end) == Between(s, from, end)
  {
    if s != [] {
      BetweenTwice(s[1..], start, from, end);
      BetweenCons(s[0], Between(s[1..], start, end), from, end);
    }
  }

  lemma {:induction false} BetweenConcat(a: seq<Point>, b: seq<Point>, lo: int, hi: int)
    ensures Between(a + b, lo, hi) == Between(a, lo, hi) + Between(b, lo, hi)
  {
    if a == [] {
      assert a + b == b;
    } else {
      BetweenConcat(a[1..], b, lo, hi);
      assert a + b == [a[0]] + (a[1..] + b);
      BetweenCons(a[0], a[1..] + b, lo, hi);
      Associate([a[0]], Between(a[1..], lo, hi), Between(b, lo, hi));
    }
  }

  lemma {:induction false} AllBefore(s: seq<Point>, lo: int, hi: int)
    requires forall p | p in s :: p.ts < lo
    ensures Between(s, lo, hi) == []
  {
    if s != [] {
      AllBefore(s[1..], lo, hi);
    }
  }

  // A short page is the rest of the range.
  lemma NothingDropped(range: seq<Point>, end: int, k: nat)
    requires k <= |range| < k + LIMIT && k % LIMIT == 0
    requires k > 0 ==> range[k - 1].ts + 1 < end
    ensures !DropsLast(range, end)
  {
    if (|range| - 1) % LIMIT == 0 && |range| > 1 {
      assert |range| - 1 == k;
    }
  }

  // A full page that reaches the end of the range is all of it, or all but its last point.
  lemma FullPageAtEnd(range: seq<Point>, end: int, k: nat)
    requires Ascending(range) && forall p | p in range :: p.ts <= end
    requires 0 < k <= |range| && k % LIMIT == 0 && range[k - 1].ts + 1 >= end
    ensures Fetched(range, end) == range[..k]
  {
    if |range| > k {
      assert range[|range| - 1] in range;
      assert range[k - 1].ts < range[k].ts;
      assert |range| == k + 1;
    } else {
      assert range[..k] == range;
    }
  }

  /** What the client gets: exactly the points between start and end, ascending, except that a
      point at the end is missing when a full page ends at the second before it. */
  lemma {:induction false} FetchedPoints(flat: seq<Point>, start: int, end: int, p: Point)
    requires Ascending(flat) && WholeSeconds(flat)
    ensures var range := Between(ToSeconds(flat), start, end);
            && Ascending(Fetched(range, end))
            && (p in Fetched(range, end) <==>
                  && p in ToSeconds(flat) && start <= p.ts <= end
                  && !(p.ts == end && |range| > 1 && (|range| - 1) % 1000 == 0 && range[|range| - 2].ts == end - 1))
  {
    var range := Between(ToSeconds(flat), start, end);
    RangeAscends(flat, start, end);
    BetweenMembers(ToSeconds(flat), start, end);
    FetchedOf(range, end, p);
  }

  lemma FetchedOf(range: seq<Point>, end: int, p: Point)
    requires Ascending(range)
    ensures Ascending(Fetched(range, end))
    ensures p in Fetched(range, end) <==>
              && p in range
              && !(p.ts == end && |range| > 1 && (|range| - 1) % 1000 == 0 && range[|range| - 2].ts == end - 1)
  {
    var n := |range| - 1;
    if DropsLast(range, end) {
      WithoutLast(range, p);
    } else if p in range && p.ts == end && n > 0 && range[n - 1].ts == end - 1 {
      var i :| 0 <= i <= n && range[i] == p;
      assert i == n;
    }
  }

  lemma WithoutLast(range: seq<Point>, p: Point)
    requires range != [] && Ascending(range)
    ensures p in range[..|range| - 1] <==> p in range && p.ts != range[|range| - 1].ts
  {
    var n := |range| - 1;
    if p in range {
      var i :| 0 <= i <= n && range[i] == p;
      assert i < n ==> range[..n][i] == p;
    }
  }

  /** A reachable loss: of one point a second from 0 to the end, written one by one, the client
      misses the one at the end whenever the end is a whole number of pages away. */
  lemma WholePagesLoseTheEnd(yearOf: int -> int, end: nat) returns (flat: seq<Point>)
    requires Monotone(yearOf) && end > 0 && end % LIMIT == 0
    ensures Represents(WriteAll(Table(yearOf, map[]), flat), flat) && WholeSeconds(flat)
    ensures Point(end, "") in ToSeconds(flat)
    ensures Point(end, "") !in Fetched(Between(ToSeconds(flat), 0, end), end)
  {
    flat := SteadyExists(0, end + 1);
    SteadyAscends(flat, 0);
    assert Represents(WriteAll(Table(yearOf, map[]), flat), flat) by {
      AscendingIsWritten(yearOf, flat);
    }
    assert Between(ToSeconds(flat), 0, end) == ToSeconds(flat) by {
      SteadyRange(flat, 0, end);
    }
    SteadySeconds(flat, 0);
    SecondBySecond(ToSeconds(flat), end);
  }

  lemma SecondBySecond(range: seq<Point>, end: nat)
    requires |range| == end + 1 && forall i | 0 <= i <= end :: range[i] == Point(i, "")
    requires end > 0 && end % LIMIT == 0
    ensures Point(end, "") in range && Point(end, "") !in Fetched(range, end)
  {
    assert range[end] == Point(end, "") && range[end - 1] == Point(end - 1, "");
    assert DropsLast(range, end);
  }
}
