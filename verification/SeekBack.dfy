/**
  The metadata cache of the persister and its seek-back through the raw rows when a
  measurement is not cached (get_metadata in esmond/cassandra.py).  Times are milliseconds.
*/
module SeekBack {
  import opened Wrappers
  import opened Storage

  const SEEK_BACK_THRESHOLD: int := 2592000000

  datatype Metadata = Metadata(lastUpdate: int, lastVal: string, minTs: int)

  function Last(s: seq<Point>): Option<Point> {
    if s == [] then None else Some(s[|s| - 1])
  }

  // A reversed range query for one column a row, of which the last row that has any counts.
  function LastOfRows(t: Table, keys: seq<int>, lo: int, hi: int): Option<Point> {
    if keys == [] then None
    else
      var n := |keys| - 1;
      var found := Last(Between(RowOf(t, keys[n]), lo, hi));
      if found.Some? then found else LastOfRows(t, keys[..n], lo, hi)
  }

  function ColdLookup(t: Table, p: Point): Metadata {
    var tsMax := p.ts - 1;
    var tsMin := tsMax - SEEK_BACK_THRESHOLD;
    match LastOfRows(t, YearRange(t.yearOf(tsMin), t.yearOf(tsMax)), tsMin, tsMax)
    case Some(q) => Metadata(q.ts, q.val, q.ts)
    case None => Metadata(p.ts, p.val, p.ts)
  }

  // The result of the multiget: one entry for every row with a column in the range, in
  // requested order.
  method LastColumns(t: Table, keys: seq<int>, lo: int, hi: int) returns (ret: seq<Point>)
    ensures Last(ret) == LastOfRows(t, keys, lo, hi)
  {
    ret := [];
    for i := 0 to |keys|
      invariant Last(ret) == LastOfRows(t, keys[..i], lo, hi)
    {
      var found := Last(Between(RowOf(t, keys[i]), lo, hi));
      if found.Some? {
        ret := ret + [found.value];
      }
      assert keys[..i + 1][..i] == keys[..i];
    }
    assert keys[..|keys|] == keys;
  }

  class MetadataCache {
    var cache: map<string, Metadata>

    constructor ()
      ensures cache == map[]
    {
      cache := map[];
    }

    method GetMetadata(key: string, t: Table, p: Point) returns (meta: Metadata)
      requires Monotone(t.yearOf)
      modifies this`cache
      ensures meta == if key in old(cache) then old(cache)[key] else ColdLookup(t, p)
      ensures cache == old(cache)[key := meta]
    {
      if key !in cache {
        var tsMax := p.ts - 1;
        var tsMin := tsMax - SEEK_BACK_THRESHOLD;
        var keys := GetRowKeys(t, tsMin, tsMax);
        var ret := LastColumns(t, keys, tsMin, tsMax);
        if ret != [] {
          var q := ret[|ret| - 1];
          meta := Metadata(q.ts, q.val, q.ts);
        } else {
          meta := Metadata(p.ts, p.val, p.ts);
        }
        cache := cache[key := meta];
      } else {
        meta := cache[key];
      }
    }
  }

  lemma {:induction false} LastRowIsLast(t: Table, flat: seq<Point>, lo: int, hi: int, first: int, last: int)
    requires forall year :: RowOf(t, year) == InYear(t.yearOf, flat, year)
    ensures LastOfRows(t, YearRange(first, last), lo, hi) == Last(Whole(t.yearOf, Between(flat, lo, hi), first, last))
    decreases last - first
  {
    if first <= last {
      var keys := YearRange(first, last);
      assert keys[..|keys| - 1] == YearRange(first, last - 1);
      LastRowIsLast(t, flat, lo, hi, first, last - 1);
      BetweenInYear(t.yearOf, flat, lo, hi, last);
      LastOfConcat(Whole(t.yearOf, Between(flat, lo, hi), first, last - 1), Between(RowOf(t, last), lo, hi));
    }
  }

  lemma LastOfConcat(a: seq<Point>, b: seq<Point>)
    ensures Last(a + b) == if b == [] then Last(a) else Last(b)
  {
    assert b == [] ==> a + b == a;
  }

  // Raw points strictly before the new one, no more than 30 days back, in milliseconds.
  predicate InWindow(p: Point, q: Point) {
    p.ts - 1 - 30 * 86_400_000 <= q.ts < p.ts
  }

  /** On a cold cache the seek-back returns the latest raw point strictly before the new one
      within the threshold, across a year boundary too, and the new point itself exactly
      when there is none. */
  lemma SeekBackFindsLatest(t: Table, flat: seq<Point>, p: Point)
    requires Represents(t, flat)
    ensures var m := ColdLookup(t, p);
            if exists q | q in flat :: InWindow(p, q) then
              exists q | q in flat ::
                && InWindow(p, q) && m == Metadata(q.ts, q.val, q.ts)
                && forall q' | q' in flat && InWindow(p, q') :: q'.ts <= q.ts
            else m == Metadata(p.ts, p.val, p.ts)
  {
    var range := Between(flat, p.ts - 1 - SEEK_BACK_THRESHOLD, p.ts - 1);
    BetweenAscends(flat, p.ts - 1 - SEEK_BACK_THRESHOLD, p.ts - 1);
    BetweenMembers(flat, p.ts - 1 - SEEK_BACK_THRESHOLD, p.ts - 1);
    ColdLookupIsLast(t, flat, p);
    assert forall q :: q in range <==> q in flat && InWindow(p, q);
    if range != [] {
      LastIsLatest(range);
    }
  }

  lemma LastIsLatest(range: seq<Point>)
    requires range != [] && Ascending(range)
    ensures Last(range).Some? && Last(range).value in range
    ensures forall q | q in range :: q.ts <= Last(range).value.ts
  {
    forall q | q in range ensures q.ts <= Last(range).value.ts {
      var i :| 0 <= i < |range| && range[i] == q;
    }
  }

  lemma ColdLookupIsLast(t: Table, flat: seq<Point>, p: Point)
    requires Represents(t, flat)
    ensures ColdLookup(t, p) ==
            match Last(Between(flat, p.ts - 1 - SEEK_BACK_THRESHOLD, p.ts - 1))
            case Some(q) => Metadata(q.ts, q.val, q.ts)
            case None => Metadata(p.ts, p.val, p.ts)
  {
    var hi := p.ts - 1;
    var lo := hi - SEEK_BACK_THRESHOLD;
    var first, last := t.yearOf(lo), t.yearOf(hi);
    var range := Between(flat, lo, hi);
    LastRowIsLast(t, flat, lo, hi, first, last);
    assert Whole(t.yearOf, range, first, last) == range by {
      BetweenAscends(flat, lo, hi);
      BetweenMembers(flat, lo, hi);
      WholeIsAll(t.yearOf, range, first, last);
    }
  }
}
