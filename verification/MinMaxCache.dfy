/**
  Min/max aggregation with a one-bin-per-row cache in front of the stat table
  (get_agg_from_cache, update_agg_cache and update_stat_aggregation in esmond/cassandra.py).
*/
module MinMaxCache {
  import opened Wrappers

  datatype MinMax = MinMax(min: int, max: int, minTs: int, maxTs: int)

  datatype Extreme = Min | Max

  type Row = string

  datatype Event = Update(row: Row, bin: int, val: int, ts: int) | Restart

  datatype State = State(cache: map<Row, map<int, MinMax>>, store: map<(Row, int), MinMax>)

  function Adjust(m: MinMax, which: Extreme, val: int, ts: int): MinMax {
    match which
    case Min => m.(min := val, minTs := ts)
    case Max => m.(max := val, maxTs := ts)
  }

  // ---------- one update, as a state transition ----------

  // The cached row just before the bin is looked up in it: seeded from the table only when
  // the row is absent or empty.
  function Seeded(s: State, row: Row, bin: int): map<int, MinMax> {
    if row in s.cache && s.cache[row] != map[] then s.cache[row]
    else if (row, bin) in s.store then map[bin := s.store[(row, bin)]]
    else map[]
  }

  function Apply(s: State, u: Event): State {
    match u
    case Restart => State(map[], s.store)
    case Update(row, bin, val, ts) =>
      var cached := Seeded(s, row, bin);
      if bin !in cached then
        var m := MinMax(val, val, ts, ts);
        State(s.cache[row := map[bin := m]], s.store[(row, bin) := m])
      else
        var m := cached[bin];
        if val > m.max then
          State(s.cache[row := cached[bin := Adjust(m, Max, val, ts)]], Insert(s.store, row, bin, Max, val, ts, m))
        else if val < m.min then
          State(s.cache[row := cached[bin := Adjust(m, Min, val, ts)]], Insert(s.store, row, bin, Min, val, ts, m))
        else
          State(s.cache[row := cached], s.store)
  }

  // Two of the four columns of a stat row are overwritten; the others stay as stored.
  function Insert(store: map<(Row, int), MinMax>, row: Row, bin: int, which: Extreme, val: int, ts: int, absent: MinMax)
    : map<(Row, int), MinMax>
  {
    var prev := if (row, bin) in store then store[(row, bin)] else absent;
    store[(row, bin) := Adjust(prev, which, val, ts)]
  }

  class StatAggregator {
    var cache: map<Row, map<int, MinMax>>
    var store: map<(Row, int), MinMax>

    function Contents(): State
      reads this
    {
      State(cache, store)
    }

    constructor (store: map<(Row, int), MinMax>)
      ensures cache == map[] && this.store == store
    {
      cache, this.store := map[], store;
    }

    method GetAggFromCache(row: Row, bin: int, val: int, ts: int) returns (ret: Option<MinMax>)
      modifies this`cache
      ensures var cached := old(Seeded(Contents(), row, bin));
              if bin in cached
              then ret == Some(cached[bin]) && cache == old(cache)[row := cached]
              else ret == None && cache == old(cache)[row := map[bin := MinMax(val, val, ts, ts)]]
    {
      if row !in cache || cache[row] == map[] {
        cache := cache[row := map[]];
        if (row, bin) in store {
          cache := cache[row := cache[row][bin := store[(row, bin)]]];
        }
      }
      if bin !in cache[row] {
        cache := cache[row := map[]];
        cache := cache[row := cache[row][bin := MinMax(val, val, ts, ts)]];
        ret := None;
      } else {
        ret := Some(cache[row][bin]);
      }
    }

    method UpdateAggCache(row: Row, bin: int, val: int, ts: int, which: Extreme)
      requires row in cache && bin in cache[row]
      modifies this`cache
      ensures cache == old(cache)[row := old(cache)[row][bin := Adjust(old(cache)[row][bin], which, val, ts)]]
    {
      cache := cache[row := cache[row][bin := Adjust(cache[row][bin], which, val, ts)]];
    }

    method UpdateStatAggregation(row: Row, bin: int, val: int, ts: int) returns (updated: bool)
      modifies this
      ensures Contents() == Apply(old(Contents()), Update(row, bin, val, ts))
      ensures var cached := old(Seeded(Contents(), row, bin));
              updated <==> bin !in cached || val > cached[bin].max || val < cached[bin].min
    {
      updated := false;
      var ret := GetAggFromCache(row, bin, val, ts);
      if ret.None? {
        store := store[(row, bin) := MinMax(val, val, ts, ts)];
        updated := true;
      } else if val > ret.value.max {
        UpdateAggCache(row, bin, val, ts, Max);
        store := Insert(store, row, bin, Max, val, ts, ret.value);
        updated := true;
      } else if val < ret.value.min {
        UpdateAggCache(row, bin, val, ts, Min);
        store := Insert(store, row, bin, Min, val, ts, ret.value);
        updated := true;
      }
    }

    method RestartProcess()
      modifies this`cache
      ensures Contents() == Apply(old(Contents()), Restart)
    {
      cache := map[];
    }
  }

  // ---------- what the table should hold ----------

  datatype Sample = Sample(val: int, ts: int)

  // The values seen for one bin, in arrival order.
  function Seen(events: seq<Event>, row: Row, bin: int): seq<Sample> {
    if events == [] then []
    else
      var last := events[|events| - 1];
      Seen(events[..|events| - 1], row, bin) +
      if last.Update? && last.row == row && last.bin == bin then [Sample(last.val, last.ts)] else []
  }

  ghost predicate FirstLeast(vs: seq<Sample>, i: nat, v: Sample) {
    && i < |vs| && vs[i] == v
    && (forall j | 0 <= j < |vs| :: v.val <= vs[j].val)
    && (forall j | 0 <= j < i :: v.val < vs[j].val)
  }

  ghost predicate FirstGreatest(vs: seq<Sample>, i: nat, v: Sample) {
    && i < |vs| && vs[i] == v
    && (forall j | 0 <= j < |vs| :: vs[j].val <= v.val)
    && (forall j | 0 <= j < i :: vs[j].val < v.val)
  }

  // The least and greatest values, each with the time it was first attained.
  ghost predicate IsMinMax(vs: seq<Sample>, m: MinMax) {
    && (exists i: nat :: FirstLeast(vs, i, Sample(m.min, m.minTs)))
    && (exists i: nat :: FirstGreatest(vs, i, Sample(m.max, m.maxTs)))
  }

  // A stored bin is right about the values seen for it; a bin not stored has seen none.
  ghost predicate BinRight(s: State, events: seq<Event>, row: Row, bin: int) {
    var vs := Seen(events, row, bin);
    if (row, bin) in s.store then vs != [] && IsMinMax(vs, s.store[(row, bin)]) else vs == []
  }

  predicate CachesBin(s: State, row: Row, bin: int) {
    row in s.cache && (row, bin) in s.store && s.cache[row] == map[bin := s.store[(row, bin)]]
  }

  // The table is right about every bin, and a cached row is exactly one bin, as stored.
  ghost predicate Right(s: State, events: seq<Event>) {
    && (forall row, bin :: BinRight(s, events, row, bin))
    && (forall row | row in s.cache :: exists bin :: CachesBin(s, row, bin))
  }

  function Run(events: seq<Event>): State {
    if events == [] then State(map[], map[])
    else Apply(Run(events[..|events| - 1]), events[|events| - 1])
  }

  // What a caller could check before an update: a row that is cached for another bin does not
  // return to a bin that is already in the table.
  predicate Safe(s: State, u: Event) {
    u.Update? && u.row in s.cache && s.cache[u.row] != map[] && u.bin !in s.cache[u.row] ==> (u.row, u.bin) !in s.store
  }

  // The table already holds what a first update of the bin would store.
  predicate Harmless(s: State, u: Event) {
    && u.Update? && (u.row, u.bin) in s.store
    && s.store[(u.row, u.bin)] == MinMax(u.val, u.val, u.ts, u.ts)
  }

  predicate Keeps(s: State, u: Event) {
    Safe(s, u) || Harmless(s, u)
  }

  // ---------- one step ----------

  lemma {:induction false} SeenNext(events: seq<Event>, u: Event, row: Row, bin: int)
    ensures Seen(events + [u], row, bin) ==
            Seen(events, row, bin) + if u.Update? && u.row == row && u.bin == bin then [Sample(u.val, u.ts)] else []
  {
    assert (events + [u])[..|events|] == events;
  }

  lemma FirstSample(v: Sample)
    ensures IsMinMax([v], MinMax(v.val, v.val, v.ts, v.ts))
  {
    assert FirstLeast([v], 0, v) && FirstGreatest([v], 0, v);
  }

  lemma NextSample(vs: seq<Sample>, m: MinMax, v: Sample)
    requires IsMinMax(vs, m)
    ensures IsMinMax(vs + [v], Extended(m, v))
  {
    var more, n := vs + [v], |vs|;
    var i :| FirstLeast(vs, i, Sample(m.min, m.minTs));
    var k :| FirstGreatest(vs, k, Sample(m.max, m.maxTs));
    assert more[n] == v && forall j | 0 <= j < n :: more[j] == vs[j];
    if v.val > m.max {
      assert FirstGreatest(more, n, v);
    } else {
      assert FirstGreatest(more, k, Sample(m.max, m.maxTs));
    }
    if v.val < m.min {
      assert FirstLeast(more, n, v);
    } else {
      assert FirstLeast(more, i, Sample(m.min, m.minTs));
    }
  }

  // What is found in the cache, or seeded into it, is what the table holds.
  lemma SeededAsStored(s: State, row: Row, bin: int)
    requires row in s.cache ==> exists b :: CachesBin(s, row, b)
    ensures bin in Seeded(s, row, bin) ==>
              (row, bin) in s.store && Seeded(s, row, bin) == map[bin := s.store[(row, bin)]]
    ensures (row, bin) in s.store && bin !in Seeded(s, row, bin) ==> row in s.cache && s.cache[row] != map[]
  {
    if row in s.cache {
      var b :| CachesBin(s, row, b);
      assert b in s.cache[row];
    }
  }

  function Extended(m: MinMax, v: Sample): MinMax {
    if v.val > m.max then Adjust(m, Max, v.val, v.ts)
    else if v.val < m.min then Adjust(m, Min, v.val, v.ts) else m
  }

  lemma UpdateStores(s: State, u: Event)
    requires u.Update? && Keeps(s, u) && (u.row in s.cache ==> exists b :: CachesBin(s, u.row, b))
    ensures var m := if (u.row, u.bin) in s.store then Extended(s.store[(u.row, u.bin)], Sample(u.val, u.ts))
                     else MinMax(u.val, u.val, u.ts, u.ts);
            Apply(s, u) == State(s.cache[u.row := map[u.bin := m]], s.store[(u.row, u.bin) := m])
  {
    SeededAsStored(s, u.row, u.bin);
    var key := (u.row, u.bin);
    if key in s.store && Safe(s, u) {
      var m := s.store[key];
      assert s.store == s.store[key := m];
      assert Seeded(s, u.row, u.bin) == map[u.bin := m];
      assert forall x: MinMax :: map[u.bin := m][u.bin := x] == map[u.bin := x];
    }
  }

  lemma UpdatedBin(s: State, events: seq<Event>, u: Event)
    requires Right(s, events) && u.Update? && Keeps(s, u)
    ensures BinRight(Apply(s, u), events + [u], u.row, u.bin)
    ensures CachesBin(Apply(s, u), u.row, u.bin)
  {
    var vs, v := Seen(events, u.row, u.bin), Sample(u.val, u.ts);
    UpdateStores(s, u);
    assert BinRight(s, events, u.row, u.bin);
    assert Seen(events + [u], u.row, u.bin) == vs + [v] by {
      SeenNext(events, u, u.row, u.bin);
    }
    if vs == [] {
      FirstSample(v);
      assert vs + [v] == [v];
    } else {
      NextSample(vs, s.store[(u.row, u.bin)], v);
    }
  }

  lemma OtherBin(s: State, events: seq<Event>, u: Event, row: Row, bin: int)
    requires BinRight(s, events, row, bin)
    requires u.Update? ==>
               && Keeps(s, u) && (u.row, u.bin) != (row, bin)
               && (u.row in s.cache ==> exists b :: CachesBin(s, u.row, b))
    ensures BinRight(Apply(s, u), events + [u], row, bin)
  {
    SeenNext(events, u, row, bin);
    assert Seen(events, row, bin) + [] == Seen(events, row, bin);
    if u.Update? {
      UpdateStores(s, u);
    }
  }

  lemma OtherRow(s: State, u: Event, row: Row)
    requires u.Update? && Keeps(s, u) && row != u.row && exists b :: CachesBin(s, row, b)
    requires u.row in s.cache ==> exists b :: CachesBin(s, u.row, b)
    ensures exists b :: CachesBin(Apply(s, u), row, b)
  {
    UpdateStores(s, u);
    var b :| CachesBin(s, row, b);
    assert CachesBin(Apply(s, u), row, b);
  }

  lemma SafeStep(s: State, events: seq<Event>, u: Event)
    requires Right(s, events) && Keeps(s, u)
    ensures Right(Apply(s, u), events + [u])
  {
    var s' := Apply(s, u);
    forall row, bin ensures BinRight(s', events + [u], row, bin) {
      assert BinRight(s, events, row, bin);
      if u.Update? && (u.row, u.bin) == (row, bin) {
        UpdatedBin(s, events, u);
      } else {
        OtherBin(s, events, u, row, bin);
      }
    }
    forall row | row in s'.cache ensures exists bin :: CachesBin(s', row, bin) {
      assert u.Update?;
      if u.row == row {
        UpdatedBin(s, events, u);
      } else {
        assert row in s.cache by {
          UpdateStores(s, u);
        }
        OtherRow(s, u, row);
      }
    }
  }

  // Only equal values, the first at its own time, have this as their least and greatest.
  lemma SingleMinMax(vs: seq<Sample>, v: Sample)
    requires vs != []
    ensures IsMinMax(vs, MinMax(v.val, v.val, v.ts, v.ts)) <==>
              vs[0] == v && forall i | 0 <= i < |vs| :: vs[i].val == v.val
  {
    if i: nat :| FirstLeast(vs, i, v) && IsMinMax(vs, MinMax(v.val, v.val, v.ts, v.ts)) {
      var k: nat :| FirstGreatest(vs, k, v);
      assert vs[0].val == v.val;
    }
    if vs[0] == v && forall i | 0 <= i < |vs| :: vs[i].val == v.val {
      assert FirstLeast(vs, 0, v) && FirstGreatest(vs, 0, v);
    }
  }

  lemma MinMaxIsUnique(vs: seq<Sample>, m: MinMax, m': MinMax)
    ensures IsMinMax(vs, m) && IsMinMax(vs, m') ==> m == m'
  {
  }

  // Going back to a bin the row has left overwrites its table entry.
  lemma UnsafeStep(s: State, events: seq<Event>, u: Event)
    requires Right(s, events) && !Keeps(s, u)
    ensures !BinRight(Apply(s, u), events + [u], u.row, u.bin)
  {
    var vs, v := Seen(events, u.row, u.bin), Sample(u.val, u.ts);
    var m := MinMax(v.val, v.val, v.ts, v.ts);
    assert BinRight(s, events, u.row, u.bin);
    SeenNext(events, u, u.row, u.bin);
    assert Apply(s, u).store[(u.row, u.bin)] == m;
    SingleMinMax(vs + [v], v);
    SingleMinMax(vs, v);
    assert forall i | 0 <= i < |vs| :: vs[i] == (vs + [v])[i];
    MinMaxIsUnique(vs, m, s.store[(u.row, u.bin)]);
  }

  /** One update keeps the table right exactly when its row is not cached for another bin while
      this bin is stored, or the bin is stored with nothing but this very sample's value and time. */
  lemma StepIsRightIff(s: State, events: seq<Event>, u: Event)
    requires Right(s, events)
    ensures Right(Apply(s, u), events + [u]) <==> Safe(s, u) || Harmless(s, u)
  {
    if Keeps(s, u) {
      SafeStep(s, events, u);
    } else {
      UnsafeStep(s, events, u);
    }
  }

  // ---------- runs ----------

  // Bins of a row never go backwards.
  ghost predicate Forward(events: seq<Event>) {
    forall i, j | 0 <= i < j < |events| && events[i].Update? && events[j].Update? && events[i].row == events[j].row ::
      events[i].bin <= events[j].bin
  }

  // What is cached for a row is its latest bin.
  ghost predicate CachesLatest(s: State) {
    forall row, bin, b | CachesBin(s, row, bin) && (row, b) in s.store :: b <= bin
  }

  lemma {:induction false} SeenMember(events: seq<Event>, row: Row, bin: int)
    requires Seen(events, row, bin) != []
    ensures exists i | 0 <= i < |events| :: events[i].Update? && events[i].row == row && events[i].bin == bin
  {
    var n := |events| - 1;
    if events[n].Update? && events[n].row == row && events[n].bin == bin {
    } else {
      SeenMember(events[..n], row, bin);
      var i :| 0 <= i < n && events[..n][i].Update? && events[..n][i].row == row && events[..n][i].bin == bin;
      assert events[i] == events[..n][i];
    }
  }

  lemma LatestIsSafe(s: State, events: seq<Event>, u: Event)
    requires Right(s, events) && CachesLatest(s) && u.Update?
    requires forall b | (u.row, b) in s.store :: b <= u.bin
    ensures Safe(s, u) && CachesLatest(Apply(s, u))
  {
    if u.row in s.cache {
      var c :| CachesBin(s, u.row, c);
      if (u.row, u.bin) in s.store {
        assert c == u.bin;
        assert u.bin in s.cache[u.row];
      }
    }
    UpdatedBin(s, events, u);
    var s' := Apply(s, u);
    forall row, bin, b | CachesBin(s', row, bin) && (row, b) in s'.store ensures b <= bin {
      if row == u.row {
        assert bin in s'.cache[row] && u.bin in s'.cache[row];
        assert bin == u.bin;
      } else {
        assert CachesBin(s, row, bin);
      }
    }
  }

  /** In every run of updates and restarts whose rows never go back to an earlier bin, every
      stored minimum and maximum is that of all values seen for its bin with the first time
      attaining it, and every cached row is exactly one bin and agrees with the table. */
  lemma {:induction false} ForwardRunsAreRight(events: seq<Event>)
    requires Forward(events)
    ensures Right(Run(events), events) && CachesLatest(Run(events))
  {
    if events != [] {
      var n := |events| - 1;
      var before, u := events[..n], events[n];
      var s := Run(before);
      ForwardRunsAreRight(before);
      assert before + [u] == events;
      if u.Update? {
        forall b | (u.row, b) in s.store ensures b <= u.bin {
          assert BinRight(s, before, u.row, b);
          SeenMember(before, u.row, b);
          var i :| 0 <= i < n && before[i].Update? && before[i].row == u.row && before[i].bin == b;
          assert events[i] == before[i];
        }
        LatestIsSafe(s, before, u);
      }
      SafeStep(s, before, u);
    }
  }

  // ---------- exactly which runs ----------

  // The bin a row is cached for: that of its last update since the last restart.
  function Current(events: seq<Event>, row: Row): Option<int> {
    if events == [] then None
    else
      match events[|events| - 1]
      case Restart => None
      case Update(r, bin, _, _) => if r == row then Some(bin) else Current(events[..|events| - 1], row)
  }

  // The row has moved on since the last restart, and now goes back to a bin seen before.
  predicate Returns(events: seq<Event>, u: Event) {
    && u.Update? && Current(events, u.row).Some? && Current(events, u.row).value != u.bin
    && Seen(events, u.row, u.bin) != []
  }

  // The first sample of the bin is sent once more, and no other value was seen for it.
  predicate Repeats(events: seq<Event>, u: Event) {
    && u.Update? && Seen(events, u.row, u.bin) != []
    && Seen(events, u.row, u.bin)[0] == Sample(u.val, u.ts)
    && forall v | v in Seen(events, u.row, u.bin) :: v.val == u.val
  }

  lemma {:induction false} CachesCurrent(events: seq<Event>, row: Row)
    ensures row in Run(events).cache <==> Current(events, row).Some?
    ensures row in Run(events).cache ==> Run(events).cache[row].Keys == {Current(events, row).value}
  {
    if events != [] {
      CachesCurrent(events[..|events| - 1], row);
    }
  }

  lemma {:induction false} KeepsIff(events: seq<Event>, u: Event)
    requires Right(Run(events), events)
    ensures Keeps(Run(events), u) <==> !Returns(events, u) || Repeats(events, u)
  {
    if u.Update? {
      var s, vs, v := Run(events), Seen(events, u.row, u.bin), Sample(u.val, u.ts);
      assert BinRight(s, events, u.row, u.bin);
      CachesCurrent(events, u.row);
      if vs != [] {
        SingleMinMax(vs, v);
        MinMaxIsUnique(vs, MinMax(v.val, v.val, v.ts, v.ts), s.store[(u.row, u.bin)]);
      }
    }
  }

  ghost predicate RightAt(events: seq<Event>, n: nat)
    requires n <= |events|
  {
    Right(Run(events[..n]), events[..n])
  }

  predicate AllowedAt(events: seq<Event>, n: nat)
    requires n < |events|
  {
    !Returns(events[..n], events[n]) || Repeats(events[..n], events[n])
  }

  lemma StepAt(events: seq<Event>, n: nat)
    requires n < |events| && RightAt(events, n)
    ensures RightAt(events, n + 1) <==> AllowedAt(events, n)
  {
    assert events[..n + 1] == events[..n] + [events[n]];
    assert (events[..n] + [events[n]])[..n] == events[..n];
    KeepsIff(events[..n], events[n]);
    StepIsRightIff(Run(events[..n]), events[..n], events[n]);
  }

  lemma RightAtStart(events: seq<Event>)
    ensures RightAt(events, 0)
  {
    assert events[..0] == [];
  }

  // What holds at the start and goes on exactly where it is allowed to.
  lemma {:induction false} Chain(right: nat -> bool, allowed: nat -> bool, n: nat)
    requires right(0) && forall k: nat | k < n :: right(k) ==> (right(k + 1) <==> allowed(k))
    ensures (forall k: nat | k <= n :: right(k)) <==> forall k: nat | k < n :: allowed(k)
  {
    if n > 0 {
      Chain(right, allowed, n - 1);
      assert right(n - 1) ==> (right(n) <==> allowed(n - 1));
    }
  }

  /** Table and cache are right throughout a run exactly when no row ever goes back to a bin it
      has left since the last restart, but to repeat the only value seen there at its first time. */
  lemma RunsAreRightIff(events: seq<Event>)
    ensures (forall n: nat | n <= |events| :: RightAt(events, n)) <==>
              forall n: nat | n < |events| :: AllowedAt(events, n)
  {
    ghost var right: nat -> bool := (n: nat) => n <= |events| && RightAt(events, n);
    ghost var allowed: nat -> bool := (n: nat) => n < |events| && AllowedAt(events, n);
    RightAtStart(events);
    forall n: nat | n < |events| ensures right(n) ==> (right(n + 1) <==> allowed(n)) {
      if RightAt(events, n) {
        StepAt(events, n);
      }
    }
    Chain(right, allowed, |events|);
    assert forall n: nat | n <= |events| :: right(n) <==> RightAt(events, n);
    assert forall n: nat | n < |events| :: allowed(n) <==> AllowedAt(events, n);
  }

  lemma {:induction false} RunNext(events: seq<Event>, u: Event)
    ensures Run(events + [u]) == Apply(Run(events), u)
  {
    assert (events + [u])[..|events|] == events;
  }

  function MovedOn(row: Row): State {
    State(map[row := map[60 := MinMax(7, 7, 61, 61)]],
          map[(row, 0) := MinMax(5, 5, 1, 1), (row, 60) := MinMax(7, 7, 61, 61)])
  }

  lemma {:induction false} RunMovesOn(row: Row, events: seq<Event>)
    requires events == [Update(row, 0, 5, 1), Update(row, 60, 7, 61)]
    ensures Run(events) == MovedOn(row) && Seen(events, row, 0) == [Sample(5, 1)]
  {
    var one := [events[0]];
    assert events == one + [events[1]] && one == [] + one;
    RunNext([], one[0]);
    RunNext(one, events[1]);
    SeenNext([], one[0], row, 0);
    SeenNext(one, events[1], row, 0);
  }

  /** A reachable failure: a row that moves on and comes back loses the minimum of its first bin. */
  lemma GoingBackOverwrites(row: Row) returns (events: seq<Event>)
    ensures events == [Update(row, 0, 5, 1), Update(row, 60, 7, 61)] + [Update(row, 0, 6, 2)]
    ensures (row, 0) in Run(events).store && Run(events).store[(row, 0)] == MinMax(6, 6, 2, 2)
    ensures IsMinMax(Seen(events, row, 0), MinMax(5, 6, 1, 2))
    ensures !Right(Run(events), events)
  {
    var before, u := [Update(row, 0, 5, 1), Update(row, 60, 7, 61)], Update(row, 0, 6, 2);
    events := before + [u];
    RunMovesOn(row, before);
    RunNext(before, u);
    SeenNext(before, u, row, 0);
    FirstSample(Sample(5, 1));
    NextSample([Sample(5, 1)], MinMax(5, 5, 1, 1), Sample(6, 2));
    assert Extended(MinMax(5, 5, 1, 1), Sample(6, 2)) == MinMax(5, 6, 1, 2);
    assert Seeded(MovedOn(row), row, 0) == map[60 := MinMax(7, 7, 61, 61)] by {
      assert 60 in MovedOn(row).cache[row];
    }
    MinMaxIsUnique(Seen(events, row, 0), MinMax(5, 6, 1, 2), MinMax(6, 6, 2, 2));
    assert Right(Run(events), events) ==> BinRight(Run(events), events, row, 0);
  }
}
