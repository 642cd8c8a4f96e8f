/**
  The chunked delete loop of the retention tool (main in util/ps_remove_data.py): windows are
  searched backwards from the expiry time until the beginning of time is reached, a query
  fails, or too many windows were empty.  Times are seconds.
*/
module Expiry {
  datatype Window = Window(begin: int, end: int)

  // begin_time before it is clamped, for the i-th round
  function Begin(expire: int, chunk: int, i: nat): int {
    if i == 0 then expire - chunk else Begin(expire, chunk, i - 1) - chunk
  }

  function Low(expire: int, chunk: int, i: nat): int {
    if Begin(expire, chunk, i) < 0 then 0 else Begin(expire, chunk, i)
  }

  function WindowAt(expire: int, chunk: int, i: nat): Window {
    Window(Low(expire, chunk, i), if i == 0 then expire else Low(expire, chunk, i - 1))
  }

  function Within(times: set<int>, lo: int, hi: int): set<int> {
    set t | t in times && lo <= t <= hi
  }

  // What round i finds: the shared boundary went with the round before.
  function FoundIn(times: set<int>, expire: int, chunk: int, i: nat): set<int> {
    var w := WindowAt(expire, chunk, i);
    Within(times, w.begin, if i == 0 then w.end else w.end - 1)
  }

  // How many of the first n rounds find nothing.
  function Empties(times: set<int>, expire: int, chunk: int, n: nat): nat {
    if n == 0 then 0
    else Empties(times, expire, chunk, n - 1) + if FoundIn(times, expire, chunk, n - 1) == {} then 1 else 0
  }

  // Round i was reached: no query failed, the misses so far were allowed, and the round
  // before did not get to the beginning of time.
  predicate Started(times: set<int>, expire: int, chunk: int, maxMisses: int, fails: Window -> bool, i: nat) {
    && !fails(WindowAt(expire, chunk, i))
    && Empties(times, expire, chunk, i) < maxMisses
    && (i > 0 ==> Low(expire, chunk, i - 1) > 0)
  }

  // n rounds were completed, and no other followed.
  ghost predicate Rounds(times: set<int>, expire: int, chunk: int, maxMisses: int, fails: Window -> bool, n: nat) {
    && (forall i | 0 <= i < n :: Started(times, expire, chunk, maxMisses, fails, i))
    && !Started(times, expire, chunk, maxMisses, fails, n)
  }

  function Remaining(times: set<int>, expire: int, chunk: int, n: nat): set<int> {
    if n == 0 then times else times - Within(times, Low(expire, chunk, n - 1), expire)
  }

  class Dataset {
    var times: set<int>

    constructor (times: set<int>)
      ensures this.times == times
    {
      this.times := times;
    }

    /** The loop ends for every positive chunk, removing exactly what its windows cover. */
    method DeleteExpired(expire: int, chunk: int, maxMisses: int, fails: Window -> bool) returns (n: nat)
      requires chunk > 0
      modifies this
      ensures Rounds(old(times), expire, chunk, maxMisses, fails, n)
      ensures times == Remaining(old(times), expire, chunk, n)
    {
      var beginTime, endTime := expire - chunk, expire;
      var misses := 0;
      ghost var stored := times;
      n := 0;
      while misses < maxMisses
        invariant forall i | 0 <= i < n :: Started(stored, expire, chunk, maxMisses, fails, i)
        invariant times == Remaining(stored, expire, chunk, n)
        invariant endTime == WindowAt(expire, chunk, n).end
        invariant if n > 0 && Low(expire, chunk, n - 1) == 0 then misses >= maxMisses
                  else beginTime == Begin(expire, chunk, n) && misses == Empties(stored, expire, chunk, n)
        decreases if misses < maxMisses then 1 else 0, beginTime
      {
        if beginTime == 0 {
          misses := maxMisses;
        } else if beginTime < 0 {
          beginTime := 0;
          misses := maxMisses;
        }
        if fails(Window(beginTime, endTime)) {
          break;
        }
        assert Started(stored, expire, chunk, maxMisses, fails, n);
        var expired := Within(times, beginTime, endTime);
        RoundFinds(stored, expire, chunk, n);
        endTime := beginTime;
        beginTime := beginTime - chunk;
        n := n + 1;
        if expired == {} {
          misses := misses + 1;
          continue;
        }
        times := times - expired;
      }
    }
  }

  // One round finds what its window holds beyond the boundary, and removes it.
  lemma RoundFinds(stored: set<int>, expire: int, chunk: int, n: nat)
    requires chunk > 0 && (n > 0 ==> Low(expire, chunk, n - 1) > 0)
    ensures var w := WindowAt(expire, chunk, n);
            && Within(Remaining(stored, expire, chunk, n), w.begin, w.end) == FoundIn(stored, expire, chunk, n)
            && Remaining(stored, expire, chunk, n + 1) ==
               Remaining(stored, expire, chunk, n) - FoundIn(stored, expire, chunk, n)
  {
    if n > 0 {
      LowDecreases(expire, chunk, n);
      LowBelowExpire(expire, chunk, n - 1);
    }
  }

  lemma LowDecreases(expire: int, chunk: int, n: nat)
    requires chunk > 0 && n > 0 && Low(expire, chunk, n - 1) > 0
    ensures 0 <= Low(expire, chunk, n) < Low(expire, chunk, n - 1)
  {
  }

  lemma {:induction false} LowBelowExpire(expire: int, chunk: int, n: nat)
    requires chunk > 0 && Low(expire, chunk, n) > 0
    ensures Low(expire, chunk, n) <= expire - chunk
  {
    if n > 0 {
      BeginDecreases(expire, chunk, n);
      LowBelowExpire(expire, chunk, n - 1);
    }
  }

  lemma BeginDecreases(expire: int, chunk: int, n: nat)
    requires chunk > 0 && n > 0
    ensures Begin(expire, chunk, n) < Begin(expire, chunk, n - 1)
  {
  }

  /** The windows tile backwards from the expiry time without gaps, are one chunk long until
      the beginning of time cuts the last one short, and never go below 0; nothing later than
      the expiry time is removed. */
  lemma WindowsTile(times: set<int>, expire: int, chunk: int, maxMisses: int, fails: Window -> bool, n: nat)
    requires chunk > 0 && Rounds(times, expire, chunk, maxMisses, fails, n)
    ensures n > 0 ==> WindowAt(expire, chunk, 0).end == expire
    ensures forall i | 0 < i < n :: WindowAt(expire, chunk, i).end == WindowAt(expire, chunk, i - 1).begin
    ensures forall i | 0 <= i < n ::
              var w := WindowAt(expire, chunk, i);
              && w.begin >= 0
              && (w.begin == w.end - chunk || (w.begin == 0 && w.end - chunk < 0 && i == n - 1))
    ensures forall t | t in times && t > expire :: t in Remaining(times, expire, chunk, n)
  {
    assert forall i | 0 < i < n :: Started(times, expire, chunk, maxMisses, fails, i);
    forall i | 0 <= i < n
      ensures var w := WindowAt(expire, chunk, i);
              w.begin >= 0 && (w.begin == w.end - chunk || (w.begin == 0 && w.end - chunk < 0 && i == n - 1))
    {
      if i < n - 1 {
        assert Started(times, expire, chunk, maxMisses, fails, i + 1);
      }
    }
  }

  // A round sees its window, but for the shared end that the round before has removed.
  predicate InRound(expire: int, chunk: int, i: nat, t: int) {
    var w := WindowAt(expire, chunk, i);
    w.begin <= t && (t < w.end || (i == 0 && t == w.end))
  }

  predicate HasData(times: set<int>, expire: int, chunk: int, i: nat) {
    exists t | t in times :: InRound(expire, chunk, i, t)
  }

  // The rounds among the first n whose windows hold nothing.
  function EmptyRounds(times: set<int>, expire: int, chunk: int, n: nat): set<nat> {
    set i: nat | i < n && !HasData(times, expire, chunk, i)
  }

  lemma FindsNothingIff(times: set<int>, expire: int, chunk: int, i: nat)
    ensures FoundIn(times, expire, chunk, i) == {} <==> !HasData(times, expire, chunk, i)
  {
    var found := FoundIn(times, expire, chunk, i);
    forall t ensures t in found <==> t in times && InRound(expire, chunk, i, t) {
    }
    if found != {} {
      var t :| t in found;
    }
  }

  lemma NextRound(times: set<int>, expire: int, chunk: int, n: nat)
    ensures var before := EmptyRounds(times, expire, chunk, n);
            && n !in before
            && EmptyRounds(times, expire, chunk, n + 1) ==
               if HasData(times, expire, chunk, n) then before else before + {n}
  {
  }

  /** The misses counted are the rounds that find nothing, and no others. */
  lemma {:induction false} MissesAreEmptyRounds(times: set<int>, expire: int, chunk: int, n: nat)
    ensures Empties(times, expire, chunk, n) == |EmptyRounds(times, expire, chunk, n)|
  {
    if n == 0 {
      assert EmptyRounds(times, expire, chunk, 0) == {};
    } else {
      MissesAreEmptyRounds(times, expire, chunk, n - 1);
      FindsNothingIff(times, expire, chunk, n - 1);
      NextRound(times, expire, chunk, n - 1);
    }
  }

  // The window that reaches the beginning of time.
  ghost predicate IsLastWindow(expire: int, chunk: int, last: nat) {
    Low(expire, chunk, last) == 0 && forall i | 0 <= i < last :: Low(expire, chunk, i) > 0
  }

  lemma LastWindowExists(expire: int, chunk: int, i: nat) returns (last: nat)
    requires chunk > 0 && forall j | 0 <= j < i :: Low(expire, chunk, j) > 0
    ensures IsLastWindow(expire, chunk, last)
    decreases Begin(expire, chunk, i)
  {
    if Low(expire, chunk, i) == 0 {
      last := i;
    } else {
      last := LastWindowExists(expire, chunk, i + 1);
    }
  }

  lemma {:induction false} EmptiesGrow(times: set<int>, expire: int, chunk: int, m: nat, n: nat)
    requires m <= n
    ensures Empties(times, expire, chunk, m) <= Empties(times, expire, chunk, n)
  {
    if m < n {
      EmptiesGrow(times, expire, chunk, m, n - 1);
    }
  }

  /** When no query fails, the loop runs to the beginning of time exactly when fewer than
      the allowed number of windows are empty before the last one. */
  lemma {:induction false} ReachesBeginningIff(times: set<int>, expire: int, chunk: int,
                                               maxMisses: int, fails: Window -> bool, n: nat, last: nat)
    requires chunk > 0 && Rounds(times, expire, chunk, maxMisses, fails, n) && IsLastWindow(expire, chunk, last)
    requires forall w :: !fails(w)
    ensures n == last + 1 <==> |EmptyRounds(times, expire, chunk, last)| < maxMisses
    ensures n <= last + 1
  {
    MissesAreEmptyRounds(times, expire, chunk, last);
    assert n > last + 1 ==> Started(times, expire, chunk, maxMisses, fails, last + 1);
    if n <= last {
      EmptiesGrow(times, expire, chunk, n, last);
      assert n > 0 ==> Low(expire, chunk, n - 1) > 0;
    } else {
      assert Started(times, expire, chunk, maxMisses, fails, last);
    }
  }

  // The loop is still going at round i: no query failed yet and the misses were allowed.
  ghost predicate Reaches(times: set<int>, expire: int, chunk: int, maxMisses: int, fails: Window -> bool, i: nat) {
    && |EmptyRounds(times, expire, chunk, i)| < maxMisses
    && forall j | 0 <= j <= i :: !fails(WindowAt(expire, chunk, j))
  }

  // Up to the last window, the rounds done are those that are reached.
  lemma RoundDoneIff(times: set<int>, expire: int, chunk: int, maxMisses: int, fails: Window -> bool,
                     n: nat, last: nat, i: nat)
    requires chunk > 0 && Rounds(times, expire, chunk, maxMisses, fails, n) && IsLastWindow(expire, chunk, last)
    requires i <= last
    ensures i < n <==> Reaches(times, expire, chunk, maxMisses, fails, i)
  {
    MissesAreEmptyRounds(times, expire, chunk, i);
    if i < n {
      assert Started(times, expire, chunk, maxMisses, fails, i);
      forall j | 0 <= j <= i ensures !fails(WindowAt(expire, chunk, j)) {
        assert Started(times, expire, chunk, maxMisses, fails, j);
      }
    } else {
      EmptiesGrow(times, expire, chunk, n, i);
      assert n > 0 ==> Low(expire, chunk, n - 1) > 0;
    }
  }

  // A stored time at or below the start of round n belongs to some later window.
  lemma WindowOf(times: set<int>, expire: int, chunk: int, n: nat, last: nat, t: int) returns (i: nat)
    requires chunk > 0 && IsLastWindow(expire, chunk, last) && n <= last
    requires t in times && 0 <= t && if n == 0 then t <= expire else t < Low(expire, chunk, n - 1)
    ensures n <= i <= last && t in FoundIn(times, expire, chunk, i)
    decreases last - n
  {
    if t >= Low(expire, chunk, n) {
      i := n;
    } else {
      i := WindowOf(times, expire, chunk, n + 1, last, t);
    }
  }

  lemma LowNeverGrows(expire: int, chunk: int, m: nat, n: nat)
    requires chunk > 0 && m <= n
    ensures Low(expire, chunk, n) <= Low(expire, chunk, m)
  {
    if m < n {
      BeginDecreases(expire, chunk, n);
      LowNeverGrows(expire, chunk, m, n - 1);
    }
  }

  // After n rounds nothing between 0 and the expiry time remains exactly when the loop got to
  // the beginning of time, or nothing was stored before the last window it searched.
  lemma NothingRemainsIff(times: set<int>, expire: int, chunk: int, n: nat)
    requires chunk > 0
    ensures Within(Remaining(times, expire, chunk, n), 0, expire) == {} <==>
              if n == 0 then Within(times, 0, expire) == {}
              else Low(expire, chunk, n - 1) == 0 || Within(times, 0, Low(expire, chunk, n - 1) - 1) == {}
  {
    if n > 0 {
      var low := Low(expire, chunk, n - 1);
      if low > 0 {
        LowBelowExpire(expire, chunk, n - 1);
      }
      var left, before := Within(Remaining(times, expire, chunk, n), 0, expire), Within(times, 0, low - 1);
      forall t ensures t in left <==> t in before {
      }
      assert left == before;
    }
  }

  // What round i would find lies below the n rounds before it.
  lemma FoundBelow(times: set<int>, expire: int, chunk: int, n: nat, last: nat, i: nat, t: int)
    requires chunk > 0 && IsLastWindow(expire, chunk, last) && n <= i <= last
    requires t in FoundIn(times, expire, chunk, i)
    ensures t in Within(times, 0, if n == 0 then expire else Low(expire, chunk, n - 1) - 1)
  {
    if i > 0 {
      LowBelowExpire(expire, chunk, i - 1);
    }
    if n > 0 {
      LowNeverGrows(expire, chunk, n - 1, i - 1);
    }
  }

  // What remains is what the windows after the last round hold.
  lemma RemainsIff(times: set<int>, expire: int, chunk: int, n: nat, last: nat)
    requires chunk > 0 && IsLastWindow(expire, chunk, last) && n <= last + 1
    ensures Within(Remaining(times, expire, chunk, n), 0, expire) == {} <==>
              forall i | n <= i <= last :: FoundIn(times, expire, chunk, i) == {}
  {
    var below := Within(times, 0, if n == 0 then expire else Low(expire, chunk, n - 1) - 1);
    NothingRemainsIff(times, expire, chunk, n);
    if forall i | n <= i <= last :: FoundIn(times, expire, chunk, i) == {} {
      forall t ensures t !in below {
        if t in below && n <= last {
          var i := WindowOf(times, expire, chunk, n, last, t);
        }
      }
    } else {
      var i :| n <= i <= last && FoundIn(times, expire, chunk, i) != {};
      var t :| t in FoundIn(times, expire, chunk, i);
      FoundBelow(times, expire, chunk, n, last, i, t);
    }
  }

  /** Nothing between 0 and the expiry time remains exactly when every window that holds
      something comes before any failing query and after fewer empty windows than allowed. */
  lemma NothingRemainsExactlyWhen(times: set<int>, expire: int, chunk: int, maxMisses: int, fails: Window -> bool,
                          n: nat, last: nat)
    requires chunk > 0 && Rounds(times, expire, chunk, maxMisses, fails, n) && IsLastWindow(expire, chunk, last)
    ensures Within(Remaining(times, expire, chunk, n), 0, expire) == {} <==>
              forall i | 0 <= i <= last && HasData(times, expire, chunk, i) ::
                Reaches(times, expire, chunk, maxMisses, fails, i)
  {
    assert !Started(times, expire, chunk, maxMisses, fails, last + 1);
    RemainsIff(times, expire, chunk, n, last);
    forall i | 0 <= i <= last
      ensures i < n <==> Reaches(times, expire, chunk, maxMisses, fails, i)
      ensures FoundIn(times, expire, chunk, i) == {} <==> !HasData(times, expire, chunk, i)
    {
      RoundDoneIff(times, expire, chunk, maxMisses, fails, n, last, i);
      FindsNothingIff(times, expire, chunk, i);
    }
  }

  /** If fewer than the allowed number of windows are empty before the last one and no query
      fails, nothing between 0 and the expiry time remains. */
  lemma {:induction false} FewMissesLeaveNothing(times: set<int>, expire: int, chunk: int,
                                                 maxMisses: int, fails: Window -> bool, n: nat, last: nat)
    requires chunk > 0 && Rounds(times, expire, chunk, maxMisses, fails, n) && IsLastWindow(expire, chunk, last)
    requires (forall w :: !fails(w)) && |EmptyRounds(times, expire, chunk, last)| < maxMisses
    ensures Within(Remaining(times, expire, chunk, n), 0, expire) == {}
  {
    NothingRemainsExactlyWhen(times, expire, chunk, maxMisses, fails, n, last);
    forall i | 0 <= i <= last ensures Reaches(times, expire, chunk, maxMisses, fails, i) {
      EmptiesGrow(times, expire, chunk, i, last);
      MissesAreEmptyRounds(times, expire, chunk, i);
      MissesAreEmptyRounds(times, expire, chunk, last);
    }
  }

  /** Where no window before the last one is empty, a single allowed miss is enough. */
  lemma {:induction false} NoGapsLeaveNothing(times: set<int>, expire: int, chunk: int,
                                              maxMisses: int, fails: Window -> bool, n: nat, last: nat)
    requires chunk > 0 && Rounds(times, expire, chunk, maxMisses, fails, n) && IsLastWindow(expire, chunk, last)
    requires maxMisses > 0 && forall w :: !fails(w)
    requires forall i | 0 <= i < last :: HasData(times, expire, chunk, i)
    ensures Within(Remaining(times, expire, chunk, n), 0, expire) == {}
  {
    assert EmptyRounds(times, expire, chunk, last) == {};
    FewMissesLeaveNothing(times, expire, chunk, maxMisses, fails, n, last);
  }

  /** What is left after the loop: the times later than the expiry time, and those before the
      last window that was searched. */
  lemma SurvivorsAre(times: set<int>, expire: int, chunk: int, n: nat, t: int)
    ensures t in Remaining(times, expire, chunk, n) <==>
              t in times && (n == 0 || t > expire || t < WindowAt(expire, chunk, n - 1).begin)
  {
  }

  lemma {:induction false} BeginAt(expire: int, chunk: int, i: nat)
    ensures Begin(expire, chunk, i) == expire - (i + 1) * chunk
  {
    if i > 0 {
      BeginAt(expire, chunk, i - 1);
      assert (i + 1) * chunk == i * chunk + chunk;
    }
  }

  // A point at 0 in the window that starts there, with nothing in the windows above it.
  lemma {:induction false} EmptyAbove(expire: int, chunk: int, bottom: nat, i: nat)
    requires chunk > 0 && Begin(expire, chunk, bottom) == 0 && i <= bottom
    ensures Empties({0}, expire, chunk, i) == i
    ensures i < bottom ==> Begin(expire, chunk, i) > 0
  {
    if i < bottom {
      BeginFalls(expire, chunk, i, bottom);
    }
    if i > 0 {
      EmptyAbove(expire, chunk, bottom, i - 1);
      assert FoundIn({0}, expire, chunk, i - 1) == {};
    }
  }

  lemma {:induction false} BeginFalls(expire: int, chunk: int, m: nat, n: nat)
    requires chunk > 0 && m < n
    ensures Begin(expire, chunk, n) < Begin(expire, chunk, m)
  {
    BeginDecreases(expire, chunk, n);
    if m < n - 1 {
      BeginFalls(expire, chunk, m, n - 1);
    }
  }

  /** For every allowed number of misses and every chunk there is data the tool leaves behind,
      even when no query fails: a point at 0 below that many empty windows. */
  lemma OldPointIsLeftBehind(chunk: int, maxMisses: nat, fails: Window -> bool, n: nat)
    requires chunk > 0 && Rounds({0}, (maxMisses + 1) * chunk, chunk, maxMisses, fails, n)
    ensures 0 in Remaining({0}, (maxMisses + 1) * chunk, chunk, n)
  {
    var expire := (maxMisses + 1) * chunk;
    BeginAt(expire, chunk, maxMisses);
    EmptyAbove(expire, chunk, maxMisses, maxMisses);
    assert !Started({0}, expire, chunk, maxMisses, fails, maxMisses);
    if n > 0 {
      EmptyAbove(expire, chunk, maxMisses, n - 1);
    }
  }
}
