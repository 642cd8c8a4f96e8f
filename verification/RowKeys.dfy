/**
  Cassandra row keys (esmond/cassandra.py): path steps are escaped, joined with a
  delimiter, and followed by the optional frequency and year.  The splitter finds
  the delimiters that are not escaped.
*/
module RowKeys {
  import opened Wrappers
  import opened Decimals

  const DELIMITER: char := ':'
  const ESCAPE: char := '\\'

  // ---------- building ----------

  // A delimiter inside a step gets an escape before it.
  function EscapeStep(step: string): string {
    if step == "" then ""
    else if step[0] == DELIMITER then [ESCAPE, DELIMITER] + EscapeStep(step[1..])
    else [step[0]] + EscapeStep(step[1..])
  }

  function EscapePath(path: seq<string>): (escaped: seq<string>)
    ensures |escaped| == |path|
    ensures forall i | 0 <= i < |path| :: escaped[i] == EscapeStep(path[i])
  {
    if path == [] then [] else [EscapeStep(path[0])] + EscapePath(path[1..])
  }

  // The parts with a delimiter between each two.
  function Join(parts: seq<string>): string {
    if parts == [] then ""
    else if |parts| == 1 then parts[0]
    else parts[0] + [DELIMITER] + Join(parts[1..])
  }

  // An absent value and zero are both left out.
  function Appends(freq: Option<int>, year: Option<int>): seq<string> {
    (if freq.Some? && freq.value != 0 then [Decimal(freq.value)] else []) +
    (if year.Some? && year.value != 0 then [Decimal(year.value)] else [])
  }

  function GetRowkey(path: seq<string>, freq: Option<int>, year: Option<int>): string {
    Join(EscapePath(path) + Appends(freq, year))
  }

  // ---------- splitting ----------

  // Every escape is dropped.
  function Strip(s: string): string {
    if s == "" then ""
    else if s[0] == ESCAPE then Strip(s[1..])
    else [s[0]] + Strip(s[1..])
  }

  predicate IsCut(s: string, i: nat)
    requires i < |s|
  {
    s[i] == DELIMITER && (i == 0 || s[i - 1] != ESCAPE)
  }

  function FirstCut(s: string, from: nat): (j: nat)
    requires from <= |s|
    ensures from <= j <= |s|
    decreases |s| - from
  {
    if from == |s| || IsCut(s, from) then from else FirstCut(s, from + 1)
  }

  lemma {:induction false} FirstCutIsFirst(s: string, from: nat)
    requires from <= |s|
    ensures FirstCut(s, from) < |s| ==> IsCut(s, FirstCut(s, from))
    ensures forall i | from <= i < FirstCut(s, from) :: !IsCut(s, i)
    decreases |s| - from
  {
    if from < |s| && !IsCut(s, from) {
      FirstCutIsFirst(s, from + 1);
    }
  }

  lemma {:induction false} FirstCutAt(s: string, from: nat, j: nat)
    requires from <= j <= |s| && (j < |s| ==> IsCut(s, j))
    requires forall i | from <= i < j :: !IsCut(s, i)
    ensures FirstCut(s, from) == j
  {
    FirstCutIsFirst(s, from);
  }

  // Every piece but the last is unescaped.  Just after a cut the rest is split as if the
  // string began there.
  function Split(s: string): seq<string> {
    var j := FirstCut(s, 0);
    if j == |s| then [s] else [Strip(s[..j])] + Split(s[j + 1..])
  }

  // The cuts of s from a position on, in order.
  function CutsFrom(s: string, from: nat): seq<nat>
    requires from <= |s|
    decreases |s| - from
  {
    if from == |s| then []
    else if IsCut(s, from) then [from] + CutsFrom(s, from + 1)
    else CutsFrom(s, from + 1)
  }

  lemma {:induction false} CutsStartAtFirst(s: string, from: nat)
    requires from <= |s|
    ensures var j := FirstCut(s, from);
            CutsFrom(s, from) == if j == |s| then [] else [j] + CutsFrom(s, j + 1)
    decreases |s| - from
  {
    if from < |s| && !IsCut(s, from) {
      CutsStartAtFirst(s, from + 1);
    }
  }

  // The first loop of the splitter: where the delimiters that count are.
  method CutIndices(s: string) returns (indices: seq<nat>)
    ensures indices == CutsFrom(s, 0)
  {
    indices := [];
    for i := 0 to |s|
      invariant indices + CutsFrom(s, i) == CutsFrom(s, 0)
    {
      Associate(indices, [i], CutsFrom(s, i + 1));
      if s[i] == DELIMITER {
        if i > 0 && s[i - 1] != ESCAPE {
          indices := indices + [i];
        } else if i == 0 {
          indices := indices + [i];
        }
      }
    }
  }

  method SplitRowkey(s: string) returns (out: seq<string>)
    ensures out == Split(s)
  {
    var indices := CutIndices(s);
    out := [];
    var last := 0;
    assert s[0..] == s;
    for k := 0 to |indices|
      invariant last <= |s| && AtPiece(s, indices[k..], last, out)
    {
      NextPiece(s, indices, k, last, out);
      var i := indices[k];
      out := out + [Strip(s[last..i])];
      last := i + 1;
    }
    LastPiece(s, last, out);
    out := out + [s[last..]];
  }

  // Between two pieces: the cuts and the pieces still to come are those of the rest.
  ghost predicate AtPiece(s: string, ahead: seq<nat>, last: nat, out: seq<string>)
    requires last <= |s|
  {
    && (last == 0 || s[last - 1] == DELIMITER)
    && ahead == CutsFrom(s, last)
    && out + Split(s[last..]) == Split(s)
  }

  lemma NextPiece(s: string, indices: seq<nat>, k: nat, last: nat, out: seq<string>)
    requires k < |indices| && last <= |s| && AtPiece(s, indices[k..], last, out)
    ensures last <= indices[k] < |s|
    ensures AtPiece(s, indices[k + 1..], indices[k] + 1, out + [Strip(s[last..indices[k]])])
  {
    var i := indices[k];
    NextIndex(s, indices, k, last);
    SplitNext(s, last);
    Associate(out, [Strip(s[last..i])], Split(s[i + 1..]));
  }

  lemma {:induction false} LastPiece(s: string, last: nat, out: seq<string>)
    requires last <= |s| && AtPiece(s, [], last, out)
    ensures Split(s) == out + [s[last..]]
  {
    CutsStartAtFirst(s, last);
    SplitNext(s, last);
  }

  lemma {:induction false} NextIndex(s: string, indices: seq<nat>, k: nat, last: nat)
    requires last <= |s| && k < |indices| && indices[k..] == CutsFrom(s, last)
    ensures indices[k] == FirstCut(s, last) < |s|
    ensures indices[k + 1..] == CutsFrom(s, indices[k] + 1)
  {
    CutsStartAtFirst(s, last);
    assert indices[k..] == [indices[k]] + indices[k + 1..];
  }

  // Just after a delimiter, a suffix is cut where the whole string is.
  lemma {:induction false} FirstCutOfSuffix(s: string, rest: string, start: nat, last: nat)
    requires start <= last <= |s| && (start == 0 || s[start - 1] == DELIMITER) && rest == s[start..]
    ensures FirstCut(rest, last - start) == FirstCut(s, last) - start
    decreases |s| - last
  {
    if last < |s| {
      assert IsCut(rest, last - start) <==> IsCut(s, last);
      FirstCutOfSuffix(s, rest, start, last + 1);
    }
  }

  lemma SlicesOfSuffix(s: string, last: nat, j: nat)
    requires last <= j <= |s|
    ensures s[last..][..j - last] == s[last..j]
    ensures j < |s| ==> s[last..][j - last + 1..] == s[j + 1..]
  {
  }

  lemma {:induction false} SplitPiece(s: string, j: nat)
    requires j == FirstCut(s, 0)
    ensures Split(s) == if j == |s| then [s] else [Strip(s[..j])] + Split(s[j + 1..])
  {
  }

  // The first cut of the rest after a delimiter, as a piece of the whole string.
  lemma NextCut(s: string, rest: string, last: nat) returns (j: nat)
    requires last <= |s| && (last == 0 || s[last - 1] == DELIMITER) && rest == s[last..]
    ensures last <= j <= |s| && j == FirstCut(s, last) && FirstCut(rest, 0) == j - last
    ensures rest[..j - last] == s[last..j]
    ensures j < |s| ==> s[j] == DELIMITER && rest[j - last + 1..] == s[j + 1..]
  {
    j := FirstCut(s, last);
    FirstCutOfSuffix(s, rest, last, last);
    FirstCutIsFirst(s, last);
    SlicesOfSuffix(s, last, j);
  }

  lemma SplitNext(s: string, last: nat)
    requires last <= |s| && (last == 0 || s[last - 1] == DELIMITER)
    ensures var j := FirstCut(s, last);
            && Split(s[last..]) == (if j == |s| then [s[last..]] else [Strip(s[last..j])] + Split(s[j + 1..]))
            && (j < |s| ==> s[j] == DELIMITER)
  {
    var rest := s[last..];
    var j := NextCut(s, rest, last);
    SplitPiece(rest, j - last);
  }

  // In an escaped step every delimiter follows an escape.
  lemma {:induction false} EscapedDelimiters(e: string, i: nat)
    requires i < |EscapeStep(e)| && EscapeStep(e)[i] == DELIMITER
    ensures i > 0 && EscapeStep(e)[i - 1] == ESCAPE
  {
    if e[0] == DELIMITER {
      if i > 2 {
        EscapedDelimiters(e[1..], i - 2);
      } else if i == 2 {
        EscapedDelimiters(e[1..], 0);
      }
    } else {
      EscapedDelimiters(e[1..], i - 1);
    }
  }

  lemma {:induction false} StripCons(c: char, s: string)
    ensures Strip([c] + s) == if c == ESCAPE then Strip(s) else [c] + Strip(s)
  {
    assert ([c] + s)[1..] == s;
  }

  lemma {:induction false} StripEscaped(e: string)
    requires ESCAPE !in e
    ensures Strip(EscapeStep(e)) == e
  {
    if e != "" {
      var tail := EscapeStep(e[1..]);
      StripEscaped(e[1..]);
      assert e[0] != ESCAPE && e == [e[0]] + e[1..];
      StripCons(e[0], tail);
      if e[0] == DELIMITER {
        assert [ESCAPE, DELIMITER] + tail == [ESCAPE] + ([DELIMITER] + tail);
        StripCons(ESCAPE, [DELIMITER] + tail);
      }
    }
  }

  predicate EndsInEscape(e: string) {
    e != "" && e[|e| - 1] == ESCAPE
  }

  lemma {:induction false} EscapedEnd(e: string)
    ensures EndsInEscape(EscapeStep(e)) <==> EndsInEscape(e)
    ensures EscapeStep(e) == "" <==> e == ""
  {
    if |e| > 1 {
      EscapedEnd(e[1..]);
      assert e[|e| - 1] == e[1..][|e| - 2];
    } else if |e| == 1 {
      assert EscapeStep(e[1..]) == "";
    }
  }

  lemma {:induction false} StripHasNoEscape(s: string)
    ensures ESCAPE !in Strip(s)
  {
    if s != "" {
      StripHasNoEscape(s[1..]);
    }
  }

  lemma {:induction false} EscapeKeeps(e: string)
    ensures |EscapeStep(e)| >= |e|
    ensures EscapeStep(e) == e <==> DELIMITER !in e
  {
    if e != "" {
      EscapeKeeps(e[1..]);
      assert e == [e[0]] + e[1..];
      if e[0] != DELIMITER && EscapeStep(e) == e {
        assert EscapeStep(e)[1..] == EscapeStep(e[1..]);
      }
    }
  }

  // An escaped step that does not end in a backslash is cut off at the delimiter after it.
  lemma {:induction false} CutAfterStep(e: string, rest: string)
    requires !EndsInEscape(e)
    ensures FirstCut(EscapeStep(e) + [DELIMITER] + rest, 0) == |EscapeStep(e)|
  {
    var s := EscapeStep(e) + [DELIMITER] + rest;
    var n := |EscapeStep(e)|;
    EscapedEnd(e);
    assert IsCut(s, n);
    forall i: nat | i < n ensures !IsCut(s, i) {
      if EscapeStep(e)[i] == DELIMITER {
        EscapedDelimiters(e, i);
      }
    }
    FirstCutAt(s, 0, n);
  }

  lemma {:induction false} SplitFirst(e: string, rest: string)
    requires ESCAPE !in e
    ensures Split(EscapeStep(e) + [DELIMITER] + rest) == [e] + Split(rest)
  {
    var s := EscapeStep(e) + [DELIMITER] + rest;
    CutPiece(s, e, rest);
    StripEscaped(e);
  }

  lemma {:induction false} CutPiece(key: string, e: string, rest: string)
    requires !EndsInEscape(e) && key == EscapeStep(e) + [DELIMITER] + rest
    ensures var n := FirstCut(key, 0); n < |key| && key[..n] == EscapeStep(e) && key[n + 1..] == rest
  {
    CutAfterStep(e, rest);
  }

  lemma {:induction false} SplitLast(e: string)
    ensures FirstCut(EscapeStep(e), 0) == |EscapeStep(e)|
    ensures Split(EscapeStep(e)) == [EscapeStep(e)]
  {
    var s := EscapeStep(e);
    forall i: nat | i < |s| ensures !IsCut(s, i) {
      if s[i] == DELIMITER {
        EscapedDelimiters(e, i);
      }
    }
    FirstCutAt(s, 0, |s|);
  }

  lemma {:induction false} SplitStripsAllButLast(s: string)
    ensures Split(s) != []
    ensures forall i | 0 <= i < |Split(s)| - 1 :: ESCAPE !in Split(s)[i]
  {
    var j := FirstCut(s, 0);
    if j < |s| {
      StripHasNoEscape(s[..j]);
      SplitStripsAllButLast(s[j + 1..]);
    }
  }

  // What a caller must check before relying on a key being splittable again.
  predicate Splittable(elements: seq<string>) {
    && elements != []
    && (forall i | 0 <= i < |elements| - 1 :: ESCAPE !in elements[i])
    && DELIMITER !in elements[|elements| - 1]
  }

  // What splitting a joined key gives back: the last element keeps its escapes.
  function Resplit(elements: seq<string>): (r: seq<string>)
    requires elements != []
    ensures |r| == |elements|
  {
    if |elements| == 1 then [EscapeStep(elements[0])] else [elements[0]] + Resplit(elements[1..])
  }

  lemma {:induction false} ResplitSame(elements: seq<string>)
    requires elements != []
    ensures Resplit(elements) == elements <==> DELIMITER !in elements[|elements| - 1]
  {
    if |elements| == 1 {
      EscapeKeeps(elements[0]);
      assert elements == [elements[0]];
    } else {
      ResplitSame(elements[1..]);
      assert elements == [elements[0]] + elements[1..];
      assert Resplit(elements)[1..] == Resplit(elements[1..]);
    }
  }

  lemma {:induction false} SplitJoin(elements: seq<string>)
    requires elements != []
    requires forall i | 0 <= i < |elements| - 1 :: ESCAPE !in elements[i]
    ensures Split(Join(EscapePath(elements))) == Resplit(elements)
  {
    if |elements| == 1 {
      assert Join(EscapePath(elements)) == EscapeStep(elements[0]);
      SplitLast(elements[0]);
    } else {
      var rest := elements[1..];
      forall i | 0 <= i < |rest| - 1 ensures ESCAPE !in rest[i] {
        assert rest[i] == elements[i + 1];
      }
      SplitJoin(rest);
      JoinHead(elements);
      SplitFirst(elements[0], Join(EscapePath(rest)));
    }
  }

  lemma {:induction false} JoinHead(elements: seq<string>)
    requires |elements| > 1
    ensures Join(EscapePath(elements)) == EscapeStep(elements[0]) + [DELIMITER] + Join(EscapePath(elements[1..]))
  {
    assert EscapePath(elements)[1..] == EscapePath(elements[1..]);
  }

  /** Splitting a joined key gives the elements back exactly when no element but the
      last holds a backslash and the last holds no delimiter. */
  lemma {:induction false} RoundTrip(elements: seq<string>)
    requires elements != []
    ensures Split(Join(EscapePath(elements))) == elements <==> Splittable(elements)
  {
    var key := Join(EscapePath(elements));
    SplitStripsAllButLast(key);
    if forall i | 0 <= i < |elements| - 1 :: ESCAPE !in elements[i] {
      SplitJoin(elements);
      ResplitSame(elements);
    }
  }

  lemma {:induction false} RowkeyJoinsElements(path: seq<string>, freq: Option<int>, year: Option<int>)
    ensures GetRowkey(path, freq, year) == Join(EscapePath(path + Appends(freq, year)))
  {
    var appends := Appends(freq, year);
    forall i | 0 <= i < |appends| ensures EscapeStep(appends[i]) == appends[i] {
      EscapeKeeps(appends[i]);
    }
    assert EscapePath(path) + appends == EscapePath(path + appends);
  }

  lemma AppendsSplit(path: seq<string>, freq: Option<int>, year: Option<int>)
    requires Appends(freq, year) != []
    ensures Splittable(path + Appends(freq, year)) <==> forall i | 0 <= i < |path| :: ESCAPE !in path[i]
  {
    var elements, appends := path + Appends(freq, year), Appends(freq, year);
    assert forall i | 0 <= i < |appends| :: elements[|path| + i] == appends[i];
    assert forall i | 0 <= i < |path| :: elements[i] == path[i];
  }

  /** A row key splits into its path, frequency and year; with a frequency or a year
      present, backslash-free steps are enough. */
  lemma RowkeyRoundTrip(path: seq<string>, freq: Option<int>, year: Option<int>)
    requires path + Appends(freq, year) != []
    ensures Split(GetRowkey(path, freq, year)) == path + Appends(freq, year)
            <==> Splittable(path + Appends(freq, year))
    ensures Appends(freq, year) != [] ==>
              (Splittable(path + Appends(freq, year)) <==> forall i | 0 <= i < |path| :: ESCAPE !in path[i])
  {
    RowkeyJoinsElements(path, freq, year);
    RoundTrip(path + Appends(freq, year));
    if Appends(freq, year) != [] {
      AppendsSplit(path, freq, year);
    }
  }

  // ---------- when keys are unique ----------

  // No delimiter added between two elements looks escaped.
  predicate KeepsDelimiters(elements: seq<string>) {
    elements != [] && forall i | 0 <= i < |elements| - 1 :: !EndsInEscape(elements[i])
  }

  lemma {:induction false} EscapeInjective(a: string, b: string)
    requires EscapeStep(a) == EscapeStep(b)
    ensures a == b
  {
    if a != "" && b != "" {
      NoLeadingDelimiter(a[1..]);
      NoLeadingDelimiter(b[1..]);
      assert a[0] == b[0] && EscapeStep(a[1..]) == EscapeStep(b[1..]) by {
        EscapedTail(a);
        EscapedTail(b);
      }
      EscapeInjective(a[1..], b[1..]);
      assert a == [a[0]] + a[1..] && b == [b[0]] + b[1..];
    }
  }

  lemma {:induction false} NoLeadingDelimiter(e: string)
    ensures EscapeStep(e) != "" ==> EscapeStep(e)[0] != DELIMITER
  {
    if EscapeStep(e) != "" && EscapeStep(e)[0] == DELIMITER {
      EscapedDelimiters(e, 0);
    }
  }

  // What follows the escaped first character.
  lemma {:induction false} EscapedTail(e: string)
    requires e != ""
    ensures var s := EscapeStep(e);
            if e[0] == DELIMITER then s[0] == ESCAPE && |s| > 1 && s[1] == DELIMITER && s[2..] == EscapeStep(e[1..])
            else s[0] == e[0] && s[1..] == EscapeStep(e[1..])
  {
  }

  lemma {:induction false} JoinSingle(e: string)
    ensures Join(EscapePath([e])) == EscapeStep(e)
  {
  }

  // The first cut of a joined key ends its first element.
  lemma {:induction false} FirstCutOfJoin(elements: seq<string>, key: string)
    requires KeepsDelimiters(elements) && key == Join(EscapePath(elements))
    ensures key[..FirstCut(key, 0)] == EscapeStep(elements[0])
    ensures FirstCut(key, 0) == |key| <==> |elements| == 1
    ensures |elements| > 1 ==> key[FirstCut(key, 0) + 1..] == Join(EscapePath(elements[1..]))
  {
    if |elements| == 1 {
      assert elements == [elements[0]];
      JoinSingle(elements[0]);
      SplitLast(elements[0]);
    } else {
      var rest := Join(EscapePath(elements[1..]));
      assert key == EscapeStep(elements[0]) + [DELIMITER] + rest by {
        JoinHead(elements);
      }
      CutPiece(key, elements[0], rest);
    }
  }

  lemma {:induction false} JoinInjective(a: seq<string>, b: seq<string>)
    requires KeepsDelimiters(a) && KeepsDelimiters(b)
    requires Join(EscapePath(a)) == Join(EscapePath(b))
    ensures a == b
  {
    var key := Join(EscapePath(a));
    FirstCutOfJoin(a, key);
    FirstCutOfJoin(b, key);
    EscapeInjective(a[0], b[0]);
    assert a == [a[0]] + a[1..] && b == [b[0]] + b[1..];
    if |a| > 1 {
      JoinInjective(a[1..], b[1..]);
    }
  }

  /** Row keys are injective on all element lists in which no element but the last ends in a
      backslash, whatever colons and other backslashes they hold. */
  lemma RowkeysInjective(path: seq<string>, freq: Option<int>, year: Option<int>,
                         path': seq<string>, freq': Option<int>, year': Option<int>)
    requires KeepsDelimiters(path + Appends(freq, year)) && KeepsDelimiters(path' + Appends(freq', year'))
    requires GetRowkey(path, freq, year) == GetRowkey(path', freq', year')
    ensures path + Appends(freq, year) == path' + Appends(freq', year')
  {
    RowkeyJoinsElements(path, freq, year);
    RowkeyJoinsElements(path', freq', year');
    JoinInjective(path + Appends(freq, year), path' + Appends(freq', year'));
  }

  // What stands for one character in an escaped step.
  function EscapedChar(c: char): string {
    if c == DELIMITER then [ESCAPE, DELIMITER] else [c]
  }

  lemma {:induction false} EscapeHead(e: string, head: char, tail: string)
    requires e == [head] + tail
    ensures EscapeStep(e) == EscapedChar(head) + EscapeStep(tail)
  {
    assert e[1..] == tail;
  }

  lemma {:induction false} EscapeConcat(a: string, b: string)
    ensures EscapeStep(a + b) == EscapeStep(a) + EscapeStep(b)
  {
    if a == "" {
      assert a + b == b;
    } else {
      var head, tail := a[0], a[1..];
      EscapeConcat(tail, b);
      assert EscapeStep(a) == EscapedChar(head) + EscapeStep(tail) by {
        EscapeHead(a, head, tail);
      }
      assert EscapeStep(a + b) == EscapedChar(head) + EscapeStep(tail + b) by {
        assert a == [head] + tail;
        Associate([head], tail, b);
        EscapeHead(a + b, head, tail + b);
      }
      Associate(EscapedChar(head), EscapeStep(tail), EscapeStep(b));
    }
  }

  // A backslash at the end of an element escapes the delimiter after it.
  function Fused(elements: seq<string>, i: nat): seq<string>
    requires i + 1 < |elements| && EndsInEscape(elements[i])
  {
    elements[..i] + [elements[i][..|elements[i]| - 1] + [DELIMITER] + elements[i + 1]] + elements[i + 2..]
  }

  lemma {:induction false} FusedEscape(e: string, next: string)
    requires EndsInEscape(e)
    ensures EscapeStep(e[..|e| - 1] + [DELIMITER] + next) == EscapeStep(e) + [DELIMITER] + EscapeStep(next)
  {
    var start := e[..|e| - 1];
    assert e == start + [ESCAPE];
    EscapeConcat(start, [ESCAPE]);
    EscapeConcat(start + [DELIMITER], next);
    EscapeConcat(start, [DELIMITER]);
    assert EscapeStep([ESCAPE][1..]) == "" && EscapeStep([DELIMITER][1..]) == "";
    assert EscapeStep([ESCAPE]) == [ESCAPE] && EscapeStep([DELIMITER]) == [ESCAPE, DELIMITER];
    assert EscapeStep(start) + [ESCAPE, DELIMITER] == EscapeStep(start) + [ESCAPE] + [DELIMITER];
  }

  // The same key after a common first element.
  lemma {:induction false} SameTail(a: seq<string>, b: seq<string>)
    requires |a| > 1 && |b| > 1 && a[0] == b[0]
    requires Join(EscapePath(a[1..])) == Join(EscapePath(b[1..]))
    ensures Join(EscapePath(a)) == Join(EscapePath(b))
  {
    JoinHead(a);
    JoinHead(b);
  }

  lemma FusedTail(elements: seq<string>, i: nat)
    requires 0 < i && i + 1 < |elements| && EndsInEscape(elements[i])
    ensures Fused(elements, i)[0] == elements[0]
    ensures Fused(elements, i)[1..] == Fused(elements[1..], i - 1)
  {
    var tail := elements[1..];
    assert tail[i - 1] == elements[i] && tail[i] == elements[i + 1];
    assert tail[..i - 1] == elements[..i][1..] && tail[i + 1..] == elements[i + 2..];
  }

  // What follows an element in a joined key.
  function After(rest: seq<string>): string {
    if rest == [] then "" else [DELIMITER] + Join(EscapePath(rest))
  }

  lemma {:induction false} JoinCons(e: string, rest: seq<string>)
    ensures Join(EscapePath([e] + rest)) == EscapeStep(e) + After(rest)
  {
    if rest == [] {
      assert [e] + rest == [e];
      JoinSingle(e);
    } else {
      JoinHead([e] + rest);
      assert ([e] + rest)[1..] == rest;
      Associate(EscapeStep(e), [DELIMITER], Join(EscapePath(rest)));
    }
  }

  lemma {:induction false} FusedHead(e: string, next: string, rest: seq<string>)
    requires EndsInEscape(e)
    ensures Join(EscapePath([e] + ([next] + rest)))
            == Join(EscapePath([e[..|e| - 1] + [DELIMITER] + next] + rest))
  {
    var (x, y, after) := (EscapeStep(e), EscapeStep(next), After(rest));
    FusedEscape(e, next);
    JoinCons(e[..|e| - 1] + [DELIMITER] + next, rest);
    JoinCons(next, rest);
    JoinCons(e, [next] + rest);
    Reassociate(x, y, after);
  }

  lemma Reassociate(x: string, y: string, after: string)
    ensures x + ([DELIMITER] + (y + after)) == (x + [DELIMITER] + y) + after
  {
  }

  /** Every other list shares its key with a shorter one: an element before the last that ends
      in a backslash is joined to the next as if they were one element with a colon. */
  lemma {:induction false} TrailingEscapeCollides(elements: seq<string>, i: nat)
    requires i + 1 < |elements| && EndsInEscape(elements[i])
    ensures Join(EscapePath(elements)) == Join(EscapePath(Fused(elements, i)))
    ensures |Fused(elements, i)| < |elements|
  {
    if i == 0 {
      assert elements == [elements[0]] + ([elements[1]] + elements[2..]);
      FusedHead(elements[0], elements[1], elements[2..]);
      assert elements[..0] == [];
    } else {
      TrailingEscapeCollides(elements[1..], i - 1);
      FusedTail(elements, i);
      SameTail(elements, Fused(elements, i));
    }
  }

  /** Two paths that really share their row keys, at any frequency and year. */
  lemma PathsThatCollide(freq: Option<int>, year: Option<int>)
    ensures GetRowkey(["a\\", "b"], freq, year) == GetRowkey(["a:b"], freq, year)
  {
    var appends := Appends(freq, year);
    RowkeyJoinsElements(["a\\", "b"], freq, year);
    RowkeyJoinsElements(["a:b"], freq, year);
    FusedHead("a\\", "b", appends);
    assert "a\\"[..1] + [DELIMITER] + "b" == "a:b";
    assert ["a\\"] + (["b"] + appends) == ["a\\", "b"] + appends;
  }

  // ---------- what a row key says ----------

  // A frequency or year that is there.
  predicate Given(n: Option<int>) {
    n.Some? && n.value != 0
  }

  /** A row key splits into its path and exactly the decimals that were given, the frequency
      before the year, when no step has a backslash. */
  lemma {:induction false} RowkeyParts(path: seq<string>, freq: Option<int>, year: Option<int>)
    requires forall i | 0 <= i < |path| :: ESCAPE !in path[i]
    ensures freq.Some? && year.Some? && freq.value != 0 && year.value != 0 ==>
              Split(GetRowkey(path, freq, year)) == path + [Decimal(freq.value), Decimal(year.value)]
    ensures freq.Some? && freq.value != 0 && (year.None? || year.value == 0) ==>
              Split(GetRowkey(path, freq, year)) == path + [Decimal(freq.value)]
    ensures (freq.None? || freq.value == 0) && year.Some? && year.value != 0 ==>
              Split(GetRowkey(path, freq, year)) == path + [Decimal(year.value)]
    ensures (freq.None? || freq.value == 0) && (year.None? || year.value == 0) && path != []
            && DELIMITER !in path[|path| - 1] ==>
              Split(GetRowkey(path, freq, year)) == path
  {
    var appends := Appends(freq, year);
    if path + appends != [] {
      RowkeyRoundTrip(path, freq, year);
      assert appends == [] ==> path + appends == path;
    }
    if Given(freq) && Given(year) {
      assert appends == [Decimal(freq.value), Decimal(year.value)];
    }
  }

  lemma {:induction false} DecimalInjective(m: int, n: int)
    requires Decimal(m) == Decimal(n)
    ensures m == n
  {
    DecimalIff(Decimal(m), m);
    DecimalIff(Decimal(m), n);
  }

  /** One path and frequency has a row of its own for every year. */
  lemma {:induction false} YearsHaveOwnRows(path: seq<string>, freq: Option<int>, year: int, year': int)
    requires forall i | 0 <= i < |path| :: ESCAPE !in path[i]
    requires year != 0 && year' != 0 && GetRowkey(path, freq, Some(year)) == GetRowkey(path, freq, Some(year'))
    ensures year == year'
  {
    RowkeyParts(path, freq, Some(year));
    RowkeyParts(path, freq, Some(year'));
    var parts, parts' := Split(GetRowkey(path, freq, Some(year))), Split(GetRowkey(path, freq, Some(year')));
    assert parts[|parts| - 1] == Decimal(year) && parts'[|parts'| - 1] == Decimal(year');
    DecimalInjective(year, year');
  }

  /** And two frequencies of one path share no row. */
  lemma {:induction false} FrequenciesHaveOwnRows(path: seq<string>, freq: Option<int>, freq': Option<int>, year: int)
    requires forall i | 0 <= i < |path| :: ESCAPE !in path[i]
    requires year != 0 && GetRowkey(path, freq, Some(year)) == GetRowkey(path, freq', Some(year))
    ensures (freq.Some? && freq.value != 0) || (freq'.Some? && freq'.value != 0) ==> freq == freq'
  {
    RowkeyParts(path, freq, Some(year));
    RowkeyParts(path, freq', Some(year));
    if Given(freq) && Given(freq') {
      var parts := Split(GetRowkey(path, freq, Some(year)));
      assert parts[|path|] == Decimal(freq.value) == Decimal(freq'.value);
      DecimalInjective(freq.value, freq'.value);
    } else if Given(freq) || Given(freq') {
      assert |path + [Decimal(year)]| == |path| + 1;
    }
  }
}
