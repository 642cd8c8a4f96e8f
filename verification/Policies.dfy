/**
  Retention policies (util/ps_remove_data.py): the nested dictionary built from the
  configured policies, and the backtracking lookup that picks one for an event type.
*/
module Policies {
  import opened Wrappers
  import opened Decimals
  import opened EventTypes

  // A JSON key: only text can equal an attribute, which is looked up as a string.
  datatype Key = Text(s: string) | Number(n: int)

  const ANY: Key := Text("*")

  datatype Expire = Never | Days(n: int)

  // A configured policy as read: match fields and the action, any of which may be unusable.
  datatype Entry = Entry(fields: seq<Option<Key>>, expire: Option<ExpireValue>)

  datatype ExpireValue = ValidExpire(e: Expire) | NotAnInteger

  datatype ConfigError = MissingField(position: nat) | InvalidValue(position: nat) | MissingExpire | InvalidExpire

  // One level of the dictionary per match field, and the action at the bottom.
  datatype Trie = Leaf(expire: Expire) | Node(children: map<Key, Trie>)

  const EMPTY: Trie := Node(map[])

  datatype Policy = Policy(path: seq<Key>, expire: Expire)

  // ---------- building ----------

  function Insert(t: Trie, path: seq<Key>, e: Expire): Trie
    decreases |path|
  {
    if path == [] then Leaf(e)
    else
      var children := if t.Node? then t.children else map[];
      var child := if path[0] in children then children[path[0]] else EMPTY;
      Node(children[path[0] := Insert(child, path[1..], e)])
  }

  function Build(ps: seq<Policy>): Trie {
    if ps == [] then EMPTY else Insert(Build(ps[..|ps| - 1]), ps[|ps| - 1].path, ps[|ps| - 1].expire)
  }

  // The first field that is missing or has a value that is not allowed.
  function CheckFields(fields: seq<Option<Key>>, valid: seq<Key -> bool>, i: nat): (r: Result<seq<Key>, ConfigError>)
    requires |fields| == |valid| && i <= |valid|
    ensures r.Success? ==> |r.value| == |valid| - i
    decreases |valid| - i
  {
    if i == |valid| then Success([])
    else
      match fields[i]
      case None => Failure(MissingField(i + 1))
      case Some(key) =>
        if key != ANY && !valid[i](key) then Failure(InvalidValue(i + 1))
        else
          match CheckFields(fields, valid, i + 1)
          case Failure(error) => Failure(error)
          case Success(rest) => Success([key] + rest)
  }

  function Check(entry: Entry, valid: seq<Key -> bool>): (r: Result<Policy, ConfigError>)
    requires |entry.fields| == |valid|
    ensures r.Success? ==> |r.value.path| == |valid|
  {
    match CheckFields(entry.fields, valid, 0)
    case Failure(error) => Failure(error)
    case Success(path) =>
      match entry.expire
      case None => Failure(MissingExpire)
      case Some(NotAnInteger) => Failure(InvalidExpire)
      case Some(ValidExpire(e)) => Success(Policy(path, e))
  }

  function CheckAll(entries: seq<Entry>, valid: seq<Key -> bool>): (r: Result<seq<Policy>, ConfigError>)
    requires forall entry | entry in entries :: |entry.fields| == |valid|
    ensures r.Success? ==> |r.value| == |entries| && forall p | p in r.value :: |p.path| == |valid|
  {
    if entries == [] then Success([])
    else
      match CheckAll(entries[..|entries| - 1], valid)
      case Failure(error) => Failure(error)
      case Success(ps) =>
        match Check(entries[|entries| - 1], valid)
        case Failure(error) => Failure(error)
        case Success(p) => Success(ps + [p])
  }

  class PolicyTable {
    var policies: Trie

    constructor ()
      ensures policies == EMPTY
    {
      policies := EMPTY;
    }

    // The loop over the configured policies; the first unusable one ends the program.
    method Load(entries: seq<Entry>, valid: seq<Key -> bool>) returns (error: Option<ConfigError>)
      requires policies == EMPTY
      requires forall entry | entry in entries :: |entry.fields| == |valid|
      modifies this
      ensures match CheckAll(entries, valid)
              case Failure(e) => error == Some(e)
              case Success(ps) => error == None && policies == Build(ps)
    {
      ghost var ps: seq<Policy> := [];
      for i := 0 to |entries|
        invariant CheckAll(entries[..i], valid) == Success(ps) && policies == Build(ps)
      {
        assert entries[..i + 1][..i] == entries[..i];
        match Check(entries[i], valid) {
          case Failure(e) =>
            FirstFailureStays(entries, valid, i);
            return Some(e);
          case Success(p) =>
            policies := Insert(policies, p.path, p.expire);
            assert (ps + [p])[..|ps|] == ps;
            ps := ps + [p];
        }
      }
      assert entries[..|entries|] == entries;
      error := None;
    }
  }

  lemma {:induction false} FirstFailureStays(entries: seq<Entry>, valid: seq<Key -> bool>, i: nat)
    requires forall entry | entry in entries :: |entry.fields| == |valid|
    requires i < |entries| && CheckAll(entries[..i], valid).Success? && Check(entries[i], valid).Failure?
    ensures CheckAll(entries, valid) == Failure(Check(entries[i], valid).error)
  {
    var n := |entries| - 1;
    if i < n {
      assert entries[..n][..i] == entries[..i];
      FirstFailureStays(entries[..n], valid, i);
    }
  }

  // ---------- what is accepted ----------

  // A field that is there and has the wildcard or a value that is allowed.
  predicate FieldAccepted(fields: seq<Option<Key>>, valid: seq<Key -> bool>, i: nat)
    requires i < |fields| == |valid|
  {
    fields[i].Some? && (fields[i].value == Text("*") || valid[i](fields[i].value))
  }

  lemma {:induction false} FieldsChecked(fields: seq<Option<Key>>, valid: seq<Key -> bool>, i: nat)
    requires |fields| == |valid| && i <= |valid|
    ensures match CheckFields(fields, valid, i)
            case Success(path) =>
              && |path| == |valid| - i
              && forall j | i <= j < |valid| :: FieldAccepted(fields, valid, j) && path[j - i] == fields[j].value
            case Failure(error) =>
              exists j | i <= j < |valid| ::
                && !FieldAccepted(fields, valid, j) && (forall k | i <= k < j :: FieldAccepted(fields, valid, k))
                && error == if fields[j].None? then MissingField(j + 1) else InvalidValue(j + 1)
    decreases |valid| - i
  {
    if i < |valid| {
      FieldsChecked(fields, valid, i + 1);
      if FieldAccepted(fields, valid, i) && CheckFields(fields, valid, i + 1).Failure? {
        var error := CheckFields(fields, valid, i + 1).error;
        var j :| i + 1 <= j < |valid| && !FieldAccepted(fields, valid, j)
          && (forall k | i + 1 <= k < j :: FieldAccepted(fields, valid, k))
          && error == if fields[j].None? then MissingField(j + 1) else InvalidValue(j + 1);
        assert forall k | i <= k < j :: FieldAccepted(fields, valid, k);
      }
    }
  }

  predicate EntryAccepted(entry: Entry, valid: seq<Key -> bool>)
    requires |entry.fields| == |valid|
  {
    && (forall j | 0 <= j < |valid| :: FieldAccepted(entry.fields, valid, j))
    && entry.expire.Some? && entry.expire.value.ValidExpire?
  }

  // The policy says what the entry says.
  predicate Reads(policy: Policy, entry: Entry) {
    && |policy.path| == |entry.fields| && entry.expire == Some(ValidExpire(policy.expire))
    && forall j | 0 <= j < |policy.path| :: entry.fields[j] == Some(policy.path[j])
  }

  /** A configured policy is accepted exactly when every match field is there with the wildcard or
      an allowed value, and its action is there and usable; it then reads as configured.
      Otherwise the first unusable field is reported, or the action when all fields are usable. */
  lemma {:induction false} AcceptedAsConfigured(entry: Entry, valid: seq<Key -> bool>)
    requires |entry.fields| == |valid|
    ensures match Check(entry, valid)
            case Success(policy) => EntryAccepted(entry, valid) && Reads(policy, entry)
            case Failure(error) =>
              || (exists j | 0 <= j < |valid| ::
                    && !FieldAccepted(entry.fields, valid, j)
                    && (forall k | 0 <= k < j :: FieldAccepted(entry.fields, valid, k))
                    && error == if entry.fields[j].None? then MissingField(j + 1) else InvalidValue(j + 1))
              || ((forall j | 0 <= j < |valid| :: FieldAccepted(entry.fields, valid, j))
                  && if entry.expire.None? then error == MissingExpire
                     else error == InvalidExpire && entry.expire.value.NotAnInteger?)
  {
    FieldsChecked(entry.fields, valid, 0);
  }

  /** All policies are accepted exactly when each is, and the trie is then built of what they say
      in listed order; otherwise the first that is refused is reported. */
  lemma {:induction false} LoadsAsConfigured(entries: seq<Entry>, valid: seq<Key -> bool>)
    requires forall entry | entry in entries :: |entry.fields| == |valid|
    ensures match CheckAll(entries, valid)
            case Success(ps) =>
              && |ps| == |entries|
              && forall i | 0 <= i < |ps| :: EntryAccepted(entries[i], valid) && Reads(ps[i], entries[i])
            case Failure(error) =>
              exists i | 0 <= i < |entries| ::
                && Check(entries[i], valid) == Failure(error)
                && forall k | 0 <= k < i :: EntryAccepted(entries[k], valid)
  {
    if entries != [] {
      var n := |entries| - 1;
      var before := entries[..n];
      LoadsAsConfigured(before, valid);
      AcceptedAsConfigured(entries[n], valid);
      assert forall k | 0 <= k < n :: before[k] == entries[k];
      match CheckAll(before, valid) {
        case Success(ps) =>
          assert forall k | 0 <= k < n :: EntryAccepted(entries[k], valid);
        case Failure(error) =>
          var i :| 0 <= i < n && Check(before[i], valid) == Failure(error)
            && forall k | 0 <= k < i :: EntryAccepted(before[k], valid);
          assert entries[i] == before[i];
      }
    }
  }

  // ---------- lookup ----------

  function GetPolicy(attrs: seq<string>, t: Trie): Option<Expire>
    decreases |attrs|
  {
    if attrs == [] then (match t case Leaf(e) => Some(e) case Node(_) => None)
    else
      var children := if t.Node? then t.children else map[];
      var exact := if Text(attrs[0]) in children then GetPolicy(attrs[1..], children[Text(attrs[0])]) else None;
      if exact.None? && ANY in children then GetPolicy(attrs[1..], children[ANY]) else exact
  }

  // ---------- what the lookup should find ----------

  predicate Exact(key: Key, attr: string) {
    key == Text(attr)
  }

  predicate Matches(path: seq<Key>, attrs: seq<string>) {
    |path| == |attrs| && forall i | 0 <= i < |path| :: Exact(path[i], attrs[i]) || path[i] == ANY
  }

  // The first field where two matching policies differ in exactness favours the exact one.
  ghost predicate MoreSpecific(path: seq<Key>, other: seq<Key>, attrs: seq<string>)
    requires |path| == |other| == |attrs|
  {
    exists i | 0 <= i < |attrs| ::
      && Exact(path[i], attrs[i]) && !Exact(other[i], attrs[i])
      && forall j | 0 <= j < i :: Exact(path[j], attrs[j]) <==> Exact(other[j], attrs[j])
  }

  // Policy k wins among those that start with the given keys: every other match is less
  // specific, or has the same fields and is listed earlier.
  ghost predicate Wins(ps: seq<Policy>, attrs: seq<string>, start: seq<Key>, k: nat) {
    && k < |ps| && start <= ps[k].path && Matches(ps[k].path, attrs)
    && forall j | 0 <= j < |ps| && j != k && start <= ps[j].path && Matches(ps[j].path, attrs) ::
         MoreSpecific(ps[k].path, ps[j].path, attrs) || (ps[j].path == ps[k].path && j < k)
  }

  // ---------- the shape of the trie ----------

  predicate Depth(t: Trie, n: nat) {
    n > 0 ==> t.Node? && forall key | key in t.children :: Depth(t.children[key], n - 1)
  }

  function Walk(t: Trie, path: seq<Key>): Option<Trie>
    decreases |path|
  {
    if path == [] then Some(t)
    else if t.Node? && path[0] in t.children then Walk(t.children[path[0]], path[1..])
    else None
  }

  lemma {:induction false} InsertDepth(t: Trie, path: seq<Key>, e: Expire)
    requires Depth(t, |path|)
    ensures Depth(Insert(t, path, e), |path|)
    decreases |path|
  {
    if path != [] {
      var child := if path[0] in t.children then t.children[path[0]] else EMPTY;
      InsertDepth(child, path[1..], e);
    }
  }

  // Inserting a path adds its own prefixes and leaves the rest alone.
  lemma {:induction false} WalkInsert(t: Trie, path: seq<Key>, e: Expire, to: seq<Key>)
    requires Depth(t, |path|) && |to| <= |path|
    ensures if to == path then Walk(Insert(t, path, e), to) == Some(Leaf(e))
            else if to <= path then Walk(Insert(t, path, e), to).Some?
            else Walk(Insert(t, path, e), to) == Walk(t, to)
    decreases |path|
  {
    if path != [] && to != [] {
      var child := if path[0] in t.children then t.children[path[0]] else EMPTY;
      if to[0] == path[0] {
        WalkInsert(child, path[1..], e, to[1..]);
        assert to <= path <==> to[1..] <= path[1..] by {
          assert to == [to[0]] + to[1..] && path == [path[0]] + path[1..];
        }
        assert to == path <==> to[1..] == path[1..];
      }
    }
  }

  lemma {:induction false} WalkNext(t: Trie, path: seq<Key>, key: Key)
    ensures Walk(t, path + [key]) ==
            match Walk(t, path)
            case Some(Node(children)) => if key in children then Some(children[key]) else None
            case _ => None
    decreases |path|
  {
    if path == [] {
      assert ([] + [key])[1..] == [];
    } else {
      assert (path + [key])[1..] == path[1..] + [key];
      if t.Node? && path[0] in t.children {
        WalkNext(t.children[path[0]], path[1..], key);
      }
    }
  }

  lemma {:induction false} WalkDepth(t: Trie, path: seq<Key>, n: nat)
    requires Depth(t, n) && |path| < n && Walk(t, path).Some?
    ensures Walk(t, path).value.Node?
    decreases |path|
  {
    if path != [] {
      WalkDepth(t.children[path[0]], path[1..], n - 1);
    }
  }

  ghost predicate SameLength(ps: seq<Policy>, n: nat) {
    forall i | 0 <= i < |ps| :: |ps[i].path| == n
  }

  lemma {:induction false} BuildDepth(ps: seq<Policy>, n: nat)
    requires SameLength(ps, n)
    ensures Depth(Build(ps), n)
  {
    if ps != [] {
      BuildDepth(ps[..|ps| - 1], n);
      InsertDepth(Build(ps[..|ps| - 1]), ps[|ps| - 1].path, ps[|ps| - 1].expire);
    }
  }

  // A node is there exactly when some policy passes through it.
  lemma {:induction false} WalkBuild(ps: seq<Policy>, n: nat, to: seq<Key>)
    requires SameLength(ps, n) && |to| <= n && to != []
    ensures Walk(Build(ps), to).Some? <==> exists i | 0 <= i < |ps| :: to <= ps[i].path
  {
    if ps != [] {
      var last := ps[|ps| - 1];
      var rest := ps[..|ps| - 1];
      BuildDepth(rest, n);
      WalkBuild(rest, n, to);
      WalkInsert(Build(rest), last.path, last.expire, to);
      if i :| 0 <= i < |rest| && to <= rest[i].path {
        assert to <= ps[i].path;
      }
      if i :| 0 <= i < |ps| && to <= ps[i].path {
        assert i < |rest| ==> to <= rest[i].path;
      }
    }
  }

  // The bottom of a path holds the action of the last policy listed with it.
  lemma {:induction false} LeafBuild(ps: seq<Policy>, n: nat, path: seq<Key>) returns (k: nat)
    requires SameLength(ps, n) && |path| == n && exists i | 0 <= i < |ps| :: ps[i].path == path
    ensures k < |ps| && ps[k].path == path && forall i | k < i < |ps| :: ps[i].path != path
    ensures Walk(Build(ps), path) == Some(Leaf(ps[k].expire))
  {
    var last := ps[|ps| - 1];
    var rest := ps[..|ps| - 1];
    BuildDepth(rest, n);
    WalkInsert(Build(rest), last.path, last.expire, path);
    if last.path == path {
      k := |ps| - 1;
    } else {
      var i :| 0 <= i < |ps| && ps[i].path == path;
      assert rest[i].path == path;
      k := LeafBuild(rest, n, path);
      assert path <= last.path ==> path == last.path;
    }
  }

  // ---------- the lookup ----------

  // A lookup below a node finds the winner among the policies that pass through the node.
  lemma {:induction false} LookupBelow(ps: seq<Policy>, attrs: seq<string>, start: seq<Key>) returns (k: Option<nat>)
    requires SameLength(ps, |attrs|) && |start| <= |attrs| && Walk(Build(ps), start).Some?
    requires start == [] ==> attrs != []
    requires Matches(start, attrs[..|start|])
    ensures GetPolicy(attrs[|start|..], Walk(Build(ps), start).value) ==
            if k.Some? && k.value < |ps| then Some(ps[k.value].expire) else None
    ensures k.None? ==> forall j | 0 <= j < |ps| && start <= ps[j].path :: !Matches(ps[j].path, attrs)
    ensures k.Some? ==> Wins(ps, attrs, start, k.value)
    decreases |attrs| - |start|
  {
    var n, d := |attrs|, |start|;
    var t := Walk(Build(ps), start).value;
    if d == n {
      WalkBuild(ps, n, start);
      var i :| 0 <= i < |ps| && start <= ps[i].path;
      assert ps[i].path == start;
      var l := LeafBuild(ps, n, start);
      k := Some(l);
      assert attrs[..n] == attrs;
      LastOfSamePathWins(ps, attrs, start, l);
    } else {
      BuildDepth(ps, n);
      WalkDepth(Build(ps), start, n);
      assert attrs[d..][1..] == attrs[d + 1..] && attrs[d..][0] == attrs[d];
      var exact := LookupChild(ps, attrs, start, Text(attrs[d]));
      if exact.Some? {
        k := exact;
        ExactWins(ps, attrs, start, k.value);
      } else {
        k := LookupChild(ps, attrs, start, ANY);
        OnlyWildcards(ps, attrs, start, k);
      }
    }
  }

  lemma {:induction false} LookupChild(ps: seq<Policy>, attrs: seq<string>, start: seq<Key>, key: Key)
    returns (k: Option<nat>)
    requires SameLength(ps, |attrs|) && |start| < |attrs| && Walk(Build(ps), start).Some?
    requires Matches(start, attrs[..|start|]) && (Exact(key, attrs[|start|]) || key == ANY)
    requires Walk(Build(ps), start).value.Node?
    ensures var children := Walk(Build(ps), start).value.children;
            (if key in children then GetPolicy(attrs[|start| + 1..], children[key]) else None) ==
            if k.Some? && k.value < |ps| then Some(ps[k.value].expire) else None
    ensures k.None? ==> forall j | 0 <= j < |ps| && start + [key] <= ps[j].path :: !Matches(ps[j].path, attrs)
    ensures k.Some? ==> Wins(ps, attrs, start + [key], k.value)
    decreases |attrs| - |start|, 0
  {
    var next := start + [key];
    WalkNext(Build(ps), start, key);
    if Walk(Build(ps), next).Some? {
      assert Matches(next, attrs[..|next|]) by {
        forall i | 0 <= i < |next| ensures Exact(next[i], attrs[..|next|][i]) || next[i] == ANY {
          if i < |start| {
            assert next[i] == start[i] && attrs[..|next|][i] == attrs[..|start|][i];
          }
        }
      }
      k := LookupBelow(ps, attrs, next);
    } else {
      WalkBuild(ps, |attrs|, next);
      k := None;
    }
  }

  lemma LastOfSamePathWins(ps: seq<Policy>, attrs: seq<string>, start: seq<Key>, k: nat)
    requires SameLength(ps, |attrs|) && |start| == |attrs| && k < |ps| && ps[k].path == start && Matches(start, attrs)
    requires forall i | k < i < |ps| :: ps[i].path != start
    ensures Wins(ps, attrs, start, k)
  {
    forall j | 0 <= j < |ps| && j != k && start <= ps[j].path ensures ps[j].path == ps[k].path && j < k {
    }
  }

  // Keys given by the start count as exact or not for all policies alike.
  lemma ExactWins(ps: seq<Policy>, attrs: seq<string>, start: seq<Key>, k: nat)
    requires SameLength(ps, |attrs|) && |start| < |attrs|
    requires Wins(ps, attrs, start + [Text(attrs[|start|])], k)
    ensures Wins(ps, attrs, start, k)
  {
    var d := |start|;
    var next := start + [Text(attrs[d])];
    var best := ps[k].path;
    assert best[..d] == next[..d] == start && best[d] == next[d];
    forall j | 0 <= j < |ps| && j != k && start <= ps[j].path && Matches(ps[j].path, attrs)
      ensures MoreSpecific(best, ps[j].path, attrs) || (ps[j].path == best && j < k)
    {
      var other := ps[j].path;
      if other[d] == Text(attrs[d]) {
        assert other[..d + 1] == next;
      } else {
        assert forall i | 0 <= i < d :: best[i] == start[i] == other[i];
        assert Exact(best[d], attrs[d]) && !Exact(other[d], attrs[d]);
      }
    }
  }

  lemma OnlyWildcards(ps: seq<Policy>, attrs: seq<string>, start: seq<Key>, k: Option<nat>)
    requires SameLength(ps, |attrs|) && |start| < |attrs|
    requires forall j | 0 <= j < |ps| && start + [Text(attrs[|start|])] <= ps[j].path :: !Matches(ps[j].path, attrs)
    requires k.None? ==> forall j | 0 <= j < |ps| && start + [ANY] <= ps[j].path :: !Matches(ps[j].path, attrs)
    requires k.Some? ==> Wins(ps, attrs, start + [ANY], k.value)
    ensures k.None? ==> forall j | 0 <= j < |ps| && start <= ps[j].path :: !Matches(ps[j].path, attrs)
    ensures k.Some? ==> Wins(ps, attrs, start, k.value)
  {
    var d := |start|;
    forall j | 0 <= j < |ps| && start <= ps[j].path && Matches(ps[j].path, attrs)
      ensures start + [ANY] <= ps[j].path
    {
      var other := ps[j].path;
      assert Exact(other[d], attrs[d]) || other[d] == ANY;
      assert other[..d + 1] == start + [other[d]];
    }
    if k.Some? {
      var best := ps[k.value].path;
      assert best[..d] == (start + [ANY])[..d] == start;
    }
  }

  /** The lookup returns the action of the last-listed policy among the matching ones with the
      lexicographically greatest exactness, field by field, and nothing exactly when no
      policy matches. */
  lemma LookupFindsMostSpecific(ps: seq<Policy>, attrs: seq<string>) returns (k: Option<nat>)
    requires SameLength(ps, |attrs|) && attrs != []
    ensures GetPolicy(attrs, Build(ps)) == if k.Some? && k.value < |ps| then Some(ps[k.value].expire) else None
    ensures k.None? <==> forall j | 0 <= j < |ps| :: !Matches(ps[j].path, attrs)
    ensures k.Some? ==>
              && k.value < |ps| && Matches(ps[k.value].path, attrs)
              && forall j | 0 <= j < |ps| && j != k.value && Matches(ps[j].path, attrs) ::
                   MoreSpecific(ps[k.value].path, ps[j].path, attrs) || (ps[j].path == ps[k.value].path && j < k.value)
  {
    assert attrs[0..] == attrs && attrs[..0] == [];
    k := LookupBelow(ps, attrs, []);
    assert forall j | 0 <= j < |ps| :: [] <= ps[j].path;
  }

  /** Between two different matching policies one is always the more specific, never both. */
  lemma SpecificityIsTotal(path: seq<Key>, other: seq<Key>, attrs: seq<string>)
    requires Matches(path, attrs) && Matches(other, attrs) && path != other
    ensures MoreSpecific(path, other, attrs) <==> !MoreSpecific(other, path, attrs)
  {
    var i := FirstDifference(path, other);
    assert Exact(path[i], attrs[i]) <==> !Exact(other[i], attrs[i]);
    if Exact(path[i], attrs[i]) {
      assert MoreSpecific(path, other, attrs);
      assert !MoreSpecific(other, path, attrs);
    } else {
      assert MoreSpecific(other, path, attrs);
      assert !MoreSpecific(path, other, attrs);
    }
  }

  ghost function FirstDifference(path: seq<Key>, other: seq<Key>): (i: nat)
    requires |path| == |other| && path != other
    ensures i < |path| && path[i] != other[i] && path[..i] == other[..i]
    ensures forall j | 0 <= j < i :: path[j] == other[j]
  {
    if path[0] != other[0] then 0
    else
      assert path == [path[0]] + path[1..] && other == [other[0]] + other[1..];
      var i := FirstDifference(path[1..], other[1..]);
      assert forall j | 0 <= j < i :: path[j + 1] == path[1..][j] == other[1..][j] == other[j + 1];
      i + 1
  }

  // ---------- which policies can match ----------

  // The window is stored in a 64-bit column.
  predicate InColumn(window: int) {
    -0x8000_0000_0000_0000 <= window < 0x8000_0000_0000_0000
  }

  // The match fields of an event type, most significant first, as text.
  function Attributes(et: EventType): seq<string> {
    [et.name, et.summary, Decimal(et.window)]
  }

  // An event type that the archive can hold.
  predicate Holdable(catalog: Catalog, et: EventType) {
    Registrable(catalog, et) && InColumn(et.window)
  }

  predicate Fits(key: Key, attr: string) {
    Exact(key, attr) || key == ANY
  }

  // A window key that some window of the summary matches.
  predicate WindowFits(key: Key, summary: string) {
    || key == ANY
    || (key.Text? && IsDecimal(key.s) && InColumn(Value(key.s)) && (summary == BASE ==> Value(key.s) == 0))
  }

  // What can be read off a configured policy and the configured event types.
  predicate Usable(path: seq<Key>, catalog: Catalog) {
    && |path| == 3
    && exists name | name in catalog :: Fits(path[0], name) &&
         exists summary | summary in SUMMARIES ::
           && (summary == BASE || summary in catalog[name])
           && Fits(path[1], summary) && WindowFits(path[2], summary)
  }

  lemma MatchesFields(path: seq<Key>, et: EventType)
    ensures Matches(path, Attributes(et)) <==>
              |path| == 3 && Fits(path[0], et.name) && Fits(path[1], et.summary) && Fits(path[2], Decimal(et.window))
  {
    var attrs := Attributes(et);
    assert attrs[0] == et.name && attrs[1] == et.summary && attrs[2] == Decimal(et.window);
  }

  lemma OnlyUsableMatch(path: seq<Key>, catalog: Catalog, et: EventType)
    requires Holdable(catalog, et) && Matches(path, Attributes(et))
    ensures Usable(path, catalog)
  {
    MatchesFields(path, et);
    assert WindowFits(path[2], et.summary) by {
      if path[2] != ANY {
        DecimalIff(path[2].s, et.window);
      }
    }
    assert et.summary in SUMMARIES;
  }

  lemma UsableMatches(path: seq<Key>, catalog: Catalog) returns (et: EventType)
    requires Usable(path, catalog)
    ensures Holdable(catalog, et) && Matches(path, Attributes(et))
  {
    var name :| name in catalog && Fits(path[0], name) &&
      exists summary | summary in SUMMARIES ::
        && (summary == BASE || summary in catalog[name])
        && Fits(path[1], summary) && WindowFits(path[2], summary);
    var summary :| summary in SUMMARIES
      && (summary == BASE || summary in catalog[name])
      && Fits(path[1], summary) && WindowFits(path[2], summary);
    et := EventType(name, summary, if path[2] == ANY then 0 else Value(path[2].s));
    if path[2] != ANY {
      DecimalIff(path[2].s, et.window);
    }
    MatchesFields(path, et);
  }

  /** Some event type that the archive can hold matches a policy exactly when a configured event
      type and one of its summaries fit the names, and the window is the wildcard or the canonical
      decimal of a window that summary can have, which for base is 0 alone. */
  lemma {:induction false} MatchesSomethingIff(path: seq<Key>, catalog: Catalog)
    ensures (exists et: EventType :: Holdable(catalog, et) && Matches(path, Attributes(et))) <==> Usable(path, catalog)
  {
    if Usable(path, catalog) {
      var et := UsableMatches(path, catalog);
    } else if et: EventType :| Holdable(catalog, et) && Matches(path, Attributes(et)) {
      OnlyUsableMatch(path, catalog, et);
    }
  }

  // A policy is ignored for whatever the archive holds.
  ghost predicate Ignored(policy: Policy, catalog: Catalog) {
    forall et | Holdable(catalog, et) :: GetPolicy(Attributes(et), Build([policy])) == None
  }

  /** On its own, a policy is ignored for all that the archive can hold exactly when it is not usable. */
  lemma {:induction false} IgnoredIff(policy: Policy, catalog: Catalog)
    requires |policy.path| == 3
    ensures Ignored(policy, catalog) <==> !Usable(policy.path, catalog)
  {
    forall et | Holdable(catalog, et)
      ensures GetPolicy(Attributes(et), Build([policy])) == None <==> !Matches(policy.path, Attributes(et))
    {
      var k := LookupFindsMostSpecific([policy], Attributes(et));
    }
    if Usable(policy.path, catalog) {
      var et := UsableMatches(policy.path, catalog);
    } else {
      forall et | Holdable(catalog, et) ensures !Matches(policy.path, Attributes(et)) {
        if Matches(policy.path, Attributes(et)) {
          OnlyUsableMatch(policy.path, catalog, et);
        }
      }
    }
  }

  lemma DayInDecimal()
    ensures Decimal(86400) == "86400"
  {
    assert Digits(86) == "8" + ['6'];
    assert Digits(8640) == Digits(864) + ['0'] == (Digits(86) + ['4']) + ['0'];
  }

  // Three policies that look as if they matched the summaries of one day.
  function DayPolicies(): seq<seq<Key>> {
    [[ANY, ANY, Number(86400)], [ANY, ANY, Text("086400")], [ANY, Text(BASE), Text("86400")]]
  }

  lemma DayPoliciesNotUsable(path: seq<Key>, catalog: Catalog)
    requires path in DayPolicies()
    ensures !Usable(path, catalog)
  {
    DayInDecimal();
    DecimalIff("86400", 86400);
    assert ANY.s != BASE;
    if path == [ANY, Text(BASE), Text("86400")] {
      forall summary | summary in SUMMARIES && Fits(path[1], summary) ensures !WindowFits(path[2], summary) {
        assert summary == BASE;
      }
    }
  }

  // A policy whose fields all pass the checks of the configuration.
  function EntryOf(path: seq<Key>, expire: Expire): Entry {
    Entry(seq(|path|, i requires 0 <= i < |path| => Some(path[i])), Some(ValidExpire(expire)))
  }

  lemma {:induction false} FieldsAccepted(path: seq<Key>, valid: seq<Key -> bool>, expire: Expire, i: nat)
    requires |path| == |valid| && i <= |path| && forall j | 0 <= j < |path| :: path[j] == ANY || valid[j](path[j])
    ensures CheckFields(EntryOf(path, expire).fields, valid, i) == Success(path[i..])
    decreases |path| - i
  {
    if i < |path| {
      FieldsAccepted(path, valid, expire, i + 1);
      assert [path[i]] + path[i + 1..] == path[i..];
    }
  }

  /** Three policies that pass the checks of the configuration and are ignored for everything the
      archive can hold: a day as a JSON number, with a leading zero, and as a window of base. */
  lemma {:induction false} AcceptedButIgnored(path: seq<Key>, valid: seq<Key -> bool>, expire: Expire, catalog: Catalog)
    requires path in DayPolicies() && |valid| == 3 && forall j | 0 <= j < 3 :: path[j] == ANY || valid[j](path[j])
    ensures Check(EntryOf(path, expire), valid) == Success(Policy(path, expire))
    ensures Ignored(Policy(path, expire), catalog)
  {
    FieldsAccepted(path, valid, expire, 0);
    assert path[0..] == path;
    DayPoliciesNotUsable(path, catalog);
    IgnoredIff(Policy(path, expire), catalog);
  }
}
