/**
  The event types a metadata post registers (deserialize_event_types in
  esmond/api/perfsonar/api_v2.py): each posted event type with its base entry and summaries.
*/
module EventTypes {
  import opened Wrappers

  // One registered entry; the window is in seconds.
  datatype EventType = EventType(name: string, summary: string, window: int)

  // The configured event types, each with the summaries its data type allows.
  type Catalog = map<string, set<string>>

  const BASE: string := "base"
  const SUMMARIES: set<string> := {"base", "aggregation", "statistics", "average"}

  // What a post says about a field: nothing, or a value of the expected kind or of another.
  datatype Window = NoWindow | NotAnInteger | Seconds(n: int)

  datatype PostedSummary = PostedSummary(summary: Option<string>, window: Window)

  datatype PostedEventType = PostedEventType(name: Option<string>, summaries: seq<PostedSummary>)

  datatype ParseError =
    | NoEventType | InvalidEventType(name: string)
    | NoSummaryType | InvalidSummaryType(summary: string) | SummaryNotAllowed(summary: string)
    | NoSummaryWindow | WindowMustBeInteger

  // The entry of one posted summary; a base summary adds none.
  function Entry(name: string, allowed: set<string>, s: PostedSummary): Result<seq<EventType>, ParseError> {
    match s.summary
    case None => Failure(NoSummaryType)
    case Some(summary) =>
      if summary !in SUMMARIES then Failure(InvalidSummaryType(summary))
      else if summary == BASE then Success([])
      else if summary !in allowed then Failure(SummaryNotAllowed(summary))
      else
        match s.window
        case NoWindow => Failure(NoSummaryWindow)
        case NotAnInteger => Failure(WindowMustBeInteger)
        case Seconds(n) => Success([EventType(name, summary, n)])
  }

  function Entries(name: string, allowed: set<string>, ss: seq<PostedSummary>): Result<seq<EventType>, ParseError> {
    if ss == [] then Success([])
    else
      var before :- Entries(name, allowed, ss[..|ss| - 1]);
      var last :- Entry(name, allowed, ss[|ss| - 1]);
      Success(before + last)
  }

  function Deserialized(catalog: Catalog, posted: seq<PostedEventType>): Result<seq<EventType>, ParseError> {
    if posted == [] then Success([])
    else
      var before :- Deserialized(catalog, posted[..|posted| - 1]);
      var last :- DeserializedOne(catalog, posted[|posted| - 1]);
      Success(before + last)
  }

  function DeserializedOne(catalog: Catalog, p: PostedEventType): Result<seq<EventType>, ParseError> {
    match p.name
    case None => Failure(NoEventType)
    case Some(name) =>
      if name !in catalog then Failure(InvalidEventType(name))
      else
        var summaries :- Entries(name, catalog[name], p.summaries);
        Success([EventType(name, BASE, 0)] + summaries)
  }

  method DeserializeEventTypes(catalog: Catalog, posted: seq<PostedEventType>)
    returns (r: Result<seq<EventType>, ParseError>)
    ensures r == Deserialized(catalog, posted)
  {
    var entries: seq<EventType> := [];
    for i := 0 to |posted|
      invariant Deserialized(catalog, posted[..i]) == Success(entries)
    {
      assert posted[..i + 1][..i] == posted[..i];
      var one := DeserializeOne(catalog, posted[i]);
      if one.Failure? {
        FirstErrorStays(catalog, posted, i);
        return one;
      }
      entries := entries + one.value;
    }
    assert posted[..|posted|] == posted;
    r := Success(entries);
  }

  method DeserializeOne(catalog: Catalog, p: PostedEventType) returns (r: Result<seq<EventType>, ParseError>)
    ensures r == DeserializedOne(catalog, p)
  {
    if p.name.None? {
      return Failure(NoEventType);
    } else if p.name.value !in catalog {
      return Failure(InvalidEventType(p.name.value));
    }
    var name, allowed := p.name.value, catalog[p.name.value];
    var entries := [];
    for i := 0 to |p.summaries|
      invariant Entries(name, allowed, p.summaries[..i]) == Success(entries)
    {
      assert p.summaries[..i + 1][..i] == p.summaries[..i];
      var entry := Entry(name, allowed, p.summaries[i]);
      if entry.Failure? {
        FirstEntryErrorStays(name, allowed, p.summaries, i);
        return entry;
      }
      entries := entries + entry.value;
    }
    assert p.summaries[..|p.summaries|] == p.summaries;
    r := Success([EventType(name, BASE, 0)] + entries);
  }

  lemma {:induction false} FirstErrorStays(catalog: Catalog, posted: seq<PostedEventType>, i: nat)
    requires i < |posted| && Deserialized(catalog, posted[..i]).Success? && DeserializedOne(catalog, posted[i]).Failure?
    ensures Deserialized(catalog, posted) == DeserializedOne(catalog, posted[i])
  {
    var n := |posted| - 1;
    if i < n {
      assert posted[..n][..i] == posted[..i];
      FirstErrorStays(catalog, posted[..n], i);
    }
  }

  lemma {:induction false} FirstEntryErrorStays(name: string, allowed: set<string>, ss: seq<PostedSummary>, i: nat)
    requires i < |ss| && Entries(name, allowed, ss[..i]).Success? && Entry(name, allowed, ss[i]).Failure?
    ensures Entries(name, allowed, ss) == Entry(name, allowed, ss[i])
  {
    var n := |ss| - 1;
    if i < n {
      assert ss[..n][..i] == ss[..i];
      FirstEntryErrorStays(name, allowed, ss[..n], i);
    }
  }

  // ---------- what can be registered ----------

  // A configured event type with its base entry at window 0, or with a summary it allows.
  predicate Registrable(catalog: Catalog, et: EventType) {
    && et.name in catalog
    && if et.summary == BASE then et.window == 0 else et.summary in SUMMARIES && et.summary in catalog[et.name]
  }

  lemma {:induction false} EntriesRegistrable(catalog: Catalog, name: string, ss: seq<PostedSummary>, et: EventType)
    requires name in catalog && Entries(name, catalog[name], ss).Success?
    requires et in Entries(name, catalog[name], ss).value
    ensures et.name == name && Registrable(catalog, et) && et.summary != BASE
  {
    var n := |ss| - 1;
    if et in Entries(name, catalog[name], ss[..n]).value {
      EntriesRegistrable(catalog, name, ss[..n], et);
    } else {
      assert et in Entry(name, catalog[name], ss[n]).value;
    }
  }

  lemma {:induction false} OnlyRegistrable(catalog: Catalog, posted: seq<PostedEventType>, et: EventType)
    requires Deserialized(catalog, posted).Success? && et in Deserialized(catalog, posted).value
    ensures Registrable(catalog, et)
    ensures EventType(et.name, BASE, 0) in Deserialized(catalog, posted).value
  {
    var n := |posted| - 1;
    if et in Deserialized(catalog, posted[..n]).value {
      OnlyRegistrable(catalog, posted[..n], et);
    } else {
      var p := posted[n];
      assert et in DeserializedOne(catalog, p).value;
      assert EventType(p.name.value, BASE, 0) in DeserializedOne(catalog, p).value;
      if et != EventType(p.name.value, BASE, 0) {
        EntriesRegistrable(catalog, p.name.value, p.summaries, et);
      }
    }
  }

  /** An entry is registered by some post exactly when its event type is configured and it is the
      base entry, with window 0, or a summary that the event type's data type allows. */
  lemma {:induction false} RegistrableIff(catalog: Catalog, et: EventType)
    ensures (exists posted | Deserialized(catalog, posted).Success? :: et in Deserialized(catalog, posted).value)
            <==> Registrable(catalog, et)
  {
    if posted :| Deserialized(catalog, posted).Success? && et in Deserialized(catalog, posted).value {
      OnlyRegistrable(catalog, posted, et);
    }
    if Registrable(catalog, et) {
      var summary := PostedSummary(Some(et.summary), Seconds(et.window));
      var p := PostedEventType(Some(et.name), [summary]);
      OneSummary(catalog, et.name, summary);
      assert Deserialized(catalog, [p]) == Success([] + DeserializedOne(catalog, p).value) by {
        assert [p][..0] == [];
        assert Deserialized(catalog, []) == Success([]);
      }
      assert et in Deserialized(catalog, [p]).value;
    }
  }

  lemma {:induction false} OneSummary(catalog: Catalog, name: string, s: PostedSummary)
    requires name in catalog && Entry(name, catalog[name], s).Success?
    ensures Entries(name, catalog[name], [s]) == Success([] + Entry(name, catalog[name], s).value)
  {
    assert [s][..0] == [];
    assert Entries(name, catalog[name], []) == Success([]);
  }

  /** Every event type of a post comes with its base entry, and base has no other window. */
  lemma {:induction false} BaseAlwaysRegistered(catalog: Catalog, posted: seq<PostedEventType>, et: EventType)
    requires Deserialized(catalog, posted).Success? && et in Deserialized(catalog, posted).value
    ensures EventType(et.name, BASE, 0) in Deserialized(catalog, posted).value
    ensures et.summary == BASE ==> et.window == 0
  {
    OnlyRegistrable(catalog, posted, et);
  }

  // ---------- which entries a post registers ----------

  // Some posted summary asks for this entry.
  predicate AsksFor(ss: seq<PostedSummary>, summary: string, window: int) {
    exists j | 0 <= j < |ss| :: ss[j] == PostedSummary(Some(summary), Seconds(window))
  }

  // A posted summary that is accepted: base, which adds nothing, or an allowed one with a window.
  predicate SummaryAccepted(allowed: set<string>, s: PostedSummary) {
    && s.summary.Some?
    && (|| s.summary.value == "base"
        || (&& s.summary.value in {"aggregation", "statistics", "average"} && s.summary.value in allowed
            && s.window.Seconds?))
  }

  predicate PostAccepted(catalog: Catalog, p: PostedEventType) {
    && p.name.Some? && p.name.value in catalog
    && forall j | 0 <= j < |p.summaries| :: SummaryAccepted(catalog[p.name.value], p.summaries[j])
  }

  lemma {:induction false} EntriesAre(name: string, allowed: set<string>, ss: seq<PostedSummary>, et: EventType)
    ensures Entries(name, allowed, ss).Success? <==> forall j | 0 <= j < |ss| :: SummaryAccepted(allowed, ss[j])
    ensures Entries(name, allowed, ss).Success? ==>
              (et in Entries(name, allowed, ss).value <==>
                 et.name == name && et.summary != "base" && AsksFor(ss, et.summary, et.window))
  {
    if ss != [] {
      var n := |ss| - 1;
      EntriesAre(name, allowed, ss[..n], et);
      assert forall j | 0 <= j < n :: ss[..n][j] == ss[j];
      OneEntry(name, allowed, ss[n], et);
      assert AsksFor(ss, et.summary, et.window) <==>
             AsksFor(ss[..n], et.summary, et.window) || ss[n] == PostedSummary(Some(et.summary), Seconds(et.window));
    }
  }

  lemma OneEntry(name: string, allowed: set<string>, s: PostedSummary, et: EventType)
    ensures Entry(name, allowed, s).Success? <==> SummaryAccepted(allowed, s)
    ensures Entry(name, allowed, s).Success? ==>
              (et in Entry(name, allowed, s).value <==>
                 et.name == name && et.summary != "base" && s == PostedSummary(Some(et.summary), Seconds(et.window)))
  {
  }

  // This posted event type registers the entry.
  predicate Registers(p: PostedEventType, et: EventType) {
    && p.name == Some(et.name)
    && if et.summary == "base" then et.window == 0 else AsksFor(p.summaries, et.summary, et.window)
  }

  lemma {:induction false} OnePost(catalog: Catalog, p: PostedEventType, et: EventType)
    ensures DeserializedOne(catalog, p).Success? <==> PostAccepted(catalog, p)
    ensures DeserializedOne(catalog, p).Success? ==> (et in DeserializedOne(catalog, p).value <==> Registers(p, et))
  {
    if p.name.Some? && p.name.value in catalog {
      EntriesAre(p.name.value, catalog[p.name.value], p.summaries, et);
    }
  }

  /** A post is accepted exactly when every event type in it is configured and every summary is base
      or an allowed one with an integer window; it then registers the base entries of its event
      types and the entries its summaries ask for, and nothing else. */
  lemma {:induction false} RegistersExactly(catalog: Catalog, posted: seq<PostedEventType>, et: EventType)
    ensures Deserialized(catalog, posted).Success? <==>
              forall i | 0 <= i < |posted| :: PostAccepted(catalog, posted[i])
    ensures Deserialized(catalog, posted).Success? ==>
              (et in Deserialized(catalog, posted).value <==> exists i | 0 <= i < |posted| :: Registers(posted[i], et))
  {
    if posted != [] {
      var n := |posted| - 1;
      RegistersExactly(catalog, posted[..n], et);
      assert forall i | 0 <= i < n :: posted[..n][i] == posted[i];
      OnePost(catalog, posted[n], et);
    }
  }

  /** What a refused summary is told, in order of precedence: its type is missing, unknown or not
      allowed, or its window is missing or not an integer. */
  lemma SummaryErrors(name: string, allowed: set<string>, s: PostedSummary, error: ParseError)
    requires Entry(name, allowed, s) == Failure(error)
    ensures error == NoSummaryType <==> s.summary.None?
    ensures error.InvalidSummaryType? <==>
              s.summary.Some? && s.summary.value !in {"base", "aggregation", "statistics", "average"}
    ensures error.SummaryNotAllowed? <==>
              && s.summary.Some? && s.summary.value in {"aggregation", "statistics", "average"}
              && s.summary.value !in allowed
    ensures error == NoSummaryWindow <==>
              && s.summary.Some? && s.summary.value in {"aggregation", "statistics", "average"}
              && s.summary.value in allowed && s.window.NoWindow?
    ensures error == WindowMustBeInteger <==>
              && s.summary.Some? && s.summary.value in {"aggregation", "statistics", "average"}
              && s.summary.value in allowed && s.window.NotAnInteger?
  {
  }

  /** The error reported is that of the first event type that is refused, and for a configured one
      that of its first refused summary. */
  lemma {:induction false} FirstErrorReported(catalog: Catalog, posted: seq<PostedEventType>, i: nat)
    requires i < |posted| && !PostAccepted(catalog, posted[i])
    requires forall k | 0 <= k < i :: PostAccepted(catalog, posted[k])
    ensures Deserialized(catalog, posted) == DeserializedOne(catalog, posted[i])
    ensures posted[i].name.None? ==> DeserializedOne(catalog, posted[i]) == Failure(NoEventType)
    ensures posted[i].name.Some? && posted[i].name.value !in catalog ==>
              DeserializedOne(catalog, posted[i]) == Failure(InvalidEventType(posted[i].name.value))
    ensures posted[i].name.Some? && posted[i].name.value in catalog ==>
              var (name, ss) := (posted[i].name.value, posted[i].summaries);
              forall j | 0 <= j < |ss| && !SummaryAccepted(catalog[name], ss[j])
                         && forall k | 0 <= k < j :: SummaryAccepted(catalog[name], ss[k]) ::
                DeserializedOne(catalog, posted[i]) == Entry(name, catalog[name], ss[j])
  {
    var et := EventType("", "", 0);
    assert forall k | 0 <= k < i :: posted[..i][k] == posted[k];
    RegistersExactly(catalog, posted[..i], et);
    OnePost(catalog, posted[i], et);
    FirstErrorStays(catalog, posted, i);
    if posted[i].name.Some? && posted[i].name.value in catalog {
      var (name, ss) := (posted[i].name.value, posted[i].summaries);
      forall j | 0 <= j < |ss| && !SummaryAccepted(catalog[name], ss[j])
                 && forall k | 0 <= k < j :: SummaryAccepted(catalog[name], ss[k])
        ensures DeserializedOne(catalog, posted[i]) == Entry(name, catalog[name], ss[j])
      {
        FirstSummaryError(name, catalog[name], ss, j);
      }
    }
  }

  lemma {:induction false} FirstSummaryError(name: string, allowed: set<string>, ss: seq<PostedSummary>, j: nat)
    requires j < |ss| && !SummaryAccepted(allowed, ss[j])
    requires forall k | 0 <= k < j :: SummaryAccepted(allowed, ss[k])
    ensures Entries(name, allowed, ss) == Entry(name, allowed, ss[j]) && Entry(name, allowed, ss[j]).Failure?
  {
    var et := EventType("", "", 0);
    assert forall k | 0 <= k < j :: ss[..j][k] == ss[k];
    EntriesAre(name, allowed, ss[..j], et);
    OneEntry(name, allowed, ss[j], et);
    FirstEntryErrorStays(name, allowed, ss, j);
  }
}
