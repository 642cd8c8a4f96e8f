/**
  Registering measurement metadata (ArchiveSerializer.calculate_checksum and create in
  esmond/api/perfsonar/api_v2.py): a canonical string of the posted object is hashed, and a
  post whose hash is known returns the object registered first.
*/
module Registry {
  import opened Sorting
  import opened Wrappers

  datatype Field = Field(key: string, value: string)

  datatype EventType = EventType(name: string, summary: string, window: string)

  datatype Metadata = Metadata(subjectType: string, subject: seq<Field>, parameters: seq<Field>,
                               eventTypes: seq<EventType>)

  // str.lower() and the hash function
  datatype Text = Text(lower: string -> string, digest: string -> string)

  // ---------- the orders ----------

  // Strings compare by code point, position by position.
  predicate StringLe(a: string, b: string) {
    if a == "" then true
    else if b == "" then false
    else if a[0] != b[0] then a[0] < b[0]
    else StringLe(a[1..], b[1..])
  }

  lemma {:induction false} StringLeTotal(a: string, b: string)
    ensures StringLe(a, b) || StringLe(b, a)
    ensures StringLe(a, b) && StringLe(b, a) ==> a == b
  {
    if a != "" && b != "" {
      StringLeTotal(a[1..], b[1..]);
      assert a == [a[0]] + a[1..] && b == [b[0]] + b[1..];
    }
  }

  lemma {:induction false} StringLeTransitive(a: string, b: string, c: string)
    requires StringLe(a, b) && StringLe(b, c)
    ensures StringLe(a, c)
  {
    if a != "" && b != "" && c != "" {
      if a[0] == b[0] == c[0] {
        StringLeTransitive(a[1..], b[1..], c[1..]);
      }
    }
  }

  predicate ByKey(a: Field, b: Field) {
    StringLe(a.key, b.key)
  }

  predicate ByAll(a: EventType, b: EventType) {
    if a.name != b.name then StringLe(a.name, b.name)
    else if a.summary != b.summary then StringLe(a.summary, b.summary)
    else StringLe(a.window, b.window)
  }

  lemma ByKeyOrders()
    ensures TotalPreorder(ByKey)
  {
    forall a, b ensures ByKey(a, b) || ByKey(b, a) {
      StringLeTotal(a.key, b.key);
    }
    forall a, b, c | ByKey(a, b) && ByKey(b, c) ensures ByKey(a, c) {
      StringLeTransitive(a.key, b.key, c.key);
    }
  }

  lemma ByAllTotal(a: EventType, b: EventType)
    ensures ByAll(a, b) || ByAll(b, a)
    ensures ByAll(a, b) && ByAll(b, a) ==> a == b
  {
    StringLeTotal(a.name, b.name);
    StringLeTotal(a.summary, b.summary);
    StringLeTotal(a.window, b.window);
  }

  lemma ByAllTransitive(a: EventType, b: EventType, c: EventType)
    requires ByAll(a, b) && ByAll(b, c)
    ensures ByAll(a, c)
  {
    if a.name == b.name && b.name == c.name {
      if a.summary == b.summary && b.summary == c.summary {
        StringLeTransitive(a.window, b.window, c.window);
      } else if StringLe(a.summary, b.summary) && StringLe(b.summary, c.summary) {
        StringLeTransitive(a.summary, b.summary, c.summary);
        StringLeTotal(a.summary, b.summary);
      }
    } else if StringLe(a.name, b.name) && StringLe(b.name, c.name) {
      StringLeTransitive(a.name, b.name, c.name);
      StringLeTotal(a.name, b.name);
    }
  }

  lemma ByAllOrders()
    ensures TotalPreorder(ByAll)
  {
    forall a, b ensures ByAll(a, b) || ByAll(b, a) {
      ByAllTotal(a, b);
    }
    forall a, b, c | ByAll(a, b) && ByAll(b, c) ensures ByAll(a, c) {
      ByAllTransitive(a, b, c);
    }
  }

  // The first place where two texts differ decides; a text comes after its beginnings.
  ghost predicate Before(a: string, b: string) {
    a <= b || exists k | 0 <= k < |a| && k < |b| :: a[..k] == b[..k] && a[k] < b[k]
  }

  lemma {:induction false} StringLeIff(a: string, b: string)
    ensures StringLe(a, b) <==> Before(a, b)
  {
    if a != "" && b != "" {
      var x, y := a[1..], b[1..];
      assert a == [a[0]] + x && b == [b[0]] + y;
      if a[0] == b[0] {
        StringLeIff(x, y);
        SameStart(a[0], x, y);
      } else {
        assert a[..0] == b[..0];
        assert forall k | 0 < k < |a| && k < |b| :: a[..k][0] == a[0] && b[..k][0] == b[0];
      }
    }
  }

  lemma SameStart(c: char, x: string, y: string)
    ensures Before([c] + x, [c] + y) <==> Before(x, y)
  {
    var a, b := [c] + x, [c] + y;
    assert a <= b <==> x <= y by {
      assert a[1..] == x && b[1..] == y;
      assert x <= y ==> a == b[..|a|];
    }
    if k :| 0 <= k < |x| && k < |y| && x[..k] == y[..k] && x[k] < y[k] {
      assert a[..k + 1] == [c] + x[..k] && b[..k + 1] == [c] + y[..k];
      assert a[k + 1] < b[k + 1];
    }
    if k :| 0 <= k < |a| && k < |b| && a[..k] == b[..k] && a[k] < b[k] {
      assert k > 0;
      assert x[..k - 1] == a[..k][1..] && y[..k - 1] == b[..k][1..];
    }
  }

  /** Fields are hashed in ascending order of their keys; event types in that of their names, for
      equal names of their summaries, and then of their windows. */
  lemma {:induction false} HashedInOrder(fields: seq<Field>, es: seq<EventType>)
    ensures multiset(Sort(fields, ByKey)) == multiset(fields) && multiset(Sort(es, ByAll)) == multiset(es)
    ensures forall i, j | 0 <= i < j < |Sort(fields, ByKey)| ::
              Before(Sort(fields, ByKey)[i].key, Sort(fields, ByKey)[j].key)
    ensures forall i, j | 0 <= i < j < |Sort(es, ByAll)| ::
              var (a, b) := (Sort(es, ByAll)[i], Sort(es, ByAll)[j]);
              if a.name != b.name then Before(a.name, b.name)
              else if a.summary != b.summary then Before(a.summary, b.summary)
              else Before(a.window, b.window)
  {
    ByKeyOrders();
    ByAllOrders();
    SortSorts(fields, ByKey);
    SortSorts(es, ByAll);
    forall a: string, b: string ensures StringLe(a, b) <==> Before(a, b) {
      StringLeIff(a, b);
    }
    var s, r := Sort(fields, ByKey), Sort(es, ByAll);
    forall i, j | 0 <= i < j < |s| ensures Before(s[i].key, s[j].key) {
      assert ByKey(s[i], s[j]);
    }
    forall i, j | 0 <= i < j < |r|
      ensures if r[i].name != r[j].name then Before(r[i].name, r[j].name)
              else if r[i].summary != r[j].summary then Before(r[i].summary, r[j].summary)
              else Before(r[i].window, r[j].window)
    {
      assert ByAll(r[i], r[j]);
    }
  }

  // ---------- the checksum ----------

  function FieldText(f: Field, text: Text): string {
    "," + text.lower(f.key) + "::" + text.lower(f.value)
  }

  function EventTypeText(e: EventType, text: Text): string {
    "," + text.lower(e.name) + "::" + text.lower(e.summary) + "::" + text.lower(e.window)
  }

  function FieldTexts(fields: seq<Field>, text: Text): string {
    if fields == [] then "" else FieldTexts(fields[..|fields| - 1], text) + FieldText(fields[|fields| - 1], text)
  }

  function EventTypeTexts(es: seq<EventType>, text: Text): string {
    if es == [] then "" else EventTypeTexts(es[..|es| - 1], text) + EventTypeText(es[|es| - 1], text)
  }

  // The bytes that are hashed.
  function Canonical(m: Metadata, text: Text): string {
    "subject-type::" + text.lower(m.subjectType)
    + FieldTexts(Sort(m.subject, ByKey), text)
    + FieldTexts(Sort(m.parameters, ByKey), text)
    + EventTypeTexts(Sort(m.eventTypes, ByAll), text)
  }

  method CalculateChecksum(m: Metadata, text: Text) returns (checksum: string)
    ensures checksum == text.digest(Canonical(m, text))
  {
    var bytes := "subject-type::" + text.lower(m.subjectType);
    bytes := UpdateFields(bytes, Sort(m.subject, ByKey), text);
    bytes := UpdateFields(bytes, Sort(m.parameters, ByKey), text);
    bytes := UpdateEventTypes(bytes, Sort(m.eventTypes, ByAll), text);
    checksum := text.digest(bytes);
  }

  method UpdateFields(bytes: string, fields: seq<Field>, text: Text) returns (more: string)
    ensures more == bytes + FieldTexts(fields, text)
  {
    more := bytes;
    for i := 0 to |fields|
      invariant more == bytes + FieldTexts(fields[..i], text)
    {
      assert fields[..i + 1][..i] == fields[..i];
      more := more + FieldText(fields[i], text);
    }
    assert fields[..|fields|] == fields;
  }

  method UpdateEventTypes(bytes: string, es: seq<EventType>, text: Text) returns (more: string)
    ensures more == bytes + EventTypeTexts(es, text)
  {
    more := bytes;
    for i := 0 to |es|
      invariant more == bytes + EventTypeTexts(es[..i], text)
    {
      assert es[..i + 1][..i] == es[..i];
      more := more + EventTypeText(es[i], text);
    }
    assert es[..|es|] == es;
  }

  // JSON objects have distinct keys.
  predicate DistinctKeys(fields: seq<Field>) {
    forall i, j | 0 <= i < j < |fields| :: fields[i].key != fields[j].key
  }

  predicate WellFormed(m: Metadata) {
    DistinctKeys(m.subject) && DistinctKeys(m.parameters)
  }

  // The same object with its fields or event types listed in another order.
  ghost predicate Reordered(m: Metadata, m': Metadata) {
    && m.subjectType == m'.subjectType
    && multiset(m.subject) == multiset(m'.subject)
    && multiset(m.parameters) == multiset(m'.parameters)
    && multiset(m.eventTypes) == multiset(m'.eventTypes)
  }

  lemma DistinctKeysSeparate(fields: seq<Field>)
    requires DistinctKeys(fields)
    ensures Separates(multiset(fields), ByKey)
  {
    forall a, b | a in multiset(fields) && b in multiset(fields) && ByKey(a, b) && ByKey(b, a) ensures a == b {
      StringLeTotal(a.key, b.key);
      var i :| 0 <= i < |fields| && fields[i] == a;
      var j :| 0 <= j < |fields| && fields[j] == b;
      assert i == j;
    }
  }

  /** Reordering the subject fields, the parameters or the event types of a metadata post
      leaves the hashed bytes unchanged. */
  lemma CanonicalForgetsOrder(m: Metadata, m': Metadata, text: Text)
    requires WellFormed(m) && Reordered(m, m')
    ensures Canonical(m, text) == Canonical(m', text)
  {
    ByKeyOrders();
    DistinctKeysSeparate(m.subject);
    SortForgetsOrder(m.subject, m'.subject, ByKey);
    DistinctKeysSeparate(m.parameters);
    SortForgetsOrder(m.parameters, m'.parameters, ByKey);
    ByAllOrders();
    forall a, b | ByAll(a, b) && ByAll(b, a) ensures a == b {
      ByAllTotal(a, b);
    }
    SortForgetsOrder(m.eventTypes, m'.eventTypes, ByAll);
  }

  // ---------- what the hashed bytes say ----------

  type Record = seq<string>

  function PartsText(parts: Record): string {
    if parts == [] then ""
    else if |parts| == 1 then parts[0]
    else parts[0] + ("::" + PartsText(parts[1..]))
  }

  function RecordsText(rs: seq<Record>): string {
    if rs == [] then "" else "," + (PartsText(rs[0]) + RecordsText(rs[1..]))
  }

  function FieldRecords(fields: seq<Field>, text: Text): (rs: seq<Record>)
    ensures |rs| == |fields|
    ensures forall i | 0 <= i < |rs| :: rs[i] == [text.lower(fields[i].key), text.lower(fields[i].value)]
  {
    seq(|fields|, i requires 0 <= i < |fields| => [text.lower(fields[i].key), text.lower(fields[i].value)])
  }

  function EventTypeRecords(es: seq<EventType>, text: Text): (rs: seq<Record>)
    ensures |rs| == |es|
    ensures forall i | 0 <= i < |rs| ::
              rs[i] == [text.lower(es[i].name), text.lower(es[i].summary), text.lower(es[i].window)]
  {
    seq(|es|, i requires 0 <= i < |es| =>
      [text.lower(es[i].name), text.lower(es[i].summary), text.lower(es[i].window)])
  }

  lemma {:induction false} RecordsAppend(a: seq<Record>, b: seq<Record>)
    ensures RecordsText(a + b) == RecordsText(a) + RecordsText(b)
  {
    if a == [] {
      assert a + b == b;
    } else {
      RecordsAppend(a[1..], b);
      assert (a + b)[1..] == a[1..] + b && (a + b)[0] == a[0];
      Associate(PartsText(a[0]), RecordsText(a[1..]), RecordsText(b));
      Associate(",", PartsText(a[0]) + RecordsText(a[1..]), RecordsText(b));
    }
  }

  lemma {:induction false} OneRecord(r: Record)
    ensures RecordsText([r]) == "," + PartsText(r)
  {
    assert [r][1..] == [];
    assert PartsText(r) + "" == PartsText(r);
  }

  lemma PairText(a: string, b: string)
    ensures PartsText([a, b]) == a + ("::" + b)
  {
    assert [a, b][1..] == [b];
  }

  lemma TripleText(a: string, b: string, c: string)
    ensures PartsText([a, b, c]) == a + ("::" + (b + ("::" + c)))
  {
    assert [a, b, c][1..] == [b, c];
    PairText(b, c);
  }

  lemma {:induction false} FieldTextsAreRecords(fields: seq<Field>, text: Text)
    ensures FieldTexts(fields, text) == RecordsText(FieldRecords(fields, text))
  {
    if fields != [] {
      var n := |fields| - 1;
      var k, v := text.lower(fields[n].key), text.lower(fields[n].value);
      FieldTextsAreRecords(fields[..n], text);
      assert FieldRecords(fields, text) == FieldRecords(fields[..n], text) + [[k, v]];
      RecordsAppend(FieldRecords(fields[..n], text), [[k, v]]);
      OneRecord([k, v]);
      PairText(k, v);
      assert FieldText(fields[n], text) == "," + (k + ("::" + v));
    }
  }

  lemma {:induction false} EventTypeTextsAreRecords(es: seq<EventType>, text: Text)
    ensures EventTypeTexts(es, text) == RecordsText(EventTypeRecords(es, text))
  {
    if es != [] {
      var n := |es| - 1;
      var a, b, c := text.lower(es[n].name), text.lower(es[n].summary), text.lower(es[n].window);
      EventTypeTextsAreRecords(es[..n], text);
      assert EventTypeRecords(es, text) == EventTypeRecords(es[..n], text) + [[a, b, c]];
      RecordsAppend(EventTypeRecords(es[..n], text), [[a, b, c]]);
      OneRecord([a, b, c]);
      TripleText(a, b, c);
      assert EventTypeText(es[n], text) == "," + (a + ("::" + (b + ("::" + c))));
    }
  }

  // ---------- reading them back ----------

  predicate Clean(s: string) {
    ',' !in s && ':' !in s
  }

  ghost predicate CleanRecords(rs: seq<Record>) {
    forall i | 0 <= i < |rs| :: rs[i] != [] && forall part | part in rs[i] :: Clean(part)
  }

  // Where a text without a delimiter ends, what follows being empty or starting with it.
  lemma CutAt(d: char, x: string, rest: string, x': string, rest': string)
    requires d !in x && d !in x' && x + rest == x' + rest'
    requires (rest == "" || rest[0] == d) && (rest' == "" || rest'[0] == d)
    ensures x == x' && rest == rest'
  {
    var s := x + rest;
    assert forall i | 0 <= i < |x| :: s[i] == x[i] && x[i] != d;
    assert forall i | 0 <= i < |x'| :: s[i] == x'[i] && x'[i] != d;
    assert (|x| < |s| ==> s[|x|] == d) && (|x'| < |s| ==> s[|x'|] == d);
    assert x == s[..|x|] && x' == s[..|x'|];
    assert rest == s[|x|..] && rest' == s[|x'|..];
  }

  function AfterPart(parts: Record): string
    requires parts != []
  {
    if |parts| == 1 then "" else "::" + PartsText(parts[1..])
  }

  lemma {:induction false} PartsHead(parts: Record)
    requires parts != []
    ensures PartsText(parts) == parts[0] + AfterPart(parts)
  {
    assert parts[0] + "" == parts[0];
  }

  lemma {:induction false} PartsInjective(a: Record, b: Record)
    requires a != [] && b != [] && PartsText(a) == PartsText(b)
    requires (forall part | part in a :: Clean(part)) && (forall part | part in b :: Clean(part))
    ensures a == b
  {
    PartsHead(a);
    PartsHead(b);
    assert Clean(a[0]) && Clean(b[0]);
    CutAt(':', a[0], AfterPart(a), b[0], AfterPart(b));
    assert a == [a[0]] + a[1..] && b == [b[0]] + b[1..];
    if |a| > 1 {
      assert PartsText(a[1..]) == AfterPart(a)[2..] == AfterPart(b)[2..] == PartsText(b[1..]);
      PartsInjective(a[1..], b[1..]);
    }
  }

  lemma {:induction false} PartsHaveNoComma(parts: Record)
    requires forall part | part in parts :: Clean(part)
    ensures ',' !in PartsText(parts)
  {
    if parts != [] {
      assert Clean(parts[0]);
      PartsHaveNoComma(parts[1..]);
    }
  }

  lemma {:induction false} RecordsInjective(a: seq<Record>, b: seq<Record>)
    requires CleanRecords(a) && CleanRecords(b) && RecordsText(a) == RecordsText(b)
    ensures a == b
  {
    if a != [] && b != [] {
      PartsHaveNoComma(a[0]);
      PartsHaveNoComma(b[0]);
      SameAfter(",", PartsText(a[0]) + RecordsText(a[1..]), PartsText(b[0]) + RecordsText(b[1..]));
      CutAt(',', PartsText(a[0]), RecordsText(a[1..]), PartsText(b[0]), RecordsText(b[1..]));
      PartsInjective(a[0], b[0]);
      RecordsInjective(a[1..], b[1..]);
      assert a == [a[0]] + a[1..] && b == [b[0]] + b[1..];
    }
  }

  lemma SameAfter(start: string, a: string, b: string)
    requires start + a == start + b
    ensures a == b
  {
    assert a == (start + a)[|start|..] && b == (start + b)[|start|..];
  }

  // The records of the whole object: fields of the subject, parameters, event types.
  function Records(m: Metadata, text: Text): seq<Record> {
    FieldRecords(Sort(m.subject, ByKey) + Sort(m.parameters, ByKey), text)
    + EventTypeRecords(Sort(m.eventTypes, ByAll), text)
  }

  lemma {:induction false} CanonicalIsRecords(m: Metadata, text: Text)
    ensures Canonical(m, text) == "subject-type::" + (text.lower(m.subjectType) + RecordsText(Records(m, text)))
  {
    var (subject, parameters, es) := (Sort(m.subject, ByKey), Sort(m.parameters, ByKey), Sort(m.eventTypes, ByAll));
    FieldTextsAreRecords(subject, text);
    FieldTextsAreRecords(parameters, text);
    EventTypeTextsAreRecords(es, text);
    FieldRecordsAppend(subject, parameters, text);
    RecordsAppend(FieldRecords(subject, text), FieldRecords(parameters, text));
    RecordsAppend(FieldRecords(subject + parameters, text), EventTypeRecords(es, text));
    Regrouped("subject-type::", text.lower(m.subjectType), FieldTexts(subject, text), FieldTexts(parameters, text),
              EventTypeTexts(es, text));
  }

  lemma FieldRecordsAppend(a: seq<Field>, b: seq<Field>, text: Text)
    ensures FieldRecords(a + b, text) == FieldRecords(a, text) + FieldRecords(b, text)
  {
  }

  lemma Regrouped(a: string, b: string, c: string, d: string, e: string)
    ensures a + b + c + d + e == a + (b + ((c + d) + e))
  {
    Associate(a + b, c, d);
    Associate(a + b, c + d, e);
    Associate(a, b, (c + d) + e);
  }

  // Fields and event types that differ in letter case at most, in the same order.
  predicate SameFields(a: seq<Field>, b: seq<Field>, text: Text) {
    && |a| == |b|
    && forall i | 0 <= i < |a| ::
         text.lower(a[i].key) == text.lower(b[i].key) && text.lower(a[i].value) == text.lower(b[i].value)
  }

  predicate SameEventTypes(a: seq<EventType>, b: seq<EventType>, text: Text) {
    && |a| == |b|
    && forall i | 0 <= i < |a| ::
         && text.lower(a[i].name) == text.lower(b[i].name) && text.lower(a[i].summary) == text.lower(b[i].summary)
         && text.lower(a[i].window) == text.lower(b[i].window)
  }

  lemma RecordsSay(fields: seq<Field>, es: seq<EventType>, fields': seq<Field>, es': seq<EventType>, text: Text)
    ensures FieldRecords(fields, text) + EventTypeRecords(es, text)
            == FieldRecords(fields', text) + EventTypeRecords(es', text)
            <==> SameFields(fields, fields', text) && SameEventTypes(es, es', text)
  {
    var (f, e, f', e') := (FieldRecords(fields, text), EventTypeRecords(es, text),
                           FieldRecords(fields', text), EventTypeRecords(es', text));
    if f + e == f' + e' {
      SplitByLength(f, e, f', e');
      FieldRecordsSay(fields, fields', text);
      EventTypeRecordsSay(es, es', text);
    }
    if SameFields(fields, fields', text) && SameEventTypes(es, es', text) {
      assert f == f' && e == e';
    }
  }

  lemma SplitByLength(f: seq<Record>, e: seq<Record>, f': seq<Record>, e': seq<Record>)
    requires f + e == f' + e'
    requires forall i | 0 <= i < |f| :: |f[i]| == 2
    requires forall i | 0 <= i < |f'| :: |f'[i]| == 2
    requires forall i | 0 <= i < |e| :: |e[i]| == 3
    requires forall i | 0 <= i < |e'| :: |e'[i]| == 3
    ensures f == f' && e == e'
  {
    var s := f + e;
    assert forall i | 0 <= i < |s| :: |s[i]| == 2 <==> i < |f|;
    assert forall i | 0 <= i < |s| :: |s[i]| == 2 <==> i < |f'|;
    assert (|f| < |s| ==> |s[|f|]| == 3) && (|f'| < |s| ==> |s[|f'|]| == 3);
    assert f == s[..|f|] && f' == s[..|f'|] && e == s[|f|..] && e' == s[|f'|..];
  }

  lemma FieldRecordsSay(a: seq<Field>, b: seq<Field>, text: Text)
    requires FieldRecords(a, text) == FieldRecords(b, text)
    ensures SameFields(a, b, text)
  {
    var r, r' := FieldRecords(a, text), FieldRecords(b, text);
    forall i | 0 <= i < |a|
      ensures text.lower(a[i].key) == text.lower(b[i].key) && text.lower(a[i].value) == text.lower(b[i].value)
    {
      assert r[i][0] == r'[i][0] && r[i][1] == r'[i][1];
    }
  }

  lemma EventTypeRecordsSay(a: seq<EventType>, b: seq<EventType>, text: Text)
    requires EventTypeRecords(a, text) == EventTypeRecords(b, text)
    ensures SameEventTypes(a, b, text)
  {
    var r, r' := EventTypeRecords(a, text), EventTypeRecords(b, text);
    forall i | 0 <= i < |a|
      ensures text.lower(a[i].name) == text.lower(b[i].name) && text.lower(a[i].summary) == text.lower(b[i].summary)
      ensures text.lower(a[i].window) == text.lower(b[i].window)
    {
      assert r[i][0] == r'[i][0] && r[i][1] == r'[i][1] && r[i][2] == r'[i][2];
    }
  }

  // No text of the object holds a comma or a colon.
  ghost predicate CleanTexts(m: Metadata, text: Text) {
    Clean(text.lower(m.subjectType)) && CleanRecords(Records(m, text))
  }

  /** When no text holds a comma or a colon, two objects hash the same bytes exactly when they have
      the same subject type, the same sorted fields of subject and parameters one after the other,
      and the same sorted event types, up to letter case. */
  lemma {:induction false} CanonicalDetermines(m: Metadata, m': Metadata, text: Text)
    requires CleanTexts(m, text) && CleanTexts(m', text)
    ensures Canonical(m, text) == Canonical(m', text) <==>
              && text.lower(m.subjectType) == text.lower(m'.subjectType)
              && SameFields(Sort(m.subject, ByKey) + Sort(m.parameters, ByKey),
                            Sort(m'.subject, ByKey) + Sort(m'.parameters, ByKey), text)
              && SameEventTypes(Sort(m.eventTypes, ByAll), Sort(m'.eventTypes, ByAll), text)
  {
    CanonicalIsRecords(m, text);
    CanonicalIsRecords(m', text);
    RecordsSay(Sort(m.subject, ByKey) + Sort(m.parameters, ByKey), Sort(m.eventTypes, ByAll),
               Sort(m'.subject, ByKey) + Sort(m'.parameters, ByKey), Sort(m'.eventTypes, ByAll), text);
    var (t, t', r, r') := (text.lower(m.subjectType), text.lower(m'.subjectType), Records(m, text), Records(m', text));
    if Canonical(m, text) == Canonical(m', text) {
      SameAfter("subject-type::", t + RecordsText(r), t' + RecordsText(r'));
      CutAt(',', t, RecordsText(r), t', RecordsText(r'));
      RecordsInjective(r, r');
    }
  }

  // ---------- registering ----------

  datatype Registered = Registered(checksum: string, metadata: Metadata)

  // The first object with a checksum, or the number of objects.
  function Find(objects: seq<Registered>, checksum: string, i: nat := 0): (k: nat)
    requires i <= |objects|
    ensures i <= k <= |objects|
    ensures k < |objects| ==> objects[k].checksum == checksum
    ensures forall j | i <= j < k :: objects[j].checksum != checksum
    decreases |objects| - i
  {
    if i == |objects| || objects[i].checksum == checksum then i else Find(objects, checksum, i + 1)
  }

  function AfterCreate(objects: seq<Registered>, m: Metadata, text: Text): seq<Registered> {
    var checksum := text.digest(Canonical(m, text));
    if Find(objects, checksum) < |objects| then objects else objects + [Registered(checksum, m)]
  }

  class Archive {
    const text: Text
    var objects: seq<Registered>

    constructor (text: Text)
      ensures this.text == text && objects == []
    {
      this.text, objects := text, [];
    }

    // create: returns the existing object when the checksum is known
    method Create(m: Metadata) returns (id: nat)
      modifies this`objects
      ensures id == Find(old(objects), text.digest(Canonical(m, text)))
      ensures objects == AfterCreate(old(objects), m, text)
      ensures objects == if id < |old(objects)| then old(objects)
                         else old(objects) + [Registered(text.digest(Canonical(m, text)), m)]
      ensures id < |objects| && objects[id].checksum == text.digest(Canonical(m, text))
    {
      var checksum := CalculateChecksum(m, text);
      id := Find(objects, checksum);
      if id < |objects| {
        return;
      }
      objects := objects + [Registered(checksum, m)];
    }
  }

  function CreateAll(objects: seq<Registered>, ms: seq<Metadata>, text: Text): seq<Registered> {
    if ms == [] then objects
    else AfterCreate(CreateAll(objects, ms[..|ms| - 1], text), ms[|ms| - 1], text)
  }

  lemma {:induction false} CreatesAppend(objects: seq<Registered>, ms: seq<Metadata>, text: Text)
    ensures objects <= CreateAll(objects, ms, text)
  {
    if ms != [] {
      CreatesAppend(objects, ms[..|ms| - 1], text);
    }
  }

  lemma {:induction false} FirstStaysFirst(objects: seq<Registered>, more: seq<Registered>, checksum: string)
    requires objects <= more && Find(objects, checksum) < |objects|
    ensures Find(more, checksum) == Find(objects, checksum)
  {
    var k := Find(more, checksum);
    assert more[Find(objects, checksum)].checksum == checksum;
    assert forall j | 0 <= j < |objects| :: more[j] == objects[j];
  }

  /** However many posts come in between, repeating a post with its fields or event types in
      another order returns the object the first one returned, and registers nothing. */
  lemma {:induction false} ReorderedRepeatIsFirst(objects: seq<Registered>, m: Metadata,
                                                  between: seq<Metadata>, m': Metadata, text: Text)
    requires WellFormed(m) && Reordered(m, m')
    ensures var first := Find(objects, text.digest(Canonical(m, text)));
            var later := CreateAll(AfterCreate(objects, m, text), between, text);
            && Find(later, text.digest(Canonical(m', text))) == first < |later|
            && AfterCreate(later, m', text) == later
  {
    var checksum := text.digest(Canonical(m, text));
    var after := AfterCreate(objects, m, text);
    var later := CreateAll(after, between, text);
    CanonicalForgetsOrder(m, m', text);
    CreatesAppend(after, between, text);
    assert after[Find(objects, checksum)].checksum == checksum;
    assert forall j | 0 <= j < |objects| :: after[j] == objects[j];
    FirstStaysFirst(after, later, checksum);
  }

  ghost predicate DistinctChecksums(objects: seq<Registered>) {
    forall i, j | 0 <= i < j < |objects| :: objects[i].checksum != objects[j].checksum
  }

  lemma CreateKeepsDistinct(objects: seq<Registered>, m: Metadata, text: Text)
    requires DistinctChecksums(objects)
    ensures DistinctChecksums(AfterCreate(objects, m, text))
  {
    assert Find(objects, text.digest(Canonical(m, text))) <= |objects|;
  }

  /** No two registered objects ever share a checksum. */
  lemma {:induction false} ChecksumsStayDistinct(ms: seq<Metadata>, text: Text)
    ensures DistinctChecksums(CreateAll([], ms, text))
  {
    if ms != [] {
      ChecksumsStayDistinct(ms[..|ms| - 1], text);
      CreateKeepsDistinct(CreateAll([], ms[..|ms| - 1], text), ms[|ms| - 1], text);
    }
  }
}
