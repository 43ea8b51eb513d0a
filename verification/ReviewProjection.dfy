/** The review projection (`review_value`, app/core/rag_trace.py) and the flag that the
    review writer stores with it (app/evals/answer_citation_report.py). */
module ReviewProjection {
  import opened Options
  import opened Strings

  /** A key of a Python dict; only strings are kept. */
  datatype Key = Name(name: string) | OtherKey(id: int)

  /** A Python value; dicts keep the order of their entries. */
  datatype Value =
    | Null
    | Boolean(flag: bool)
    | Number(number: real)
    | Text(text: string)
    | List(items: seq<Value>)
    | Tuple(items: seq<Value>)
    | Object(entries: seq<Entry>)
    | Opaque(id: int)

  datatype Entry = Entry(key: Key, value: Value)

  const REDACTED := "[REDACTED]"

  const PRIVATE_KEYS := {
    "authorization", "api_key", "password", "secret", "tenant_id", "user_id", "owner_user_id", "acl", "roles",
    "market_scopes", "storage_key", "path", "local_path", "sql", "exception", "stack", "reasoning", "reasoning_content",
    "trusted_user_fixture_id", "acl_fixture_id", "version_fixture_id"}

  /** `str.lower` and the search of the sensitive pattern. */
  datatype Policy = Policy(lower: string -> string, isSensitive: string -> bool)

  /** The replacement is not itself sensitive. */
  ghost predicate SoundPolicy(p: Policy) { !p.isSensitive(REDACTED) }

  predicate IsPublic(p: Policy, key: Key) { key.Name? && p.lower(key.name) !in PRIVATE_KEYS }

  /** `review_value`. */
  function Review(p: Policy, v: Value): Value
    decreases v
  {
    match v
    case Object(entries) => Object(ReviewEntries(p, entries))
    case List(items) => List(ReviewItems(p, items))
    case Tuple(items) => List(ReviewItems(p, items))
    case Text(text) => if p.isSensitive(text) then Text(REDACTED) else v
    case _ => v
  }

  function ReviewItems(p: Policy, items: seq<Value>): (reviewed: seq<Value>)
    ensures |reviewed| == |items|
    decreases items
  {
    if items == [] then [] else [Review(p, items[0])] + ReviewItems(p, items[1..])
  }

  function ReviewEntries(p: Policy, entries: seq<Entry>): (reviewed: seq<Entry>)
    ensures |reviewed| <= |entries|
    decreases entries
  {
    if entries == [] then []
    else
      var rest := ReviewEntries(p, entries[1..]);
      assert entries[0] decreases to entries[0].value;
      if IsPublic(p, entries[0].key) then [Entry(entries[0].key, Review(p, entries[0].value))] + rest else rest
  }

  // ----- What a clean value is

  /** Every key, string and tuple at any depth. */
  datatype Part = KeyPart(key: Key) | TextPart(text: string) | TuplePart

  function Parts(v: Value): seq<Part>
    decreases v
  {
    match v
    case Object(entries) => EntryParts(entries)
    case List(items) => ItemParts(items)
    case Tuple(items) => [TuplePart] + ItemParts(items)
    case Text(text) => [TextPart(text)]
    case _ => []
  }

  function ItemParts(items: seq<Value>): seq<Part>
    decreases items
  {
    if items == [] then [] else Parts(items[0]) + ItemParts(items[1..])
  }

  function EntryParts(entries: seq<Entry>): seq<Part>
    decreases entries
  {
    if entries == [] then []
    else
      assert entries[0] decreases to entries[0].value;
      [KeyPart(entries[0].key)] + Parts(entries[0].value) + EntryParts(entries[1..])
  }

  predicate CleanPart(p: Policy, part: Part) {
    match part
    case KeyPart(key) => IsPublic(p, key)
    case TextPart(text) => !p.isSensitive(text)
    case TuplePart => false
  }

  predicate AllClean(p: Policy, parts: seq<Part>) { forall i :: 0 <= i < |parts| ==> CleanPart(p, parts[i]) }

  /** No private key, no sensitive string and no tuple at any depth. */
  predicate Clean(p: Policy, v: Value) { AllClean(p, Parts(v)) }

  lemma AllCleanConcat(p: Policy, a: seq<Part>, b: seq<Part>)
    ensures AllClean(p, a + b) <==> AllClean(p, a) && AllClean(p, b)
  {
    hide CleanPart;
    if AllClean(p, a + b) {
      assert forall i :: 0 <= i < |a| ==> (a + b)[i] == a[i];
      assert forall i :: 0 <= i < |b| ==> (a + b)[|a| + i] == b[i];
    }
  }

  /** Main result: the projection is clean at every depth. */
  lemma {:induction false} ReviewIsClean(p: Policy, v: Value)
    requires SoundPolicy(p)
    ensures Clean(p, Review(p, v))
    decreases v
  {
    match v
    case Object(entries) => EntriesAreClean(p, entries);
    case List(items) => ItemsAreClean(p, items);
    case Tuple(items) => ItemsAreClean(p, items);
    case _ =>
  }

  lemma {:induction false} ItemsAreClean(p: Policy, items: seq<Value>)
    requires SoundPolicy(p)
    ensures AllClean(p, ItemParts(ReviewItems(p, items)))
    decreases items
  {
    hide AllClean, Parts;
    if items == [] {
      NothingIsClean(p);
    } else {
      ReviewIsClean(p, items[0]);
      ItemsAreClean(p, items[1..]);
      var reviewed := ReviewItems(p, items);
      assert reviewed[1..] == ReviewItems(p, items[1..]);
      AllCleanConcat(p, Parts(reviewed[0]), ItemParts(reviewed[1..]));
    }
  }

  lemma NothingIsClean(p: Policy)
    ensures AllClean(p, [])
  {
  }

  lemma OneIsClean(p: Policy, part: Part)
    ensures AllClean(p, [part]) <==> CleanPart(p, part)
  {
    assert [part][0] == part;
  }

  lemma EntryPartsAreClean(p: Policy, entries: seq<Entry>)
    requires entries != []
    ensures AllClean(p, EntryParts(entries)) <==>
              IsPublic(p, entries[0].key) && Clean(p, entries[0].value) && AllClean(p, EntryParts(entries[1..]))
  {
    hide AllClean, Parts, IsPublic;
    AllCleanConcat(p, [KeyPart(entries[0].key)] + Parts(entries[0].value), EntryParts(entries[1..]));
    AllCleanConcat(p, [KeyPart(entries[0].key)], Parts(entries[0].value));
    OneIsClean(p, KeyPart(entries[0].key));
  }

  lemma {:induction false} EntriesAreClean(p: Policy, entries: seq<Entry>)
    requires SoundPolicy(p)
    ensures AllClean(p, EntryParts(ReviewEntries(p, entries)))
    decreases entries
  {
    hide AllClean, Parts, IsPublic, SoundPolicy, EntryParts, Review;
    if entries == [] {
      NoEntries(p);
    } else {
      EntriesAreClean(p, entries[1..]);
      if IsPublic(p, entries[0].key) {
        assert entries[0] decreases to entries[0].value;
        ReviewIsClean(p, entries[0].value);
        var reviewed := ReviewEntries(p, entries);
        assert reviewed[1..] == ReviewEntries(p, entries[1..]);
        EntryPartsAreClean(p, reviewed);
      }
    }
  }

  lemma NoEntries(p: Policy)
    ensures AllClean(p, EntryParts([])) && ReviewEntries(p, []) == []
  {
  }

  /** Main result: the projection equals its input exactly when the input is clean. */
  lemma {:induction false} UnchangedExactly(p: Policy, v: Value)
    requires SoundPolicy(p)
    ensures Review(p, v) == v <==> Clean(p, v)
    decreases v
  {
    match v
    case Object(entries) => EntriesUnchangedExactly(p, entries);
    case List(items) => ItemsUnchangedExactly(p, items);
    case Tuple(items) => assert Parts(v)[0] == TuplePart;
    case Text(text) => OneIsClean(p, TextPart(text));
    case _ =>
  }

  lemma {:induction false} ItemsUnchangedExactly(p: Policy, items: seq<Value>)
    requires SoundPolicy(p)
    ensures ReviewItems(p, items) == items <==> AllClean(p, ItemParts(items))
    decreases items
  {
    hide AllClean, Parts, SoundPolicy, Review;
    if items == [] {
      NothingIsClean(p);
    } else {
      UnchangedExactly(p, items[0]);
      ItemsUnchangedExactly(p, items[1..]);
      AllCleanConcat(p, Parts(items[0]), ItemParts(items[1..]));
      var reviewed := ReviewItems(p, items);
      assert reviewed[0] == Review(p, items[0]) && reviewed[1..] == ReviewItems(p, items[1..]);
      assert items == [items[0]] + items[1..];
    }
  }

  lemma {:induction false} EntriesUnchangedExactly(p: Policy, entries: seq<Entry>)
    requires SoundPolicy(p)
    ensures ReviewEntries(p, entries) == entries <==> AllClean(p, EntryParts(entries))
    decreases entries
  {
    hide AllClean, Parts, IsPublic, SoundPolicy, EntryParts, Review;
    if entries == [] {
      NoEntries(p);
    } else {
      assert entries[0] decreases to entries[0].value;
      UnchangedExactly(p, entries[0].value);
      EntriesUnchangedExactly(p, entries[1..]);
      EntryPartsAreClean(p, entries);
      var rest := ReviewEntries(p, entries[1..]);
      assert entries == [entries[0]] + entries[1..];
      if IsPublic(p, entries[0].key) {
        var reviewed := ReviewEntries(p, entries);
        assert reviewed[0] == Entry(entries[0].key, Review(p, entries[0].value)) && reviewed[1..] == rest;
      } else {
        assert |rest| < |entries|;
      }
    }
  }

  /** Applying the projection twice is applying it once. */
  lemma ReviewTwice(p: Policy, v: Value)
    requires SoundPolicy(p)
    ensures Review(p, Review(p, v)) == Review(p, v)
  {
    hide Review, Parts, AllClean;
    ReviewIsClean(p, v);
    UnchangedExactly(p, Review(p, v));
  }

  // ----- What is kept

  datatype Step = Field(name: string) | Index(i: nat)

  function FieldOf(entries: seq<Entry>, name: string): (found: Option<Value>)
    ensures found.Some? ==> exists i :: 0 <= i < |entries| && entries[i] == Entry(Name(name), found.value)
  {
    if entries == [] then None
    else if entries[0].key == Name(name) then Some(entries[0].value)
    else FieldOf(entries[1..], name)
  }

  function At(v: Value, step: Step): Option<Value> {
    match step
    case Field(name) => if v.Object? then FieldOf(v.entries, name) else None
    case Index(i) => if (v.List? || v.Tuple?) && i < |v.items| then Some(v.items[i]) else None
  }

  /** The value that a path leads to. */
  function Get(v: Value, path: seq<Step>): Option<Value> {
    if path == [] then Some(v)
    else
      match At(v, path[0])
      case None => None
      case Some(next) => Get(next, path[1..])
  }

  predicate PublicPath(p: Policy, path: seq<Step>) {
    forall i :: 0 <= i < |path| && path[i].Field? ==> IsPublic(p, Name(path[i].name))
  }

  function Reviewed(p: Policy, v: Option<Value>): Option<Value> { if v.None? then None else Some(Review(p, v.value)) }

  lemma {:induction false} ItemIsReviewed(p: Policy, items: seq<Value>, i: nat)
    requires i < |items|
    ensures ReviewItems(p, items)[i] == Review(p, items[i])
  {
    hide Review;
    if i > 0 {
      ItemIsReviewed(p, items[1..], i - 1);
    }
  }

  lemma {:induction false} FieldIsReviewed(p: Policy, entries: seq<Entry>, name: string)
    ensures FieldOf(ReviewEntries(p, entries), name) ==
              if IsPublic(p, Name(name)) then Reviewed(p, FieldOf(entries, name)) else None
  {
    hide Review, IsPublic;
    if entries != [] {
      FieldIsReviewed(p, entries[1..], name);
      var reviewed := ReviewEntries(p, entries);
      if IsPublic(p, entries[0].key) {
        assert reviewed[1..] == ReviewEntries(p, entries[1..]);
      }
    }
  }

  /** Main result: along any path without a private key the projection holds the projection of
      what the input holds there, and along any other path it holds nothing. */
  lemma {:induction false} ReviewKeepsPaths(p: Policy, v: Value, path: seq<Step>)
    ensures Get(Review(p, v), path) == if PublicPath(p, path) then Reviewed(p, Get(v, path)) else None
    decreases |path|
  {
    hide IsPublic;
    if path != [] {
      var rest := path[1..];
      assert PublicPath(p, path) <==> (path[0].Field? ==> IsPublic(p, Name(path[0].name))) && PublicPath(p, rest) by {
        PublicPathFirst(p, path);
      }
      StepIsReviewed(p, v, path[0]);
      var next := At(v, path[0]);
      if next.Some? {
        ReviewKeepsPaths(p, next.value, rest);
      }
    }
  }

  lemma PublicPathFirst(p: Policy, path: seq<Step>)
    requires path != []
    ensures PublicPath(p, path) <==> (path[0].Field? ==> IsPublic(p, Name(path[0].name))) && PublicPath(p, path[1..])
  {
  }

  lemma StepIsReviewed(p: Policy, v: Value, step: Step)
    ensures At(Review(p, v), step) ==
              if step.Field? && !IsPublic(p, Name(step.name)) then None else Reviewed(p, At(v, step))
  {
    hide IsPublic, ReviewItems, ReviewEntries;
    match step {
      case Field(name) =>
        if v.Object? {
          FieldIsReviewed(p, v.entries, name);
        }
      case Index(i) =>
        if (v.List? || v.Tuple?) && i < |v.items| {
          ItemIsReviewed(p, v.items, i);
        }
    }
  }

  // ----- The stored flag

  const FLAG := "content_redacted"

  /** What the writer stores under the flag's name: the payload's own entry of that name, if it
      is kept, overrides the flag. */
  function StoredFlag(p: Policy, entries: seq<Entry>): Value {
    var reviewed := ReviewEntries(p, entries);
    match FieldOf(reviewed, FLAG)
    case Some(own) => own
    case None => Boolean(reviewed != entries)
  }

  /** Main result: the stored flag says whether the payload was not clean, exactly unless the
      payload has a public entry of the flag's name that says otherwise. */
  lemma FlagIsExactly(p: Policy, entries: seq<Entry>)
    requires SoundPolicy(p) && IsPublic(p, Name(FLAG))
    ensures StoredFlag(p, entries) == Boolean(!Clean(p, Object(entries))) <==>
              (FieldOf(entries, FLAG).Some? ==>
                 Review(p, FieldOf(entries, FLAG).value) == Boolean(!Clean(p, Object(entries))))
  {
    hide Review, ReviewEntries, IsPublic, AllClean, SoundPolicy;
    UnchangedObjectExactly(p, entries);
    FieldIsReviewed(p, entries, FLAG);
  }

  lemma UnchangedObjectExactly(p: Policy, entries: seq<Entry>)
    requires SoundPolicy(p)
    ensures ReviewEntries(p, entries) == entries <==> Clean(p, Object(entries))
  {
    hide ReviewEntries, EntryParts, AllClean, SoundPolicy;
    EntriesUnchangedExactly(p, entries);
  }

  lemma FirstEntry(p: Policy, first: Entry, rest: seq<Entry>)
    ensures ReviewEntries(p, [first] + rest) ==
              (if IsPublic(p, first.key) then [Entry(first.key, Review(p, first.value))] else []) +
              ReviewEntries(p, rest)
  {
    assert ([first] + rest)[1..] == rest;
  }

  lemma FirstField(first: Entry, rest: seq<Entry>, name: string)
    ensures FieldOf([first] + rest, name) == if first.key == Name(name) then Some(first.value) else FieldOf(rest, name)
  {
    assert ([first] + rest)[1..] == rest;
  }

  /** An own entry overrides the flag both ways: a clean payload stored as redacted, and a
      payload that loses a private entry stored as not redacted. */
  lemma OwnEntryOverridesFlag(p: Policy, private: Entry)
    requires SoundPolicy(p) && IsPublic(p, Name(FLAG)) && !IsPublic(p, private.key)
    ensures var kept := [Entry(Name(FLAG), Boolean(true))];
            Clean(p, Object(kept)) && StoredFlag(p, kept) == Boolean(true)
    ensures var lost := [Entry(Name(FLAG), Boolean(false)), private];
            && !Clean(p, Object(lost)) && ReviewEntries(p, lost) == [lost[0]]
            && StoredFlag(p, lost) == Boolean(false)
  {
    hide Clean, IsPublic, SoundPolicy, ReviewEntries, FieldOf;
    var yes, no := Entry(Name(FLAG), Boolean(true)), Entry(Name(FLAG), Boolean(false));
    var kept, lost := [yes], [no, private];
    NoEntries(p);
    FirstEntry(p, yes, []);
    FirstEntry(p, private, []);
    FirstEntry(p, no, [private]);
    FirstField(yes, [], FLAG);
    FirstField(no, [], FLAG);
    assert kept == [yes] + [] && lost == [no] + [private] && [private] + [] == [private] && [no] + [] == [no];
    UnchangedObjectExactly(p, kept);
    UnchangedObjectExactly(p, lost);
  }

  /** A tuple is flagged although nothing is redacted. */
  lemma TupleIsFlagged(p: Policy, name: string)
    requires SoundPolicy(p) && IsPublic(p, Name(name)) && name != FLAG
    ensures StoredFlag(p, [Entry(Name(name), Tuple([]))]) == Boolean(true)
    ensures Get(Review(p, Object([Entry(Name(name), Tuple([]))])), [Field(name)]) == Some(List([]))
  {
    var entries := [Entry(Name(name), Tuple([]))];
    assert entries[1..] == [];
    var reviewed := ReviewEntries(p, entries);
    assert ReviewItems(p, []) == [] && Review(p, Tuple([])) == List([]);
    assert reviewed == [Entry(Name(name), List([]))] + ReviewEntries(p, []);
    assert reviewed[0].value != entries[0].value;
    assert reviewed[1..] == [];
    assert [Field(name)][1..] == [];
  }
}
