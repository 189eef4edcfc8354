/** Hiding the secrets of an execution config in API responses, and putting them back into a
    config that a client sends back. */
module Redaction {
  import opened Wrappers
  import opened Json

  const MASK: Json := Str("<redacted>")

  const HAS_API_KEY: string := "has_api_key"
  const HAS_HEADERS: string := "has_headers"
  const HAS_EXTRA_HEADERS: string := "has_extra_headers"

  predicate IsMarker(key: string) {
    key == HAS_API_KEY || key == HAS_HEADERS || key == HAS_EXTRA_HEADERS
  }

  /** `key.replace("-", "_").lower()`, as far as it can produce the ASCII names compared with: the
      Kelvin sign is the one character outside ASCII whose lower case is an ASCII letter. */
  function NormalizedChar(c: char): char {
    if c == '-' then '_'
    else if 'A' <= c <= 'Z' then c - 'A' + 'a'
    else if c == '\U{212A}' then 'k'
    else c
  }

  function Normalized(key: string): (r: string)
    ensures |r| == |key|
  {
    seq(|key|, i requires 0 <= i < |key| => NormalizedChar(key[i]))
  }

  predicate IsSecretName(key: string) {
    Normalized(key) in {"api_key", "apikey"}
  }

  predicate IsHeadersName(key: string) {
    Normalized(key) in {"headers", "extra_headers", "extraheaders"}
  }

  /** `bool(value)` */
  predicate Truthy(value: Json) {
    match value
    case Null => false
    case Bool(b) => b
    case Int(n) => n != 0
    case Float(r) => r != 0.0
    case Str(s) => s != ""
    case Arr(items) => items != []
    case Obj(entries) => entries != []
  }

  predicate IsSecret(e: Entry) {
    IsSecretName(e.key) && Truthy(e.value)
  }

  predicate IsHeaders(e: Entry) {
    !IsSecret(e) && IsHeadersName(e.key) && e.value.Obj?
  }

  // ----- Redaction -----

  function MaskedHeaders(headers: Entries): (r: Entries)
    ensures |r| == |headers|
  {
    seq(|headers|, i requires 0 <= i < |headers| => Entry(headers[i].key, MASK))
  }

  /** What an entry's value becomes. */
  function Masked(e: Entry): Json
    decreases e, 1
  {
    if IsSecret(e) then MASK
    else if IsHeaders(e) then Obj(MaskedHeaders(e.value.entries))
    else Redact(e.value)
  }

  /** The marker an entry sets in its object. */
  function MarkOf(e: Entry): Option<Entry> {
    if IsSecret(e) then Some(Entry(HAS_API_KEY, Bool(true)))
    else if IsHeaders(e) then
      Some(Entry(if Normalized(e.key) == "headers" then HAS_HEADERS else HAS_EXTRA_HEADERS, Bool(e.value.entries != [])))
    else None
  }

  function Mark(d: Entries, e: Entry): Entries {
    match MarkOf(e)
    case Some(mark) => Set(d, mark.key, mark.value)
    case None => d
  }

  function Marked(d: Entries, sources: Entries): Entries
    decreases |sources|
  {
    if sources == [] then d else Marked(Mark(d, sources[0]), sources[1..])
  }

  function MaskedEntries(entries: Entries): (r: Entries)
    ensures |r| == |entries|
    ensures forall i :: 0 <= i < |entries| ==> r[i] == Entry(entries[i].key, Masked(entries[i]))
    decreases entries, 2
  {
    seq(|entries|, i requires 0 <= i < |entries| => Entry(entries[i].key, Masked(entries[i])))
  }

  /** The redacted value: every entry masked where it stands, then the markers set in order. */
  function Redact(value: Json): Json
    decreases value, 3
  {
    match value
    case Arr(items) => Arr(seq(|items|, i requires 0 <= i < |items| => Redact(items[i])))
    case Obj(entries) => Obj(Marked(MaskedEntries(entries), entries))
    case _ => value
  }

  // ----- Restoring -----

  /** What a masked value is replaced by. */
  function Stored(existing: Json): Json {
    if existing.Obj? || existing.Arr? then Null else existing
  }

  function Unmarked(entries: Entries): (r: Entries)
    ensures forall i :: 0 <= i < |r| ==> r[i] in entries
  {
    if entries == [] then []
    else (if IsMarker(entries[0].key) then [] else [entries[0]]) + Unmarked(entries[1..])
  }

  function Field(existing: Json, key: string): Json {
    if existing.Obj? then Get(existing.entries, key).GetOr(Null) else Null
  }

  function NameOf(item: Json): Option<string> {
    match item
    case Obj(entries) =>
      (match Get(entries, "name")
       case Some(Str(name)) => Some(name)
       case _ => None)
    case _ => None
  }

  /** The last item of that name. */
  function ByName(items: seq<Json>, name: string): Option<Json> {
    if items == [] then None
    else if NameOf(items[|items| - 1]) == Some(name) then Some(items[|items| - 1])
    else ByName(items[..|items| - 1], name)
  }

  /** The existing item a list item is restored from: the last of the same name, or else the one
      at the same index. */
  function Previous(existing: Json, name: Option<string>, index: nat): Json {
    var items := if existing.Arr? then existing.items else [];
    var atIndex := if index < |items| then items[index] else Null;
    if name.Some? then ByName(items, name.value).GetOr(atIndex) else atIndex
  }

  function Restore(value: Json, existing: Json): Json
    decreases value
  {
    if value == MASK then Stored(existing)
    else
      match value
      case Obj(entries) =>
        var kept := Unmarked(entries);
        Obj(seq(|kept|, i requires 0 <= i < |kept| =>
          assert kept[i] in entries;
          Entry(kept[i].key, Restore(kept[i].value, Field(existing, kept[i].key)))))
      case Arr(items) =>
        Arr(seq(|items|, i requires 0 <= i < |items| => Restore(items[i], Previous(existing, NameOf(items[i]), i))))
      case _ => value
  }

  // ----- When restoring undoes redaction -----

  /** No object has the same key twice, as in every dictionary. */
  predicate Keyed(entries: Entries) {
    forall i, j :: 0 <= i < j < |entries| ==> entries[i].key != entries[j].key
  }

  predicate WellFormed(value: Json) {
    match value
    case Arr(items) => forall i :: 0 <= i < |items| ==> WellFormed(items[i])
    case Obj(entries) => Keyed(entries) && forall i :: 0 <= i < |entries| ==> WellFormed(entries[i].value)
    case _ => true
  }

  predicate KeepsHeaders(headers: Entries, existing: Json) {
    forall i :: 0 <= i < |headers| ==>
      !IsMarker(headers[i].key) && Stored(Field(existing, headers[i].key)) == headers[i].value
  }

  predicate KeepsEntry(e: Entry, existing: Json)
    decreases e, 1
  {
    if IsSecret(e) then e.value == Stored(existing)
    else if IsHeaders(e) then KeepsHeaders(e.value.entries, existing)
    else Keeps(e.value, existing)
  }

  /** The existing config holds, at the places where restoring looks them up, the secrets and
      header values of the value, all of them scalars; and the value has no key that reads as a
      marker. */
  predicate Keeps(value: Json, existing: Json)
    decreases value, 2
  {
    match value
    case Arr(items) => forall i :: 0 <= i < |items| ==> Keeps(items[i], Previous(existing, NameOf(items[i]), i))
    case Obj(entries) =>
      forall i :: 0 <= i < |entries| ==>
        !IsMarker(entries[i].key) && KeepsEntry(entries[i], Field(existing, entries[i].key))
    case _ => value == MASK ==> existing == MASK
  }

  lemma {:induction false} UnmarkedSet(d: Entries, key: string, value: Json)
    requires IsMarker(key)
    ensures Unmarked(Set(d, key, value)) == Unmarked(d)
  {
    if d != [] {
      if d[0].key == key {
        assert Set(d, key, value)[1..] == d[1..];
      } else {
        UnmarkedSet(d[1..], key, value);
        assert Set(d, key, value)[1..] == Set(d[1..], key, value);
      }
    } else {
      assert Set(d, key, value)[1..] == [];
    }
  }

  lemma {:induction false} UnmarkedMarked(d: Entries, sources: Entries)
    ensures Unmarked(Marked(d, sources)) == Unmarked(d)
    decreases |sources|
  {
    if sources != [] {
      var e := sources[0];
      UnmarkedMarked(Mark(d, e), sources[1..]);
      if MarkOf(e).Some? {
        UnmarkedSet(d, MarkOf(e).value.key, MarkOf(e).value.value);
      }
    }
  }

  predicate MarkerFree(d: Entries) {
    forall i :: 0 <= i < |d| ==> !IsMarker(d[i].key)
  }

  lemma MarkerFreeTail(d: Entries)
    requires d != []
    ensures MarkerFree(d) <==> !IsMarker(d[0].key) && MarkerFree(d[1..])
  {
    hide IsMarker;
    assert forall i :: 1 <= i < |d| ==> d[i] == d[1..][i - 1];
    if MarkerFree(d) {
      forall i | 0 <= i < |d[1..]| ensures !IsMarker(d[1..][i].key) { assert d[1..][i] == d[i + 1]; }
    }
  }

  lemma {:induction false} UnmarkedLength(d: Entries)
    ensures |Unmarked(d)| <= |d|
    ensures |Unmarked(d)| == |d| <==> MarkerFree(d)
    ensures |Unmarked(d)| == |d| ==> Unmarked(d) == d
  {
    if d != [] {
      UnmarkedLength(d[1..]);
      MarkerFreeTail(d);
      hide IsMarker, MarkerFree;
      assert d == [d[0]] + d[1..];
    }
  }

  lemma {:induction false} GetSplit(before: Entries, e: Entry, after: Entries)
    requires forall i :: 0 <= i < |before| ==> before[i].key != e.key
    ensures Get(before + [e] + after, e.key) == Some(e.value)
    ensures forall value :: Set(before + [e] + after, e.key, value) == before + [Entry(e.key, value)] + after
  {
    var d := before + [e] + after;
    if before == [] {
      assert d[1..] == after;
    } else {
      assert d[1..] == before[1..] + [e] + after;
      GetSplit(before[1..], e, after);
      forall value ensures Set(d, e.key, value) == before + [Entry(e.key, value)] + after {
        assert before == [before[0]] + before[1..];
        assert Set(d, e.key, value) == [before[0]] + (before[1..] + [Entry(e.key, value)] + after);
      }
    }
  }

  lemma {:induction false} GetAt(d: Entries, i: nat)
    requires Keyed(d) && i < |d|
    ensures Get(d, d[i].key) == Some(d[i].value)
  {
    if i > 0 {
      assert d[0].key != d[i].key && d[i] == d[1..][i - 1];
      GetAt(d[1..], i - 1);
    }
  }

  lemma RestoreObject(entries: Entries, existing: Json)
    ensures var kept := Unmarked(entries);
            Restore(Obj(entries), existing).Obj?
            && var r := Restore(Obj(entries), existing).entries;
               |r| == |kept|
               && forall i :: 0 <= i < |kept| ==> r[i] == Entry(kept[i].key, Restore(kept[i].value, Field(existing, kept[i].key)))
  {
  }

  lemma RestoreHeaders(headers: Entries, existing: Json)
    ensures Restore(Obj(MaskedHeaders(headers)), existing) == Obj(headers) <==> KeepsHeaders(headers, existing)
  {
    var masked := MaskedHeaders(headers);
    var kept := Unmarked(masked);
    RestoreObject(masked, existing);
    UnmarkedLength(masked);
    hide Restore, Unmarked, IsMarker;
    assert forall i :: 0 <= i < |headers| ==> masked[i].key == headers[i].key;
    if |kept| == |masked| {
      var r := Restore(Obj(masked), existing).entries;
      forall i | 0 <= i < |headers| ensures r[i] == Entry(headers[i].key, Stored(Field(existing, headers[i].key))) {
        MaskRestores(Field(existing, headers[i].key));
      }
      if KeepsHeaders(headers, existing) {
        assert r == headers;
      }
    } else {
      assert exists i :: 0 <= i < |masked| && IsMarker(masked[i].key);
      assert exists i :: 0 <= i < |headers| && IsMarker(headers[i].key);
    }
  }

  /** A mask takes what is stored, unless that is a structure. */
  lemma MaskRestores(existing: Json)
    ensures Restore(MASK, existing) == Stored(existing)
    ensures Restore(MASK, existing) == match existing case Arr(_) => Null case Obj(_) => Null case _ => existing
  {
  }

  /** Restoring the redacted value against an existing config gives the value back exactly when
      the existing config holds its secrets where they are looked up. */
  lemma {:induction false} RestoreUndoesRedact(value: Json, existing: Json)
    requires WellFormed(value)
    ensures Restore(Redact(value), existing) == value <==> Keeps(value, existing)
    decreases value
  {
    match value
    case Arr(items) => RestoreUndoesRedactItems(items, existing);
    case Obj(entries) => RestoreUndoesRedactEntries(entries, existing);
    case _ =>
  }

  lemma {:induction false} RestoreUndoesRedactItems(items: seq<Json>, existing: Json)
    requires WellFormed(Arr(items))
    ensures Restore(Redact(Arr(items)), existing) == Arr(items) <==> Keeps(Arr(items), existing)
    decreases Arr(items), 0
  {
    var redacted := Redact(Arr(items)).items;
    var restored := Restore(Arr(redacted), existing).items;
    forall i | 0 <= i < |items|
      ensures restored[i] == items[i] <==> Keeps(items[i], Previous(existing, NameOf(items[i]), i))
    {
      RedactKeepsName(items[i]);
      RestoreUndoesRedact(items[i], Previous(existing, NameOf(items[i]), i));
    }
    hide Redact, Restore, Previous, NameOf, WellFormed;
    if Keeps(Arr(items), existing) {
      assert restored == items;
    }
  }

  /** What restoring makes of a redacted object: its entries without the markers, each restored. */
  lemma RestoredObject(entries: Entries, existing: Json) returns (restored: Entries)
    ensures Restore(Redact(Obj(entries)), existing) == Obj(restored)
    ensures |restored| == |entries| <==> forall i :: 0 <= i < |entries| ==> !IsMarker(entries[i].key)
    ensures |restored| == |entries| ==>
              forall i :: 0 <= i < |entries| ==>
                restored[i] == Entry(entries[i].key, Restore(Masked(entries[i]), Field(existing, entries[i].key)))
  {
    var masked := MaskedEntries(entries);
    var redacted := Marked(masked, entries);
    assert Redact(Obj(entries)) == Obj(redacted);
    RestoreObject(redacted, existing);
    UnmarkedMarked(masked, entries);
    UnmarkedLength(masked);
    restored := Restore(Obj(redacted), existing).entries;
    hide Redact, Restore, Field, Masked, IsMarker, Unmarked, Marked;
    assert forall i :: 0 <= i < |entries| ==> masked[i].key == entries[i].key;
    if |restored| == |entries| {
      forall i | 0 <= i < |entries| ensures !IsMarker(entries[i].key) { assert !IsMarker(masked[i].key); }
    }
  }

  lemma {:induction false} RestoreUndoesRedactEntries(entries: Entries, existing: Json)
    requires WellFormed(Obj(entries))
    ensures Restore(Redact(Obj(entries)), existing) == Obj(entries) <==> Keeps(Obj(entries), existing)
    decreases Obj(entries), 0
  {
    var restored := RestoredObject(entries, existing);
    hide Redact, Restore, Field, Masked, KeepsEntry, IsMarker;
    if |restored| == |entries| {
      forall i | 0 <= i < |entries|
        ensures restored[i] == entries[i] <==> KeepsEntry(entries[i], Field(existing, entries[i].key))
      {
        RestoreUndoesMask(entries[i], Field(existing, entries[i].key));
      }
      hide WellFormed;
      if Keeps(Obj(entries), existing) {
        assert restored == entries;
      }
    }
  }

  lemma {:induction false} RestoreUndoesMask(e: Entry, existing: Json)
    requires WellFormed(e.value)
    ensures Restore(Masked(e), existing) == e.value <==> KeepsEntry(e, existing)
    decreases e, 0
  {
    if IsSecret(e) {
      MaskRestores(existing);
    } else if IsHeaders(e) {
      RestoreHeaders(e.value.entries, existing);
    } else {
      RestoreUndoesRedact(e.value, existing);
    }
  }

  lemma {:induction false} GetMarked(d: Entries, sources: Entries, key: string)
    requires !IsMarker(key)
    ensures Get(Marked(d, sources), key) == Get(d, key)
    decreases |sources|
  {
    if sources != [] {
      GetMarked(Mark(d, sources[0]), sources[1..], key);
      if MarkOf(sources[0]).Some? {
        GetSet(d, MarkOf(sources[0]).value.key, MarkOf(sources[0]).value.value, key);
      }
    }
  }

  lemma {:induction false} GetMasked(entries: Entries, key: string)
    ensures Get(MaskedEntries(entries), key).Some? == Get(entries, key).Some?
    ensures Get(entries, key).Some? ==> Get(MaskedEntries(entries), key) == Some(Masked(Entry(key, Get(entries, key).value)))
  {
    if entries != [] {
      GetMasked(entries[1..], key);
      assert MaskedEntries(entries)[1..] == MaskedEntries(entries[1..]);
    }
  }

  /** Redaction keeps an item's name. */
  lemma RedactKeepsName(item: Json)
    ensures NameOf(Redact(item)) == NameOf(item)
  {
    if item.Obj? {
      GetMarked(MaskedEntries(item.entries), item.entries, "name");
      GetMasked(item.entries, "name");
      NameIsPublic();
      if Get(item.entries, "name").Some? {
        RedactKeepsShape(Get(item.entries, "name").value);
      }
    }
  }

  lemma NameIsPublic()
    ensures !IsSecretName("name") && !IsHeadersName("name")
  {
    assert Normalized("name") == "name";
  }

  lemma RedactKeepsShape(value: Json)
    ensures (Redact(value).Str? <==> value.Str?) && (value.Str? ==> Redact(value) == value)
    ensures (Redact(value).Obj? <==> value.Obj?) && (Redact(value).Arr? <==> value.Arr?)
  {
  }

  // ----- Configs sent back as they were, or with their named lists reordered -----

  predicate ScalarHeaders(headers: Entries) {
    forall i :: 0 <= i < |headers| ==> !IsMarker(headers[i].key) && Stored(headers[i].value) == headers[i].value
  }

  /** Secrets and header values are scalars, and no key reads as a marker. */
  predicate Plain(value: Json)
    decreases value
  {
    match value
    case Arr(items) => forall i :: 0 <= i < |items| ==> Plain(items[i])
    case Obj(entries) =>
      forall i :: 0 <= i < |entries| ==>
        var e := entries[i];
        !IsMarker(e.key)
        && if IsSecret(e) then Stored(e.value) == e.value
           else if IsHeaders(e) then ScalarHeaders(e.value.entries)
           else Plain(e.value)
    case _ => true
  }

  /** No list has two items of the same name. */
  predicate NamesDiffer(items: seq<Json>) {
    forall i, j :: 0 <= i < j < |items| && NameOf(items[i]).Some? ==> NameOf(items[i]) != NameOf(items[j])
  }

  /** Item `i` of one list and item `j` of another are taken for the same: by their name, or by
      their place when the item has none. */
  predicate Paired(items: seq<Json>, i: nat, others: seq<Json>, j: nat) {
    i < |items| && j < |others| && if NameOf(items[i]).Some? then NameOf(items[i]) == NameOf(others[j]) else i == j
  }

  /** The same value up to the order of keys and of named list items, and up to further keys and
      named items in the existing one. */
  ghost predicate Rearranged(value: Json, existing: Json)
    decreases value, 0
  {
    match value
    case Arr(items) =>
      existing.Arr? && NamesDiffer(existing.items)
      && forall i :: 0 <= i < |items| ==> HasCounterpart(items, i, existing.items)
    case Obj(entries) =>
      existing.Obj?
      && forall i :: 0 <= i < |entries| ==>
           var other := Get(existing.entries, entries[i].key);
           other.Some? && if IsSecret(entries[i]) then other.value == entries[i].value else Rearranged(entries[i].value, other.value)
    case _ => existing == value
  }

  ghost predicate HasCounterpart(items: seq<Json>, i: nat, others: seq<Json>)
    requires i < |items|
    decreases items[i], 1
  {
    exists j: nat :: Paired(items, i, others, j) && Rearranged(items[i], others[j])
  }

  lemma {:induction false} ByNameFinds(items: seq<Json>, j: nat)
    requires j < |items| && NamesDiffer(items) && NameOf(items[j]).Some?
    ensures ByName(items, NameOf(items[j]).value) == Some(items[j])
  {
    if j < |items| - 1 {
      ByNameFinds(items[..|items| - 1], j);
    }
  }

  lemma PairedIsPrevious(items: seq<Json>, i: nat, existing: Json, j: nat)
    requires existing.Arr? && NamesDiffer(existing.items) && Paired(items, i, existing.items, j)
    ensures Previous(existing, NameOf(items[i]), i) == existing.items[j]
  {
    if NameOf(items[i]).Some? {
      ByNameFinds(existing.items, j);
    }
  }

  lemma {:induction false} RearrangedKeeps(value: Json, existing: Json)
    requires WellFormed(value) && Plain(value) && Rearranged(value, existing)
    ensures Keeps(value, existing)
    decreases value, 1
  {
    match value
    case Arr(items) =>
      forall i | 0 <= i < |items| ensures Keeps(items[i], Previous(existing, NameOf(items[i]), i)) {
        assert HasCounterpart(items, i, existing.items);
        var j: nat :| Paired(items, i, existing.items, j) && Rearranged(items[i], existing.items[j]);
        PairedIsPrevious(items, i, existing, j);
        RearrangedKeeps(items[i], existing.items[j]);
      }
    case Obj(entries) =>
      forall i | 0 <= i < |entries|
        ensures !IsMarker(entries[i].key) && KeepsEntry(entries[i], Field(existing, entries[i].key))
      {
        RearrangedKeepsEntry(entries[i], Get(existing.entries, entries[i].key).value);
      }
    case _ =>
  }

  lemma {:induction false} RearrangedKeepsEntry(e: Entry, existing: Json)
    requires WellFormed(e.value)
    requires if IsSecret(e) then existing == e.value && Stored(e.value) == e.value else Rearranged(e.value, existing)
    requires !IsSecret(e) ==> if IsHeaders(e) then ScalarHeaders(e.value.entries) else Plain(e.value)
    ensures KeepsEntry(e, existing)
    decreases e, 0
  {
    if IsSecret(e) {
    } else if IsHeaders(e) {
      ScalarHeadersKept(e.value.entries, existing);
    } else {
      RearrangedKeeps(e.value, existing);
    }
  }

  lemma ScalarHeadersKept(headers: Entries, existing: Json)
    requires ScalarHeaders(headers) && Rearranged(Obj(headers), existing)
    ensures KeepsHeaders(headers, existing)
  {
    hide IsMarker, IsSecret;
    forall i | 0 <= i < |headers| ensures Stored(Field(existing, headers[i].key)) == headers[i].value {
      var other := Get(existing.entries, headers[i].key);
      assert Field(existing, headers[i].key) == other.value;
      assert Stored(headers[i].value) == headers[i].value;
      assert other.value == headers[i].value;
    }
  }

  /** A redacted config whose named list items were reordered, or some of them removed, is
      restored to the same reordering of the original. */
  lemma RearrangedRestores(value: Json, existing: Json)
    requires WellFormed(value) && Plain(value) && Rearranged(value, existing)
    ensures Restore(Redact(value), existing) == value
  {
    RearrangedKeeps(value, existing);
    RestoreUndoesRedact(value, existing);
  }

  predicate DistinctNames(value: Json)
    decreases value
  {
    match value
    case Arr(items) => NamesDiffer(items) && forall i :: 0 <= i < |items| ==> DistinctNames(items[i])
    case Obj(entries) => forall i :: 0 <= i < |entries| ==> DistinctNames(entries[i].value)
    case _ => true
  }

  lemma {:induction false} RearrangedItself(value: Json)
    requires WellFormed(value) && DistinctNames(value)
    ensures Rearranged(value, value)
    decreases value
  {
    match value
    case Arr(items) =>
      forall i | 0 <= i < |items| ensures HasCounterpart(items, i, items) {
        RearrangedItself(items[i]);
        assert Paired(items, i, items, i);
      }
    case Obj(entries) =>
      forall i | 0 <= i < |entries|
        ensures Get(entries, entries[i].key) == Some(entries[i].value) && Rearranged(entries[i].value, entries[i].value)
      {
        GetAt(entries, i);
        RearrangedItself(entries[i].value);
      }
    case _ =>
  }

  /** Round trip: a config with scalar secrets and distinct names per list is restored. */
  lemma RoundTrip(value: Json)
    requires WellFormed(value) && Plain(value) && DistinctNames(value)
    ensures Restore(Redact(value), value) == value
  {
    RearrangedItself(value);
    RearrangedRestores(value, value);
  }

  function Server(name: string, apiKey: string): Json {
    Obj([Entry("name", Str(name)), Entry("api_key", Str(apiKey))])
  }

  /** Two list items of one name both come back with the secret of the last. */
  lemma SharedNameLosesSecret(name: string, first: string, last: string)
    requires first != "" && last != "" && first != last
    ensures var config := Arr([Server(name, first), Server(name, last)]);
            WellFormed(config) && Restore(Redact(config), config) != config
  {
    var config := Arr([Server(name, first), Server(name, last)]);
    NameOfServer(name, first);
    NameOfServer(name, last);
    OtherServersSecret(name, first, last);
    RestoreUndoesRedact(config, config);
    hide Server, NameOf, Keeps, Redact, Restore;
    var items := config.items;
    assert ByName(items, name) == Some(items[1]);
    assert Previous(config, NameOf(items[0]), 0) == items[1];
    assert !Keeps(config, config) by { ItemNotKept(items, config, 0); }
  }

  lemma ItemNotKept(items: seq<Json>, existing: Json, i: nat)
    requires i < |items| && !Keeps(items[i], Previous(existing, NameOf(items[i]), i))
    ensures !Keeps(Arr(items), existing)
  {
  }

  lemma NameOfServer(name: string, apiKey: string)
    ensures NameOf(Server(name, apiKey)) == Some(name) && WellFormed(Server(name, apiKey))
  {
  }

  lemma OtherServersSecret(name: string, first: string, last: string)
    requires first != "" && first != last
    ensures !Keeps(Server(name, first), Server(name, last))
  {
    var e, entries := Server(name, first).entries[1], Server(name, last).entries;
    assert Normalized("api_key") == "api_key";
    assert IsSecret(e);
    GetAt(entries, 1);
    assert !KeepsEntry(e, Field(Server(name, last), e.key));
  }

  // ----- Redaction hides secrets, and nothing else -----

  /** Values that differ in their secrets and header values only. */
  predicate SamePublic(value: Json, other: Json)
    decreases value, 1
  {
    match (value, other)
    case (Arr(items), Arr(others)) =>
      |items| == |others| && forall i :: 0 <= i < |items| ==> SamePublic(items[i], others[i])
    case (Obj(entries), Obj(others)) =>
      |entries| == |others|
      && forall i :: 0 <= i < |entries| ==> entries[i].key == others[i].key && SamePublicEntry(entries[i], others[i])
    case _ => value == other
  }

  predicate SamePublicEntry(e: Entry, other: Entry)
    decreases e, 0
  {
    if IsSecret(e) then IsSecret(other)
    else if IsHeaders(e) then
      IsHeaders(other) && |e.value.entries| == |other.value.entries|
      && forall i :: 0 <= i < |e.value.entries| ==> e.value.entries[i].key == other.value.entries[i].key
    else !IsSecret(other) && !IsHeaders(other) && SamePublic(e.value, other.value)
  }

  lemma {:induction false} MarkedTogether(d: Entries, sources: Entries, others: Entries)
    requires |sources| == |others|
    requires forall i :: 0 <= i < |sources| ==> MarkOf(sources[i]) == MarkOf(others[i])
    ensures Marked(d, sources) == Marked(d, others)
    decreases |sources|
  {
    if sources != [] {
      MarkedTogether(Mark(d, sources[0]), sources[1..], others[1..]);
    }
  }

  /** The redacted value does not depend on the secrets. */
  lemma {:induction false} SecretsAreHidden(value: Json, other: Json)
    requires SamePublic(value, other)
    ensures Redact(value) == Redact(other)
    decreases value, 1
  {
    match (value, other)
    case (Arr(items), Arr(others)) =>
      forall i | 0 <= i < |items| ensures Redact(items[i]) == Redact(others[i]) {
        SecretsAreHidden(items[i], others[i]);
      }
    case (Obj(entries), Obj(others)) =>
      forall i | 0 <= i < |entries|
        ensures entries[i].key == others[i].key
        ensures Masked(entries[i]) == Masked(others[i]) && MarkOf(entries[i]) == MarkOf(others[i])
      {
        SecretEntryIsHidden(entries[i], others[i]);
      }
      assert MaskedEntries(entries) == MaskedEntries(others);
      MarkedTogether(MaskedEntries(entries), entries, others);
    case _ =>
  }

  lemma {:induction false} SecretEntryIsHidden(e: Entry, other: Entry)
    requires e.key == other.key && SamePublicEntry(e, other)
    ensures Masked(e) == Masked(other) && MarkOf(e) == MarkOf(other)
    decreases e, 0
  {
    if IsSecret(e) {
    } else if IsHeaders(e) {
      assert MaskedHeaders(e.value.entries) == MaskedHeaders(other.value.entries);
      assert e.value.entries == [] <==> other.value.entries == [];
    } else {
      SecretsAreHidden(e.value, other.value);
    }
  }

  // ----- Redacting twice -----

  /** The value the entries leave under a marker key. */
  function LastMark(sources: Entries, key: string): Option<Json> {
    if sources == [] then None
    else if LastMark(sources[1..], key).Some? then LastMark(sources[1..], key)
    else if MarkOf(sources[0]).Some? && MarkOf(sources[0]).value.key == key then Some(MarkOf(sources[0]).value.value)
    else None
  }

  lemma {:induction false} GetOfMarked(d: Entries, sources: Entries, key: string)
    ensures Get(Marked(d, sources), key) == if LastMark(sources, key).Some? then LastMark(sources, key) else Get(d, key)
    decreases |sources|
  {
    if sources != [] {
      GetOfMarked(Mark(d, sources[0]), sources[1..], key);
      if MarkOf(sources[0]).Some? {
        GetSet(d, MarkOf(sources[0]).value.key, MarkOf(sources[0]).value.value, key);
      }
    }
  }

  function Keys(d: Entries): (r: seq<string>)
    ensures |r| == |d|
  {
    seq(|d|, i requires 0 <= i < |d| => d[i].key)
  }

  lemma {:induction false} SetKeys(d: Entries, key: string, value: Json)
    ensures Keys(Set(d, key, value)) == if HasKey(d, key) then Keys(d) else Keys(d) + [key]
  {
    if d != [] && d[0].key != key {
      SetKeys(d[1..], key, value);
      assert Keys(Set(d, key, value)) == [d[0].key] + Keys(Set(d[1..], key, value));
      assert Keys(d) == [d[0].key] + Keys(d[1..]);
    }
  }

  lemma {:induction false} NoKey(d: Entries, key: string)
    ensures HasKey(d, key) <==> key in Keys(d)
  {
    if d != [] {
      NoKey(d[1..], key);
      assert Keys(d) == [d[0].key] + Keys(d[1..]);
    }
  }

  lemma SetKeyed(d: Entries, key: string, value: Json)
    requires Keyed(d)
    ensures Keyed(Set(d, key, value))
  {
    SetKeys(d, key, value);
    NoKey(d, key);
    var r := Set(d, key, value);
    forall i, j | 0 <= i < j < |r| ensures r[i].key != r[j].key {
      assert r[i].key == Keys(r)[i] && r[j].key == Keys(r)[j];
      assert Keys(d)[i] == d[i].key;
      if j < |d| { assert Keys(d)[j] == d[j].key; }
    }
  }

  lemma {:induction false} MarkedKeyed(d: Entries, sources: Entries)
    requires Keyed(d)
    ensures Keyed(Marked(d, sources))
    decreases |sources|
  {
    if sources != [] {
      if MarkOf(sources[0]).Some? {
        SetKeyed(d, MarkOf(sources[0]).value.key, MarkOf(sources[0]).value.value);
      }
      MarkedKeyed(Mark(d, sources[0]), sources[1..]);
    }
  }

  lemma {:induction false} MarkedKeys(d: Entries, sources: Entries)
    requires forall key :: LastMark(sources, key).Some? ==> HasKey(d, key)
    ensures Keys(Marked(d, sources)) == Keys(d)
    decreases |sources|
  {
    if sources != [] {
      var e := sources[0];
      if MarkOf(e).Some? {
        var mark := MarkOf(e).value;
        assert LastMark(sources, mark.key).Some?;
        SetKeys(d, mark.key, mark.value);
        forall key | LastMark(sources[1..], key).Some? ensures HasKey(Mark(d, e), key) {
          assert LastMark(sources, key).Some?;
          GetSet(d, mark.key, mark.value, key);
        }
      } else {
        assert forall key :: LastMark(sources[1..], key).Some? ==> LastMark(sources, key).Some?;
      }
      MarkedKeys(Mark(d, e), sources[1..]);
    }
  }

  lemma SameEntries(a: Entries, b: Entries)
    requires Keyed(a) && Keys(a) == Keys(b) && forall key :: Get(a, key) == Get(b, key)
    ensures a == b
  {
    assert Keyed(b) by {
      forall i, j | 0 <= i < j < |b| ensures b[i].key != b[j].key {
        assert b[i].key == Keys(b)[i] == a[i].key && b[j].key == Keys(b)[j] == a[j].key;
      }
    }
    forall i | 0 <= i < |a| ensures a[i] == b[i] {
      assert a[i].key == Keys(a)[i] == Keys(b)[i] == b[i].key;
      GetAt(a, i);
      GetAt(b, i);
    }
  }

  /** Marking again with the marks that are already there changes nothing. */
  lemma MarkedAgain(d: Entries, sources: Entries)
    requires Keyed(d)
    requires forall key :: LastMark(sources, key).Some? ==> Get(d, key) == LastMark(sources, key)
    ensures Marked(d, sources) == d
  {
    MarkedKeys(d, sources);
    forall key ensures Get(Marked(d, sources), key) == Get(d, key) { GetOfMarked(d, sources, key); }
    MarkedKeyed(d, sources);
    SameEntries(Marked(d, sources), d);
  }

  lemma MarkersAreInert(key: string, value: Json)
    requires IsMarker(key)
    ensures MarkOf(Entry(key, value)).None? && (value.Bool? ==> Masked(Entry(key, value)) == value)
  {
    assert |Normalized(key)| == |key|;
  }

  lemma {:induction false} LastMarkSet(d: Entries, marker: string, value: Json, key: string)
    requires IsMarker(marker)
    ensures LastMark(Set(d, marker, value), key) == LastMark(d, key)
  {
    MarkersAreInert(marker, value);
    if d == [] {
      assert Set(d, marker, value)[1..] == [];
    } else if d[0].key == marker {
      MarkersAreInert(marker, d[0].value);
      assert d[0] == Entry(marker, d[0].value);
      assert Set(d, marker, value)[1..] == d[1..];
    } else {
      LastMarkSet(d[1..], marker, value, key);
      assert Set(d, marker, value)[1..] == Set(d[1..], marker, value);
    }
  }

  lemma {:induction false} LastMarkMarked(d: Entries, sources: Entries, key: string)
    ensures LastMark(Marked(d, sources), key) == LastMark(d, key)
    decreases |sources|
  {
    if sources != [] {
      LastMarkMarked(Mark(d, sources[0]), sources[1..], key);
      if MarkOf(sources[0]).Some? {
        LastMarkSet(d, MarkOf(sources[0]).value.key, MarkOf(sources[0]).value.value, key);
      }
    }
  }

  lemma {:induction false} LastMarkTogether(sources: Entries, others: Entries, key: string)
    requires |sources| == |others|
    requires forall i :: 0 <= i < |sources| ==> MarkOf(sources[i]) == MarkOf(others[i])
    ensures LastMark(sources, key) == LastMark(others, key)
  {
    if sources != [] {
      LastMarkTogether(sources[1..], others[1..], key);
    }
  }

  /** Every entry is as masking leaves it. */
  predicate Settled(d: Entries) {
    forall i :: 0 <= i < |d| ==> Masked(d[i]) == d[i].value
  }

  lemma {:induction false} SetSettled(d: Entries, marker: string, value: Json)
    requires Settled(d) && IsMarker(marker) && value.Bool?
    ensures Settled(Set(d, marker, value))
  {
    MarkersAreInert(marker, value);
    hide Masked, IsMarker;
    if d != [] && d[0].key != marker {
      assert Settled(d[1..]) by {
        assert forall i :: 0 <= i < |d[1..]| ==> d[1..][i] == d[i + 1];
      }
      SetSettled(d[1..], marker, value);
    }
  }

  lemma {:induction false} MarkedSettled(d: Entries, sources: Entries)
    requires Settled(d)
    ensures Settled(Marked(d, sources))
    decreases |sources|
  {
    hide Settled;
    if sources != [] {
      var e := sources[0];
      if MarkOf(e).Some? {
        SetSettled(d, MarkOf(e).value.key, MarkOf(e).value.value);
      }
      MarkedSettled(Mark(d, e), sources[1..]);
    }
  }

  lemma {:induction false} MarkedLength(d: Entries, sources: Entries)
    ensures |d| <= |Marked(d, sources)| && (sources == [] ==> Marked(d, sources) == d)
    decreases |sources|
  {
    if sources != [] {
      var e := sources[0];
      if MarkOf(e).Some? {
        SetKeys(d, MarkOf(e).value.key, MarkOf(e).value.value);
        assert |Keys(Mark(d, e))| == |Mark(d, e)|;
      }
      MarkedLength(Mark(d, e), sources[1..]);
    }
  }

  lemma RedactKeepsTruth(value: Json)
    ensures Truthy(Redact(value)) == Truthy(value)
  {
    if value.Obj? {
      MarkedLength(MaskedEntries(value.entries), value.entries);
    }
  }

  lemma {:induction false} MaskedTwice(e: Entry)
    requires WellFormed(e.value)
    ensures var masked := Entry(e.key, Masked(e)); Masked(masked) == masked.value && MarkOf(masked) == MarkOf(e)
    decreases e, 0
  {
    if IsSecret(e) {
    } else if IsHeaders(e) {
      var headers := e.value.entries;
      assert MaskedHeaders(MaskedHeaders(headers)) == MaskedHeaders(headers);
      assert MaskedHeaders(headers) == [] <==> headers == [];
    } else {
      RedactKeepsTruth(e.value);
      RedactKeepsShape(e.value);
      RedactIsIdempotent(e.value);
    }
  }

  /** Redacting a redacted value changes nothing. */
  lemma {:induction false} RedactIsIdempotent(value: Json)
    requires WellFormed(value)
    ensures Redact(Redact(value)) == Redact(value)
    decreases value, 1
  {
    match value
    case Arr(items) =>
      forall i | 0 <= i < |items| ensures Redact(Redact(items[i])) == Redact(items[i]) {
        RedactIsIdempotent(items[i]);
      }
    case Obj(entries) =>
      forall i | 0 <= i < |entries|
        ensures Masked(Entry(entries[i].key, Masked(entries[i]))) == Masked(entries[i])
        ensures MarkOf(Entry(entries[i].key, Masked(entries[i]))) == MarkOf(entries[i])
      {
        MaskedTwice(entries[i]);
      }
      RemarkedObject(entries);
    case _ =>
  }

  lemma RemarkedObject(entries: Entries)
    requires Keyed(entries)
    requires forall i :: 0 <= i < |entries| ==>
      var masked := Entry(entries[i].key, Masked(entries[i]));
      Masked(masked) == masked.value && MarkOf(masked) == MarkOf(entries[i])
    ensures Redact(Redact(Obj(entries))) == Redact(Obj(entries))
  {
    var masked := MaskedEntries(entries);
    var redacted := Marked(masked, entries);
    assert Redact(Obj(entries)) == Obj(redacted);
    assert Redact(Obj(redacted)) == Obj(Marked(MaskedEntries(redacted), redacted));
    hide Redact, Masked, MarkOf, Marked;
    assert Settled(masked);
    MarkedSettled(masked, entries);
    assert MaskedEntries(redacted) == redacted;
    assert Keyed(masked);
    MarkedKeyed(masked, entries);
    forall key | LastMark(redacted, key).Some? ensures Get(redacted, key) == LastMark(redacted, key) {
      LastMarkMarked(masked, entries, key);
      LastMarkTogether(masked, entries, key);
      GetOfMarked(masked, entries, key);
    }
    MarkedAgain(redacted, redacted);
  }

  predicate NoMarkers(value: Json)
    decreases value
  {
    match value
    case Arr(items) => forall i :: 0 <= i < |items| ==> NoMarkers(items[i])
    case Obj(entries) => forall i :: 0 <= i < |entries| ==> !IsMarker(entries[i].key) && NoMarkers(entries[i].value)
    case _ => true
  }

  lemma UnmarkedRedaction(entries: Entries)
    requires forall i :: 0 <= i < |entries| ==> !IsMarker(entries[i].key)
    ensures Unmarked(Redact(Obj(entries)).entries) == MaskedEntries(entries)
  {
    var masked := MaskedEntries(entries);
    UnmarkedMarked(masked, entries);
    UnmarkedLength(masked);
    hide IsMarker;
    forall i | 0 <= i < |masked| ensures !IsMarker(masked[i].key) { assert masked[i].key == entries[i].key; }
  }

  /** Without marker keys, two values have the same redacted form exactly when they differ in
      secrets and header values only: everything else stays readable. */
  lemma {:induction false} OnlySecretsAreHidden(value: Json, other: Json)
    requires NoMarkers(value) && NoMarkers(other)
    ensures Redact(value) == Redact(other) <==> SamePublic(value, other)
    decreases value, 1
  {
    if SamePublic(value, other) {
      SecretsAreHidden(value, other);
    } else if Redact(value) == Redact(other) {
      RedactKeepsShape(value);
      RedactKeepsShape(other);
      match (value, other)
      case (Arr(items), Arr(others)) =>
        var redacted := Redact(value).items;
        assert redacted == Redact(other).items;
        assert |items| == |redacted| == |others|;
        forall i | 0 <= i < |items| ensures SamePublic(items[i], others[i]) {
          assert redacted[i] == Redact(items[i]) && redacted[i] == Redact(others[i]);
          OnlySecretsAreHidden(items[i], others[i]);
        }
      case (Obj(entries), Obj(others)) =>
        UnmarkedRedaction(entries);
        UnmarkedRedaction(others);
        var masked := MaskedEntries(entries);
        assert masked == MaskedEntries(others);
        forall i | 0 <= i < |entries| ensures entries[i].key == others[i].key && SamePublicEntry(entries[i], others[i]) {
          assert masked[i] == Entry(entries[i].key, Masked(entries[i])) == Entry(others[i].key, Masked(others[i]));
          OnlySecretIsHidden(entries[i], others[i]);
        }
      case _ =>
    }
  }

  lemma {:induction false} OnlySecretIsHidden(e: Entry, other: Entry)
    requires e.key == other.key && Masked(e) == Masked(other) && NoMarkers(e.value) && NoMarkers(other.value)
    ensures SamePublicEntry(e, other)
    decreases e, 0
  {
    RedactKeepsTruth(e.value);
    RedactKeepsTruth(other.value);
    RedactKeepsShape(e.value);
    RedactKeepsShape(other.value);
    if IsSecret(e) {
    } else if IsHeaders(e) {
      var names, otherNames := MaskedHeaders(e.value.entries), MaskedHeaders(other.value.entries);
      assert names == otherNames;
      forall i | 0 <= i < |e.value.entries| ensures e.value.entries[i].key == other.value.entries[i].key {
        assert names[i].key == otherNames[i].key;
      }
    } else {
      OnlySecretsAreHidden(e.value, other.value);
    }
  }

  // ----- Which names are hidden, and what is said of them -----

  /** A letter of a name in either case, either separator for an underscore; the Kelvin sign lowers to
      a k. */
  predicate SpellsChar(c: char, d: char) {
    c == d || (d == '_' && c == '-') || ('a' <= d <= 'z' && c == d - 'a' + 'A') || (d == 'k' && c == '\U{212A}')
  }

  predicate Spells(key: string, name: string) {
    |key| == |name| && forall i :: 0 <= i < |key| ==> SpellsChar(key[i], name[i])
  }

  lemma SpelledExactly(key: string, name: string)
    requires forall c :: c in name ==> 'a' <= c <= 'z' || c == '_'
    ensures Normalized(key) == name <==> Spells(key, name)
  {
    if |key| == |name| {
      forall i | 0 <= i < |key| ensures NormalizedChar(key[i]) == name[i] <==> SpellsChar(key[i], name[i]) {
        assert name[i] in name;
      }
      hide SpellsChar, NormalizedChar;
      if Normalized(key) == name {
        forall i | 0 <= i < |key| ensures SpellsChar(key[i], name[i]) { assert Normalized(key)[i] == name[i]; }
      }
    }
  }

  /** The hidden names are the spellings of five names, in any case and with either separator. */
  lemma HiddenNamesExactly(key: string)
    ensures IsSecretName(key) <==> Spells(key, "api_key") || Spells(key, "apikey")
    ensures IsHeadersName(key) <==> Spells(key, "headers") || Spells(key, "extra_headers") || Spells(key, "extraheaders")
  {
    SpelledExactly(key, "api_key");
    SpelledExactly(key, "apikey");
    SpelledExactly(key, "headers");
    SpelledExactly(key, "extra_headers");
    SpelledExactly(key, "extraheaders");
    hide Spells, Normalized;
  }

  /** A secret counts as set unless it is one of Python's false values. */
  lemma TruthyExactly(value: Json)
    ensures Truthy(value) <==> value !in {Null, Bool(false), Int(0), Float(0.0), Str(""), Arr([]), Obj([])}
  {
  }

  lemma {:induction false} SetElsewhere(d: Entries, key: string, value: Json, i: nat)
    requires i < |d| && d[i].key != key
    ensures i < |Set(d, key, value)| && Set(d, key, value)[i] == d[i]
  {
    if d[0].key != key && i > 0 { SetElsewhere(d[1..], key, value, i - 1); }
  }

  lemma {:induction false} MarkedElsewhere(d: Entries, sources: Entries, i: nat)
    requires i < |d| && !IsMarker(d[i].key)
    ensures i < |Marked(d, sources)| && Marked(d, sources)[i] == d[i]
    decreases |sources|
  {
    if sources != [] {
      if MarkOf(sources[0]).Some? { SetElsewhere(d, MarkOf(sources[0]).value.key, MarkOf(sources[0]).value.value, i); }
      MarkedElsewhere(Mark(d, sources[0]), sources[1..], i);
    }
  }

  /** However its name is spelled, a secret that is set is masked where it stands, and so is every
      value of a headers object, whose names stay. */
  lemma SpelledSecretsAreMasked(entries: Entries, i: nat)
    requires i < |entries|
    ensures var e, redacted := entries[i], Redact(Obj(entries)).entries;
            (Spells(e.key, "api_key") || Spells(e.key, "apikey")) && Truthy(e.value) ==>
              i < |redacted| && redacted[i] == Entry(e.key, Str("<redacted>"))
    ensures var e, redacted := entries[i], Redact(Obj(entries)).entries;
            (Spells(e.key, "headers") || Spells(e.key, "extra_headers") || Spells(e.key, "extraheaders")) && e.value.Obj? ==>
              i < |redacted| && redacted[i].key == e.key && redacted[i].value.Obj?
              && |redacted[i].value.entries| == |e.value.entries|
              && forall j :: 0 <= j < |e.value.entries| ==>
                   redacted[i].value.entries[j] == Entry(e.value.entries[j].key, Str("<redacted>"))
  {
    var e := entries[i];
    HiddenNamesExactly(e.key);
    assert IsSecretName(e.key) || IsHeadersName(e.key) ==> !IsMarker(e.key) && !(IsSecretName(e.key) && IsHeadersName(e.key)) by {
      NamesAreNoMarkers(e.key);
    }
    if !IsMarker(e.key) { MarkedElsewhere(MaskedEntries(entries), entries, i); }
    hide Spells, Normalized, IsSecretName, IsHeadersName, IsMarker, Marked;
  }

  lemma NamesAreNoMarkers(key: string)
    ensures IsSecretName(key) || IsHeadersName(key) ==> !IsMarker(key)
    ensures !(IsSecretName(key) && IsHeadersName(key))
  {
    assert |Normalized(key)| == |key|;
    assert |HAS_API_KEY| == 11 && |HAS_HEADERS| == 11 && |HAS_EXTRA_HEADERS| == 17;
  }

  /** The object of the last entry whose name is spelled so. */
  function LastObject(entries: Entries, extra: bool): Option<Entries> {
    if entries == [] then None
    else
      var rest := LastObject(entries[1..], extra);
      var e := entries[0];
      if rest.Some? then rest
      else if e.value.Obj? && (if extra then Spells(e.key, "extra_headers") || Spells(e.key, "extraheaders") else Spells(e.key, "headers"))
      then Some(e.value.entries)
      else None
  }

  lemma {:induction false} LastMarkOfHeaders(entries: Entries)
    ensures LastMark(entries, HAS_API_KEY)
            == (if exists e :: e in entries && (Spells(e.key, "api_key") || Spells(e.key, "apikey")) && Truthy(e.value) then Some(Bool(true)) else None)
    ensures LastMark(entries, HAS_HEADERS) == match LastObject(entries, false) case Some(h) => Some(Bool(h != [])) case None => None
    ensures LastMark(entries, HAS_EXTRA_HEADERS) == match LastObject(entries, true) case Some(h) => Some(Bool(h != [])) case None => None
  {
    if entries != [] {
      var e := entries[0];
      LastMarkOfHeaders(entries[1..]);
      HiddenNamesExactly(e.key);
      NamesAreNoMarkers(e.key);
      SpelledExactly(e.key, "headers");
      SpelledExactly(e.key, "extra_headers");
      SpelledExactly(e.key, "extraheaders");
      hide Spells, Normalized, Truthy, IsMarker;
      assert forall x :: x in entries <==> x == e || x in entries[1..];
    }
  }

  /** In an object without marker keys the markers tell whether a secret is set, and whether there are
      headers and extra headers and if so any. */
  lemma MarkersTell(entries: Entries)
    requires MarkerFree(entries)
    ensures var redacted := Redact(Obj(entries)).entries;
            && Get(redacted, "has_api_key")
               == (if exists e :: e in entries && (Spells(e.key, "api_key") || Spells(e.key, "apikey")) && Truthy(e.value) then Some(Bool(true)) else None)
            && Get(redacted, "has_headers") == (match LastObject(entries, false) case Some(h) => Some(Bool(h != [])) case None => None)
            && Get(redacted, "has_extra_headers") == (match LastObject(entries, true) case Some(h) => Some(Bool(h != [])) case None => None)
  {
    var masked := MaskedEntries(entries);
    LastMarkOfHeaders(entries);
    assert IsMarker("has_api_key") && IsMarker("has_headers") && IsMarker("has_extra_headers");
    assert MarkerFree(masked) by {
      hide IsMarker;
      forall i | 0 <= i < |masked| ensures !IsMarker(masked[i].key) { assert masked[i].key == entries[i].key; }
    }
    GetOfMarked(masked, entries, "has_api_key");
    GetOfMarked(masked, entries, "has_headers");
    GetOfMarked(masked, entries, "has_extra_headers");
    NoSuchKey(masked, "has_api_key");
    NoSuchKey(masked, "has_headers");
    NoSuchKey(masked, "has_extra_headers");
    hide IsMarker, Marked, LastMark, LastObject, Spells, Truthy;
  }

  lemma {:induction false} NoSuchKey(d: Entries, key: string)
    requires MarkerFree(d) && IsMarker(key)
    ensures Get(d, key) == None
  {
    hide IsMarker;
    if d != [] {
      MarkerFreeTail(d);
      NoSuchKey(d[1..], key);
    }
  }

  /** No string in the value is the mask, and no key reads as a marker. */
  predicate Unmasked(value: Json) {
    match value
    case Arr(items) => forall i :: 0 <= i < |items| ==> Unmasked(items[i])
    case Obj(entries) => forall i :: 0 <= i < |entries| ==> !IsMarker(entries[i].key) && Unmasked(entries[i].value)
    case _ => value != MASK
  }

  /** What a client sends without masks is stored as it was sent, whatever was there before. */
  lemma {:induction false} RestoreLeavesOthers(value: Json, existing: Json)
    requires Unmasked(value)
    ensures Restore(value, existing) == value
    decreases value
  {
    match value
    case Arr(items) =>
      forall i | 0 <= i < |items| ensures Restore(items[i], Previous(existing, NameOf(items[i]), i)) == items[i] {
        RestoreLeavesOthers(items[i], Previous(existing, NameOf(items[i]), i));
      }
    case Obj(entries) =>
      UnmarkedLength(entries);
      forall i | 0 <= i < |entries| ensures Restore(entries[i].value, Field(existing, entries[i].key)) == entries[i].value {
        RestoreLeavesOthers(entries[i].value, Field(existing, entries[i].key));
      }
      RestoreObject(entries, existing);
    case _ =>
  }

  // ----- Redaction as the program does it -----

  /** Changing a value before or after the marks are set comes to the same, unless they set it. */
  lemma {:induction false} MarkedCommutes(d: Entries, sources: Entries, key: string, value: Json)
    requires HasKey(d, key)
    ensures Marked(Set(d, key, value), sources)
            == if LastMark(sources, key).Some? then Marked(d, sources) else Set(Marked(d, sources), key, value)
    decreases |sources|
  {
    if sources != [] {
      var e := sources[0];
      if MarkOf(e).Some? && MarkOf(e).value.key == key {
        SetTwice(d, key, value, MarkOf(e).value.value);
        if LastMark(sources[1..], key).Some? {
        }
      } else {
        if MarkOf(e).Some? {
          var mark := MarkOf(e).value;
          SetCommutes(d, mark.key, mark.value, key, value);
          GetSet(d, mark.key, mark.value, key);
        }
        MarkedCommutes(Mark(d, e), sources[1..], key, value);
      }
    }
  }

  lemma {:induction false} MarkedAppend(d: Entries, sources: Entries, e: Entry)
    ensures Marked(d, sources + [e]) == Mark(Marked(d, sources), e)
    decreases |sources|
  {
    if sources == [] {
      assert sources + [e] == [e] && [e][1..] == [];
    } else {
      assert (sources + [e])[1..] == sources[1..] + [e];
      MarkedAppend(Mark(d, sources[0]), sources[1..], e);
    }
  }

  /** The object after its first `n` entries have been treated. */
  function Partly(entries: Entries, n: nat): Entries
    requires n <= |entries|
  {
    Marked(MaskedEntries(entries[..n]) + entries[n..], entries[..n])
  }

  function Treated(d: Entries, e: Entry): Entries {
    Mark(Set(d, e.key, Masked(e)), e)
  }

  lemma TreatedCases(d: Entries, e: Entry)
    ensures IsSecret(e) ==> MarkOf(e).Some? && Treated(d, e) == Set(Set(d, e.key, MASK), HAS_API_KEY, Bool(true))
    ensures IsHeaders(e) ==>
              MarkOf(e).Some?
              && Treated(d, e)
                 == Set(Set(d, e.key, Obj(MaskedHeaders(e.value.entries))),
                        if Normalized(e.key) == "headers" then HAS_HEADERS else HAS_EXTRA_HEADERS, Bool(e.value.entries != []))
    ensures !IsSecret(e) && !IsHeaders(e) ==> Treated(d, e) == Set(d, e.key, Redact(e.value))
  {
  }

  lemma PartlyNext(entries: Entries, n: nat)
    requires Keyed(entries) && n < |entries|
    ensures var d, e := Partly(entries, n), entries[n];
            Partly(entries, n + 1)
            == (if Get(d, e.key) == Some(e.value) then Treated(d, e) else d)
            && (MarkOf(e).Some? ==> Get(d, e.key) == Some(e.value))
  {
    var e, before := entries[n], MaskedEntries(entries[..n]);
    var d := before + entries[n..];
    assert entries[n..] == [e] + entries[n + 1..];
    assert d == before + [e] + entries[n + 1..];
    GetSplit(before, e, entries[n + 1..]);
    assert MaskedEntries(entries[..n + 1]) + entries[n + 1..] == Set(d, e.key, Masked(e)) by {
      assert MaskedEntries(entries[..n + 1]) == before + [Entry(e.key, Masked(e))];
    }
    assert entries[..n + 1] == entries[..n] + [e];
    MarkedAppend(Set(d, e.key, Masked(e)), entries[..n], e);
    MarkedCommutes(d, entries[..n], e.key, Masked(e));
    GetOfMarked(d, entries[..n], e.key);
    var mark := LastMark(entries[..n], e.key);
    assert Treated(Marked(d, entries[..n]), e) == Mark(Set(Marked(d, entries[..n]), e.key, Masked(e)), e);
    hide Marked, Masked, MarkOf, Set, Get;
    if mark.Some? {
      LastMarkIsMarker(entries[..n], e.key);
      MarkersAreInert(e.key, e.value);
      assert MarkOf(e).None? && e == Entry(e.key, e.value);
      if mark == Some(e.value) {
        SetTwice(Marked(d, entries[..n]), e.key, e.value, e.value);
      }
    }
  }

  lemma {:induction false} LastMarkIsMarker(sources: Entries, key: string)
    requires LastMark(sources, key).Some?
    ensures IsMarker(key) && LastMark(sources, key).value.Bool?
  {
    if LastMark(sources[1..], key).Some? {
      LastMarkIsMarker(sources[1..], key);
    }
  }

  lemma PartlyStart(entries: Entries)
    ensures Partly(entries, 0) == entries
  {
    assert MaskedEntries(entries[..0]) + entries[0..] == entries;
    MarkedLength(entries, entries[..0]);
  }

  lemma PartlyEnd(entries: Entries)
    ensures Obj(Partly(entries, |entries|)) == Redact(Obj(entries))
  {
    assert entries[..|entries|] == entries;
    assert MaskedEntries(entries) + entries[|entries|..] == MaskedEntries(entries);
  }

  lemma RedactedList(items: seq<Json>, redacted: seq<Json>)
    requires |redacted| == |items| && forall i :: 0 <= i < |items| ==> redacted[i] == Redact(items[i])
    ensures Redact(Arr(items)) == Arr(redacted)
  {
  }

  lemma RedactedScalar(value: Json)
    requires !value.Arr? && !value.Obj?
    ensures Redact(value) == value
  {
  }

  /** `_redact_tenant_execution_secrets`: walks a snapshot of the object's entries and rewrites the
      object, in which an entry may have been replaced by a marker meanwhile. */
  method RedactSecrets(value: Json) returns (r: Json)
    requires WellFormed(value)
    ensures r == Redact(value)
    decreases value
  {
    hide Redact, Treated, Partly, MarkOf;
    match value
    case Arr(items) =>
      var redacted := [];
      for n := 0 to |items|
        invariant |redacted| == n && forall i :: 0 <= i < n ==> redacted[i] == Redact(items[i])
      {
        var item := RedactSecrets(items[n]);
        redacted := redacted + [item];
      }
      r := Arr(redacted);
      RedactedList(items, redacted);
    case Obj(snapshot) =>
      var d := snapshot;
      PartlyStart(snapshot);
      for n := 0 to |snapshot|
        invariant d == Partly(snapshot, n)
      {
        var key, item := snapshot[n].key, snapshot[n].value;
        PartlyNext(snapshot, n);
        TreatedCases(d, snapshot[n]);
        if IsSecretName(key) && Truthy(item) {
          d := Set(d, key, MASK);
          d := Set(d, HAS_API_KEY, Bool(true));
        } else if IsHeadersName(key) && item.Obj? {
          d := Set(d, key, Obj(MaskedHeaders(item.entries)));
          if Normalized(key) == "headers" {
            d := Set(d, HAS_HEADERS, Bool(item.entries != []));
          } else {
            d := Set(d, HAS_EXTRA_HEADERS, Bool(item.entries != []));
          }
        } else {
          var redacted := RedactSecrets(item);
          if Get(d, key) == Some(item) {
            d := Set(d, key, redacted);
          }
        }
      }
      r := Obj(d);
      PartlyEnd(snapshot);
    case _ =>
      r := value;
      RedactedScalar(value);
  }
}
