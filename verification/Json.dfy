/** JSON values as Python decodes them: objects are dictionaries in insertion order. */
module Json {
  import opened Wrappers

  datatype Json =
    | Null
    | Bool(b: bool)
    | Int(n: int)
    | Float(r: real)
    | Str(s: string)
    | Arr(items: seq<Json>)
    | Obj(entries: seq<Entry>)

  datatype Entry = Entry(key: string, value: Json)

  type Entries = seq<Entry>

  /** `d.get(key)` */
  function Get(d: Entries, key: string): Option<Json> {
    if d == [] then None
    else if d[0].key == key then Some(d[0].value)
    else Get(d[1..], key)
  }

  /** `d[key] = value`: in place for a key that is there, at the end for a new one. */
  function Set(d: Entries, key: string, value: Json): Entries {
    if d == [] then [Entry(key, value)]
    else if d[0].key == key then [Entry(key, value)] + d[1..]
    else [d[0]] + Set(d[1..], key, value)
  }

  /** `{**a, **b}` and `a.update(b)` */
  function Merge(a: Entries, b: Entries): Entries
    decreases |b|
  {
    if b == [] then a else Merge(Set(a, b[0].key, b[0].value), b[1..])
  }

  predicate HasKey(d: Entries, key: string) {
    Get(d, key).Some?
  }

  lemma {:induction false} GetSet(d: Entries, key: string, value: Json, other: string)
    ensures Get(Set(d, key, value), other) == if other == key then Some(value) else Get(d, other)
  {
    if d != [] {
      if d[0].key != key {
        GetSet(d[1..], key, value, other);
        assert Set(d, key, value)[1..] == Set(d[1..], key, value);
      } else {
        assert Set(d, key, value)[1..] == d[1..];
      }
    }
  }

  lemma {:induction false} SetCommutes(d: Entries, a: string, x: Json, b: string, y: Json)
    requires a != b && HasKey(d, b)
    ensures Set(Set(d, a, x), b, y) == Set(Set(d, b, y), a, x)
  {
    if d[0].key != a && d[0].key != b {
      SetCommutes(d[1..], a, x, b, y);
      assert Set(d, a, x)[1..] == Set(d[1..], a, x) && Set(d, b, y)[1..] == Set(d[1..], b, y);
    } else if d[0].key == b {
      assert Set(d, b, y)[1..] == d[1..];
      assert Set(d, a, x)[1..] == Set(d[1..], a, x);
    } else {
      assert Set(d, a, x)[1..] == d[1..];
      assert Set(d, b, y)[1..] == Set(d[1..], b, y);
    }
  }

  lemma {:induction false} SetTwice(d: Entries, key: string, x: Json, y: Json)
    ensures Set(Set(d, key, x), key, y) == Set(d, key, y)
    ensures Get(d, key) == Some(y) ==> Set(d, key, y) == d
  {
    if d != [] && d[0].key != key {
      SetTwice(d[1..], key, x, y);
      assert Set(d, key, x)[1..] == Set(d[1..], key, x);
    }
  }

  /** The last entry of that key, which is the one left when the entries are written in order. */
  function LastOf(d: Entries, key: string): Option<Json> {
    if d == [] then None
    else if d[|d| - 1].key == key then Some(d[|d| - 1].value)
    else LastOf(d[..|d| - 1], key)
  }

  lemma {:induction false} MergeAppend(a: Entries, b: Entries, e: Entry)
    ensures Merge(a, b + [e]) == Set(Merge(a, b), e.key, e.value)
    decreases |b|
  {
    if b == [] {
      assert b + [e] == [e] && [e][1..] == [];
    } else {
      assert (b + [e])[1..] == b[1..] + [e];
      MergeAppend(Set(a, b[0].key, b[0].value), b[1..], e);
    }
  }

  /** In a merged object the entries of the second win. */
  lemma {:induction false} GetMerge(a: Entries, b: Entries, key: string)
    ensures Get(Merge(a, b), key) == if HasKey(b, key) then LastOf(b, key) else Get(a, key)
    ensures HasKey(b, key) <==> LastOf(b, key).Some?
    decreases |b|
  {
    if b != [] {
      var earlier, last := b[..|b| - 1], b[|b| - 1];
      assert b == earlier + [last];
      GetMerge(a, earlier, key);
      MergeAppend(a, earlier, last);
      GetSet(Merge(a, earlier), last.key, last.value, key);
      GetConcat(earlier, last, key);
      hide Merge, Set;
    }
  }

  lemma {:induction false} GetConcat(d: Entries, e: Entry, key: string)
    ensures Get(d + [e], key) == if HasKey(d, key) then Get(d, key) else if e.key == key then Some(e.value) else None
  {
    if d == [] {
      assert d + [e] == [e] && [e][1..] == [];
    } else {
      assert (d + [e])[1..] == d[1..] + [e];
      GetConcat(d[1..], e, key);
    }
  }
}
