/** Names under which tools are offered to a provider: sanitized, made unique by numbered suffixes,
    and resolved back to the internal names. */
module ToolNames {
  import opened Decimal
  import opened Sets
  import opened Texts

  predicate IsNameChar(c: char) {
    'a' <= c <= 'z' || 'A' <= c <= 'Z' || '0' <= c <= '9' || c == '_' || c == '-'
  }

  lemma NameCharactersAre(c: char)
    ensures IsNameChar(c)
            <==> c in "abcdefghijklmnopqrstuvwxyz" || c in "ABCDEFGHIJKLMNOPQRSTUVWXYZ" || c in "0123456789" || c in "_-"
  {
    LowerCase(c);
    UpperCase(c);
  }

  lemma LowerCase(c: char)
    ensures 'a' <= c <= 'z' <==> c in "abcdefghijklmnopqrstuvwxyz"
  {
  }

  lemma UpperCase(c: char)
    ensures 'A' <= c <= 'Z' <==> c in "ABCDEFGHIJKLMNOPQRSTUVWXYZ"
  {
  }

  predicate IsUnderscore(c: char) {
    c == '_'
  }

  /** `_sanitize_tool_name` */
  function Sanitize(name: string): string {
    var sanitized := Strip(Squash(name, IsNameChar, '_', false), IsUnderscore);
    if sanitized == "" then "tool" else sanitized
  }

  predicate IsProviderName(name: string) {
    name != "" && forall c :: c in name ==> IsNameChar(c)
  }

  predicate KeepsOwnName(name: string) {
    IsProviderName(name) && name[0] != '_' && name[|name| - 1] != '_'
  }

  /** Sanitizing gives a valid name without outer underscores, and leaves exactly those alone. */
  lemma SanitizeExactly(name: string)
    ensures IsProviderName(Sanitize(name))
    ensures Sanitize(name) == name <==> KeepsOwnName(name)
  {
    var squashed := Squash(name, IsNameChar, '_', false);
    SquashChars(name, IsNameChar, '_', false);
    StripEnds(squashed, IsUnderscore);
    if IsProviderName(name) { SquashKept(name, IsNameChar, '_', false); }
  }

  /** What an invalid name becomes: its valid parts, in order, joined by one underscore for each run of
      other characters between them. Underscores at the ends of the name, and other characters
      around them, are dropped; a name of nothing else becomes `tool`. */
  lemma SanitizeJoins(before: string, parts: seq<string>, gaps: seq<string>, after: string)
    requires IsInterleaving(parts, gaps, IsNameChar)
    requires IsEdge(before) && IsEdge(after)
    requires parts[0][0] != '_' && parts[|parts| - 1][|parts[|parts| - 1]| - 1] != '_'
    ensures Sanitize(before + Interleaved(parts, gaps) + after) == JoinWith('_', parts)
  {
    var text := Interleaved(parts, gaps);
    var joined := JoinWith('_', parts);
    var x := SquashEdge(before, text + after, false);
    InterleavedStarts(parts, gaps);
    var y := SquashMiddle(parts, gaps, after);
    assert before + text + after == before + (text + after);
    JoinedEnds(parts);
    StripBetween(x, joined, y, IsUnderscore);
    assert Squash(before + text + after, IsNameChar, '_', false) == x + joined + y;
    hide Squash, Strip, JoinWith, Interleaved;
  }

  /** Underscores and characters that are not valid. */
  predicate IsEdge(s: string) {
    forall c :: c in s ==> c == '_' || !IsNameChar(c)
  }

  lemma OnlyEdgesBecomeTool(name: string)
    requires IsEdge(name)
    ensures Sanitize(name) == "tool"
  {
    var x := SquashAllEdge(name, false);
    StripBetween(x, "", "", IsUnderscore);
    assert x + "" + "" == x;
  }

  lemma {:induction false} SquashAllEdge(edge: string, inRun: bool) returns (r: string)
    requires IsEdge(edge)
    ensures r == Squash(edge, IsNameChar, '_', inRun) && AllKept(r, IsUnderscore)
  {
    r := Squash(edge, IsNameChar, '_', inRun);
    if edge != "" {
      assert edge[0] in edge && forall c :: c in edge[1..] ==> c in edge;
      var rest := SquashAllEdge(edge[1..], !IsNameChar(edge[0]));
    }
  }

  /** An edge before a valid character leaves underscores only. */
  lemma {:induction false} SquashEdge(edge: string, rest: string, inRun: bool) returns (r: string)
    requires IsEdge(edge) && rest != "" && IsNameChar(rest[0])
    ensures AllKept(r, IsUnderscore) && Squash(edge + rest, IsNameChar, '_', inRun) == r + Squash(rest, IsNameChar, '_', false)
  {
    if edge == "" {
      assert edge + rest == rest;
      r := "";
    } else {
      assert (edge + rest)[1..] == edge[1..] + rest && edge[0] in edge && forall c :: c in edge[1..] ==> c in edge;
      var more := SquashEdge(edge[1..], rest, !IsNameChar(edge[0]));
      r := (if IsNameChar(edge[0]) then [edge[0]] else if inRun then "" else "_") + more;
    }
  }

  lemma {:induction false} SquashMiddle(parts: seq<string>, gaps: seq<string>, after: string) returns (y: string)
    requires IsInterleaving(parts, gaps, IsNameChar) && IsEdge(after)
    ensures AllKept(y, IsUnderscore)
    ensures Squash(Interleaved(parts, gaps) + after, IsNameChar, '_', false) == JoinWith('_', parts) + y
    decreases |parts|
  {
    hide Squash, IsNameChar;
    if gaps == [] {
      SquashKeptFirst(parts[0], after, IsNameChar, '_', false);
      y := SquashAllEdge(after, false);
    } else {
      var rest := Interleaved(parts[1..], gaps[1..]);
      y := SquashMiddle(parts[1..], gaps[1..], after);
      assert parts[0] + gaps[0] + rest + after == parts[0] + (gaps[0] + (rest + after));
      SquashKeptFirst(parts[0], gaps[0] + (rest + after), IsNameChar, '_', false);
      SquashGapFirst(gaps[0], rest + after, IsNameChar, '_', false);
      InterleavedStarts(parts[1..], gaps[1..]);
      RunEnds(rest + after);
    }
  }

  lemma RunEnds(s: string)
    requires s != "" && IsNameChar(s[0])
    ensures Squash(s, IsNameChar, '_', true) == Squash(s, IsNameChar, '_', false)
  {
  }

  lemma InterleavedStarts(parts: seq<string>, gaps: seq<string>)
    requires IsInterleaving(parts, gaps, IsNameChar)
    ensures Interleaved(parts, gaps) != "" && Interleaved(parts, gaps)[0] == parts[0][0] && IsNameChar(parts[0][0])
  {
    assert parts[0][0] in parts[0];
  }

  lemma {:induction false} JoinedEnds(parts: seq<string>)
    requires parts != [] && forall i :: 0 <= i < |parts| ==> parts[i] != ""
    ensures var joined, last := JoinWith('_', parts), parts[|parts| - 1];
            joined != "" && joined[0] == parts[0][0] && joined[|joined| - 1] == last[|last| - 1]
    decreases |parts|
  {
    if |parts| > 1 { JoinedEnds(parts[1..]); }
  }

  // ----- Suffixes -----

  /** `f"{base_name}_{suffix}"` */
  function Numbered(base: string, suffix: nat): string {
    base + "_" + NatText(suffix)
  }

  lemma NumberedInjective(base: string, j: nat, k: nat)
    requires Numbered(base, j) == Numbered(base, k)
    ensures j == k
  {
    assert NatText(j) == Numbered(base, j)[|base| + 1..];
    assert NatText(k) == Numbered(base, k)[|base| + 1..];
    NatTextInjective(j, k);
  }

  lemma NumberedValid(base: string, suffix: nat)
    requires IsProviderName(base)
    ensures IsProviderName(Numbered(base, suffix))
  {
    hide NatText;
    forall c | c in Numbered(base, suffix) ensures IsNameChar(c) {
      assert c in base || c == '_' || (c in NatText(suffix) && IsDigit(c));
    }
  }

  /** The used names that numbers from `suffix` on still run into. */
  ghost function Ahead(base: string, used: set<string>, suffix: nat): set<string> {
    set u | u in used && exists k: nat :: k >= suffix && u == Numbered(base, k)
  }

  lemma AheadShrinks(base: string, used: set<string>, suffix: nat)
    requires Numbered(base, suffix) in used
    ensures |Ahead(base, used, suffix + 1)| < |Ahead(base, used, suffix)|
  {
    var u := Numbered(base, suffix);
    assert u in Ahead(base, used, suffix);
    assert u !in Ahead(base, used, suffix + 1) by {
      forall k: nat | k >= suffix + 1 ensures u != Numbered(base, k) {
        if u == Numbered(base, k) { NumberedInjective(base, suffix, k); }
      }
    }
    assert Ahead(base, used, suffix + 1) <= Ahead(base, used, suffix) - {u};
    SubsetSize(Ahead(base, used, suffix + 1), Ahead(base, used, suffix) - {u});
  }

  /** The sanitized name if it is free, or else its first free number from 2 on. */
  predicate IsFree(base: string, used: set<string>, name: string, suffix: nat) {
    name !in used && suffix >= 2
    && if base !in used then name == base
       else name == Numbered(base, suffix) && forall k :: 2 <= k < suffix ==> Numbered(base, k) in used
  }

  lemma FreeUnique(base: string, used: set<string>, a: string, m: nat, b: string, n: nat)
    requires IsFree(base, used, a, m) && IsFree(base, used, b, n)
    ensures a == b
  {
  }

  /** The inner loop. Each number tried is one used name fewer ahead, so it ends. */
  method FreeName(base: string, used: set<string>) returns (name: string)
    ensures name !in used
    ensures exists number :: IsFree(base, used, name, number)
  {
    name := base;
    var suffix := 2;
    ghost var number := 2;
    while name in used
      invariant suffix >= 2
      invariant suffix == 2 ==> name == base
      invariant suffix > 2 ==> base in used && name == Numbered(base, suffix - 1)
      invariant forall k :: 2 <= k < suffix - 1 ==> Numbered(base, k) in used
      invariant number == if suffix == 2 then 2 else suffix - 1
      decreases |Ahead(base, used, if suffix == 2 then 2 else suffix - 1)|, if suffix == 2 then 1 else 0
    {
      if suffix > 2 { AheadShrinks(base, used, suffix - 1); }
      number := suffix;
      name := Numbered(base, suffix);
      suffix := suffix + 1;
    }
    assert IsFree(base, used, name, number);
  }

  lemma FreeExists(base: string, used: set<string>)
    ensures exists name, number :: IsFree(base, used, name, number)
  {
    if base !in used {
      assert IsFree(base, used, base, 2);
    } else {
      var n := FirstFree(base, used, 2);
      assert IsFree(base, used, Numbered(base, n), n);
    }
  }

  lemma {:induction false} FirstFree(base: string, used: set<string>, from: nat) returns (n: nat)
    requires from >= 2 && forall k :: 2 <= k < from ==> Numbered(base, k) in used
    ensures n >= 2 && Numbered(base, n) !in used && forall k :: 2 <= k < n ==> Numbered(base, k) in used
    decreases |Ahead(base, used, from)|
  {
    n := from;
    if Numbered(base, from) in used {
      AheadShrinks(base, used, from);
      n := FirstFree(base, used, from + 1);
    }
  }

  ghost function Free(base: string, used: set<string>): (name: string)
    ensures exists number :: IsFree(base, used, name, number)
  {
    FreeExists(base, used);
    var name, number :| IsFree(base, used, name, number);
    name
  }

  lemma FreeIs(base: string, used: set<string>, name: string, number: nat)
    requires IsFree(base, used, name, number)
    ensures Free(base, used) == name
  {
    var n :| IsFree(base, used, Free(base, used), n);
    FreeUnique(base, used, name, number, Free(base, used), n);
  }

  // ----- The map -----

  datatype Naming = Naming(names: map<string, string>, used: set<string>)

  ghost function Name(n: Naming, tool: string): Naming {
    var name := Free(Sanitize(tool), n.used);
    Naming(n.names[tool := name], n.used + {name})
  }

  ghost function NameAll(tools: seq<string>): Naming {
    if tools == [] then Naming(map[], {}) else Name(NameAll(tools[..|tools| - 1]), tools[|tools| - 1])
  }

  /** `_build_provider_tool_name_map` */
  method BuildProviderToolNameMap(tools: seq<string>) returns (names: map<string, string>)
    ensures names == NameAll(tools).names
  {
    hide Sanitize;
    names := map[];
    var used: set<string> := {};
    for n := 0 to |tools|
      invariant Naming(names, used) == NameAll(tools[..n])
    {
      var tool := tools[n];
      var name := FreeName(Sanitize(tool), used);
      ghost var number :| IsFree(Sanitize(tool), used, name, number);
      FreeIs(Sanitize(tool), used, name, number);
      names := names[tool := name];
      used := used + {name};
      assert tools[..n + 1][..n] == tools[..n];
    }
    assert tools[..|tools|] == tools;
  }

  predicate Injective(names: map<string, string>) {
    forall a, b :: a in names && b in names && a != b ==> names[a] != names[b]
  }

  predicate Named(n: Naming) {
    Injective(n.names) && forall t :: t in n.names ==> n.names[t] in n.used && IsProviderName(n.names[t])
  }

  /** Every tool gets a valid name, and no two tools the same. */
  lemma {:induction false} NamesAreValidAndDistinct(tools: seq<string>)
    ensures Named(NameAll(tools))
    ensures forall t :: t in NameAll(tools).names <==> t in tools
  {
    if tools != [] {
      var earlier, tool := tools[..|tools| - 1], tools[|tools| - 1];
      NamesAreValidAndDistinct(earlier);
      SanitizeExactly(tool);
      var n, base := NameAll(earlier), Sanitize(tool);
      var name := Free(base, n.used);
      var number :| IsFree(base, n.used, name, number);
      NumberedValid(base, number);
      assert forall t :: t in tools <==> t in earlier || t == tool;
      hide Sanitize, IsProviderName, NatText;
    }
  }

  // ----- Back to internal names -----

  /** `_resolve_internal_tool_name`: some tool of that name, or the name itself. */
  method ResolveInternalToolName(providerName: string, names: map<string, string>) returns (tool: string)
    ensures if providerName in names.Values then tool in names && names[tool] == providerName else tool == providerName
  {
    var todo := names.Keys;
    while todo != {}
      invariant todo <= names.Keys
      invariant forall t :: t in names && t !in todo ==> names[t] != providerName
      decreases |todo|
    {
      var t :| t in todo;
      if names[t] == providerName {
        return t;
      }
      todo := todo - {t};
    }
    tool := providerName;
  }

  /** Whatever order the lookup walks the map in, it undoes the renaming of every tool. */
  lemma ResolveUndoesNaming(tools: seq<string>, tool: string, resolved: string)
    requires tool in tools
    requires var names := NameAll(tools).names;
             tool in names && resolved in names && names[resolved] == names[tool]
    ensures resolved == tool
  {
    NamesAreValidAndDistinct(tools);
  }

  /** Different tools that already have valid names without outer underscores keep them all. */
  lemma {:induction false} ValidNamesAreKept(tools: seq<string>)
    requires forall i :: 0 <= i < |tools| ==> KeepsOwnName(tools[i])
    requires forall i, j :: 0 <= i < j < |tools| ==> tools[i] != tools[j]
    ensures forall t :: t in tools ==> t in NameAll(tools).names && NameAll(tools).names[t] == t
    ensures forall name :: name in NameAll(tools).used <==> name in tools
  {
    if tools != [] {
      var earlier, tool := tools[..|tools| - 1], tools[|tools| - 1];
      ValidNamesAreKept(earlier);
      SanitizeExactly(tool);
      var n := NameAll(earlier);
      assert tool !in n.used;
      FreeIs(tool, n.used, tool, 2);
      assert forall t :: t in tools <==> t in earlier || t == tool;
      hide Sanitize, KeepsOwnName;
    }
  }

  // ----- The stable order -----

  /** The sort key, `(_sanitize_tool_name(name), name)`. */
  predicate AtMost(a: string, b: string) {
    TextLess(Sanitize(a), Sanitize(b)) || (Sanitize(a) == Sanitize(b) && TextAtMost(a, b))
  }

  lemma AtMostTotal(a: string, b: string)
    ensures AtMost(a, b) || AtMost(b, a)
  {
    hide Sanitize;
    TextTotal(Sanitize(a), Sanitize(b));
    TextTotal(a, b);
  }

  lemma AtMostTransitive(a: string, b: string, c: string)
    requires AtMost(a, b) && AtMost(b, c)
    ensures AtMost(a, c)
  {
    hide Sanitize, TextLess;
    var x, y, z := Sanitize(a), Sanitize(b), Sanitize(c);
    TextTransitive(x, y, z);
    if x == y == z {
      TextIrreflexive(x);
      TextTransitive(a, b, c);
    } else if x == z {
      TextAntisymmetric(x, y);
    }
  }

  lemma AtMostAntisymmetric(a: string, b: string)
    requires AtMost(a, b) && AtMost(b, a)
    ensures a == b
  {
    hide Sanitize, TextLess;
    TextAntisymmetric(Sanitize(a), Sanitize(b));
    TextIrreflexive(Sanitize(a));
    TextAntisymmetric(a, b);
  }

  predicate Sorted(names: seq<string>) {
    forall i, j :: 0 <= i < j < |names| ==> AtMost(names[i], names[j])
  }

  /** Insertion after every name that is at most the new one, as a stable sort places it. */
  function Insert(names: seq<string>, name: string): (r: seq<string>)
    ensures multiset(r) == multiset(names) + multiset{name}
  {
    if names == [] then [name]
    else if AtMost(names[0], name) then
      assert names == [names[0]] + names[1..];
      [names[0]] + Insert(names[1..], name)
    else [name] + names
  }

  /** `_stable_tool_order`, on names */
  function StableOrder(names: seq<string>): (r: seq<string>)
    ensures multiset(r) == multiset(names)
  {
    if names == [] then []
    else
      assert names == names[..|names| - 1] + [names[|names| - 1]];
      Insert(StableOrder(names[..|names| - 1]), names[|names| - 1])
  }

  lemma {:induction false} InsertSorted(names: seq<string>, name: string)
    requires Sorted(names)
    ensures Sorted(Insert(names, name))
  {
    hide AtMost;
    var r := Insert(names, name);
    if names != [] {
      if AtMost(names[0], name) {
        InsertSorted(names[1..], name);
        var rest := Insert(names[1..], name);
        forall j | 0 <= j < |rest| ensures AtMost(names[0], rest[j]) {
          assert rest[j] in multiset(rest);
          assert rest[j] == name || rest[j] in names[1..];
        }
      } else {
        AtMostTotal(names[0], name);
        forall j | 0 <= j < |names| ensures AtMost(name, names[j]) {
          if j > 0 { AtMostTransitive(name, names[0], names[j]); }
        }
      }
    }
  }

  lemma {:induction false} StableOrderSorts(names: seq<string>)
    ensures Sorted(StableOrder(names))
  {
    if names != [] {
      StableOrderSorts(names[..|names| - 1]);
      InsertSorted(StableOrder(names[..|names| - 1]), names[|names| - 1]);
    }
  }

  lemma {:induction false} SortedUnique(a: seq<string>, b: seq<string>)
    requires Sorted(a) && Sorted(b) && multiset(a) == multiset(b)
    ensures a == b
  {
    hide AtMost;
    assert |a| == |multiset(a)| == |multiset(b)| == |b|;
    if a != [] {
      assert a[0] in multiset(b) && b[0] in multiset(a);
      AtMostTotal(a[0], a[0]);
      assert AtMost(a[0], b[0]);
      assert AtMost(b[0], a[0]);
      AtMostAntisymmetric(a[0], b[0]);
      assert a == [a[0]] + a[1..] && b == [b[0]] + b[1..];
      assert multiset(a[1..]) == multiset(a) - multiset{a[0]};
      assert multiset(b[1..]) == multiset(b) - multiset{b[0]};
      SortedUnique(a[1..], b[1..]);
    }
  }

  /** The names tools are offered under do not depend on the order in which they are given. */
  lemma NamesIgnoreOrder(tools: seq<string>, others: seq<string>)
    requires multiset(tools) == multiset(others)
    ensures StableOrder(tools) == StableOrder(others)
    ensures NameAll(StableOrder(tools)) == NameAll(StableOrder(others))
  {
    StableOrderSorts(tools);
    StableOrderSorts(others);
    SortedUnique(StableOrder(tools), StableOrder(others));
  }
}
