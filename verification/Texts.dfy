/** Strings: joining, ordering, and rewriting runs of characters. */
module Texts {
  // ----- `"".join(parts)` -----

  function Join(parts: seq<string>): string {
    if parts == [] then "" else parts[0] + Join(parts[1..])
  }

  lemma JoinNothing()
    ensures Join([]) == ""
  {
  }

  lemma {:induction false} JoinConcat(a: seq<string>, b: seq<string>)
    ensures Join(a + b) == Join(a) + Join(b)
  {
    if a == [] {
      assert a + b == b;
    } else {
      assert (a + b)[1..] == a[1..] + b;
      JoinConcat(a[1..], b);
    }
  }

  lemma {:induction false} JoinNext(parts: seq<string>, n: nat)
    requires n < |parts|
    ensures Join(parts[..n + 1]) == Join(parts[..n]) + parts[n]
  {
    if n == 0 {
      assert parts[..1][1..] == [];
      assert parts[0] + "" == parts[0];
    } else {
      assert parts[..n + 1][1..] == parts[1..][..n];
      assert parts[..n][1..] == parts[1..][..n - 1];
      JoinNext(parts[1..], n - 1);
    }
  }

  // ----- Order -----

  /** `a < b` in Python, and SQLite's default comparison of two text values: character by
      character, a proper prefix first. */
  predicate TextLess(a: string, b: string) {
    b != [] && (a == [] || a[0] < b[0] || (a[0] == b[0] && TextLess(a[1..], b[1..])))
  }

  predicate TextAtMost(a: string, b: string) {
    a == b || TextLess(a, b)
  }

  lemma {:induction false} TextIrreflexive(a: string)
    ensures !TextLess(a, a)
  {
    if a != [] { TextIrreflexive(a[1..]); }
  }

  lemma {:induction false} TextTotal(a: string, b: string)
    ensures TextAtMost(a, b) || TextAtMost(b, a)
  {
    if a != "" && b != "" && a[0] == b[0] {
      TextTotal(a[1..], b[1..]);
      assert a == [a[0]] + a[1..] && b == [b[0]] + b[1..];
    }
  }

  lemma {:induction false} TextTransitive(a: string, b: string, c: string)
    requires TextAtMost(a, b) && TextAtMost(b, c)
    ensures TextAtMost(a, c)
  {
    if a != "" && a != b && b != c && a[0] == c[0] {
      TextTransitive(a[1..], b[1..], c[1..]);
      assert a == [a[0]] + a[1..] && c == [c[0]] + c[1..];
    }
  }

  lemma {:induction false} TextAntisymmetric(a: string, b: string)
    requires TextAtMost(a, b) && TextAtMost(b, a)
    ensures a == b
  {
    if a != b {
      assert a == [a[0]] + a[1..] && b == [b[0]] + b[1..];
      TextAntisymmetric(a[1..], b[1..]);
    }
  }

  lemma {:induction false} TextLessAppend(a: string, b: string, x: string, y: string)
    requires |a| == |b|
    ensures TextLess(a + x, b + y) <==> TextLess(a, b) || (a == b && TextLess(x, y))
  {
    if a == [] {
      assert a + x == x && b + y == y;
    } else {
      assert (a + x)[1..] == a[1..] + x && (b + y)[1..] == b[1..] + y;
      assert a == [a[0]] + a[1..] && b == [b[0]] + b[1..];
      TextLessAppend(a[1..], b[1..], x, y);
    }
  }

  // ----- Runs of characters -----

  /** `re.sub("[^...]+", mark, s)`: every maximal run of characters outside the class becomes one
      mark; `inRun` says whether a run precedes `s`. */
  function Squash(s: string, keep: char -> bool, mark: char, inRun: bool): string {
    if s == "" then ""
    else if keep(s[0]) then [s[0]] + Squash(s[1..], keep, mark, false)
    else (if inRun then "" else [mark]) + Squash(s[1..], keep, mark, true)
  }

  function StripLeft(s: string, drop: char -> bool): string {
    if s != "" && drop(s[0]) then StripLeft(s[1..], drop) else s
  }

  function StripRight(s: string, drop: char -> bool): string {
    if s != "" && drop(s[|s| - 1]) then StripRight(s[..|s| - 1], drop) else s
  }

  /** `s.strip(...)` */
  function Strip(s: string, drop: char -> bool): string {
    StripRight(StripLeft(s, drop), drop)
  }

  lemma {:induction false} SquashChars(s: string, keep: char -> bool, mark: char, inRun: bool)
    ensures forall c :: c in Squash(s, keep, mark, inRun) ==> keep(c) || c == mark
  {
    if s != "" { SquashChars(s[1..], keep, mark, !keep(s[0])); }
  }

  lemma {:induction false} SquashKept(s: string, keep: char -> bool, mark: char, inRun: bool)
    requires forall c :: c in s ==> keep(c)
    ensures Squash(s, keep, mark, inRun) == s
  {
    if s != "" {
      assert keep(s[0]) by { assert s[0] in s; }
      SquashKept(s[1..], keep, mark, false);
    }
  }

  lemma {:induction false} StripLeftEnds(s: string, drop: char -> bool)
    ensures var r := StripLeft(s, drop);
            |r| <= |s| && r == s[|s| - |r|..] && (r != "" ==> !drop(r[0])) && forall c :: c in r ==> c in s
  {
    if s != "" && drop(s[0]) { StripLeftEnds(s[1..], drop); }
  }

  lemma {:induction false} StripRightEnds(s: string, drop: char -> bool)
    ensures var r := StripRight(s, drop);
            |r| <= |s| && r == s[..|r|] && (r != "" ==> !drop(r[|r| - 1])) && forall c :: c in r ==> c in s
  {
    if s != "" && drop(s[|s| - 1]) { StripRightEnds(s[..|s| - 1], drop); }
  }

  /** Everything after what is left of the text is dropped. */
  lemma {:induction false} StripRightRest(s: string, drop: char -> bool)
    ensures var r := StripRight(s, drop); |r| <= |s| && r == s[..|r|] && forall c :: c in s[|r|..] ==> drop(c)
  {
    if s != "" && drop(s[|s| - 1]) {
      StripRightRest(s[..|s| - 1], drop);
      var r := StripRight(s, drop);
      assert s[|r|..] == s[..|s| - 1][|r|..] + [s[|s| - 1]];
    }
  }

  lemma StripEnds(s: string, drop: char -> bool)
    ensures var r := Strip(s, drop);
            |r| <= |s| && (r != "" ==> !drop(r[0]) && !drop(r[|r| - 1])) && forall c :: c in r ==> c in s
    ensures s != "" && !drop(s[0]) && !drop(s[|s| - 1]) ==> Strip(s, drop) == s
  {
    StripLeftEnds(s, drop);
    StripRightEnds(StripLeft(s, drop), drop);
  }

  lemma {:induction false} StripLeftTrailing(s: string, c: char, drop: char -> bool)
    requires drop(c)
    ensures StripLeft(s + [c], drop) == if StripLeft(s, drop) == "" then "" else StripLeft(s, drop) + [c]
  {
    if s == "" {
      assert s + [c] == [c] && [c][1..] == "";
    } else {
      assert (s + [c])[1..] == s[1..] + [c] && (s + [c])[0] == s[0];
      if drop(s[0]) { StripLeftTrailing(s[1..], c, drop); }
    }
  }

  /** A trailing character that is stripped does not matter. */
  lemma StripTrailing(s: string, c: char, drop: char -> bool)
    requires drop(c)
    ensures Strip(s + [c], drop) == Strip(s, drop)
  {
    StripLeftTrailing(s, c, drop);
    var left := StripLeft(s, drop);
    assert (left + [c])[..|left|] == left;
  }

  // ----- What rewriting runs and stripping make of a text -----

  predicate AllKept(s: string, keep: char -> bool) {
    forall c :: c in s ==> keep(c)
  }

  predicate NoneKept(s: string, keep: char -> bool) {
    forall c :: c in s ==> !keep(c)
  }

  /** The parts, each followed by its gap. */
  function Interleaved(parts: seq<string>, gaps: seq<string>): string
    requires |parts| == |gaps| + 1
  {
    if gaps == [] then parts[0] else parts[0] + gaps[0] + Interleaved(parts[1..], gaps[1..])
  }

  function JoinWith(mark: char, parts: seq<string>): string
    requires parts != []
  {
    if |parts| == 1 then parts[0] else parts[0] + [mark] + JoinWith(mark, parts[1..])
  }

  /** Non-empty parts of kept characters, and non-empty gaps of others. */
  predicate IsInterleaving(parts: seq<string>, gaps: seq<string>, keep: char -> bool) {
    |parts| == |gaps| + 1
    && (forall i :: 0 <= i < |parts| ==> parts[i] != "" && AllKept(parts[i], keep))
    && forall i :: 0 <= i < |gaps| ==> gaps[i] != "" && NoneKept(gaps[i], keep)
  }

  lemma {:induction false} SquashKeptFirst(part: string, rest: string, keep: char -> bool, mark: char, inRun: bool)
    requires AllKept(part, keep)
    ensures Squash(part + rest, keep, mark, inRun) == part + Squash(rest, keep, mark, if part == "" then inRun else false)
  {
    if part == "" {
      assert part + rest == rest;
    } else {
      assert (part + rest)[1..] == part[1..] + rest && part[0] in part && forall c :: c in part[1..] ==> c in part;
      SquashKeptFirst(part[1..], rest, keep, mark, false);
      assert part == [part[0]] + part[1..];
    }
  }

  lemma {:induction false} SquashGapFirst(gap: string, rest: string, keep: char -> bool, mark: char, inRun: bool)
    requires NoneKept(gap, keep) && gap != ""
    ensures Squash(gap + rest, keep, mark, inRun) == (if inRun then "" else [mark]) + Squash(rest, keep, mark, true)
  {
    assert (gap + rest)[1..] == gap[1..] + rest && gap[0] in gap && forall c :: c in gap[1..] ==> c in gap;
    if gap[1..] == "" {
      assert gap[1..] + rest == rest;
    } else {
      SquashGapFirst(gap[1..], rest, keep, mark, true);
    }
  }

  /** Kept characters survive in order, and each run of others between them becomes one mark. */
  lemma {:induction false} SquashInterleaved(parts: seq<string>, gaps: seq<string>, keep: char -> bool, mark: char, inRun: bool)
    requires IsInterleaving(parts, gaps, keep)
    ensures Squash(Interleaved(parts, gaps), keep, mark, inRun) == JoinWith(mark, parts)
    decreases |parts|
  {
    if gaps == [] {
      assert parts[0] + "" == parts[0];
      SquashKeptFirst(parts[0], "", keep, mark, inRun);
    } else {
      var rest := Interleaved(parts[1..], gaps[1..]);
      assert parts[0] + gaps[0] + rest == parts[0] + (gaps[0] + rest);
      SquashKeptFirst(parts[0], gaps[0] + rest, keep, mark, inRun);
      SquashGapFirst(gaps[0], rest, keep, mark, false);
      SquashInterleaved(parts[1..], gaps[1..], keep, mark, true);
    }
  }

  lemma {:induction false} StripLeftFirst(blank: string, rest: string, drop: char -> bool)
    requires AllKept(blank, drop)
    ensures StripLeft(blank + rest, drop) == StripLeft(rest, drop)
  {
    if blank == "" {
      assert blank + rest == rest;
    } else {
      assert (blank + rest)[1..] == blank[1..] + rest && blank[0] in blank && forall c :: c in blank[1..] ==> c in blank;
      StripLeftFirst(blank[1..], rest, drop);
    }
  }

  lemma {:induction false} StripRightLast(rest: string, blank: string, drop: char -> bool)
    requires AllKept(blank, drop)
    ensures StripRight(rest + blank, drop) == StripRight(rest, drop)
  {
    if blank == "" {
      assert rest + blank == rest;
    } else {
      var n := |blank| - 1;
      assert (rest + blank)[..|rest| + n] == rest + blank[..n] && blank[n] in blank && forall c :: c in blank[..n] ==> c in blank;
      StripRightLast(rest, blank[..n], drop);
    }
  }

  /** Stripping leaves what stands between dropped characters, and nothing of a text of them alone. */
  lemma StripBetween(before: string, text: string, after: string, drop: char -> bool)
    requires AllKept(before, drop) && AllKept(after, drop)
    requires text != "" ==> !drop(text[0]) && !drop(text[|text| - 1])
    ensures Strip(before + text + after, drop) == text
  {
    assert before + text + after == before + (text + after);
    StripLeftFirst(before, text + after, drop);
    StripRightLast(text, after, drop);
    if text == "" {
      assert text + after == after + "";
      StripLeftFirst(after, "", drop);
    } else {
      assert (text + after)[0] == text[0];
    }
  }
}
