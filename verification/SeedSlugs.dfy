/** Deriving tenant slugs from tenant ids and planning a seed batch so that no slug is used twice. */
module SeedSlugs {
  import opened Wrappers
  import opened Decimal
  import opened Sets
  import opened Texts

  predicate IsSlugAlnum(c: char) {
    'a' <= c <= 'z' || '0' <= c <= '9'
  }

  predicate IsSlugChar(c: char) {
    IsSlugAlnum(c) || c == '-'
  }

  predicate IsHyphen(c: char) {
    c == '-'
  }

  predicate IsNotHyphen(c: char) {
    c != '-'
  }

  /** `TENANT_SLUG_PATTERN`: 1 to 63 letters, digits and hyphens, none of them at the ends. */
  predicate IsSlug(s: string) {
    1 <= |s| <= 63 && (forall c :: c in s ==> IsSlugChar(c)) && s[0] != '-' && s[|s| - 1] != '-'
  }

  lemma SlugCharactersAre(c: char)
    ensures IsSlugAlnum(c) <==> c in "abcdefghijklmnopqrstuvwxyz0123456789"
    ensures IsSlugChar(c) <==> c in "abcdefghijklmnopqrstuvwxyz0123456789-"
  {
  }

  function Cut(s: string, length: nat): string {
    if |s| > length then s[..length] else s
  }

  /** `_seed_slug_from_tenant_id` of a tenant id already in lower case; `str.lower` is not part of
      this model, so what is proved holds whatever it returns. */
  function SeedSlug(lowered: string): string {
    var hyphened := Squash(lowered, IsSlugChar, '-', false);
    var single := Strip(Squash(hyphened, IsNotHyphen, '-', false), IsHyphen);
    var slug := Strip(Cut(single, 63), IsHyphen);
    if slug == "" then "tenant" else slug
  }

  lemma {:induction false} SquashSubset(s: string, inRun: bool)
    ensures forall c :: c in Squash(s, IsNotHyphen, '-', inRun) ==> c in s || c == '-'
  {
    if s != "" { SquashSubset(s[1..], !IsNotHyphen(s[0])); }
  }

  predicate NoDoubleHyphen(s: string) {
    forall i :: 0 <= i < |s| - 1 ==> !(s[i] == '-' && s[i + 1] == '-')
  }

  lemma {:induction false} SquashUnchanged(s: string, inRun: bool)
    requires NoDoubleHyphen(s) && (inRun && s != "" ==> s[0] != '-')
    ensures Squash(s, IsNotHyphen, '-', inRun) == s
  {
    if s != "" {
      assert NoDoubleHyphen(s[1..]);
      SquashUnchanged(s[1..], s[0] == '-');
    }
  }

  /** The derived slug matches the grammar, and a tenant id that is a slug without double hyphens
      is its own slug. */
  lemma SeedSlugIsSlug(lowered: string)
    ensures IsSlug(SeedSlug(lowered))
    ensures IsSlug(lowered) && NoDoubleHyphen(lowered) ==> SeedSlug(lowered) == lowered
  {
    var hyphened := Squash(lowered, IsSlugChar, '-', false);
    SquashChars(lowered, IsSlugChar, '-', false);
    var collapsed := Squash(hyphened, IsNotHyphen, '-', false);
    SquashSubset(hyphened, false);
    StripEnds(collapsed, IsHyphen);
    var single := Strip(collapsed, IsHyphen);
    StripEnds(Cut(single, 63), IsHyphen);
    if IsSlug(lowered) && NoDoubleHyphen(lowered) {
      SquashKept(lowered, IsSlugChar, '-', false);
      SquashUnchanged(lowered, false);
    }
    hide Squash, Strip;
  }

  /** Hyphens and other characters are treated alike: both rewrites together turn each run of
      characters that are not letters or digits into one hyphen. */
  lemma {:induction false} SquashTwice(s: string, inOther: bool, inRun: bool)
    requires inOther ==> inRun
    ensures Squash(Squash(s, IsSlugChar, '-', inOther), IsNotHyphen, '-', inRun) == Squash(s, IsSlugAlnum, '-', inRun)
  {
    if s != "" {
      var rest := Squash(s[1..], IsSlugChar, '-', !IsSlugChar(s[0]));
      if IsSlugChar(s[0]) {
        assert ([s[0]] + rest)[1..] == rest;
        SquashTwice(s[1..], false, !IsSlugAlnum(s[0]));
      } else {
        assert (['-'] + rest)[1..] == rest && "" + rest == rest;
        SquashTwice(s[1..], true, true);
        var tail := Squash(s[1..], IsSlugAlnum, '-', true);
        assert "" + tail == tail;
      }
    }
  }

  /** What a tenant id becomes: its runs of letters and digits, in order, joined by single hyphens and
      cut to 63 characters, without a hyphen left at the cut; `tenant` when it has none. */
  lemma SeedSlugJoins(before: string, parts: seq<string>, gaps: seq<string>, after: string)
    requires IsInterleaving(parts, gaps, IsSlugAlnum) && NoneKept(before, IsSlugAlnum) && NoneKept(after, IsSlugAlnum)
    ensures var joined := JoinWith('-', parts);
            SeedSlug(before + Interleaved(parts, gaps) + after)
            == if |joined| <= 63 then joined else if joined[62] == '-' then joined[..62] else joined[..63]
  {
    var text, joined := Interleaved(parts, gaps), JoinWith('-', parts);
    var lowered := before + text + after;
    SquashTwice(lowered, false, false);
    SquashAround(before, parts, gaps, after);
    JoinedShape(parts);
    var x, y := if before == "" then "" else "-", if after == "" then "" else "-";
    StripBetween(x, joined, y, IsHyphen);
    hide Squash, Interleaved, JoinWith, IsSlugAlnum;
    assert Squash(Squash(lowered, IsSlugChar, '-', false), IsNotHyphen, '-', false) == x + joined + y;
    CutShape(joined);
  }

  lemma CutShape(joined: string)
    requires joined != "" && joined[0] != '-' && joined[|joined| - 1] != '-' && NoDoubleHyphen(joined)
    ensures Strip(Cut(joined, 63), IsHyphen)
            == if |joined| <= 63 then joined else if joined[62] == '-' then joined[..62] else joined[..63]
  {
    var text := if |joined| <= 63 then joined else if joined[62] == '-' then joined[..62] else joined[..63];
    var after := if |joined| > 63 && joined[62] == '-' then "-" else "";
    assert Cut(joined, 63) == "" + text + after;
    StripBetween("", text, after, IsHyphen);
  }

  lemma OnlyOthersBecomeTenant(lowered: string)
    requires NoneKept(lowered, IsSlugAlnum)
    ensures SeedSlug(lowered) == "tenant"
  {
    SquashTwice(lowered, false, false);
    if lowered != "" {
      assert lowered + "" == lowered;
      SquashGapFirst(lowered, "", IsSlugAlnum, '-', false);
    }
    var x := Squash(lowered, IsSlugAlnum, '-', false);
    assert x + "" + "" == x;
    StripBetween(x, "", "", IsHyphen);
    assert "" + "" + "" == "";
    StripBetween("", "", "", IsHyphen);
  }

  lemma SquashAround(before: string, parts: seq<string>, gaps: seq<string>, after: string)
    requires IsInterleaving(parts, gaps, IsSlugAlnum) && NoneKept(before, IsSlugAlnum) && NoneKept(after, IsSlugAlnum)
    ensures Squash(before + Interleaved(parts, gaps) + after, IsSlugAlnum, '-', false)
            == (if before == "" then "" else "-") + JoinWith('-', parts) + if after == "" then "" else "-"
  {
    var text := Interleaved(parts, gaps);
    assert before + text + after == before + (text + after);
    SquashTail(parts, gaps, after, before != "");
    if before == "" {
      assert before + (text + after) == text + after;
    } else {
      SquashGapFirst(before, text + after, IsSlugAlnum, '-', false);
    }
  }

  lemma {:induction false} SquashTail(parts: seq<string>, gaps: seq<string>, after: string, inRun: bool)
    requires IsInterleaving(parts, gaps, IsSlugAlnum) && NoneKept(after, IsSlugAlnum)
    ensures Squash(Interleaved(parts, gaps) + after, IsSlugAlnum, '-', inRun) == JoinWith('-', parts) + if after == "" then "" else "-"
    decreases |parts|
  {
    if gaps == [] {
      SquashKeptFirst(parts[0], after, IsSlugAlnum, '-', inRun);
      if after != "" {
        assert after + "" == after;
        SquashGapFirst(after, "", IsSlugAlnum, '-', false);
      }
    } else {
      var rest := Interleaved(parts[1..], gaps[1..]);
      assert parts[0] + gaps[0] + rest + after == parts[0] + (gaps[0] + (rest + after));
      SquashKeptFirst(parts[0], gaps[0] + (rest + after), IsSlugAlnum, '-', inRun);
      SquashGapFirst(gaps[0], rest + after, IsSlugAlnum, '-', false);
      SquashTail(parts[1..], gaps[1..], after, true);
    }
  }

  lemma {:induction false} JoinedShape(parts: seq<string>)
    requires parts != [] && forall i :: 0 <= i < |parts| ==> parts[i] != "" && AllKept(parts[i], IsSlugAlnum)
    ensures var joined := JoinWith('-', parts);
            joined != "" && joined[0] != '-' && joined[|joined| - 1] != '-' && NoDoubleHyphen(joined)
    decreases |parts|
  {
    assert forall c :: c in parts[0] ==> c != '-';
    assert parts[0][0] in parts[0] && parts[0][|parts[0]| - 1] in parts[0];
    if |parts| > 1 {
      JoinedShape(parts[1..]);
      var rest := JoinWith('-', parts[1..]);
      var joined, n := parts[0] + ['-'] + rest, |parts[0]|;
      forall i | 0 <= i < |joined| - 1 ensures !(joined[i] == '-' && joined[i + 1] == '-') {
        if i < n { assert joined[i] in parts[0]; } else if i > n { assert joined[i] == rest[i - n - 1] && joined[i + 1] == rest[i - n]; }
      }
    } else {
      forall i | 0 <= i < |parts[0]| ensures parts[0][i] != '-' { assert parts[0][i] in parts[0]; }
    }
  }

  // ----- Candidates -----

  /** `base[: 63 - len(suffix_text)].rstrip("-") + suffix_text` */
  function Candidate(base: string, suffix: nat): string {
    var text := "-" + NatText(suffix);
    StripRight(Cut(base, if |text| <= 63 then 63 - |text| else 0), IsHyphen) + text
  }

  function AfterLastHyphen(s: string): string {
    if s == "" || s[|s| - 1] == '-' then "" else AfterLastHyphen(s[..|s| - 1]) + [s[|s| - 1]]
  }

  lemma {:induction false} AfterLastHyphenOf(stem: string, tail: string)
    requires '-' !in tail
    ensures AfterLastHyphen(stem + "-" + tail) == tail
  {
    var s := stem + "-" + tail;
    if tail != "" {
      var n := |tail| - 1;
      assert tail[n] in tail;
      assert s[..|s| - 1] == stem + "-" + tail[..n];
      AfterLastHyphenOf(stem, tail[..n]);
      assert tail == tail[..n] + [tail[n]];
    }
  }

  /** Different suffixes give different candidates, however the base is cut. */
  lemma CandidateInjective(base: string, j: nat, k: nat)
    requires Candidate(base, j) == Candidate(base, k)
    ensures j == k
  {
    hide NatText, StripRight;
    SuffixOf(base, j);
    SuffixOf(base, k);
    NatTextInjective(j, k);
  }

  lemma SuffixOf(base: string, suffix: nat)
    ensures AfterLastHyphen(Candidate(base, suffix)) == NatText(suffix)
  {
    hide StripRight, AfterLastHyphen;
    var text := "-" + NatText(suffix);
    var stem := StripRight(Cut(base, if |text| <= 63 then 63 - |text| else 0), IsHyphen);
    assert Candidate(base, suffix) == stem + "-" + NatText(suffix);
    assert '-' !in NatText(suffix);
    AfterLastHyphenOf(stem, NatText(suffix));
  }

  lemma CandidateIsSlug(base: string, suffix: nat)
    requires IsSlug(base) && suffix < 10_000
    ensures IsSlug(Candidate(base, suffix))
  {
    NatTextLength(suffix);
    hide NatText, StripRight;
    var text := "-" + NatText(suffix);
    var cut := Cut(base, 63 - |text|);
    StripRightEnds(cut, IsHyphen);
    var stem := StripRight(cut, IsHyphen);
    assert stem != "" by { StripRightKeeps(cut, IsHyphen); }
    assert IsDigit(text[|text| - 1]) by { assert text[|text| - 1] in NatText(suffix); }
    forall c | c in Candidate(base, suffix) ensures IsSlugChar(c) {
      assert c in stem || c == '-' || (c in NatText(suffix) && IsDigit(c));
    }
  }

  function Room(suffix: nat): nat {
    var text := "-" + NatText(suffix);
    if |text| <= 63 then 63 - |text| else 0
  }

  /** A candidate is the base with its number, cut to 63 characters before the number and without
      hyphens at the cut; a base that leaves room is kept whole. */
  lemma CandidateExactly(base: string, suffix: nat)
    requires IsSlug(base) && suffix < 10_000
    ensures var text, stem := "-" + NatText(suffix), StripRight(Cut(base, Room(suffix)), IsHyphen);
            Candidate(base, suffix) == stem + text && |text| + Room(suffix) == 63 && |Candidate(base, suffix)| <= 63
            && stem <= base && (|base| + |text| <= 63 ==> stem == base)
            && (|base| + |text| > 63 ==> forall i :: |stem| <= i < 63 - |text| ==> base[i] == '-')
  {
    NatTextLength(suffix);
    hide NatText;
    var text := "-" + NatText(suffix);
    var cut := Cut(base, 63 - |text|);
    StripRightRest(cut, IsHyphen);
    var stem := StripRight(cut, IsHyphen);
    assert cut <= base;
    if |base| + |text| > 63 {
      forall i | |stem| <= i < 63 - |text| ensures base[i] == '-' { assert cut[i] == base[i] && cut[i] in cut[|stem|..]; }
    }
  }

  lemma {:induction false} StripRightKeeps(s: string, drop: char -> bool)
    requires s != "" && !drop(s[0])
    ensures StripRight(s, drop) != ""
  {
    if drop(s[|s| - 1]) { StripRightKeeps(s[..|s| - 1], drop); }
  }

  // ----- A unique slug -----

  const SUFFIXES: nat := 10_000

  /** The slug, or None when the base and every candidate are in use. */
  ghost predicate IsUniqueSlug(base: string, used: set<string>, slug: Option<string>) {
    if base !in used then slug == Some(base)
    else
      match slug
      case None => forall k :: 2 <= k < SUFFIXES ==> Candidate(base, k) in used
      case Some(s) =>
        exists k :: 2 <= k < SUFFIXES && s == Candidate(base, k) && s !in used && forall j :: 2 <= j < k ==> Candidate(base, j) in used
  }

  method UniqueSlug(lowered: string, used: set<string>) returns (slug: Option<string>)
    ensures IsUniqueSlug(SeedSlug(lowered), used, slug)
    ensures slug.Some? ==> IsSlug(slug.value) && slug.value !in used
    ensures |used| < SUFFIXES - 2 ==> slug.Some?
  {
    var base := SeedSlug(lowered);
    SeedSlugIsSlug(lowered);
    hide SeedSlug, Candidate, IsSlug;
    if base !in used {
      return Some(base);
    }
    for suffix := 2 to SUFFIXES
      invariant forall k :: 2 <= k < suffix ==> Candidate(base, k) in used
    {
      var candidate := Candidate(base, suffix);
      if candidate !in used {
        CandidateIsSlug(base, suffix);
        return Some(candidate);
      }
    }
    ManyInUse(base, used);
    slug := None;
  }

  ghost function Candidates(base: string, end: nat): set<string> {
    set k: nat | 2 <= k < end :: Candidate(base, k)
  }

  lemma {:induction false} CandidatesDiffer(base: string, end: nat)
    requires end >= 2
    ensures |Candidates(base, end)| == end - 2
  {
    hide Candidate;
    if end == 2 {
      assert Candidates(base, end) == {};
    } else {
      CandidatesDiffer(base, end - 1);
      var last := Candidate(base, end - 1);
      assert last !in Candidates(base, end - 1) by {
        forall k: nat | 2 <= k < end - 1 ensures Candidate(base, k) != last {
          if Candidate(base, k) == last { CandidateInjective(base, k, end - 1); }
        }
      }
      assert Candidates(base, end) == Candidates(base, end - 1) + {last};
    }
  }

  /** The search can only fail with 9,998 slugs in use. */
  lemma ManyInUse(base: string, used: set<string>)
    requires forall k :: 2 <= k < SUFFIXES ==> Candidate(base, k) in used
    ensures |used| >= SUFFIXES - 2
  {
    hide Candidate;
    CandidatesDiffer(base, SUFFIXES);
    SubsetSize(Candidates(base, SUFFIXES), used);
  }

  // ----- Planning a batch -----

  datatype Policy = FailOnConflict | SkipConflict | SuffixConflict

  datatype PlanError = UnknownOverride | InvalidOverride | NoUniqueSlug | SlugConflicts

  datatype Planned = Planned(tenant: string, slug: string)

  /** Slugs a seed run may create: well formed, all different, none of them registered. */
  ghost predicate SafePlan(plan: seq<Planned>, registered: set<string>) {
    (forall i :: 0 <= i < |plan| ==> IsSlug(plan[i].slug) && plan[i].slug !in registered)
    && forall i, j :: 0 <= i < j < |plan| ==> plan[i].slug != plan[j].slug
  }

  function Requested(tenant: string, overrides: map<string, string>, lower: string -> string): string {
    if tenant in overrides then overrides[tenant] else SeedSlug(lower(tenant))
  }

  ghost function Slugs(plan: seq<Planned>): (slugs: set<string>)
  {
    set p | p in plan :: p.slug
  }

  lemma PlanMore(plan: seq<Planned>, registered: set<string>, p: Planned)
    requires SafePlan(plan, registered) && IsSlug(p.slug) && p.slug !in registered + Slugs(plan)
    ensures SafePlan(plan + [p], registered)
    ensures Slugs(plan + [p]) == Slugs(plan) + {p.slug}
  {
    hide IsSlug;
    var more := plan + [p];
    assert forall q :: q in more <==> q in plan || q == p;
    forall i, j | 0 <= i < j < |more| ensures more[i].slug != more[j].slug {
      if j == |plan| { assert plan[i] in plan && plan[i].slug in Slugs(plan); }
    }
  }

  lemma {:induction false} SlugsSize(plan: seq<Planned>)
    ensures |Slugs(plan)| <= |plan|
  {
    if plan != [] {
      var earlier, p := plan[..|plan| - 1], plan[|plan| - 1];
      SlugsSize(earlier);
      assert plan == earlier + [p];
      assert Slugs(plan) == Slugs(earlier) + {p.slug};
    }
  }

  /** The slug requested for a tenant to be seeded is registered, or requested by an earlier one. */
  ghost predicate Clashes(tenants: seq<string>, i: nat, registry: map<string, string>, overrides: map<string, string>,
                          lower: string -> string)
    requires i < |tenants|
  {
    tenants[i] !in registry
    && (Requested(tenants[i], overrides, lower) in registry.Values
        || exists j :: 0 <= j < i && tenants[j] !in registry
             && Requested(tenants[j], overrides, lower) == Requested(tenants[i], overrides, lower))
  }

  ghost function RequestedBefore(tenants: seq<string>, n: nat, registry: map<string, string>, overrides: map<string, string>,
                                 lower: string -> string): set<string>
    requires n <= |tenants|
  {
    set j | 0 <= j < n && tenants[j] !in registry :: Requested(tenants[j], overrides, lower)
  }

  lemma RequestedNext(tenants: seq<string>, n: nat, registry: map<string, string>, overrides: map<string, string>,
                      lower: string -> string)
    requires n < |tenants|
    ensures RequestedBefore(tenants, n + 1, registry, overrides, lower)
            == RequestedBefore(tenants, n, registry, overrides, lower)
               + if tenants[n] in registry then {} else {Requested(tenants[n], overrides, lower)}
    ensures Clashes(tenants, n, registry, overrides, lower)
            <==> tenants[n] !in registry
                 && Requested(tenants[n], overrides, lower)
                    in registry.Values + RequestedBefore(tenants, n, registry, overrides, lower)
  {
    hide Requested;
  }

  ghost predicate Has(plan: seq<Planned>, tenant: string) {
    exists i :: 0 <= i < |plan| && plan[i].tenant == tenant
  }

  lemma HasMore(plan: seq<Planned>, p: Planned)
    ensures Has(plan + [p], p.tenant) && forall t :: Has(plan, t) ==> Has(plan + [p], t)
  {
    var more := plan + [p];
    assert more[|plan|] == p;
    forall t | Has(plan, t) ensures Has(more, t) {
      var i :| 0 <= i < |plan| && plan[i].tenant == t;
      assert more[i].tenant == t;
    }
  }

  lemma AlreadyIn(a: set<string>, b: set<string>, x: string)
    requires x in a + b
    ensures a + (b + {x}) == a + b
  {
  }

  datatype Batch = Batch(tenants: seq<string>, registry: map<string, string>, overrides: map<string, string>,
                         policy: Policy, lower: string -> string)
  {
    ghost predicate Clash(i: nat)
      requires i < |tenants|
    {
      Clashes(tenants, i, registry, overrides, lower)
    }

    /** What the loop knows after `n` tenants: which slugs are used, */
    ghost predicate UsedAfter(n: nat, used: set<string>, plan: seq<Planned>)
      requires n <= |tenants|
    {
      used == registry.Values + Slugs(plan)
      && (policy != SuffixConflict ==> used == registry.Values + RequestedBefore(tenants, n, registry, overrides, lower))
    }

    /** that the plan is safe, */
    ghost predicate PlanAfter(n: nat, plan: seq<Planned>) {
      |plan| <= n && SafePlan(plan, registry.Values)
      && (forall i :: 0 <= i < |plan| ==> plan[i].tenant in tenants && plan[i].tenant !in registry)
      && (policy != SuffixConflict ==> forall i :: 0 <= i < |plan| ==> plan[i].slug == Requested(plan[i].tenant, overrides, lower))
    }

    /** and what became of every tenant. */
    ghost predicate TreatedAfter(n: nat, plan: seq<Planned>, conflicts: nat)
      requires n <= |tenants|
    {
      (policy != SuffixConflict ==> (conflicts > 0 <==> exists i :: 0 <= i < n && Clash(i)))
      && forall i :: 0 <= i < n && tenants[i] !in registry ==> Has(plan, tenants[i]) || (policy != SuffixConflict && Clash(i))
    }

    ghost predicate Progress(n: nat, used: set<string>, plan: seq<Planned>, conflicts: nat)
      requires n <= |tenants|
    {
      UsedAfter(n, used, plan) && PlanAfter(n, plan) && TreatedAfter(n, plan, conflicts)
    }

    lemma TreatedNext(n: nat, plan: seq<Planned>, conflicts: nat, longer: seq<Planned>, more: nat)
      requires n < |tenants| && TreatedAfter(n, plan, conflicts)
      requires forall t :: Has(plan, t) ==> Has(longer, t)
      requires policy != SuffixConflict ==> if Clash(n) then more > 0 else more == conflicts
      requires tenants[n] in registry || Has(longer, tenants[n]) || (policy != SuffixConflict && Clash(n))
      ensures TreatedAfter(n + 1, longer, more)
    {
      hide Has, Clash;
    }

    lemma Start()
      ensures Progress(0, registry.Values, [], 0)
    {
    }

    lemma Known(n: nat, used: set<string>, plan: seq<Planned>, conflicts: nat)
      requires n < |tenants| && Progress(n, used, plan, conflicts) && tenants[n] in registry
      ensures registry[tenants[n]] in used && Progress(n + 1, used, plan, conflicts)
    {
      RequestedNext(tenants, n, registry, overrides, lower);
      assert registry[tenants[n]] in registry.Values;
      assert !Clash(n);
      hide SafePlan, Slugs, RequestedBefore, Has, Clashes, Requested, Clash, TreatedAfter;
      TreatedNext(n, plan, conflicts, plan, conflicts);
    }

    lemma Conflict(n: nat, used: set<string>, plan: seq<Planned>, conflicts: nat)
      requires n < |tenants| && Progress(n, used, plan, conflicts) && tenants[n] !in registry && policy != SuffixConflict
      requires Requested(tenants[n], overrides, lower) in used
      ensures Progress(n + 1, used, plan, conflicts + 1)
    {
      RequestedNext(tenants, n, registry, overrides, lower);
      var requested, before := Requested(tenants[n], overrides, lower), RequestedBefore(tenants, n, registry, overrides, lower);
      assert Clash(n);
      hide SafePlan, Slugs, RequestedBefore, Has, Clashes, Requested, Clash, TreatedAfter;
      AlreadyIn(registry.Values, before, requested);
      TreatedNext(n, plan, conflicts, plan, conflicts + 1);
    }

    lemma Plan(n: nat, used: set<string>, plan: seq<Planned>, conflicts: nat, slug: string, more: nat)
      requires n < |tenants| && Progress(n, used, plan, conflicts) && tenants[n] !in registry
      requires IsSlug(slug) && slug !in used
      requires policy != SuffixConflict ==> slug == Requested(tenants[n], overrides, lower) && more == conflicts
      ensures Progress(n + 1, used + {slug}, plan + [Planned(tenants[n], slug)], more)
    {
      var p := Planned(tenants[n], slug);
      RequestedNext(tenants, n, registry, overrides, lower);
      PlanMore(plan, registry.Values, p);
      HasMore(plan, p);
      assert policy != SuffixConflict ==> !Clash(n);
      hide SafePlan, Slugs, RequestedBefore, Has, Clashes, Requested, IsSlug, Clash, TreatedAfter, PlanAfter;
      TreatedNext(n, plan, conflicts, plan + [p], more);
      PlanNext(n, plan, p);
    }

    lemma PlanNext(n: nat, plan: seq<Planned>, p: Planned)
      requires n < |tenants| && PlanAfter(n, plan) && p.tenant == tenants[n] && tenants[n] !in registry
      requires SafePlan(plan + [p], registry.Values)
      requires policy != SuffixConflict ==> p.slug == Requested(tenants[n], overrides, lower)
      ensures PlanAfter(n + 1, plan + [p])
    {
      hide SafePlan, Requested;
    }
  }

  function Items(tenants: seq<string>): set<string> {
    set t | t in tenants
  }

  /** The planning loop of `seed_tenants`, for the tenants that were discovered and selected. `registry` maps the tenants that exist to their slugs.
      A run that fails on conflicts does so exactly when a requested slug clashes; otherwise every
      new tenant is planned, except those that clash and are skipped. */
  method PlanSeeds(batch: Batch) returns (r: Result<seq<Planned>, PlanError>)
    ensures r == Err(UnknownOverride) <==> !(batch.overrides.Keys <= Items(batch.tenants))
    ensures r == Err(InvalidOverride)
            <==> r != Err(UnknownOverride) && exists t :: t in batch.overrides && !IsSlug(batch.overrides[t])
    ensures r == Err(SlugConflicts)
            <==> r != Err(UnknownOverride) && r != Err(InvalidOverride) && batch.policy == FailOnConflict
                 && exists i :: 0 <= i < |batch.tenants| && batch.Clash(i)
    ensures r == Err(NoUniqueSlug) ==> batch.policy == SuffixConflict && |batch.registry.Values| + |batch.tenants| >= SUFFIXES - 2
    ensures r.Ok? ==> SafePlan(r.value, batch.registry.Values)
    ensures r.Ok? ==>
              forall i :: 0 <= i < |batch.tenants| && batch.tenants[i] !in batch.registry ==>
                Has(r.value, batch.tenants[i]) || (batch.policy == SkipConflict && batch.Clash(i))
    ensures r.Ok? && batch.policy != SuffixConflict ==>
              forall i :: 0 <= i < |r.value| ==> r.value[i].slug == Requested(r.value[i].tenant, batch.overrides, batch.lower)
    ensures r.Ok? ==> forall i :: 0 <= i < |r.value| ==> r.value[i].tenant in batch.tenants && r.value[i].tenant !in batch.registry
  {
    hide IsSlug, SeedSlug, IsUniqueSlug, SafePlan, Slugs, RequestedBefore, Has, Batch.Progress, Batch.Clash, Requested;
    if !(batch.overrides.Keys <= Items(batch.tenants)) {
      return Err(UnknownOverride);
    }
    if exists t :: t in batch.overrides && !IsSlug(batch.overrides[t]) {
      return Err(InvalidOverride);
    }
    var used, plan, conflicts: nat := batch.registry.Values, [], 0;
    batch.Start();
    for n := 0 to |batch.tenants|
      invariant batch.Progress(n, used, plan, conflicts)
    {
      var tenant := batch.tenants[n];
      if tenant in batch.registry {
        batch.Known(n, used, plan, conflicts);
        assert used + {batch.registry[tenant]} == used;
        used := used + {batch.registry[tenant]};
        continue;
      }
      var slug := Requested(tenant, batch.overrides, batch.lower);
      RequestedIsSlug(tenant, batch.overrides, batch.lower);
      ghost var before := conflicts;
      if slug in used {
        conflicts := conflicts + 1;
        if batch.policy != SuffixConflict {
          batch.Conflict(n, used, plan, before);
          continue;
        }
        var unique := UniqueSlug(batch.lower(tenant), used);
        if unique.None? {
          UsedIsSmall(batch, n, used, plan, before);
          return Err(NoUniqueSlug);
        }
        slug := unique.value;
      }
      batch.Plan(n, used, plan, before, slug, conflicts);
      used := used + {slug};
      plan := plan + [Planned(tenant, slug)];
    }
    PlanDone(batch, used, plan, conflicts);
    if batch.policy == FailOnConflict && conflicts > 0 {
      return Err(SlugConflicts);
    }
    r := Ok(plan);
  }

  lemma UsedIsSmall(batch: Batch, n: nat, used: set<string>, plan: seq<Planned>, conflicts: nat)
    requires n <= |batch.tenants| && batch.Progress(n, used, plan, conflicts)
    ensures |used| <= |batch.registry.Values| + |batch.tenants|
  {
    SlugsSize(plan);
    hide SafePlan, Slugs, Clashes, Has, Requested;
  }

  lemma PlanDone(batch: Batch, used: set<string>, plan: seq<Planned>, conflicts: nat)
    requires batch.Progress(|batch.tenants|, used, plan, conflicts)
    ensures SafePlan(plan, batch.registry.Values)
    ensures forall i :: 0 <= i < |plan| ==> plan[i].tenant in batch.tenants && plan[i].tenant !in batch.registry
    ensures batch.policy != SuffixConflict ==>
              forall i :: 0 <= i < |plan| ==> plan[i].slug == Requested(plan[i].tenant, batch.overrides, batch.lower)
    ensures batch.policy != SuffixConflict ==> (conflicts > 0 <==> exists i :: 0 <= i < |batch.tenants| && batch.Clash(i))
    ensures forall i :: 0 <= i < |batch.tenants| && batch.tenants[i] !in batch.registry ==>
              Has(plan, batch.tenants[i]) || (batch.policy != SuffixConflict && batch.Clash(i))
  {
    hide SafePlan, Slugs, Clashes, Has, Requested;
  }

  lemma RequestedIsSlug(tenant: string, overrides: map<string, string>, lower: string -> string)
    requires forall t :: t in overrides ==> IsSlug(overrides[t])
    ensures IsSlug(Requested(tenant, overrides, lower))
  {
    SeedSlugIsSlug(lower(tenant));
    hide IsSlug, SeedSlug;
  }
}
