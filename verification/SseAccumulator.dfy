/** Rebuilding the output items of a streamed response from its events: merged items, reasoning
    summaries, and function-call arguments that arrive in pieces, each under an item key. */
module SseAccumulator {
  import opened Wrappers
  import opened Json
  import opened Decimal
  import opened Texts

  /** A decoded event object. */
  type Event = Entries

  const ADDED: string := "response.reasoning_summary_part.added"
  const SUMMARY_DELTA: string := "response.reasoning_summary_text.delta"
  const PART_DONE: string := "response.reasoning_summary_part.done"
  const ARGUMENTS_DELTA: string := "response.function_call_arguments.delta"
  const ARGUMENTS_DONE: string := "response.function_call_arguments.done"
  const TEXT_DELTA: string := "response.output_text.delta"

  function TypeOf(e: Event): Option<Json> {
    Get(e, "type")
  }

  predicate Is(e: Event, kind: string) {
    TypeOf(e) == Some(Str(kind))
  }

  /** The field as an object, as a string. */
  function ObjectField(e: Event, key: string): Option<Entries> {
    match Get(e, key)
    case Some(Obj(d)) => Some(d)
    case _ => None
  }

  function TextField(e: Event, key: string): Option<string> {
    match Get(e, key)
    case Some(Str(s)) => Some(s)
    case _ => None
  }

  /** A field that can serve as a key: strings as they are, integers as text; booleans are
      integers to Python. */
  function KeyField(e: Event, key: string): Option<string> {
    match Get(e, key)
    case Some(Str(s)) => Some(s)
    case Some(Int(n)) => Some(IntText(n))
    case Some(Bool(b)) => Some(if b then "True" else "False")
    case _ => None
  }

  /** `_responses_sse_argument_key` */
  function ArgumentKey(e: Event): Option<string> {
    if KeyField(e, "item_id").Some? then KeyField(e, "item_id")
    else if KeyField(e, "call_id").Some? then KeyField(e, "call_id")
    else KeyField(e, "output_index")
  }

  /** `_responses_sse_item_key` */
  function ItemKey(e: Event): Option<string> {
    if TextField(e, "item_id").Some? then TextField(e, "item_id")
    else
      match ObjectField(e, "item")
      case None => ArgumentKey(e)
      case Some(item) =>
        if TextField(item, "id").Some? then TextField(item, "id")
        else if TextField(item, "call_id").Some? then TextField(item, "call_id")
        else ArgumentKey(e)
  }

  /** `key or fallback`: a missing and an empty key both fall through. */
  function Or(key: Option<string>, fallback: Option<string>): Option<string> {
    if key.Some? && key.value != "" then key else fallback
  }

  // ----- What one event does to the item of its key -----

  const NEW_REASONING: Entries := [Entry("type", Str("reasoning"))]
  const NEW_SUMMARY_TEXT: Entries := [Entry("type", Str("summary_text")), Entry("text", Str(""))]

  /** Appending a part; None is the exception raised when the summary is not a list. */
  function AppendPart(item: Entries, part: Entries): Option<Entries> {
    match Get(item, "summary")
    case None => Some(Set(item, "summary", Arr([Obj(part)])))
    case Some(Arr(parts)) => Some(Set(item, "summary", Arr(parts + [Obj(part)])))
    case _ => None
  }

  function AppendText(item: Entries, delta: string): Entries {
    var parts := match Get(item, "summary") case Some(Arr(parts)) => parts case _ => [];
    var parts := if parts == [] || !parts[|parts| - 1].Obj? then parts + [Obj(NEW_SUMMARY_TEXT)] else parts;
    var last := parts[|parts| - 1].entries;
    var text := TextField(last, "text").GetOr("");
    Set(item, "summary", Arr(parts[..|parts| - 1] + [Obj(Set(last, "text", Str(text + delta)))]))
  }

  function FinishPart(item: Entries, part: Entries): Entries {
    match Get(item, "summary")
    case None => Set(item, "summary", Arr([Obj(part)]))
    case Some(Arr(parts)) =>
      if parts != [] && parts[|parts| - 1].Obj?
      then Set(item, "summary", Arr(parts[..|parts| - 1] + [Obj(Merge(parts[|parts| - 1].entries, part))]))
      else Set(item, "summary", Arr(parts + [Obj(part)]))
    case _ => item
  }

  /** The summary event's effect on a stored item, or on a fresh reasoning item. */
  function Summarize(item: Option<Entries>, e: Event): Option<Entries>
    requires Summarizes(e)
  {
    var item := item.GetOr(NEW_REASONING);
    if Is(e, ADDED) then AppendPart(item, ObjectField(e, "part").value)
    else if Is(e, SUMMARY_DELTA) then Some(AppendText(item, TextField(e, "delta").value))
    else Some(FinishPart(item, ObjectField(e, "part").value))
  }

  predicate Summarizes(e: Event) {
    ((Is(e, ADDED) || Is(e, PART_DONE)) && ObjectField(e, "part").Some?)
    || (Is(e, SUMMARY_DELTA) && TextField(e, "delta").Some?)
  }

  // ----- The accumulator -----

  datatype Acc = Acc(
    items: map<string, Entries>, order: seq<string>, deltas: map<string, seq<string>>, dones: map<string, string>,
    current: Option<string>, texts: seq<string>, final: Option<Entries>)

  const Start: Acc := Acc(map[], [], map[], map[], None, [], None)

  function Noted(order: seq<string>, key: string): seq<string> {
    if key in order then order else order + [key]
  }

  function Lookup<T>(m: map<string, T>, key: string): Option<T> {
    if key in m then Some(m[key]) else None
  }

  function TakeItem(a: Acc, e: Event): Acc {
    match (ObjectField(e, "item"), ItemKey(e))
    case (Some(item), Some(key)) =>
      var merged := Merge(Lookup(a.items, key).GetOr([]), item);
      a.(items := a.items[key := merged], order := Noted(a.order, key),
         current := if Get(merged, "type") == Some(Str("reasoning")) then Some(key) else a.current)
    case _ => a
  }

  function TakeSummary(a: Acc, e: Event): Option<Acc> {
    match Or(ItemKey(e), a.current)
    case Some(key) =>
      if !Summarizes(e) then Some(a)
      else
        var item :- Summarize(Lookup(a.items, key), e);
        Some(a.(items := a.items[key := item], order := Noted(a.order, key)))
    case None => Some(a)
  }

  function TakeArguments(a: Acc, e: Event): Acc {
    match Or(ItemKey(e), ArgumentKey(e))
    case None => a
    case Some(key) =>
      if IsDone(e) then
        a.(dones := a.dones[key := TextField(e, "arguments").value])
      else if IsDelta(e) then
        a.(deltas := a.deltas[key := Lookup(a.deltas, key).GetOr([]) + [TextField(e, "delta").value]])
      else a
  }

  function TakeText(a: Acc, e: Event): Acc {
    var a := if Is(e, TEXT_DELTA) && TextField(e, "delta").Some? then a.(texts := a.texts + [TextField(e, "delta").value]) else a;
    if ObjectField(e, "response").Some? then a.(final := ObjectField(e, "response")) else a
  }

  /** One event; None is the exception an unusable summary raises. */
  function Take(a: Acc, e: Event): Option<Acc> {
    var a :- TakeSummary(TakeItem(TakeText(a, e), e), e);
    Some(TakeArguments(a, e))
  }

  function Run(a: Acc, events: seq<Event>): Option<Acc>
    decreases |events|
  {
    if events == [] then Some(a)
    else
      var a :- Take(a, events[0]);
      Run(a, events[1..])
  }

  /** `_responses_sse_output_items` for one key. */
  function Built(item: Entries, done: Option<string>, deltas: Option<seq<string>>): Entries {
    if Get(item, "type") != Some(Str("function_call")) then item
    else if done.Some? then Set(item, "arguments", Str(done.value))
    else if deltas.Some? then Set(item, "arguments", Str(Join(deltas.value)))
    else item
  }

  function OutputItems(a: Acc, order: seq<string>): (r: seq<Entries>)
    requires forall k :: k in order ==> k in a.items
    ensures |r| == |order|
  {
    if order == [] then []
    else [Built(a.items[order[0]], Lookup(a.dones, order[0]), Lookup(a.deltas, order[0]))] + OutputItems(a, order[1..])
  }

  /** The accumulation loop over its running variables. */
  method Accumulate(events: seq<Event>) returns (result: Option<Acc>)
    ensures result == Run(Start, events)
  {
    hide Run, Merge, Get, Set, AppendPart, AppendText, FinishPart, ItemKey, ArgumentKey, Noted, Or, TypeOf, TextField, ObjectField;
    var items: map<string, Entries>, order: seq<string> := map[], [];
    var deltas: map<string, seq<string>>, dones: map<string, string> := map[], map[];
    var current: Option<string>, texts: seq<string>, final: Option<Entries> := None, [], None;
    for n := 0 to |events|
      invariant Run(Acc(items, order, deltas, dones, current, texts, final), events[n..]) == Run(Start, events)
    {
      var e := events[n];
      assert events[n..][0] == e && events[n..][1..] == events[n + 1..];
      ghost var before := Acc(items, order, deltas, dones, current, texts, final);
      assert Run(before, events[n..]) == match Take(before, e) case None => None case Some(a) => Run(a, events[n + 1..]) by {
        RunStep(before, events[n..]);
      }
      if Is(e, TEXT_DELTA) && TextField(e, "delta").Some? {
        texts := texts + [TextField(e, "delta").value];
      }
      if ObjectField(e, "response").Some? {
        final := ObjectField(e, "response");
      }
      assert Acc(items, order, deltas, dones, current, texts, final) == TakeText(before, e);
      hide TakeText;
      var item, key := ObjectField(e, "item"), ItemKey(e);
      if item.Some? && key.Some? {
        var merged := Merge(if key.value in items then items[key.value] else [], item.value);
        items := items[key.value := merged];
        order := Noted(order, key.value);
        if Get(merged, "type") == Some(Str("reasoning")) {
          current := key;
        }
      }
      assert Acc(items, order, deltas, dones, current, texts, final) == TakeItem(TakeText(before, e), e);
      hide TakeItem;
      if Summarizes(e) && Or(key, current).Some? {
        var target := Or(key, current).value;
        var item := if target in items then items[target] else NEW_REASONING;
        if Is(e, ADDED) {
          var appended := AppendPart(item, ObjectField(e, "part").value);
          if appended.None? {
            return None;
          }
          item := appended.value;
        } else if Is(e, SUMMARY_DELTA) {
          item := AppendText(item, TextField(e, "delta").value);
        } else {
          item := FinishPart(item, ObjectField(e, "part").value);
        }
        items := items[target := item];
        order := Noted(order, target);
      }
      assert TakeSummary(TakeItem(TakeText(before, e), e), e) == Some(Acc(items, order, deltas, dones, current, texts, final));
      hide TakeSummary, Summarizes;
      var target := Or(key, ArgumentKey(e));
      if target.Some? {
        if IsDone(e) {
          dones := dones[target.value := TextField(e, "arguments").value];
        } else if IsDelta(e) {
          var earlier := if target.value in deltas then deltas[target.value] else [];
          deltas := deltas[target.value := earlier + [TextField(e, "delta").value]];
        }
      }
      assert Take(before, e) == Some(Acc(items, order, deltas, dones, current, texts, final));
    }
    assert events[|events|..] == [];
    RunNothing(Acc(items, order, deltas, dones, current, texts, final));
    result := Some(Acc(items, order, deltas, dones, current, texts, final));
  }

  lemma RunNothing(a: Acc)
    ensures Run(a, []) == Some(a)
  {
  }

  lemma RunStep(a: Acc, events: seq<Event>)
    requires events != []
    ensures Run(a, events) == match Take(a, events[0]) case None => None case Some(b) => Run(b, events[1..])
  {
  }

  lemma OutputFrom(a: Acc, n: nat)
    requires n < |a.order| && forall k :: k in a.order ==> k in a.items
    ensures var key := a.order[n];
            OutputItems(a, a.order[n..])
            == [Built(a.items[key], Lookup(a.dones, key), Lookup(a.deltas, key))] + OutputItems(a, a.order[n + 1..])
  {
    assert a.order[n..][0] == a.order[n] && a.order[n..][1..] == a.order[n + 1..];
    hide Built;
  }

  /** `_responses_sse_output_items` */
  method CollectOutput(a: Acc) returns (items: seq<Entries>)
    requires forall k :: k in a.order ==> k in a.items
    ensures items == OutputItems(a, a.order)
  {
    hide Get, Set, Join, OutputItems;
    items := [];
    assert a.order[0..] == a.order && a.order[|a.order|..] == [];
    for n := 0 to |a.order|
      invariant items + OutputItems(a, a.order[n..]) == OutputItems(a, a.order)
    {
      OutputFrom(a, n);
      var key := a.order[n];
      var item := a.items[key];
      if Get(item, "type") == Some(Str("function_call")) {
        var arguments := Lookup(a.dones, key);
        if arguments.None? && key in a.deltas {
          arguments := Some(Join(a.deltas[key]));
        }
        if arguments.Some? {
          item := Set(item, "arguments", Str(arguments.value));
        }
      }
      items := items + [item];
    }
  }

  // ----- When a stream raises -----

  predicate HasUnusableSummary(item: Entries) {
    match Get(item, "summary")
    case None => false
    case Some(summary) => !summary.Arr?
  }

  lemma NewReasoningIsUsable()
    ensures Get(NEW_REASONING, "summary") == None
  {
    assert NEW_REASONING[1..] == [];
  }

  /** An event raises exactly when it adds a summary part to an item whose summary is not a list. */
  lemma TakeRaisesExactly(a: Acc, e: Event)
    ensures var b := TakeItem(TakeText(a, e), e);
            var key := Or(ItemKey(e), b.current);
            Take(a, e).None?
            <==> Is(e, ADDED) && ObjectField(e, "part").Some? && key.Some? && key.value in b.items
                 && HasUnusableSummary(b.items[key.value])
  {
    NewReasoningIsUsable();
    hide Get, ItemKey, TakeText, TakeItem, Or, ObjectField, TextField, TypeOf, Merge, Set, AppendText, FinishPart;
  }

  function Among(a: Entry, b: Entry, c: Entry, key: string): Option<Json> {
    if a.key == key then Some(a.value) else if b.key == key then Some(b.value) else if c.key == key then Some(c.value) else None
  }

  lemma GetOne(a: Entry, key: string)
    ensures Get([a], key) == Among(a, a, a, key)
  {
    assert [a][1..] == [];
  }

  lemma GetFew(a: Entry, b: Entry, c: Entry, key: string)
    ensures Get([a], key) == Among(a, a, a, key)
    ensures Get([a, b], key) == Among(a, b, b, key)
    ensures Get([a, b, c], key) == Among(a, b, c, key)
  {
    GetOne(a, key);
    GetOne(b, key);
    GetOne(c, key);
    assert [b, c][1..] == [c] && [a, b][1..] == [b] && [a, b, c][1..] == [b, c];
    assert Get([b, c], key) == Among(b, c, c, key);
  }

  /** The program's error on such a stream: an item with a text for its summary, and a part added. */
  lemma NonListSummaryRaises(key: string, summary: string)
    requires key != ""
    ensures var item := [Entry("id", Str(key)), Entry("summary", Str(summary))];
            var first := [Entry("item", Obj(item))];
            var second := [Entry("type", Str(ADDED)), Entry("item_id", Str(key)), Entry("part", Obj([]))];
            Run(Start, [first, second]) == None
  {
    var id, text := Entry("id", Str(key)), Entry("summary", Str(summary));
    var kind, at, part := Entry("type", Str(ADDED)), Entry("item_id", Str(key)), Entry("part", Obj([]));
    var item, added := [id, text], Entry("item", Obj([id, text]));
    var first, second := [added], [kind, at, part];
    hide Get, Merge, Take, Run;
    forall name ensures Get(first, name) == Among(added, added, added, name) { GetFew(added, added, added, name); }
    forall name ensures Get(item, name) == Among(id, text, text, name) { GetFew(id, text, text, name); }
    forall name ensures Get(second, name) == Among(kind, at, part, name) { GetFew(kind, at, part, name); }
    MergeIntoNothing(id, text);
    FirstItem(first, item, key);
    PartRaises(Take(Start, first).value, second, item, key);
    RunPair(first, second);
  }

  lemma FirstItem(e: Event, item: Entries, key: string)
    requires forall name :: Get(e, name) == if name == "item" then Some(Obj(item)) else None
    requires Get(item, "id") == Some(Str(key)) && Get(item, "type") == None && Merge([], item) == item
    ensures Take(Start, e).Some? && Take(Start, e).value.items == map[key := item] && Take(Start, e).value.current == None
  {
    hide Get, Merge;
    assert ItemKey(e) == Some(key) && !Summarizes(e) && TakeText(Start, e) == Start;
    hide ItemKey, Summarizes, TakeText;
    assert TakeItem(Start, e).items == map[key := item];
  }

  lemma PartRaises(a: Acc, e: Event, item: Entries, key: string)
    requires a.items == map[key := item] && HasUnusableSummary(item) && key != ""
    requires Get(e, "type") == Some(Str(ADDED)) && Get(e, "item_id") == Some(Str(key)) && Get(e, "part") == Some(Obj([]))
    requires Get(e, "item") == None
    ensures Take(a, e) == None
  {
    TakeRaisesExactly(a, e);
    hide Get, Merge, Take, HasUnusableSummary;
    assert ItemKey(e) == Some(key);
    assert TakeItem(TakeText(a, e), e).items == a.items;
  }

  lemma RunPair(first: Event, second: Event)
    ensures Run(Start, [first, second]) == match Take(Start, first) case None => None case Some(a) => Run(a, [second])
    ensures forall a :: Take(a, second) == None ==> Run(a, [second]) == None
  {
    assert [first, second][1..] == [second];
  }

  lemma MergeIntoNothing(a: Entry, b: Entry)
    requires a.key != b.key
    ensures Merge([], [a, b]) == [a, b]
  {
    assert Set([], a.key, a.value) == [a] && [a, b][1..] == [b] && [b][1..] == [] && [a][1..] == [];
    assert Set([a], b.key, b.value) == [a, b];
    assert Merge([a, b], []) == [a, b];
    assert Merge([a], [b]) == Merge([a, b], []);
  }

  // ----- Any stream: the order lists exactly the stored keys -----

  ghost predicate Ordered(a: Acc) {
    (forall k :: k in a.items <==> k in a.order)
    && forall i, j :: 0 <= i < j < |a.order| ==> a.order[i] != a.order[j]
  }

  lemma StoringKeepsOrder(a: Acc, b: Acc, key: string, item: Entries)
    requires Ordered(a) && b.items == a.items[key := item] && b.order == Noted(a.order, key)
    ensures Ordered(b)
  {
  }

  lemma TakeKeepsOrder(a: Acc, e: Event)
    requires Ordered(a)
    ensures Take(a, e).Some? ==> Ordered(Take(a, e).value)
  {
    var a1 := TakeText(a, e);
    assert Ordered(a1);
    var a2 := TakeItem(a1, e);
    var key := Or(ItemKey(e), a2.current);
    hide Ordered, Noted, Summarize, Merge, Summarizes, ItemKey, ArgumentKey, Get, Or, TakeText;
    assert Ordered(a2) by {
      if a2 != a1 {
        StoringKeepsOrder(a1, a2, ItemKey(e).value, a2.items[ItemKey(e).value]);
      }
    }
    var a3 := TakeSummary(a2, e);
    if a3.Some? {
      assert Ordered(a3.value) by {
        if a3.value != a2 {
          StoringKeepsOrder(a2, a3.value, key.value, a3.value.items[key.value]);
        }
      }
      ArgumentsKeepOrder(a3.value, e);
    }
  }

  lemma ArgumentsKeepOrder(a: Acc, e: Event)
    requires Ordered(a)
    ensures Ordered(TakeArguments(a, e))
  {
    hide Is, TextField, Or, ItemKey, ArgumentKey;
    assert TakeArguments(a, e).items == a.items && TakeArguments(a, e).order == a.order;
  }

  /** After any stream that does not raise, `output_item_order` lists exactly the keys of the
      stored items, each once. */
  lemma {:induction false} OrderListsStoredKeys(a: Acc, events: seq<Event>)
    requires Ordered(a)
    ensures Run(a, events).Some? ==> Ordered(Run(a, events).value)
    decreases |events|
  {
    hide Take, Ordered;
    if events != [] {
      TakeKeepsOrder(a, events[0]);
      if Take(a, events[0]).Some? {
        OrderListsStoredKeys(Take(a, events[0]).value, events[1..]);
      }
    }
  }

  // ----- The text, the final response and the keys of events -----

  function OwnText(e: Event): seq<string> {
    match (Get(e, "type"), Get(e, "delta"))
    case (Some(Str(kind)), Some(Str(text))) => if kind == "response.output_text.delta" then [text] else []
    case _ => []
  }

  /** The texts of the text deltas, in order. */
  function TextDeltas(events: seq<Event>): seq<string> {
    if events == [] then [] else OwnText(events[0]) + TextDeltas(events[1..])
  }

  /** The last response object of the events. */
  function LastResponse(events: seq<Event>): Option<Entries> {
    if events == [] then None
    else
      match Get(events[|events| - 1], "response")
      case Some(Obj(response)) => Some(response)
      case _ => LastResponse(events[..|events| - 1])
  }

  lemma OthersKeepTexts(a: Acc, e: Event)
    ensures TakeItem(a, e).texts == a.texts && TakeItem(a, e).final == a.final
    ensures TakeSummary(a, e).Some? ==> TakeSummary(a, e).value.texts == a.texts && TakeSummary(a, e).value.final == a.final
    ensures TakeArguments(a, e).texts == a.texts && TakeArguments(a, e).final == a.final
  {
    hide Get, Summarize, Summarizes, ItemKey, ArgumentKey, Merge, Noted, IsDone, IsDelta, Or;
  }

  lemma TakeTexts(a: Acc, e: Event)
    ensures match Take(a, e)
            case None => true
            case Some(b) => b.texts == a.texts + OwnText(e) && b.final == if ObjectField(e, "response").Some? then ObjectField(e, "response") else a.final
  {
    assert TakeText(a, e).texts == a.texts + OwnText(e) by { hide Get; }
    hide TakeItem, TakeSummary, TakeArguments, OwnText;
    OthersKeepTexts(TakeText(a, e), e);
    OthersKeepTexts(TakeItem(TakeText(a, e), e), e);
    if TakeSummary(TakeItem(TakeText(a, e), e), e).Some? { OthersKeepTexts(TakeSummary(TakeItem(TakeText(a, e), e), e).value, e); }
    hide Get;
  }

  lemma {:induction false} TextDeltasAppend(events: seq<Event>, e: Event)
    ensures TextDeltas(events + [e]) == TextDeltas(events) + OwnText(e)
  {
    hide OwnText;
    if events == [] {
      assert events + [e] == [e] && [e][1..] == [];
    } else {
      assert (events + [e])[1..] == events[1..] + [e] && (events + [e])[0] == events[0];
      TextDeltasAppend(events[1..], e);
    }
  }

  lemma {:induction false} RunAppend(a: Acc, events: seq<Event>, e: Event)
    ensures Run(a, events + [e]) == match Run(a, events) case None => None case Some(b) => Take(b, e)
    decreases |events|
  {
    hide Take;
    if events == [] {
      assert events + [e] == [e] && [e][1..] == [];
      assert Run(a, [e]) == Take(a, e);
    } else {
      assert (events + [e])[1..] == events[1..] + [e];
      if Take(a, events[0]).Some? { RunAppend(Take(a, events[0]).value, events[1..], e); }
    }
  }

  /** Whatever else the stream holds, the collected texts are its text deltas in order, and the final
      response is its last response object. */
  lemma {:induction false} TextsAreTheDeltas(events: seq<Event>)
    requires Run(Start, events).Some?
    ensures Run(Start, events).value.texts == TextDeltas(events) && Run(Start, events).value.final == LastResponse(events)
  {
    if events != [] {
      var earlier, e := events[..|events| - 1], events[|events| - 1];
      assert events == earlier + [e];
      RunAppend(Start, earlier, e);
      TextsAreTheDeltas(earlier);
      TakeTexts(Run(Start, earlier).value, e);
      TextDeltasAppend(earlier, e);
      hide Take, Run, Get, TextDeltas, OwnText;
    }
  }

  function FirstGiven(candidates: seq<Option<string>>): Option<string> {
    if candidates == [] then None else if candidates[0].Some? then candidates[0] else FirstGiven(candidates[1..])
  }

  /** Texts are keys as they are, integers by their decimal digits, booleans by their names. */
  lemma KeyTexts(e: Event, name: string)
    ensures match Get(e, name)
            case Some(Str(text)) => KeyField(e, name) == Some(text)
            case Some(Int(n)) =>
              KeyField(e, name).Some?
              && (var text := KeyField(e, name).value;
                  if n >= 0 then (forall c :: c in text ==> IsDigit(c)) && Value(text) == n
                  else text != "" && text[0] == '-' && (forall c :: c in text[1..] ==> IsDigit(c)) && Value(text[1..]) == -n)
            case Some(Bool(b)) => KeyField(e, name) == Some(if b then "True" else "False")
            case _ => KeyField(e, name) == None
  {
    match Get(e, name)
    case Some(Int(n)) =>
      ValueOfText(if n >= 0 then n else -n);
      if n < 0 { assert ("-" + NatText(-n))[1..] == NatText(-n); }
    case _ =>
  }

  /** Where the key of an event comes from: its `item_id`, the `id` and the `call_id` of its item, all
      as texts, then its `item_id`, `call_id` and `output_index`, as texts or integers. */
  lemma KeyIsFirstGiven(e: Event)
    ensures var ofItem := (name: string) => match Get(e, "item") case Some(Obj(item)) => TextField(item, name) case _ => None;
            ArgumentKey(e) == FirstGiven([KeyField(e, "item_id"), KeyField(e, "call_id"), KeyField(e, "output_index")])
            && ItemKey(e) == FirstGiven([TextField(e, "item_id"), ofItem("id"), ofItem("call_id"), ArgumentKey(e)])
  {
    hide Get;
    FirstOfThree(KeyField(e, "item_id"), KeyField(e, "call_id"), KeyField(e, "output_index"));
    var ofItem := (name: string) => match Get(e, "item") case Some(Obj(item)) => TextField(item, name) case _ => None;
    FirstOfThree(ofItem("id"), ofItem("call_id"), ArgumentKey(e));
    var four := [TextField(e, "item_id"), ofItem("id"), ofItem("call_id"), ArgumentKey(e)];
    assert four[1..] == [ofItem("id"), ofItem("call_id"), ArgumentKey(e)];
    hide KeyField, TextField, ArgumentKey;
  }

  lemma FirstOfThree(a: Option<string>, b: Option<string>, c: Option<string>)
    ensures FirstGiven([a, b, c]) == if a.Some? then a else if b.Some? then b else c
  {
    assert [a, b, c][1..] == [b, c] && [b, c][1..] == [c] && [c][1..] == [];
    assert FirstGiven([c]) == c && FirstGiven([b, c]) == if b.Some? then b else c;
  }

  lemma OthersKeepCurrent(a: Acc, e: Event)
    ensures TakeText(a, e).current == a.current && TakeText(a, e).items == a.items
    ensures TakeSummary(a, e).Some? ==> TakeSummary(a, e).value.current == a.current
    ensures TakeArguments(a, e).current == a.current
  {
    hide Get, Summarize, Summarizes, ItemKey, ArgumentKey, Merge, Noted, IsDone, IsDelta, Or, TypeOf;
  }

  /** An item that names itself reasoning becomes the current one; an item of another type, or no item,
      leaves the current one; an item without a type counts as what is stored under its key. */
  lemma CurrentIsLastReasoning(a: Acc, e: Event)
    ensures match Take(a, e)
            case None => true
            case Some(b) =>
              match (ObjectField(e, "item"), ItemKey(e))
              case (Some(item), Some(key)) =>
                var kind := if HasKey(item, "type") then LastOf(item, "type")
                            else if key in a.items then Get(a.items[key], "type") else None;
                b.current == if kind == Some(Str("reasoning")) then Some(key) else a.current
              case _ => b.current == a.current
  {
    var a1 := TakeText(a, e);
    OthersKeepCurrent(a, e);
    OthersKeepCurrent(TakeItem(a1, e), e);
    if TakeSummary(TakeItem(a1, e), e).Some? { OthersKeepCurrent(TakeSummary(TakeItem(a1, e), e).value, e); }
    hide TakeText, TakeSummary, TakeArguments, ItemKey, Merge, Noted;
    if ObjectField(e, "item").Some? && ItemKey(e).Some? {
      var existing := Lookup(a.items, ItemKey(e).value).GetOr([]);
      GetMerge(existing, ObjectField(e, "item").value, "type");
      assert Get([], "type") == None;
    }
    hide Get, LastOf;
  }

  /** A summary event without a key goes to the current item. */
  lemma KeylessSummaryGoesToCurrent(a: Acc, e: Event)
    requires Summarizes(e) && ObjectField(e, "item").None? && !(ItemKey(e).Some? && ItemKey(e).value != "")
    ensures match Take(a, e)
            case None => a.current.Some?
            case Some(b) =>
              if a.current.None? then b.items == a.items && b.order == a.order
              else
                Summarize(Lookup(a.items, a.current.value), e).Some?
                && b.items == a.items[a.current.value := Summarize(Lookup(a.items, a.current.value), e).value]
                && b.order == Noted(a.order, a.current.value)
  {
    hide Get, Summarize, ArgumentKey, Merge, Noted, TypeOf;
  }

  // ----- Streams whose events carry their own key -----

  /** Everything the accumulator stores under one key. */
  datatype KeyState = KeyState(item: Option<Entries>, deltas: Option<seq<string>>, done: Option<string>)

  const Blank: KeyState := KeyState(None, None, None)

  function View(a: Acc, key: string): KeyState {
    KeyState(Lookup(a.items, key), Lookup(a.deltas, key), Lookup(a.dones, key))
  }

  /** An event that stores something under a key. All others, such as `response.created`,
      `response.completed` and text deltas, need no key. */
  predicate TouchesKey(e: Event) {
    ObjectField(e, "item").Some? || Summarizes(e) || IsDone(e) || IsDelta(e)
  }

  predicate CarriesKey(e: Event) {
    ItemKey(e).Some? && ItemKey(e).value != ""
  }

  /** If the event touches a key, it carries that key itself. */
  predicate OwnKey(e: Event) {
    TouchesKey(e) ==> CarriesKey(e)
  }

  /** What an event with its own key does to that key alone. */
  function KeyTake(s: KeyState, e: Event): Option<KeyState> {
    var s :- KeySummary(KeyItem(s, e), e);
    Some(KeyArguments(s, e))
  }

  function KeyItem(s: KeyState, e: Event): KeyState {
    match ObjectField(e, "item")
    case Some(item) => s.(item := Some(Merge(s.item.GetOr([]), item)))
    case None => s
  }

  function KeySummary(s: KeyState, e: Event): Option<KeyState> {
    if !Summarizes(e) then Some(s)
    else
      var item :- Summarize(s.item, e);
      Some(s.(item := Some(item)))
  }

  function KeyArguments(s: KeyState, e: Event): KeyState {
    if IsDone(e) then s.(done := TextField(e, "arguments"))
    else if IsDelta(e) then s.(deltas := Some(s.deltas.GetOr([]) + [TextField(e, "delta").value]))
    else s
  }

  predicate IsDone(e: Event) {
    Is(e, ARGUMENTS_DONE) && TextField(e, "arguments").Some?
  }

  predicate IsDelta(e: Event) {
    Is(e, ARGUMENTS_DELTA) && TextField(e, "delta").Some?
  }

  function KeyRun(s: KeyState, events: seq<Event>): Option<KeyState>
    decreases |events|
  {
    if events == [] then Some(s)
    else
      var s :- KeyTake(s, events[0]);
      KeyRun(s, events[1..])
  }

  /** The events of one key, in order. */
  function Project(events: seq<Event>, key: string): seq<Event> {
    if events == [] then []
    else (if ItemKey(events[0]) == Some(key) then [events[0]] else []) + Project(events[1..], key)
  }

  /** Events that give their key a stored item. */
  predicate Introduces(e: Event) {
    ObjectField(e, "item").Some? || Summarizes(e)
  }

  /** The keys in the order in which they are introduced. */
  function Introduced(order: seq<string>, events: seq<Event>): seq<string>
    requires forall e :: e in events ==> OwnKey(e)
    decreases |events|
  {
    if events == [] then order
    else
      assert events[0] in events;
      assert OwnKey(events[0]);
      assert Introduces(events[0]) ==> TouchesKey(events[0]);
      Introduced(if Introduces(events[0]) then Noted(order, ItemKey(events[0]).value) else order, events[1..])
  }

  lemma OwnKeyItem(a: Acc, e: Event, key: string)
    requires ObjectField(e, "item").Some? ==> ItemKey(e).Some?
    ensures var b := TakeItem(TakeText(a, e), e);
            (if ItemKey(e) == Some(key) then View(b, key) == KeyItem(View(a, key), e) else View(b, key) == View(a, key))
            && b.order == if ObjectField(e, "item").Some? then Noted(a.order, ItemKey(e).value) else a.order
  {
    var b := TakeText(a, e);
    assert View(b, key) == View(a, key) && b.order == a.order && b.items == a.items;
    hide Merge, Get, ItemKey, ObjectField, TextField, Noted, TakeText;
  }

  lemma OwnKeySummary(a: Acc, e: Event, key: string)
    requires Summarizes(e) ==> CarriesKey(e)
    ensures match TakeSummary(a, e)
            case None => Summarizes(e) && (ItemKey(e) == Some(key) ==> KeySummary(View(a, key), e).None?)
            case Some(b) =>
              (if ItemKey(e) == Some(key) then KeySummary(View(a, key), e) == Some(View(b, key)) else View(b, key) == View(a, key))
              && b.order == if Summarizes(e) then Noted(a.order, ItemKey(e).value) else a.order
  {
    hide Merge, Get, ItemKey, ObjectField, TextField, Summarize, Summarizes, Noted;
  }

  lemma OwnKeyArguments(a: Acc, e: Event, key: string)
    requires IsDone(e) || IsDelta(e) ==> CarriesKey(e)
    ensures var b := TakeArguments(a, e);
            (if ItemKey(e) == Some(key) then View(b, key) == KeyArguments(View(a, key), e) else View(b, key) == View(a, key))
            && b.order == a.order
  {
    hide ItemKey, ArgumentKey, TextField, TypeOf;
  }

  lemma OwnKeyTake(a: Acc, e: Event, key: string)
    requires OwnKey(e)
    ensures match Take(a, e)
            case None => CarriesKey(e) && (ItemKey(e) == Some(key) ==> KeyTake(View(a, key), e).None?)
            case Some(b) =>
              (if ItemKey(e) == Some(key) then KeyTake(View(a, key), e) == Some(View(b, key)) else View(b, key) == View(a, key))
              && (Introduces(e) ==> CarriesKey(e))
              && b.order == if Introduces(e) then Noted(a.order, ItemKey(e).value) else a.order
  {
    hide View, KeyItem, KeySummary, KeyArguments, TakeItem, TakeText, TakeSummary, TakeArguments, ItemKey, ObjectField, Summarizes,
         IsDone, IsDelta;
    var a2 := TakeItem(TakeText(a, e), e);
    OwnKeyItem(a, e, key);
    OwnKeySummary(a2, e, key);
    if TakeSummary(a2, e).Some? {
      OwnKeyArguments(TakeSummary(a2, e).value, e, key);
    }
  }

  /** Per-key projection: what the accumulator holds under a key is what that key's own events make
      of it, and keys are listed in the order of their introduction. */
  lemma {:induction false} RunProjects(a: Acc, events: seq<Event>, key: string)
    requires forall e :: e in events ==> OwnKey(e)
    ensures Run(a, events).Some? ==>
              KeyRun(View(a, key), Project(events, key)) == Some(View(Run(a, events).value, key))
              && Run(a, events).value.order == Introduced(a.order, events)
    decreases |events|
  {
    hide Take, KeyTake, View, ItemKey, Introduces;
    if events != [] {
      var e := events[0];
      assert e in events;
      assert OwnKey(e);
      OwnKeyTake(a, e, key);
      IntroducesTouches(e);
      if Take(a, e).Some? {
        var a' := Take(a, e).value;
        RunProjects(a', events[1..], key);
        if ItemKey(e) == Some(key) {
          assert Project(events, key) == [e] + Project(events[1..], key);
        } else {
          assert Project(events, key) == Project(events[1..], key);
        }
      }
    }
  }

  lemma IntroducesTouches(e: Event)
    ensures Introduces(e) ==> TouchesKey(e)
  {
  }

  /** The stream raises exactly when the events of some key raise on their own. */
  lemma {:induction false} RunRaisesPerKey(a: Acc, events: seq<Event>)
    requires forall e :: e in events ==> OwnKey(e)
    ensures Run(a, events).None? <==> exists key :: KeyRun(View(a, key), Project(events, key)).None?
    decreases |events|
  {
    hide Take, KeyTake, View, ItemKey, OwnKey;
    if events != [] {
      var e := events[0];
      assert e in events;
      assert OwnKey(e);
      OwnKeyTake(a, e, "");
      if Take(a, e).None? {
        var key := ItemKey(e).value;
        OwnKeyTake(a, e, key);
        assert Project(events, key) == [e] + Project(events[1..], key);
        assert KeyRun(View(a, key), Project(events, key)).None?;
      } else {
        var a' := Take(a, e).value;
        RunRaisesPerKey(a', events[1..]);
        forall k ensures KeyRun(View(a, k), Project(events, k)) == KeyRun(View(a', k), Project(events[1..], k)) {
          OwnKeyTake(a, e, k);
          if ItemKey(e) == Some(k) {
            assert Project(events, k) == [e] + Project(events[1..], k);
          } else {
            assert Project(events, k) == Project(events[1..], k);
          }
        }
      }
    }
  }

  // ----- Arguments: the last done text, or else the joined deltas -----

  function Deltas(events: seq<Event>): seq<string> {
    if events == [] then []
    else
      (if IsDelta(events[0]) then [TextField(events[0], "delta").value] else []) + Deltas(events[1..])
  }

  function LastDone(events: seq<Event>): Option<string> {
    if events == [] then None
    else
      var last := events[|events| - 1];
      if IsDone(last) then TextField(last, "arguments") else LastDone(events[..|events| - 1])
  }

  function ItemEvents(events: seq<Event>): seq<Event> {
    if events == [] then []
    else (if Introduces(events[0]) then [events[0]] else []) + ItemEvents(events[1..])
  }

  lemma {:induction false} KeyRunAppend(s: KeyState, events: seq<Event>, e: Event)
    ensures KeyRun(s, events + [e]) == match KeyRun(s, events) case None => None case Some(s') => KeyTake(s', e)
    decreases |events|
  {
    hide KeyTake;
    if events == [] {
      assert events + [e] == [e] && [e][1..] == [];
      assert KeyRun(s, [e]) == KeyTake(s, e);
    } else {
      assert (events + [e])[1..] == events[1..] + [e];
      if KeyTake(s, events[0]).Some? {
        KeyRunAppend(KeyTake(s, events[0]).value, events[1..], e);
      }
    }
  }

  lemma {:induction false} DeltasAppend(events: seq<Event>, e: Event)
    ensures Deltas(events + [e]) == Deltas(events) + Deltas([e])
  {
    hide TextField;
    if events == [] {
      assert events + [e] == [e];
    } else {
      assert (events + [e])[1..] == events[1..] + [e] && (events + [e])[0] == events[0];
      DeltasAppend(events[1..], e);
      var first := if IsDelta(events[0]) then [TextField(events[0], "delta").value] else [];
      assert Deltas(events + [e]) == first + Deltas(events[1..] + [e]);
      assert Deltas(events) == first + Deltas(events[1..]);
    }
  }

  lemma {:induction false} KeyRunArguments(events: seq<Event>)
    requires KeyRun(Blank, events).Some?
    ensures KeyRun(Blank, events).value.done == LastDone(events)
    ensures KeyRun(Blank, events).value.deltas == if Deltas(events) == [] then None else Some(Deltas(events))
  {
    if events != [] {
      var earlier, e := events[..|events| - 1], events[|events| - 1];
      assert events == earlier + [e];
      KeyRunAppend(Blank, earlier, e);
      DeltasAppend(earlier, e);
      KeyRunArguments(earlier);
      KeyTakeArguments(KeyRun(Blank, earlier).value, e);
      hide KeyTake, KeyRun, Get;
      assert [e][1..] == [];
      if IsDelta(e) {
        assert Deltas(events) == Deltas(earlier) + [TextField(e, "delta").value];
      } else {
        assert Deltas(events) == Deltas(earlier);
      }
    }
  }

  lemma KeyTakeArguments(s: KeyState, e: Event)
    ensures KeyTake(s, e).Some? ==>
              KeyTake(s, e).value.done == (if IsDone(e) then TextField(e, "arguments") else s.done)
              && KeyTake(s, e).value.deltas
                 == (if IsDelta(e) then Some(s.deltas.GetOr([]) + [TextField(e, "delta").value]) else s.deltas)
  {
    hide Summarize, Summarizes, Merge, Get, TextField, ObjectField;
    assert !(IsDone(e) && IsDelta(e));
  }

  /** The stored item depends only on the item and summary events. */
  lemma {:induction false} KeyRunItem(s: KeyState, events: seq<Event>)
    ensures match (KeyRun(s, events), KeyRun(s, ItemEvents(events)))
            case (Some(a), Some(b)) => a.item == b.item
            case (None, None) => true
            case _ => false
    decreases |events|
  {
    KeyRunItemFrom(s, s, events);
  }

  lemma {:induction false} KeyRunItemFrom(s: KeyState, t: KeyState, events: seq<Event>)
    requires s.item == t.item
    ensures match (KeyRun(s, events), KeyRun(t, ItemEvents(events)))
            case (Some(a), Some(b)) => a.item == b.item
            case (None, None) => true
            case _ => false
    decreases |events|
  {
    if events != [] {
      var e := events[0];
      if Introduces(e) {
        assert ItemEvents(events) == [e] + ItemEvents(events[1..]);
        assert ItemEvents(events)[1..] == ItemEvents(events[1..]);
        if KeyTake(s, e).Some? { KeyRunItemFrom(KeyTake(s, e).value, KeyTake(t, e).value, events[1..]); }
      } else {
        assert ItemEvents(events) == ItemEvents(events[1..]);
        KeyRunItemFrom(KeyTake(s, e).value, t, events[1..]);
      }
    }
  }

  /** The output item of a key, told from its own events: the item they build, and for a function
      call the last complete arguments or else the concatenation of all deltas. */
  function ItemOf(events: seq<Event>): Option<Entries> {
    var s :- KeyRun(Blank, ItemEvents(events));
    var item :- s.item;
    Some(
      if Get(item, "type") != Some(Str("function_call")) then item
      else if LastDone(events).Some? then Set(item, "arguments", Str(LastDone(events).value))
      else if Deltas(events) != [] then Set(item, "arguments", Str(Join(Deltas(events))))
      else item)
  }

  function Collected(events: seq<Event>, order: seq<string>): (r: seq<Option<Entries>>)
    ensures |r| == |order|
  {
    if order == [] then [] else [ItemOf(Project(events, order[0]))] + Collected(events, order[1..])
  }

  lemma {:induction false} OutputIsCollected(a: Acc, events: seq<Event>, order: seq<string>)
    requires forall e :: e in events ==> OwnKey(e)
    requires Run(Start, events) == Some(a) && forall k :: k in order ==> k in a.items
    ensures forall i :: 0 <= i < |order| ==> Collected(events, order)[i] == Some(OutputItems(a, order)[i])
    decreases |order|
  {
    if order != [] {
      KeyOutput(a, events, order[0]);
      hide ItemOf, Built, Run, OwnKey, Project;
      OutputIsCollected(a, events, order[1..]);
      var collected, items := Collected(events, order[1..]), OutputItems(a, order[1..]);
      assert Collected(events, order) == [ItemOf(Project(events, order[0]))] + collected;
      forall i | 0 < i < |order| ensures Collected(events, order)[i] == Some(OutputItems(a, order)[i]) {
        assert collected[i - 1] == Some(items[i - 1]);
      }
    }
  }

  lemma KeyOutput(a: Acc, events: seq<Event>, key: string)
    requires forall e :: e in events ==> OwnKey(e)
    requires Run(Start, events) == Some(a) && key in a.items
    ensures ItemOf(Project(events, key)) == Some(Built(a.items[key], Lookup(a.dones, key), Lookup(a.deltas, key)))
  {
    assert View(Start, key) == Blank;
    RunProjects(Start, events, key);
    var own := Project(events, key);
    KeyRunArguments(own);
    KeyRunItem(Blank, own);
    hide Run, KeyRun, Get, Set;
  }

  /** The accumulated output of a stream with own keys, read off the stream itself: one item per
      introduced key, in order of introduction, each from that key's own events. */
  lemma StreamOutput(events: seq<Event>)
    requires forall e :: e in events ==> OwnKey(e)
    requires Run(Start, events).Some?
    ensures var a := Run(Start, events).value;
            var keys := Introduced([], events);
            a.order == keys && (forall k :: k in keys ==> k in a.items)
            && forall i :: 0 <= i < |keys| ==> Collected(events, keys)[i] == Some(OutputItems(a, keys)[i])
  {
    RunProjects(Start, events, "");
    OrderListsStoredKeys(Start, events);
    var a := Run(Start, events).value;
    assert Ordered(a);
    OutputIsCollected(a, events, Introduced([], events));
  }

  /** Interleaving does not matter: streams with the same events per key, introducing keys in the
      same order, give the same output items. */
  lemma SameProjectionsSameOutput(events: seq<Event>, others: seq<Event>)
    requires forall e :: e in events ==> OwnKey(e)
    requires forall e :: e in others ==> OwnKey(e)
    requires forall key :: Project(events, key) == Project(others, key)
    requires Introduced([], events) == Introduced([], others)
    ensures match (Run(Start, events), Run(Start, others))
            case (Some(a), Some(b)) =>
              (forall k :: k in a.order ==> k in a.items) && (forall k :: k in b.order ==> k in b.items)
              && OutputItems(a, a.order) == OutputItems(b, b.order)
            case (None, None) => true
            case _ => false
  {
    hide Run, KeyRun, OutputItems, Collected;
    RunRaisesPerKey(Start, events);
    RunRaisesPerKey(Start, others);
    if Run(Start, events).Some? && Run(Start, others).Some? {
      StreamOutput(events);
      StreamOutput(others);
      var a, b := Run(Start, events).value, Run(Start, others).value;
      CollectedAgree(events, others, Introduced([], events));
      assert forall i :: 0 <= i < |a.order| ==> OutputItems(a, a.order)[i] == OutputItems(b, b.order)[i];
    }
  }

  lemma {:induction false} CollectedAgree(events: seq<Event>, others: seq<Event>, order: seq<string>)
    requires forall key :: Project(events, key) == Project(others, key)
    ensures Collected(events, order) == Collected(others, order)
  {
    if order != [] { CollectedAgree(events, others, order[1..]); }
  }

  // ----- Summaries: only the concatenation of the text deltas counts -----

  lemma AppendTextShape(item: Entries) returns (parts: seq<Json>, last: Entries, text: string)
    ensures forall d :: AppendText(item, d) == Set(item, "summary", Arr(parts + [Obj(Set(last, "text", Str(text + d)))]))
  {
    var summary := match Get(item, "summary") case Some(Arr(parts)) => parts case _ => [];
    var all := if summary == [] || !summary[|summary| - 1].Obj? then summary + [Obj(NEW_SUMMARY_TEXT)] else summary;
    parts, last := all[..|all| - 1], all[|all| - 1].entries;
    text := TextField(last, "text").GetOr("");
  }

  lemma AppendTextJoins(item: Entries, x: string, y: string)
    ensures AppendText(AppendText(item, x), y) == AppendText(item, x + y)
  {
    hide AppendText, Get, Set;
    var parts, last, text := AppendTextShape(item);
    var grown := Set(last, "text", Str(text + x));
    var more := Set(last, "text", Str(text + x + y));
    GetSet(item, "summary", Arr(parts + [Obj(grown)]), "summary");
    GetSet(last, "text", Str(text + x), "text");
    SetTwice(last, "text", Str(text + x), Str(text + x + y));
    AppendTextTo(AppendText(item, x), parts, grown, y);
    SetTwice(item, "summary", Arr(parts + [Obj(grown)]), Arr(parts + [Obj(more)]));
    assert text + x + y == text + (x + y);
  }

  lemma AppendTextTo(item: Entries, parts: seq<Json>, part: Entries, text: string)
    requires Get(item, "summary") == Some(Arr(parts + [Obj(part)]))
    ensures AppendText(item, text)
            == Set(item, "summary", Arr(parts + [Obj(Set(part, "text", Str(TextField(part, "text").GetOr("") + text)))]))
  {
    var all := parts + [Obj(part)];
    assert all[|all| - 1] == Obj(part) && all[..|all| - 1] == parts;
    hide Get, Set;
  }

  /** The parts of an item's summary. */
  function Parts(item: Entries): seq<Json> {
    match Get(item, "summary")
    case Some(Arr(parts)) => parts
    case _ => []
  }

  /** A part that is added, extended by a text and finished is one part more: the added part with the
      text appended to its own, overwritten by the fields of the finished one. Nothing else of the
      item changes. */
  lemma FinishedPartIsOne(item: Entries, part: Entries, text: string, done: Entries, key: string)
    requires AppendPart(item, part).Some?
    ensures var after := FinishPart(AppendText(AppendPart(item, part).value, text), done);
            Parts(after) == Parts(item) + [Obj(Merge(Set(part, "text", Str(TextField(part, "text").GetOr("") + text)), done))]
            && (key != "summary" ==> Get(after, key) == Get(item, key))
  {
    var parts := Parts(item);
    var extended := Set(part, "text", Str(TextField(part, "text").GetOr("") + text));
    var finished := Merge(extended, done);
    var one := AppendPart(item, part).value;
    PartAppended(item, part, key);
    var two := AppendText(one, text);
    TextAppended(one, parts, part, text, key);
    PartFinished(two, parts, extended, done, key);
  }

  /** A part that is finished without having been added becomes a part of its own. */
  lemma PartDoneAlone(item: Entries, part: Entries, key: string)
    requires !HasUnusableSummary(item) && (Parts(item) != [] ==> !Parts(item)[|Parts(item)| - 1].Obj?)
    ensures Parts(FinishPart(item, part)) == Parts(item) + [Obj(part)]
    ensures key != "summary" ==> Get(FinishPart(item, part), key) == Get(item, key)
  {
    var summary := Arr(Parts(item) + [Obj(part)]);
    assert Get(item, "summary").None? ==> Parts(item) + [Obj(part)] == [Obj(part)];
    GetSet(item, "summary", summary, "summary");
    GetSet(item, "summary", summary, key);
    hide Get, Set;
  }

  lemma PartAppended(item: Entries, part: Entries, key: string)
    requires AppendPart(item, part).Some?
    ensures var one := AppendPart(item, part).value;
            Get(one, "summary") == Some(Arr(Parts(item) + [Obj(part)])) && (key != "summary" ==> Get(one, key) == Get(item, key))
  {
    assert Get(item, "summary").None? ==> Parts(item) + [Obj(part)] == [Obj(part)];
    GetSet(item, "summary", Arr(Parts(item) + [Obj(part)]), "summary");
    GetSet(item, "summary", Arr(Parts(item) + [Obj(part)]), key);
    hide Get, Set;
  }

  lemma TextAppended(item: Entries, parts: seq<Json>, part: Entries, text: string, key: string)
    requires Get(item, "summary") == Some(Arr(parts + [Obj(part)]))
    ensures var after := AppendText(item, text);
            var extended := Set(part, "text", Str(TextField(part, "text").GetOr("") + text));
            Get(after, "summary") == Some(Arr(parts + [Obj(extended)])) && (key != "summary" ==> Get(after, key) == Get(item, key))
  {
    var extended := Set(part, "text", Str(TextField(part, "text").GetOr("") + text));
    AppendTextTo(item, parts, part, text);
    GetSet(item, "summary", Arr(parts + [Obj(extended)]), "summary");
    GetSet(item, "summary", Arr(parts + [Obj(extended)]), key);
    hide Get, Set;
  }

  lemma PartFinished(item: Entries, parts: seq<Json>, part: Entries, done: Entries, key: string)
    requires Get(item, "summary") == Some(Arr(parts + [Obj(part)]))
    ensures var after := FinishPart(item, done);
            Get(after, "summary") == Some(Arr(parts + [Obj(Merge(part, done))])) && (key != "summary" ==> Get(after, key) == Get(item, key))
  {
    var all := parts + [Obj(part)];
    assert all[|all| - 1] == Obj(part) && all[..|all| - 1] == parts;
    GetSet(item, "summary", Arr(parts + [Obj(Merge(part, done))]), "summary");
    GetSet(item, "summary", Arr(parts + [Obj(Merge(part, done))]), key);
    hide Get, Set, Merge;
  }

  predicate IsSummaryDelta(e: Event) {
    Is(e, SUMMARY_DELTA) && TextField(e, "delta").Some? && ObjectField(e, "item").None?
  }

  function SummaryDeltas(events: seq<Event>): seq<string>
    requires forall e :: e in events ==> IsSummaryDelta(e)
  {
    if events == [] then []
    else
      assert IsSummaryDelta(events[0]);
      [TextField(events[0], "delta").value] + SummaryDeltas(events[1..])
  }

  /** A run of summary deltas appends the concatenation of their texts to the last summary part,
      however the text is split. */
  lemma {:induction false} SummaryDeltasJoin(s: KeyState, events: seq<Event>)
    requires events != [] && forall e :: e in events ==> IsSummaryDelta(e)
    ensures KeyRun(s, events)
            == Some(s.(item := Some(AppendText(s.item.GetOr(NEW_REASONING), Join(SummaryDeltas(events))))))
    decreases |events|
  {
    var e, item := events[0], s.item.GetOr(NEW_REASONING);
    assert IsSummaryDelta(e);
    var delta := TextField(e, "delta").value;
    SummaryDeltaTake(s, e);
    hide AppendText, KeyTake, IsSummaryDelta;
    var rest := events[1..];
    assert KeyRun(s, events) == KeyRun(s.(item := Some(AppendText(item, delta))), rest);
    assert Join(SummaryDeltas(events)) == delta + Join(SummaryDeltas(rest)) by {
      assert ([delta] + SummaryDeltas(rest))[1..] == SummaryDeltas(rest);
    }
    if rest == [] {
      assert delta + "" == delta;
    } else {
      SummaryDeltasJoin(s.(item := Some(AppendText(item, delta))), rest);
      AppendTextJoins(item, delta, Join(SummaryDeltas(rest)));
    }
  }

  lemma SummaryDeltaTake(s: KeyState, e: Event)
    requires IsSummaryDelta(e)
    ensures TextField(e, "delta").Some?
    ensures KeyTake(s, e) == Some(s.(item := Some(AppendText(s.item.GetOr(NEW_REASONING), TextField(e, "delta").value))))
  {
    hide AppendText, Get, ObjectField, TextField;
  }

  // ----- What builds the item of a key, whatever the splits -----

  /** A run of summary deltas, with their texts joined, or any other event with an item or summary. */
  datatype Action = Append(text: string) | Handle(event: Event)

  /** A text before the actions joins with a text at their start. */
  function AppendOn(text: string, actions: seq<Action>): seq<Action> {
    if actions != [] && actions[0].Append? then [Append(text + actions[0].text)] + actions[1..] else [Append(text)] + actions
  }

  /** The events of a key that build its item, with adjacent summary deltas joined. */
  function Actions(events: seq<Event>): seq<Action> {
    if events == [] then []
    else
      var rest := Actions(events[1..]);
      if !Introduces(events[0]) then rest
      else if !IsSummaryDelta(events[0]) then [Handle(events[0])] + rest
      else AppendOn(TextField(events[0], "delta").value, rest)
  }

  function Act(s: KeyState, action: Action): Option<KeyState> {
    match action
    case Append(text) => Some(s.(item := Some(AppendText(s.item.GetOr(NEW_REASONING), text))))
    case Handle(event) => KeyTake(s, event)
  }

  function ActAll(s: KeyState, actions: seq<Action>): Option<KeyState>
    decreases |actions|
  {
    if actions == [] then Some(s)
    else
      var s :- Act(s, actions[0]);
      ActAll(s, actions[1..])
  }

  lemma AppendFirst(s: KeyState, delta: string, rest: seq<Action>)
    ensures ActAll(s, AppendOn(delta, rest)) == ActAll(Act(s, Append(delta)).value, rest)
  {
    var next := Act(s, Append(delta)).value;
    if rest != [] && rest[0].Append? {
      AppendTextJoins(s.item.GetOr(NEW_REASONING), delta, rest[0].text);
      assert ([Append(delta + rest[0].text)] + rest[1..])[1..] == rest[1..];
      hide AppendText;
      assert Act(next, rest[0]) == Act(s, Append(delta + rest[0].text));
    } else {
      assert ([Append(delta)] + rest)[1..] == rest;
      hide AppendText;
    }
  }

  /** The item events of a key do what its actions do. */
  lemma {:induction false} ActionsBuildTheItem(s: KeyState, events: seq<Event>)
    ensures KeyRun(s, ItemEvents(events)) == ActAll(s, Actions(events))
    decreases |events|
  {
    hide KeyTake, AppendText, IsSummaryDelta, Introduces;
    if events != [] {
      var e := events[0];
      if !Introduces(e) {
        assert ItemEvents(events) == ItemEvents(events[1..]);
        ActionsBuildTheItem(s, events[1..]);
      } else {
        assert ItemEvents(events) == [e] + ItemEvents(events[1..]);
        assert ItemEvents(events)[1..] == ItemEvents(events[1..]);
        if IsSummaryDelta(e) {
          SummaryDeltaTake(s, e);
          var delta := TextField(e, "delta").value;
          AppendFirst(s, delta, Actions(events[1..]));
          ActionsBuildTheItem(Act(s, Append(delta)).value, events[1..]);
        } else {
          assert ([Handle(e)] + Actions(events[1..]))[1..] == Actions(events[1..]);
          if KeyTake(s, e).Some? { ActionsBuildTheItem(KeyTake(s, e).value, events[1..]); }
        }
      }
    }
  }

  lemma {:induction false} DeltasFirst(deltas: seq<Event>, after: seq<Event>)
    requires deltas != [] && forall e :: e in deltas ==> IsSummaryDelta(e)
    ensures Actions(deltas + after) == AppendOn(Join(SummaryDeltas(deltas)), Actions(after))
  {
    var e, rest := deltas[0], deltas[1..];
    assert IsSummaryDelta(e) && Introduces(e);
    var delta := TextField(e, "delta").value;
    hide IsSummaryDelta, Introduces;
    assert (deltas + after)[0] == e && (deltas + after)[1..] == rest + after;
    assert ([delta] + SummaryDeltas(rest))[1..] == SummaryDeltas(rest);
    if rest == [] {
      assert rest + after == after && delta + "" == delta;
    } else {
      DeltasFirst(rest, after);
      var text, actions := Join(SummaryDeltas(rest)), Actions(after);
      if actions != [] && actions[0].Append? { assert delta + (text + actions[0].text) == (delta + text) + actions[0].text; }
    }
  }

  /** Splitting a run of summary deltas in another way leaves the actions as they are, wherever it is. */
  lemma {:induction false} SplitKeepsActions(before: seq<Event>, deltas: seq<Event>, others: seq<Event>, after: seq<Event>)
    requires deltas != [] && forall e :: e in deltas ==> IsSummaryDelta(e)
    requires others != [] && forall e :: e in others ==> IsSummaryDelta(e)
    requires Join(SummaryDeltas(deltas)) == Join(SummaryDeltas(others))
    ensures Actions(before + deltas + after) == Actions(before + others + after)
  {
    if before == [] {
      DeltasFirst(deltas, after);
      DeltasFirst(others, after);
      assert before + deltas == deltas && before + others == others;
    } else {
      SplitKeepsActions(before[1..], deltas, others, after);
      assert (before + deltas + after)[1..] == before[1..] + deltas + after;
      assert (before + others + after)[1..] == before[1..] + others + after;
      hide Introduces, IsSummaryDelta;
    }
  }

  /** In the events of one key: a part added, any deltas and the part done leave one part more, with
      all the deltas in its text unless the finished part has another. */
  lemma SummaryPartIsBuilt(s: KeyState, added: Event, deltas: seq<Event>, done: Event)
    requires Is(added, ADDED) && ObjectField(added, "part").Some? && ObjectField(added, "item").None?
    requires Is(done, PART_DONE) && ObjectField(done, "part").Some? && ObjectField(done, "item").None?
    requires deltas != [] && forall e :: e in deltas ==> IsSummaryDelta(e)
    requires !HasUnusableSummary(s.item.GetOr(NEW_REASONING))
    ensures var part, last := ObjectField(added, "part").value, ObjectField(done, "part").value;
            var extended := Set(part, "text", Str(TextField(part, "text").GetOr("") + Join(SummaryDeltas(deltas))));
            var after := KeyRun(s, [added] + deltas + [done]);
            after.Some? && after.value.item.Some?
            && Parts(after.value.item.value) == Parts(s.item.GetOr(NEW_REASONING)) + [Obj(Merge(extended, last))]
  {
    var item, part, last := s.item.GetOr(NEW_REASONING), ObjectField(added, "part").value, ObjectField(done, "part").value;
    var one := AppendPart(item, part);
    AddedTake(s, added);
    var s1 := KeyTake(s, added).value;
    SummaryDeltasJoin(s1, deltas);
    var s2 := KeyRun(s1, deltas).value;
    DoneTake(s2, done);
    FinishedPartIsOne(item, part, Join(SummaryDeltas(deltas)), last, "");
    assert ([added] + deltas)[1..] == deltas;
    hide KeyTake, AppendText, FinishPart, AppendPart, Parts, IsSummaryDelta;
    KeyRunAppend(s, [added] + deltas, done);
    assert KeyRun(s, [added] + deltas) == KeyRun(s1, deltas);
  }

  lemma AddedTake(s: KeyState, e: Event)
    requires Is(e, ADDED) && ObjectField(e, "part").Some? && ObjectField(e, "item").None?
    requires !HasUnusableSummary(s.item.GetOr(NEW_REASONING))
    ensures var item := AppendPart(s.item.GetOr(NEW_REASONING), ObjectField(e, "part").value);
            item.Some? && KeyTake(s, e) == Some(s.(item := item))
  {
    hide Get, Set, ObjectField, TextField;
  }

  lemma DoneTake(s: KeyState, e: Event)
    requires Is(e, PART_DONE) && ObjectField(e, "part").Some? && ObjectField(e, "item").None?
    ensures KeyTake(s, e) == Some(s.(item := Some(FinishPart(s.item.GetOr(NEW_REASONING), ObjectField(e, "part").value))))
  {
    hide Get, FinishPart, ObjectField, TextField;
  }

  /** Two lists of events of one key that differ only in how summary deltas and argument deltas are
      split: adjacent summary deltas join to the same texts, the last done text is the same, and so
      is the concatenation of the argument deltas. */
  ghost predicate SameButForSplits(events: seq<Event>, others: seq<Event>) {
    Actions(events) == Actions(others) && LastDone(events) == LastDone(others)
    && Join(Deltas(events)) == Join(Deltas(others)) && (Deltas(events) == [] <==> Deltas(others) == [])
  }

  lemma {:induction false} CollectedBySplits(events: seq<Event>, others: seq<Event>, order: seq<string>)
    requires forall key :: SameButForSplits(Project(events, key), Project(others, key))
    ensures Collected(events, order) == Collected(others, order)
  {
    if order != [] {
      var key := order[0];
      assert SameButForSplits(Project(events, key), Project(others, key));
      ActionsBuildTheItem(Blank, Project(events, key));
      ActionsBuildTheItem(Blank, Project(others, key));
      assert ItemOf(Project(events, key)) == ItemOf(Project(others, key)) by { hide KeyRun, Get, Set, Project, Actions, ActAll; }
      hide ItemOf, SameButForSplits;
      CollectedBySplits(events, others, order[1..]);
    }
  }

  lemma RaisesBySplits(events: seq<Event>, others: seq<Event>)
    requires SameButForSplits(events, others)
    ensures KeyRun(Blank, events).None? <==> KeyRun(Blank, others).None?
  {
    KeyRunItem(Blank, events);
    KeyRunItem(Blank, others);
    ActionsBuildTheItem(Blank, events);
    ActionsBuildTheItem(Blank, others);
    hide KeyRun, Actions, ActAll;
  }

  /** Only the concatenation of the deltas matters, not how they are split: two streams that introduce
      their keys in the same order and, for every key, differ in the splits of its summary and
      argument deltas only, give the same output items, or both raise. */
  lemma SplitOfDeltasIsInvisible(events: seq<Event>, others: seq<Event>)
    requires forall e :: e in events ==> OwnKey(e)
    requires forall e :: e in others ==> OwnKey(e)
    requires forall key :: SameButForSplits(Project(events, key), Project(others, key))
    requires Introduced([], events) == Introduced([], others)
    ensures match (Run(Start, events), Run(Start, others))
            case (Some(a), Some(b)) =>
              (forall k :: k in a.order ==> k in a.items) && (forall k :: k in b.order ==> k in b.items)
              && OutputItems(a, a.order) == OutputItems(b, b.order)
            case (None, None) => true
            case _ => false
  {
    hide Run, KeyRun, OutputItems, Collected, SameButForSplits;
    RunRaisesPerKey(Start, events);
    RunRaisesPerKey(Start, others);
    forall key ensures KeyRun(View(Start, key), Project(events, key)).None? <==> KeyRun(View(Start, key), Project(others, key)).None? {
      assert SameButForSplits(Project(events, key), Project(others, key));
      RaisesBySplits(Project(events, key), Project(others, key));
    }
    if Run(Start, events).Some? && Run(Start, others).Some? {
      StreamOutput(events);
      StreamOutput(others);
      var a, b := Run(Start, events).value, Run(Start, others).value;
      CollectedBySplits(events, others, Introduced([], events));
      assert forall i :: 0 <= i < |a.order| ==> OutputItems(a, a.order)[i] == OutputItems(b, b.order)[i];
    }
  }
}
