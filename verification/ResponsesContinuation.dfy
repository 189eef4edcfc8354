/** Continuing a Responses request whose answer held only reasoning: the reasoning items are added
    to the input, without repeats, and the request is sent again. */
module ResponsesContinuation {
  import opened Wrappers
  import opened Json

  type Item = Entries

  /** The id by which a reasoning item is recognised. */
  function ReasoningId(item: Item): Option<string> {
    if Get(item, "type") != Some(Str("reasoning")) then None
    else
      match Get(item, "id")
      case Some(Str(id)) => Some(id)
      case _ => None
  }

  predicate Repeats(item: Item, seen: set<string>) {
    ReasoningId(item).Some? && ReasoningId(item).value in seen
  }

  function SeenWith(seen: set<string>, item: Item): set<string> {
    if ReasoningId(item).Some? then seen + {ReasoningId(item).value} else seen
  }

  /** The items that are not reasoning items seen before. */
  function Fresh(items: seq<Item>, seen: set<string>): seq<Item> {
    if items == [] then []
    else (if Repeats(items[0], seen) then [] else [items[0]]) + Fresh(items[1..], SeenWith(seen, items[0]))
  }

  function Ids(items: seq<Item>): set<string> {
    set i | i in items && ReasoningId(i).Some? :: ReasoningId(i).value
  }

  /** `_dedupe_responses_input_items` */
  method Dedupe(items: seq<Item>) returns (deduped: seq<Item>)
    ensures deduped == Fresh(items, {})
  {
    hide ReasoningId;
    deduped := [];
    var seen: set<string> := {};
    for n := 0 to |items|
      invariant deduped + Fresh(items[n..], seen) == Fresh(items, {})
    {
      var item := items[n];
      assert items[n..][0] == item && items[n..][1..] == items[n + 1..];
      if ReasoningId(item).Some? {
        if ReasoningId(item).value in seen {
          assert SeenWith(seen, item) == seen;
          continue;
        }
        seen := seen + {ReasoningId(item).value};
      }
      deduped := deduped + [item];
    }
  }

  /** No reasoning item is there twice, nor one of `seen`. */
  predicate NoRepeats(items: seq<Item>, seen: set<string>) {
    forall i :: 0 <= i < |items| && ReasoningId(items[i]).Some? ==>
      ReasoningId(items[i]).value !in seen
      && forall j :: 0 <= j < i ==> ReasoningId(items[j]) != ReasoningId(items[i])
  }

  lemma PrependNoRepeats(first: Item, rest: seq<Item>, seen: set<string>)
    requires !Repeats(first, seen) && NoRepeats(rest, SeenWith(seen, first))
    ensures NoRepeats([first] + rest, seen)
  {
    hide ReasoningId;
    var all := [first] + rest;
    forall i | 0 <= i < |all| && ReasoningId(all[i]).Some?
      ensures ReasoningId(all[i]).value !in seen
      ensures forall j :: 0 <= j < i ==> ReasoningId(all[j]) != ReasoningId(all[i])
    {
      if i > 0 {
        assert all[i] == rest[i - 1];
        forall j | 0 <= j < i ensures ReasoningId(all[j]) != ReasoningId(all[i]) {
          if j > 0 { assert all[j] == rest[j - 1]; }
        }
      }
    }
  }

  lemma {:induction false} FreshHasNoRepeats(items: seq<Item>, seen: set<string>)
    ensures NoRepeats(Fresh(items, seen), seen)
  {
    if items != [] {
      FreshHasNoRepeats(items[1..], SeenWith(seen, items[0]));
      hide NoRepeats, ReasoningId;
      var rest := Fresh(items[1..], SeenWith(seen, items[0]));
      if Repeats(items[0], seen) {
        assert Fresh(items, seen) == rest && SeenWith(seen, items[0]) == seen;
      } else {
        PrependNoRepeats(items[0], rest, seen);
      }
    }
  }

  lemma {:induction false} FreshKeepsOthers(items: seq<Item>, seen: set<string>, item: Item)
    requires ReasoningId(item).None?
    ensures multiset(Fresh(items, seen))[item] == multiset(items)[item]
  {
    if items != [] {
      assert items == [items[0]] + items[1..];
      FreshKeepsOthers(items[1..], SeenWith(seen, items[0]), item);
      hide ReasoningId;
    }
  }

  lemma {:induction false} FreshKeepsIds(items: seq<Item>, seen: set<string>)
    ensures Ids(Fresh(items, seen)) + seen == Ids(items) + seen
  {
    if items != [] {
      var first, rest := items[0], Fresh(items[1..], SeenWith(seen, items[0]));
      FreshKeepsIds(items[1..], SeenWith(seen, first));
      assert items == [first] + items[1..];
      IdsOfConcat([first], items[1..]);
      IdsOfConcat([first], rest);
      IdsOfOne(first, seen);
      hide ReasoningId, Ids, SeenWith;
      if Repeats(first, seen) {
        assert Fresh(items, seen) == rest;
      }
    }
  }

  lemma IdsOfOne(item: Item, seen: set<string>)
    ensures SeenWith(seen, item) == seen + Ids([item])
    ensures Repeats(item, seen) ==> Ids([item]) <= seen
  {
    hide ReasoningId;
    assert ReasoningId(item).Some? ==> item in [item];
  }

  /** Deduping removes all repeats, loses no reasoning id and keeps every other item. */
  lemma DedupeLosesNothing(items: seq<Item>, item: Item)
    ensures NoRepeats(Fresh(items, {}), {}) && Ids(Fresh(items, {})) == Ids(items)
    ensures ReasoningId(item).None? ==> multiset(Fresh(items, {}))[item] == multiset(items)[item]
  {
    FreshHasNoRepeats(items, {});
    FreshKeepsIds(items, {});
    assert Ids(items) + {} == Ids(items) && Ids(Fresh(items, {})) + {} == Ids(Fresh(items, {}));
    if ReasoningId(item).None? { FreshKeepsOthers(items, {}, item); }
  }

  /** The same, told from the fields: of items of type `reasoning` with the same text for an id one is
      left, and every item of another type or without such an id is kept as often as it occurs. */
  lemma DedupeByFields(items: seq<Item>, id: string, item: Item)
    ensures var kept := Fresh(items, {});
            (forall i, j :: 0 <= i < j < |kept| ==> !(IsReasoning(kept[i], id) && IsReasoning(kept[j], id)))
            && ((exists i :: i in items && IsReasoning(i, id)) <==> (exists i :: i in kept && IsReasoning(i, id)))
            && ((forall text :: !IsReasoning(item, text)) ==> multiset(kept)[item] == multiset(items)[item])
  {
    var kept := Fresh(items, {});
    DedupeLosesNothing(items, item);
    forall i: Item, text ensures IsReasoning(i, text) <==> ReasoningId(i) == Some(text) { ReasoningIdExactly(i, text); }
    hide ReasoningId, IsReasoning;
    assert id in Ids(items) <==> id in Ids(kept);
    if ReasoningId(item).Some? { assert IsReasoning(item, ReasoningId(item).value); }
  }

  predicate IsReasoning(item: Item, id: string) {
    Get(item, "type") == Some(Str("reasoning")) && Get(item, "id") == Some(Str(id))
  }

  lemma ReasoningIdExactly(item: Item, id: string)
    ensures IsReasoning(item, id) <==> ReasoningId(item) == Some(id)
  {
    hide Get;
  }

  lemma IdsOfConcat(a: seq<Item>, b: seq<Item>)
    ensures Ids(a + b) == Ids(a) + Ids(b)
  {
    hide ReasoningId;
    forall id | id in Ids(a) + Ids(b) ensures id in Ids(a + b) {
      if id in Ids(a) {
        var i :| i in a && ReasoningId(i) == Some(id);
        assert i in a + b;
      } else {
        var i :| i in b && ReasoningId(i) == Some(id);
        assert i in a + b;
      }
    }
  }

  lemma {:induction false} FreshKeepsAll(items: seq<Item>, seen: set<string>)
    requires NoRepeats(items, seen)
    ensures Fresh(items, seen) == items
  {
    hide ReasoningId;
    if items != [] {
      var rest := items[1..];
      forall i | 0 <= i < |rest| && ReasoningId(rest[i]).Some?
        ensures ReasoningId(rest[i]).value !in SeenWith(seen, items[0])
        ensures forall j :: 0 <= j < i ==> ReasoningId(rest[j]) != ReasoningId(rest[i])
      {
        assert rest[i] == items[i + 1] && ReasoningId(items[0]) != ReasoningId(items[i + 1]);
        forall j | 0 <= j < i ensures ReasoningId(rest[j]) != ReasoningId(rest[i]) { assert rest[j] == items[j + 1]; }
      }
      FreshKeepsAll(rest, SeenWith(seen, items[0]));
    }
  }

  lemma {:induction false} FreshConcat(a: seq<Item>, b: seq<Item>, seen: set<string>)
    ensures Fresh(a + b, seen) == Fresh(a, seen) + Fresh(b, seen + Ids(a))
  {
    hide ReasoningId;
    if a == [] {
      assert a + b == b && seen + Ids(a) == seen;
    } else {
      assert (a + b)[1..] == a[1..] + b;
      FreshConcat(a[1..], b, SeenWith(seen, a[0]));
      assert a == [a[0]] + a[1..];
      IdsOfConcat([a[0]], a[1..]);
      IdsOfOne(a[0], seen);
      assert SeenWith(seen, a[0]) + Ids(a[1..]) == seen + Ids(a);
    }
  }

  /** A deduplicated input stays as it is when deduplicated again, and a prefix of what it becomes
      with further items: those with new reasoning ids, or none, are appended. */
  lemma ContinuationExtends(items: seq<Item>, more: seq<Item>)
    requires NoRepeats(items, {})
    ensures Fresh(items, {}) == items
    ensures Fresh(items + more, {}) == items + Fresh(more, Ids(items))
    ensures NoRepeats(Fresh(items + more, {}), {})
  {
    FreshKeepsAll(items, {});
    FreshConcat(items, more, {});
    FreshHasNoRepeats(items + more, {});
    assert {} + Ids(items) == Ids(items);
  }

  // ----- The request loop -----

  /** What a request comes back with: a response, output that holds only reasoning, or an error. */
  datatype Reply = Response(text: string) | ReasoningOnly(items: seq<Item>) | Error(detail: string)

  datatype Outcome = Answer(text: string) | Failure(detail: string) | NoOutput | ReasoningLimit(items: nat, retries: int)

  /** The provider, answering each request by its number and its input. */
  type Provider = (nat, seq<Item>) -> Reply

  predicate IsContinuable(reply: Reply) {
    reply.ReasoningOnly? && reply.items != []
  }

  /** The next input is the previous one with the new reasoning items appended. */
  ghost predicate Continues(input: seq<Item>, next: seq<Item>, reply: Reply) {
    IsContinuable(reply) && next == input + Fresh(reply.items, Ids(input))
  }

  /** The inputs of one call's requests: the first is the call's own, and each further one continues
      a request that was answered by reasoning only; none repeats a reasoning item. */
  ghost predicate Conversation(input: seq<Item>, requests: seq<seq<Item>>, provider: Provider) {
    (requests != [] ==> requests[0] == input)
    && (forall k :: 0 <= k < |requests| ==> NoRepeats(requests[k], {}))
    && forall k :: 0 < k < |requests| ==> Continues(requests[k - 1], requests[k], provider(k - 1, requests[k - 1]))
  }

  lemma Converse(start: seq<Item>, requests: seq<seq<Item>>, input: seq<Item>, provider: Provider)
    requires Conversation(start, requests, provider) && NoRepeats(input, {})
    requires if requests == [] then input == start
             else Continues(requests[|requests| - 1], input, provider(|requests| - 1, requests[|requests| - 1]))
    ensures Conversation(start, requests + [input], provider)
  {
    hide NoRepeats, Continues;
  }

  /** The loop of `GenericOAuthResponsesAdapter.generate`: at most `retries + 1` requests, and the
      outcome is that of the last reply. */
  method Generate(items: seq<Item>, retries: int, provider: Provider) returns (outcome: Outcome, requests: seq<seq<Item>>)
    ensures |requests| <= if retries < 0 then 0 else retries + 1
    ensures Conversation(Fresh(items, {}), requests, provider)
    ensures retries < 0 ==> outcome == NoOutput
    ensures retries >= 0 ==> requests != []
    ensures retries >= 0 ==>
              var last := provider(|requests| - 1, requests[|requests| - 1]);
              (outcome
               == match last
                  case Response(text) => Answer(text)
                  case Error(detail) => Failure(detail)
                  case ReasoningOnly(more) => if more == [] then NoOutput else ReasoningLimit(|more|, retries))
              && (IsContinuable(last) ==> |requests| == retries + 1)
  {
    hide NoRepeats, Fresh, Ids, Conversation, Continues;
    var input := Dedupe(items);
    FreshHasNoRepeats(items, {});
    requests := [];
    outcome := NoOutput;
    NoRequests(Fresh(items, {}), provider);
    for attempt := 0 to if retries < 0 then 0 else retries + 1
      invariant attempt == |requests| && (attempt > 0 ==> attempt <= retries)
      invariant NoRepeats(input, {})
      invariant Conversation(Fresh(items, {}), requests, provider)
      invariant Conversation(Fresh(items, {}), requests + [input], provider)
    {
      requests := requests + [input];
      var reply := provider(attempt, input);
      match reply {
        case Response(text) =>
          return Answer(text), requests;
        case Error(detail) =>
          return Failure(detail), requests;
        case ReasoningOnly(more) =>
          if more == [] {
            return NoOutput, requests;
          }
          if attempt >= retries {
            return ReasoningLimit(|more|, retries), requests;
          }
          ContinuationExtends(input, more);
          var next := Dedupe(input + more);
          assert Continues(input, next, reply) by { IsContinuation(input, next, reply); }
          Converse(Fresh(items, {}), requests, next, provider);
          input := next;
      }
    }
  }

  lemma NoRequests(start: seq<Item>, provider: Provider)
    requires NoRepeats(start, {})
    ensures Conversation(start, [], provider) && Conversation(start, [] + [start], provider)
  {
    hide NoRepeats;
  }

  lemma IsContinuation(input: seq<Item>, next: seq<Item>, reply: Reply)
    requires IsContinuable(reply) && next == input + Fresh(reply.items, Ids(input))
    ensures Continues(input, next, reply)
  {
  }
}
