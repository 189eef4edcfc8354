/** Dropping tool messages that a provider would reject: orphans for the Responses API, and all
    but the trailing pair for Azure chat completions. */
module HistoryPruning {
  import opened Wrappers

  datatype Role = System | User | Assistant | Tool

  datatype Message = Message(id: string, role: Role, content: string, toolName: Option<string>, toolCallId: Option<string>)

  predicate Given(text: Option<string>) {
    text.Some? && text.value != ""
  }

  /** A tool call or a tool result with a call id. */
  predicate IsCall(m: Message) {
    m.role == Assistant && Given(m.toolName) && Given(m.toolCallId)
  }

  predicate IsResult(m: Message) {
    m.role == Tool && Given(m.toolCallId)
  }

  predicate IsToolMessage(m: Message) {
    IsCall(m) || IsResult(m)
  }

  function Filter(messages: seq<Message>, keep: Message -> bool): seq<Message> {
    if messages == [] then []
    else (if keep(messages[0]) then [messages[0]] else []) + Filter(messages[1..], keep)
  }

  /** `a` comes from `b` by leaving out messages. */
  predicate Subsequence(a: seq<Message>, b: seq<Message>) {
    a == [] || (b != [] && ((a[0] == b[0] && Subsequence(a[1..], b[1..])) || Subsequence(a, b[1..])))
  }

  lemma {:induction false} FilterIsSubsequence(messages: seq<Message>, keep: Message -> bool)
    ensures Subsequence(Filter(messages, keep), messages)
    ensures forall m :: m in Filter(messages, keep) <==> m in messages && keep(m)
  {
    if messages != [] {
      FilterIsSubsequence(messages[1..], keep);
      var rest := Filter(messages[1..], keep);
      if keep(messages[0]) {
        assert ([messages[0]] + rest)[1..] == rest;
      } else {
        assert Filter(messages, keep) == rest;
      }
    }
  }

  lemma {:induction false} SubsequenceMembers(a: seq<Message>, b: seq<Message>)
    requires Subsequence(a, b)
    ensures forall m :: m in a ==> m in b
  {
    if a != [] {
      if a[0] == b[0] && Subsequence(a[1..], b[1..]) {
        SubsequenceMembers(a[1..], b[1..]);
        assert a == [a[0]] + a[1..];
      } else {
        SubsequenceMembers(a, b[1..]);
      }
    }
  }

  /** Of all subsequences whose messages satisfy `keep`, the filtered list is the greatest. */
  lemma {:induction false} FilterIsGreatest(a: seq<Message>, messages: seq<Message>, keep: Message -> bool)
    requires Subsequence(a, messages) && forall m :: m in a ==> keep(m)
    ensures Subsequence(a, Filter(messages, keep))
    decreases |messages|
  {
    if a != [] {
      var rest := Filter(messages[1..], keep);
      if a[0] == messages[0] && Subsequence(a[1..], messages[1..]) {
        FilterIsGreatest(a[1..], messages[1..], keep);
        assert keep(messages[0]) by { assert a[0] in a; }
        assert ([messages[0]] + rest)[1..] == rest;
      } else {
        FilterIsGreatest(a, messages[1..], keep);
        if keep(messages[0]) {
          assert ([messages[0]] + rest)[1..] == rest;
        } else {
          assert Filter(messages, keep) == rest;
        }
      }
    }
  }

  lemma {:induction false} FilterAll(messages: seq<Message>, keep: Message -> bool)
    requires forall m :: m in messages ==> keep(m)
    ensures Filter(messages, keep) == messages
  {
    if messages != [] {
      assert messages == [messages[0]] + messages[1..];
      FilterAll(messages[1..], keep);
    }
  }

  // ----- Orphans -----

  /** Both a call and a result of that id are there. */
  predicate Complete(messages: seq<Message>, callId: string) {
    (exists i :: 0 <= i < |messages| && IsCall(messages[i]) && messages[i].toolCallId == Some(callId))
    && exists i :: 0 <= i < |messages| && IsResult(messages[i]) && messages[i].toolCallId == Some(callId)
  }

  predicate Matched(messages: seq<Message>, m: Message) {
    IsToolMessage(m) ==> Complete(messages, m.toolCallId.value)
  }

  function KeepMatched(messages: seq<Message>, all: seq<Message>): seq<Message> {
    Filter(messages, m => Matched(all, m))
  }

  function PruneOrphaned(messages: seq<Message>): seq<Message> {
    KeepMatched(messages, messages)
  }

  lemma KeepMatchedFrom(messages: seq<Message>, n: nat, all: seq<Message>)
    requires n < |messages|
    ensures KeepMatched(messages[n..], all) == (if Matched(all, messages[n]) then [messages[n]] else []) + KeepMatched(messages[n + 1..], all)
  {
    assert messages[n..][0] == messages[n] && messages[n..][1..] == messages[n + 1..];
    hide Matched;
  }

  predicate NoOrphans(messages: seq<Message>) {
    forall m :: m in messages ==> Matched(messages, m)
  }

  datatype Counts = Counts(calls: nat, results: nat)

  ghost predicate CountsAre(counts: map<string, Counts>, messages: seq<Message>) {
    forall id :: id != "" ==>
      ((id in counts && counts[id].calls > 0) <==>
        exists i :: 0 <= i < |messages| && IsCall(messages[i]) && messages[i].toolCallId == Some(id))
      && ((id in counts && counts[id].results > 0) <==>
        exists i :: 0 <= i < |messages| && IsResult(messages[i]) && messages[i].toolCallId == Some(id))
  }

  lemma CountNext(counts: map<string, Counts>, messages: seq<Message>, m: Message, next: map<string, Counts>)
    requires CountsAre(counts, messages)
    requires !Given(m.toolCallId) ==> next == counts
    requires Given(m.toolCallId) ==>
               var id := m.toolCallId.value;
               var c := if id in counts then counts[id] else Counts(0, 0);
               next == counts[id := if IsCall(m) then c.(calls := c.calls + 1)
                                    else if m.role == Tool then c.(results := c.results + 1) else c]
    ensures CountsAre(next, messages + [m])
  {
    var more := messages + [m];
    forall id | id != ""
      ensures (id in next && next[id].calls > 0) <==>
                exists i :: 0 <= i < |more| && IsCall(more[i]) && more[i].toolCallId == Some(id)
      ensures (id in next && next[id].results > 0) <==>
                exists i :: 0 <= i < |more| && IsResult(more[i]) && more[i].toolCallId == Some(id)
    {
      hide IsCall, IsResult;
      assert more[|messages|] == m;
      ExistsMore(messages, m, id);
      assert IsCall(m) ==> Given(m.toolCallId) && m.role == Assistant by { CallShape(m); }
      assert IsResult(m) <==> Given(m.toolCallId) && m.role == Tool by { CallShape(m); }
    }
  }

  lemma CallShape(m: Message)
    ensures IsCall(m) ==> Given(m.toolCallId) && m.role == Assistant
    ensures IsResult(m) <==> Given(m.toolCallId) && m.role == Tool
  {
  }

  lemma ExistsMore(messages: seq<Message>, m: Message, id: string)
    ensures (exists i :: 0 <= i < |messages + [m]| && IsCall((messages + [m])[i]) && (messages + [m])[i].toolCallId == Some(id))
            <==> (exists i :: 0 <= i < |messages| && IsCall(messages[i]) && messages[i].toolCallId == Some(id))
                 || (IsCall(m) && m.toolCallId == Some(id))
    ensures (exists i :: 0 <= i < |messages + [m]| && IsResult((messages + [m])[i]) && (messages + [m])[i].toolCallId == Some(id))
            <==> (exists i :: 0 <= i < |messages| && IsResult(messages[i]) && messages[i].toolCallId == Some(id))
                 || (IsResult(m) && m.toolCallId == Some(id))
  {
    hide IsCall, IsResult;
    var more := messages + [m];
    assert more[|messages|] == m;
    assert forall i :: 0 <= i < |messages| ==> more[i] == messages[i];
  }

  /** `_prune_orphaned_responses_tool_messages`: counts calls and results per id, then keeps. */
  method PruneOrphanedToolMessages(messages: seq<Message>) returns (pruned: seq<Message>)
    ensures pruned == PruneOrphaned(messages)
  {
    hide Matched, CountsAre, KeepMatched;
    NothingCounted();
    var counts: map<string, Counts> := map[];
    for n := 0 to |messages|
      invariant CountsAre(counts, messages[..n])
    {
      var m := messages[n];
      ghost var before := counts;
      if Given(m.toolCallId) {
        var id := m.toolCallId.value;
        var c := if id in counts then counts[id] else Counts(0, 0);
        if m.role == Assistant && Given(m.toolName) {
          c := c.(calls := c.calls + 1);
        } else if m.role == Tool {
          c := c.(results := c.results + 1);
        }
        counts := counts[id := c];
      }
      CountNext(before, messages[..n], m, counts);
      assert messages[..n + 1] == messages[..n] + [m];
    }
    assert messages[..|messages|] == messages;
    pruned := [];
    assert messages[0..] == messages;
    for n := 0 to |messages|
      invariant pruned + KeepMatched(messages[n..], messages) == PruneOrphaned(messages)
    {
      var m := messages[n];
      KeepMatchedFrom(messages, n, messages);
      MatchedByCounts(counts, messages, m);
      if Given(m.toolCallId) && (m.role == Assistant || m.role == Tool) {
        if m.role == Assistant && !Given(m.toolName) {
          pruned := pruned + [m];
          continue;
        }
        var id := m.toolCallId.value;
        if !(id in counts && counts[id].calls > 0 && counts[id].results > 0) {
          continue;
        }
      }
      pruned := pruned + [m];
    }
    assert messages[|messages|..] == [];
    assert KeepMatched([], messages) == [] by { KeepNothing(messages); }
  }

  lemma KeepNothing(all: seq<Message>)
    ensures KeepMatched([], all) == []
  {
  }

  lemma NothingCounted()
    ensures CountsAre(map[], [])
  {
  }

  lemma MatchedByCounts(counts: map<string, Counts>, messages: seq<Message>, m: Message)
    requires CountsAre(counts, messages)
    ensures Matched(messages, m) <==>
              !Given(m.toolCallId) || !(m.role == Assistant || m.role == Tool) || (m.role == Assistant && !Given(m.toolName))
              || (m.toolCallId.value in counts && counts[m.toolCallId.value].calls > 0 && counts[m.toolCallId.value].results > 0)
  {
    if IsToolMessage(m) {
      var id := m.toolCallId.value;
      assert id != "";
      assert Complete(messages, id) <==> id in counts && counts[id].calls > 0 && counts[id].results > 0;
    }
  }

  /** The messages of a call id that is complete survive, so it stays complete. */
  lemma CompleteStays(messages: seq<Message>, callId: string)
    requires Complete(messages, callId)
    ensures Complete(PruneOrphaned(messages), callId)
  {
    var pruned := PruneOrphaned(messages);
    FilterIsSubsequence(messages, m => Matched(messages, m));
    var i :| 0 <= i < |messages| && IsCall(messages[i]) && messages[i].toolCallId == Some(callId);
    var j :| 0 <= j < |messages| && IsResult(messages[j]) && messages[j].toolCallId == Some(callId);
    assert messages[i] in pruned && messages[j] in pruned;
  }

  /** Orphan pruning gives the greatest subsequence in which every call id is complete or absent:
      it has no orphans, and every subsequence without orphans is a subsequence of it. */
  lemma PruneOrphanedIsGreatest(messages: seq<Message>, other: seq<Message>)
    ensures var pruned := PruneOrphaned(messages);
            Subsequence(pruned, messages) && NoOrphans(pruned)
            && (Subsequence(other, messages) && NoOrphans(other) ==> Subsequence(other, pruned))
  {
    var pruned := PruneOrphaned(messages);
    FilterIsSubsequence(messages, m => Matched(messages, m));
    forall m | m in pruned ensures Matched(pruned, m) {
      if IsToolMessage(m) { CompleteStays(messages, m.toolCallId.value); }
    }
    if Subsequence(other, messages) && NoOrphans(other) {
      forall m | m in other ensures Matched(messages, m) {
        if IsToolMessage(m) { CompleteInLonger(other, messages, m.toolCallId.value); }
      }
      FilterIsGreatest(other, messages, m => Matched(messages, m));
    }
  }

  lemma CompleteInLonger(a: seq<Message>, b: seq<Message>, callId: string)
    requires Subsequence(a, b) && Complete(a, callId)
    ensures Complete(b, callId)
  {
    SubsequenceMembers(a, b);
    var i :| 0 <= i < |a| && IsCall(a[i]) && a[i].toolCallId == Some(callId);
    var j :| 0 <= j < |a| && IsResult(a[j]) && a[j].toolCallId == Some(callId);
    assert a[i] in b && a[j] in b;
  }

  /** Every message of a complete id and every message that belongs to no tool call is kept, as
      often as it occurs. */
  lemma {:induction false} FilterKeepsCounts(messages: seq<Message>, keep: Message -> bool, m: Message)
    requires keep(m)
    ensures multiset(Filter(messages, keep))[m] == multiset(messages)[m]
  {
    if messages != [] {
      FilterKeepsCounts(messages[1..], keep, m);
      assert messages == [messages[0]] + messages[1..];
    }
  }

  lemma CompletePairsAreKept(messages: seq<Message>, m: Message)
    requires Matched(messages, m)
    ensures multiset(PruneOrphaned(messages))[m] == multiset(messages)[m]
  {
    FilterKeepsCounts(messages, m => Matched(messages, m), m);
  }

  /** Pruning changes a history exactly when it has orphans; so pruning twice is pruning once. */
  lemma PruneOrphanedUnchanged(messages: seq<Message>)
    ensures PruneOrphaned(messages) == messages <==> NoOrphans(messages)
    ensures PruneOrphaned(PruneOrphaned(messages)) == PruneOrphaned(messages)
  {
    PruneOrphanedIsGreatest(messages, messages);
    PruneOrphanedIsGreatest(PruneOrphaned(messages), []);
    if NoOrphans(messages) { FilterAll(messages, m => Matched(messages, m)); }
    var pruned := PruneOrphaned(messages);
    FilterAll(pruned, m => Matched(pruned, m));
  }

  // ----- Azure -----

  predicate IsCompletedPair(call: Message, result: Message) {
    call.role == Assistant && result.role == Tool && Given(call.toolName) && Given(call.toolCallId)
    && call.toolCallId == result.toolCallId
  }

  function ActiveCallId(messages: seq<Message>): Option<string> {
    if |messages| < 2 then None
    else if IsCompletedPair(messages[|messages| - 2], messages[|messages| - 1]) then messages[|messages| - 1].toolCallId
    else None
  }

  predicate ShouldDrop(m: Message, active: Option<string>) {
    Given(m.toolCallId) && m.toolCallId != active && (m.role == Tool || (m.role == Assistant && Given(m.toolName)))
  }

  function KeepActive(messages: seq<Message>, active: Option<string>): seq<Message> {
    Filter(messages, m => !ShouldDrop(m, active))
  }

  function PruneForAzure(messages: seq<Message>): seq<Message> {
    KeepActive(messages, ActiveCallId(messages))
  }

  lemma KeepActiveFrom(messages: seq<Message>, n: nat, active: Option<string>)
    requires n < |messages|
    ensures KeepActive(messages[n..], active)
            == (if ShouldDrop(messages[n], active) then [] else [messages[n]]) + KeepActive(messages[n + 1..], active)
  {
    assert messages[n..][0] == messages[n] && messages[n..][1..] == messages[n + 1..];
    hide ShouldDrop;
  }

  lemma KeepNone(active: Option<string>)
    ensures KeepActive([], active) == []
  {
  }

  /** `_prune_historical_tool_messages_for_azure` */
  method PruneHistoricalToolMessages(messages: seq<Message>) returns (pruned: seq<Message>)
    ensures pruned == PruneForAzure(messages)
  {
    hide ShouldDrop, KeepActive, ActiveCallId;
    var active := ActiveCallId(messages);
    pruned := [];
    assert messages[0..] == messages;
    for n := 0 to |messages|
      invariant pruned + KeepActive(messages[n..], active) == PruneForAzure(messages)
    {
      KeepActiveFrom(messages, n, active);
      if ShouldDrop(messages[n], active) {
        continue;
      }
      pruned := pruned + [messages[n]];
    }
    assert messages[|messages|..] == [];
    KeepNone(active);
  }

  lemma {:induction false} FilterConcat(a: seq<Message>, b: seq<Message>, keep: Message -> bool)
    ensures Filter(a + b, keep) == Filter(a, keep) + Filter(b, keep)
  {
    if a == [] {
      assert a + b == b;
    } else {
      assert (a + b)[1..] == a[1..] + b && (a + b)[0] == a[0];
      FilterConcat(a[1..], b, keep);
      var first := if keep(a[0]) then [a[0]] else [];
      assert Filter(a + b, keep) == first + Filter(a[1..] + b, keep);
      assert Filter(a, keep) == first + Filter(a[1..], keep);
    }
  }

  /** The active pair is still the active pair after pruning. */
  lemma ActiveStays(messages: seq<Message>)
    ensures ActiveCallId(PruneForAzure(messages)) == ActiveCallId(messages)
  {
    var active, n := ActiveCallId(messages), |messages|;
    var pruned := PruneForAzure(messages);
    if active.Some? {
      var last := messages[n - 2..];
      assert messages == messages[..n - 2] + last;
      FilterConcat(messages[..n - 2], last, m => !ShouldDrop(m, active));
      assert forall m :: m in last ==> m == messages[n - 2] || m == messages[n - 1];
      FilterAll(last, m => !ShouldDrop(m, active));
      assert pruned == Filter(messages[..n - 2], m => !ShouldDrop(m, active)) + last;
    } else {
      FilterIsSubsequence(messages, m => !ShouldDrop(m, active));
      if ActiveCallId(pruned).Some? {
        var result := pruned[|pruned| - 1];
        assert result in pruned && !ShouldDrop(result, active);
      }
    }
  }

  // ----- What Azure pruning keeps, told from the messages -----

  /** The last two messages are a tool call and a result of its id. */
  predicate EndsInPair(messages: seq<Message>) {
    |messages| >= 2 && IsCall(messages[|messages| - 2]) && IsResult(messages[|messages| - 1])
    && messages[|messages| - 2].toolCallId == messages[|messages| - 1].toolCallId
  }

  /** Not a tool message, or one with the id of the trailing pair. */
  predicate Wanted(messages: seq<Message>, m: Message) {
    IsToolMessage(m) ==> EndsInPair(messages) && m.toolCallId == messages[|messages| - 1].toolCallId
  }

  lemma WantedIsKept(messages: seq<Message>, m: Message)
    ensures ShouldDrop(m, ActiveCallId(messages)) <==> !Wanted(messages, m)
  {
  }

  lemma {:induction false} FilterSame(messages: seq<Message>, a: Message -> bool, b: Message -> bool)
    requires forall m :: a(m) == b(m)
    ensures Filter(messages, a) == Filter(messages, b)
  {
    if messages != [] { FilterSame(messages[1..], a, b); }
  }

  lemma AzureKeepsWanted(messages: seq<Message>)
    ensures PruneForAzure(messages) == Filter(messages, m => Wanted(messages, m))
  {
    var active := ActiveCallId(messages);
    forall m ensures !ShouldDrop(m, active) == Wanted(messages, m) { WantedIsKept(messages, m); }
    hide ShouldDrop, Wanted;
    FilterSame(messages, m => !ShouldDrop(m, active), m => Wanted(messages, m));
  }

  /** Azure pruning gives the greatest subsequence whose tool messages all have the id of the trailing
      pair, so none when there is no such pair. */
  lemma AzureHistoryIsGreatest(messages: seq<Message>, other: seq<Message>)
    ensures var pruned := PruneForAzure(messages);
            Subsequence(pruned, messages) && (forall m :: m in pruned ==> Wanted(messages, m))
            && (Subsequence(other, messages) && (forall m :: m in other ==> Wanted(messages, m)) ==> Subsequence(other, pruned))
  {
    AzureKeepsWanted(messages);
    hide Wanted;
    FilterIsSubsequence(messages, m => Wanted(messages, m));
    if Subsequence(other, messages) && forall m :: m in other ==> Wanted(messages, m) {
      FilterIsGreatest(other, messages, m => Wanted(messages, m));
    }
  }

  /** Every other message, and every message of the trailing pair's id, is kept as often as it
      occurs; the trailing pair stays at the end. */
  lemma AzureKeepsTheRest(messages: seq<Message>, m: Message)
    ensures Wanted(messages, m) ==> multiset(PruneForAzure(messages))[m] == multiset(messages)[m]
    ensures EndsInPair(messages) ==>
              var pruned := PruneForAzure(messages);
              |pruned| >= 2 && pruned[|pruned| - 2..] == messages[|messages| - 2..]
  {
    AzureKeepsWanted(messages);
    if Wanted(messages, m) { FilterKeepsCounts(messages, m => Wanted(messages, m), m); }
    if EndsInPair(messages) {
      var n := |messages| - 2;
      var last := messages[n..];
      assert messages == messages[..n] + last;
      FilterConcat(messages[..n], last, m => Wanted(messages, m));
      assert forall m :: m in last ==> m == messages[n] || m == messages[n + 1];
      FilterAll(last, m => Wanted(messages, m));
    }
  }

  /** What is left for Azure has only the tool messages of the trailing pair; pruning it again, or
      for orphans, changes nothing. */
  lemma AzureHistoryIsSettled(messages: seq<Message>)
    ensures var pruned := PruneForAzure(messages);
            (forall m :: m in pruned && IsToolMessage(m) ==> m.toolCallId == ActiveCallId(messages))
            && PruneForAzure(pruned) == pruned && PruneOrphaned(pruned) == pruned
  {
    var active, pruned := ActiveCallId(messages), PruneForAzure(messages);
    FilterIsSubsequence(messages, m => !ShouldDrop(m, active));
    ActiveStays(messages);
    FilterAll(pruned, m => !ShouldDrop(m, active));
    forall m | m in pruned ensures Matched(pruned, m) {
      if IsToolMessage(m) {
        assert m.toolCallId == active;
        ActiveIsComplete(pruned);
      }
    }
    PruneOrphanedUnchanged(pruned);
  }

  lemma ActiveIsComplete(messages: seq<Message>)
    requires ActiveCallId(messages).Some?
    ensures Complete(messages, ActiveCallId(messages).value)
  {
    var n := |messages|;
    assert IsCall(messages[n - 2]) && IsResult(messages[n - 1]);
  }
}
