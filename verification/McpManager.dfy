/** The MCP server manager: one state per server key, retry delays, and the global generation
    number that resolvers compare to decide whether their tool registry is still current. */
module McpManager {
  import opened Wrappers

  datatype Status = Retrying | Connected | Unavailable

  /** A server configuration; `key` is the text `_state_key` derives from it. */
  datatype Config = Config(key: string, settings: string)

  datatype ServerState = ServerState(
    config: Config, status: Status, tools: seq<string>, client: Option<string>, info: Option<string>,
    lastError: Option<string>, lastCheckedAt: Option<real>, nextRetryAt: Option<real>, generation: nat)

  /** The manager's dictionaries; `order` is the insertion order of `states`. */
  datatype Manager = Manager(
    states: map<string, ServerState>, order: seq<string>, delays: map<string, real>, generation: nat)
  {
    ghost predicate Valid() {
      (forall k :: k in states <==> k in order)
      && (forall i, j :: 0 <= i < j < |order| ==> order[i] != order[j])
    }

    function Put(k: string, s: ServerState): Manager {
      Manager(states[k := s], if k in states then order else order + [k], delays, generation)
    }
  }

  datatype Timing = Timing(initial: real, max: real)

  const Start: Manager := Manager(map[], [], map[], 0)

  function Min(a: real, b: real): real {
    if a <= b then a else b
  }

  // ----- The steps between two await points -----

  datatype Step =
    | Begin(config: Config, force: bool, now: real)
    | Succeed(config: Config, tools: seq<string>, client: string, info: string, started: real)
    | Fail(config: Config, error: string, started: real, now: real, jitter: real)

  function Pending(config: Config, previous: Option<ServerState>): ServerState {
    match previous
    case None => ServerState(config, Retrying, [], None, None, None, None, None, 0)
    case Some(s) => s.(status := Retrying)
  }

  function Previous(m: Manager, k: string): Option<ServerState> {
    if k in m.states then Some(m.states[k]) else None
  }

  /** Whether `refresh` goes on to contact the server. */
  predicate Due(m: Manager, config: Config, force: bool, now: real) {
    match Previous(m, config.key)
    case None => true
    case Some(s) =>
      if force then true
      else if s.nextRetryAt.Some? then s.nextRetryAt.value <= now
      else s.status != Connected
  }

  function NextDelay(t: Timing, previous: Option<real>): real {
    Min(previous.GetOr(t.initial / 2.0) * 2.0, t.max)
  }

  function Jittered(delay: real, jitter: real): real {
    delay * jitter
  }

  function NextGeneration(m: Manager, k: string): nat {
    if k in m.states then m.states[k].generation + 1 else 1
  }

  function Take(t: Timing, m: Manager, step: Step): Manager {
    var k := step.config.key;
    match step
    case Begin(config, force, now) =>
      if Due(m, config, force, now) then m.Put(k, Pending(config, Previous(m, k))) else m
    case Succeed(config, tools, client, info, started) =>
      m.Put(k, ServerState(config, Connected, tools, Some(client), Some(info), None, Some(started), None, NextGeneration(m, k)))
      .(delays := m.delays - {k}, generation := m.generation + 1)
    case Fail(config, error, started, now, jitter) =>
      var delay := NextDelay(t, if k in m.delays then Some(m.delays[k]) else None);
      m.Put(k, ServerState(config, Unavailable, [], None, None, Some(error), Some(started), Some(now + Jittered(delay, jitter)), NextGeneration(m, k)))
      .(delays := m.delays[k := delay], generation := m.generation + 1)
  }

  function Run(t: Timing, m: Manager, steps: seq<Step>): Manager
    decreases |steps|
  {
    if steps == [] then m else Run(t, Take(t, m, steps[0]), steps[1..])
  }

  lemma TakeValid(t: Timing, m: Manager, step: Step)
    requires m.Valid()
    ensures Take(t, m, step).Valid()
  {}

  // ----- Snapshots and the registries built from them -----

  /** The states of the wanted servers, in the order of the dictionary. */
  function Servers(states: map<string, ServerState>, order: seq<string>, keys: set<string>): seq<ServerState>
    requires forall k :: k in order ==> k in states
  {
    if order == [] then []
    else (if order[0] in keys then [states[order[0]]] else []) + Servers(states, order[1..], keys)
  }

  lemma ServersFrom(states: map<string, ServerState>, order: seq<string>, i: nat, keys: set<string>)
    requires i < |order| && forall k :: k in order ==> k in states
    ensures Servers(states, order[i..], keys)
            == (if order[i] in keys then [states[order[i]]] else []) + Servers(states, order[i + 1..], keys)
  {
    assert order[i..][0] == order[i] && order[i..][1..] == order[i + 1..];
  }

  lemma ServersOfNothing(states: map<string, ServerState>, keys: set<string>)
    ensures Servers(states, [], keys) == []
  {
  }

  /** A registered tool: its name, the client that serves it, and the server configuration. */
  datatype Entry = Entry(tool: string, client: string, config: Config)

  function Entries(s: ServerState): (entries: seq<Entry>) {
    if s.status == Connected && s.client.Some?
    then seq(|s.tools|, i requires 0 <= i < |s.tools| => Entry(s.tools[i], s.client.value, s.config))
    else []
  }

  /** `build_tool_registry` on a snapshot. */
  function Registry(servers: seq<ServerState>): seq<Entry> {
    if servers == [] then [] else Entries(servers[0]) + Registry(servers[1..])
  }

  function RegistryOf(m: Manager, keys: set<string>): seq<Entry>
    requires forall k :: k in m.order ==> k in m.states
  {
    Registry(Servers(m.states, m.order, keys))
  }

  // ----- The generation number as a change detector -----

  /** The same server apart from a status that may have become `retrying`. */
  predicate SameServer(s: ServerState, later: ServerState) {
    later == s.(status := later.status) && (later.status == s.status || later.status == Retrying)
  }

  /** What holds between two managers of one run that have the same generation. */
  ghost predicate Unchanged(m: Manager, later: Manager) {
    m.order <= later.order && (forall k :: k in m.states ==> k in later.states && SameServer(m.states[k], later.states[k]))
  }

  lemma {:induction false} GenerationDetectsChange(t: Timing, m: Manager, steps: seq<Step>)
    requires m.Valid()
    ensures Run(t, m, steps).Valid()
    ensures m.generation <= Run(t, m, steps).generation
    ensures m.generation == Run(t, m, steps).generation ==> Unchanged(m, Run(t, m, steps))
    decreases |steps|
  {
    if steps == [] {
      UnchangedItself(m);
    } else {
      var next := Take(t, m, steps[0]);
      TakeValid(t, m, steps[0]);
      StepDetectsChange(t, m, steps[0]);
      GenerationDetectsChange(t, next, steps[1..]);
      hide Take, Unchanged;
      if m.generation == next.generation == Run(t, next, steps[1..]).generation {
        UnchangedTransitive(m, next, Run(t, next, steps[1..]));
      }
    }
  }

  lemma StepDetectsChange(t: Timing, m: Manager, step: Step)
    requires m.Valid()
    ensures m.generation <= Take(t, m, step).generation
    ensures m.generation == Take(t, m, step).generation ==> Unchanged(m, Take(t, m, step))
  {
  }

  lemma UnchangedItself(m: Manager)
    ensures Unchanged(m, m)
  {
  }

  lemma UnchangedTransitive(a: Manager, b: Manager, c: Manager)
    requires Unchanged(a, b) && Unchanged(b, c)
    ensures Unchanged(a, c)
  {
  }

  ghost predicate SameServers(a: seq<ServerState>, b: seq<ServerState>) {
    |a| == |b| && forall i :: 0 <= i < |a| ==> SameServer(a[i], b[i])
  }

  lemma {:induction false} ServersUnchanged(m: Manager, later: Manager, keys: set<string>, order: seq<string>)
    requires Unchanged(m, later) && forall k :: k in order ==> k in m.states
    ensures SameServers(Servers(m.states, order, keys), Servers(later.states, order, keys))
  {
    if order != [] {
      ServersUnchanged(m, later, keys, order[1..]);
    }
  }

  lemma {:induction false} ServersAppend(states: map<string, ServerState>, a: seq<string>, b: seq<string>, keys: set<string>)
    requires forall k :: k in a + b ==> k in states
    ensures (forall k :: k in a ==> k in states) && (forall k :: k in b ==> k in states)
    ensures Servers(states, a + b, keys) == Servers(states, a, keys) + Servers(states, b, keys)
  {
    assert forall k :: k in a ==> k in a + b;
    assert forall k :: k in b ==> k in a + b;
    if a == [] {
      assert a + b == b;
    } else {
      assert (a + b)[1..] == a[1..] + b && (a + b)[0] == a[0];
      ServersAppend(states, a[1..], b, keys);
      var first := if a[0] in keys then [states[a[0]]] else [];
      assert Servers(states, a + b, keys) == first + Servers(states, a[1..] + b, keys);
      assert Servers(states, a, keys) == first + Servers(states, a[1..], keys);
    }
  }

  lemma {:induction false} NoServers(states: map<string, ServerState>, order: seq<string>, keys: set<string>)
    requires forall k :: k in order ==> k in states && k !in keys
    ensures Servers(states, order, keys) == []
  {
    if order != [] {
      NoServers(states, order[1..], keys);
    }
  }

  /** At an unchanged generation only servers outside `keys` can have been added. */
  lemma AddedServersIgnored(m: Manager, later: Manager, keys: set<string>)
    requires m.Valid() && later.Valid() && Unchanged(m, later) && keys <= m.states.Keys
    ensures forall k :: k in m.order ==> k in later.states
    ensures Servers(later.states, later.order, keys) == Servers(later.states, m.order, keys)
  {
    var added := later.order[|m.order|..];
    assert later.order == m.order + added;
    assert forall k :: k in later.order ==> k in later.states;
    hide Servers;
    ServersAppend(later.states, m.order, added, keys);
    forall k | k in added ensures k in later.states && k !in keys {
      assert k in m.order + added;
    }
    NoServers(later.states, added, keys);
  }

  /** Two snapshots of servers the manager already knows that carry the same generation list the
      same servers in the same order, with the same tools, client and configuration. */
  lemma SameGenerationSameServers(t: Timing, m: Manager, steps: seq<Step>, keys: set<string>)
    requires m.Valid() && keys <= m.states.Keys
    requires m.generation == Run(t, m, steps).generation
    ensures Run(t, m, steps).Valid()
    ensures SameServers(Servers(m.states, m.order, keys), Servers(Run(t, m, steps).states, Run(t, m, steps).order, keys))
  {
    GenerationDetectsChange(t, m, steps);
    AddedServersIgnored(m, Run(t, m, steps), keys);
    ServersUnchanged(m, Run(t, m, steps), keys, m.order);
  }

  /** A server that a re-check has taken out of the registry: it was serving tools and is no
      longer connected. */
  predicate Withdrawn(s: ServerState, later: ServerState) {
    Entries(s) != [] && later.status != Connected
  }

  lemma {:induction false} RegistryShrinks(a: seq<ServerState>, b: seq<ServerState>)
    requires SameServers(a, b)
    ensures |Registry(b)| <= |Registry(a)|
    ensures Registry(a) == Registry(b) <==> forall i :: 0 <= i < |a| ==> !Withdrawn(a[i], b[i])
  {
    if a != [] {
      RegistryShrinks(a[1..], b[1..]);
      assert SameServer(a[0], b[0]);
      assert Entries(b[0]) == Entries(a[0]) || Entries(b[0]) == [];
      if Withdrawn(a[0], b[0]) {
        assert |Registry(b)| < |Registry(a)|;
      } else {
        assert Entries(b[0]) == Entries(a[0]);
        assert Registry(a)[|Entries(a[0])|..] == Registry(a[1..]);
        assert Registry(b)[|Entries(a[0])|..] == Registry(b[1..]);
        if forall i :: 0 <= i < |a[1..]| ==> !Withdrawn(a[1..][i], b[1..][i]) {
          forall i | 0 <= i < |a| ensures !Withdrawn(a[i], b[i]) {
            if i > 0 { assert a[i] == a[1..][i - 1] && b[i] == b[1..][i - 1]; }
          }
        }
      }
    }
  }

  /** A resolver that keeps its registry because the generation is unchanged keeps exactly what it
      would build now, if and only if no server it had tools from is being re-checked. */
  lemma KeptRegistryIsCurrentExactly(t: Timing, m: Manager, steps: seq<Step>, keys: set<string>)
    requires m.Valid() && keys <= m.states.Keys
    requires m.generation == Run(t, m, steps).generation
    ensures Run(t, m, steps).Valid()
    ensures var later := Run(t, m, steps);
            var kept, current := Servers(m.states, m.order, keys), Servers(later.states, later.order, keys);
            && |kept| == |current|
            && |RegistryOf(later, keys)| <= |RegistryOf(m, keys)|
            && (RegistryOf(m, keys) == RegistryOf(later, keys) <==> forall i :: 0 <= i < |kept| ==> !Withdrawn(kept[i], current[i]))
  {
    SameGenerationSameServers(t, m, steps, keys);
    var later := Run(t, m, steps);
    RegistryShrinks(Servers(m.states, m.order, keys), Servers(later.states, later.order, keys));
  }

  /** The generation does not detect a forced re-check of a connected server: while it is pending,
      a registry built from a snapshot lacks the server's tools at an unchanged generation. */
  lemma ForcedRecheckIsUndetected(t: Timing)
    ensures var config := Config("files", "");
            var m := Take(t, Start, Succeed(config, ["files.read"], "client", "info", 0.0));
            var later := Take(t, m, Begin(config, true, 1.0));
            later.generation == m.generation
            && RegistryOf(m, {"files"}) == [Entry("files.read", "client", config)]
            && RegistryOf(later, {"files"}) == []
  {
    var config := Config("files", "");
    var m := Take(t, Start, Succeed(config, ["files.read"], "client", "info", 0.0));
    var later := Take(t, m, Begin(config, true, 1.0));
    assert m.order == ["files"] && later.order == ["files"];
    var s, s' := m.states["files"], later.states["files"];
    assert Servers(m.states, ["files"], {"files"}) == [s] + Servers(m.states, [], {"files"});
    assert Servers(later.states, ["files"], {"files"}) == [s'] + Servers(later.states, [], {"files"});
    assert Entries(s) == [Entry("files.read", "client", config)];
    assert Registry([s]) == Entries(s) + Registry([]);
    assert Registry([s']) == Entries(s') + Registry([]);
  }

  /** Only connected servers without a scheduled retry exist, so unforced refreshes skip them. */
  predicate Settled(m: Manager) {
    forall k :: k in m.states ==> m.states[k].status == Connected ==> m.states[k].nextRetryAt.None?
  }

  /** No step of the run forces a re-check of a server that is connected when the step is taken. */
  predicate LeavesConnectedAlone(t: Timing, m: Manager, steps: seq<Step>)
    decreases |steps|
  {
    steps != [] ==>
      !(steps[0].Begin? && steps[0].force && steps[0].config.key in m.states
        && m.states[steps[0].config.key].status == Connected)
      && LeavesConnectedAlone(t, Take(t, m, steps[0]), steps[1..])
  }

  lemma QuietStepKeepsServer(t: Timing, m: Manager, step: Step, k: string)
    requires m.Valid() && Settled(m) && k in m.states && LeavesConnectedAlone(t, m, [step])
    requires m.generation == Take(t, m, step).generation
    ensures m.states[k].status == Connected ==> k in Take(t, m, step).states && Take(t, m, step).states[k] == m.states[k]
  {}

  lemma {:induction false} QuietRunWithdrawsNothing(t: Timing, m: Manager, steps: seq<Step>, k: string)
    requires m.Valid() && Settled(m) && k in m.states && LeavesConnectedAlone(t, m, steps)
    requires m.generation == Run(t, m, steps).generation
    ensures k in Run(t, m, steps).states && !Withdrawn(m.states[k], Run(t, m, steps).states[k])
    decreases |steps|
  {
    GenerationDetectsChange(t, m, steps);
    if steps != [] {
      var m' := Take(t, m, steps[0]);
      TakeValid(t, m, steps[0]);
      GenerationDetectsChange(t, m', steps[1..]);
      GenerationDetectsChange(t, m, [steps[0]]);
      assert Run(t, m, [steps[0]]) == m' by { assert [steps[0]][1..] == []; }
      QuietStepKeepsServer(t, m, steps[0], k);
      RunSettled(t, m, [steps[0]]);
      hide Take;
      QuietRunWithdrawsNothing(t, m', steps[1..], k);
    }
  }

  ghost predicate NoneWithdrawn(a: seq<ServerState>, b: seq<ServerState>) {
    |a| == |b| && forall i :: 0 <= i < |a| ==> !Withdrawn(a[i], b[i])
  }

  lemma {:induction false} NoneWithdrawnExactly(m: Manager, later: Manager, keys: set<string>, order: seq<string>)
    requires Unchanged(m, later) && forall k :: k in order ==> k in m.states
    ensures NoneWithdrawn(Servers(m.states, order, keys), Servers(later.states, order, keys))
            <==> forall k :: k in order && k in keys ==> !Withdrawn(m.states[k], later.states[k])
  {
    if order != [] {
      hide Withdrawn, SameServer;
      var k, rest := order[0], order[1..];
      assert k in m.states;
      NoneWithdrawnExactly(m, later, keys, rest);
      ServersUnchanged(m, later, keys, rest);
      var a, b := Servers(m.states, rest, keys), Servers(later.states, rest, keys);
      assert forall j :: j in order <==> j == k || j in rest;
      if k in keys {
        NoneWithdrawnCons(m.states[k], later.states[k], a, b);
        assert Servers(m.states, order, keys) == [m.states[k]] + a && Servers(later.states, order, keys) == [later.states[k]] + b;
      } else {
        assert Servers(m.states, order, keys) == a && Servers(later.states, order, keys) == b;
      }
    }
  }

  lemma NoneWithdrawnCons(s: ServerState, later: ServerState, a: seq<ServerState>, b: seq<ServerState>)
    requires |a| == |b|
    ensures NoneWithdrawn([s] + a, [later] + b) <==> !Withdrawn(s, later) && NoneWithdrawn(a, b)
  {
    hide Withdrawn;
    var x, y := [s] + a, [later] + b;
    if NoneWithdrawn(x, y) {
      assert !Withdrawn(x[0], y[0]);
      forall i | 0 <= i < |a| ensures !Withdrawn(a[i], b[i]) {
        assert !Withdrawn(x[i + 1], y[i + 1]);
      }
    } else {
      var i :| 0 <= i < |x| && Withdrawn(x[i], y[i]);
      if i > 0 { assert Withdrawn(a[i - 1], b[i - 1]); }
    }
  }

  /** Some step of the run forces a re-check of the server. */
  predicate Forces(steps: seq<Step>, k: string) {
    exists i :: 0 <= i < |steps| && steps[i].Begin? && steps[i].force && steps[i].config.key == k
  }

  lemma ForcesFirst(steps: seq<Step>, k: string)
    requires steps != []
    ensures Forces(steps, k) <==> (steps[0].Begin? && steps[0].force && steps[0].config.key == k) || Forces(steps[1..], k)
  {
    if i :| 0 <= i < |steps| && steps[i].Begin? && steps[i].force && steps[i].config.key == k {
      if i > 0 { assert steps[1..][i - 1] == steps[i]; }
    }
    if i :| 0 <= i < |steps[1..]| && steps[1..][i].Begin? && steps[1..][i].force && steps[1..][i].config.key == k {
      assert steps[i + 1] == steps[1..][i];
    }
  }

  /** At an equal generation, a server that served tools is withdrawn exactly when a step forced a
      re-check of it. */
  lemma {:induction false} WithdrawnExactly(t: Timing, m: Manager, steps: seq<Step>, k: string)
    requires m.Valid() && Settled(m) && k in m.states && m.generation == Run(t, m, steps).generation
    ensures k in Run(t, m, steps).states
    ensures Withdrawn(m.states[k], Run(t, m, steps).states[k]) <==> Entries(m.states[k]) != [] && Forces(steps, k)
    decreases |steps|
  {
    hide Take, Settled, Forces, Unchanged, SameServer, Manager.Valid;
    GenerationDetectsChange(t, m, steps);
    StaysUnchanged(m, Run(t, m, steps), k);
    if steps == [] {
      assert !Forces(steps, k) by { NothingForced(k); }
    } else if Entries(m.states[k]) != [] {
      var next := Take(t, m, steps[0]);
      TakeValid(t, m, steps[0]);
      StepDetectsChange(t, m, steps[0]);
      GenerationDetectsChange(t, next, steps[1..]);
      ForcesFirst(steps, k);
      BeginOnServer(t, m, steps[0], k);
      StepSettled(t, m, steps[0]);
      if next.states[k] == m.states[k] {
        WithdrawnExactly(t, next, steps[1..], k);
      } else {
        StaysUnchanged(next, Run(t, next, steps[1..]), k);
      }
    }
  }

  lemma NothingForced(k: string)
    ensures !Forces([], k)
  {
  }

  lemma StepSettled(t: Timing, m: Manager, step: Step)
    requires Settled(m)
    ensures Settled(Take(t, m, step))
  {
  }

  lemma StaysUnchanged(m: Manager, later: Manager, k: string)
    requires Unchanged(m, later) && k in m.states
    ensures k in later.states && (later.states[k].status == m.states[k].status || later.states[k].status == Retrying)
  {
  }

  lemma BeginOnServer(t: Timing, m: Manager, step: Step, k: string)
    requires m.Valid() && Settled(m) && k in m.states && m.states[k].status == Connected
    requires m.generation == Take(t, m, step).generation
    ensures var later := Take(t, m, step);
            k in later.states
            && if step.Begin? && step.force && step.config.key == k then later.states[k].status == Retrying
               else later.states[k] == m.states[k]
  {
  }

  /** A resolver that keeps its registry because the generation is unchanged keeps exactly what it
      would build now, if and only if no step forced a re-check of a server it has tools from. */
  lemma ForcedRecheckHidesToolsExactly(t: Timing, m: Manager, steps: seq<Step>, keys: set<string>)
    requires m.Valid() && Settled(m) && keys <= m.states.Keys && m.generation == Run(t, m, steps).generation
    ensures Run(t, m, steps).Valid()
    ensures RegistryOf(m, keys) == RegistryOf(Run(t, m, steps), keys)
            <==> forall k :: k in keys && Entries(m.states[k]) != [] ==> !Forces(steps, k)
  {
    var later := Run(t, m, steps);
    KeptRegistryIsCurrentExactly(t, m, steps, keys);
    GenerationDetectsChange(t, m, steps);
    AddedServersIgnored(m, later, keys);
    NoneWithdrawnExactly(m, later, keys, m.order);
    forall k | k in keys
      ensures k in later.states && (Withdrawn(m.states[k], later.states[k]) <==> Entries(m.states[k]) != [] && Forces(steps, k))
    {
      WithdrawnExactly(t, m, steps, k);
    }
    hide Run, Withdrawn, Forces, RegistryOf, Unchanged, Servers;
  }

  lemma NothingWithdrawnSameRegistry(m: Manager, later: Manager, keys: set<string>)
    requires m.Valid() && later.Valid() && Unchanged(m, later) && keys <= m.states.Keys
    requires forall k :: k in m.states ==> !Withdrawn(m.states[k], later.states[k])
    ensures RegistryOf(m, keys) == RegistryOf(later, keys)
  {
    hide Withdrawn;
    AddedServersIgnored(m, later, keys);
    ServersUnchanged(m, later, keys, m.order);
    NoneWithdrawnExactly(m, later, keys, m.order);
    RegistryShrinks(Servers(m.states, m.order, keys), Servers(later.states, later.order, keys));
  }

  /** When connected servers are left alone, an unchanged generation means an unchanged registry. */
  lemma QuietRegistry(t: Timing, m: Manager, steps: seq<Step>, keys: set<string>)
    requires m.Valid() && keys <= m.states.Keys && Settled(m) && LeavesConnectedAlone(t, m, steps)
    requires m.generation == Run(t, m, steps).generation
    ensures Run(t, m, steps).Valid()
    ensures RegistryOf(m, keys) == RegistryOf(Run(t, m, steps), keys)
  {
    hide Take, Withdrawn, RegistryOf;
    GenerationDetectsChange(t, m, steps);
    forall k | k in m.states ensures !Withdrawn(m.states[k], Run(t, m, steps).states[k]) {
      QuietRunWithdrawsNothing(t, m, steps, k);
    }
    NothingWithdrawnSameRegistry(m, Run(t, m, steps), keys);
  }

  lemma {:induction false} RunSettled(t: Timing, m: Manager, steps: seq<Step>)
    requires Settled(m)
    ensures Settled(Run(t, m, steps))
    decreases |steps|
  {
    if steps != [] { RunSettled(t, Take(t, m, steps[0]), steps[1..]); }
  }

  // ----- Retry delays -----

  function Power2(n: nat): real {
    if n == 0 then 1.0 else 2.0 * Power2(n - 1)
  }

  /** How many times the server has failed since it last connected. */
  function Failures(steps: seq<Step>, k: string): nat {
    if steps == [] then 0
    else
      var last, earlier := steps[|steps| - 1], Failures(steps[..|steps| - 1], k);
      if last.config.key != k || last.Begin? then earlier
      else if last.Succeed? then 0
      else earlier + 1
  }

  function ClosedDelay(t: Timing, failures: nat): real
    requires failures >= 1
  {
    Min(t.initial * Power2(failures - 1), t.max)
  }

  lemma {:induction false} RunAppend(t: Timing, m: Manager, steps: seq<Step>, step: Step)
    ensures Run(t, m, steps + [step]) == Take(t, Run(t, m, steps), step)
    decreases |steps|
  {
    if steps == [] {
      assert steps + [step] == [step] && [step][1..] == [];
    } else {
      assert (steps + [step])[1..] == steps[1..] + [step];
      RunAppend(t, Take(t, m, steps[0]), steps[1..], step);
    }
  }

  lemma DoubleClosedDelay(t: Timing, failures: nat)
    requires failures >= 1 && (0.0 <= t.max || t.initial <= t.max)
    ensures NextDelay(t, Some(ClosedDelay(t, failures))) == ClosedDelay(t, failures + 1)
  {
    var power := Power2(failures - 1);
    Power2AtLeastOne(failures - 1);
    if t.max < 0.0 { NegativeScaled(t.initial, power); }
    assert t.initial * Power2(failures) == 2.0 * (t.initial * power) by {
      assert Power2(failures) == 2.0 * power;
      Doubled(t.initial, power);
    }
  }

  lemma Doubled(x: real, y: real)
    ensures x * (2.0 * y) == 2.0 * (x * y)
  {}

  lemma {:induction false} Power2AtLeastOne(n: nat)
    ensures Power2(n) >= 1.0
  {
    if n > 0 { Power2AtLeastOne(n - 1); }
  }

  /** In every run, whatever the interleaving, the stored delay of a server that has failed n times
      since it last connected is the initial delay doubled n-1 times, capped at the maximum. */
  lemma {:induction false} DelayAfterFailures(t: Timing, steps: seq<Step>, k: string)
    requires 0.0 <= t.max || t.initial <= t.max
    ensures var m, n := Run(t, Start, steps), Failures(steps, k);
            (k in m.delays <==> n >= 1) && (n >= 1 ==> m.delays[k] == ClosedDelay(t, n))
  {
    if steps != [] {
      var earlier, step := steps[..|steps| - 1], steps[|steps| - 1];
      assert steps == earlier + [step];
      DelayAfterFailures(t, earlier, k);
      RunAppend(t, Start, earlier, step);
      var n := Failures(earlier, k);
      if n >= 1 { DoubleClosedDelay(t, n); }
      assert NextDelay(t, None) == ClosedDelay(t, 1) by {
        assert t.initial / 2.0 * 2.0 == t.initial && Power2(0) == 1.0;
      }
    }
  }

  lemma NegativeScaled(x: real, factor: real)
    requires x < 0.0 && factor >= 1.0
    ensures x * factor <= x
  {}

  /** The condition is needed: below it already the second delay departs from the closed form. */
  lemma ClosedDelayNeedsCap(t: Timing)
    requires !(0.0 <= t.max || t.initial <= t.max)
    ensures NextDelay(t, Some(ClosedDelay(t, 1))) != ClosedDelay(t, 2)
  {
    assert Power2(0) == 1.0 && Power2(1) == 2.0;
  }

  // ----- What is shown of a server -----

  /** After an answer the server is connected with the tools of that answer, after an error it is
      unavailable and has none; a pending refresh keeps what was known. The manager's other servers
      stay as they are. */
  lemma ShownAfter(t: Timing, m: Manager, step: Step, other: string)
    ensures var k, after := step.config.key, Take(t, m, step);
            (step.Succeed? ==>
               k in after.states && after.states[k].status == Connected && after.states[k].config == step.config
               && after.states[k].tools == step.tools && after.states[k].client == Some(step.client)
               && after.states[k].info == Some(step.info) && after.states[k].lastError == None && after.states[k].nextRetryAt == None
               && after.states[k].lastCheckedAt == Some(step.started) && k !in after.delays
               && |Entries(after.states[k])| == |step.tools|
               && forall i :: 0 <= i < |step.tools| ==> Entries(after.states[k])[i] == Entry(step.tools[i], step.client, step.config))
            && (step.Fail? ==>
                  k in after.states && after.states[k].status == Unavailable && after.states[k].config == step.config
                  && after.states[k].tools == [] && after.states[k].client == None && after.states[k].info == None
                  && after.states[k].lastError == Some(step.error) && after.states[k].lastCheckedAt == Some(step.started)
                  && Entries(after.states[k]) == [])
            && (step.Begin? && k in m.states ==> k in after.states && SameServer(m.states[k], after.states[k]))
            && (step.Begin? && k !in m.states ==>
                  k in after.states && after.states[k].status == Retrying && after.states[k].config == step.config
                  && after.states[k].lastError == None && after.states[k].lastCheckedAt == None && after.states[k].nextRetryAt == None
                  && after.states[k].generation == 0 && Entries(after.states[k]) == [])
            && (other != k ==> (other in after.states <==> other in m.states)
                               && (other in m.states ==> after.states[other] == m.states[other]))
  {
    hide NextDelay, Jittered;
  }

  /** The answers and errors that came in, of one server or of all. */
  function Outcomes(steps: seq<Step>, k: Option<string>): nat {
    if steps == [] then 0
    else
      var last := steps[|steps| - 1];
      Outcomes(steps[..|steps| - 1], k) + if !last.Begin? && (k.None? || k.value == last.config.key) then 1 else 0
  }

  /** The generations count them: the server's its own, the manager's all. */
  lemma {:induction false} GenerationsCount(t: Timing, steps: seq<Step>, k: string)
    ensures var m := Run(t, Start, steps);
            m.generation == Outcomes(steps, None)
            && (if k in m.states then m.states[k].generation else 0) == Outcomes(steps, Some(k))
  {
    if steps != [] {
      var earlier, step := steps[..|steps| - 1], steps[|steps| - 1];
      assert steps == earlier + [step];
      GenerationsCount(t, earlier, k);
      RunAppend(t, Start, earlier, step);
      hide Due, NextDelay, Jittered, Run;
    }
  }

  // ----- When a server is contacted -----

  /** No answer or error of the server comes in; refreshes of it may begin. */
  predicate Silent(steps: seq<Step>, k: string) {
    forall s :: s in steps && s.config.key == k ==> s.Begin?
  }

  lemma {:induction false} SilenceKeepsRetry(t: Timing, m: Manager, steps: seq<Step>, k: string)
    requires k in m.states && Silent(steps, k)
    ensures var later := Run(t, m, steps);
            k in later.states && later.states[k].nextRetryAt == m.states[k].nextRetryAt
            && (later.states[k].status == m.states[k].status || later.states[k].status == Retrying)
    decreases |steps|
  {
    if steps != [] {
      assert steps[0] in steps;
      SilenceKeepsRetry(t, Take(t, m, steps[0]), steps[1..], k);
    }
  }

  /** The jittered delay after the time of the failure. */
  function RetryTime(failedAt: real, delay: real, jitter: real): real {
    failedAt + delay * jitter
  }

  /** After a failure a refresh that is not forced contacts the server exactly from its retry time on,
      however often it was refreshed in vain in between. */
  lemma ContactedAfterFailure(t: Timing, m: Manager, fail: Step, steps: seq<Step>, config: Config, now: real)
    requires fail.Fail? && config.key == fail.config.key && Silent(steps, config.key)
    ensures var failed := Take(t, m, fail);
            config.key in failed.delays
            && (Due(Run(t, failed, steps), config, false, now)
                <==> RetryTime(fail.now, failed.delays[config.key], fail.jitter) <= now)
  {
    SilenceKeepsRetry(t, Take(t, m, fail), steps, config.key);
    hide Run, NextDelay, NextGeneration;
  }

  /** In every run from the start that time is the time of the failure plus the jittered initial
      delay, doubled with every failure since the server last connected, up to the maximum. */
  lemma RetryTimeInRuns(t: Timing, earlier: seq<Step>, fail: Step, steps: seq<Step>, config: Config, now: real)
    requires 0.0 <= t.max || t.initial <= t.max
    requires fail.Fail? && config.key == fail.config.key && Silent(steps, config.key)
    ensures var failures := Failures(earlier, config.key) + 1;
            Due(Run(t, Start, earlier + [fail] + steps), config, false, now)
            <==> RetryTime(fail.now, ClosedDelay(t, failures), fail.jitter) <= now
  {
    hide Run, Take, Due, ClosedDelay, Failures, Silent, RetryTime;
    var failed := Take(t, Run(t, Start, earlier), fail);
    assert Run(t, Start, earlier + [fail] + steps) == Run(t, failed, steps) by {
      RunAppend(t, Start, earlier, fail);
      RunConcat(t, Start, earlier + [fail], steps);
    }
    assert config.key in failed.delays && failed.delays[config.key] == ClosedDelay(t, Failures(earlier, config.key) + 1) by {
      RunAppend(t, Start, earlier, fail);
      FailureCounts(earlier, fail);
      DelayAfterFailures(t, earlier + [fail], config.key);
    }
    ContactedAfterFailure(t, Run(t, Start, earlier), fail, steps, config, now);
  }

  lemma FailureCounts(earlier: seq<Step>, fail: Step)
    requires fail.Fail?
    ensures Failures(earlier + [fail], fail.config.key) == Failures(earlier, fail.config.key) + 1
  {
    assert (earlier + [fail])[..|earlier|] == earlier;
  }

  lemma {:induction false} RunConcat(t: Timing, m: Manager, a: seq<Step>, b: seq<Step>)
    ensures Run(t, m, a + b) == Run(t, Run(t, m, a), b)
    decreases |a|
  {
    if a == [] {
      assert a + b == b;
    } else {
      assert (a + b)[1..] == a[1..] + b;
      RunConcat(t, Take(t, m, a[0]), a[1..], b);
    }
  }

  /** A connected server is left alone until a refresh is forced; a forced refresh and a server not
      seen before are always contacted. */
  lemma {:induction false} ConnectedIsLeftAlone(t: Timing, m: Manager, steps: seq<Step>, config: Config, now: real)
    requires config.key in m.states && m.states[config.key].status == Connected && m.states[config.key].nextRetryAt == None
    requires Silent(steps, config.key) && forall s :: s in steps && s.config.key == config.key && s.Begin? ==> !s.force
    ensures !Due(Run(t, m, steps), config, false, now) && Due(Run(t, m, steps), config, true, now)
    ensures Run(t, m, steps).states[config.key] == m.states[config.key]
    decreases |steps|
  {
    if steps != [] {
      assert steps[0] in steps;
      ConnectedIsLeftAlone(t, Take(t, m, steps[0]), steps[1..], config, now);
    }
  }

  // ----- The class -----

  class MCPServerManager {
    const timing: Timing
    var states: map<string, ServerState>
    var order: seq<string>
    var delays: map<string, real>
    var generation: nat

    ghost function Contents(): Manager
      reads this
    {
      Manager(states, order, delays, generation)
    }

    ghost predicate Valid()
      reads this
    {
      Contents().Valid()
    }

    constructor (initialRetrySeconds: real, maxRetrySeconds: real)
      ensures Valid() && Contents() == Start && timing == Timing(initialRetrySeconds, maxRetrySeconds)
    {
      timing := Timing(initialRetrySeconds, maxRetrySeconds);
      states, order, delays, generation := map[], [], map[], 0;
    }

    method Store(k: string, s: ServerState)
      requires Valid()
      modifies this`states, this`order
      ensures Valid() && Contents() == old(Contents()).Put(k, s)
    {
      if k !in states {
        order := order + [k];
      }
      states := states[k := s];
    }

    /** The first half of `refresh` for one server: up to the call that awaits the server. */
    method BeginRefresh(config: Config, force: bool, now: real) returns (proceed: bool)
      requires Valid()
      modifies this
      ensures Valid()
      ensures proceed == Due(old(Contents()), config, force, now)
      ensures Contents() == Take(timing, old(Contents()), Begin(config, force, now))
    {
      var k := config.key;
      if k in states && !force && states[k].nextRetryAt.Some? {
        if states[k].nextRetryAt.value > now {
          return false;
        }
      } else if k in states && !force && states[k].status == Connected {
        return false;
      }
      Store(k, Pending(config, if k in states then Some(states[k]) else None));
      proceed := true;
    }

    /** The server answered. */
    method FinishConnected(config: Config, tools: seq<string>, client: string, info: string, started: real)
      requires Valid()
      modifies this
      ensures Valid() && Contents() == Take(timing, old(Contents()), Succeed(config, tools, client, info, started))
    {
      var k := config.key;
      var previousGeneration := if k in states then states[k].generation else 0;
      generation := generation + 1;
      delays := delays - {k};
      Store(k, ServerState(config, Connected, tools, Some(client), Some(info), None, Some(started), None, previousGeneration + 1));
    }

    method NextRetryDelay(k: string, jitter: real) returns (delay: real)
      requires Valid()
      modifies this`delays
      ensures Valid()
      ensures var unjittered := NextDelay(timing, if k in old(delays) then Some(old(delays)[k]) else None);
              delays == old(delays)[k := unjittered] && delay == Jittered(unjittered, jitter)
    {
      var previous := if k in delays then delays[k] else timing.initial / 2.0;
      var unjittered := Min(previous * 2.0, timing.max);
      delays := delays[k := unjittered];
      delay := Jittered(unjittered, jitter);
    }

    /** Contacting the server raised an error. */
    method FinishUnavailable(config: Config, error: string, started: real, now: real, jitter: real)
      requires Valid()
      modifies this
      ensures Valid() && Contents() == Take(timing, old(Contents()), Fail(config, error, started, now, jitter))
    {
      var k := config.key;
      var delay := NextRetryDelay(k, jitter);
      var previousGeneration := if k in states then states[k].generation else 0;
      generation := generation + 1;
      Store(k, ServerState(config, Unavailable, [], None, None, Some(error), Some(started), Some(now + delay), previousGeneration + 1));
    }

    /** The locked part of `snapshot`: the wanted servers in dictionary order, with the generation. */
    method Snapshot(keys: set<string>) returns (servers: seq<ServerState>, at: nat)
      requires Valid()
      ensures servers == Servers(states, order, keys) && at == generation
    {
      hide Servers;
      servers, at := [], generation;
      var i := 0;
      assert order[0..] == order && order[|order|..] == [];
      ServersOfNothing(states, keys);
      while i < |order|
        invariant 0 <= i <= |order|
        invariant Servers(states, order, keys) == servers + Servers(states, order[i..], keys)
      {
        ServersFrom(states, order, i, keys);
        if order[i] in keys {
          servers := servers + [states[order[i]]];
        }
        i := i + 1;
      }
    }
  }
}
