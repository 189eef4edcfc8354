/** The store-backed execution resolver: a cache of tenant contexts keyed by the effective
    configuration key and its version, over a store that others write between its reads. */
module ExecutionResolver {
  import opened Wrappers
  import opened ConfigStore
  import Mcp = McpManager

  const DEFAULT_TENANT: string := "*"

  /** The tool registry of a context, with the manager generation it was built at. */
  datatype Registry = Registry(entries: seq<Mcp.Entry>, generation: nat)

  datatype Context = Context(payload: Payload, registry: Registry)
  datatype ConfigState = ConfigState(key: string, version: nat)
  datatype Outcome = Resolved(context: Context) | Fallback | Refused

  datatype Cache = Cache(contexts: map<string, Context>, states: map<string, ConfigState>) {
    function Without(tenant: string): Cache {
      Cache(contexts - {tenant}, states - {tenant})
    }

    predicate Holds(tenant: string, state: Option<ConfigState>) {
      tenant in contexts && (if tenant in states then Some(states[tenant]) else None) == state
    }
  }

  const EmptyCache: Cache := Cache(map[], map[])

  /** What surrounds one call: which payloads pass policy and parsing, which MCP servers a payload
      names, and the manager at the call's snapshot of it. */
  datatype Deployment = Deployment(
    admits: (string, Payload) -> bool, servers: Payload -> set<string>, manager: Mcp.Manager)
  {
    ghost predicate Valid() {
      manager.Valid()
    }

    function Build(p: Payload): Registry
      requires forall k :: k in manager.order ==> k in manager.states
    {
      Registry(Mcp.RegistryOf(manager, servers(p)), manager.generation)
    }
  }

  /** The writes other parties make just before the n-th read of a call. */
  type Interference = nat -> seq<Write>

  // ----- One call as a function -----

  /** `_effective_config_state`: the tenant's own row first, then the default row. */
  function EffectiveState(first: Db, second: Db, tenant: string): Option<ConfigState> {
    if first.Version(tenant).Some? then Some(ConfigState(tenant, first.Version(tenant).value))
    else if tenant != DEFAULT_TENANT && second.Version(DEFAULT_TENANT).Some?
    then Some(ConfigState(DEFAULT_TENANT, second.Version(DEFAULT_TENANT).value))
    else None
  }

  function SecondRead(first: Db, tenant: string, others: seq<Write>): Db {
    if first.Version(tenant).None? && tenant != DEFAULT_TENANT then Run(first, others) else first
  }

  function Refreshed(d: Deployment, context: Context): Context
    requires d.Valid()
  {
    if d.servers(context.payload) == {} || d.Build(context.payload).generation == context.registry.generation then context
    else context.(registry := d.Build(context.payload))
  }

  /** One pass of the retry loop; no outcome when the payload vanished between the reads. */
  function Pass(c: Cache, tenant: string, d: Deployment, first: Db, second: Db, third: Db): (Cache, Option<Outcome>)
    requires d.Valid()
  {
    var state := EffectiveState(first, second, tenant);
    if c.Holds(tenant, state) then
      var context := Refreshed(d, c.contexts[tenant]);
      (c.(contexts := c.contexts[tenant := context]), Some(Resolved(context)))
    else if state.None? then (c.Without(tenant), Some(Fallback))
    else
      match third.Payload(state.value.key)
      case None => (c.Without(tenant), None)
      case Some(p) =>
        if !d.admits(tenant, p) then (c.Without(tenant), Some(Refused))
        else
          var context := Context(p, d.Build(p));
          (Cache(c.contexts[tenant := context], c.states[tenant := state.value]), Some(Resolved(context)))
  }

  function ReadsPayload(c: Cache, tenant: string, first: Db, second: Db): bool {
    var state := EffectiveState(first, second, tenant);
    !c.Holds(tenant, state) && state.Some?
  }

  /** The three database states one pass reads, starting from `db`. */
  function Views(c: Cache, db: Db, tenant: string, others: Interference, pass: nat): (Db, Db, Db) {
    var first := Run(db, others(3 * pass));
    var second := SecondRead(first, tenant, others(3 * pass + 1));
    (first, second, if ReadsPayload(c, tenant, first, second) then Run(second, others(3 * pass + 2)) else second)
  }

  /** `resolve`: at most two passes. */
  function Resolve(c: Cache, db: Db, tenant: string, d: Deployment, others: Interference, pass: nat := 0): (Cache, Db, Outcome)
    requires d.Valid() && pass <= 2
    decreases 2 - pass
  {
    if pass == 2 then (c, db, Fallback)
    else
      var (first, second, third) := Views(c, db, tenant, others, pass);
      var (c', outcome) := Pass(c, tenant, d, first, second, third);
      if outcome.Some? then (c', third, outcome.value) else Resolve(c', third, tenant, d, others, pass + 1)
  }

  /** A configuration that vanishes between the reads of the first pass is looked for once more; when
      it vanishes again the call falls back. */
  lemma TwoPasses(c: Cache, db: Db, tenant: string, d: Deployment, others: Interference)
    requires d.Valid()
    ensures var (first, second, third) := Views(c, db, tenant, others, 0);
            var (c1, once) := Pass(c, tenant, d, first, second, third);
            var (first', second', third') := Views(c1, third, tenant, others, 1);
            var (c2, twice) := Pass(c1, tenant, d, first', second', third');
            Resolve(c, db, tenant, d, others)
            == if once.Some? then (c1, third, once.value)
               else (c2, third', if twice.Some? then twice.value else Fallback)
  {
    hide Pass, Views;
  }

  // ----- Freshness of the cache on delete-free histories -----

  /** Each cached context was built from the row its state names, at that version or a later one;
      while the version still stands, from the very payload that is stored. */
  ghost predicate EntryFresh(c: Cache, db: Db, tenant: string) {
    tenant in c.contexts ==>
      tenant in c.states
      && var state := c.states[tenant];
         state.key in {tenant, DEFAULT_TENANT} && state.key in db.rows && state.version <= db.rows[state.key].version
         && (state.version == db.rows[state.key].version ==> c.contexts[tenant].payload == db.rows[state.key].payload)
  }

  ghost predicate Fresh(c: Cache, db: Db) {
    forall tenant :: EntryFresh(c, db, tenant)
  }

  predicate DeleteFree(ws: seq<Write>) {
    forall w :: w in ws ==> !w.Delete?
  }

  ghost predicate QuietlyDeleteFree(others: Interference) {
    forall n :: DeleteFree(others(n))
  }

  lemma FreshUnderWrites(c: Cache, db: Db, ws: seq<Write>)
    requires Fresh(c, db) && DeleteFree(ws)
    ensures Fresh(c, Run(db, ws))
  {
    forall tenant ensures EntryFresh(c, Run(db, ws), tenant) {
      assert EntryFresh(c, db, tenant);
      if tenant in c.contexts { RunIsLater(db, ws, c.states[tenant].key); }
    }
  }

  lemma FreshViews(c: Cache, db: Db, tenant: string, others: Interference, pass: nat)
    requires Fresh(c, db) && QuietlyDeleteFree(others)
    ensures var (first, second, third) := Views(c, db, tenant, others, pass);
            Fresh(c, first) && Fresh(c, second) && Fresh(c, third)
            && (forall t :: Later(first, second, t) && Later(second, third, t))
  {
    hide Fresh;
    var (first, second, third) := Views(c, db, tenant, others, pass);
    assert DeleteFree(others(3 * pass)) && DeleteFree(others(3 * pass + 1)) && DeleteFree(others(3 * pass + 2));
    FreshUnderWrites(c, db, others(3 * pass));
    FreshUnderWrites(c, first, others(3 * pass + 1));
    FreshUnderWrites(c, second, others(3 * pass + 2));
    forall t ensures Later(first, second, t) && Later(second, third, t) {
      RunIsLater(first, others(3 * pass + 1), t);
      RunIsLater(second, others(3 * pass + 2), t);
    }
  }

  lemma AttemptKeepsFresh(c: Cache, tenant: string, d: Deployment, first: Db, second: Db, third: Db)
    requires d.Valid() && Fresh(c, third)
    requires forall t :: Later(first, second, t) && Later(second, third, t)
    ensures Fresh(Pass(c, tenant, d, first, second, third).0, third)
  {
    hide Deployment.Build, Refreshed;
    var c' := Pass(c, tenant, d, first, second, third).0;
    assert Later(first, second, tenant) && Later(second, third, tenant) && Later(second, third, DEFAULT_TENANT);
    RefreshedPayload(d, c, tenant);
    forall t ensures EntryFresh(c', third, t) {
      assert EntryFresh(c, third, t);
    }
  }

  lemma RefreshedPayload(d: Deployment, c: Cache, tenant: string)
    requires d.Valid()
    ensures tenant in c.contexts ==> Refreshed(d, c.contexts[tenant]).payload == c.contexts[tenant].payload
  {}

  /** Resolving keeps the cache fresh, whatever is written between its reads. */
  lemma ResolveKeepsFresh(c: Cache, db: Db, tenant: string, d: Deployment, others: Interference, pass: nat)
    requires d.Valid() && pass <= 2 && Fresh(c, db) && QuietlyDeleteFree(others)
    ensures var (c', db', _) := Resolve(c, db, tenant, d, others, pass);
            Fresh(c', db')
    decreases 2 - pass
  {
    hide Fresh, QuietlyDeleteFree;
    if pass < 2 {
      FreshViews(c, db, tenant, others, pass);
      var (first, second, third) := Views(c, db, tenant, others, pass);
      AttemptKeepsFresh(c, tenant, d, first, second, third);
      hide Views, Pass;
      ResolveKeepsFresh(Pass(c, tenant, d, first, second, third).0, third, tenant, d, others, pass + 1);
    }
  }

  /** A cache hit is built from the payload that is stored at its version check. */
  lemma HitIsCurrent(c: Cache, tenant: string, d: Deployment, first: Db, second: Db, third: Db)
    requires d.Valid() && Fresh(c, first) && Fresh(c, second)
    requires EffectiveState(first, second, tenant).Some? && c.Holds(tenant, EffectiveState(first, second, tenant))
    ensures var outcome := Pass(c, tenant, d, first, second, third).1;
            outcome.Some? && outcome.value.Resolved?
            && var p := outcome.value.context.payload;
               if first.Version(tenant).Some? then first.Payload(tenant) == Some(p)
               else second.Payload(DEFAULT_TENANT) == Some(p)
  {
    RefreshedPayload(d, c, tenant);
    hide Refreshed;
    assert EntryFresh(c, first, tenant) && EntryFresh(c, second, tenant);
  }

  /** The configuration in force for a tenant: its own row first, then the default row. */
  function EffectivePayload(db: Db, tenant: string): Option<Payload> {
    if tenant in db.rows then Some(db.rows[tenant].payload)
    else if DEFAULT_TENANT in db.rows then Some(db.rows[DEFAULT_TENANT].payload)
    else None
  }

  function Nobody(): Interference {
    n => []
  }

  /** A call during which nobody writes falls back exactly when no configuration is in force, and
      any context it returns is built from the configuration in force. */
  lemma QuietCallIsEffective(c: Cache, db: Db, tenant: string, d: Deployment)
    requires d.Valid() && Fresh(c, db)
    ensures var (_, db', outcome) := Resolve(c, db, tenant, d, Nobody());
            db' == db
            && (outcome.Fallback? <==> EffectivePayload(db, tenant).None?)
            && (outcome.Resolved? ==> EffectivePayload(db, tenant) == Some(outcome.context.payload))
            && (EffectivePayload(db, tenant).Some? && d.admits(tenant, EffectivePayload(db, tenant).value) ==> outcome.Resolved?)
  {
    var (first, second, third) := Views(c, db, tenant, Nobody(), 0);
    assert first == db && second == db && third == db;
    RefreshedPayload(d, c, tenant);
    hide Refreshed, Deployment.Build;
    assert EntryFresh(c, db, tenant);
  }

  // ----- Whole runs -----

  datatype Event =
    | Call(tenant: string, deployment: Deployment, others: Interference)
    | Writes(ws: seq<Write>)
    | Invalidate(tenant: string)

  /** Nothing is deleted. */
  ghost predicate Lawful(e: Event) {
    match e
    case Call(_, _, others) => QuietlyDeleteFree(others)
    case Writes(ws) => DeleteFree(ws)
    case Invalidate(_) => true
  }

  function After(c: Cache, db: Db, e: Event): (Cache, Db)
    requires e.Call? ==> e.deployment.Valid()
  {
    match e
    case Call(tenant, d, others) => var (c', db', _) := Resolve(c, db, tenant, d, others); (c', db')
    case Writes(ws) => (c, Run(db, ws))
    case Invalidate(tenant) => (c.Without(tenant), db)
  }

  ghost predicate Callable(e: Event) {
    e.Call? ==> e.deployment.Valid()
  }

  ghost function AfterAll(c: Cache, db: Db, events: seq<Event>): (Cache, Db)
    requires forall e :: e in events ==> Callable(e)
    decreases |events|
  {
    if events == [] then (c, db)
    else
      assert Callable(events[0]);
      var (c', db') := After(c, db, events[0]);
      AfterAll(c', db', events[1..])
  }

  lemma {:induction false} RunsStayFresh(c: Cache, db: Db, events: seq<Event>)
    requires Fresh(c, db) && forall e :: e in events ==> Callable(e) && Lawful(e)
    ensures var (c', db') := AfterAll(c, db, events); Fresh(c', db')
    decreases |events|
  {
    hide Fresh, Resolve;
    if events != [] {
      var e := events[0];
      assert Callable(e) && Lawful(e);
      match e {
        case Call(tenant, d, others) => ResolveKeepsFresh(c, db, tenant, d, others, 0);
        case Writes(ws) => FreshUnderWrites(c, db, ws);
        case Invalidate(tenant) => FreshWithout(c, db, tenant);
      }
      RunsStayFresh(After(c, db, e).0, After(c, db, e).1, events[1..]);
    }
  }

  lemma FreshWithout(c: Cache, db: Db, tenant: string)
    requires Fresh(c, db)
    ensures Fresh(c.Without(tenant), db)
  {
    forall t ensures EntryFresh(c.Without(tenant), db, t) { assert EntryFresh(c, db, t); }
  }

  /** After any delete-free history of concurrent calls, writes and invalidations, a quiet call
      falls back exactly when no configuration is in force; any context it returns is built from the
      configuration in force, and it returns one if that configuration is admitted. */
  lemma EveryRunResolvesEffective(events: seq<Event>, tenant: string, d: Deployment)
    requires d.Valid() && forall e :: e in events ==> Callable(e) && Lawful(e)
    ensures var (c, db) := AfterAll(EmptyCache, EmptyDb, events);
            var outcome, payload := Resolve(c, db, tenant, d, Nobody()).2, EffectivePayload(db, tenant);
            (outcome.Fallback? <==> payload.None?)
            && (outcome.Resolved? ==> payload == Some(outcome.context.payload))
            && (payload.Some? && d.admits(tenant, payload.value) ==> outcome.Resolved?)
  {
    assert Fresh(EmptyCache, EmptyDb);
    RunsStayFresh(EmptyCache, EmptyDb, events);
    var (c, db) := AfterAll(EmptyCache, EmptyDb, events);
    QuietCallIsEffective(c, db, tenant, d);
  }

  /** After any such history, a call that others write into and that hits the cache returns a
      context built from the payload that is stored at its version check. */
  lemma EveryHitIsCurrent(events: seq<Event>, tenant: string, d: Deployment, others: Interference)
    requires d.Valid() && QuietlyDeleteFree(others) && forall e :: e in events ==> Callable(e) && Lawful(e)
    ensures var (c, db) := AfterAll(EmptyCache, EmptyDb, events);
            var (first, second, _) := Views(c, db, tenant, others, 0);
            var state, outcome := EffectiveState(first, second, tenant), Resolve(c, db, tenant, d, others).2;
            state.Some? && c.Holds(tenant, state) ==>
              outcome.Resolved?
              && Some(outcome.context.payload)
                 == if first.Version(tenant).Some? then first.Payload(tenant) else second.Payload(DEFAULT_TENANT)
  {
    assert Fresh(EmptyCache, EmptyDb);
    RunsStayFresh(EmptyCache, EmptyDb, events);
    var (c, db) := AfterAll(EmptyCache, EmptyDb, events);
    FreshViews(c, db, tenant, others, 0);
    var (first, second, third) := Views(c, db, tenant, others, 0);
    var state := EffectiveState(first, second, tenant);
    hide Views, Fresh, AfterAll;
    if state.Some? && c.Holds(tenant, state) {
      HitIsCurrent(c, tenant, d, first, second, third);
      hide Pass;
    }
  }

  // ----- Admission -----

  /** A quiet call that does not hold a context of the state in force is refused exactly when a
      payload is in force that is not admitted, and answers with a context built from it exactly when
      one is in force that is; a refusal leaves nothing cached. */
  lemma ColdCallAnswersExactly(c: Cache, db: Db, tenant: string, d: Deployment)
    requires d.Valid() && !c.Holds(tenant, EffectiveState(db, db, tenant))
    ensures var (c', _, outcome) := Resolve(c, db, tenant, d, Nobody());
            var payload := EffectivePayload(db, tenant);
            (outcome == Refused <==> payload.Some? && !d.admits(tenant, payload.value))
            && (outcome.Resolved? <==> payload.Some? && d.admits(tenant, payload.value))
            && (outcome.Resolved? ==>
                  outcome.context.payload == payload.value
                  && outcome.context.registry.entries == Mcp.RegistryOf(d.manager, d.servers(payload.value)))
            && (!outcome.Resolved? ==> tenant !in c'.contexts && tenant !in c'.states)
  {
    QuietViews(c, db, tenant, 0);
    EffectiveStateNamesPayload(db, tenant);
    hide Views, EffectivePayload, EffectiveState, Mcp.RegistryOf;
  }

  /** The policy and parsing that admit payloads stay the same. */
  ghost predicate Admits(e: Event, admits: (string, Payload) -> bool) {
    e.Call? ==> forall t, p :: e.deployment.admits(t, p) == admits(t, p)
  }

  predicate AllAdmitted(c: Cache, admits: (string, Payload) -> bool) {
    forall t :: t in c.contexts ==> admits(t, c.contexts[t].payload)
  }

  lemma PassAdmits(c: Cache, tenant: string, d: Deployment, first: Db, second: Db, third: Db)
    requires d.Valid() && AllAdmitted(c, d.admits)
    ensures var (c', outcome) := Pass(c, tenant, d, first, second, third);
            AllAdmitted(c', d.admits)
            && (outcome.Some? && outcome.value.Resolved? ==> d.admits(tenant, outcome.value.context.payload))
  {
    RefreshedPayload(d, c, tenant);
    hide Refreshed, Deployment.Build, EffectiveState;
  }

  lemma ResolveAdmits(c: Cache, db: Db, tenant: string, d: Deployment, others: Interference, pass: nat)
    requires d.Valid() && pass <= 2 && AllAdmitted(c, d.admits)
    ensures var (c', _, outcome) := Resolve(c, db, tenant, d, others, pass);
            AllAdmitted(c', d.admits) && (outcome.Resolved? ==> d.admits(tenant, outcome.context.payload))
    decreases 2 - pass
  {
    hide AllAdmitted, Pass, Views;
    if pass < 2 {
      var (first, second, third) := Views(c, db, tenant, others, pass);
      PassAdmits(c, tenant, d, first, second, third);
      ResolveAdmits(Pass(c, tenant, d, first, second, third).0, third, tenant, d, others, pass + 1);
    }
  }

  lemma {:induction false} RunsAdmit(c: Cache, db: Db, events: seq<Event>, admits: (string, Payload) -> bool)
    requires AllAdmitted(c, admits) && forall e :: e in events ==> Callable(e) && Admits(e, admits)
    ensures AllAdmitted(AfterAll(c, db, events).0, admits)
    decreases |events|
  {
    hide Resolve;
    if events != [] {
      var e := events[0];
      assert Callable(e) && Admits(e, admits);
      if e.Call? {
        assert AllAdmitted(c, e.deployment.admits);
        ResolveAdmits(c, db, e.tenant, e.deployment, e.others, 0);
      }
      RunsAdmit(After(c, db, e).0, After(c, db, e).1, events[1..], admits);
    }
  }

  /** Nothing that is not admitted is ever cached or returned: over any history of calls, writes,
      deletes and invalidations under one admission, and with any writes between the reads. */
  lemma OnlyAdmittedIsServed(events: seq<Event>, tenant: string, d: Deployment, others: Interference)
    requires d.Valid() && forall e :: e in events ==> Callable(e) && Admits(e, d.admits)
    ensures var (c, db) := AfterAll(EmptyCache, EmptyDb, events);
            var outcome := Resolve(c, db, tenant, d, others).2;
            AllAdmitted(c, d.admits) && (outcome.Resolved? ==> d.admits(tenant, outcome.context.payload))
  {
    RunsAdmit(EmptyCache, EmptyDb, events, d.admits);
    var (c, db) := AfterAll(EmptyCache, EmptyDb, events);
    hide AfterAll, Resolve, AllAdmitted;
    ResolveAdmits(c, db, tenant, d, others, 0);
  }

  /** After any delete-free history under one admission, a quiet call falls back exactly when no
      configuration is in force, is refused exactly when one is in force that is not admitted, and
      otherwise answers with the one in force. */
  lemma EveryRunAnswersExactly(events: seq<Event>, tenant: string, d: Deployment)
    requires d.Valid() && forall e :: e in events ==> Callable(e) && Lawful(e) && Admits(e, d.admits)
    ensures var (c, db) := AfterAll(EmptyCache, EmptyDb, events);
            var outcome, payload := Resolve(c, db, tenant, d, Nobody()).2, EffectivePayload(db, tenant);
            (outcome == Fallback <==> payload.None?)
            && (outcome == Refused <==> payload.Some? && !d.admits(tenant, payload.value))
            && (outcome.Resolved? <==> payload.Some? && d.admits(tenant, payload.value))
            && (outcome.Resolved? ==> outcome.context.payload == payload.value)
  {
    EveryRunResolvesEffective(events, tenant, d);
    OnlyAdmittedIsServed(events, tenant, d, Nobody());
    hide AfterAll, Resolve, EffectivePayload;
  }

  // ----- Deletes -----

  lemma QuietViews(c: Cache, db: Db, tenant: string, pass: nat)
    ensures Views(c, db, tenant, Nobody(), pass) == (db, db, db)
  {
  }

  /** A quiet call that returns a context keeps it under the state in force. */
  lemma QuietCallIsKept(c: Cache, db: Db, tenant: string, d: Deployment)
    requires d.Valid()
    ensures var (c', _, outcome) := Resolve(c, db, tenant, d, Nobody());
            outcome.Resolved? ==>
              c'.Holds(tenant, EffectiveState(db, db, tenant)) && c'.contexts[tenant].payload == outcome.context.payload
  {
    QuietViews(c, db, tenant, 0);
    RefreshedPayload(d, c, tenant);
    hide Refreshed, Views, Deployment.Build;
    EffectiveStateNamesPayload(db, tenant);
  }

  lemma EffectiveStateNamesPayload(db: Db, tenant: string)
    ensures EffectiveState(db, db, tenant).Some? <==> EffectivePayload(db, tenant).Some?
    ensures EffectiveState(db, db, tenant).Some? ==>
              db.Payload(EffectiveState(db, db, tenant).value.key) == EffectivePayload(db, tenant)
  {
  }

  /** A tenant that was served the configuration in force is served stale after arbitrary writes,
      deletes included, and any invalidation of another key, exactly when the key and version in
      force are the same as before but the payload is another. */
  lemma ServedStaleExactly(c: Cache, db: Db, ws: seq<Write>, tenant: string, other: string, d: Deployment, later: Deployment)
    requires d.Valid() && later.Valid() && other != tenant
    requires var outcome := Resolve(c, db, tenant, d, Nobody()).2;
             outcome.Resolved? && EffectivePayload(db, tenant) == Some(outcome.context.payload)
    ensures var kept, db' := Resolve(c, db, tenant, d, Nobody()).0.Without(other), Run(db, ws);
            var outcome := Resolve(kept, db', tenant, later, Nobody()).2;
            outcome.Resolved? && EffectivePayload(db', tenant) != Some(outcome.context.payload)
            <==> EffectiveState(db', db', tenant) == EffectiveState(db, db, tenant)
                 && EffectivePayload(db', tenant) != EffectivePayload(db, tenant)
  {
    QuietCallIsKept(c, db, tenant, d);
    var kept, db' := Resolve(c, db, tenant, d, Nobody()).0.Without(other), Run(db, ws);
    QuietViews(kept, db', tenant, 0);
    RefreshedPayload(later, kept, tenant);
    EffectiveStateNamesPayload(db, tenant);
    EffectiveStateNamesPayload(db', tenant);
    var payload := EffectivePayload(db, tenant).value;
    assert kept.Holds(tenant, EffectiveState(db, db, tenant)) && kept.contexts[tenant].payload == payload;
    QuietOutcome(kept, db', tenant, later);
    hide Refreshed, Views, Deployment.Build, Resolve, EffectiveState, EffectivePayload, Run;
  }

  /** What a quiet call answers: its context as it is, or one built from the payload in force. */
  lemma QuietOutcome(c: Cache, db: Db, tenant: string, d: Deployment)
    requires d.Valid()
    ensures var outcome := Resolve(c, db, tenant, d, Nobody()).2;
            if c.Holds(tenant, EffectiveState(db, db, tenant)) then
              outcome.Resolved? && outcome.context.payload == c.contexts[tenant].payload
            else outcome.Resolved? ==> EffectivePayload(db, tenant) == Some(outcome.context.payload)
  {
    QuietViews(c, db, tenant, 0);
    RefreshedPayload(d, c, tenant);
    EffectiveStateNamesPayload(db, tenant);
    hide Refreshed, Views, Deployment.Build, EffectivePayload;
  }

  /** A delete restarts the versions: a tenant served from a key that is deleted and rewritten is
      served stale exactly when it was rewritten as often as the version it was served at, and last
      with another payload. For the default configuration this holds although deleting it
      invalidates the default key. */
  lemma RecreatedDefaultIsServedStale(c: Cache, db: Db, tenant: string, payloads: seq<Payload>, d: Deployment, later: Deployment)
    requires d.Valid() && later.Valid() && tenant != DEFAULT_TENANT && tenant !in db.rows && DEFAULT_TENANT in db.rows
    requires var outcome := Resolve(c, db, tenant, d, Nobody()).2;
             outcome.Resolved? && EffectivePayload(db, tenant) == Some(outcome.context.payload)
    ensures var kept := Resolve(c, db, tenant, d, Nobody()).0.Without(DEFAULT_TENANT);
            var db', row := Run(db, Rewrites(DEFAULT_TENANT, payloads)), db.rows[DEFAULT_TENANT];
            var outcome := Resolve(kept, db', tenant, later, Nobody()).2;
            outcome.Resolved? && EffectivePayload(db', tenant) != Some(outcome.context.payload)
            <==> payloads != [] && |payloads| == row.version && payloads[|payloads| - 1] != row.payload
  {
    RewrittenRow(db, DEFAULT_TENANT, payloads);
    ServedStaleExactly(c, db, Rewrites(DEFAULT_TENANT, payloads), tenant, DEFAULT_TENANT, d, later);
    hide Run, Rewrites, Resolve;
  }

  /** Such a tenant exists: a first call under the default configuration is served from it. */
  lemma FirstCallIsServed(db: Db, tenant: string, d: Deployment)
    requires d.Valid() && EffectivePayload(db, tenant).Some? && d.admits(tenant, EffectivePayload(db, tenant).value)
    ensures var outcome := Resolve(EmptyCache, db, tenant, d, Nobody()).2;
            outcome.Resolved? && EffectivePayload(db, tenant) == Some(outcome.context.payload)
  {
    QuietViews(EmptyCache, db, tenant, 0);
    EffectiveStateNamesPayload(db, tenant);
    hide Deployment.Build, Views;
  }

  /** Contexts built from a tenant's own row. */
  ghost predicate OwnFresh(c: Cache, db: Db) {
    forall tenant :: tenant in c.contexts && tenant in c.states && c.states[tenant].key == tenant ==> EntryFresh(c, db, tenant)
  }

  /** Deleting a tenant's configuration and invalidating that tenant afterwards, as the admin
      endpoint does, keeps every context that was built from a tenant's own row fresh, whatever is
      written before, between and after, as long as no other tenant's row is deleted. */
  lemma DeleteThenInvalidateKeepsOwnFresh(c: Cache, db: Db, ws: seq<Write>, tenant: string)
    requires OwnFresh(c, db) && forall w :: w in ws && w.Delete? ==> w.tenant == tenant
    ensures OwnFresh(c.Without(tenant), Run(db, ws))
  {
    var c', db' := c.Without(tenant), Run(db, ws);
    forall t | t in c'.contexts && t in c'.states && c'.states[t].key == t ensures EntryFresh(c', db', t) {
      assert EntryFresh(c, db, t);
      RunIsLater(db, ws, t);
    }
  }

  // ----- The generation skip -----

  /** Each cached registry is no newer than the manager and, at an equal generation, what the
      manager would give now; a context without servers has an empty one. */
  ghost predicate RegistriesCurrent(c: Cache, servers: Payload -> set<string>, m: Mcp.Manager) {
    m.Valid() && forall t :: t in c.contexts ==> RegistryCurrent(c.contexts[t], servers, m)
  }

  ghost predicate RegistryCurrent(context: Context, servers: Payload -> set<string>, m: Mcp.Manager)
    requires m.Valid()
  {
    var keys := servers(context.payload);
    keys <= m.states.Keys && context.registry.generation <= m.generation
    && (context.registry.generation == m.generation || keys == {} ==> context.registry.entries == Mcp.RegistryOf(m, keys))
  }

  lemma {:induction false} NoKeysNoServers(states: map<string, Mcp.ServerState>, order: seq<string>)
    requires forall k :: k in order ==> k in states
    ensures Mcp.Servers(states, order, {}) == []
  {
    if order != [] { NoKeysNoServers(states, order[1..]); }
  }

  lemma NoServersNoTools(m: Mcp.Manager)
    requires m.Valid()
    ensures Mcp.RegistryOf(m, {}) == []
  {
    NoKeysNoServers(m.states, m.order);
  }

  /** The manager moving on, without forced re-checks of connected servers, leaves them so. */
  lemma RegistriesStayCurrent(c: Cache, servers: Payload -> set<string>, timing: Mcp.Timing, m: Mcp.Manager, steps: seq<Mcp.Step>)
    requires RegistriesCurrent(c, servers, m) && Mcp.Settled(m) && Mcp.LeavesConnectedAlone(timing, m, steps)
    ensures RegistriesCurrent(c, servers, Mcp.Run(timing, m, steps))
  {
    var later := Mcp.Run(timing, m, steps);
    Mcp.GenerationDetectsChange(timing, m, steps);
    KnownServersStay(timing, m, steps);
    forall t | t in c.contexts ensures RegistryCurrent(c.contexts[t], servers, later) {
      var context := c.contexts[t];
      assert RegistryCurrent(context, servers, m);
      if context.registry.generation == later.generation {
        Mcp.QuietRegistry(timing, m, steps, servers(context.payload));
      }
      NoServersNoTools(m);
      NoServersNoTools(later);
      hide Mcp.RegistryOf, Mcp.Run, Mcp.Unchanged;
    }
  }

  lemma {:induction false} KnownServersStay(timing: Mcp.Timing, m: Mcp.Manager, steps: seq<Mcp.Step>)
    ensures m.states.Keys <= Mcp.Run(timing, m, steps).states.Keys
    decreases |steps|
  {
    if steps != [] { KnownServersStay(timing, Mcp.Take(timing, m, steps[0]), steps[1..]); }
  }

  /** The servers of a returned context are known to the manager, as the snapshot contacts those
      that are missing. */
  ghost predicate Contacted(d: Deployment, outcome: Outcome) {
    outcome.Resolved? ==> d.servers(outcome.context.payload) <= d.manager.states.Keys
  }

  /** The context has the tools the manager would give now. */
  ghost predicate CarriesCurrentTools(d: Deployment, context: Context)
    requires d.Valid()
  {
    context.registry.entries == Mcp.RegistryOf(d.manager, d.servers(context.payload))
  }

  lemma RefreshedIsCurrent(d: Deployment, context: Context)
    requires d.Valid() && RegistryCurrent(context, d.servers, d.manager)
    ensures RegistryCurrent(Refreshed(d, context), d.servers, d.manager) && CarriesCurrentTools(d, Refreshed(d, context))
  {
    hide Mcp.RegistryOf;
  }

  /** A pass keeps the cached registries current, and a context it returns has current tools. */
  lemma PassKeepsRegistries(c: Cache, tenant: string, d: Deployment, first: Db, second: Db, third: Db)
    requires d.Valid() && RegistriesCurrent(c, d.servers, d.manager)
    requires var outcome := Pass(c, tenant, d, first, second, third).1; outcome.Some? ==> Contacted(d, outcome.value)
    ensures var (c', outcome) := Pass(c, tenant, d, first, second, third);
            RegistriesCurrent(c', d.servers, d.manager)
            && (outcome.Some? && outcome.value.Resolved? ==> CarriesCurrentTools(d, outcome.value.context))
  {
    if tenant in c.contexts { RefreshedIsCurrent(d, c.contexts[tenant]); }
    hide Mcp.RegistryOf, Refreshed, EffectiveState;
  }

  lemma ResolveKeepsRegistries(c: Cache, db: Db, tenant: string, d: Deployment, others: Interference, pass: nat)
    requires d.Valid() && pass <= 2 && RegistriesCurrent(c, d.servers, d.manager)
    requires Contacted(d, Resolve(c, db, tenant, d, others, pass).2)
    ensures var (c', _, outcome) := Resolve(c, db, tenant, d, others, pass);
            RegistriesCurrent(c', d.servers, d.manager) && (outcome.Resolved? ==> CarriesCurrentTools(d, outcome.context))
    decreases 2 - pass
  {
    hide RegistriesCurrent, CarriesCurrentTools, Contacted, Pass, Views;
    if pass < 2 {
      var (first, second, third) := Views(c, db, tenant, others, pass);
      var (c', outcome) := Pass(c, tenant, d, first, second, third);
      PassKeepsRegistries(c, tenant, d, first, second, third);
      if outcome.None? {
        ResolveKeepsRegistries(c', third, tenant, d, others, pass + 1);
      }
    }
  }

  // ----- Runs of calls, writes and the manager -----

  /** One resolver, one store and one manager. */
  datatype World = World(cache: Cache, db: Db, manager: Mcp.Manager)

  /** What happens in a run. A call carries the manager's steps up to its snapshot, among them those
      that contact servers the manager does not know yet. */
  datatype Happening =
    | Called(tenant: string, admits: (string, Payload) -> bool, others: Interference, contacting: seq<Mcp.Step>)
    | Written(ws: seq<Write>)
    | Invalidated(tenant: string)
    | Managed(steps: seq<Mcp.Step>)

  function StepsOf(h: Happening): seq<Mcp.Step> {
    match h
    case Called(_, _, _, contacting) => contacting
    case Managed(steps) => steps
    case _ => []
  }

  /** The call against the manager at its snapshot. */
  function Answer(timing: Mcp.Timing, servers: Payload -> set<string>, w: World, h: Happening): (Cache, Db, Outcome)
    requires h.Called? && Mcp.Run(timing, w.manager, h.contacting).Valid()
  {
    Resolve(w.cache, w.db, h.tenant, Deployment(h.admits, servers, Mcp.Run(timing, w.manager, h.contacting)), h.others)
  }

  /** The manager is in order after the steps, connected servers are not force-checked, and the
      servers of a returned context have been contacted. */
  ghost predicate Proper(timing: Mcp.Timing, servers: Payload -> set<string>, w: World, h: Happening) {
    var m := Mcp.Run(timing, w.manager, StepsOf(h));
    m.Valid() && Mcp.LeavesConnectedAlone(timing, w.manager, StepsOf(h))
    && (h.Called? ==> Contacted(Deployment(h.admits, servers, m), Answer(timing, servers, w, h).2))
  }

  ghost function Next(timing: Mcp.Timing, servers: Payload -> set<string>, w: World, h: Happening): World
    requires Proper(timing, servers, w, h)
  {
    var m := Mcp.Run(timing, w.manager, StepsOf(h));
    match h
    case Called(_, _, _, _) => var (c, db, _) := Answer(timing, servers, w, h); World(c, db, m)
    case Written(ws) => w.(db := Run(w.db, ws))
    case Invalidated(tenant) => w.(cache := w.cache.Without(tenant))
    case Managed(_) => w.(manager := m)
  }

  ghost predicate ProperRun(timing: Mcp.Timing, servers: Payload -> set<string>, w: World, hs: seq<Happening>)
    decreases |hs|
  {
    hs == [] || (Proper(timing, servers, w, hs[0]) && ProperRun(timing, servers, Next(timing, servers, w, hs[0]), hs[1..]))
  }

  ghost function Played(timing: Mcp.Timing, servers: Payload -> set<string>, w: World, hs: seq<Happening>): World
    requires ProperRun(timing, servers, w, hs)
    decreases |hs|
  {
    if hs == [] then w else Played(timing, servers, Next(timing, servers, w, hs[0]), hs[1..])
  }

  ghost predicate WorldCurrent(servers: Payload -> set<string>, w: World) {
    Mcp.Settled(w.manager) && RegistriesCurrent(w.cache, servers, w.manager)
  }

  lemma NextStaysCurrent(timing: Mcp.Timing, servers: Payload -> set<string>, w: World, h: Happening)
    requires WorldCurrent(servers, w) && Proper(timing, servers, w, h)
    ensures WorldCurrent(servers, Next(timing, servers, w, h))
    ensures h.Called? && Answer(timing, servers, w, h).2.Resolved? ==>
              CarriesCurrentTools(Deployment(h.admits, servers, Mcp.Run(timing, w.manager, h.contacting)), Answer(timing, servers, w, h).2.context)
  {
    var m := Mcp.Run(timing, w.manager, StepsOf(h));
    Mcp.RunSettled(timing, w.manager, StepsOf(h));
    RegistriesStayCurrent(w.cache, servers, timing, w.manager, StepsOf(h));
    hide Mcp.Run, Mcp.LeavesConnectedAlone, Mcp.Settled, Resolve, CarriesCurrentTools, Contacted, RegistryCurrent;
    if h.Called? {
      ResolveKeepsRegistries(w.cache, w.db, h.tenant, Deployment(h.admits, servers, m), h.others, 0);
    }
  }

  lemma {:induction false} PlayedStaysCurrent(timing: Mcp.Timing, servers: Payload -> set<string>, w: World, hs: seq<Happening>)
    requires WorldCurrent(servers, w) && ProperRun(timing, servers, w, hs)
    ensures WorldCurrent(servers, Played(timing, servers, w, hs))
    decreases |hs|
  {
    hide WorldCurrent, Proper, Next;
    if hs != [] {
      NextStaysCurrent(timing, servers, w, hs[0]);
      PlayedStaysCurrent(timing, servers, Next(timing, servers, w, hs[0]), hs[1..]);
    }
  }

  /** The skip on an equal generation never keeps a stale tool set: after any run of calls, writes,
      deletes, invalidations and manager steps, in which no connected server is force-checked, every
      context a call returns has exactly the tools the manager would give at the call's snapshot. */
  lemma EveryCallCarriesCurrentTools(timing: Mcp.Timing, servers: Payload -> set<string>, hs: seq<Happening>, call: Happening)
    requires call.Called? && ProperRun(timing, servers, World(EmptyCache, EmptyDb, Mcp.Start), hs)
    requires Proper(timing, servers, Played(timing, servers, World(EmptyCache, EmptyDb, Mcp.Start), hs), call)
    ensures var w := Played(timing, servers, World(EmptyCache, EmptyDb, Mcp.Start), hs);
            var outcome, m := Answer(timing, servers, w, call).2, Mcp.Run(timing, w.manager, call.contacting);
            outcome.Resolved? ==>
              outcome.context.registry.entries == Mcp.RegistryOf(m, servers(outcome.context.payload))
  {
    var start := World(EmptyCache, EmptyDb, Mcp.Start);
    assert WorldCurrent(servers, start);
    PlayedStaysCurrent(timing, servers, start, hs);
    NextStaysCurrent(timing, servers, Played(timing, servers, start, hs), call);
    hide Played, ProperRun, Answer, Mcp.Run, Mcp.RegistryOf, WorldCurrent;
  }

  /** With forced re-checks allowed: a context built at one moment of the manager carries current
      tools after arbitrary steps exactly when the generation has changed meanwhile, or no step
      forced a re-check of a server the context has tools from. */
  lemma HitRegistryIsCurrent(
    timing: Mcp.Timing, m: Mcp.Manager, steps: seq<Mcp.Step>, admits: (string, Payload) -> bool, servers: Payload -> set<string>,
    payload: Payload)
    requires m.Valid() && Mcp.Settled(m) && servers(payload) != {} && servers(payload) <= m.states.Keys
    ensures var d, keys := Deployment(admits, servers, Mcp.Run(timing, m, steps)), servers(payload);
            var context := Context(payload, Registry(Mcp.RegistryOf(m, keys), m.generation));
            d.Valid()
            && (CarriesCurrentTools(d, Refreshed(d, context))
                <==> d.manager.generation != m.generation
                     || forall k :: k in keys && Mcp.Entries(m.states[k]) != [] ==> !Mcp.Forces(steps, k))
  {
    Mcp.GenerationDetectsChange(timing, m, steps);
    if Mcp.Run(timing, m, steps).generation == m.generation {
      Mcp.ForcedRecheckHidesToolsExactly(timing, m, steps, servers(payload));
    }
    hide Mcp.RegistryOf, Mcp.Run, Mcp.Forces, Mcp.Entries;
  }

  // ----- The class -----

  class StoreBackedTenantExecutionResolver {
    const store: SQLiteTenantConfigStore
    var contexts: map<string, Context>
    var states: map<string, ConfigState>

    ghost function Contents(): Cache
      reads this
    {
      Cache(contexts, states)
    }

    constructor (store: SQLiteTenantConfigStore)
      ensures this.store == store && Contents() == EmptyCache
    {
      this.store := store;
      contexts, states := map[], map[];
    }

    method Forget(tenant: string)
      modifies this
      ensures Contents() == old(Contents()).Without(tenant)
    {
      contexts, states := contexts - {tenant}, states - {tenant};
    }

    /** `_effective_config_state`, with the writes of other parties before each read. */
    method EffectiveConfigState(tenant: string, others: Interference, pass: nat) returns (state: Option<ConfigState>)
      modifies store
      ensures var first := Run(old(store.db), others(3 * pass));
              var second := SecondRead(first, tenant, others(3 * pass + 1));
              store.db == second && state == EffectiveState(first, second, tenant)
    {
      store.Interleave(others(3 * pass));
      var version := store.GetConfigVersion(tenant);
      if version.Some? {
        return Some(ConfigState(tenant, version.value));
      }
      if tenant != DEFAULT_TENANT {
        store.Interleave(others(3 * pass + 1));
        version := store.GetConfigVersion(DEFAULT_TENANT);
        if version.Some? {
          return Some(ConfigState(DEFAULT_TENANT, version.value));
        }
      }
      state := None;
    }

    /** The body of the retry loop; None asks for another pass. */
    method ResolveOnce(tenant: string, d: Deployment, others: Interference, pass: nat) returns (r: Option<Outcome>)
      requires d.Valid()
      modifies this, store
      ensures var (first, second, third) := Views(old(Contents()), old(store.db), tenant, others, pass);
              store.db == third && (Contents(), r) == Pass(old(Contents()), tenant, d, first, second, third)
    {
      hide Deployment.Build, Refreshed, Run;
      var state := EffectiveConfigState(tenant, others, pass);
      if tenant in contexts && (if tenant in states then Some(states[tenant]) else None) == state {
        var context := Refreshed(d, contexts[tenant]);
        contexts := contexts[tenant := context];
        return Some(Resolved(context));
      }
      contexts, states := contexts - {tenant}, states - {tenant};
      if state.None? {
        return Some(Fallback);
      }
      store.Interleave(others(3 * pass + 2));
      var payload := store.GetRawConfig(state.value.key);
      if payload.None? {
        return None;
      }
      if !d.admits(tenant, payload.value) {
        return Some(Refused);
      }
      var context := Context(payload.value, d.Build(payload.value));
      assert contexts[tenant := context] == old(contexts)[tenant := context];
      assert states[tenant := state.value] == old(states)[tenant := state.value];
      contexts, states := contexts[tenant := context], states[tenant := state.value];
      r := Some(Resolved(context));
    }

    /** `resolve`: at most two passes. */
    method ResolveTenant(tenant: string, d: Deployment, others: Interference) returns (r: Outcome)
      requires d.Valid()
      modifies this, store
      ensures (Contents(), store.db, r) == Resolve(old(Contents()), old(store.db), tenant, d, others)
    {
      hide Views, Pass;
      var pass := 0;
      while pass < 2
        invariant 0 <= pass <= 2
        invariant Resolve(Contents(), store.db, tenant, d, others, pass) == Resolve(old(Contents()), old(store.db), tenant, d, others)
      {
        var outcome := ResolveOnce(tenant, d, others, pass);
        if outcome.Some? {
          return outcome.value;
        }
        pass := pass + 1;
      }
      r := Fallback;
    }
  }
}
