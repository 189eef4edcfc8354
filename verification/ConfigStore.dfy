/** Versioned tenant execution configurations, compare-and-set, and the connection checks
    stamped with the version they were made for. Each write is one atomic transaction. */
module ConfigStore {
  import opened Wrappers

  /** The stored configuration document. */
  type Payload = string

  datatype Row = Row(payload: Payload, version: nat)
  datatype Check = Check(version: nat, result: string)
  datatype Server = Server(tenant: string, name: string)

  datatype Db = Db(rows: map<string, Row>, checks: map<Server, Check>) {
    function Version(tenant: string): Option<nat> {
      if tenant in rows then Some(rows[tenant].version) else None
    }

    function Payload(tenant: string): Option<Payload> {
      if tenant in rows then Some(rows[tenant].payload) else None
    }

    function ReadCheck(server: Server, version: nat): Option<string> {
      if server in checks && checks[server].version == version then Some(checks[server].result) else None
    }
  }

  const EmptyDb: Db := Db(map[], map[])

  datatype Write =
    | Create(tenant: string, payload: Payload)
    | Upsert(tenant: string, payload: Payload)
    | Replace(tenant: string, payload: Payload, expected: nat)
    | SaveCheck(tenant: string, server: string, expected: nat, result: string)
    | Delete(tenant: string)

  /** One write: the database after it and whether it took effect. */
  function Apply(db: Db, w: Write): (Db, bool) {
    match w
    case Create(t, p) =>
      if t in db.rows then (db, false) else (db.(rows := db.rows[t := Row(p, 1)]), true)
    case Upsert(t, p) =>
      (db.(rows := db.rows[t := Row(p, if t in db.rows then db.rows[t].version + 1 else 1)]), true)
    case Replace(t, p, expected) =>
      if db.Version(t) == Some(expected) then (db.(rows := db.rows[t := Row(p, expected + 1)]), true) else (db, false)
    case SaveCheck(t, server, expected, result) =>
      if db.Version(t) == Some(expected) then (db.(checks := db.checks[Server(t, server) := Check(expected, result)]), true)
      else (db, false)
    case Delete(t) =>
      (Db(db.rows - {t}, map s | s in db.checks && s.tenant != t :: db.checks[s]), t in db.rows)
  }

  function Run(db: Db, ws: seq<Write>): Db
    decreases |ws|
  {
    if ws == [] then db else Run(Apply(db, ws[0]).0, ws[1..])
  }

  // ----- Runs without deletes: a version names one payload -----

  predicate NoDelete(ws: seq<Write>, tenant: string) {
    forall w :: w in ws && w.Delete? ==> w.tenant != tenant
  }

  /** Later in a delete-free run: the row is still there, its version has not gone down, and the
      same version still holds the same payload. */
  predicate Later(before: Db, after: Db, tenant: string) {
    tenant in before.rows ==>
      tenant in after.rows && before.rows[tenant].version <= after.rows[tenant].version
      && (before.rows[tenant].version == after.rows[tenant].version ==> before.rows[tenant].payload == after.rows[tenant].payload)
  }

  lemma {:induction false} RunIsLater(db: Db, ws: seq<Write>, tenant: string)
    requires NoDelete(ws, tenant)
    ensures Later(db, Run(db, ws), tenant)
    decreases |ws|
  {
    if ws != [] {
      assert ws[0] in ws;
      RunIsLater(Apply(db, ws[0]).0, ws[1..], tenant);
    }
  }

  // ----- Connection checks, deletes included -----

  lemma {:induction false} RunAppend(db: Db, ws: seq<Write>, w: Write)
    ensures Run(db, ws + [w]) == Apply(Run(db, ws), w).0
    decreases |ws|
  {
    if ws == [] {
      assert ws + [w] == [w] && [w][1..] == [];
    } else {
      assert (ws + [w])[1..] == ws[1..] + [w];
      RunAppend(Apply(db, ws[0]).0, ws[1..], w);
    }
  }

  /** Write `i` of the run saved this check while `payload` was the stored configuration. */
  predicate SavedAt(ws: seq<Write>, i: nat, server: Server, check: Check, payload: Payload) {
    i < |ws| && ws[i] == SaveCheck(server.tenant, server.name, check.version, check.result)
    && server.tenant in Run(EmptyDb, ws[..i]).rows
    && Run(EmptyDb, ws[..i]).rows[server.tenant] == Row(payload, check.version)
  }

  /** Every stored check belongs to a stored configuration no older than it, and a check of the
      current version was saved under the current payload. */
  ghost predicate ChecksExplained(ws: seq<Write>) {
    var db := Run(EmptyDb, ws);
    forall s :: s in db.checks ==>
      s.tenant in db.rows && db.checks[s].version <= db.rows[s.tenant].version
      && (db.checks[s].version == db.rows[s.tenant].version ==>
            exists i: nat :: SavedAt(ws, i, s, db.checks[s], db.rows[s.tenant].payload))
  }

  lemma SavedAtLonger(ws: seq<Write>, w: Write, i: nat, server: Server, check: Check, payload: Payload)
    requires SavedAt(ws, i, server, check, payload)
    ensures SavedAt(ws + [w], i, server, check, payload)
  {
    assert (ws + [w])[..i] == ws[..i];
  }

  lemma {:induction false} RunsExplainChecks(ws: seq<Write>)
    ensures ChecksExplained(ws)
  {
    if ws != [] {
      var earlier, w := ws[..|ws| - 1], ws[|ws| - 1];
      assert ws == earlier + [w];
      RunsExplainChecks(earlier);
      RunAppend(EmptyDb, earlier, w);
      var prior, db := Run(EmptyDb, earlier), Run(EmptyDb, ws);
      forall s | s in db.checks
        ensures s.tenant in db.rows && db.checks[s].version <= db.rows[s.tenant].version
        ensures db.checks[s].version == db.rows[s.tenant].version ==>
                  exists i: nat :: SavedAt(ws, i, s, db.checks[s], db.rows[s.tenant].payload)
      {
        if w == SaveCheck(s.tenant, s.name, db.checks[s].version, db.checks[s].result) && prior.Version(s.tenant) == Some(w.expected) {
          assert ws[..|ws| - 1] == earlier;
          assert SavedAt(ws, |ws| - 1, s, db.checks[s], db.rows[s.tenant].payload);
        } else {
          assert s in prior.checks && db.checks[s] == prior.checks[s];
          if db.checks[s].version == db.rows[s.tenant].version {
            assert prior.rows[s.tenant] == db.rows[s.tenant];
            var i: nat :| SavedAt(earlier, i, s, prior.checks[s], prior.rows[s.tenant].payload);
            SavedAtLonger(earlier, w, i, s, prior.checks[s], prior.rows[s.tenant].payload);
          }
        }
      }
    }
  }

  /** On every run, deletes included, a check returned for the current version was saved while the
      current payload was stored. */
  lemma ReturnedCheckIsCurrent(ws: seq<Write>, server: Server, result: string)
    requires server.tenant in Run(EmptyDb, ws).rows
    requires Run(EmptyDb, ws).ReadCheck(server, Run(EmptyDb, ws).rows[server.tenant].version) == Some(result)
    ensures var row := Run(EmptyDb, ws).rows[server.tenant];
            exists i: nat :: SavedAt(ws, i, server, Check(row.version, result), row.payload)
  {
    RunsExplainChecks(ws);
  }

  /** A check that was saved is returned for its version, whatever else is written, until the row is
      deleted or another check of that server is saved. */
  lemma {:induction false} SavedCheckIsReturned(db: Db, server: Server, version: nat, result: string, ws: seq<Write>)
    requires var save := SaveCheck(server.tenant, server.name, version, result); Apply(db, save).1
    requires forall w :: w in ws ==> w != Delete(server.tenant) && !(w.SaveCheck? && w.tenant == server.tenant && w.server == server.name)
    ensures Run(Apply(db, SaveCheck(server.tenant, server.name, version, result)).0, ws).ReadCheck(server, version) == Some(result)
  {
    CheckStays(Apply(db, SaveCheck(server.tenant, server.name, version, result)).0, server, ws);
  }

  lemma {:induction false} CheckStays(db: Db, server: Server, ws: seq<Write>)
    requires server in db.checks
    requires forall w :: w in ws ==> w != Delete(server.tenant) && !(w.SaveCheck? && w.tenant == server.tenant && w.server == server.name)
    ensures server in Run(db, ws).checks && Run(db, ws).checks[server] == db.checks[server]
    decreases |ws|
  {
    if ws != [] {
      assert ws[0] in ws;
      CheckStays(Apply(db, ws[0]).0, server, ws[1..]);
    }
  }

  /** A check is saved exactly under the version that is stored, and no other version's is returned. */
  lemma CheckSavedExactly(db: Db, server: Server, version: nat, result: string, other: nat)
    ensures var (after, saved) := Apply(db, SaveCheck(server.tenant, server.name, version, result));
            (saved <==> db.Version(server.tenant) == Some(version)) && (!saved ==> after == db) && after.rows == db.rows
            && (saved && other != version ==> after.ReadCheck(server, other) == None)
  {
  }

  // ----- The class -----

  class SQLiteTenantConfigStore {
    var db: Db

    constructor ()
      ensures db == EmptyDb
    {
      db := EmptyDb;
    }

    method GetConfigVersion(tenant: string) returns (version: Option<nat>)
      ensures version == db.Version(tenant)
    {
      version := if tenant in db.rows then Some(db.rows[tenant].version) else None;
    }

    method GetRawConfig(tenant: string) returns (payload: Option<Payload>)
      ensures payload == db.Payload(tenant)
    {
      payload := if tenant in db.rows then Some(db.rows[tenant].payload) else None;
    }

    method UpsertRawConfig(tenant: string, payload: Payload)
      modifies this
      ensures db == Apply(old(db), Upsert(tenant, payload)).0
    {
      var version := if tenant in db.rows then db.rows[tenant].version + 1 else 1;
      db := db.(rows := db.rows[tenant := Row(payload, version)]);
    }

    method ReplaceRawConfigIfVersion(tenant: string, payload: Payload, expected: nat) returns (replaced: bool)
      modifies this
      ensures (db, replaced) == Apply(old(db), Replace(tenant, payload, expected))
    {
      if tenant !in db.rows || db.rows[tenant].version != expected {
        return false;
      }
      db := db.(rows := db.rows[tenant := Row(payload, db.rows[tenant].version + 1)]);
      replaced := true;
    }

    method SaveMcpConnectionCheck(tenant: string, server: string, version: nat, result: string) returns (saved: bool)
      modifies this
      ensures (db, saved) == Apply(old(db), SaveCheck(tenant, server, version, result))
    {
      if tenant !in db.rows || db.rows[tenant].version != version {
        return false;
      }
      db := db.(checks := db.checks[Server(tenant, server) := Check(version, result)]);
      saved := true;
    }

    method GetMcpConnectionCheck(tenant: string, server: string, version: nat) returns (result: Option<string>)
      ensures result == db.ReadCheck(Server(tenant, server), version)
    {
      result := db.ReadCheck(Server(tenant, server), version);
    }

    method DeleteConfig(tenant: string) returns (deleted: bool)
      modifies this
      ensures (db, deleted) == Apply(old(db), Delete(tenant))
    {
      deleted := tenant in db.rows;
      db := Db(db.rows - {tenant}, map s | s in db.checks && s.tenant != tenant :: db.checks[s]);
    }

    /** What other parties write between two reads of one caller. */
    method Interleave(ws: seq<Write>)
      modifies this
      ensures db == Run(old(db), ws)
    {
      var i := 0;
      while i < |ws|
        invariant 0 <= i <= |ws| && Run(db, ws[i..]) == Run(old(db), ws)
      {
        db := Apply(db, ws[i]).0;
        i := i + 1;
      }
    }
  }

  // ----- Optimistic credential replacement -----

  datatype Replacement = Replaced | Conflict | Rejected

  /** The payload a replacement read before deriving the new one from it. */
  datatype Attempt = Attempt(outcome: Replacement, derivedFrom: Payload)

  /** `replace_tenant_mcp_credential`: version, payload, version again, then compare-and-set, with
      other parties writing before each of these four accesses. `edit` stands for the checks and
      the new header; None is any rejection. */
  method ReplaceCredential(
    store: SQLiteTenantConfigStore, tenant: string, expected: nat, edit: Payload -> Option<Payload>,
    others: (seq<Write>, seq<Write>, seq<Write>, seq<Write>))
    returns (attempt: Attempt)
    modifies store
    ensures var atVersion := Run(old(store.db), others.0);
            var atPayload := Run(atVersion, others.1);
            var atCheck := Run(atPayload, others.2);
            var before := Run(atCheck, others.3);
            var read := atPayload.Payload(tenant);
            var stable := atVersion.Version(tenant) == Some(expected) && read.Some? && atCheck.Version(tenant) == Some(expected);
            (attempt.outcome == Rejected <==> stable && edit(read.value).None?)
            && (attempt.outcome == Replaced <==> stable && edit(read.value).Some? && before.Version(tenant) == Some(expected))
            && (attempt.outcome == Replaced ==>
                  store.db == Apply(before, Replace(tenant, edit(read.value).value, expected)).0
                  && attempt.derivedFrom == read.value
                  && (NoDelete(others.1 + others.2 + others.3, tenant) ==> before.Payload(tenant) == read))
            && (attempt.outcome != Replaced ==> store.db in {atVersion, atPayload, atCheck, before})
  {
    var all := others.1 + others.2 + others.3;
    store.Interleave(others.0);
    var version := store.GetConfigVersion(tenant);
    if version != Some(expected) {
      return Attempt(Conflict, "");
    }
    ghost var atVersion := store.db;
    store.Interleave(others.1);
    var payload := store.GetRawConfig(tenant);
    if payload.None? {
      return Attempt(Conflict, "");
    }
    ghost var atPayload := store.db;
    store.Interleave(others.2);
    version := store.GetConfigVersion(tenant);
    if version != Some(expected) {
      return Attempt(Conflict, "");
    }
    var edited := edit(payload.value);
    if edited.None? {
      return Attempt(Rejected, payload.value);
    }
    ghost var atCheck := store.db;
    store.Interleave(others.3);
    ghost var before := store.db;
    if NoDelete(all, tenant) {
      assert NoDelete(others.1, tenant) && NoDelete(others.2, tenant) && NoDelete(others.3, tenant);
      RunIsLater(atVersion, others.1, tenant);
      RunIsLater(atPayload, others.2, tenant);
      RunIsLater(atCheck, others.3, tenant);
    }
    var replaced := store.ReplaceRawConfigIfVersion(tenant, edited.value, expected);
    attempt := Attempt(if replaced then Replaced else Conflict, payload.value);
  }

  // ----- Deletes -----

  /** A delete of the key and rewrites of it. */
  function Rewrites(key: string, payloads: seq<Payload>): seq<Write> {
    [Delete(key)] + seq(|payloads|, i requires 0 <= i < |payloads| => Upsert(key, payloads[i]))
  }

  /** Rewriting counts versions from 1 again and leaves every other row alone. */
  lemma {:induction false} RewrittenRow(db: Db, key: string, payloads: seq<Payload>)
    ensures var after := Run(db, Rewrites(key, payloads));
            (if payloads == [] then key !in after.rows
             else key in after.rows && after.rows[key] == Row(payloads[|payloads| - 1], |payloads|))
            && forall t :: t != key ==> (t in after.rows <==> t in db.rows) && (t in db.rows ==> after.rows[t] == db.rows[t])
  {
    if payloads == [] {
      assert Rewrites(key, payloads) == [] + [Delete(key)];
      RunAppend(db, [], Delete(key));
    } else {
      var n := |payloads| - 1;
      RewrittenRow(db, key, payloads[..n]);
      assert Rewrites(key, payloads) == Rewrites(key, payloads[..n]) + [Upsert(key, payloads[n])];
      RunAppend(db, Rewrites(key, payloads[..n]), Upsert(key, payloads[n]));
      hide Run, Rewrites;
    }
  }

  /** A compare-and-set under the version read in `read` overwrites a configuration other than the
      one read. */
  predicate LosesUpdate(read: Db, now: Db, tenant: string, edited: Payload) {
    read.Version(tenant).Some? && Apply(now, Replace(tenant, edited, read.Version(tenant).value)).1
    && now.Payload(tenant) != read.Payload(tenant)
  }

  /** Over arbitrary writes an update is lost only if the row was deleted in between. */
  lemma LostUpdateNeedsDelete(read: Db, ws: seq<Write>, tenant: string, edited: Payload)
    requires LosesUpdate(read, Run(read, ws), tenant, edited)
    ensures Delete(tenant) in ws
  {
    if NoDelete(ws, tenant) { RunIsLater(read, ws, tenant); }
  }

  // ----- Arbitrary writes -----

  /** The payload that a write stores in the tenant's row, if it takes effect. */
  function Stored(db: Db, w: Write, tenant: string): Option<Payload> {
    if !w.Delete? && !w.SaveCheck? && w.tenant == tenant && Apply(db, w).1 then Some(w.payload) else None
  }

  /** What a run stored in the tenant's row since its last delete of it. */
  function StoredSince(db: Db, ws: seq<Write>, tenant: string): seq<Payload> {
    if ws == [] then []
    else
      var earlier, w := ws[..|ws| - 1], ws[|ws| - 1];
      if w == Delete(tenant) then []
      else
        match Stored(Run(db, earlier), w, tenant)
        case Some(payload) => StoredSince(db, earlier, tenant) + [payload]
        case None => StoredSince(db, earlier, tenant)
  }

  /** After any run the row is the last payload stored since the last delete, and its version counts
      them, from the version before the run if there was no delete. */
  lemma {:induction false} RowAfterRun(db: Db, ws: seq<Write>, tenant: string)
    ensures var after, stored := Run(db, ws), StoredSince(db, ws, tenant);
            var kept := Delete(tenant) !in ws && tenant in db.rows;
            (tenant in after.rows <==> stored != [] || kept)
            && (tenant in after.rows ==>
                  after.rows[tenant] == Row(if stored == [] then db.rows[tenant].payload else stored[|stored| - 1],
                                            |stored| + if kept then db.rows[tenant].version else 0))
    decreases |ws|
  {
    if ws != [] {
      var earlier, w := ws[..|ws| - 1], ws[|ws| - 1];
      assert ws == earlier + [w];
      RunAppend(db, earlier, w);
      RowAfterRun(db, earlier, tenant);
      hide Run;
    }
  }

  /** Over arbitrary writes an update is lost exactly when the row was deleted, as many writes to it
      took effect since the last delete as the version that was read, and the last of them differs
      from what was read. */
  lemma LostUpdateExactly(read: Db, ws: seq<Write>, tenant: string, edited: Payload)
    requires tenant in read.rows
    ensures var stored := StoredSince(read, ws, tenant);
            LosesUpdate(read, Run(read, ws), tenant, edited)
            <==> Delete(tenant) in ws && stored != [] && |stored| == read.rows[tenant].version
                 && stored[|stored| - 1] != read.rows[tenant].payload
  {
    RowAfterRun(read, ws, tenant);
    hide Run, StoredSince;
  }

  /** A delete and rewrites lose the last of them exactly when there are as many as the version that
      was read, and the last one differs from what was read. */
  lemma DeleteDefeatsCompareAndSet(read: Db, tenant: string, payloads: seq<Payload>, edited: Payload)
    requires tenant in read.rows
    ensures LosesUpdate(read, Run(read, Rewrites(tenant, payloads)), tenant, edited)
            <==> payloads != [] && |payloads| == read.rows[tenant].version
                 && payloads[|payloads| - 1] != read.rows[tenant].payload
  {
    RewrittenRow(read, tenant, payloads);
    hide Run, Rewrites;
  }
}
