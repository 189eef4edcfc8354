/** Quotas and the protection of marked attachments over every run of the SQLite store, rotations and
    reopenings included, from any table. */
module AttachmentSqlPolicies {
  import opened Wrappers
  import opened Texts
  import opened Timestamps
  import opened Sums
  import opened AttachmentTypes
  import opened AttachmentRefinement
  import opened AttachmentPolicies
  import Sql = AttachmentSqlite

  // ----- Quotas -----

  ghost predicate ThreadIdsWithin(t: Sql.Table, limits: Limits, tenant: string, thread: string) {
    UsageWithin(limits.maxPerThread, limits.maxBytesPerThread, Sql.UsageOf(t, Sql.ThreadIds(t, tenant, thread)))
  }

  ghost predicate TenantIdsWithin(t: Sql.Table, limits: Limits, tenant: string) {
    UsageWithin(limits.maxPerTenant, limits.maxBytesPerTenant, Sql.UsageOf(t, Sql.TenantIds(t, tenant)))
  }

  /** No thread and no tenant of the table is over its count or byte limit. */
  ghost predicate TableWithinQuota(t: Sql.Table, limits: Limits) {
    (forall tenant, thread :: ThreadIdsWithin(t, limits, tenant, thread))
    && (forall tenant :: TenantIdsWithin(t, limits, tenant))
  }

  /** No row is new, and every row that is left has its owner and size. */
  predicate Shrinks(t: Sql.Table, after: Sql.Table) {
    forall id :: id in after ==>
      id in t && after[id].tenant == t[id].tenant && after[id].thread == t[id].thread && after[id].size == t[id].size
  }

  /** One row is new, with this key and size. */
  predicate Adds(t: Sql.Table, after: Sql.Table, k: Key, size: nat) {
    k.id !in t && k.id in after && after == t[k.id := after[k.id]] && after[k.id].Is(k) && after[k.id].size == size
  }

  /** One row is new, of an upload that breaks no limit. */
  ghost predicate Grows(t: Sql.Table, after: Sql.Table, u: Upload) {
    Adds(t, after, u.key, |u.data|)
    && BrokenLimit(u.limits, Sql.UsageOf(t, Sql.ThreadIds(t, u.key.tenant, u.key.thread)),
                   Sql.UsageOf(t, Sql.TenantIds(t, u.key.tenant)), |u.data|).None?
  }

  lemma StepGrowsOrShrinks(ring: Sql.Keyring, cipher: Sql.Cipher, t: Sql.Table, op: Operation, nonces: string -> Bytes)
    requires ring.Valid()
    ensures var after := Sql.Step(ring, cipher, t, op, nonces).0;
            Shrinks(t, after) || (op.Put? && Grows(t, after, op.upload))
  {
    hide Sql.DecryptRow, PendingExpiration, BrokenLimit, Total, Sql.StatisticsStep, Sql.GetStep, Iso;
  }

  lemma UsageShrinks(t: Sql.Table, after: Sql.Table, ids: set<string>, left: set<string>)
    requires Shrinks(t, after) && ids <= t.Keys && left <= after.Keys && left <= ids
    ensures Sql.UsageOf(after, left).count <= Sql.UsageOf(t, ids).count
    ensures Sql.UsageOf(after, left).bytes <= Sql.UsageOf(t, ids).bytes
  {
    TotalAgrees(left, Sql.Sizes(t), Sql.Sizes(after));
    TotalSubset(left, ids, Sql.Sizes(t));
  }

  lemma ShrinkingKeepsTable(t: Sql.Table, after: Sql.Table, limits: Limits)
    requires TableWithinQuota(t, limits) && Shrinks(t, after)
    ensures TableWithinQuota(after, limits)
  {
    forall tenant ensures TenantIdsWithin(after, limits, tenant) {
      assert TenantIdsWithin(t, limits, tenant);
      UsageShrinks(t, after, Sql.TenantIds(t, tenant), Sql.TenantIds(after, tenant));
    }
    forall tenant, thread ensures ThreadIdsWithin(after, limits, tenant, thread) {
      assert ThreadIdsWithin(t, limits, tenant, thread);
      UsageShrinks(t, after, Sql.ThreadIds(t, tenant, thread), Sql.ThreadIds(after, tenant, thread));
    }
  }

  /** The usage of a set of rows, with the new row if it belongs to it. */
  lemma UsageGrows(t: Sql.Table, after: Sql.Table, k: Key, size: nat, ids: set<string>)
    requires Adds(t, after, k, size) && ids <= t.Keys
    ensures Sql.UsageOf(after, ids) == Sql.UsageOf(t, ids)
    ensures Sql.UsageOf(after, ids + {k.id}) == Sql.UsageOf(t, ids).Plus(size)
  {
    TotalAgrees(ids, Sql.Sizes(t), Sql.Sizes(after));
    TotalInsert(ids, Sql.Sizes(after), k.id);
  }

  lemma GrowingTenant(t: Sql.Table, after: Sql.Table, k: Key, size: nat, tenant: string)
    requires Adds(t, after, k, size)
    ensures Sql.TenantIds(after, tenant) == if tenant == k.tenant then Sql.TenantIds(t, tenant) + {k.id} else Sql.TenantIds(t, tenant)
  {
    forall id | id in after && id != k.id ensures id in t && after[id] == t[id] {}
    hide Sql.Row.Is;
    OwnerOf(after[k.id], k);
  }

  lemma GrowingThread(t: Sql.Table, after: Sql.Table, k: Key, size: nat, tenant: string, thread: string)
    requires Adds(t, after, k, size)
    ensures Sql.ThreadIds(after, tenant, thread)
            == if tenant == k.tenant && thread == k.thread then Sql.ThreadIds(t, tenant, thread) + {k.id} else Sql.ThreadIds(t, tenant, thread)
  {
    forall id | id in after && id != k.id ensures id in t && after[id] == t[id] {}
    hide Sql.Row.Is;
    OwnerOf(after[k.id], k);
  }

  lemma OwnerOf(row: Sql.Row, k: Key)
    requires row.Is(k)
    ensures row.tenant == k.tenant && row.thread == k.thread
  {
  }

  lemma GrowingKeepsScopes(t: Sql.Table, after: Sql.Table, u: Upload, tenant: string, thread: string)
    requires Grows(t, after, u) && TenantIdsWithin(t, u.limits, tenant) && ThreadIdsWithin(t, u.limits, tenant, thread)
    ensures TenantIdsWithin(after, u.limits, tenant) && ThreadIdsWithin(after, u.limits, tenant, thread)
  {
    hide Adds, Sql.TenantIds, Sql.ThreadIds, Sql.UsageOf;
    GrowingTenant(t, after, u.key, |u.data|, tenant);
    GrowingThread(t, after, u.key, |u.data|, tenant, thread);
    UsageGrows(t, after, u.key, |u.data|, Sql.TenantIds(t, tenant));
    UsageGrows(t, after, u.key, |u.data|, Sql.ThreadIds(t, tenant, thread));
  }

  lemma StepKeepsTable(ring: Sql.Keyring, cipher: Sql.Cipher, t: Sql.Table, op: Operation, nonces: string -> Bytes, limits: Limits)
    requires ring.Valid() && TableWithinQuota(t, limits) && (op.Put? ==> op.upload.limits == limits)
    ensures TableWithinQuota(Sql.Step(ring, cipher, t, op, nonces).0, limits)
  {
    StepGrowsOrShrinks(ring, cipher, t, op, nonces);
    var after := Sql.Step(ring, cipher, t, op, nonces).0;
    hide Sql.Step, ThreadIdsWithin, TenantIdsWithin, Grows, Shrinks;
    if Shrinks(t, after) {
      ShrinkingKeepsTable(t, after, limits);
    } else {
      forall tenant, thread
        ensures TenantIdsWithin(after, limits, tenant) && ThreadIdsWithin(after, limits, tenant, thread)
      {
        assert TenantIdsWithin(t, limits, tenant) && ThreadIdsWithin(t, limits, tenant, thread);
        GrowingKeepsScopes(t, after, op.upload, tenant, thread);
      }
      forall tenant ensures TenantIdsWithin(after, limits, tenant) { assert ThreadIdsWithin(after, limits, tenant, ""); }
    }
  }

  /** With fixed limits, no run of the SQLite store takes a table over its quota. */
  lemma {:induction false} TableKeepsQuota(ring: Sql.Keyring, cipher: Sql.Cipher, t: Sql.Table, requests: seq<Request>, limits: Limits)
    requires ring.Valid() && ValidRings(requests) && TableWithinQuota(t, limits)
    requires forall r :: r in requests && r.Request? && r.op.Put? ==> r.op.upload.limits == limits
    ensures TableWithinQuota(SqlFinal(ring, cipher, t, requests), limits)
    decreases |requests|
  {
    hide Sql.Step, Opens, TableWithinQuota;
    if requests != [] {
      var r := requests[0];
      assert r in requests;
      if r.Request? { StepKeepsTable(ring, cipher, t, r.op, r.nonces, limits); }
      var (ring', t') := SqlAfter(ring, cipher, t, r);
      TableKeepsQuota(ring', cipher, t', requests[1..], limits);
    }
  }

  /** The empty table is within quota when no limit is negative, and then so is every table that is
      reached from it. */
  lemma EveryTableWithinQuota(ring: Sql.Keyring, cipher: Sql.Cipher, requests: seq<Request>, limits: Limits)
    requires ring.Valid() && ValidRings(requests)
    requires Fits(limits.maxPerThread, 0) && Fits(limits.maxBytesPerThread, 0)
    requires Fits(limits.maxPerTenant, 0) && Fits(limits.maxBytesPerTenant, 0)
    requires forall r :: r in requests && r.Request? && r.op.Put? ==> r.op.upload.limits == limits
    ensures TableWithinQuota(SqlFinal(ring, cipher, map[], requests), limits)
  {
    var t: Sql.Table := map[];
    forall tenant, thread ensures Sql.ThreadIds(t, tenant, thread) == {} && Sql.TenantIds(t, tenant) == {} {}
    assert TableWithinQuota(t, limits);
    TableKeepsQuota(ring, cipher, t, requests, limits);
  }

  // ----- Which puts are refused, and what a put stores -----

  /** With an acceptable time-to-live, a put of a new identifier is refused with a limit exactly when
      the table with the row added would be over that limit in the row's own thread or tenant and
      over none before it; so exactly when that table would be over any. */
  lemma RowRefusedExactly(ring: Sql.Keyring, cipher: Sql.Cipher, t: Sql.Table, u: Upload, nonce: Bytes)
    requires ring.Valid() && u.key.id !in t && PendingExpiration(u.createdAt, u.ttl).Ok?
    ensures var k, expiry := u.key, PendingExpiration(u.createdAt, u.ttl).value;
            var after, outcome := t[k.id := Sql.NewRow(ring, cipher, u, expiry, nonce)], Sql.PutStep(ring, cipher, t, u, nonce).1;
            var thread, tenant := Sql.UsageOf(after, Sql.ThreadIds(after, k.tenant, k.thread)), Sql.UsageOf(after, Sql.TenantIds(after, k.tenant));
            (forall limit :: outcome == Failed(LimitExceeded(limit)) <==> FirstExceeded(u.limits, thread, tenant, limit))
            && (outcome.Failed? <==> !(ThreadIdsWithin(after, u.limits, k.tenant, k.thread) && TenantIdsWithin(after, u.limits, k.tenant)))
            && (outcome.Failed? ==> Sql.PutStep(ring, cipher, t, u, nonce).0 == t)
  {
    var k, size := u.key, |u.data|;
    var after := t[k.id := Sql.NewRow(ring, cipher, u, PendingExpiration(u.createdAt, u.ttl).value, nonce)];
    assert Adds(t, after, k, size) by { NewRowShape(ring, cipher, u, PendingExpiration(u.createdAt, u.ttl).value, nonce); }
    GrowingTenant(t, after, k, size, k.tenant);
    GrowingThread(t, after, k, size, k.tenant, k.thread);
    UsageGrows(t, after, k, size, Sql.TenantIds(t, k.tenant));
    UsageGrows(t, after, k, size, Sql.ThreadIds(t, k.tenant, k.thread));
    var thread, tenant := Sql.UsageOf(t, Sql.ThreadIds(t, k.tenant, k.thread)), Sql.UsageOf(t, Sql.TenantIds(t, k.tenant));
    hide Adds, Sql.ThreadIds, Sql.TenantIds, Sql.UsageOf, Sql.NewRow, FirstExceeded, BrokenLimit;
    forall limit
      ensures BrokenLimit(u.limits, thread, tenant, size) == Some(limit)
              <==> FirstExceeded(u.limits, thread.Plus(size), tenant.Plus(size), limit)
    {
      BrokenIsFirstExceeded(u.limits, thread, tenant, size, limit);
    }
    WithinIsNoneExceeded(u.limits, thread, tenant, size);
  }

  lemma NewRowShape(ring: Sql.Keyring, cipher: Sql.Cipher, u: Upload, expiry: Option<Moment>, nonce: Bytes)
    requires ring.Valid()
    ensures var row := Sql.NewRow(ring, cipher, u, expiry, nonce);
            row.Is(u.key) && row.size == |u.data| && row.references == Some(0) && row.expiresAt == ExpiryText(expiry)
  {
    hide Iso;
  }

  /** A successful put answers with the description of the upload, the next get returns the upload,
      and cleanup removes it, unreferenced, exactly from its creation time plus its time-to-live on,
      and never without one. */
  lemma PutStoresRow(ring: Sql.Keyring, cipher: Sql.Cipher, t: Sql.Table, u: Upload, nonces: string -> Bytes, now: Moment)
    requires ring.Valid() && cipher.Lawful() && Sql.Step(ring, cipher, t, Put(u), nonces).1.Stored?
    ensures var (after, outcome) := Sql.Step(ring, cipher, t, Put(u), nonces);
            outcome == Stored(Uploaded(u).metadata)
            && Sql.Step(ring, cipher, after, Get(u.key), nonces).1 == Found(Some(Uploaded(u)))
            && (u.key.id !in Sql.Step(ring, cipher, after, Cleanup(now), nonces).0
                <==> u.ttl.Some? && Instant(u.createdAt) + u.ttl.value * 1_000_000 <= Instant(now))
  {
    StepsOf(ring, cipher, t, u, nonces);
    StoredPut(ring, cipher, t, u, nonces(u.key.id));
    hide PendingExpiration, Sql.NewRow, Sql.Step, Sql.PutStep, Holds, Iso, Instant, Sql.GetStep;
    var expiry := PendingExpiration(u.createdAt, u.ttl).value;
    var row := Sql.NewRow(ring, cipher, u, expiry, nonces(u.key.id));
    NewRowHolds(ring, cipher, u, expiry, nonces(u.key.id));
    NewRowShape(ring, cipher, u, expiry, nonces(u.key.id));
    HeldRowIsFound(ring, cipher, t[u.key.id := row], u.key, Uploaded(u), 0, expiry);
    FreshRowExpires(row, u, expiry, now);
    CleanupRemoves(ring, cipher, t[u.key.id := row], u.key.id, nonces, now);
    hide Sql.Row.Expired;
    StepsOf(ring, cipher, t[u.key.id := row], u, nonces);
  }

  lemma StepsOf(ring: Sql.Keyring, cipher: Sql.Cipher, t: Sql.Table, u: Upload, nonces: string -> Bytes)
    requires ring.Valid()
    ensures Sql.Step(ring, cipher, t, Put(u), nonces) == Sql.PutStep(ring, cipher, t, u, nonces(u.key.id))
    ensures Sql.Step(ring, cipher, t, Get(u.key), nonces).1 == Sql.GetStep(ring, cipher, t, u.key)
  {
    hide Sql.PutStep, Sql.GetStep;
  }

  lemma CleanupRemoves(ring: Sql.Keyring, cipher: Sql.Cipher, t: Sql.Table, id: string, nonces: string -> Bytes, now: Moment)
    requires ring.Valid() && id in t
    ensures id !in Sql.Step(ring, cipher, t, Cleanup(now), nonces).0 <==> t[id].Expired(Iso(now))
  {
    hide Sql.Row.Expired, Iso, Sql.UsageOf;
  }

  lemma StoredPut(ring: Sql.Keyring, cipher: Sql.Cipher, t: Sql.Table, u: Upload, nonce: Bytes)
    requires ring.Valid() && Sql.PutStep(ring, cipher, t, u, nonce).1.Stored?
    ensures PendingExpiration(u.createdAt, u.ttl).Ok?
    ensures Sql.PutStep(ring, cipher, t, u, nonce)
            == (t[u.key.id := Sql.NewRow(ring, cipher, u, PendingExpiration(u.createdAt, u.ttl).value, nonce)], Stored(u.Describe()))
  {
    hide PendingExpiration, Sql.NewRow, Sql.UsageOf, BrokenLimit;
  }

  lemma HeldRowIsFound(ring: Sql.Keyring, cipher: Sql.Cipher, t: Sql.Table, k: Key, record: Record, references: nat, expiry: Option<Moment>)
    requires k.id in t && Holds(ring, cipher, t[k.id], k, record, references, expiry)
    ensures Sql.GetStep(ring, cipher, t, k) == Found(Some(record))
  {
    ParseIsoRoundTrip(record.metadata.createdAt);
    hide Iso, ParseIso, Sql.DecryptRow;
  }

  lemma FreshRowExpires(row: Sql.Row, u: Upload, expiry: Option<Moment>, now: Moment)
    requires row.references == Some(0) && row.expiresAt == ExpiryText(expiry) && PendingExpiration(u.createdAt, u.ttl) == Ok(expiry)
    ensures row.Expired(Iso(now)) <==> u.ttl.Some? && Instant(u.createdAt) + u.ttl.value * 1_000_000 <= Instant(now)
  {
    if expiry.Some? { TextOrderIsChronological(expiry.value, now); }
    hide Iso, Instant, TextAtMost;
  }

  // ----- Reference counts against the history of marks -----

  /** A history of the rows of a table that is opened: known counts are balances, none below zero. */
  function HistoryOf(t: Sql.Table): History<string> {
    History(map id | id in t && !IsLegacy(t[id]) :: t[id].references.value, map id | id in t && !IsLegacy(t[id]) :: 0)
  }

  ghost function RememberRow(h: History<string>, ring: Sql.Keyring, cipher: Sql.Cipher, t: Sql.Table, r: Request): History<string>
    requires ring.Valid()
  {
    if r.Reopen? then h
    else
      match r.op
      case Put(u) =>
        if Sql.Step(ring, cipher, t, r.op, r.nonces).0 == t then h else History(h.balance[u.key.id := 0], h.lowest[u.key.id := 0])
      case Mark(k) =>
        if Sql.Has(t, k) && k.id in h.balance then h.(balance := h.balance[k.id := h.balance[k.id] + 1]) else h
      case Unmark(k) =>
        if Sql.Has(t, k) && k.id in h.balance && k.id in h.lowest then
          var b := h.balance[k.id] - 1;
          History(h.balance[k.id := b], h.lowest[k.id := if b < h.lowest[k.id] then b else h.lowest[k.id]])
        else h
      case _ => h
  }

  /** The count of a row is its balance above the lowest point of that balance, or it is a legacy row. */
  predicate ExplainsRow(h: History<string>, t: Sql.Table, id: string)
    requires id in t
  {
    IsLegacy(t[id])
    || (id in h.balance && id in h.lowest && h.lowest[id] <= 0 && t[id].references == Some(h.balance[id] - h.lowest[id]))
  }

  predicate ExplainsTable(h: History<string>, t: Sql.Table) {
    forall id :: id in t ==> ExplainsRow(h, t, id)
  }

  /** The count of a row after an operation that leaves it. */
  function CountAfter(t: Sql.Table, op: Operation, id: string): Option<int> {
    if id !in t then Some(0)
    else if op.Mark? && id == op.key.id && Sql.Has(t, op.key) then Sql.Marked(t[id].references)
    else if op.Unmark? && id == op.key.id && Sql.Has(t, op.key) then Sql.Unmarked(t[id].references)
    else t[id].references
  }

  lemma StepCounts(ring: Sql.Keyring, cipher: Sql.Cipher, t: Sql.Table, op: Operation, nonces: string -> Bytes, id: string)
    requires ring.Valid() && id in Sql.Step(ring, cipher, t, op, nonces).0
    ensures Sql.Step(ring, cipher, t, op, nonces).0[id].references == CountAfter(t, op, id)
    ensures id !in t ==> op.Put? && id == op.upload.key.id
    ensures op.Put? && id == op.upload.key.id && id in t ==> Sql.Step(ring, cipher, t, op, nonces).0 == t
  {
    hide Sql.DecryptRow, PendingExpiration, BrokenLimit, Total, Sql.StatisticsStep, Sql.GetStep, Iso, Sql.UsageOf;
  }

  lemma StepExplainsRow(h: History<string>, ring: Sql.Keyring, cipher: Sql.Cipher, t: Sql.Table, r: Request, id: string)
    requires ring.Valid() && ExplainsTable(h, t) && r.Request?
    requires id in Sql.Step(ring, cipher, t, r.op, r.nonces).0
    ensures ExplainsRow(RememberRow(h, ring, cipher, t, r), Sql.Step(ring, cipher, t, r.op, r.nonces).0, id)
  {
    StepCounts(ring, cipher, t, r.op, r.nonces, id);
    hide Sql.Step, ExplainsTable;
    if id in t {
      assert ExplainsRow(h, t, id) by { RowExplained(h, t, id); }
    }
  }

  lemma RowExplained(h: History<string>, t: Sql.Table, id: string)
    requires ExplainsTable(h, t) && id in t
    ensures ExplainsRow(h, t, id)
  {
  }

  ghost function RecordedRows(h: History<string>, ring: Sql.Keyring, cipher: Sql.Cipher, t: Sql.Table, requests: seq<Request>): History<string>
    requires ring.Valid() && ValidRings(requests)
    decreases |requests|
  {
    if requests == [] then h
    else
      assert requests[0] in requests;
      var (ring', t') := SqlAfter(ring, cipher, t, requests[0]);
      RecordedRows(RememberRow(h, ring, cipher, t, requests[0]), ring', cipher, t', requests[1..])
  }

  lemma {:induction false} RunExplainsRows(h: History<string>, ring: Sql.Keyring, cipher: Sql.Cipher, t: Sql.Table, requests: seq<Request>)
    requires ring.Valid() && ValidRings(requests) && ExplainsTable(h, t)
    ensures ExplainsTable(RecordedRows(h, ring, cipher, t, requests), SqlFinal(ring, cipher, t, requests))
    decreases |requests|
  {
    hide Sql.Step, Opens, ExplainsRow;
    if requests != [] {
      var r := requests[0];
      assert r in requests;
      var h' := RememberRow(h, ring, cipher, t, r);
      var (ring', t') := SqlAfter(ring, cipher, t, r);
      forall id | id in t' ensures ExplainsRow(h', t', id) {
        if r.Request? { StepExplainsRow(h, ring, cipher, t, r, id); } else { assert ExplainsRow(h, t, id); }
      }
      hide RememberRow;
      RunExplainsRows(h', ring', cipher, t', requests[1..]);
    }
  }

  /** After any run of the SQLite store from any table, the count of a row that is not a legacy row is
      its marks minus its unmarks, since it was stored or on top of the count it was opened with,
      above the lowest point of that balance. */
  lemma CountsFollowMarks(ring: Sql.Keyring, cipher: Sql.Cipher, t: Sql.Table, requests: seq<Request>, id: string)
    requires ring.Valid() && ValidRings(requests)
    requires id in SqlFinal(ring, cipher, t, requests) && !IsLegacy(SqlFinal(ring, cipher, t, requests)[id])
    ensures var h, row := RecordedRows(HistoryOf(t), ring, cipher, t, requests), SqlFinal(ring, cipher, t, requests)[id];
            id in h.balance && id in h.lowest && h.lowest[id] <= 0 && row.references == Some(h.balance[id] - h.lowest[id])
  {
    OpenedExplained(t);
    hide SqlFinal, RecordedRows, HistoryOf, ExplainsTable;
    RunExplainsRows(HistoryOf(t), ring, cipher, t, requests);
    RowExplained(RecordedRows(HistoryOf(t), ring, cipher, t, requests), SqlFinal(ring, cipher, t, requests), id);
  }

  lemma OpenedExplained(t: Sql.Table)
    ensures ExplainsTable(HistoryOf(t), t)
  {
  }

  lemma UsedRowSurvives(ring: Sql.Keyring, cipher: Sql.Cipher, t: Sql.Table, k: Key, now: Moment, nonces: string -> Bytes)
    requires ring.Valid() && k.id in t && t[k.id].references != Some(0)
    ensures k.id in Sql.Step(ring, cipher, t, Cleanup(now), nonces).0
    ensures Sql.Step(ring, cipher, t, DeleteUnreferenced(k), nonces) == (t, Changed(false))
  {
    hide Iso, Sql.UsageOf;
  }

  lemma NoLegacyStep(ring: Sql.Keyring, cipher: Sql.Cipher, t: Sql.Table, op: Operation, nonces: string -> Bytes, id: string)
    requires ring.Valid() && id in Sql.Step(ring, cipher, t, op, nonces).0 && IsLegacy(Sql.Step(ring, cipher, t, op, nonces).0[id])
    ensures id in t && IsLegacy(t[id])
  {
    StepCounts(ring, cipher, t, op, nonces, id);
    hide Sql.Step;
  }

  /** No run makes a row a legacy row: a legacy row was one when the table was opened. */
  lemma {:induction false} NoNewLegacyRows(ring: Sql.Keyring, cipher: Sql.Cipher, t: Sql.Table, requests: seq<Request>, id: string)
    requires ring.Valid() && ValidRings(requests)
    requires id in SqlFinal(ring, cipher, t, requests) && IsLegacy(SqlFinal(ring, cipher, t, requests)[id])
    ensures id in t && IsLegacy(t[id])
    decreases |requests|
  {
    hide Sql.Step, Opens;
    if requests != [] {
      var r := requests[0];
      assert r in requests;
      var (ring', t') := SqlAfter(ring, cipher, t, r);
      NoNewLegacyRows(ring', cipher, t', requests[1..], id);
      if r.Request? { NoLegacyStep(ring, cipher, t, r.op, r.nonces, id); }
    }
  }

  /** So an attachment marked more often than unmarked survives cleanup at any time and cannot be
      deleted as unreferenced. */
  lemma MarkedRowsSurvive(ring: Sql.Keyring, cipher: Sql.Cipher, t: Sql.Table, requests: seq<Request>, k: Key, now: Moment, nonces: string -> Bytes)
    requires ring.Valid() && ValidRings(requests) && k.id in SqlFinal(ring, cipher, t, requests)
    requires var h := RecordedRows(HistoryOf(t), ring, cipher, t, requests); k.id in h.balance && h.balance[k.id] > 0
    ensures var final := SqlFinal(ring, cipher, t, requests);
            k.id in Sql.Step(ring, cipher, final, Cleanup(now), nonces).0
            && Sql.Step(ring, cipher, final, DeleteUnreferenced(k), nonces) == (final, Changed(false))
  {
    var final := SqlFinal(ring, cipher, t, requests);
    if !IsLegacy(final[k.id]) { CountsFollowMarks(ring, cipher, t, requests, k.id); }
    hide SqlFinal, RecordedRows, HistoryOf, Sql.Step;
    UsedRowSurvives(ring, cipher, final, k, now, nonces);
  }

  // ----- Classes of rows, and keyrings -----

  /** The classes of the statistics query: pending are the rows that some cleanup would remove,
      referenced those with a positive count, and exempt the others, legacy rows among them. */
  lemma RowClassesExactly(t: Sql.Table, id: string)
    requires id in t && (t[id].expiresAt.Some? ==> exists m: Moment :: t[id].expiresAt == Some(Iso(m)))
    ensures t[id].Class() == Pending <==> exists now :: id in Sql.ExpiredIds(t, now)
    ensures t[id].Class() == Referenced <==> t[id].references.Some? && t[id].references.value > 0
    ensures IsLegacy(t[id]) ==> t[id].Class() == Exempt
  {
    if t[id].references == Some(0) && t[id].expiresAt.Some? {
      var m: Moment :| t[id].expiresAt == Some(Iso(m));
      TextOrderIsChronological(m, m);
      hide Iso, TextLess;
      assert id in Sql.ExpiredIds(t, m);
    }
    hide Iso;
  }

  /** The keys are accepted exactly when every version is positive, every key has 32 bytes, and the
      active key does not contradict another under its version; they are then all there is. */
  lemma KeyringBuiltExactly(encryptionKey: Option<Bytes>, keyVersion: int, others: map<int, Bytes>)
    ensures var r := Sql.BuildKeyring(encryptionKey, keyVersion, others);
            (r.Ok? <==>
               (forall v :: v in others ==> v >= 1 && |others[v]| == 32)
               && (encryptionKey.Some? ==>
                     keyVersion >= 1 && |encryptionKey.value| == 32 && (keyVersion in others ==> others[keyVersion] == encryptionKey.value)))
            && (r.Ok? ==>
                  r.value.active == (if encryptionKey.Some? then Some(keyVersion) else None)
                  && (forall v :: v in r.value.keys <==> v in others || (encryptionKey.Some? && v == keyVersion))
                  && (forall v :: v in others ==> r.value.keys[v] == others[v])
                  && (encryptionKey.Some? ==> r.value.keys[keyVersion] == encryptionKey.value))
  {
    if encryptionKey.Some? {
      var keys := others[keyVersion := encryptionKey.value];
      assert forall v :: v in others && v != keyVersion ==> keys[v] == others[v];
    }
  }

  /** A store does not open without the key of a version in use, and opens with all of them when the
      sampled row can be read. */
  lemma OpensExactly(ring: Sql.Keyring, cipher: Sql.Cipher, t: Sql.Table, sample: string)
    requires sample in t && t[sample].keyVersion.Some?
    ensures Sql.OpensWith(ring, cipher, t, sample)
            <==> (forall id :: id in t && t[id].keyVersion.Some? ==> t[id].keyVersion.value in ring.keys)
                 && exists plain :: Sql.DecryptRow(ring, cipher, sample, t[sample]) == Ok(plain)
  {
    if Sql.DecryptRow(ring, cipher, sample, t[sample]).Ok? {
      assert Sql.DecryptRow(ring, cipher, sample, t[sample]) == Ok(Sql.DecryptRow(ring, cipher, sample, t[sample]).value);
    }
  }

  // ----- Rotation after any run -----

  /** Every payload can be read with the keyring. */
  predicate Opened(ring: Sql.Keyring, cipher: Sql.Cipher, t: Sql.Table) {
    forall id :: id in t ==> Sql.DecryptRow(ring, cipher, id, t[id]).Ok?
  }

  ghost function RingFinal(ring: Sql.Keyring, cipher: Sql.Cipher, t: Sql.Table, requests: seq<Request>): (final: Sql.Keyring)
    requires ring.Valid() && ValidRings(requests)
    ensures final.Valid()
    decreases |requests|
  {
    if requests == [] then ring
    else
      assert requests[0] in requests;
      var (ring', t') := SqlAfter(ring, cipher, t, requests[0]);
      RingFinal(ring', cipher, t', requests[1..])
  }

  lemma StepKeepsOpened(ring: Sql.Keyring, cipher: Sql.Cipher, t: Sql.Table, op: Operation, nonces: string -> Bytes, id: string)
    requires ring.Valid() && cipher.Lawful() && Opened(ring, cipher, t) && id in Sql.Step(ring, cipher, t, op, nonces).0
    ensures Sql.DecryptRow(ring, cipher, id, Sql.Step(ring, cipher, t, op, nonces).0[id]).Ok?
  {
    hide PendingExpiration, BrokenLimit, Total, Sql.StatisticsStep, Sql.GetStep, Iso, Sql.UsageOf;
  }

  lemma ReopenedStays(ring: Sql.Keyring, cipher: Sql.Cipher, t: Sql.Table, r: Request, all: map<int, Bytes>)
    requires Opened(ring, cipher, t) && KeysFrom(ring, all) && r.Reopen? && KeysFrom(r.ring, all) && Opens(cipher, t, r)
    ensures Opened(r.ring, cipher, t)
  {
    forall id | id in t ensures Sql.DecryptRow(r.ring, cipher, id, t[id]).Ok? {
      SameDecryption(ring, r.ring, all, cipher, id, t[id]);
    }
  }

  lemma {:induction false} RunKeepsOpened(ring: Sql.Keyring, cipher: Sql.Cipher, t: Sql.Table, requests: seq<Request>, all: map<int, Bytes>)
    requires ring.Valid() && cipher.Lawful() && Opened(ring, cipher, t) && KeysFrom(ring, all) && RingsFrom(requests, all)
    ensures Opened(RingFinal(ring, cipher, t, requests), cipher, SqlFinal(ring, cipher, t, requests))
    decreases |requests|
  {
    hide Sql.Step, Opens, Sql.DecryptRow, Sql.Cipher.Lawful;
    if requests != [] {
      var r := requests[0];
      assert r in requests;
      var (ring', t') := SqlAfter(ring, cipher, t, r);
      if r.Request? {
        forall id | id in t' ensures Sql.DecryptRow(ring, cipher, id, t'[id]).Ok? {
          StepKeepsOpened(ring, cipher, t, r.op, r.nonces, id);
        }
      } else if Opens(cipher, t, r) {
        ReopenedStays(ring, cipher, t, r, all);
      }
      RunKeepsOpened(ring', cipher, t', requests[1..], all);
    }
  }

  /** As long as a key version names one key, the startup check is enough: from a table that can be
      read, the empty one included, after any run with any rotations and reopenings, every payload
      can be read, so a rotation fails exactly when there is no active key. */
  lemma EveryRotationSucceeds(ring: Sql.Keyring, cipher: Sql.Cipher, t: Sql.Table, requests: seq<Request>, all: map<int, Bytes>,
                              nonces: string -> Bytes)
    requires ring.Valid() && cipher.Lawful() && Opened(ring, cipher, t) && KeysFrom(ring, all) && RingsFrom(requests, all)
    ensures var ring', t' := RingFinal(ring, cipher, t, requests), SqlFinal(ring, cipher, t, requests);
            Opened(ring', cipher, t') && (Sql.Rotated(ring', cipher, t', nonces).Some? <==> ring'.active.Some?)
  {
    RunKeepsOpened(ring, cipher, t, requests, all);
    hide SqlFinal, RingFinal, Sql.DecryptRow, Sql.Sealed;
  }
}
