/** The SQLite store gives the results of the in-memory store, operation by operation and over
    every run: forward simulation between the table and the three dictionaries. */
module AttachmentRefinement {
  import opened Wrappers
  import opened Texts
  import opened Timestamps
  import opened Sums
  import opened AttachmentTypes
  import opened AttachmentMemory
  import Sql = AttachmentSqlite

  function ExpiryText(expiry: Option<Moment>): Option<string> {
    if expiry.Some? then Some(Iso(expiry.value)) else None
  }

  /** The row holds the record: same columns, times as text, payload recoverable. */
  ghost predicate Holds(ring: Sql.Keyring, cipher: Sql.Cipher, row: Sql.Row, k: Key, record: Record, references: nat, expiry: Option<Moment>) {
    var metadata := record.metadata;
    metadata.id == k.id && metadata.thread == k.thread
    && row.Is(k) && row.mime == metadata.mime && row.size == metadata.size && row.createdBy == metadata.createdBy
    && row.createdAt == Iso(metadata.createdAt) && Sql.DecryptRow(ring, cipher, k.id, row) == Ok(record.data)
    && row.references == Some(references) && row.expiresAt == ExpiryText(expiry)
  }

  ghost predicate RowFor(ring: Sql.Keyring, cipher: Sql.Cipher, m: Memory, t: Sql.Table, k: Key)
    requires k in m.records && k in m.references && k in m.expiries
  {
    k.id in t && Holds(ring, cipher, t[k.id], k, m.records[k], m.references[k], m.expiries[k])
  }

  function KeyOf(t: Sql.Table, id: string): Key
    requires id in t
  {
    Key(t[id].tenant, t[id].thread, id)
  }

  ghost predicate Sim(ring: Sql.Keyring, cipher: Sql.Cipher, m: Memory, t: Sql.Table) {
    m.InStep()
    && (forall k {:trigger RowFor(ring, cipher, m, t, k)} :: k in m.records ==> RowFor(ring, cipher, m, t, k))
    && (forall id {:trigger KeyOf(t, id)} :: id in t ==> KeyOf(t, id) in m.records)
  }

  lemma SimHas(ring: Sql.Keyring, cipher: Sql.Cipher, m: Memory, t: Sql.Table, k: Key)
    requires Sim(ring, cipher, m, t)
    ensures Sql.Has(t, k) <==> k in m.records
  {
    if Sql.Has(t, k) { assert KeyOf(t, k.id) == k; }
    if k in m.records { assert RowFor(ring, cipher, m, t, k); }
  }

  // ----- Corresponding sets of keys and primary keys -----

  function Ids(keys: set<Key>): set<string> {
    set k | k in keys :: k.id
  }

  lemma SimUsage(ring: Sql.Keyring, cipher: Sql.Cipher, m: Memory, t: Sql.Table, keys: set<Key>)
    requires Sim(ring, cipher, m, t) && keys <= m.records.Keys
    ensures Ids(keys) <= t.Keys
    ensures m.UsageOf(keys) == Sql.UsageOf(t, Ids(keys))
  {
    hide Holds, Total;
    forall k | k in keys ensures k.id in t && t[k.id].size == m.records[k].metadata.size && t[k.id].Is(k) {
      RowColumns(ring, cipher, m, t, k);
    }
    TotalReindex(keys, m.Sizes(), Ids(keys), Sql.Sizes(t), (k: Key) => k.id);
  }

  lemma RowColumns(ring: Sql.Keyring, cipher: Sql.Cipher, m: Memory, t: Sql.Table, k: Key)
    requires Sim(ring, cipher, m, t) && k in m.records
    ensures k.id in t && t[k.id].Is(k) && t[k.id].size == m.records[k].metadata.size
    ensures t[k.id].createdAt == Iso(m.records[k].metadata.createdAt)
    ensures t[k.id].references == Some(m.references[k]) && t[k.id].expiresAt == ExpiryText(m.expiries[k])
  {
    assert RowFor(ring, cipher, m, t, k);
  }

  lemma SimScopes(ring: Sql.Keyring, cipher: Sql.Cipher, m: Memory, t: Sql.Table, tenant: string, thread: string)
    requires Sim(ring, cipher, m, t)
    ensures Ids(m.TenantKeys(tenant)) == Sql.TenantIds(t, tenant)
    ensures Ids(m.ThreadKeys(tenant, thread)) == Sql.ThreadIds(t, tenant, thread)
  {
    hide Holds;
    forall id | id in Sql.TenantIds(t, tenant) ensures id in Ids(m.TenantKeys(tenant)) {
      assert KeyOf(t, id) in m.TenantKeys(tenant);
    }
    forall id | id in Sql.ThreadIds(t, tenant, thread) ensures id in Ids(m.ThreadKeys(tenant, thread)) {
      assert KeyOf(t, id) in m.ThreadKeys(tenant, thread);
    }
    forall k | k in m.records ensures k.id in t && t[k.id].Is(k) { RowColumns(ring, cipher, m, t, k); }
  }

  lemma SimExpired(ring: Sql.Keyring, cipher: Sql.Cipher, m: Memory, t: Sql.Table, now: Moment)
    requires Sim(ring, cipher, m, t)
    ensures Ids(m.ExpiredKeys(now)) == Sql.ExpiredIds(t, now)
  {
    hide Holds, Iso, Instant, TextAtMost;
    forall k | k in m.records
      ensures k.id in t && t[k.id].Is(k) && (k in m.ExpiredKeys(now) <==> t[k.id].Expired(Iso(now)))
    {
      RowColumns(ring, cipher, m, t, k);
      if m.expiries[k].Some? { TextOrderIsChronological(m.expiries[k].value, now); }
    }
    forall id | id in Sql.ExpiredIds(t, now) ensures id in Ids(m.ExpiredKeys(now)) {
      assert KeyOf(t, id) in m.ExpiredKeys(now);
    }
  }

  lemma SimClass(ring: Sql.Keyring, cipher: Sql.Cipher, m: Memory, t: Sql.Table, keys: set<Key>, c: Class)
    requires Sim(ring, cipher, m, t) && keys <= m.records.Keys && Ids(keys) <= t.Keys
    ensures Ids(m.InClass(keys, c)) == Sql.ClassIds(t, Ids(keys), c)
  {
    hide Holds;
    forall k | k in keys ensures k.id in t && (k in m.InClass(keys, c) <==> t[k.id].Class() == c) {
      RowColumns(ring, cipher, m, t, k);
    }
  }

  /** The least creation text is the text of the oldest creation time. */
  lemma SimOldest(ring: Sql.Keyring, cipher: Sql.Cipher, m: Memory, t: Sql.Table, keys: set<Key>)
    requires Sim(ring, cipher, m, t) && keys <= m.records.Keys && Ids(keys) <= t.Keys
    ensures Sql.LeastText(Sql.CreationTexts(t, Ids(keys))) == ExpiryText(Oldest(m.CreationTimes(keys)))
  {
    hide Holds, Iso, Instant, TextAtMost;
    var times, texts := m.CreationTimes(keys), Sql.CreationTexts(t, Ids(keys));
    forall k | k in keys ensures k.id in t && t[k.id].createdAt == Iso(m.records[k].metadata.createdAt) {
      RowColumns(ring, cipher, m, t, k);
    }
    var oldest := Oldest(times);
    if keys == {} {
      assert times == {} && texts == {};
    } else {
      var k :| k in keys;
      assert m.records[k].metadata.createdAt in times;
      var first :| first in keys && m.records[first].metadata.createdAt == oldest.value;
      assert Iso(oldest.value) in texts by { assert t[first.id].createdAt == Iso(oldest.value); assert first.id in Ids(keys); }
      forall s | s in texts ensures TextAtMost(Iso(oldest.value), s) {
        var j :| j in keys && t[j.id].createdAt == s;
        TextOrderIsChronological(oldest.value, m.records[j].metadata.createdAt);
      }
    }
    Sql.LeastTextUnique(texts, ExpiryText(oldest));
  }

  // ----- Preserving the simulation -----

  lemma SimWithout(ring: Sql.Keyring, cipher: Sql.Cipher, m: Memory, t: Sql.Table, keys: set<Key>)
    requires Sim(ring, cipher, m, t) && keys <= m.records.Keys
    ensures Sim(ring, cipher, m.Without(keys), t - Ids(keys))
  {
    hide Holds;
    var m', t' := m.Without(keys), t - Ids(keys);
    WithoutValid(m, keys);
    forall k | k in m'.records ensures RowFor(ring, cipher, m', t', k) {
      assert RowFor(ring, cipher, m, t, k);
      RowColumns(ring, cipher, m, t, k);
      if j :| j in keys && j.id == k.id { RowColumns(ring, cipher, m, t, j); }
    }
    forall id | id in t' ensures KeyOf(t', id) in m'.records {
      assert KeyOf(t, id).id == id;
    }
  }

  lemma HoldsReferences(ring: Sql.Keyring, cipher: Sql.Cipher, row: Sql.Row, k: Key, record: Record, references: nat, expiry: Option<Moment>, n: nat)
    requires Holds(ring, cipher, row, k, record, references, expiry)
    ensures Holds(ring, cipher, row.(references := Some(n)), k, record, n, expiry)
  {
    hide Iso;
  }

  lemma SimReferences(ring: Sql.Keyring, cipher: Sql.Cipher, m: Memory, t: Sql.Table, k: Key, n: nat)
    requires Sim(ring, cipher, m, t) && k in m.records && k.id in t
    ensures Sim(ring, cipher, m.(references := m.references[k := n]), t[k.id := t[k.id].(references := Some(n))])
  {
    var m', t' := m.(references := m.references[k := n]), t[k.id := t[k.id].(references := Some(n))];
    assert m'.InStep() by { assert m'.references.Keys == m.references.Keys; }
    forall j | j in m'.records ensures RowFor(ring, cipher, m', t', j) {
      RowUnderUpdate(ring, cipher, m, t, k, n, j);
    }
    forall id | id in t' ensures KeyOf(t', id) in m'.records {
      assert KeyOf(t, id) == KeyOf(t', id);
    }
  }

  lemma RowUnderUpdate(ring: Sql.Keyring, cipher: Sql.Cipher, m: Memory, t: Sql.Table, k: Key, n: nat, j: Key)
    requires Sim(ring, cipher, m, t) && k in m.records && k.id in t && j in m.records
    ensures RowFor(ring, cipher, m.(references := m.references[k := n]), t[k.id := t[k.id].(references := Some(n))], j)
  {
    RowColumns(ring, cipher, m, t, j);
    RowColumns(ring, cipher, m, t, k);
    hide Holds;
    assert RowFor(ring, cipher, m, t, j);
    if j == k {
      HoldsReferences(ring, cipher, t[k.id], k, m.records[k], m.references[k], m.expiries[k], n);
    }
  }

  lemma NewRowHolds(ring: Sql.Keyring, cipher: Sql.Cipher, u: Upload, expiry: Option<Moment>, nonce: Bytes)
    requires ring.Valid() && cipher.Lawful()
    ensures Holds(ring, cipher, Sql.NewRow(ring, cipher, u, expiry, nonce), u.key, Record(u.Describe(), u.data), 0, expiry)
  {
    hide Iso;
  }

  lemma SimInsert(ring: Sql.Keyring, cipher: Sql.Cipher, m: Memory, t: Sql.Table, u: Upload, expiry: Option<Moment>, nonce: Bytes)
    requires ring.Valid() && cipher.Lawful() && Sim(ring, cipher, m, t) && u.key.id !in t
    ensures Sim(ring, cipher,
                Memory(m.records[u.key := Record(u.Describe(), u.data)], m.references[u.key := 0], m.expiries[u.key := expiry]),
                t[u.key.id := Sql.NewRow(ring, cipher, u, expiry, nonce)])
  {
    NewRowHolds(ring, cipher, u, expiry, nonce);
    hide Holds, Sql.NewRow;
    var row := Sql.NewRow(ring, cipher, u, expiry, nonce);
    assert row.Is(u.key) by { NewRowIs(ring, cipher, u, expiry, nonce); }
    var m' := Memory(m.records[u.key := Record(u.Describe(), u.data)], m.references[u.key := 0], m.expiries[u.key := expiry]);
    var t' := t[u.key.id := row];
    forall j | j in m'.records ensures RowFor(ring, cipher, m', t', j) {
      if j != u.key {
        assert RowFor(ring, cipher, m, t, j);
      }
    }
    forall id | id in t' ensures KeyOf(t', id) in m'.records {
      if id in t { assert KeyOf(t, id) == KeyOf(t', id); } else { assert KeyOf(t', id) == u.key; }
    }
  }

  lemma NewRowIs(ring: Sql.Keyring, cipher: Sql.Cipher, u: Upload, expiry: Option<Moment>, nonce: Bytes)
    requires ring.Valid()
    ensures Sql.NewRow(ring, cipher, u, expiry, nonce).Is(u.key)
  {}

  lemma HoldsSealed(ring: Sql.Keyring, cipher: Sql.Cipher, row: Sql.Row, k: Key, record: Record, references: nat, expiry: Option<Moment>,
                    version: int, nonce: Bytes)
    requires cipher.Lawful() && version in ring.keys && Holds(ring, cipher, row, k, record, references, expiry)
    ensures Holds(ring, cipher, Sql.Sealed(ring, cipher, k.id, row, record.data, version, nonce), k, record, references, expiry)
  {
    hide Iso;
    Sql.SealedOpens(ring, cipher, k.id, row, record.data, version, nonce, ring);
  }

  lemma SimReadable(ring: Sql.Keyring, cipher: Sql.Cipher, m: Memory, t: Sql.Table, id: string)
    requires Sim(ring, cipher, m, t) && id in t
    ensures Sql.DecryptRow(ring, cipher, id, t[id]).Ok?
  {
    var k := KeyOf(t, id);
    assert RowFor(ring, cipher, m, t, k);
  }

  lemma SimRotation(ring: Sql.Keyring, cipher: Sql.Cipher, m: Memory, t: Sql.Table, nonces: string -> Bytes)
    requires ring.Valid() && cipher.Lawful() && Sim(ring, cipher, m, t)
    ensures Sim(ring, cipher, m, Sql.Rotated(ring, cipher, t, nonces).GetOr(t))
  {
    if ring.active.Some? && Sql.Rotated(ring, cipher, t, nonces).Some? {
      var version := ring.active.value;
      var t' := Sql.Rotated(ring, cipher, t, nonces).value;
      forall k | k in m.records ensures RowFor(ring, cipher, m, t', k) {
        assert RowFor(ring, cipher, m, t, k);
        HoldsSealed(ring, cipher, t[k.id], k, m.records[k], m.references[k], m.expiries[k], version, nonces(k.id));
      }
      forall id | id in t' ensures KeyOf(t', id) in m.records {
        assert KeyOf(t, id) == KeyOf(t', id);
      }
    }
  }

  // ----- One step -----

  /** The operation gives the same result on both stores and leaves them alike. */
  ghost predicate Agrees(ring: Sql.Keyring, cipher: Sql.Cipher, m: Memory, t: Sql.Table, op: Operation, nonces: string -> Bytes)
    requires ring.Valid() && m.Valid()
  {
    var (memory, table) := (Step(m, op), Sql.Step(ring, cipher, t, op, nonces));
    memory.1 == table.1 && Sim(ring, cipher, memory.0, table.0)
  }

  /** The in-memory store already has the very record, unreferenced. */
  predicate RepeatsRecord(m: Memory, u: Upload)
    requires m.Valid()
  {
    u.key in m.records && m.records[u.key] == Record(u.Describe(), u.data) && m.references[u.key] == 0
  }

  /** When a put behaves alike in both stores: with an acceptable time-to-live, if its identifier
      is new or a limit refuses it; with another, if no limit refuses it and writing it changes
      nothing. */
  ghost predicate PutAccepted(m: Memory, t: Sql.Table, u: Upload)
    requires m.Valid()
  {
    if TtlAccepted(u) then u.key.id !in t || !WithinLimits(m, u) else WithinLimits(m, u) && RepeatsRecord(m, u)
  }

  lemma SimPutUsage(ring: Sql.Keyring, cipher: Sql.Cipher, m: Memory, t: Sql.Table, k: Key)
    requires Sim(ring, cipher, m, t)
    ensures m.UsageOf(m.ThreadKeys(k.tenant, k.thread)) == Sql.UsageOf(t, Sql.ThreadIds(t, k.tenant, k.thread))
    ensures m.UsageOf(m.TenantKeys(k.tenant)) == Sql.UsageOf(t, Sql.TenantIds(t, k.tenant))
  {
    SimScopes(ring, cipher, m, t, k.tenant, k.thread);
    SimUsage(ring, cipher, m, t, m.ThreadKeys(k.tenant, k.thread));
    SimUsage(ring, cipher, m, t, m.TenantKeys(k.tenant));
  }

  lemma HeldRecord(ring: Sql.Keyring, cipher: Sql.Cipher, row: Sql.Row, k: Key, a: Record, b: Record,
                   m: nat, n: nat, x: Option<Moment>, y: Option<Moment>)
    requires Holds(ring, cipher, row, k, a, m, x) && Holds(ring, cipher, row, k, b, n, y)
    ensures a == b && m == n
  {
    TextOrderIsChronological(a.metadata.createdAt, b.metadata.createdAt);
  }

  lemma ExpiryErrors(u: Upload)
    ensures PendingExpiration(u.createdAt, u.ttl).Err? ==> !PendingExpiration(u.createdAt, u.ttl).error.LimitExceeded?
  {
  }

  /** A put whose time-to-live is refused leaves the stores alike only by changing nothing. */
  lemma RefusedPut(ring: Sql.Keyring, cipher: Sql.Cipher, m: Memory, t: Sql.Table, u: Upload)
    requires Sim(ring, cipher, m, t) && !TtlAccepted(u) && WithinLimits(m, u)
    ensures Sim(ring, cipher, PutStep(m, u).0, t) <==> RepeatsRecord(m, u)
  {
    hide Holds, BrokenLimit, PendingExpiration, RowFor;
    var k, after := u.key, PutStep(m, u).0;
    ExpiryErrors(u);
    assert after == m.(records := m.records[k := Record(u.Describe(), u.data)], references := m.references[k := 0]);
    if RepeatsRecord(m, u) {
      assert after.records == m.records && after.references == m.references;
    }
    if Sim(ring, cipher, after, t) {
      assert k in after.records && k in m.records;
      SameRow(ring, cipher, m, after, t, k);
    }
  }

  lemma SameRow(ring: Sql.Keyring, cipher: Sql.Cipher, m: Memory, n: Memory, t: Sql.Table, k: Key)
    requires Sim(ring, cipher, m, t) && Sim(ring, cipher, n, t) && k in m.records && k in n.records
    ensures k in m.references && k in n.references
    ensures m.records[k] == n.records[k] && m.references[k] == n.references[k]
  {
    assert RowFor(ring, cipher, m, t, k) && RowFor(ring, cipher, n, t, k);
    HeldRecord(ring, cipher, t[k.id], k, m.records[k], n.records[k], m.references[k], n.references[k], m.expiries[k], n.expiries[k]);
  }

  /** A put gives the same result and keeps the stores alike exactly when it is accepted. */
  lemma PutAgreesExactly(ring: Sql.Keyring, cipher: Sql.Cipher, m: Memory, t: Sql.Table, u: Upload, nonces: string -> Bytes)
    requires ring.Valid() && cipher.Lawful() && Sim(ring, cipher, m, t)
    ensures Agrees(ring, cipher, m, t, Put(u), nonces) <==> PutAccepted(m, t, u)
  {
    if TtlAccepted(u) {
      AcceptablePut(ring, cipher, m, t, u, nonces);
    } else {
      ExpiryErrors(u);
      hide Holds, Total, BrokenLimit, PendingExpiration, RowFor, Sim, RepeatsRecord;
      if WithinLimits(m, u) {
        RefusedPut(ring, cipher, m, t, u);
      }
    }
  }

  lemma AcceptablePut(ring: Sql.Keyring, cipher: Sql.Cipher, m: Memory, t: Sql.Table, u: Upload, nonces: string -> Bytes)
    requires ring.Valid() && cipher.Lawful() && Sim(ring, cipher, m, t) && TtlAccepted(u)
    ensures Agrees(ring, cipher, m, t, Put(u), nonces) <==> PutAccepted(m, t, u)
  {
    hide Sql.NewRow, Holds, Total, BrokenLimit, PendingExpiration, RowFor;
    SimPutUsage(ring, cipher, m, t, u.key);
    SimHas(ring, cipher, m, t, u.key);
    if u.key.id !in t {
      SimInsert(ring, cipher, m, t, u, PendingExpiration(u.createdAt, u.ttl).value, nonces(u.key.id));
    }
  }

  lemma ReadsAgree(ring: Sql.Keyring, cipher: Sql.Cipher, m: Memory, t: Sql.Table, op: Operation, nonces: string -> Bytes)
    requires ring.Valid() && Sim(ring, cipher, m, t)
    requires op.Get? || op.ThreadUsage? || op.TenantUsage?
    ensures Agrees(ring, cipher, m, t, op, nonces)
  {
    hide Iso, Sim, Total;
    match op
    case Get(k) =>
      SimHas(ring, cipher, m, t, k);
      if k in m.records {
        RowOf(ring, cipher, m, t, k);
        ParseIsoRoundTrip(m.records[k].metadata.createdAt);
      }
    case ThreadUsage(tenant, thread) => SimPutUsage(ring, cipher, m, t, Key(tenant, thread, ""));
    case TenantUsage(tenant) => SimPutUsage(ring, cipher, m, t, Key(tenant, "", ""));
  }

  lemma RowOf(ring: Sql.Keyring, cipher: Sql.Cipher, m: Memory, t: Sql.Table, k: Key)
    requires Sim(ring, cipher, m, t) && k in m.records
    ensures m.Valid() && k in m.references && k in m.expiries && RowFor(ring, cipher, m, t, k)
  {}

  lemma StatisticsAgree(ring: Sql.Keyring, cipher: Sql.Cipher, m: Memory, t: Sql.Table, tenant: string, nonces: string -> Bytes)
    requires ring.Valid() && Sim(ring, cipher, m, t)
    ensures Agrees(ring, cipher, m, t, ReadStatistics(tenant), nonces)
  {
    SameStatistics(ring, cipher, m, t, tenant);
    hide Sim, StatisticsStep, Sql.StatisticsStep;
  }

  lemma SameStatistics(ring: Sql.Keyring, cipher: Sql.Cipher, m: Memory, t: Sql.Table, tenant: string)
    requires Sim(ring, cipher, m, t)
    ensures StatisticsStep(m, tenant) == Sql.StatisticsStep(t, tenant)
  {
    hide Iso, RowFor, Total, Memory.UsageOf, Sql.UsageOf, Memory.InClass, Sql.ClassIds, Memory.CreationTimes, Sql.CreationTexts,
         Memory.TenantKeys, Sql.TenantIds, Ids;
    var keys := m.TenantKeys(tenant);
    SimScopes(ring, cipher, m, t, tenant, "");
    SimUsage(ring, cipher, m, t, keys);
    ClassUsage(ring, cipher, m, t, keys, Pending);
    ClassUsage(ring, cipher, m, t, keys, Referenced);
    ClassUsage(ring, cipher, m, t, keys, Exempt);
    SimOldest(ring, cipher, m, t, m.InClass(keys, Pending));
    var oldest := Oldest(m.CreationTimes(m.InClass(keys, Pending)));
    if oldest.Some? { ParseIsoRoundTrip(oldest.value); }
  }

  lemma ClassUsage(ring: Sql.Keyring, cipher: Sql.Cipher, m: Memory, t: Sql.Table, keys: set<Key>, c: Class)
    requires Sim(ring, cipher, m, t) && keys <= m.records.Keys && Ids(keys) <= t.Keys
    ensures m.InClass(keys, c) <= m.records.Keys
    ensures Ids(m.InClass(keys, c)) == Sql.ClassIds(t, Ids(keys), c) <= t.Keys
    ensures m.UsageOf(m.InClass(keys, c)) == Sql.UsageOf(t, Sql.ClassIds(t, Ids(keys), c))
  {
    hide Holds, Total, RowFor;
    SimClass(ring, cipher, m, t, keys, c);
    SimUsage(ring, cipher, m, t, m.InClass(keys, c));
  }

  /** A new reference count on both sides, when the attachment is there. */
  lemma CountsAgree(ring: Sql.Keyring, cipher: Sql.Cipher, m: Memory, t: Sql.Table, k: Key, n: nat)
    requires Sim(ring, cipher, m, t) && k in m.records
    ensures Sql.Has(t, k) && k in m.references && t[k.id].references == Some(m.references[k])
    ensures Sim(ring, cipher, m.(references := m.references[k := n]), t[k.id := t[k.id].(references := Some(n))])
  {
    SimHas(ring, cipher, m, t, k);
    RowColumns(ring, cipher, m, t, k);
    SimReferences(ring, cipher, m, t, k, n);
    hide Sim;
  }

  lemma MarkAgrees(ring: Sql.Keyring, cipher: Sql.Cipher, m: Memory, t: Sql.Table, k: Key, nonces: string -> Bytes)
    requires ring.Valid() && Sim(ring, cipher, m, t)
    ensures Agrees(ring, cipher, m, t, Mark(k), nonces)
  {
    SimHas(ring, cipher, m, t, k);
    if k in m.records { CountsAgree(ring, cipher, m, t, k, m.references[k] + 1); }
    hide Sim, Sql.Has;
  }

  lemma UnmarkAgrees(ring: Sql.Keyring, cipher: Sql.Cipher, m: Memory, t: Sql.Table, k: Key, nonces: string -> Bytes)
    requires ring.Valid() && Sim(ring, cipher, m, t)
    ensures Agrees(ring, cipher, m, t, Unmark(k), nonces)
  {
    SimHas(ring, cipher, m, t, k);
    if k in m.records {
      var n := m.references[k];
      CountsAgree(ring, cipher, m, t, k, if n > 0 then n - 1 else n);
      assert m.references[k := n] == m.references;
    }
    hide Sim, Sql.Has;
  }

  lemma DeletesAgree(ring: Sql.Keyring, cipher: Sql.Cipher, m: Memory, t: Sql.Table, op: Operation, nonces: string -> Bytes)
    requires ring.Valid() && Sim(ring, cipher, m, t)
    requires op.DeleteUnreferenced? || op.Delete?
    ensures Agrees(ring, cipher, m, t, op, nonces)
  {
    var k := op.key;
    SimHas(ring, cipher, m, t, k);
    if k in m.records {
      RowColumns(ring, cipher, m, t, k);
      SimWithout(ring, cipher, m, t, {k});
      hide Sim;
      assert Ids({k}) == {k.id};
    }
  }

  lemma RemovalsAgree(ring: Sql.Keyring, cipher: Sql.Cipher, m: Memory, t: Sql.Table, op: Operation, nonces: string -> Bytes)
    requires ring.Valid() && Sim(ring, cipher, m, t)
    requires op.Cleanup? || op.DeleteThread?
    ensures Agrees(ring, cipher, m, t, op, nonces)
  {
    hide Holds, Total, RowFor;
    match op
    case Cleanup(now) =>
      SimExpired(ring, cipher, m, t, now);
      SimUsage(ring, cipher, m, t, m.ExpiredKeys(now));
      SimWithout(ring, cipher, m, t, m.ExpiredKeys(now));
    case DeleteThread(tenant, thread) =>
      SimScopes(ring, cipher, m, t, tenant, thread);
      SimUsage(ring, cipher, m, t, m.ThreadKeys(tenant, thread));
      SimWithout(ring, cipher, m, t, m.ThreadKeys(tenant, thread));
  }

  // ----- Every run -----

  ghost predicate Accepted(ring: Sql.Keyring, m: Memory, t: Sql.Table, op: Operation)
    requires m.Valid()
  {
    (op.Put? ==> PutAccepted(m, t, op.upload)) && (op.Rotate? ==> ring.active.Some?)
  }

  /** An operation gives the same result on both stores and keeps them alike exactly when it is
      accepted: every operation but some puts, and rotation without an active key. */
  lemma StepAgrees(ring: Sql.Keyring, cipher: Sql.Cipher, m: Memory, t: Sql.Table, op: Operation, nonces: string -> Bytes)
    requires ring.Valid() && cipher.Lawful() && Sim(ring, cipher, m, t)
    ensures Agrees(ring, cipher, m, t, op, nonces) <==> Accepted(ring, m, t, op)
  {
    hide Sim, Step, Sql.Step, PutStep;
    match op
    case Put(u) => PutAgreesExactly(ring, cipher, m, t, u, nonces);
    case Get(_) => ReadsAgree(ring, cipher, m, t, op, nonces);
    case ThreadUsage(_, _) => ReadsAgree(ring, cipher, m, t, op, nonces);
    case TenantUsage(_) => ReadsAgree(ring, cipher, m, t, op, nonces);
    case ReadStatistics(tenant) => StatisticsAgree(ring, cipher, m, t, tenant, nonces);
    case Cleanup(_) => RemovalsAgree(ring, cipher, m, t, op, nonces);
    case DeleteThread(_, _) => RemovalsAgree(ring, cipher, m, t, op, nonces);
    case Rotate => RotationAgrees(ring, cipher, m, t, nonces);
    case Mark(k) => MarkAgrees(ring, cipher, m, t, k, nonces);
    case Unmark(k) => UnmarkAgrees(ring, cipher, m, t, k, nonces);
    case DeleteUnreferenced(_) => DeletesAgree(ring, cipher, m, t, op, nonces);
    case Delete(_) => DeletesAgree(ring, cipher, m, t, op, nonces);
  }

  /** Rotation is invisible in its result exactly when there is an active key. */
  lemma RotationAgrees(ring: Sql.Keyring, cipher: Sql.Cipher, m: Memory, t: Sql.Table, nonces: string -> Bytes)
    requires ring.Valid() && cipher.Lawful() && Sim(ring, cipher, m, t)
    ensures Agrees(ring, cipher, m, t, Rotate, nonces) <==> ring.active.Some?
  {
    SimRotation(ring, cipher, m, t, nonces);
    RotationSucceeds(ring, cipher, m, t, nonces);
    hide Sql.Rotated, Sim;
  }

  lemma RotationSucceeds(ring: Sql.Keyring, cipher: Sql.Cipher, m: Memory, t: Sql.Table, nonces: string -> Bytes)
    requires ring.Valid() && Sim(ring, cipher, m, t)
    ensures Sql.Rotated(ring, cipher, t, nonces).Some? <==> ring.active.Some?
  {
    forall id | id in t ensures Sql.DecryptRow(ring, cipher, id, t[id]).Ok? { SimReadable(ring, cipher, m, t, id); }
    hide Sim, Sql.DecryptRow, Sql.Sealed;
  }

  /** An operation with the randomness the SQLite store draws during it, or opening the database
      anew with other keys; `sample` is the row the startup check decrypts. */
  datatype Request =
    | Request(op: Operation, nonces: string -> Bytes)
    | Reopen(ring: Sql.Keyring, sample: string)

  ghost predicate ValidRings(requests: seq<Request>) {
    forall r :: r in requests && r.Reopen? ==> r.ring.Valid()
  }

  ghost function MemoryRun(m: Memory, requests: seq<Request>): seq<Outcome>
    requires m.Valid()
    decreases |requests|
  {
    if requests == [] then []
    else if requests[0].Reopen? then MemoryRun(m, requests[1..])
    else
      var (m', r) := Step(m, requests[0].op);
      StepValid(m, requests[0].op);
      [r] + MemoryRun(m', requests[1..])
  }

  /** The keys in use after a request: a store that fails its startup check is not used. */
  predicate Opens(cipher: Sql.Cipher, t: Sql.Table, r: Request) {
    r.Reopen? && Sql.OpensWith(r.ring, cipher, t, r.sample)
  }

  ghost function SqlAfter(ring: Sql.Keyring, cipher: Sql.Cipher, t: Sql.Table, r: Request): (after: (Sql.Keyring, Sql.Table))
    requires ring.Valid() && (r.Reopen? ==> r.ring.Valid())
    ensures after.0.Valid()
  {
    match r
    case Request(op, nonces) => (ring, Sql.Step(ring, cipher, t, op, nonces).0)
    case Reopen(other, _) => (if Opens(cipher, t, r) then other else ring, t)
  }

  ghost function SqlRun(ring: Sql.Keyring, cipher: Sql.Cipher, t: Sql.Table, requests: seq<Request>): seq<Outcome>
    requires ring.Valid() && ValidRings(requests)
    decreases |requests|
  {
    if requests == [] then []
    else
      assert requests[0] in requests;
      var (ring', t') := SqlAfter(ring, cipher, t, requests[0]);
      (if requests[0].Request? then [Sql.Step(ring, cipher, t, requests[0].op, requests[0].nonces).1] else [])
      + SqlRun(ring', cipher, t', requests[1..])
  }

  /** Every put and rotation of the run is accepted in the state it meets. */
  ghost predicate RunAccepted(ring: Sql.Keyring, cipher: Sql.Cipher, m: Memory, t: Sql.Table, requests: seq<Request>)
    requires ring.Valid() && m.Valid() && ValidRings(requests)
    decreases |requests|
  {
    requests != [] ==>
      assert requests[0] in requests;
      var (ring', t') := SqlAfter(ring, cipher, t, requests[0]);
      match requests[0]
      case Request(op, _) =>
        Accepted(ring, m, t, op) && (StepValid(m, op); RunAccepted(ring', cipher, Step(m, op).0, t', requests[1..]))
      case Reopen(_, _) => RunAccepted(ring', cipher, m, t', requests[1..])
  }

  /** The keyring has no other keys than `all`, in which a version names one key. */
  predicate KeysFrom(ring: Sql.Keyring, all: map<int, Bytes>) {
    forall v :: v in ring.keys ==> v in all && ring.keys[v] == all[v]
  }

  ghost predicate RingsFrom(requests: seq<Request>, all: map<int, Bytes>) {
    ValidRings(requests) && forall r :: r in requests && r.Reopen? ==> KeysFrom(r.ring, all)
  }

  lemma SameDecryption(ring: Sql.Keyring, other: Sql.Keyring, all: map<int, Bytes>, cipher: Sql.Cipher, id: string, row: Sql.Row)
    requires KeysFrom(ring, all) && KeysFrom(other, all) && Sql.DecryptRow(ring, cipher, id, row).Ok?
    requires row.keyVersion.Some? ==> row.keyVersion.value in other.keys
    ensures Sql.DecryptRow(other, cipher, id, row) == Sql.DecryptRow(ring, cipher, id, row)
  {
  }

  /** A store that opens with other keys holds the same contents. */
  lemma SimReopened(ring: Sql.Keyring, other: Sql.Keyring, all: map<int, Bytes>, cipher: Sql.Cipher, m: Memory, t: Sql.Table)
    requires Sim(ring, cipher, m, t) && KeysFrom(ring, all) && KeysFrom(other, all)
    requires forall id :: id in t && t[id].keyVersion.Some? ==> t[id].keyVersion.value in other.keys
    ensures Sim(other, cipher, m, t)
  {
    hide Sql.DecryptRow;
    forall k | k in m.records ensures RowFor(other, cipher, m, t, k) {
      assert RowFor(ring, cipher, m, t, k);
      SameDecryption(ring, other, all, cipher, k.id, t[k.id]);
    }
    forall id | id in t ensures KeyOf(t, id) in m.records { assert KeyOf(t, id) in m.records; }
  }

  lemma {:induction false} RunsAgree(ring: Sql.Keyring, cipher: Sql.Cipher, m: Memory, t: Sql.Table, requests: seq<Request>, all: map<int, Bytes>)
    requires ring.Valid() && cipher.Lawful() && Sim(ring, cipher, m, t)
    requires KeysFrom(ring, all) && RingsFrom(requests, all)
    requires RunAccepted(ring, cipher, m, t, requests)
    ensures MemoryRun(m, requests) == SqlRun(ring, cipher, t, requests)
    decreases |requests|
  {
    hide Step, Sql.Step, RowFor, Accepted;
    if requests != [] {
      var r := requests[0];
      assert r in requests;
      var (ring', t') := SqlAfter(ring, cipher, t, r);
      match r {
        case Request(op, nonces) =>
          StepAgrees(ring, cipher, m, t, op, nonces);
          StepValid(m, op);
          RunsAgree(ring, cipher, Step(m, op).0, t', requests[1..], all);
        case Reopen(other, _) =>
          if Opens(cipher, t, r) { SimReopened(ring, other, all, cipher, m, t); }
          RunsAgree(ring', cipher, m, t', requests[1..], all);
      }
    }
  }

  /** A condition on the requests alone: fresh identifiers and acceptable times-to-live. */
  predicate FreshPuts(requests: seq<Request>, taken: set<string>) {
    requests != [] ==>
      if requests[0].Request? && requests[0].op.Put? then
        var u := requests[0].op.upload;
        TtlAccepted(u) && u.key.id !in taken && FreshPuts(requests[1..], taken + {u.key.id})
      else FreshPuts(requests[1..], taken)
  }

  /** The keyrings of the run have an active key, if it rotates at all. */
  ghost predicate CanRotate(ring: Sql.Keyring, requests: seq<Request>) {
    (exists r :: r in requests && r.Request? && r.op.Rotate?) ==>
      ring.active.Some? && forall r :: r in requests && r.Reopen? ==> r.ring.active.Some?
  }

  lemma {:induction false} FreshPutsAccepted(ring: Sql.Keyring, cipher: Sql.Cipher, m: Memory, t: Sql.Table, requests: seq<Request>, taken: set<string>)
    requires ring.Valid() && m.Valid() && ValidRings(requests)
    requires t.Keys <= taken && FreshPuts(requests, taken) && CanRotate(ring, requests)
    ensures RunAccepted(ring, cipher, m, t, requests)
    decreases |requests|
  {
    if requests != [] {
      var r := requests[0];
      assert r in requests;
      var (ring', t') := SqlAfter(ring, cipher, t, r);
      hide Sql.Step, TtlAccepted, PutStep, WithinLimits, Opens, Step;
      match r {
        case Request(op, nonces) =>
          assert Accepted(ring, m, t, op);
          StepKeys(ring, cipher, t, op, nonces);
          StepValid(m, op);
          FreshPutsAccepted(ring', cipher, Step(m, op).0, t', requests[1..], if op.Put? then taken + {op.upload.key.id} else taken);
        case Reopen(_, _) =>
          FreshPutsAccepted(ring', cipher, m, t', requests[1..], taken);
      }
    }
  }

  lemma StepKeys(ring: Sql.Keyring, cipher: Sql.Cipher, t: Sql.Table, op: Operation, nonces: string -> Bytes)
    requires ring.Valid()
    ensures Sql.Step(ring, cipher, t, op, nonces).0.Keys <= t.Keys + (if op.Put? then {op.upload.key.id} else {})
  {
    hide Sql.NewRow, Total, BrokenLimit, PendingExpiration, Sql.Sealed, Sql.DecryptRow;
  }

  /** From an empty store, every run of requests with fresh identifiers and acceptable
      times-to-live gives the same results on both stores: with any keys, any rotations, and any
      reopening under other keyrings, as long as a key version always names the same key. */
  lemma StoresAgreeFromEmpty(ring: Sql.Keyring, cipher: Sql.Cipher, requests: seq<Request>, all: map<int, Bytes>)
    requires ring.Valid() && cipher.Lawful() && KeysFrom(ring, all) && RingsFrom(requests, all)
    requires FreshPuts(requests, {}) && CanRotate(ring, requests)
    ensures MemoryRun(Empty, requests) == SqlRun(ring, cipher, map[], requests)
  {
    FreshPutsAccepted(ring, cipher, Empty, map[], requests, {});
    RunsAgree(ring, cipher, Empty, map[], requests, all);
  }

  lemma RotatedVersions(ring: Sql.Keyring, cipher: Sql.Cipher, t: Sql.Table, nonces: string -> Bytes, id: string)
    requires ring.Valid() && Sql.Rotated(ring, cipher, t, nonces).Some? && id in t
    ensures id in Sql.Rotated(ring, cipher, t, nonces).value
    ensures Sql.Rotated(ring, cipher, t, nonces).value[id].keyVersion == ring.active
  {
  }

  /** Once rotated, a store opens with the active key alone, and is used on with the same results:
      the retired keys are never missed. */
  lemma RetiredKeysAreNotMissed(ring: Sql.Keyring, cipher: Sql.Cipher, m: Memory, t: Sql.Table, nonces: string -> Bytes, sample: string,
                                requests: seq<Request>, all: map<int, Bytes>)
    requires ring.Valid() && cipher.Lawful() && ring.active.Some? && Sim(ring, cipher, m, t)
    requires KeysFrom(ring, all) && RingsFrom(requests, all)
    requires var t' := Sql.Step(ring, cipher, t, Rotate, nonces).0;
             RunAccepted(ring.ActiveOnly(), cipher, m, t', requests)
    ensures var t' := Sql.Step(ring, cipher, t, Rotate, nonces).0;
            Sql.OpensWith(ring.ActiveOnly(), cipher, t', sample)
            && Sim(ring.ActiveOnly(), cipher, m, t')
            && SqlRun(ring.ActiveOnly(), cipher, t', requests) == MemoryRun(m, requests)
  {
    RotationSucceeds(ring, cipher, m, t, nonces);
    RotationAgrees(ring, cipher, m, t, nonces);
    var t' := Sql.Step(ring, cipher, t, Rotate, nonces).0;
    assert t' == Sql.Rotated(ring, cipher, t, nonces).value;
    forall id | id in t' ensures t'[id].keyVersion == ring.active {
      assert id in t;
      RotatedVersions(ring, cipher, t, nonces, id);
    }
    hide Sql.Rotated;
    SimReopened(ring, ring.ActiveOnly(), all, cipher, m, t');
    if sample in t' { SimReadable(ring.ActiveOnly(), cipher, m, t', sample); }
    RunsAgree(ring.ActiveOnly(), cipher, m, t', requests, all);
  }
}
