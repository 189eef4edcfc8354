/** What the attachment stores promise over every run: quotas, the accounting of statistics and
    cleanup, protection of referenced and legacy attachments, and key rotation. */
module AttachmentPolicies {
  import opened Wrappers
  import opened Timestamps
  import opened Sums
  import opened AttachmentTypes
  import opened AttachmentMemory
  import opened AttachmentRefinement
  import Sql = AttachmentSqlite

  // ----- Quotas -----

  ghost predicate UsageWithin(count: Option<int>, bytes: Option<int>, usage: Usage) {
    Fits(count, usage.count) && Fits(bytes, usage.bytes)
  }

  ghost predicate ThreadWithin(m: Memory, limits: Limits, tenant: string, thread: string) {
    UsageWithin(limits.maxPerThread, limits.maxBytesPerThread, m.UsageOf(m.ThreadKeys(tenant, thread)))
  }

  ghost predicate TenantWithin(m: Memory, limits: Limits, tenant: string) {
    UsageWithin(limits.maxPerTenant, limits.maxBytesPerTenant, m.UsageOf(m.TenantKeys(tenant)))
  }

  /** No thread and no tenant is over its count or byte limit. */
  ghost predicate WithinQuota(m: Memory, limits: Limits) {
    (forall tenant, thread :: ThreadWithin(m, limits, tenant, thread))
    && (forall tenant :: TenantWithin(m, limits, tenant))
  }

  /** Storing one record raises the usage of a set of keys by at most one record of that size. */
  lemma UsageAfterStore(m: Memory, m': Memory, k: Key, record: Record, keys: set<Key>)
    requires m'.records == m.records[k := record] && keys <= m.records.Keys
    ensures m'.UsageOf(keys - {k}) == m.UsageOf(keys - {k})
    ensures var after := m'.UsageOf(keys + {k});
            after.count <= m.UsageOf(keys).count + 1 && after.bytes <= m.UsageOf(keys).bytes + record.metadata.size
  {
    TotalAgrees(keys - {k}, m.Sizes(), m'.Sizes());
    TotalInsert(keys - {k}, m'.Sizes(), k);
    assert keys - {k} + {k} == keys + {k};
    TotalSubset(keys - {k}, keys, m.Sizes());
  }

  lemma ScopesAfterStore(m: Memory, m': Memory, k: Key, record: Record, tenant: string, thread: string)
    requires m'.records == m.records[k := record]
    ensures m'.TenantKeys(tenant) == if tenant == k.tenant then m.TenantKeys(tenant) + {k} else m.TenantKeys(tenant) - {k}
    ensures m'.ThreadKeys(tenant, thread)
            == if tenant == k.tenant && thread == k.thread then m.ThreadKeys(tenant, thread) + {k} else m.ThreadKeys(tenant, thread) - {k}
    ensures tenant != k.tenant ==> m.TenantKeys(tenant) - {k} == m.TenantKeys(tenant)
    ensures tenant != k.tenant || thread != k.thread ==> m.ThreadKeys(tenant, thread) - {k} == m.ThreadKeys(tenant, thread)
  {}

  /** Storing what `BrokenLimit` lets through keeps every tenant and every thread within limits. */
  lemma StoreKeepsScopes(m: Memory, m': Memory, u: Upload, tenant: string, thread: string)
    requires m'.records == m.records[u.key := Record(u.Describe(), u.data)]
    requires TenantWithin(m, u.limits, tenant) && ThreadWithin(m, u.limits, tenant, thread)
    requires BrokenLimit(u.limits, m.UsageOf(m.ThreadKeys(u.key.tenant, u.key.thread)), m.UsageOf(m.TenantKeys(u.key.tenant)), |u.data|).None?
    ensures TenantWithin(m', u.limits, tenant) && ThreadWithin(m', u.limits, tenant, thread)
  {
    hide Memory.TenantKeys, Memory.ThreadKeys, Memory.UsageOf, Memory.Sizes, Total;
    var record := Record(u.Describe(), u.data);
    ScopesAfterStore(m, m', u.key, record, tenant, thread);
    UsageAfterStore(m, m', u.key, record, m.TenantKeys(tenant));
    UsageAfterStore(m, m', u.key, record, m.ThreadKeys(tenant, thread));
  }

  lemma PutKeepsQuota(m: Memory, u: Upload)
    requires WithinQuota(m, u.limits)
    ensures WithinQuota(PutStep(m, u).0, u.limits)
  {
    hide PendingExpiration, BrokenLimit, TenantWithin, ThreadWithin, Memory.UsageOf;
    var m' := PutStep(m, u).0;
    if m' != m {
      forall tenant, thread
        ensures TenantWithin(m', u.limits, tenant) && ThreadWithin(m', u.limits, tenant, thread)
      {
        assert TenantWithin(m, u.limits, tenant) && ThreadWithin(m, u.limits, tenant, thread);
        StoreKeepsScopes(m, m', u, tenant, thread);
      }
      forall tenant ensures TenantWithin(m', u.limits, tenant) {
        assert ThreadWithin(m', u.limits, tenant, "");
      }
    }
  }

  lemma ShrinkingKeepsQuota(m: Memory, m': Memory, limits: Limits)
    requires WithinQuota(m, limits)
    requires forall k :: k in m'.records ==> k in m.records && m'.records[k] == m.records[k]
    ensures WithinQuota(m', limits)
  {
    forall tenant ensures TenantWithin(m', limits, tenant) {
      assert TenantWithin(m, limits, tenant);
      UsageShrinks(m, m', m.TenantKeys(tenant), m'.TenantKeys(tenant));
    }
    forall tenant, thread ensures ThreadWithin(m', limits, tenant, thread) {
      assert ThreadWithin(m, limits, tenant, thread);
      UsageShrinks(m, m', m.ThreadKeys(tenant, thread), m'.ThreadKeys(tenant, thread));
    }
  }

  lemma UsageShrinks(m: Memory, m': Memory, keys: set<Key>, keys': set<Key>)
    requires keys <= m.records.Keys && keys' <= m'.records.Keys && keys' <= keys
    requires forall k :: k in keys' ==> m'.records[k] == m.records[k]
    ensures m'.UsageOf(keys').count <= m.UsageOf(keys).count && m'.UsageOf(keys').bytes <= m.UsageOf(keys).bytes
  {
    TotalAgrees(keys', m.Sizes(), m'.Sizes());
    TotalSubset(keys', keys, m.Sizes());
  }

  lemma StepKeepsQuota(m: Memory, op: Operation, limits: Limits)
    requires m.Valid() && WithinQuota(m, limits) && (op.Put? ==> op.upload.limits == limits)
    ensures WithinQuota(Step(m, op).0, limits)
  {
    hide WithinQuota, PutStep, StatisticsStep, Memory.UsageOf;
    if op.Put? {
      PutKeepsQuota(m, op.upload);
    } else {
      ShrinkingKeepsQuota(m, Step(m, op).0, limits);
    }
  }

  ghost function Final(m: Memory, ops: seq<Operation>): (final: Memory)
    requires m.Valid()
    ensures final.Valid()
    decreases |ops|
  {
    if ops == [] then m
    else
      StepValid(m, ops[0]);
      Final(Step(m, ops[0]).0, ops[1..])
  }

  /** With fixed limits, no run takes a store over its quota. */
  lemma {:induction false} RunKeepsQuota(m: Memory, ops: seq<Operation>, limits: Limits)
    requires m.Valid() && WithinQuota(m, limits)
    requires forall op :: op in ops && op.Put? ==> op.upload.limits == limits
    ensures WithinQuota(Final(m, ops), limits)
    decreases |ops|
  {
    hide WithinQuota, Step;
    if ops != [] {
      StepValid(m, ops[0]);
      StepKeepsQuota(m, ops[0], limits);
      RunKeepsQuota(Step(m, ops[0]).0, ops[1..], limits);
    }
  }

  /** The empty store is within quota exactly when no limit is negative. */
  lemma EmptyWithinQuota(limits: Limits)
    ensures WithinQuota(Empty, limits)
            <==> Fits(limits.maxPerThread, 0) && Fits(limits.maxBytesPerThread, 0)
                 && Fits(limits.maxPerTenant, 0) && Fits(limits.maxBytesPerTenant, 0)
  {
    forall tenant, thread ensures ThreadWithin(Empty, limits, tenant, thread) <==> Fits(limits.maxPerThread, 0) && Fits(limits.maxBytesPerThread, 0) {
      assert Empty.ThreadKeys(tenant, thread) == {};
    }
    forall tenant ensures TenantWithin(Empty, limits, tenant) <==> Fits(limits.maxPerTenant, 0) && Fits(limits.maxBytesPerTenant, 0) {
      assert Empty.TenantKeys(tenant) == {};
    }
    assert ThreadWithin(Empty, limits, "", "") <==> Fits(limits.maxPerThread, 0) && Fits(limits.maxBytesPerThread, 0);
    assert TenantWithin(Empty, limits, "") <==> Fits(limits.maxPerTenant, 0) && Fits(limits.maxBytesPerTenant, 0);
    hide ThreadWithin, TenantWithin;
  }

  /** With fixed limits that are not negative, every store reached from the empty one is within
      quota. */
  lemma EveryStoreWithinQuota(ops: seq<Operation>, limits: Limits)
    requires Fits(limits.maxPerThread, 0) && Fits(limits.maxBytesPerThread, 0)
    requires Fits(limits.maxPerTenant, 0) && Fits(limits.maxBytesPerTenant, 0)
    requires forall op :: op in ops && op.Put? ==> op.upload.limits == limits
    ensures WithinQuota(Final(Empty, ops), limits)
  {
    EmptyWithinQuota(limits);
    RunKeepsQuota(Empty, ops, limits);
  }

  // ----- Which puts are refused -----

  /** The usage is over this limit. */
  predicate Exceeds(limits: Limits, thread: Usage, tenant: Usage, limit: Limit) {
    match limit
    case ThreadCount => !Fits(limits.maxPerThread, thread.count)
    case ThreadBytes => !Fits(limits.maxBytesPerThread, thread.bytes)
    case TenantCount => !Fits(limits.maxPerTenant, tenant.count)
    case TenantBytes => !Fits(limits.maxBytesPerTenant, tenant.bytes)
  }

  function Rank(limit: Limit): nat {
    match limit case ThreadCount => 0 case ThreadBytes => 1 case TenantCount => 2 case TenantBytes => 3
  }

  /** The first limit that the usage is over. */
  predicate FirstExceeded(limits: Limits, thread: Usage, tenant: Usage, limit: Limit) {
    Exceeds(limits, thread, tenant, limit)
    && forall other :: Rank(other) < Rank(limit) ==> !Exceeds(limits, thread, tenant, other)
  }

  lemma BrokenIsFirstExceeded(limits: Limits, thread: Usage, tenant: Usage, size: nat, limit: Limit)
    ensures BrokenLimit(limits, thread, tenant, size) == Some(limit)
            <==> FirstExceeded(limits, thread.Plus(size), tenant.Plus(size), limit)
  {
    assert Rank(ThreadCount) == 0 && Rank(ThreadBytes) == 1 && Rank(TenantCount) == 2 && Rank(TenantBytes) == 3;
  }

  /** The store with the record added. */
  function WithRecord(m: Memory, u: Upload): Memory {
    m.(records := m.records[u.key := Record(u.Describe(), u.data)])
  }

  lemma AddedUsage(m: Memory, u: Upload)
    requires u.key !in m.records
    ensures var after, k := WithRecord(m, u), u.key;
            after.UsageOf(after.ThreadKeys(k.tenant, k.thread)) == m.UsageOf(m.ThreadKeys(k.tenant, k.thread)).Plus(|u.data|)
            && after.UsageOf(after.TenantKeys(k.tenant)) == m.UsageOf(m.TenantKeys(k.tenant)).Plus(|u.data|)
  {
    hide Memory.TenantKeys, Memory.ThreadKeys;
    var after, k := WithRecord(m, u), u.key;
    ScopesAfterStore(m, after, k, Record(u.Describe(), u.data), k.tenant, k.thread);
    UsageWithNew(m, after, k, |u.data|, m.ThreadKeys(k.tenant, k.thread));
    UsageWithNew(m, after, k, |u.data|, m.TenantKeys(k.tenant));
  }

  lemma UsageWithNew(m: Memory, after: Memory, k: Key, size: nat, keys: set<Key>)
    requires k !in m.records && keys <= m.records.Keys && k in after.records
    requires after.records == m.records[k := after.records[k]] && after.records[k].metadata.size == size
    ensures after.UsageOf(keys + {k}) == m.UsageOf(keys).Plus(size)
  {
    TotalAgrees(keys, m.Sizes(), after.Sizes());
    TotalInsert(keys, after.Sizes(), k);
  }

  /** A put of a new key is refused with a limit exactly when the store with the record added would
      be over that limit in the record's own thread or tenant and over none before it in the order
      thread count, thread bytes, tenant count, tenant bytes; so exactly when that store would be
      over any. */
  lemma PutRefusedExactly(m: Memory, u: Upload)
    requires u.key !in m.records
    ensures var after, k := WithRecord(m, u), u.key;
            var thread, tenant := after.UsageOf(after.ThreadKeys(k.tenant, k.thread)), after.UsageOf(after.TenantKeys(k.tenant));
            (forall limit :: PutStep(m, u).1 == Failed(LimitExceeded(limit)) <==> FirstExceeded(u.limits, thread, tenant, limit))
            && (PutStep(m, u).1.Failed? && PutStep(m, u).1.error.LimitExceeded?
                <==> !(ThreadWithin(after, u.limits, k.tenant, k.thread) && TenantWithin(after, u.limits, k.tenant)))
            && (PutStep(m, u).1.Failed? && PutStep(m, u).1.error.LimitExceeded? ==> PutStep(m, u).0 == m)
  {
    var thread, tenant := m.UsageOf(m.ThreadKeys(u.key.tenant, u.key.thread)), m.UsageOf(m.TenantKeys(u.key.tenant));
    AddedUsage(m, u);
    forall limit
      ensures BrokenLimit(u.limits, thread, tenant, |u.data|) == Some(limit)
              <==> FirstExceeded(u.limits, thread.Plus(|u.data|), tenant.Plus(|u.data|), limit)
    {
      BrokenIsFirstExceeded(u.limits, thread, tenant, |u.data|, limit);
    }
    WithinIsNoneExceeded(u.limits, thread, tenant, |u.data|);
    ExpiryErrors(u);
    hide PendingExpiration, BrokenLimit, FirstExceeded, Memory.UsageOf, Memory.ThreadKeys, Memory.TenantKeys;
  }

  lemma WithinIsNoneExceeded(limits: Limits, thread: Usage, tenant: Usage, size: nat)
    ensures BrokenLimit(limits, thread, tenant, size).None?
            <==> UsageWithin(limits.maxPerThread, limits.maxBytesPerThread, thread.Plus(size))
                 && UsageWithin(limits.maxPerTenant, limits.maxBytesPerTenant, tenant.Plus(size))
  {
  }

  // ----- What a put stores -----

  /** The uploaded bytes under the uploaded description. */
  function Uploaded(u: Upload): Record {
    Record(Metadata(u.key.id, u.key.thread, u.mime, |u.data|, u.createdBy, u.createdAt), u.data)
  }

  /** When the time-to-live is refused, and with which error. */
  lemma TtlRefusedExactly(u: Upload)
    ensures PendingExpiration(u.createdAt, u.ttl) == Err(TtlNotPositive) <==> u.ttl.Some? && u.ttl.value < 1
    ensures PendingExpiration(u.createdAt, u.ttl) == Err(TimeOverflow)
            <==> u.ttl.Some? && u.ttl.value >= 1 && Instant(u.createdAt) + u.ttl.value * 1_000_000 >= EndOfTime()
  {
    hide Instant;
  }

  /** A successful put answers with the description of the upload, every get returns the upload until
      the key is put or removed, and cleanup removes it, unreferenced, exactly from its creation time
      plus its time-to-live on, and never without one. */
  lemma PutStores(m: Memory, u: Upload, now: Moment)
    requires m.Valid() && PutStep(m, u).1.Stored?
    ensures var (after, outcome) := PutStep(m, u);
            outcome == Stored(Uploaded(u).metadata) && after.Valid()
            && Step(after, Get(u.key)).1 == Found(Some(Uploaded(u)))
            && (u.key !in Step(after, Cleanup(now)).0.records
                <==> u.ttl.Some? && Instant(u.createdAt) + u.ttl.value * 1_000_000 <= Instant(now))
  {
    PutValid(m, u);
    hide Instant, Memory.UsageOf, BrokenLimit;
  }

  /** The operations after which a key may hold another record or none. */
  ghost predicate Touches(m: Memory, op: Operation, k: Key)
    requires m.Valid()
  {
    match op
    case Put(u) => u.key == k
    case Delete(j) => j == k
    case DeleteUnreferenced(j) => j == k
    case DeleteThread(tenant, thread) => k.tenant == tenant && k.thread == thread
    case Cleanup(now) => k in m.ExpiredKeys(now)
    case _ => false
  }

  lemma UntouchedStays(m: Memory, op: Operation, k: Key)
    requires m.Valid() && k in m.records && !Touches(m, op, k)
    ensures var after := Step(m, op).0; k in after.records && after.records[k] == m.records[k]
  {
    hide Memory.UsageOf, BrokenLimit, PendingExpiration, StatisticsStep, Instant;
  }

  ghost predicate NeverTouched(m: Memory, ops: seq<Operation>, k: Key)
    requires m.Valid()
    decreases |ops|
  {
    ops != [] ==> !Touches(m, ops[0], k) && (StepValid(m, ops[0]); NeverTouched(Step(m, ops[0]).0, ops[1..], k))
  }

  /** So after any run that does not put or remove the key, a get returns the upload. */
  lemma {:induction false} RunKeepsRecord(m: Memory, ops: seq<Operation>, k: Key)
    requires m.Valid() && k in m.records && NeverTouched(m, ops, k)
    ensures Step(Final(m, ops), Get(k)).1 == Found(Some(m.records[k]))
    decreases |ops|
  {
    if ops != [] {
      StepValid(m, ops[0]);
      UntouchedStays(m, ops[0], k);
      hide Step, Touches;
      RunKeepsRecord(Step(m, ops[0]).0, ops[1..], k);
    }
  }

  // ----- What each operation does to each record -----

  /** The operation removes the record. */
  predicate Drops(m: Memory, op: Operation, k: Key)
    requires m.Valid() && k in m.records
  {
    match op
    case Delete(j) => j == k
    case DeleteThread(tenant, thread) => k.tenant == tenant && k.thread == thread
    case DeleteUnreferenced(j) => j == k && m.references[k] == 0
    case Cleanup(now) =>
      m.references[k] == 0 && k in m.expiries && m.expiries[k].Some? && Instant(m.expiries[k].value) <= Instant(now)
    case _ => false
  }

  /** For every operation but a put: which records it removes, and which count a record has after it;
      all else stays. A deletion and a mark answer whether the record was there to be changed. */
  lemma OperationOnRecord(m: Memory, op: Operation, k: Key)
    requires m.Valid() && !op.Put?
    ensures var (after, outcome) := Step(m, op);
            && (k in after.records <==> k in m.records && !Drops(m, op, k))
            && (k in after.records ==>
                  k in after.references && after.records[k] == m.records[k]
                  && (k in after.expiries <==> k in m.expiries) && (k in m.expiries ==> after.expiries[k] == m.expiries[k])
                  && after.references[k]
                     == if op == Mark(k) then m.references[k] + 1
                        else if op == Unmark(k) && m.references[k] > 0 then m.references[k] - 1 else m.references[k])
            && (op == Delete(k) || op == Mark(k) || op == Unmark(k) ==> outcome == Changed(k in m.records))
            && (op == DeleteUnreferenced(k) ==> outcome == Changed(k in m.records && m.references[k] == 0))
            && (op.DeleteThread? ==> outcome == Removed(Usage(|m.ThreadKeys(op.tenant, op.thread)|, 0)))
  {
    hide Instant, Memory.UsageOf, StatisticsStep;
  }

  /** A put touches no other key, and a new record starts unreferenced. */
  lemma PutOnRecord(m: Memory, u: Upload, k: Key)
    requires m.Valid()
    ensures var after := PutStep(m, u).0;
            after.Valid()
            && (k != u.key ==>
                  (k in after.records <==> k in m.records)
                  && (k in m.records ==> after.records[k] == m.records[k] && after.references[k] == m.references[k])
                  && (k in after.expiries <==> k in m.expiries) && (k in m.expiries ==> after.expiries[k] == m.expiries[k]))
            && (PutStep(m, u).1.Stored? ==> u.key in after.references && after.references[u.key] == 0)
  {
    PutValid(m, u);
    hide BrokenLimit, PendingExpiration, Memory.UsageOf;
  }

  /** The classes: pending are the attachments that some cleanup would remove, referenced those with a
      reference, and exempt the others. */
  lemma ClassesExactly(m: Memory, keys: set<Key>, k: Key)
    requires m.Valid() && keys <= m.expiries.Keys && k in keys
    ensures k in m.InClass(keys, Pending) <==> exists now :: k in m.ExpiredKeys(now)
    ensures k in m.InClass(keys, Referenced) <==> m.references[k] > 0
    ensures k in m.InClass(keys, Exempt) <==> m.references[k] == 0 && forall now :: k !in m.ExpiredKeys(now)
  {
    hide Instant;
    if m.references[k] == 0 && m.expiries[k].Some? { assert k in m.ExpiredKeys(m.expiries[k].value); }
  }

  // ----- Accounting -----

  /** Pending, referenced and exempt attachments partition the totals. */
  lemma StatisticsPartition(m: Memory, keys: set<Key>)
    requires m.Valid() && keys <= m.expiries.Keys
    ensures var s := StatisticsOf(m, keys);
            s.total.count == s.pending.count + s.referenced.count + s.exempt.count
            && s.total.bytes == s.pending.bytes + s.referenced.bytes + s.exempt.bytes
  {
    var pending, referenced, exempt := m.InClass(keys, Pending), m.InClass(keys, Referenced), m.InClass(keys, Exempt);
    UsageSplits(m, pending, referenced);
    UsageSplits(m, pending + referenced, exempt);
    assert pending + referenced + exempt == keys;
    hide Memory.UsageOf;
  }

  /** Cleanup removes exactly the expired pending attachments and leaves every other one as it was. */
  lemma CleanupSelectsExactly(m: Memory, now: Moment, k: Key)
    requires m.Valid() && k in m.records
    ensures var m' := Step(m, Cleanup(now)).0;
            && (k !in m'.records <==>
                  k in m.expiries && m.references[k] == 0 && m.expiries[k].Some? && Instant(m.expiries[k].value) <= Instant(now))
            && (k in m'.records ==> m'.records[k] == m.records[k] && k in m'.references && m'.references[k] == m.references[k])
  {
    hide Instant, Memory.UsageOf;
  }

  /** Cleanup reports exactly the drop in the number of attachments and in bytes. */
  lemma CleanupReportsExactly(m: Memory, now: Moment)
    requires m.Valid()
    ensures var (m', r) := Step(m, Cleanup(now));
            r.Removed?
            && m.UsageOf(m.records.Keys).count == m'.UsageOf(m'.records.Keys).count + r.usage.count
            && m.UsageOf(m.records.Keys).bytes == m'.UsageOf(m'.records.Keys).bytes + r.usage.bytes
  {
    var gone := m.ExpiredKeys(now);
    WithoutUsage(m, gone);
  }

  lemma WithoutUsage(m: Memory, gone: set<Key>)
    requires gone <= m.records.Keys
    ensures var m' := m.Without(gone);
            m.UsageOf(m.records.Keys).count == m'.UsageOf(m'.records.Keys).count + m.UsageOf(gone).count
            && m.UsageOf(m.records.Keys).bytes == m'.UsageOf(m'.records.Keys).bytes + m.UsageOf(gone).bytes
  {
    hide Total, Memory.UsageOf, Memory.Sizes;
    var kept := m.records.Keys - gone;
    WithoutRecords(m, gone);
    UsageAgrees(m, m.Without(gone), kept);
    UsageSplits(m, kept, gone);
    assert kept + gone == m.records.Keys;
  }

  lemma WithoutRecords(m: Memory, gone: set<Key>)
    ensures m.Without(gone).records.Keys == m.records.Keys - gone
    ensures forall k :: k in m.Without(gone).records ==> m.Without(gone).records[k] == m.records[k]
  {}

  lemma UsageAgrees(m: Memory, m': Memory, keys: set<Key>)
    requires keys <= m.records.Keys && keys <= m'.records.Keys
    requires forall k :: k in keys ==> m'.records[k] == m.records[k]
    ensures m'.UsageOf(keys) == m.UsageOf(keys)
  {
    TotalAgrees(keys, m.Sizes(), m'.Sizes());
  }

  lemma UsageSplits(m: Memory, a: set<Key>, b: set<Key>)
    requires a !! b && a + b <= m.records.Keys
    ensures m.UsageOf(a + b) == Usage(m.UsageOf(a).count + m.UsageOf(b).count, m.UsageOf(a).bytes + m.UsageOf(b).bytes)
  {
    TotalUnion(a, b, m.Sizes());
  }

  // ----- Legacy rows -----

  /** A row from before reference counting: its count is unknown, or the sticky -1 of a mark. */
  predicate IsLegacy(row: Sql.Row) {
    row.references.None? || row.references.value < 0
  }

  /** A delete of the row, or of its thread. */
  predicate Removes(op: Operation, tenant: string, thread: string, id: string) {
    match op
    case Delete(k) => k == Key(tenant, thread, id)
    case DeleteThread(t, th) => t == tenant && th == thread
    case _ => false
  }

  predicate Marks(op: Operation, tenant: string, thread: string, id: string) {
    op.Mark? && op.key == Key(tenant, thread, id)
  }

  /** The count after an operation: the first mark makes an unknown count the sticky -1. */
  function LegacyCount(references: Option<int>, marked: bool): Option<int> {
    if references.None? && marked then Some(-1) else references
  }

  /** One operation removes a legacy row exactly when it deletes it or its thread; otherwise the row
      stays a legacy row, with the same count unless it is marked. */
  lemma LegacyStepExactly(ring: Sql.Keyring, cipher: Sql.Cipher, t: Sql.Table, op: Operation, nonces: string -> Bytes, id: string)
    requires ring.Valid() && id in t && IsLegacy(t[id])
    ensures var row, after := t[id], Sql.Step(ring, cipher, t, op, nonces).0;
            (id in after <==> !Removes(op, row.tenant, row.thread, id))
            && (id in after ==>
                  IsLegacy(after[id]) && after[id].tenant == row.tenant && after[id].thread == row.thread
                  && after[id].references == LegacyCount(row.references, Marks(op, row.tenant, row.thread, id)))
  {
    hide Sql.NewRow, Sql.DecryptRow, PendingExpiration, BrokenLimit, Total, Sql.StatisticsStep, Sql.GetStep, Iso;
  }

  ghost function SqlFinal(ring: Sql.Keyring, cipher: Sql.Cipher, t: Sql.Table, requests: seq<Request>): Sql.Table
    requires ring.Valid() && ValidRings(requests)
    decreases |requests|
  {
    if requests == [] then t
    else
      assert requests[0] in requests;
      var (ring', t') := SqlAfter(ring, cipher, t, requests[0]);
      SqlFinal(ring', cipher, t', requests[1..])
  }

  /** No legacy row is ever cleaned up: over every run of the SQLite store from any table, rotations
      and reopenings included, a legacy row is there until a delete of it or of its thread; it has
      its old count or, once marked, the sticky -1 for good; and no cleanup at any time selects it. */
  lemma {:induction false} CleanupSparesLegacyRows(
    ring: Sql.Keyring, cipher: Sql.Cipher, t: Sql.Table, requests: seq<Request>, id: string, now: Moment)
    requires ring.Valid() && ValidRings(requests) && id in t && IsLegacy(t[id])
    requires forall r :: r in requests && r.Request? ==> !Removes(r.op, t[id].tenant, t[id].thread, id)
    ensures var final := SqlFinal(ring, cipher, t, requests);
            id in final && IsLegacy(final[id]) && id !in Sql.ExpiredIds(final, now)
            && final[id].references
               == LegacyCount(t[id].references, exists r :: r in requests && r.Request? && Marks(r.op, t[id].tenant, t[id].thread, id))
    decreases |requests|
  {
    hide Sql.Step, Opens, Iso;
    if requests != [] {
      var r := requests[0];
      assert r in requests;
      if r.Request? { LegacyStepExactly(ring, cipher, t, r.op, r.nonces, id); }
      var (ring', t') := SqlAfter(ring, cipher, t, r);
      CleanupSparesLegacyRows(ring', cipher, t', requests[1..], id, now);
      hide Removes, Marks;
      assert forall q :: q in requests <==> q == r || q in requests[1..];
    }
  }

  // ----- Reference counts against the history of marks -----

  /** Marks minus unmarks of each attachment since it was stored, and the lowest value of that
      balance so far. */
  datatype History<K> = History(balance: map<K, int>, lowest: map<K, int>)

  ghost function Remember(h: History<Key>, m: Memory, op: Operation): History<Key>
    requires m.Valid()
  {
    match op
    case Put(u) =>
      if PutStep(m, u).0 == m then h else History(h.balance[u.key := 0], h.lowest[u.key := 0])
    case Mark(k) =>
      if k in m.records && k in h.balance then h.(balance := h.balance[k := h.balance[k] + 1]) else h
    case Unmark(k) =>
      if k in m.records && k in h.balance && k in h.lowest then
        var b := h.balance[k] - 1;
        History(h.balance[k := b], h.lowest[k := if b < h.lowest[k] then b else h.lowest[k]])
      else h
    case _ => h
  }

  /** The stored count is the balance above its lowest point: unmarking at zero is forgotten. */
  ghost predicate Explains(h: History<Key>, m: Memory) {
    m.Valid()
    && forall k :: k in m.records ==>
         k in h.balance && k in h.lowest && h.lowest[k] <= 0 && m.references[k] == h.balance[k] - h.lowest[k]
  }

  lemma PutExplained(h: History<Key>, m: Memory, u: Upload)
    requires Explains(h, m)
    ensures Explains(Remember(h, m, Put(u)), PutStep(m, u).0)
  {
    PutValid(m, u);
    hide BrokenLimit, PendingExpiration, Memory.UsageOf;
    var m' := PutStep(m, u).0;
    if m' != m {
      assert m'.references == m.references[u.key := 0];
      assert m'.records.Keys == m.records.Keys + {u.key};
    }
  }

  lemma StepExplained(h: History<Key>, m: Memory, op: Operation)
    requires Explains(h, m)
    ensures Explains(Remember(h, m, op), Step(m, op).0)
  {
    StepValid(m, op);
    hide PutStep, Memory.UsageOf, StatisticsStep;
    if op.Put? {
      PutExplained(h, m, op.upload);
    }
  }

  ghost function Recorded(h: History<Key>, m: Memory, ops: seq<Operation>): History<Key>
    requires m.Valid()
    decreases |ops|
  {
    if ops == [] then h
    else
      StepValid(m, ops[0]);
      Recorded(Remember(h, m, ops[0]), Step(m, ops[0]).0, ops[1..])
  }

  lemma {:induction false} RunExplained(h: History<Key>, m: Memory, ops: seq<Operation>)
    requires Explains(h, m)
    ensures Explains(Recorded(h, m, ops), Final(m, ops))
    decreases |ops|
  {
    hide Explains, Step, Remember;
    if ops != [] {
      assert m.Valid() by { ExplainsValid(h, m); }
      StepExplained(h, m, ops[0]);
      StepValid(m, ops[0]);
      RunExplained(Remember(h, m, ops[0]), Step(m, ops[0]).0, ops[1..]);
    }
  }

  lemma ExplainsValid(h: History<Key>, m: Memory)
    requires Explains(h, m)
    ensures m.Valid()
  {}

  /** After any run from the empty store, an attachment marked more often than unmarked since it
      was stored survives cleanup at any time and cannot be deleted as unreferenced. */
  lemma MarkedAttachmentsSurvive(ops: seq<Operation>, k: Key, now: Moment)
    requires k in Final(Empty, ops).records
    requires var h := Recorded(History(map[], map[]), Empty, ops); k in h.balance && h.balance[k] > 0
    ensures k in Step(Final(Empty, ops), Cleanup(now)).0.records
    ensures Step(Final(Empty, ops), DeleteUnreferenced(k)) == (Final(Empty, ops), Changed(false))
  {
    hide Final, Recorded, Instant, Memory.UsageOf;
    RunExplained(History(map[], map[]), Empty, ops);
    CleanupSelectsExactly(Final(Empty, ops), now, k);
  }

  // ----- Key rotation -----

  /** Rotation puts every row on the active version, changes no other column, and every payload
      can be read afterwards with the active key alone exactly as it could be read before. */
  lemma RotationKeepsPayloads(ring: Sql.Keyring, cipher: Sql.Cipher, t: Sql.Table, nonces: string -> Bytes, id: string)
    requires ring.Valid() && cipher.Lawful() && Sql.Rotated(ring, cipher, t, nonces).Some? && id in t
    ensures var t' := Sql.Rotated(ring, cipher, t, nonces).value;
            && t'.Keys == t.Keys
            && t'[id].keyVersion == ring.active
            && t'[id] == t[id].(data := t'[id].data, nonce := t'[id].nonce, keyVersion := ring.active)
            && Sql.DecryptRow(ring.ActiveOnly(), cipher, id, t'[id]) == Sql.DecryptRow(ring, cipher, id, t[id])
  {
    var version := ring.active.value;
    if id in Sql.StaleIds(t, version) {
      var plain := Sql.DecryptRow(ring, cipher, id, t[id]).value;
      Sql.SealedOpens(ring, cipher, id, t[id], plain, version, nonces(id), ring.ActiveOnly());
    }
  }

  /** Every `get` returns the same bytes and metadata after rotation, with the other keys retired. */
  lemma RotationIsInvisible(ring: Sql.Keyring, cipher: Sql.Cipher, t: Sql.Table, nonces: string -> Bytes, k: Key)
    requires ring.Valid() && cipher.Lawful() && Sql.Rotated(ring, cipher, t, nonces).Some?
    ensures Sql.GetStep(ring.ActiveOnly(), cipher, Sql.Rotated(ring, cipher, t, nonces).value, k) == Sql.GetStep(ring, cipher, t, k)
  {
    var t' := Sql.Rotated(ring, cipher, t, nonces).value;
    assert t'.Keys == t.Keys;
    if k.id in t {
      RotationKeepsPayloads(ring, cipher, t, nonces, k.id);
      hide Sql.Rotated, Sql.DecryptRow, ParseIso;
    }
  }

  /** After rotation the store opens with the active key alone, whichever row the startup check
      samples, exactly when that row was readable before. */
  lemma RotatedStoreReopens(ring: Sql.Keyring, cipher: Sql.Cipher, t: Sql.Table, nonces: string -> Bytes, sample: string)
    requires ring.Valid() && cipher.Lawful() && Sql.Rotated(ring, cipher, t, nonces).Some?
    ensures Sql.OpensWith(ring.ActiveOnly(), cipher, Sql.Rotated(ring, cipher, t, nonces).value, sample)
            <==> (sample in t ==> Sql.DecryptRow(ring, cipher, sample, t[sample]).Ok?)
  {
    var t' := Sql.Rotated(ring, cipher, t, nonces).value;
    forall id | id in t' ensures t'[id].keyVersion == ring.active {
      RotationKeepsPayloads(ring, cipher, t, nonces, id);
    }
    if sample in t {
      RotationKeepsPayloads(ring, cipher, t, nonces, sample);
    }
    hide Sql.Rotated, Sql.DecryptRow;
  }

  /** A second rotation finds nothing to rewrite. */
  lemma SecondRotationIsIdle(ring: Sql.Keyring, cipher: Sql.Cipher, t: Sql.Table, nonces: string -> Bytes, later: string -> Bytes)
    requires ring.Valid() && cipher.Lawful() && Sql.Rotated(ring, cipher, t, nonces).Some?
    ensures var t' := Sql.Rotated(ring, cipher, t, nonces).value;
            Sql.StaleIds(t', ring.active.value) == {} && Sql.Rotated(ring, cipher, t', later) == Some(t')
  {
    var t' := Sql.Rotated(ring, cipher, t, nonces).value;
    forall id | id in t' ensures t'[id].keyVersion == ring.active {
      RotationKeepsPayloads(ring, cipher, t, nonces, id);
    }
    assert Sql.StaleIds(t', ring.active.value) == {};
    assert Sql.Resealed(ring, cipher, t', {}, ring.active.value, later) == t';
  }

  /** Rotation fails exactly when there is no active key or some stale row cannot be decrypted. */
  lemma RotationFailsExactly(ring: Sql.Keyring, cipher: Sql.Cipher, t: Sql.Table, nonces: string -> Bytes)
    requires ring.Valid()
    ensures Sql.Rotated(ring, cipher, t, nonces).None? <==>
            ring.active.None?
            || exists id :: id in t && t[id].keyVersion != ring.active && Sql.DecryptRow(ring, cipher, id, t[id]).Err?
    ensures var (after, outcome) := Sql.RotateStep(ring, cipher, t, nonces);
            (outcome == Failed(NoActiveKey) <==> ring.active.None?)
            && (outcome == Failed(RotationAborted) <==>
                  ring.active.Some? && exists id :: id in t && t[id].keyVersion != ring.active && Sql.DecryptRow(ring, cipher, id, t[id]).Err?)
            && (outcome.Failed? ==> after == t)
  {}
}
