/** The in-memory attachment store: three dictionaries under one lock. */
module AttachmentMemory {
  import opened Wrappers
  import opened Timestamps
  import opened Sums
  import opened AttachmentTypes

  /** The contents of the three dictionaries. */
  datatype Memory = Memory(
    records: map<Key, Record>, references: map<Key, nat>, expiries: map<Key, Option<Moment>>)
  {
    /** What the constructor establishes and every operation keeps. */
    ghost predicate Valid() {
      references.Keys == records.Keys && expiries.Keys <= records.Keys
    }

    /** The three dictionaries share one key set. */
    ghost predicate InStep() {
      references.Keys == records.Keys && expiries.Keys == records.Keys
    }

    function Sizes(): map<Key, nat> {
      map k | k in records :: records[k].metadata.size
    }

    function ThreadKeys(tenant: string, thread: string): (keys: set<Key>)
      ensures keys <= records.Keys
    {
      set k | k in records && k.tenant == tenant && k.thread == thread
    }

    function TenantKeys(tenant: string): (keys: set<Key>)
      ensures keys <= records.Keys
    {
      set k | k in records && k.tenant == tenant
    }

    function ExpiredKeys(now: Moment): (keys: set<Key>)
      requires expiries.Keys <= references.Keys
      ensures keys <= expiries.Keys
    {
      set k | k in expiries && references[k] == 0 && expiries[k].Some? && Instant(expiries[k].value) <= Instant(now)
    }

    ghost function UsageOf(keys: set<Key>): Usage
      requires keys <= records.Keys
    {
      Usage(|keys|, Total(keys, Sizes()))
    }

    function Without(keys: set<Key>): Memory {
      Memory(records - keys, references - keys, expiries - keys)
    }

    /** The keys that statistics count in class `c`. */
    function InClass(keys: set<Key>, c: Class): (chosen: set<Key>)
      requires keys <= references.Keys && keys <= expiries.Keys
      ensures chosen <= keys
    {
      set k | k in keys && Classify(references[k], expiries[k].Some?) == c
    }

    function CreationTimes(keys: set<Key>): set<Moment>
      requires keys <= records.Keys
    {
      set k | k in keys :: records[k].metadata.createdAt
    }
  }

  const Empty: Memory := Memory(map[], map[], map[])

  // ----- The operations as functions of the contents -----

  ghost function PutStep(m: Memory, u: Upload): (Memory, Outcome) {
    var thread, tenant := m.UsageOf(m.ThreadKeys(u.key.tenant, u.key.thread)), m.UsageOf(m.TenantKeys(u.key.tenant));
    match BrokenLimit(u.limits, thread, tenant, |u.data|)
    case Some(limit) => (m, Failed(LimitExceeded(limit)))
    case None =>
      // The record and its count are written before the expiry is computed, which may fail.
      var written := m.(records := m.records[u.key := Record(u.Describe(), u.data)],
                        references := m.references[u.key := 0]);
      match PendingExpiration(u.createdAt, u.ttl)
      case Err(error) => (written, Failed(error))
      case Ok(expiry) => (written.(expiries := m.expiries[u.key := expiry]), Stored(u.Describe()))
  }

  ghost function StatisticsOf(m: Memory, keys: set<Key>): Statistics
    requires m.Valid() && keys <= m.expiries.Keys
  {
    Statistics(
      m.UsageOf(keys), m.UsageOf(m.InClass(keys, Pending)), m.UsageOf(m.InClass(keys, Referenced)),
      m.UsageOf(m.InClass(keys, Exempt)), Oldest(m.CreationTimes(m.InClass(keys, Pending))))
  }

  ghost function StatisticsStep(m: Memory, tenant: string): Outcome
    requires m.Valid()
  {
    var keys := m.TenantKeys(tenant);
    if !(keys <= m.expiries.Keys) then Failed(MissingExpiry)
    else
      Counted(StatisticsOf(m, keys))
  }

  /** One operation: the contents after it and what it returns. Rotation does not exist here. */
  ghost function Step(m: Memory, op: Operation): (Memory, Outcome)
    requires m.Valid()
  {
    match op
    case Put(u) => PutStep(m, u)
    case Get(k) => (m, Found(if k in m.records then Some(m.records[k]) else None))
    case ThreadUsage(tenant, thread) => (m, Used(m.UsageOf(m.ThreadKeys(tenant, thread))))
    case TenantUsage(tenant) => (m, Used(m.UsageOf(m.TenantKeys(tenant))))
    case Mark(k) =>
      if k !in m.records then (m, Changed(false))
      else (m.(references := m.references[k := m.references[k] + 1]), Changed(true))
    case Unmark(k) =>
      if k !in m.records then (m, Changed(false))
      else if m.references[k] > 0 then (m.(references := m.references[k := m.references[k] - 1]), Changed(true))
      else (m, Changed(true))
    case DeleteUnreferenced(k) =>
      if k !in m.records || m.references[k] != 0 then (m, Changed(false)) else (m.Without({k}), Changed(true))
    case Cleanup(now) => (m.Without(m.ExpiredKeys(now)), Removed(m.UsageOf(m.ExpiredKeys(now))))
    case ReadStatistics(tenant) => (m, StatisticsStep(m, tenant))
    case Delete(k) => if k !in m.records then (m, Changed(false)) else (m.Without({k}), Changed(true))
    case DeleteThread(tenant, thread) =>
      var keys := m.ThreadKeys(tenant, thread);
      (m.Without(keys), Removed(Usage(|keys|, 0)))
    case Rotate => (m, Maintained)
  }

  lemma WithoutValid(m: Memory, keys: set<Key>)
    requires m.Valid()
    ensures m.Without(keys).Valid()
    ensures m.InStep() ==> m.Without(keys).InStep()
  {
    var rest := m.Without(keys);
    assert rest.records.Keys == m.records.Keys - keys;
    assert rest.references.Keys == m.references.Keys - keys;
    assert rest.expiries.Keys == m.expiries.Keys - keys;
  }

  lemma PutValid(m: Memory, u: Upload)
    requires m.Valid()
    ensures PutStep(m, u).0.Valid()
  {
    hide PendingExpiration, BrokenLimit, Total;
  }

  lemma StepValid(m: Memory, op: Operation)
    requires m.Valid()
    ensures Step(m, op).0.Valid()
  {
    match op
    case Put(u) => PutValid(m, u);
    case DeleteUnreferenced(k) => WithoutValid(m, {k});
    case Cleanup(now) => WithoutValid(m, m.ExpiredKeys(now));
    case Delete(k) => WithoutValid(m, {k});
    case DeleteThread(tenant, thread) => WithoutValid(m, m.ThreadKeys(tenant, thread));
    case _ =>
  }

  /** An upload whose time-to-live the expiry computation accepts. */
  predicate TtlAccepted(u: Upload) {
    PendingExpiration(u.createdAt, u.ttl).Ok?
  }

  /** The upload breaks none of its limits. */
  ghost predicate WithinLimits(m: Memory, u: Upload) {
    var thread, tenant := m.UsageOf(m.ThreadKeys(u.key.tenant, u.key.thread)), m.UsageOf(m.TenantKeys(u.key.tenant));
    BrokenLimit(u.limits, thread, tenant, |u.data|).None?
  }

  /** The upload of a new key within its limits whose time-to-live is refused. */
  ghost predicate LeavesPartialRecord(m: Memory, u: Upload) {
    u.key !in m.records && WithinLimits(m, u) && !TtlAccepted(u)
  }

  /** The three dictionaries stay in step under every operation but a put that leaves a record
      without an expiry behind. */
  lemma InStepExactly(m: Memory, op: Operation)
    requires m.Valid() && m.InStep()
    ensures Step(m, op).0.InStep() <==> !(op.Put? && LeavesPartialRecord(m, op.upload))
  {
    hide PendingExpiration, BrokenLimit, Total;
    match op
    case DeleteUnreferenced(k) => WithoutValid(m, {k});
    case Cleanup(now) => WithoutValid(m, m.ExpiredKeys(now));
    case Delete(k) => WithoutValid(m, {k});
    case DeleteThread(tenant, thread) => WithoutValid(m, m.ThreadKeys(tenant, thread));
    case _ =>
  }

  /** A record without an expiry, which such a put leaves behind. */
  predicate Partial(m: Memory, k: Key) {
    k in m.records && k !in m.expiries
  }

  /** Statistics of a tenant raise exactly while one of its records has no expiry. */
  lemma StatisticsFailExactly(m: Memory, tenant: string)
    requires m.Valid()
    ensures StatisticsStep(m, tenant) == Failed(MissingExpiry) <==> exists k: Key :: k.tenant == tenant && Partial(m, k)
    ensures StatisticsStep(m, tenant).Counted? || StatisticsStep(m, tenant) == Failed(MissingExpiry)
  {
    hide StatisticsOf;
    if k: Key :| k.tenant == tenant && Partial(m, k) {
      assert k in m.TenantKeys(tenant);
    }
  }

  /** From a store in step, a put makes a tenant's statistics raise exactly when it is the tenant of
      an upload that leaves a partial record. */
  lemma RefusedTtlBreaksStatistics(m: Memory, u: Upload, tenant: string)
    requires m.Valid() && m.InStep()
    ensures var after := PutStep(m, u).0;
            after.Valid()
            && (StatisticsStep(after, tenant) == Failed(MissingExpiry) <==> tenant == u.key.tenant && LeavesPartialRecord(m, u))
  {
    PutValid(m, u);
    var after := PutStep(m, u).0;
    StatisticsFailExactly(after, tenant);
    hide PendingExpiration, BrokenLimit, Total, StatisticsStep;
    if LeavesPartialRecord(m, u) {
      assert Partial(after, u.key);
    } else {
      assert after.InStep() by { InStepExactly(m, Put(u)); }
    }
  }

  /** The operations that end it: a delete of the record or its thread, an unreferenced delete at
      count zero, or a put of the key that succeeds. */
  ghost predicate Clears(m: Memory, op: Operation, k: Key)
    requires m.Valid() && k in m.records
  {
    match op
    case Delete(j) => j == k
    case DeleteThread(tenant, thread) => k.tenant == tenant && k.thread == thread
    case DeleteUnreferenced(j) => j == k && m.references[k] == 0
    case Put(u) => u.key == k && WithinLimits(m, u) && TtlAccepted(u)
    case _ => false
  }

  /** A partial record stays, cleanup included, until one of these operations. */
  lemma PartialEndsExactly(m: Memory, op: Operation, k: Key)
    requires m.Valid() && Partial(m, k)
    ensures Step(m, op).0.Valid() && (Partial(Step(m, op).0, k) <==> !Clears(m, op, k))
  {
    StepValid(m, op);
    hide PutStep, WithinLimits, TtlAccepted, StatisticsStep, Memory.UsageOf, Instant;
    if op.Put? { PartialPut(m, op.upload, k); }
  }

  lemma PartialPut(m: Memory, u: Upload, k: Key)
    requires m.Valid() && Partial(m, k)
    ensures Partial(PutStep(m, u).0, k) <==> !(u.key == k && WithinLimits(m, u) && TtlAccepted(u))
  {
    hide PendingExpiration, BrokenLimit, Memory.UsageOf;
  }

  // ----- The class -----

  class InMemoryAttachmentStore {
    var records: map<Key, Record>
    var references: map<Key, nat>
    var expiries: map<Key, Option<Moment>>

    ghost function Contents(): Memory
      reads this
    {
      Memory(records, references, expiries)
    }

    ghost predicate Valid()
      reads this
    {
      Contents().Valid()
    }

    constructor ()
      ensures Valid() && Contents() == Empty
    {
      records, references, expiries := map[], map[], map[];
    }

    method UsageOf(keys: set<Key>) returns (usage: Usage)
      requires keys <= records.Keys
      ensures usage == Contents().UsageOf(keys)
    {
      var bytes := SumOver(keys, map k | k in records :: records[k].metadata.size);
      usage := Usage(|keys|, bytes);
    }

    method Put(u: Upload) returns (r: Outcome)
      requires Valid()
      modifies this
      ensures Valid()
      ensures (Contents(), r) == PutStep(old(Contents()), u)
    {
      hide PendingExpiration, BrokenLimit, Total;
      PutValid(Contents(), u);
      var thread := UsageOf(set k | k in records && k.tenant == u.key.tenant && k.thread == u.key.thread);
      var tenant := UsageOf(set k | k in records && k.tenant == u.key.tenant);
      var broken := BrokenLimit(u.limits, thread, tenant, |u.data|);
      if broken.Some? {
        return Failed(LimitExceeded(broken.value));
      }
      records := records[u.key := Record(u.Describe(), u.data)];
      references := references[u.key := 0];
      var expiry := PendingExpiration(u.createdAt, u.ttl);
      if expiry.Err? {
        return Failed(expiry.error);
      }
      expiries := expiries[u.key := expiry.value];
      r := Stored(u.Describe());
    }

    method Get(k: Key) returns (r: Outcome)
      requires Valid()
      ensures r == Step(Contents(), Operation.Get(k)).1
    {
      r := Found(if k in records then Some(records[k]) else None);
    }

    method MarkReferenced(k: Key) returns (r: Outcome)
      requires Valid()
      modifies this
      ensures Valid()
      ensures (Contents(), r) == Step(old(Contents()), Mark(k))
    {
      if k !in records {
        return Changed(false);
      }
      references := references[k := references[k] + 1];
      r := Changed(true);
    }

    method UnmarkReferenced(k: Key) returns (r: Outcome)
      requires Valid()
      modifies this
      ensures Valid()
      ensures (Contents(), r) == Step(old(Contents()), Unmark(k))
    {
      if k !in records {
        return Changed(false);
      }
      if references[k] > 0 {
        references := references[k := references[k] - 1];
      }
      r := Changed(true);
    }

    /** Deletes the keys one at a time, as `_delete_key_unlocked` in a loop. */
    method DeleteKeys(keys: set<Key>)
      requires Valid() && keys <= records.Keys
      modifies this
      ensures Valid() && Contents() == old(Contents()).Without(keys)
    {
      var todo := keys;
      while todo != {}
        invariant todo <= keys
        invariant records - todo == old(records) - keys
        invariant references - todo == old(references) - keys
        invariant expiries - todo == old(expiries) - keys
        decreases todo
      {
        var k :| k in todo;
        records, references, expiries := records - {k}, references - {k}, expiries - {k};
        todo := todo - {k};
      }
      assert records - {} == records && references - {} == references && expiries - {} == expiries;
      WithoutValid(old(Contents()), keys);
    }

    method DeleteUnreferenced(k: Key) returns (r: Outcome)
      requires Valid()
      modifies this
      ensures Valid()
      ensures (Contents(), r) == Step(old(Contents()), Operation.DeleteUnreferenced(k))
    {
      if k !in records || references[k] != 0 {
        return Changed(false);
      }
      DeleteKeys({k});
      r := Changed(true);
    }

    method DeleteExpiredPending(now: Moment) returns (r: Outcome)
      requires Valid()
      modifies this
      ensures Valid()
      ensures (Contents(), r) == Step(old(Contents()), Cleanup(now))
    {
      var keys := set k | k in expiries && references[k] == 0 && expiries[k].Some? && Instant(expiries[k].value) <= Instant(now);
      assert keys == Contents().ExpiredKeys(now);
      var usage := UsageOf(keys);
      DeleteKeys(keys);
      r := Removed(usage);
    }

    method Delete(k: Key) returns (r: Outcome)
      requires Valid()
      modifies this
      ensures Valid()
      ensures (Contents(), r) == Step(old(Contents()), Operation.Delete(k))
    {
      if k !in records {
        return Changed(false);
      }
      DeleteKeys({k});
      r := Changed(true);
    }

    method DeleteThread(tenant: string, thread: string) returns (r: Outcome)
      requires Valid()
      modifies this
      ensures Valid()
      ensures (Contents(), r) == Step(old(Contents()), Operation.DeleteThread(tenant, thread))
    {
      var keys := set k | k in records && k.tenant == tenant && k.thread == thread;
      DeleteKeys(keys);
      r := Removed(Usage(|keys|, 0));
    }

    /** One pass over the records with nine running variables. */
    method ReadStatistics(tenant: string) returns (r: Outcome)
      requires Valid()
      ensures r == StatisticsStep(Contents(), tenant)
    {
      hide StatisticsOf;
      var total, pending, referenced, exempt := Usage(0, 0), Usage(0, 0), Usage(0, 0), Usage(0, 0);
      var oldest: Option<Moment> := None;
      ghost var m := Contents();
      ghost var keys: set<Key> := {};
      NothingCounted(m);
      var todo := records.Keys;
      while todo != {}
        invariant todo <= records.Keys && keys == m.TenantKeys(tenant) - todo && keys <= m.expiries.Keys
        invariant Statistics(total, pending, referenced, exempt, oldest) == StatisticsOf(m, keys)
        decreases todo
      {
        var k :| k in todo;
        todo := todo - {k};
        if k.tenant != tenant {
          assert keys == m.TenantKeys(tenant) - todo;
          continue;
        }
        if k !in expiries {
          assert k in m.TenantKeys(tenant);
          return Failed(MissingExpiry);
        }
        CountOne(m, keys, k);
        keys := keys + {k};
        var metadata := records[k].metadata;
        total := total.Plus(metadata.size);
        if references[k] == 0 && expiries[k].Some? {
          pending := pending.Plus(metadata.size);
          if oldest.None? || Instant(metadata.createdAt) < Instant(oldest.value) {
            oldest := Some(metadata.createdAt);
          }
        } else if references[k] > 0 {
          referenced := referenced.Plus(metadata.size);
        } else {
          exempt := exempt.Plus(metadata.size);
        }
      }
      assert keys == m.TenantKeys(tenant);
      r := Counted(Statistics(total, pending, referenced, exempt, oldest));
    }
  }

  lemma OldestExtends(moments: set<Moment>, t: Moment)
    ensures Oldest(moments + {t}) == Earlier(t, Oldest(moments))
  {
    var u := Oldest(moments);
    OldestUnique(moments + {t}, if u.None? || Instant(t) < Instant(u.value) then t else u.value);
  }

  lemma NothingCounted(m: Memory)
    requires m.Valid()
    ensures StatisticsOf(m, {}) == Statistics(Usage(0, 0), Usage(0, 0), Usage(0, 0), Usage(0, 0), None)
  {
    assert m.InClass({}, Pending) == {} && m.InClass({}, Referenced) == {} && m.InClass({}, Exempt) == {};
  }

  lemma InsertUsage(m: Memory, keys: set<Key>, k: Key)
    requires k in m.records && k !in keys && keys <= m.records.Keys
    ensures m.UsageOf(keys + {k}) == m.UsageOf(keys).Plus(m.records[k].metadata.size)
  {
    TotalInsert(keys, m.Sizes(), k);
  }

  lemma InClassInsert(m: Memory, keys: set<Key>, k: Key, c: Class)
    requires keys <= m.references.Keys && keys <= m.expiries.Keys && k in m.references && k in m.expiries
    ensures m.InClass(keys + {k}, c)
            == if Classify(m.references[k], m.expiries[k].Some?) == c then m.InClass(keys, c) + {k} else m.InClass(keys, c)
  {}

  lemma CountInClass(m: Memory, keys: set<Key>, k: Key, c: Class)
    requires m.Valid() && k in m.expiries && k !in keys && keys <= m.expiries.Keys
    ensures m.UsageOf(m.InClass(keys + {k}, c))
            == if Classify(m.references[k], m.expiries[k].Some?) == c
               then m.UsageOf(m.InClass(keys, c)).Plus(m.records[k].metadata.size) else m.UsageOf(m.InClass(keys, c))
  {
    InClassInsert(m, keys, k, c);
    if Classify(m.references[k], m.expiries[k].Some?) == c {
      InsertUsage(m, m.InClass(keys, c), k);
    }
  }

  function Earlier(t: Moment, other: Option<Moment>): Option<Moment> {
    if other.None? || Instant(t) < Instant(other.value) then Some(t) else other
  }

  lemma OldestPending(m: Memory, keys: set<Key>, k: Key)
    requires m.Valid() && k in m.expiries && k !in keys && keys <= m.expiries.Keys
    ensures Oldest(m.CreationTimes(m.InClass(keys + {k}, Pending)))
            == if Classify(m.references[k], m.expiries[k].Some?) == Pending
               then Earlier(m.records[k].metadata.createdAt, Oldest(m.CreationTimes(m.InClass(keys, Pending))))
               else Oldest(m.CreationTimes(m.InClass(keys, Pending)))
  {
    hide Instant, Total;
    InClassInsert(m, keys, k, Pending);
    var times := m.CreationTimes(m.InClass(keys, Pending));
    if Classify(m.references[k], m.expiries[k].Some?) == Pending {
      OldestExtends(times, m.records[k].metadata.createdAt);
      assert m.CreationTimes(m.InClass(keys + {k}, Pending)) == times + {m.records[k].metadata.createdAt};
    }
  }

  /** One more record enters the total, exactly one class and, when pending, the oldest time. */
  lemma CountOne(m: Memory, keys: set<Key>, k: Key)
    requires m.Valid() && k in m.expiries && k !in keys && keys <= m.expiries.Keys
    ensures var (s, s') := (StatisticsOf(m, keys), StatisticsOf(m, keys + {k}));
            var metadata := m.records[k].metadata;
            s' == match Classify(m.references[k], m.expiries[k].Some?)
                  case Pending =>
                    s.(total := s.total.Plus(metadata.size), pending := s.pending.Plus(metadata.size),
                       oldestPending := Earlier(metadata.createdAt, s.oldestPending))
                  case Referenced =>
                    s.(total := s.total.Plus(metadata.size), referenced := s.referenced.Plus(metadata.size))
                  case Exempt =>
                    s.(total := s.total.Plus(metadata.size), exempt := s.exempt.Plus(metadata.size))
  {
    hide Earlier, Oldest, Total, Memory.UsageOf, Memory.InClass, Memory.CreationTimes;
    InsertUsage(m, keys, k);
    CountInClass(m, keys, k, Pending);
    CountInClass(m, keys, k, Referenced);
    CountInClass(m, keys, k, Exempt);
    OldestPending(m, keys, k);
  }
}
