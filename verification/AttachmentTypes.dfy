/** What both attachment stores share: records, limits, results, and the operations of a run. */
module AttachmentTypes {
  import opened Wrappers
  import opened Timestamps
  import B = Bytes

  type Bytes = seq<B.Byte>

  datatype Key = Key(tenant: string, thread: string, id: string)

  datatype Metadata = Metadata(
    id: string, thread: string, mime: string, size: nat, createdBy: Option<string>, createdAt: Moment)

  datatype Record = Record(metadata: Metadata, data: Bytes)

  datatype Limits = Limits(
    maxPerThread: Option<int>, maxBytesPerThread: Option<int>,
    maxPerTenant: Option<int>, maxBytesPerTenant: Option<int>)

  datatype Limit = ThreadCount | ThreadBytes | TenantCount | TenantBytes

  datatype Error =
    | LimitExceeded(limit: Limit)
    | TtlNotPositive
    | TimeOverflow
    | DuplicateId
    | MissingExpiry
    | NoActiveKey
    | KeyVersionUnavailable
    | NonceMissing
    | AuthenticationFailed
    | InvalidTimestamp
    | InvalidKey
    | StoreNotOpened
    | RotationAborted

  /** The arguments of `put`, with the identifier and creation time the store draws for it. */
  datatype Upload = Upload(
    key: Key, mime: string, data: Bytes, createdBy: Option<string>, createdAt: Moment,
    limits: Limits, ttl: Option<int>)
  {
    function Describe(): Metadata {
      Metadata(key.id, key.thread, mime, |data|, createdBy, createdAt)
    }
  }

  datatype Usage = Usage(count: nat, bytes: nat) {
    function Plus(size: nat): Usage {
      Usage(count + 1, bytes + size)
    }
  }

  /** How statistics classify an attachment; each one is in exactly one class. */
  datatype Class = Pending | Referenced | Exempt

  function Classify(references: int, expires: bool): Class {
    if references == 0 && expires then Pending else if references > 0 then Referenced else Exempt
  }

  datatype Statistics = Statistics(
    total: Usage, pending: Usage, referenced: Usage, exempt: Usage, oldestPending: Option<Moment>)

  /** `_enforce_limits`: the first limit the incoming attachment would break. */
  function BrokenLimit(limits: Limits, thread: Usage, tenant: Usage, incoming: nat): Option<Limit> {
    if limits.maxPerThread.Some? && thread.count >= limits.maxPerThread.value then Some(ThreadCount)
    else if limits.maxBytesPerThread.Some? && thread.bytes + incoming > limits.maxBytesPerThread.value then Some(ThreadBytes)
    else if limits.maxPerTenant.Some? && tenant.count >= limits.maxPerTenant.value then Some(TenantCount)
    else if limits.maxBytesPerTenant.Some? && tenant.bytes + incoming > limits.maxBytesPerTenant.value then Some(TenantBytes)
    else None
  }

  predicate Fits(bound: Option<int>, n: nat) {
    bound.Some? ==> n <= bound.value
  }

  /** `_pending_expiration`. */
  function PendingExpiration(createdAt: Moment, ttl: Option<int>): (r: Result<Option<Moment>, Error>)
    ensures r.Err? ==> r.error in {TtlNotPositive, TimeOverflow}
  {
    match ttl
    case None => Ok(None)
    case Some(seconds) =>
      if seconds < 1 then Err(TtlNotPositive)
      else
        match Shift(createdAt, seconds * 1_000_000)
        case Some(expiry) => Ok(Some(expiry))
        case None => Err(TimeOverflow)
  }

  /** The operations of the store interface; `Rotate` is the maintenance step of the SQLite store. */
  datatype Operation =
    | Put(upload: Upload)
    | Get(key: Key)
    | ThreadUsage(tenant: string, thread: string)
    | TenantUsage(tenant: string)
    | Mark(key: Key)
    | Unmark(key: Key)
    | DeleteUnreferenced(key: Key)
    | Cleanup(now: Moment)
    | ReadStatistics(tenant: string)
    | Delete(key: Key)
    | DeleteThread(tenant: string, thread: string)
    | Rotate

  datatype Outcome =
    | Stored(metadata: Metadata)
    | Found(record: Option<Record>)
    | Used(usage: Usage)
    | Changed(changed: bool)
    | Removed(usage: Usage)
    | Counted(statistics: Statistics)
    | Maintained
    | Failed(error: Error)

  // ----- The earliest of a set of moments -----

  ghost function Oldest(moments: set<Moment>): (r: Option<Moment>)
    ensures r.None? <==> moments == {}
    ensures r.Some? ==> r.value in moments && forall t :: t in moments ==> Instant(r.value) <= Instant(t)
    decreases |moments|
  {
    if moments == {} then None
    else
      var t :| t in moments;
      match Oldest(moments - {t})
      case Some(u) => if Instant(u) < Instant(t) then Some(u) else Some(t)
      case None => Some(t)
  }

  /** `Oldest` is the only answer: any earliest member of the set equals it. */
  lemma OldestUnique(moments: set<Moment>, t: Moment)
    requires t in moments && forall u :: u in moments ==> Instant(t) <= Instant(u)
    ensures Oldest(moments) == Some(t)
  {
    TextOrderIsChronological(t, Oldest(moments).value);
  }
}
