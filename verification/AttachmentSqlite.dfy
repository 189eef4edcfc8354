/** The SQLite attachment store: one table, NULL-able columns, timestamps as text, payloads
    encrypted under versioned keys. One transaction is one atomic step on the table. */
module AttachmentSqlite {
  import opened Wrappers
  import opened Texts
  import opened Timestamps
  import opened Sums
  import opened AttachmentTypes

  /** The fields the authenticated encryption binds a payload to. */
  datatype AssociatedData = AssociatedData(
    tenant: string, thread: string, id: string, mime: string, size: nat,
    createdBy: Option<string>, createdAt: string, keyVersion: int)

  /** AES-GCM, seen from outside: key, nonce, text and associated data. */
  datatype Cipher = Cipher(
    encrypt: (Bytes, Bytes, Bytes, AssociatedData) -> Bytes,
    decrypt: (Bytes, Bytes, Bytes, AssociatedData) -> Option<Bytes>)
  {
    /** Decrypting with the key, nonce and associated data of the encryption gives the text back. */
    ghost predicate Lawful() {
      forall key, nonce, plain, ad :: decrypt(key, nonce, encrypt(key, nonce, plain, ad), ad) == Some(plain)
    }
  }

  datatype Keyring = Keyring(keys: map<int, Bytes>, active: Option<int>) {
    predicate Valid() {
      active.Some? ==> active.value in keys
    }

    /** The keyring that is left when every key but the active one is retired. */
    function ActiveOnly(): Keyring
      requires Valid()
    {
      if active.Some? then Keyring(map[active.value := keys[active.value]], active) else Keyring(map[], None)
    }
  }

  datatype Row = Row(
    tenant: string, thread: string, mime: string, size: nat, createdBy: Option<string>, createdAt: string,
    data: Bytes, nonce: Option<Bytes>, keyVersion: Option<int>,
    references: Option<int>, expiresAt: Option<string>)
  {
    predicate Is(k: Key) {
      tenant == k.tenant && thread == k.thread
    }

    /** `reference_count = 0 AND expires_at IS NOT NULL AND expires_at <= ?` */
    predicate Expired(now: string) {
      references == Some(0) && expiresAt.Some? && TextAtMost(expiresAt.value, now)
    }

    /** The CASE expressions of the statistics query; NULL satisfies no comparison. */
    function Class(): Class {
      if references == Some(0) && expiresAt.Some? then Pending
      else if references.Some? && references.value > 0 then Referenced
      else Exempt
    }

    function Data(id: string, version: int): AssociatedData {
      AssociatedData(tenant, thread, id, mime, size, createdBy, createdAt, version)
    }
  }

  /** The attachments table by primary key. */
  type Table = map<string, Row>

  function Sizes(t: Table): map<string, nat> {
    map id | id in t :: t[id].size
  }

  function ThreadIds(t: Table, tenant: string, thread: string): (ids: set<string>)
    ensures ids <= t.Keys
  {
    set id | id in t && t[id].tenant == tenant && t[id].thread == thread
  }

  function TenantIds(t: Table, tenant: string): (ids: set<string>)
    ensures ids <= t.Keys
  {
    set id | id in t && t[id].tenant == tenant
  }

  function ExpiredIds(t: Table, now: Moment): (ids: set<string>)
    ensures ids <= t.Keys
  {
    set id | id in t && t[id].Expired(Iso(now))
  }

  function ClassIds(t: Table, ids: set<string>, c: Class): (chosen: set<string>)
    requires ids <= t.Keys
    ensures chosen <= ids
  {
    set id | id in ids && t[id].Class() == c
  }

  function CreationTexts(t: Table, ids: set<string>): set<string>
    requires ids <= t.Keys
  {
    set id | id in ids :: t[id].createdAt
  }

  predicate Has(t: Table, k: Key) {
    k.id in t && t[k.id].Is(k)
  }

  ghost function UsageOf(t: Table, ids: set<string>): Usage
    requires ids <= t.Keys
  {
    Usage(|ids|, Total(ids, Sizes(t)))
  }

  // ----- MIN over a text column -----

  ghost predicate IsLeastText(least: Option<string>, texts: set<string>) {
    (least.None? <==> texts == {})
    && (least.Some? ==> least.value in texts && forall s :: s in texts ==> TextAtMost(least.value, s))
  }

  /** `MIN(...)` over a text column; NULL on no rows. */
  ghost function LeastText(texts: set<string>): (least: Option<string>)
    ensures IsLeastText(least, texts)
    decreases |texts|
  {
    if texts == {} then None
    else
      var s :| s in texts;
      var rest := LeastText(texts - {s});
      LeastExtends(texts - {s}, rest, s);
      assert texts - {s} + {s} == texts;
      Some(LesserText(s, rest))
  }

  function LesserText(s: string, least: Option<string>): string {
    if least.None? || TextAtMost(s, least.value) then s else least.value
  }

  lemma LeastExtends(texts: set<string>, least: Option<string>, s: string)
    requires IsLeastText(least, texts)
    ensures IsLeastText(Some(LesserText(s, least)), texts + {s})
  {
    forall u | u in texts + {s} ensures TextAtMost(LesserText(s, least), u) {
      if least.Some? {
        TextTotal(s, least.value);
        if u != s && TextAtMost(s, least.value) { TextTransitive(s, least.value, u); }
      }
    }
  }

  lemma LeastTextUnique(texts: set<string>, least: Option<string>)
    requires IsLeastText(least, texts)
    ensures LeastText(texts) == least
  {
    if least.Some? { TextAntisymmetric(least.value, LeastText(texts).value); }
  }

  method FindLeastText(texts: set<string>) returns (least: Option<string>)
    ensures least == LeastText(texts)
  {
    least := None;
    var todo := texts;
    while todo != {}
      invariant todo <= texts && IsLeastText(least, texts - todo)
      decreases todo
    {
      var s :| s in todo;
      LeastExtends(texts - todo, least, s);
      assert texts - todo + {s} == texts - (todo - {s});
      least := Some(LesserText(s, least));
      todo := todo - {s};
    }
    assert texts - todo == texts;
    LeastTextUnique(texts, least);
  }

  // ----- Encryption of rows -----

  /** `_decrypt_row`: rows without a key version are plain. */
  function DecryptRow(ring: Keyring, cipher: Cipher, id: string, row: Row): Result<Bytes, Error> {
    if row.keyVersion.None? then Ok(row.data)
    else if row.keyVersion.value !in ring.keys then Err(KeyVersionUnavailable)
    else if row.nonce.None? then Err(NonceMissing)
    else
      var version := row.keyVersion.value;
      match cipher.decrypt(ring.keys[version], row.nonce.value, row.data, row.Data(id, version))
      case Some(plain) => Ok(plain)
      case None => Err(AuthenticationFailed)
  }

  /** The row with its payload stored under key `version`. */
  function Sealed(ring: Keyring, cipher: Cipher, id: string, row: Row, plain: Bytes, version: int, nonce: Bytes): Row
    requires version in ring.keys
  {
    row.(data := cipher.encrypt(ring.keys[version], nonce, plain, row.Data(id, version)),
         nonce := Some(nonce), keyVersion := Some(version))
  }

  /** Any keyring that holds the key of the version opens a sealed row. */
  lemma SealedOpens(ring: Keyring, cipher: Cipher, id: string, row: Row, plain: Bytes, version: int, nonce: Bytes, other: Keyring)
    requires cipher.Lawful() && version in ring.keys
    requires version in other.keys && other.keys[version] == ring.keys[version]
    ensures DecryptRow(other, cipher, id, Sealed(ring, cipher, id, row, plain, version, nonce)) == Ok(plain)
  {}

  /** The rows rotation rewrites: plain ones and those under another key version. */
  function StaleIds(t: Table, version: int): set<string> {
    set id | id in t && t[id].keyVersion != Some(version)
  }

  predicate Readable(ring: Keyring, cipher: Cipher, t: Table, ids: set<string>)
    requires ids <= t.Keys
  {
    forall id :: id in ids ==> DecryptRow(ring, cipher, id, t[id]).Ok?
  }

  /** The table with the rows `ids` re-encrypted under `version`, with one nonce per row. */
  function Resealed(ring: Keyring, cipher: Cipher, t: Table, ids: set<string>, version: int, nonces: string -> Bytes): Table
    requires version in ring.keys && ids <= t.Keys && Readable(ring, cipher, t, ids)
  {
    map id | id in t ::
      if id in ids
      then Sealed(ring, cipher, id, t[id], DecryptRow(ring, cipher, id, t[id]).value, version, nonces(id))
      else t[id]
  }

  /** `rotate_to_active_key` as one transaction; None stands for any raised error. */
  function Rotated(ring: Keyring, cipher: Cipher, t: Table, nonces: string -> Bytes): Option<Table>
    requires ring.Valid()
  {
    if ring.active.None? then None
    else
      var stale := StaleIds(t, ring.active.value);
      if Readable(ring, cipher, t, stale)
      then Some(Resealed(ring, cipher, t, stale, ring.active.value, nonces))
      else None
  }

  /** The checks `_initialize` makes on an existing table; `sample` is the row the query happens to return. */
  predicate OpensWith(ring: Keyring, cipher: Cipher, t: Table, sample: string) {
    (forall id :: id in t && t[id].keyVersion.Some? ==> t[id].keyVersion.value in ring.keys)
    && (sample in t && t[sample].keyVersion.Some? ==> DecryptRow(ring, cipher, sample, t[sample]).Ok?)
  }

  /** The constructor's checks on the keys it is given. */
  function BuildKeyring(encryptionKey: Option<Bytes>, keyVersion: int, decryptionKeys: map<int, Bytes>): (r: Result<Keyring, Error>)
    ensures r.Ok? ==> r.value.Valid() && forall v :: v in r.value.keys ==> v >= 1 && |r.value.keys[v]| == 32
    ensures r.Ok? ==> (encryptionKey.Some? <==> r.value.active.Some?)
    ensures r.Ok? && encryptionKey.Some? ==> r.value.active == Some(keyVersion) && r.value.keys[keyVersion] == encryptionKey.value
  {
    if encryptionKey.Some?
       && (|encryptionKey.value| != 32 || keyVersion < 1
           || (keyVersion in decryptionKeys && decryptionKeys[keyVersion] != encryptionKey.value))
    then Err(InvalidKey)
    else
      var keys := if encryptionKey.Some? then decryptionKeys[keyVersion := encryptionKey.value] else decryptionKeys;
      if exists v :: v in keys && (v < 1 || |keys[v]| != 32) then Err(InvalidKey)
      else Ok(Keyring(keys, if encryptionKey.Some? then Some(keyVersion) else None))
  }

  // ----- The operations as functions of the table -----

  function NewRow(ring: Keyring, cipher: Cipher, u: Upload, expiry: Option<Moment>, nonce: Bytes): Row
    requires ring.Valid()
  {
    var plain := Row(u.key.tenant, u.key.thread, u.mime, |u.data|, u.createdBy, Iso(u.createdAt), u.data,
                     None, None, Some(0), if expiry.Some? then Some(Iso(expiry.value)) else None);
    if ring.active.Some? then Sealed(ring, cipher, u.key.id, plain, u.data, ring.active.value, nonce) else plain
  }

  ghost function PutStep(ring: Keyring, cipher: Cipher, t: Table, u: Upload, nonce: Bytes): (Table, Outcome)
    requires ring.Valid()
  {
    match PendingExpiration(u.createdAt, u.ttl)
    case Err(error) => (t, Failed(error))
    case Ok(expiry) =>
      var thread, tenant := UsageOf(t, ThreadIds(t, u.key.tenant, u.key.thread)), UsageOf(t, TenantIds(t, u.key.tenant));
      match BrokenLimit(u.limits, thread, tenant, |u.data|)
      case Some(limit) => (t, Failed(LimitExceeded(limit)))
      case None =>
        if u.key.id in t then (t, Failed(DuplicateId))
        else (t[u.key.id := NewRow(ring, cipher, u, expiry, nonce)], Stored(u.Describe()))
  }

  function GetStep(ring: Keyring, cipher: Cipher, t: Table, k: Key): Outcome {
    if !Has(t, k) then Found(None)
    else
      var row := t[k.id];
      match DecryptRow(ring, cipher, k.id, row)
      case Err(error) => Failed(error)
      case Ok(data) =>
        match ParseIso(row.createdAt)
        case None => Failed(InvalidTimestamp)
        case Some(createdAt) =>
          Found(Some(Record(Metadata(k.id, k.thread, row.mime, row.size, row.createdBy, createdAt), data)))
  }

  /** The reference count after `mark_referenced`: unknown counts become the sticky -1. */
  function Marked(references: Option<int>): Option<int> {
    if references.None? then Some(-1)
    else if references.value < 0 then references
    else Some(references.value + 1)
  }

  function Unmarked(references: Option<int>): Option<int> {
    if references.Some? && references.value > 0 then Some(references.value - 1) else references
  }

  function MarkStep(t: Table, k: Key): (Table, Outcome) {
    if Has(t, k) then (t[k.id := t[k.id].(references := Marked(t[k.id].references))], Changed(true))
    else (t, Changed(false))
  }

  function UnmarkStep(t: Table, k: Key): (Table, Outcome) {
    if Has(t, k) then (t[k.id := t[k.id].(references := Unmarked(t[k.id].references))], Changed(true))
    else (t, Changed(false))
  }

  function DeleteUnreferencedStep(t: Table, k: Key): (Table, Outcome) {
    if Has(t, k) && t[k.id].references == Some(0) then (t - {k.id}, Changed(true)) else (t, Changed(false))
  }

  ghost function CleanupStep(t: Table, now: Moment): (Table, Outcome) {
    (t - ExpiredIds(t, now), Removed(UsageOf(t, ExpiredIds(t, now))))
  }

  ghost function StatisticsStep(t: Table, tenant: string): Outcome {
    var ids := TenantIds(t, tenant);
    var least := LeastText(CreationTexts(t, ClassIds(t, ids, Pending)));
    var oldest := if least.Some? then ParseIso(least.value) else None;
    if least.Some? && oldest.None? then Failed(InvalidTimestamp)
    else Counted(Statistics(
      UsageOf(t, ids), UsageOf(t, ClassIds(t, ids, Pending)), UsageOf(t, ClassIds(t, ids, Referenced)),
      UsageOf(t, ClassIds(t, ids, Exempt)), oldest))
  }

  function DeleteStep(t: Table, k: Key): (Table, Outcome) {
    if Has(t, k) then (t - {k.id}, Changed(true)) else (t, Changed(false))
  }

  function DeleteThreadStep(t: Table, tenant: string, thread: string): (Table, Outcome) {
    var ids := ThreadIds(t, tenant, thread);
    (t - ids, Removed(Usage(|ids|, 0)))
  }

  /** A rotation that raises leaves the table as it was; `RotationAborted` is the error of whichever
      unreadable row comes first. */
  function RotateStep(ring: Keyring, cipher: Cipher, t: Table, nonces: string -> Bytes): (Table, Outcome)
    requires ring.Valid()
  {
    match Rotated(ring, cipher, t, nonces)
    case Some(rotated) => (rotated, Maintained)
    case None => (t, Failed(if ring.active.None? then NoActiveKey else RotationAborted))
  }

  /** One operation: the table after it and what it returns. `nonces` is the randomness drawn. */
  ghost function Step(ring: Keyring, cipher: Cipher, t: Table, op: Operation, nonces: string -> Bytes): (Table, Outcome)
    requires ring.Valid()
  {
    match op
    case Put(u) => PutStep(ring, cipher, t, u, nonces(u.key.id))
    case Get(k) => (t, GetStep(ring, cipher, t, k))
    case ThreadUsage(tenant, thread) => (t, Used(UsageOf(t, ThreadIds(t, tenant, thread))))
    case TenantUsage(tenant) => (t, Used(UsageOf(t, TenantIds(t, tenant))))
    case Mark(k) => MarkStep(t, k)
    case Unmark(k) => UnmarkStep(t, k)
    case DeleteUnreferenced(k) => DeleteUnreferencedStep(t, k)
    case Cleanup(now) => CleanupStep(t, now)
    case ReadStatistics(tenant) => (t, StatisticsStep(t, tenant))
    case Delete(k) => DeleteStep(t, k)
    case DeleteThread(tenant, thread) => DeleteThreadStep(t, tenant, thread)
    case Rotate => RotateStep(ring, cipher, t, nonces)
  }

  // ----- The class -----

  /** Opening a store: the constructor's checks on the keys, then those on the existing table. */
  method OpenStore(
    encryptionKey: Option<Bytes>, keyVersion: int, decryptionKeys: map<int, Bytes>, cipher: Cipher, table: Table, sample: string)
    returns (r: Result<SQLiteAttachmentStore, Error>)
    ensures var ring := BuildKeyring(encryptionKey, keyVersion, decryptionKeys);
            if ring.Err? then r == Err(InvalidKey)
            else if !OpensWith(ring.value, cipher, table, sample) then r == Err(StoreNotOpened)
            else r.Ok? && fresh(r.value) && r.value.ring == ring.value && r.value.cipher == cipher && r.value.table == table
  {
    var ring := BuildKeyring(encryptionKey, keyVersion, decryptionKeys);
    if ring.Err? {
      return Err(InvalidKey);
    }
    if !OpensWith(ring.value, cipher, table, sample) {
      return Err(StoreNotOpened);
    }
    var store := new SQLiteAttachmentStore(ring.value, cipher, table);
    r := Ok(store);
  }

  class SQLiteAttachmentStore {
    var table: Table
    const ring: Keyring
    const cipher: Cipher

    constructor (ring: Keyring, cipher: Cipher, table: Table)
      ensures this.ring == ring && this.cipher == cipher && this.table == table
    {
      this.ring, this.cipher, this.table := ring, cipher, table;
    }

    method Aggregate(ids: set<string>) returns (usage: Usage)
      requires ids <= table.Keys
      ensures usage == UsageOf(table, ids)
    {
      var bytes := SumOver(ids, Sizes(table));
      usage := Usage(|ids|, bytes);
    }

    method Put(u: Upload, nonce: Bytes) returns (r: Outcome)
      requires ring.Valid()
      modifies this
      ensures (table, r) == PutStep(ring, cipher, old(table), u, nonce)
    {
      hide PendingExpiration, BrokenLimit, Total;
      var expiry := PendingExpiration(u.createdAt, u.ttl);
      if expiry.Err? {
        return Failed(expiry.error);
      }
      var row := NewRow(ring, cipher, u, expiry.value, nonce);
      var thread := Aggregate(ThreadIds(table, u.key.tenant, u.key.thread));
      var tenant := Aggregate(TenantIds(table, u.key.tenant));
      var broken := BrokenLimit(u.limits, thread, tenant, |u.data|);
      if broken.Some? {
        return Failed(LimitExceeded(broken.value));
      }
      if u.key.id in table {
        return Failed(DuplicateId);
      }
      table := table[u.key.id := row];
      r := Stored(u.Describe());
    }

    method Get(k: Key) returns (r: Outcome)
      ensures r == GetStep(ring, cipher, table, k)
    {
      r := GetStep(ring, cipher, table, k);
    }

    method MarkReferenced(k: Key) returns (r: Outcome)
      modifies this
      ensures (table, r) == MarkStep(old(table), k)
    {
      if !Has(table, k) {
        return Changed(false);
      }
      var row := table[k.id];
      if row.references.None? {
        row := row.(references := Some(-1));
      } else if row.references.value >= 0 {
        row := row.(references := Some(row.references.value + 1));
      }
      table := table[k.id := row];
      r := Changed(true);
    }

    method UnmarkReferenced(k: Key) returns (r: Outcome)
      modifies this
      ensures (table, r) == UnmarkStep(old(table), k)
    {
      if !Has(table, k) {
        return Changed(false);
      }
      var row := table[k.id];
      if row.references.Some? && row.references.value > 0 {
        row := row.(references := Some(row.references.value - 1));
      }
      table := table[k.id := row];
      r := Changed(true);
    }

    method DeleteUnreferenced(k: Key) returns (r: Outcome)
      modifies this
      ensures (table, r) == DeleteUnreferencedStep(old(table), k)
    {
      if !Has(table, k) || table[k.id].references != Some(0) {
        return Changed(false);
      }
      table := table - {k.id};
      r := Changed(true);
    }

    method DeleteExpiredPending(now: Moment) returns (r: Outcome)
      modifies this
      ensures (table, r) == CleanupStep(old(table), now)
    {
      var expired := ExpiredIds(table, now);
      var usage := Aggregate(expired);
      table := table - expired;
      r := Removed(usage);
    }

    method ReadStatistics(tenant: string) returns (r: Outcome)
      ensures r == StatisticsStep(table, tenant)
    {
      var ids := TenantIds(table, tenant);
      var total := Aggregate(ids);
      var pending := Aggregate(ClassIds(table, ids, Pending));
      var referenced := Aggregate(ClassIds(table, ids, Referenced));
      var exempt := Aggregate(ClassIds(table, ids, Exempt));
      var least := FindLeastText(CreationTexts(table, ClassIds(table, ids, Pending)));
      var oldest := if least.Some? then ParseIso(least.value) else None;
      r := if least.Some? && oldest.None? then Failed(InvalidTimestamp)
           else Counted(Statistics(total, pending, referenced, exempt, oldest));
    }

    method Delete(k: Key) returns (r: Outcome)
      modifies this
      ensures (table, r) == DeleteStep(old(table), k)
    {
      if !Has(table, k) {
        return Changed(false);
      }
      table := table - {k.id};
      r := Changed(true);
    }

    method DeleteThread(tenant: string, thread: string) returns (r: Outcome)
      modifies this
      ensures (table, r) == DeleteThreadStep(old(table), tenant, thread)
    {
      var ids := ThreadIds(table, tenant, thread);
      table := table - ids;
      r := Removed(Usage(|ids|, 0));
    }

    /** The rotation loop: rows are rewritten one by one in a transaction, and an error rolls all
        of them back. Returns the number of rows rewritten. */
    method RotateToActiveKey(nonces: string -> Bytes) returns (r: Result<nat, Error>)
      requires ring.Valid()
      modifies this
      ensures match Rotated(ring, cipher, old(table), nonces)
              case Some(rotated) => table == rotated && r == Ok(|StaleIds(old(table), ring.active.value)|)
              case None => table == old(table) && r.Err? && (r.error == NoActiveKey <==> ring.active.None?)
    {
      if ring.active.None? {
        return Err(NoActiveKey);
      }
      var version := ring.active.value;
      var working := table;
      var stale := StaleIds(table, version);
      var todo, rotated := stale, 0;
      while todo != {}
        invariant todo <= stale && rotated + |todo| == |stale|
        invariant Readable(ring, cipher, table, stale - todo)
        invariant working == Resealed(ring, cipher, table, stale - todo, version, nonces)
        decreases todo
      {
        var id :| id in todo;
        var plain := DecryptRow(ring, cipher, id, table[id]);
        if plain.Err? {
          assert id in stale && !Readable(ring, cipher, table, stale);
          return Err(plain.error);
        }
        working := working[id := Sealed(ring, cipher, id, table[id], plain.value, version, nonces(id))];
        todo := todo - {id};
        rotated := rotated + 1;
      }
      assert stale - todo == stale;
      table := working;
      r := Ok(rotated);
    }
  }
}
