/** The durable work queue of user deprovisioning: claims under a lease, heartbeats, completion,
    failure with a retry time or a dead letter, and manual retry. One SQL transaction is one
    atomic step on the table. */
module DeprovisioningQueue {
  import opened Wrappers
  import opened Texts
  import opened Timestamps

  datatype State = Pending | Processing | Completed | DeadLetter

  datatype Row = Row(
    tenant: string, user: string, state: State, attempts: nat, nextAttempt: Moment,
    claimedAt: Option<Moment>, completedAt: Option<Moment>, lastError: Option<string>,
    assignmentRemoved: bool, grantsDisabled: int, createdAt: Moment, updatedAt: Moment)

  /** `user_deprovisioning_events` by id. */
  type Table = map<string, Row>

  datatype Op =
    | Enqueue(id: string, tenant: string, user: string)
    | Claim
    | Heartbeat(id: string)
    | Complete(id: string, assignmentRemoved: bool, grantsDisabled: int)
    | Fail(id: string, error: string, retryAt: Moment, deadLetter: bool, assignmentRemoved: bool, grantsDisabled: int)
    | Retry(tenant: string, id: string)

  /** What a call answers. `Refused` is False or a duplicate id, `Unrepresentable` the exception for
      a lease that leaves the calendar. */
  datatype Outcome =
    | Enqueued(id: string) | Claimed(id: string) | NothingDue | Beat(id: string) | Done(id: string)
    | Failed(id: string) | Retried(id: string) | Refused | Unrepresentable

  datatype Call = Call(at: Moment, op: Op)

  const SECOND: int := 1_000_000

  // ----- The columns as SQLite compares them: texts -----

  predicate Stale(row: Row, staleBefore: Moment) {
    row.state == Processing && row.claimedAt.Some? && TextLess(Iso(row.claimedAt.value), Iso(staleBefore))
  }

  function Release(row: Row, now: Moment): Row {
    row.(state := Pending, claimedAt := None, nextAttempt := now, updatedAt := now)
  }

  function Released(rows: Table, staleBefore: Moment, now: Moment): (r: Table)
    ensures r.Keys == rows.Keys
  {
    map id | id in rows :: if Stale(rows[id], staleBefore) then Release(rows[id], now) else rows[id]
  }

  predicate Due(row: Row, now: Moment) {
    row.state == Pending && TextAtMost(Iso(row.nextAttempt), Iso(now))
  }

  /** `ORDER BY next_attempt_at, created_at, id` */
  predicate Precedes(rows: Table, a: string, b: string)
    requires a in rows && b in rows
  {
    var (x, y) := (rows[a], rows[b]);
    TextLess(Iso(x.nextAttempt), Iso(y.nextAttempt))
    || (Iso(x.nextAttempt) == Iso(y.nextAttempt)
        && (TextLess(Iso(x.createdAt), Iso(y.createdAt))
            || (Iso(x.createdAt) == Iso(y.createdAt) && TextAtMost(a, b))))
  }

  predicate IsFirst(rows: Table, now: Moment, id: string) {
    id in rows && Due(rows[id], now)
    && forall other :: other in rows && Due(rows[other], now) ==> Precedes(rows, id, other)
  }

  // ----- The same order, chronologically -----

  predicate Before(rows: Table, a: string, b: string)
    requires a in rows && b in rows
  {
    var (x, y) := (rows[a], rows[b]);
    Instant(x.nextAttempt) < Instant(y.nextAttempt)
    || (Instant(x.nextAttempt) == Instant(y.nextAttempt)
        && (Instant(x.createdAt) < Instant(y.createdAt)
            || (Instant(x.createdAt) == Instant(y.createdAt) && TextAtMost(a, b))))
  }

  lemma PrecedesIsBefore(rows: Table, a: string, b: string)
    requires a in rows && b in rows
    ensures Precedes(rows, a, b) <==> Before(rows, a, b)
  {
    TextOrderIsChronological(rows[a].nextAttempt, rows[b].nextAttempt);
    TextOrderIsChronological(rows[a].createdAt, rows[b].createdAt);
    hide Instant, Iso, TextLess, TextAtMost;
  }

  lemma DueIsChronological(row: Row, now: Moment)
    ensures Due(row, now) <==> row.state == Pending && Instant(row.nextAttempt) <= Instant(now)
  {
    TextOrderIsChronological(row.nextAttempt, now);
  }

  lemma StaleIsChronological(row: Row, staleBefore: Moment)
    ensures Stale(row, staleBefore)
            <==> row.state == Processing && row.claimedAt.Some? && Instant(row.claimedAt.value) < Instant(staleBefore)
  {
    if row.claimedAt.Some? { TextOrderIsChronological(row.claimedAt.value, staleBefore); }
  }

  lemma BeforeTotal(rows: Table, a: string, b: string)
    requires a in rows && b in rows
    ensures Before(rows, a, b) || Before(rows, b, a)
  {
    hide Instant;
    TextTotal(a, b);
  }

  lemma BeforeTransitive(rows: Table, a: string, b: string, c: string)
    requires a in rows && b in rows && c in rows && Before(rows, a, b) && Before(rows, b, c)
    ensures Before(rows, a, c)
  {
    hide Instant, TextAtMost;
    if TextAtMost(a, b) && TextAtMost(b, c) { TextTransitive(a, b, c); }
  }

  lemma BeforeAntisymmetric(rows: Table, a: string, b: string)
    requires a in rows && b in rows && Before(rows, a, b) && Before(rows, b, a)
    ensures a == b
  {
    hide Instant, TextAtMost;
    TextAntisymmetric(a, b);
  }

  ghost predicate IsLeast(rows: Table, ids: set<string>, id: string) {
    ids <= rows.Keys && id in ids && forall other :: other in ids ==> Before(rows, id, other)
  }

  lemma {:induction false} LeastExists(rows: Table, ids: set<string>) returns (least: string)
    requires ids <= rows.Keys && ids != {}
    ensures IsLeast(rows, ids, least)
    decreases |ids|
  {
    hide Before;
    var id :| id in ids;
    var rest := ids - {id};
    BeforeTotal(rows, id, id);
    least := id;
    if rest == {} {
      assert forall other :: other in ids && other != id ==> other in rest;
    } else {
      var first := LeastExists(rows, rest);
      BeforeTotal(rows, id, first);
      if Before(rows, id, first) {
        forall other | other in ids ensures Before(rows, id, other) {
          if other != id { BeforeTransitive(rows, id, first, other); }
        }
      } else {
        least := first;
      }
    }
  }

  ghost function DueIds(rows: Table, now: Moment): set<string> {
    set id | id in rows && Due(rows[id], now)
  }

  lemma FirstExactly(rows: Table, now: Moment, id: string)
    ensures IsFirst(rows, now, id) <==> IsLeast(rows, DueIds(rows, now), id)
  {
    hide Due, Before, Precedes;
    forall other | id in rows && other in rows ensures Precedes(rows, id, other) <==> Before(rows, id, other) {
      PrecedesIsBefore(rows, id, other);
    }
  }

  lemma FirstExists(rows: Table, now: Moment) returns (id: string)
    requires DueIds(rows, now) != {}
    ensures IsFirst(rows, now, id)
  {
    id := LeastExists(rows, DueIds(rows, now));
    FirstExactly(rows, now, id);
  }

  lemma FirstUnique(rows: Table, now: Moment, a: string, b: string)
    requires IsFirst(rows, now, a) && IsFirst(rows, now, b)
    ensures a == b
  {
    FirstExactly(rows, now, a);
    FirstExactly(rows, now, b);
    BeforeAntisymmetric(rows, a, b);
  }

  // ----- The steps -----

  ghost function First(rows: Table, now: Moment): (first: Option<string>)
    ensures first.None? <==> DueIds(rows, now) == {}
    ensures first.Some? ==> IsFirst(rows, now, first.value)
  {
    if exists id :: IsFirst(rows, now, id) then
      var id :| IsFirst(rows, now, id);
      assert id in DueIds(rows, now);
      Some(id)
    else
      assert DueIds(rows, now) == {} by {
        if DueIds(rows, now) != {} { var id := FirstExists(rows, now); }
      }
      None
  }

  function Take(row: Row, now: Moment): Row {
    row.(state := Processing, attempts := row.attempts + 1, claimedAt := Some(now), updatedAt := now)
  }

  ghost function ClaimStep(rows: Table, lease: int, now: Moment): (Table, Outcome) {
    match Shift(now, -lease * SECOND)
    case None => (rows, Unrepresentable)
    case Some(staleBefore) =>
      var rows := Released(rows, staleBefore, now);
      match First(rows, now)
      case None => (rows, NothingDue)
      case Some(id) => (rows[id := Take(rows[id], now)], Claimed(id))
  }

  ghost function Step(rows: Table, lease: int, call: Call): (Table, Outcome) {
    var now := call.at;
    match call.op
    case Enqueue(id, tenant, user) =>
      if id in rows then (rows, Refused)
      else (rows[id := Row(tenant, user, Pending, 0, now, None, None, None, false, 0, now, now)], Enqueued(id))
    case Claim => ClaimStep(rows, lease, now)
    case Heartbeat(id) =>
      if id in rows && rows[id].state == Processing
      then (rows[id := rows[id].(claimedAt := Some(now), updatedAt := now)], Beat(id))
      else (rows, Refused)
    case Complete(id, assignmentRemoved, grantsDisabled) =>
      if id in rows && rows[id].state == Processing
      then (rows[id := rows[id].(state := Completed, completedAt := Some(now), claimedAt := None, lastError := None,
                                 assignmentRemoved := assignmentRemoved, grantsDisabled := grantsDisabled, updatedAt := now)],
            Done(id))
      else (rows, Refused)
    case Fail(id, error, retryAt, deadLetter, assignmentRemoved, grantsDisabled) =>
      if id in rows && rows[id].state == Processing
      then (rows[id := rows[id].(state := if deadLetter then DeadLetter else Pending, nextAttempt := retryAt, claimedAt := None,
                                 lastError := Some(Cut(error)), assignmentRemoved := assignmentRemoved,
                                 grantsDisabled := grantsDisabled, updatedAt := now)],
            Failed(id))
      else (rows, Refused)
    case Retry(tenant, id) =>
      if id in rows && rows[id].tenant == tenant && rows[id].state in {Pending, DeadLetter}
      then (rows[id := rows[id].(state := Pending, nextAttempt := now, claimedAt := None, completedAt := None,
                                 lastError := None, updatedAt := now)],
            Retried(id))
      else (rows, Refused)
  }

  /** `error[:2000]` */
  function Cut(error: string): string {
    if |error| > 2000 then error[..2000] else error
  }

  // ----- Which event a claim takes -----

  /** When the row can be claimed, and from when it counts as due. */
  predicate Available(row: Row, lease: int, now: Moment) {
    (row.state == Pending && Instant(row.nextAttempt) <= Instant(now))
    || (row.state == Processing && row.claimedAt.Some? && Instant(row.claimedAt.value) + lease * SECOND < Instant(now))
  }

  function DueSince(row: Row, now: Moment): Moment {
    if row.state == Pending then row.nextAttempt else now
  }

  predicate ClaimedBefore(rows: Table, now: Moment, a: string, b: string)
    requires a in rows && b in rows
  {
    var (x, y) := (DueSince(rows[a], now), DueSince(rows[b], now));
    Instant(x) < Instant(y)
    || (Instant(x) == Instant(y)
        && (Instant(rows[a].createdAt) < Instant(rows[b].createdAt)
            || (Instant(rows[a].createdAt) == Instant(rows[b].createdAt) && TextAtMost(a, b))))
  }

  lemma ReleasedDue(rows: Table, lease: int, now: Moment, staleBefore: Moment, id: string)
    requires Shift(now, -lease * SECOND) == Some(staleBefore) && id in rows
    ensures var r := Released(rows, staleBefore, now);
            (Due(r[id], now) <==> Available(rows[id], lease, now))
            && (Due(r[id], now) ==> r[id].nextAttempt == DueSince(rows[id], now)) && r[id].createdAt == rows[id].createdAt
  {
    var r := Released(rows, staleBefore, now);
    StaleIsChronological(rows[id], staleBefore);
    DueIsChronological(r[id], now);
    hide Instant, Shift, Due, Iso, Stale;
    assert Instant(staleBefore) == Instant(now) - lease * SECOND;
  }

  /** A claim takes an event exactly when one is available, and then the one due for longest, by
      creation time and id among equals; it counts the attempt. */
  lemma ClaimTakesLeastDue(rows: Table, lease: int, now: Moment)
    requires Shift(now, -lease * SECOND).Some?
    ensures match ClaimStep(rows, lease, now)
            case (after, Claimed(id)) =>
              id in rows && Available(rows[id], lease, now)
              && (forall other :: other in rows && Available(rows[other], lease, now) ==> ClaimedBefore(rows, now, id, other))
              && id in after && after[id].state == Processing && after[id].claimedAt == Some(now)
              && after[id].attempts == rows[id].attempts + 1
            case (after, NothingDue) => forall id :: id in rows ==> !Available(rows[id], lease, now)
            case _ => false
  {
    var staleBefore := Shift(now, -lease * SECOND).value;
    var released := Released(rows, staleBefore, now);
    forall id | id in rows
      ensures Due(released[id], now) <==> Available(rows[id], lease, now)
      ensures Due(released[id], now) ==> released[id].nextAttempt == DueSince(rows[id], now)
      ensures released[id].createdAt == rows[id].createdAt
    {
      ReleasedDue(rows, lease, now, staleBefore, id);
    }
    var first := First(released, now);
    hide Due, Shift, Available, Instant, DueSince, Before, Precedes;
    if first.None? {
      forall id | id in rows ensures !Available(rows[id], lease, now) {
        assert id !in DueIds(released, now);
      }
    } else {
      var id := first.value;
      FirstExactly(released, now, id);
      forall other | other in rows && Available(rows[other], lease, now) ensures ClaimedBefore(rows, now, id, other) {
        assert other in DueIds(released, now);
        assert Before(released, id, other);
        BeforeIsClaimedBefore(released, rows, now, id, other);
      }
    }
  }

  lemma BeforeIsClaimedBefore(released: Table, rows: Table, now: Moment, a: string, b: string)
    requires a in rows && b in rows && a in released && b in released && Before(released, a, b)
    requires released[a].nextAttempt == DueSince(rows[a], now) && released[b].nextAttempt == DueSince(rows[b], now)
    requires released[a].createdAt == rows[a].createdAt && released[b].createdAt == rows[b].createdAt
    ensures ClaimedBefore(rows, now, a, b)
  {
  }

  // ----- Runs from an empty table -----

  /** The table after the calls, and what each answered. */
  ghost function Run(lease: int, calls: seq<Call>): (r: (Table, seq<Outcome>))
    ensures |r.1| == |calls|
  {
    if calls == [] then (map[], [])
    else
      var n := |calls| - 1;
      var (rows, outcomes) := Run(lease, calls[..n]);
      var (after, outcome) := Step(rows, lease, calls[n]);
      (after, outcomes + [outcome])
  }

  lemma RunLast(lease: int, calls: seq<Call>, n: nat)
    requires n < |calls|
    ensures var (rows, outcomes) := Run(lease, calls[..n]);
            var (after, outcome) := Step(rows, lease, calls[n]);
            Run(lease, calls[..n + 1]) == (after, outcomes + [outcome])
  {
    assert calls[..n + 1][..n] == calls[..n];
    hide Step;
  }

  lemma {:induction false} RunPrefix(lease: int, calls: seq<Call>, n: nat)
    requires n <= |calls|
    ensures Run(lease, calls[..n]).1 == Run(lease, calls).1[..n]
    decreases |calls| - n
  {
    if n < |calls| {
      RunPrefix(lease, calls, n + 1);
      RunLast(lease, calls, n);
      hide Run, Step;
      assert Run(lease, calls[..n]).1 == Run(lease, calls[..n + 1]).1[..n];
    } else {
      assert calls[..n] == calls;
    }
  }

  function Claims(outcomes: seq<Outcome>, id: string): nat {
    if outcomes == [] then 0
    else
      var n := |outcomes| - 1;
      Claims(outcomes[..n], id) + if outcomes[n] == Claimed(id) then 1 else 0
  }

  predicate SignOfLife(outcome: Outcome, id: string) {
    outcome == Claimed(id) || outcome == Beat(id)
  }

  predicate Ends(outcome: Outcome, id: string) {
    outcome == Failed(id) || outcome == Done(id)
  }

  /** While a claim of the event has neither failed nor completed: the call that last claimed it or
      sent a heartbeat. */
  function Held(outcomes: seq<Outcome>, id: string): (held: Option<nat>)
    ensures held.Some? ==> held.value < |outcomes|
    decreases |outcomes|
  {
    if outcomes == [] then None
    else
      var n := |outcomes| - 1;
      if SignOfLife(outcomes[n], id) then Some(n)
      else if Ends(outcomes[n], id) then None
      else Held(outcomes[..n], id)
  }

  predicate Monotone(calls: seq<Call>) {
    forall i, j :: 0 <= i <= j < |calls| ==> Instant(calls[i].at) <= Instant(calls[j].at)
  }

  /** `claimed_at` is set exactly for processing rows and `completed_at` for completed ones. */
  predicate Consistent(row: Row) {
    (row.claimedAt.Some? <==> row.state == Processing) && (row.completedAt.Some? <==> row.state == Completed)
  }

  ghost predicate Invariant(rows: Table, outcomes: seq<Outcome>) {
    forall id :: RowInvariant(Find(rows, id), Claims(outcomes, id), Held(outcomes, id))
  }

  predicate RowInvariant(row: Option<Row>, claims: nat, held: Option<nat>) {
    match row
    case Some(row) => Consistent(row) && row.attempts == claims
    case None => claims == 0 && held == None
  }

  /** A processing row whose last sign of life is longer ago than the lease. */
  predicate Expired(row: Row, lease: int, now: Moment) {
    row.state == Processing && row.claimedAt.Some? && Instant(row.claimedAt.value) + lease * SECOND < Instant(now)
  }

  function Find(rows: Table, id: string): Option<Row> {
    if id in rows then Some(rows[id]) else None
  }

  /** How one call can change the row of one event. */
  predicate RowStep(before: Option<Row>, after: Option<Row>, outcome: Outcome, id: string, lease: int, now: Moment) {
    if outcome == Enqueued(id) then
      before.None? && after.Some? && Consistent(after.value) && after.value.state == Pending && after.value.attempts == 0
    else if outcome == Claimed(id) then
      before.Some? && (before.value.state == Pending || Expired(before.value, lease, now))
      && after == Some(Take(if before.value.state == Pending then before.value else Release(before.value, now), now))
    else if outcome == Beat(id) then
      before.Some? && before.value.state == Processing
      && after == Some(before.value.(claimedAt := Some(now), updatedAt := now))
    else if outcome == Done(id) then
      before.Some? && before.value.state == Processing && after.Some? && after.value.state == Completed
      && after.value.claimedAt == None && after.value.completedAt == Some(now) && after.value.attempts == before.value.attempts
    else if outcome == Failed(id) then
      before.Some? && before.value.state == Processing && after.Some? && after.value.state in {Pending, DeadLetter}
      && after.value.claimedAt == None && after.value.completedAt == before.value.completedAt
      && after.value.attempts == before.value.attempts
    else if outcome == Retried(id) then
      before.Some? && before.value.state in {Pending, DeadLetter} && after.Some? && after.value.state == Pending
      && after.value.claimedAt == None && after.value.completedAt == None && after.value.attempts == before.value.attempts
    else
      after == before || (before.Some? && Expired(before.value, lease, now) && after == Some(Release(before.value, now)))
  }

  lemma ReleasedRow(rows: Table, staleBefore: Moment, now: Moment, lease: int, id: string)
    requires Shift(now, -lease * SECOND) == Some(staleBefore)
    ensures Find(Released(rows, staleBefore, now), id)
            == if id !in rows then None
               else Some(if Expired(rows[id], lease, now) then Release(rows[id], now) else rows[id])
  {
    if id in rows {
      StaleIsChronological(rows[id], staleBefore);
      hide Shift, Stale, Instant, Iso;
      assert Instant(staleBefore) == Instant(now) - lease * SECOND;
    }
  }

  lemma ClaimedRowStep(before: Row, released: Row, id: string, lease: int, now: Moment)
    requires released == if Expired(before, lease, now) then Release(before, now) else before
    requires released.state == Pending
    ensures RowStep(Some(before), Some(Take(released, now)), Claimed(id), id, lease, now)
  {
  }

  lemma OtherRowStep(before: Option<Row>, outcome: Outcome, id: string, lease: int, now: Moment)
    requires outcome == NothingDue || outcome == Unrepresentable || outcome == Refused || (outcome.Claimed? && outcome.id != id)
    ensures RowStep(before, before, outcome, id, lease, now)
    ensures before.Some? && Expired(before.value, lease, now) ==> RowStep(before, Some(Release(before.value, now)), outcome, id, lease, now)
  {
  }

  lemma ClaimIsRowStep(rows: Table, lease: int, now: Moment, id: string)
    ensures RowStep(Find(rows, id), Find(ClaimStep(rows, lease, now).0, id), ClaimStep(rows, lease, now).1, id, lease, now)
  {
    var shifted := Shift(now, -lease * SECOND);
    hide Shift, DueIds, Precedes, Expired, Iso, TextAtMost, RowStep, Take, Release;
    if shifted.None? {
      OtherRowStep(Find(rows, id), Unrepresentable, id, lease, now);
    } else {
      ReleasedRow(rows, shifted.value, now, lease, id);
      var released := Released(rows, shifted.value, now);
      hide Released;
      var first := First(released, now);
      if first == Some(id) {
        assert Due(released[id], now);
        ClaimedRowStep(rows[id], released[id], id, lease, now);
      } else {
        OtherRowStep(Find(rows, id), if first.Some? then Claimed(first.value) else NothingDue, id, lease, now);
        assert Find(ClaimStep(rows, lease, now).0, id) == Find(released, id);
      }
    }
  }

  lemma StepIsRowStep(rows: Table, lease: int, call: Call, id: string)
    requires id in rows ==> Consistent(rows[id])
    ensures RowStep(Find(rows, id), Find(Step(rows, lease, call).0, id), Step(rows, lease, call).1, id, lease, call.at)
  {
    match call.op
    case Claim => ClaimIsRowStep(rows, lease, call.at, id);
    case Enqueue(_, _, _) => StartIsRowStep(rows, lease, call, id);
    case Heartbeat(_) => StartIsRowStep(rows, lease, call, id);
    case Complete(_, _, _) => EndIsRowStep(rows, lease, call, id);
    case Fail(_, _, _, _, _, _) => EndIsRowStep(rows, lease, call, id);
    case Retry(_, _) => RetryIsRowStep(rows, lease, call, id);
  }

  lemma StartIsRowStep(rows: Table, lease: int, call: Call, id: string)
    requires call.op.Enqueue? || call.op.Heartbeat?
    ensures RowStep(Find(rows, id), Find(Step(rows, lease, call).0, id), Step(rows, lease, call).1, id, lease, call.at)
  {
    hide ClaimStep, Cut, Expired;
  }

  lemma EndIsRowStep(rows: Table, lease: int, call: Call, id: string)
    requires call.op.Complete? || call.op.Fail?
    ensures RowStep(Find(rows, id), Find(Step(rows, lease, call).0, id), Step(rows, lease, call).1, id, lease, call.at)
  {
    hide ClaimStep, Cut, Expired;
  }

  lemma RetryIsRowStep(rows: Table, lease: int, call: Call, id: string)
    requires call.op.Retry?
    ensures RowStep(Find(rows, id), Find(Step(rows, lease, call).0, id), Step(rows, lease, call).1, id, lease, call.at)
  {
    hide ClaimStep, Cut, Expired;
  }

  lemma RowStepKeepsInvariant(before: Option<Row>, after: Option<Row>, outcome: Outcome, id: string, lease: int, now: Moment,
                              claims: nat, held: Option<nat>, n: nat)
    requires RowStep(before, after, outcome, id, lease, now) && RowInvariant(before, claims, held)
    ensures RowInvariant(after, claims + (if outcome == Claimed(id) then 1 else 0),
                         if SignOfLife(outcome, id) then Some(n) else if Ends(outcome, id) then None else held)
  {
    hide Instant;
  }

  lemma AppendedOutcome(outcomes: seq<Outcome>, outcome: Outcome, id: string)
    ensures Claims(outcomes + [outcome], id) == Claims(outcomes, id) + if outcome == Claimed(id) then 1 else 0
    ensures Held(outcomes + [outcome], id)
            == if SignOfLife(outcome, id) then Some(|outcomes|) else if Ends(outcome, id) then None else Held(outcomes, id)
  {
    assert (outcomes + [outcome])[..|outcomes|] == outcomes;
    hide SignOfLife, Ends;
  }

  /** In every run from the empty table `claimed_at` is set exactly for the rows being processed,
      `completed_at` for the completed ones, and `attempts` is the number of claims. */
  lemma {:induction false} RunsKeepInvariant(lease: int, calls: seq<Call>)
    ensures Invariant(Run(lease, calls).0, Run(lease, calls).1)
  {
    if calls != [] {
      var n := |calls| - 1;
      RunsKeepInvariant(lease, calls[..n]);
      RunLast(lease, calls, n);
      assert calls[..n + 1] == calls;
      var (rows, outcomes) := Run(lease, calls[..n]);
      var (after, outcome) := Step(rows, lease, calls[n]);
      hide Run, Step, RowStep, RowInvariant, Claims, Held, SignOfLife, Ends;
      forall id
        ensures RowInvariant(Find(after, id), Claims(outcomes + [outcome], id), Held(outcomes + [outcome], id))
      {
        assert RowInvariant(Find(rows, id), Claims(outcomes, id), Held(outcomes, id));
        ConsistentRow(Find(rows, id), Claims(outcomes, id), Held(outcomes, id));
        StepIsRowStep(rows, lease, calls[n], id);
        AppendedOutcome(outcomes, outcome, id);
        RowStepKeepsInvariant(Find(rows, id), Find(after, id), outcome, id, lease, calls[n].at,
                              Claims(outcomes, id), Held(outcomes, id), n);
      }
    }
  }

  lemma ConsistentRow(row: Option<Row>, claims: nat, held: Option<nat>)
    requires RowInvariant(row, claims, held)
    ensures row.Some? ==> Consistent(row.value)
  {
  }

  // ----- Leases -----

  /** The row of an event whose claim is held: in processing since its last sign of life, or
      released because that was longer ago than the lease. */
  predicate HeldRow(row: Row, sign: Moment, lease: int, now: Moment) {
    (row.state == Processing && row.claimedAt == Some(sign))
    || (row.state == Pending && Instant(sign) + lease * SECOND < Instant(now))
  }

  lemma HeldRowStep(before: Option<Row>, after: Option<Row>, outcome: Outcome, id: string, lease: int, now: Moment,
                    held: Option<Moment>, last: Moment)
    requires before.Some? ==> Consistent(before.value)
    requires RowStep(before, after, outcome, id, lease, now) && Instant(last) <= Instant(now)
    requires if held.Some? then before.Some? && HeldRow(before.value, held.value, lease, last)
             else before.Some? ==> before.value.state != Processing
    ensures var held := if SignOfLife(outcome, id) then Some(now) else if Ends(outcome, id) then None else held;
            if held.Some? then after.Some? && HeldRow(after.value, held.value, lease, now)
            else after.Some? ==> after.value.state != Processing
  {
    hide Instant;
  }

  lemma {:induction false} HeldState(lease: int, calls: seq<Call>, id: string)
    requires Monotone(calls)
    ensures var (rows, outcomes) := Run(lease, calls);
            var held := Held(outcomes, id);
            if held.Some? then id in rows && HeldRow(rows[id], calls[held.value].at, lease, calls[|calls| - 1].at)
            else id in rows ==> rows[id].state != Processing
  {
    if calls != [] {
      hide Run, Step, Held, Claims, Instant, HeldRow, RowStep, RowInvariant, SignOfLife, Ends, Monotone;
      var n := |calls| - 1;
      var earlier := calls[..n];
      MonotonePrefix(calls, n);
      HeldState(lease, earlier, id);
      RunsKeepInvariant(lease, earlier);
      RunLast(lease, calls, n);
      assert calls[..n + 1] == calls;
      var (rows, outcomes) := Run(lease, earlier);
      var (after, outcome) := Step(rows, lease, calls[n]);
      assert RowInvariant(Find(rows, id), Claims(outcomes, id), Held(outcomes, id));
      ConsistentRow(Find(rows, id), Claims(outcomes, id), Held(outcomes, id));
      StepIsRowStep(rows, lease, calls[n], id);
      AppendedOutcome(outcomes, outcome, id);
      var held := Held(outcomes, id);
      HeldRowStep(Find(rows, id), Find(after, id), outcome, id, lease, calls[n].at,
                  if held.Some? then Some(earlier[held.value].at) else None, if n == 0 then calls[n].at else earlier[n - 1].at);
    }
  }

  lemma MonotonePrefix(calls: seq<Call>, n: nat)
    requires Monotone(calls) && n < |calls|
    ensures Monotone(calls[..n]) && Instant(if n == 0 then calls[n].at else calls[n - 1].at) <= Instant(calls[n].at)
  {
    hide Instant;
  }

  lemma {:induction false} HeldSince(outcomes: seq<Outcome>, i: nat, id: string)
    requires i < |outcomes| && outcomes[i] == Claimed(id)
    requires forall k :: i < k < |outcomes| ==> !Ends(outcomes[k], id)
    ensures var held := Held(outcomes, id);
            held.Some? && i <= held.value && SignOfLife(outcomes[held.value], id)
            && forall k :: held.value < k < |outcomes| ==> !SignOfLife(outcomes[k], id)
  {
    var n := |outcomes| - 1;
    if i < n && !SignOfLife(outcomes[n], id) {
      HeldSince(outcomes[..n], i, id);
    }
  }

  /** A completed event stays as it is. */
  lemma CompletedUnchanged(rows: Table, lease: int, call: Call, id: string)
    requires id in rows && rows[id].state == Completed && Consistent(rows[id])
    ensures id in Step(rows, lease, call).0 && Step(rows, lease, call).0[id] == rows[id]
  {
    StepIsRowStep(rows, lease, call, id);
    hide Step;
  }

  lemma DoneCompletes(rows: Table, lease: int, call: Call, id: string)
    requires id in rows ==> Consistent(rows[id])
    requires Step(rows, lease, call).1 == Done(id)
    ensures var after := Step(rows, lease, call).0; id in after && after[id].state == Completed
  {
    StepIsRowStep(rows, lease, call, id);
    hide Step;
  }

  lemma {:induction false} CompletedStays(lease: int, calls: seq<Call>, k: nat, n: nat, id: string)
    requires k < n <= |calls| && Run(lease, calls).1[k] == Done(id)
    ensures var rows := Run(lease, calls[..n]).0; id in rows && rows[id].state == Completed
    decreases n
  {
    hide Run, Step, Claims, Held;
    var (rows, outcomes) := Run(lease, calls[..n - 1]);
    RunsKeepInvariant(lease, calls[..n - 1]);
    RunLast(lease, calls, n - 1);
    RunPrefix(lease, calls, n);
    assert RowInvariant(Find(rows, id), Claims(outcomes, id), Held(outcomes, id));
    if n - 1 > k {
      CompletedStays(lease, calls, k, n - 1, id);
      CompletedUnchanged(rows, lease, calls[n - 1], id);
    } else {
      DoneCompletes(rows, lease, calls[n - 1], id);
    }
  }

  /** A claim of an event, when the claims before it are held. */
  lemma ClaimOfHeld(lease: int, calls: seq<Call>, j: nat, id: string)
    requires Monotone(calls) && j < |calls| && Run(lease, calls).1[j] == Claimed(id)
    ensures var held := Held(Run(lease, calls).1[..j], id);
            held.Some? ==> Instant(calls[held.value].at) + lease * SECOND < Instant(calls[j].at)
    ensures id in Run(lease, calls[..j]).0 && Run(lease, calls[..j]).0[id].state != Completed
  {
    hide Run, Step, Held, Claims, Instant;
    var (rows, outcomes) := Run(lease, calls[..j]);
    RunsKeepInvariant(lease, calls[..j]);
    assert RowInvariant(Find(rows, id), Claims(outcomes, id), Held(outcomes, id));
    RunLast(lease, calls, j);
    RunPrefix(lease, calls, j);
    RunPrefix(lease, calls, j + 1);
    StepIsRowStep(rows, lease, calls[j], id);
    HeldState(lease, calls[..j], id);
    assert j > 0 ==> Instant(calls[j - 1].at) <= Instant(calls[j].at);
  }

  lemma LastSign(outcomes: seq<Outcome>, i: nat, j: nat, id: string) returns (k: nat)
    requires i < j <= |outcomes| && outcomes[i] == Claimed(id)
    requires forall m :: i < m < j ==> !Ends(outcomes[m], id)
    ensures i <= k < j && Held(outcomes[..j], id) == Some(k) && SignOfLife(outcomes[k], id)
    ensures forall m :: k < m < j ==> !SignOfLife(outcomes[m], id)
  {
    hide Held, SignOfLife, Ends;
    HeldSince(outcomes[..j], i, id);
    k := Held(outcomes[..j], id).value;
    forall m | k < m < j ensures !SignOfLife(outcomes[m], id) { assert outcomes[..j][m] == outcomes[m]; }
  }

  /** Leases exclude: of two claims of the same event, either a failure lies between them, or the
      later one comes more than the lease after the last claim or heartbeat before it. */
  lemma ClaimsAreSeparated(lease: int, calls: seq<Call>, i: nat, j: nat, id: string)
    requires Monotone(calls) && i < j < |calls|
    requires Run(lease, calls).1[i] == Claimed(id) && Run(lease, calls).1[j] == Claimed(id)
    ensures var outcomes := Run(lease, calls).1;
            (exists k :: i < k < j && outcomes[k] == Failed(id))
            || exists k :: i <= k < j && SignOfLife(outcomes[k], id)
                 && (forall m :: k < m < j ==> !SignOfLife(outcomes[m], id))
                 && Instant(calls[k].at) + lease * SECOND < Instant(calls[j].at)
  {
    hide Run, Held, SignOfLife, Instant;
    var outcomes := Run(lease, calls).1;
    ClaimOfHeld(lease, calls, j, id);
    if forall k :: i < k < j ==> outcomes[k] != Failed(id) {
      forall k | i < k < j ensures !Ends(outcomes[k], id) {
        if outcomes[k] == Done(id) { CompletedStays(lease, calls, k, j, id); }
      }
      hide Ends;
      var k := LastSign(outcomes, i, j, id);
    }
  }

  // ----- After a failure, and after a retry -----

  /** When an event is due after its processing failed: from the retry time on, or never when it was
      given up. */
  lemma FailedIsDueExactly(rows: Table, lease: int, call: Call, now: Moment)
    requires call.op.Fail? && call.op.id in rows && rows[call.op.id].state == Processing
    ensures var op, (after, outcome) := call.op, Step(rows, lease, call);
            outcome == Failed(op.id) && op.id in after
            && (Available(after[op.id], lease, now) <==> !op.deadLetter && Instant(op.retryAt) <= Instant(now))
  {
    hide Instant;
  }

  /** A manual retry of an event of the tenant, given up or waiting, makes it due at once. */
  lemma RetriedIsDueExactly(rows: Table, lease: int, call: Call, now: Moment)
    requires call.op.Retry?
    requires call.op.id in rows && rows[call.op.id].tenant == call.op.tenant && rows[call.op.id].state in {Pending, DeadLetter}
    ensures var (after, outcome) := Step(rows, lease, call);
            outcome == Retried(call.op.id) && call.op.id in after
            && after[call.op.id].lastError == None && after[call.op.id].attempts == rows[call.op.id].attempts
            && (Available(after[call.op.id], lease, now) <==> Instant(call.at) <= Instant(now))
  {
    hide Instant;
  }

  /** A new event is due at once, with no attempt made. */
  lemma EnqueuedIsDueExactly(rows: Table, lease: int, call: Call, now: Moment)
    requires call.op.Enqueue? && call.op.id !in rows
    ensures var op, (after, outcome) := call.op, Step(rows, lease, call);
            outcome == Enqueued(op.id) && op.id in after && after[op.id].tenant == op.tenant && after[op.id].user == op.user
            && after[op.id].attempts == 0 && after[op.id].createdAt == call.at && after[op.id].updatedAt == call.at
            && !after[op.id].assignmentRemoved && after[op.id].grantsDisabled == 0 && after[op.id].lastError == None
            && (Available(after[op.id], lease, now) <==> Instant(call.at) <= Instant(now))
  {
    hide Instant, ClaimStep;
  }

  /** The table after further calls. */
  ghost function Continued(rows: Table, lease: int, calls: seq<Call>): Table
    decreases |calls|
  {
    if calls == [] then rows else Continued(Step(rows, lease, calls[0]).0, lease, calls[1..])
  }

  /** The calls that answer with this event. */
  ghost predicate Answers(rows: Table, lease: int, calls: seq<Call>, outcome: Outcome)
    decreases |calls|
  {
    calls != [] && (Step(rows, lease, calls[0]).1 == outcome || Answers(Step(rows, lease, calls[0]).0, lease, calls[1..], outcome))
  }

  predicate RetriesOwn(call: Call, row: Row, id: string) {
    call.op.Retry? && call.op.id == id && call.op.tenant == row.tenant
  }

  lemma WaitingStep(rows: Table, lease: int, call: Call, id: string)
    requires id in rows && rows[id].state in {Pending, DeadLetter}
    requires !RetriesOwn(call, rows[id], id) && Step(rows, lease, call).1 != Claimed(id)
    ensures id in Step(rows, lease, call).0 && Step(rows, lease, call).0[id] == rows[id]
  {
    if call.op.Claim? {
      ClaimIsRowStep(rows, lease, call.at, id);
      ClaimOutcome(rows, lease, call.at);
      hide ClaimStep;
    } else {
      hide ClaimStep, Cut;
    }
  }

  lemma ClaimOutcome(rows: Table, lease: int, now: Moment)
    ensures var outcome := ClaimStep(rows, lease, now).1; outcome.Claimed? || outcome == NothingDue || outcome == Unrepresentable
  {
    hide Shift, Released;
  }

  /** A failed event waits as it is, whatever is called, until it is claimed or its own tenant
      retries it. */
  lemma {:induction false} WaitingStays(rows: Table, lease: int, calls: seq<Call>, id: string)
    requires id in rows && rows[id].state in {Pending, DeadLetter}
    requires (forall c :: c in calls ==> !RetriesOwn(c, rows[id], id)) && !Answers(rows, lease, calls, Claimed(id))
    ensures var after := Continued(rows, lease, calls); id in after && after[id] == rows[id]
    decreases |calls|
  {
    hide Step;
    if calls != [] {
      assert calls[0] in calls;
      WaitingStep(rows, lease, calls[0], id);
      WaitingStays(Step(rows, lease, calls[0]).0, lease, calls[1..], id);
    }
  }

  lemma DeadLetterIsNotClaimed(rows: Table, lease: int, call: Call, id: string)
    requires id in rows && rows[id].state == DeadLetter
    ensures Step(rows, lease, call).1 != Claimed(id)
  {
    if call.op.Claim? {
      ClaimIsRowStep(rows, lease, call.at, id);
      hide ClaimStep;
    } else {
      hide ClaimStep, Cut;
    }
  }

  /** An event that was given up is never due again and never claimed, over any calls, until its own
      tenant retries it. */
  lemma {:induction false} DeadLetterStays(rows: Table, lease: int, calls: seq<Call>, id: string, now: Moment)
    requires id in rows && rows[id].state == DeadLetter
    requires forall c :: c in calls ==> !RetriesOwn(c, rows[id], id)
    ensures !Answers(rows, lease, calls, Claimed(id))
    ensures var after := Continued(rows, lease, calls); id in after && after[id] == rows[id] && !Available(after[id], lease, now)
    decreases |calls|
  {
    hide Step, Instant;
    if calls != [] {
      assert calls[0] in calls;
      DeadLetterIsNotClaimed(rows, lease, calls[0], id);
      WaitingStep(rows, lease, calls[0], id);
      DeadLetterStays(Step(rows, lease, calls[0]).0, lease, calls[1..], id, now);
    }
  }

  // ----- The worker's failures -----

  function Power2(n: nat): nat {
    if n == 0 then 1 else 2 * Power2(n - 1)
  }

  /** `min(3600, 2 ** min(attempts, 11))` seconds */
  function RetryDelay(attempts: nat): nat {
    var doubled := Power2(if attempts < 11 then attempts else 11);
    if doubled < 3600 then doubled else 3600
  }

  /** A failure as the worker reports it: given up from `maxAttempts` attempts on. */
  predicate IsWorkerFailure(call: Call, row: Row, maxAttempts: int) {
    call.op.Fail? && (call.op.deadLetter <==> row.attempts >= maxAttempts)
    && Shift(call.at, RetryDelay(row.attempts) * SECOND) == Some(call.op.retryAt)
  }

  /** The delay doubles with every attempt from one second on, up to 2,048 seconds; the cap of an
      hour is never reached. */
  lemma DelayDoubles(attempts: nat)
    ensures RetryDelay(0) == 1 && (attempts >= 11 ==> RetryDelay(attempts) == 2048)
    ensures attempts < 11 ==> RetryDelay(attempts + 1) == 2 * RetryDelay(attempts)
  {
    assert Power2(6) == 2 * Power2(5) == 4 * Power2(4) == 8 * Power2(3) == 16 * Power2(2) == 64;
    assert Power2(11) == 2 * Power2(10) == 4 * Power2(9) == 8 * Power2(8) == 16 * Power2(7) == 32 * Power2(6);
    if attempts < 11 { PowersRise(attempts + 1, 11); }
  }

  lemma {:induction false} PowersRise(m: nat, n: nat)
    requires m <= n
    ensures Power2(m) <= Power2(n)
    decreases n - m
  {
    if m < n { PowersRise(m, n - 1); }
  }

  /** After a failure of the worker the event is due again from that many seconds later on, unless
      its attempts are used up. */
  lemma WorkerRetriesExactly(rows: Table, lease: int, call: Call, maxAttempts: int, now: Moment)
    requires call.op.Fail? && call.op.id in rows && rows[call.op.id].state == Processing
    requires IsWorkerFailure(call, rows[call.op.id], maxAttempts)
    ensures var row, after := rows[call.op.id], Step(rows, lease, call).0;
            call.op.id in after
            && (Available(after[call.op.id], lease, now)
                <==> row.attempts < maxAttempts && Instant(call.at) + RetryDelay(row.attempts) * SECOND <= Instant(now))
  {
    FailedIsDueExactly(rows, lease, call, now);
    hide Step, Available, Instant, RetryDelay;
  }

  /** All failures of the run are reported by the worker. */
  ghost predicate WorkerRun(lease: int, calls: seq<Call>, maxAttempts: int) {
    forall n :: 0 <= n < |calls| && calls[n].op.Fail? && calls[n].op.id in Run(lease, calls[..n]).0 ==>
      IsWorkerFailure(calls[n], Run(lease, calls[..n]).0[calls[n].op.id], maxAttempts)
  }

  lemma GivenUpStep(rows: Table, lease: int, call: Call, id: string, maxAttempts: int)
    requires id in rows ==> Consistent(rows[id]) && (rows[id].state == DeadLetter ==> rows[id].attempts >= maxAttempts)
    requires call.op.Fail? && call.op.id in rows ==> IsWorkerFailure(call, rows[call.op.id], maxAttempts)
    ensures var after := Step(rows, lease, call).0;
            id in after && after[id].state == DeadLetter ==> after[id].attempts >= maxAttempts
  {
    StepIsRowStep(rows, lease, call, id);
    if call.op.Fail? {
      hide ClaimStep, Cut, Shift, RetryDelay;
    } else {
      OnlyFailFails(rows, lease, call, id);
      hide Step;
    }
  }

  lemma OnlyFailFails(rows: Table, lease: int, call: Call, id: string)
    requires !call.op.Fail?
    ensures Step(rows, lease, call).1 != Failed(id)
  {
    if call.op.Claim? { ClaimOutcome(rows, lease, call.at); }
    hide ClaimStep;
  }

  /** In every run whose failures are the worker's, an event is given up only after it was claimed as
      often as the worker's maximum. */
  lemma {:induction false} GivenUpAfterMaximum(lease: int, calls: seq<Call>, maxAttempts: int, id: string)
    requires WorkerRun(lease, calls, maxAttempts)
    ensures var (rows, outcomes) := Run(lease, calls);
            id in rows && rows[id].state == DeadLetter ==> rows[id].attempts >= maxAttempts && Claims(outcomes, id) >= maxAttempts
  {
    hide Step, Claims, Held, IsWorkerFailure;
    RunsKeepInvariant(lease, calls);
    var (rows, outcomes) := Run(lease, calls);
    assert RowInvariant(Find(rows, id), Claims(outcomes, id), Held(outcomes, id));
    if calls != [] {
      var n := |calls| - 1;
      WorkerPrefix(lease, calls, n, maxAttempts);
      GivenUpAfterMaximum(lease, calls[..n], maxAttempts, id);
      RunsKeepInvariant(lease, calls[..n]);
      RunLast(lease, calls, n);
      assert calls[..n + 1] == calls;
      var (earlier, before) := Run(lease, calls[..n]);
      hide Run;
      assert RowInvariant(Find(earlier, id), Claims(before, id), Held(before, id));
      GivenUpStep(earlier, lease, calls[n], id, maxAttempts);
    }
  }

  lemma WorkerPrefix(lease: int, calls: seq<Call>, n: nat, maxAttempts: int)
    requires n <= |calls| && WorkerRun(lease, calls, maxAttempts)
    ensures WorkerRun(lease, calls[..n], maxAttempts)
  {
    hide Run, IsWorkerFailure;
    forall i | 0 <= i < n ensures calls[..n][..i] == calls[..i] {}
  }

  /** What was reported of the work is what the row says afterwards; the error is cut to 2,000
      characters, and an event that completes has none. */
  lemma ReportIsKept(rows: Table, lease: int, call: Call)
    requires (call.op.Complete? || call.op.Fail?) && call.op.id in rows && rows[call.op.id].state == Processing
    ensures var op, row := call.op, rows[call.op.id];
            var after := Step(rows, lease, call).0[op.id];
            after.assignmentRemoved == op.assignmentRemoved && after.grantsDisabled == op.grantsDisabled
            && after.updatedAt == call.at && after.createdAt == row.createdAt && after.user == row.user && after.tenant == row.tenant
            && (op.Complete? ==> after.lastError == None && after.completedAt == Some(call.at) && after.state == Completed)
            && (op.Fail? ==> after.lastError.Some? && after.lastError.value <= op.error
                             && |after.lastError.value| == if |op.error| > 2000 then 2000 else |op.error|)
  {
    hide ClaimStep;
  }

  // ----- The store -----

  class SQLiteUserDeprovisioningQueue {
    var rows: Table

    constructor ()
      ensures rows == map[]
    {
      rows := map[];
    }

    /** The status change of a user inserts an event under a new id. */
    method Enqueue(now: Moment, id: string, tenant: string, user: string) returns (outcome: Outcome)
      modifies this
      ensures forall lease :: (rows, outcome) == Step(old(rows), lease, Call(now, Op.Enqueue(id, tenant, user)))
    {
      hide ClaimStep, Cut;
      if id in rows {
        return Refused;
      }
      rows := rows[id := Row(tenant, user, Pending, 0, now, None, None, None, false, 0, now, now)];
      outcome := Enqueued(id);
    }

    method Claim(now: Moment, leaseSeconds: int) returns (outcome: Outcome)
      modifies this
      ensures (rows, outcome) == Step(old(rows), leaseSeconds, Call(now, Op.Claim))
    {
      hide Shift, IsFirst, Stale, Due;
      var staleBefore := Shift(now, -leaseSeconds * SECOND);
      if staleBefore.None? {
        return Unrepresentable;
      }
      rows := Released(rows, staleBefore.value, now);
      if exists id :: id in rows && IsFirst(rows, now, id) {
        var id :| id in rows && IsFirst(rows, now, id);
        SelectedIsFirst(rows, now, id);
        rows := rows[id := Take(rows[id], now)];
        outcome := Claimed(id);
      } else {
        NothingSelected(rows, now);
        outcome := NothingDue;
      }
    }

    method Heartbeat(now: Moment, id: string) returns (outcome: Outcome)
      modifies this
      ensures forall lease :: (rows, outcome) == Step(old(rows), lease, Call(now, Op.Heartbeat(id)))
    {
      hide ClaimStep, Cut;
      if id !in rows || rows[id].state != Processing {
        return Refused;
      }
      rows := rows[id := rows[id].(claimedAt := Some(now), updatedAt := now)];
      outcome := Beat(id);
    }

    method Complete(now: Moment, id: string, assignmentRemoved: bool, grantsDisabled: int) returns (outcome: Outcome)
      modifies this
      ensures forall lease :: (rows, outcome) == Step(old(rows), lease, Call(now, Op.Complete(id, assignmentRemoved, grantsDisabled)))
    {
      hide ClaimStep, Cut;
      if id !in rows || rows[id].state != Processing {
        return Refused;
      }
      rows := rows[id := rows[id].(state := Completed, completedAt := Some(now), claimedAt := None, lastError := None,
                                   assignmentRemoved := assignmentRemoved, grantsDisabled := grantsDisabled, updatedAt := now)];
      outcome := Done(id);
    }

    method Fail(now: Moment, id: string, error: string, retryAt: Moment, deadLetter: bool,
                assignmentRemoved: bool, grantsDisabled: int) returns (outcome: Outcome)
      modifies this
      ensures forall lease ::
                (rows, outcome) == Step(old(rows), lease, Call(now, Op.Fail(id, error, retryAt, deadLetter, assignmentRemoved, grantsDisabled)))
    {
      var state := if deadLetter then DeadLetter else Pending;
      hide ClaimStep, Cut;
      if id !in rows || rows[id].state != Processing {
        return Refused;
      }
      rows := rows[id := rows[id].(state := state, nextAttempt := retryAt, claimedAt := None, lastError := Some(Cut(error)),
                                   assignmentRemoved := assignmentRemoved, grantsDisabled := grantsDisabled, updatedAt := now)];
      outcome := Failed(id);
    }

    method Retry(now: Moment, tenant: string, id: string) returns (outcome: Outcome)
      modifies this
      ensures forall lease :: (rows, outcome) == Step(old(rows), lease, Call(now, Op.Retry(tenant, id)))
    {
      hide ClaimStep, Cut;
      if id !in rows || rows[id].tenant != tenant || rows[id].state !in {Pending, DeadLetter} {
        return Refused;
      }
      rows := rows[id := rows[id].(state := Pending, nextAttempt := now, claimedAt := None, completedAt := None,
                                   lastError := None, updatedAt := now)];
      outcome := Retried(id);
    }
  }

  lemma SelectedIsFirst(rows: Table, now: Moment, id: string)
    requires IsFirst(rows, now, id)
    ensures First(rows, now) == Some(id)
  {
    assert id in DueIds(rows, now);
    FirstUnique(rows, now, id, First(rows, now).value);
  }

  lemma NothingSelected(rows: Table, now: Moment)
    requires forall id :: id in rows ==> !IsFirst(rows, now, id)
    ensures First(rows, now) == None
  {
  }
}
