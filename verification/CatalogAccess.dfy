/** Which catalog servers a user of a tenant may use, and the check that keeps a fail-closed tenant
    from locking out every owner and administrator. The state is one tenant's part of the store. */
module CatalogAccess {
  import opened Wrappers

  datatype Role = Owner | Admin | Member | Viewer
  datatype Status = Invited | Active | Suspended | Deleted

  datatype User = User(id: string, role: Role, status: Status)

  datatype Policy = Policy(items: set<string>, allowCustom: bool, requireAssignment: bool, version: nat)

  datatype Subject = UserSubject(id: string) | RoleSubject(role: Role)

  datatype Assignment = Assignment(items: set<string>, version: nat)

  /** `users` in the order in which the store lists them; user ids are unique. */
  datatype Store = Store(users: seq<User>, policy: Option<Policy>, assignments: map<Subject, Assignment>)

  predicate UniqueUsers(users: seq<User>) {
    forall i, j :: 0 <= i < j < |users| ==> users[i].id != users[j].id
  }

  // ----- Effective access -----

  datatype Source = Legacy | Inactive | ByUser | ByRole | Unassigned | ByTenant

  /** None is access to everything the tenant may use. */
  datatype Access = Access(items: Option<set<string>>, source: Source)

  function FindUser(users: seq<User>, id: string): Option<User> {
    if users == [] then None else if users[0].id == id then Some(users[0]) else FindUser(users[1..], id)
  }

  function Assigned(store: Store, subject: Subject): Option<Assignment> {
    if subject in store.assignments then Some(store.assignments[subject]) else None
  }

  /** `effective_subject_mcp_server_catalog_access` */
  function EffectiveAccess(store: Store, userId: string): Access {
    match store.policy
    case None => Access(None, Legacy)
    case Some(policy) =>
      var user := FindUser(store.users, userId);
      if user.Some? && user.value.status != Active then Access(Some({}), Inactive)
      else if Assigned(store, UserSubject(userId)).Some? then
        Access(Some(Assigned(store, UserSubject(userId)).value.items * policy.items), ByUser)
      else if user.Some? && Assigned(store, RoleSubject(user.value.role)).Some? then
        Access(Some(Assigned(store, RoleSubject(user.value.role)).value.items * policy.items), ByRole)
      else if policy.requireAssignment then Access(Some({}), Unassigned)
      else Access(None, ByTenant)
  }

  /** Nobody gets more than the tenant's ceiling, and under a fail-closed policy everybody gets a
      definite set; users who are not active get nothing. */
  lemma AccessWithinCeiling(store: Store, userId: string)
    requires store.policy.Some?
    ensures var access := EffectiveAccess(store, userId);
            (access.items.Some? ==> access.items.value <= store.policy.value.items)
            && (store.policy.value.requireAssignment ==> access.items.Some?)
            && (FindUser(store.users, userId).Some? && FindUser(store.users, userId).value.status != Active ==>
                  access.items == Some({}))
            && (access.items.None? <==> access.source == ByTenant)
  {
  }

  // ----- The what-if check -----

  const PAGE: nat := 500

  function Listed(users: seq<User>): seq<User> {
    if |users| > PAGE then users[..PAGE] else users
  }

  predicate Privileged(user: User) {
    user.status == Active && (user.role == Owner || user.role == Admin)
  }

  /** The write that is about to happen to the assignments. */
  datatype Change = NoChange | Override(subject: Subject, items: seq<string>) | Remove(subject: Subject)

  function Items(items: seq<string>): set<string> {
    set i | i in items
  }

  /** The items the check expects the user to have after the change. */
  function Selected(store: Store, user: User, change: Change): set<string> {
    var userAssignment := if change == Remove(UserSubject(user.id)) then None else Assigned(store, UserSubject(user.id));
    var roleAssignment := if change == Remove(RoleSubject(user.role)) then None else Assigned(store, RoleSubject(user.role));
    if change.Override? && change.subject == UserSubject(user.id) then Items(change.items)
    else if userAssignment.Some? then userAssignment.value.items
    else if change.Override? && change.subject == RoleSubject(user.role) then Items(change.items)
    else if roleAssignment.Some? then roleAssignment.value.items
    else {}
  }

  predicate KeepsAccess(store: Store, user: User, tenantItems: set<string>, change: Change) {
    Privileged(user) && Selected(store, user, change) * tenantItems != {}
  }

  /** `_validate_break_glass_catalog_assignment`; false is the conflict it raises. */
  method ValidateBreakGlass(store: Store, tenantItems: set<string>, change: Change) returns (passed: bool)
    ensures passed <==> Passes(store, tenantItems, change)
  {
    var users := Listed(store.users);
    for n := 0 to |users|
      invariant forall i :: 0 <= i < n ==> !KeepsAccess(store, users[i], tenantItems, change)
    {
      if Privileged(users[n]) {
        if Selected(store, users[n], change) * tenantItems != {} {
          assert KeepsAccess(store, users[n], tenantItems, change);
          return true;
        }
      }
    }
    passed := false;
  }

  predicate Passes(store: Store, tenantItems: set<string>, change: Change) {
    exists i :: 0 <= i < |Listed(store.users)| && KeepsAccess(store, Listed(store.users)[i], tenantItems, change)
  }

  // ----- The endpoints -----

  datatype Call =
    | PutPolicy(items: seq<string>, allowCustom: bool, requireAssignment: bool)
    | DeletePolicy
    | PutAssignment(subject: Subject, items: seq<string>)
    | DeleteAssignment(subject: Subject)

  datatype Error = NotFound | DuplicateItems | UnknownItems | NoPolicy | ExceedsPolicy | LocksOut

  predicate Distinct(items: seq<string>) {
    forall i, j :: 0 <= i < j < |items| ==> items[i] != items[j]
  }

  function Upserted(store: Store, subject: Subject, items: seq<string>): Store {
    var version := if subject in store.assignments then store.assignments[subject].version + 1 else 1;
    store.(assignments := store.assignments[subject := Assignment(Items(items), version)])
  }

  function WithPolicy(store: Store, items: seq<string>, allowCustom: bool, requireAssignment: bool): Store {
    var version := match store.policy case Some(p) => p.version + 1 case None => 1;
    store.(policy := Some(Policy(Items(items), allowCustom, requireAssignment, version)))
  }

  function Without(store: Store, subject: Subject): Store {
    store.(assignments := store.assignments - {subject})
  }

  /** What is wrong with a call before the lock-out check; `catalog` are the configured item ids. */
  function Fault(store: Store, catalog: set<string>, call: Call): Option<Error> {
    match call
    case PutPolicy(items, _, _) =>
      if !Distinct(items) then Some(DuplicateItems) else if !(Items(items) <= catalog) then Some(UnknownItems) else None
    case DeletePolicy => if store.policy.None? then Some(NotFound) else None
    case PutAssignment(subject, items) =>
      if subject.UserSubject? && FindUser(store.users, subject.id).None? then Some(NotFound)
      else if store.policy.None? then Some(NoPolicy)
      else if !Distinct(items) then Some(DuplicateItems)
      else if !(Items(items) <= catalog) then Some(UnknownItems)
      else if !(Items(items) <= store.policy.value.items) then Some(ExceedsPolicy)
      else None
    case DeleteAssignment(subject) => if subject in store.assignments then None else Some(NotFound)
  }

  /** The write of a call without fault. */
  function Written(store: Store, call: Call): Store {
    match call
    case PutPolicy(items, allowCustom, requireAssignment) => WithPolicy(store, items, allowCustom, requireAssignment)
    case DeletePolicy => store.(policy := None)
    case PutAssignment(subject, items) => Upserted(store, subject, items)
    case DeleteAssignment(subject) => Without(store, subject)
  }

  predicate FailClosed(store: Store) {
    store.policy.Some? && store.policy.value.requireAssignment
  }

  /** The check an endpoint makes before it writes. */
  predicate Allowed(store: Store, call: Call) {
    match call
    case PutPolicy(items, _, requireAssignment) => requireAssignment ==> Passes(store, Items(items), NoChange)
    case DeletePolicy => true
    case PutAssignment(subject, items) => FailClosed(store) ==> Passes(store, store.policy.value.items, Override(subject, items))
    case DeleteAssignment(subject) => FailClosed(store) ==> Passes(store, store.policy.value.items, Remove(subject))
  }

  function Step(store: Store, catalog: set<string>, call: Call): (Store, Option<Error>) {
    var fault := Fault(store, catalog, call);
    if fault.Some? then (store, fault)
    else if !Allowed(store, call) then (store, Some(LocksOut))
    else (Written(store, call), None)
  }

  function Run(store: Store, catalog: set<string>, calls: seq<Call>): Store
    decreases |calls|
  {
    if calls == [] then store else Run(Step(store, catalog, calls[0]).0, catalog, calls[1..])
  }

  // ----- What each write does to everybody's access -----

  /** The user is listed with another status than active. */
  predicate IsInactive(store: Store, userId: string) {
    FindUser(store.users, userId).Some? && FindUser(store.users, userId).value.status != Active
  }

  /** The user is listed with that role. */
  predicate HasRole(store: Store, userId: string, role: Role) {
    FindUser(store.users, userId).Some? && FindUser(store.users, userId).value.role == role
  }

  predicate HasOwn(store: Store, userId: string) {
    UserSubject(userId) in store.assignments
  }

  predicate HasForRole(store: Store, userId: string) {
    FindUser(store.users, userId).Some? && RoleSubject(FindUser(store.users, userId).value.role) in store.assignments
  }

  /** Each write of a policy or an assignment counts its version up, from 1. */
  lemma VersionsCount(store: Store, subject: Subject, items: seq<string>, allowCustom: bool, requireAssignment: bool)
    ensures var after := Upserted(store, subject, items);
            subject in after.assignments && after.policy == store.policy
            && after.assignments[subject].version == (if subject in store.assignments then store.assignments[subject].version else 0) + 1
            && forall s :: s != subject ==> Assigned(after, s) == Assigned(store, s)
    ensures var after := WithPolicy(store, items, allowCustom, requireAssignment);
            after.policy.Some? && after.assignments == store.assignments && after.policy.value.allowCustom == allowCustom
            && after.policy.value.version == (if store.policy.Some? then store.policy.value.version else 0) + 1
    ensures subject !in Without(store, subject).assignments
            && forall s :: s != subject ==> Assigned(Without(store, subject), s) == Assigned(store, s)
  {
  }

  /** Without a policy nobody is restricted. */
  lemma NoPolicyNoRestriction(store: Store, userId: string)
    ensures EffectiveAccess(store.(policy := None), userId) == Access(None, Legacy)
  {
  }

  /** Under a policy, assigning items to a user who is not inactive gives that user exactly those
      within the ceiling, whatever the role has; nobody else's access changes. */
  lemma AssigningToUser(store: Store, userId: string, items: seq<string>, other: string)
    requires store.policy.Some?
    ensures var after := Upserted(store, UserSubject(userId), items);
            var access := EffectiveAccess(after, userId);
            (!IsInactive(store, userId) ==>
               access.source == ByUser && access.items.Some?
               && forall i :: i in access.items.value <==> i in items && i in store.policy.value.items)
            && (other != userId || IsInactive(store, userId) ==> EffectiveAccess(after, other) == EffectiveAccess(store, other))
  {
    var after := Upserted(store, UserSubject(userId), items);
    assert forall s :: s != UserSubject(userId) ==> Assigned(after, s) == Assigned(store, s);
  }

  /** Assigning items to a role gives exactly those within the ceiling to its active users without an
      assignment of their own, and changes nobody else's access. */
  lemma AssigningToRole(store: Store, role: Role, items: seq<string>, userId: string)
    requires store.policy.Some?
    ensures var before, after := EffectiveAccess(store, userId), EffectiveAccess(Upserted(store, RoleSubject(role), items), userId);
            if HasRole(store, userId, role) && !IsInactive(store, userId) && !HasOwn(store, userId) then
              after.source == ByRole && after.items.Some?
              && forall i :: i in after.items.value <==> i in items && i in store.policy.value.items
            else after == before
  {
  }

  /** Removing the assignment of a user who is not inactive leaves the role's, or else what the policy
      gives to those without any; removing a role's assignment does so for its users without an own
      one. Nobody else's access changes. */
  lemma Unassigning(store: Store, subject: Subject, userId: string)
    requires store.policy.Some? && subject in store.assignments
    ensures var policy := store.policy.value;
            var before, after := EffectiveAccess(store, userId), EffectiveAccess(Without(store, subject), userId);
            var rest := if policy.requireAssignment then Access(Some({}), Unassigned) else Access(None, ByTenant);
            if subject == UserSubject(userId) && !IsInactive(store, userId) then
              after == if HasForRole(store, userId)
                       then Access(Some(store.assignments[RoleSubject(FindUser(store.users, userId).value.role)].items * policy.items), ByRole)
                       else rest
            else if subject.RoleSubject? && HasRole(store, userId, subject.role) && !IsInactive(store, userId) && !HasOwn(store, userId) then
              after == rest
            else after == before
  {
  }

  /** Requiring an assignment takes all access from exactly those active or unlisted users who have
      none, and not requiring it gives them everything; it changes nobody else's access. */
  lemma RequiringAssignment(store: Store, items: seq<string>, allowCustom: bool, userId: string)
    ensures var open, closed := EffectiveAccess(WithPolicy(store, items, allowCustom, false), userId),
                                EffectiveAccess(WithPolicy(store, items, allowCustom, true), userId);
            if !IsInactive(store, userId) && !HasOwn(store, userId) && !HasForRole(store, userId) then
              open.items == None && closed.items == Some({})
            else open == closed && open.items.Some?
  {
  }

  /** A new ceiling cuts every assigned access to it, with the assignments as they are. */
  lemma ChangingTheCeiling(store: Store, items: seq<string>, allowCustom: bool, requireAssignment: bool, userId: string, item: string)
    requires !IsInactive(store, userId) && (HasOwn(store, userId) || HasForRole(store, userId))
    ensures var access := EffectiveAccess(WithPolicy(store, items, allowCustom, requireAssignment), userId);
            var subject := if HasOwn(store, userId) then UserSubject(userId) else RoleSubject(FindUser(store.users, userId).value.role);
            access.items.Some? && (item in access.items.value <==> item in items && item in store.assignments[subject].items)
  {
  }

  // ----- The check tells the access after the write -----

  predicate HasAccess(store: Store, user: User) {
    var items := EffectiveAccess(store, user.id).items;
    items.None? || items.value != {}
  }

  lemma {:induction false} FindListed(users: seq<User>, i: nat)
    requires UniqueUsers(users) && i < |users|
    ensures FindUser(users, users[i].id) == Some(users[i])
  {
    if i > 0 {
      assert users[i] == users[1..][i - 1];
      FindListed(users[1..], i - 1);
    }
  }

  /** For every privileged user, what the check expects is what the user effectively has once the
      write is made. */
  lemma WhatIfExactly(store: Store, call: Call, i: nat)
    requires UniqueUsers(store.users) && i < |store.users| && Governs(store.users[i])
    requires FailClosed(Written(store, call)) && (call.PutAssignment? || call.DeleteAssignment? ==> FailClosed(store))
    ensures var after, user := Written(store, call), store.users[i];
            EffectiveAccess(after, user.id).items
            == Some(Selected(store, user, ChangeOf(call)) * after.policy.value.items)
  {
    FindListed(store.users, i);
    var after, user := Written(store, call), store.users[i];
    assert after.users == store.users;
    assert {} * after.policy.value.items == {};
    hide FindUser;
  }

  function ChangeOf(call: Call): Change {
    match call
    case PutAssignment(subject, items) => Override(subject, items)
    case DeleteAssignment(subject) => Remove(subject)
    case _ => NoChange
  }

  /** An active owner or administrator. */
  predicate Governs(user: User) {
    user.status == Active && user.role in {Owner, Admin}
  }

  /** An active owner or administrator has access, if the tenant requires assignments. */
  ghost predicate Guarded(store: Store) {
    FailClosed(store) ==> exists i :: 0 <= i < |store.users| && Governs(store.users[i]) && HasAccess(store, store.users[i])
  }

  /** The same among the users the check looks at. */
  ghost predicate GuardedByListed(store: Store) {
    FailClosed(store) ==>
      exists i :: 0 <= i < |Listed(store.users)| && Governs(Listed(store.users)[i]) && HasAccess(store, Listed(store.users)[i])
  }

  /** A call is let through exactly when, after its write, a privileged user among the first 500
      listed has access. */
  lemma AllowedExactly(store: Store, call: Call)
    requires UniqueUsers(store.users)
    ensures Allowed(store, call) <==> GuardedByListed(Written(store, call))
  {
    var after, users := Written(store, call), Listed(store.users);
    assert after.users == store.users;
    hide EffectiveAccess, Selected;
    if FailClosed(after) {
      var items := after.policy.value.items;
      forall i | 0 <= i < |users| && Governs(users[i])
        ensures HasAccess(after, users[i]) <==> KeepsAccess(store, users[i], items, ChangeOf(call))
      {
        assert users[i] == store.users[i];
        WhatIfExactly(store, call, i);
      }
      assert Allowed(store, call) <==> Passes(store, items, ChangeOf(call));
      hide HasAccess;
      if Passes(store, items, ChangeOf(call)) {
        var i :| 0 <= i < |users| && KeepsAccess(store, users[i], items, ChangeOf(call));
        assert Governs(users[i]) && HasAccess(after, users[i]);
      }
    }
  }

  lemma ListedIsEnough(store: Store)
    ensures GuardedByListed(store) ==> Guarded(store)
    ensures |store.users| <= PAGE ==> (GuardedByListed(store) <==> Guarded(store))
  {
    hide HasAccess;
    if |store.users| <= PAGE { assert Listed(store.users) == store.users; }
    if FailClosed(store) && GuardedByListed(store) {
      var i :| 0 <= i < |Listed(store.users)| && Governs(Listed(store.users)[i]) && HasAccess(store, Listed(store.users)[i]);
      assert Listed(store.users)[i] == store.users[i];
    }
  }

  /** With at most 500 users, a valid call is refused exactly when its write would lock out every
      active owner and administrator. */
  lemma RefusedExactly(store: Store, catalog: set<string>, call: Call)
    requires UniqueUsers(store.users) && |store.users| <= PAGE && Fault(store, catalog, call).None?
    ensures Step(store, catalog, call).1 == Some(LocksOut) <==> !Guarded(Written(store, call))
  {
    AllowedExactly(store, call);
    ListedIsEnough(Written(store, call));
    hide Allowed, Guarded, GuardedByListed;
  }

  /** While the users stay as they are, no run of the endpoints leaves a fail-closed tenant without
      an active owner or administrator who has access, however many users there are. */
  lemma {:induction false} RunsStayGuarded(store: Store, catalog: set<string>, calls: seq<Call>)
    requires UniqueUsers(store.users) && Guarded(store)
    ensures Guarded(Run(store, catalog, calls))
    decreases |calls|
  {
    if calls != [] {
      AllowedExactly(store, calls[0]);
      ListedIsEnough(Written(store, calls[0]));
      hide Guarded, GuardedByListed, Allowed, Fault;
      RunsStayGuarded(Step(store, catalog, calls[0]).0, catalog, calls[1..]);
    }
  }

  // ----- Which calls are refused before the check -----

  /** No item is named twice. */
  predicate Once(items: seq<string>) {
    forall i :: i in items ==> multiset(items)[i] == 1
  }

  lemma {:induction false} DistinctOnce(items: seq<string>)
    ensures Distinct(items) <==> Once(items)
  {
    if items != [] {
      var first, rest := items[0], items[1..];
      DistinctOnce(rest);
      assert items == [first] + rest;
      assert Distinct(items) <==> first !in rest && Distinct(rest) by { DistinctFirst(items); }
      assert Once(items) <==> first !in rest && Once(rest) by { OnceFirst(first, rest); }
    }
  }

  lemma DistinctFirst(items: seq<string>)
    requires items != []
    ensures Distinct(items) <==> items[0] !in items[1..] && Distinct(items[1..])
  {
    var rest := items[1..];
    assert forall i :: 0 <= i < |rest| ==> rest[i] == items[i + 1];
    if items[0] !in rest && Distinct(rest) {
      forall i, j | 0 <= i < j < |items| ensures items[i] != items[j] {
        if i == 0 { assert items[j] == rest[j - 1]; } else { assert rest[i - 1] != rest[j - 1]; }
      }
    }
    if Distinct(items) {
      forall i, j | 0 <= i < j < |rest| ensures rest[i] != rest[j] { assert items[i + 1] != items[j + 1]; }
    }
  }

  lemma OnceFirst(first: string, rest: seq<string>)
    ensures Once([first] + rest) <==> first !in rest && Once(rest)
  {
    var items := [first] + rest;
    assert multiset(items) == multiset{first} + multiset(rest);
    if Once(items) {
      assert first in items;
      forall i | i in rest ensures multiset(rest)[i] == 1 { assert i in items; }
    }
  }

  /** A call goes through exactly when what it names is there and allowed, and the check passes; any
      other leaves the store as it is. */
  lemma AcceptedExactly(store: Store, catalog: set<string>, call: Call)
    ensures var (after, error) := Step(store, catalog, call);
            (error.Some? ==> after == store)
            && (error.None? <==>
                  Allowed(store, call)
                  && match call
                     case PutPolicy(items, _, _) => Once(items) && forall i :: i in items ==> i in catalog
                     case DeletePolicy => store.policy.Some?
                     case PutAssignment(subject, items) =>
                       store.policy.Some? && Once(items) && (forall i :: i in items ==> i in catalog && i in store.policy.value.items)
                       && (subject.UserSubject? ==> FindUser(store.users, subject.id).Some?)
                     case DeleteAssignment(subject) => subject in store.assignments)
  {
    if call.PutPolicy? || call.PutAssignment? { DistinctOnce(call.items); }
    hide Allowed, Distinct, Once;
  }

  /** Which error is answered: the first of these that applies. */
  lemma ErrorExactly(store: Store, catalog: set<string>, call: Call)
    requires call.PutPolicy? || call.PutAssignment?
    ensures var error, items := Step(store, catalog, call).1, call.items;
            var missing := call.PutAssignment? && call.subject.UserSubject? && FindUser(store.users, call.subject.id).None?;
            var open := call.PutAssignment? && store.policy.None?;
            (error == Some(NotFound) <==> missing)
            && (error == Some(NoPolicy) <==> !missing && open)
            && (error == Some(DuplicateItems) <==> !missing && !open && !Distinct(items))
            && (error == Some(UnknownItems) <==> !missing && !open && Distinct(items) && exists i :: i in items && i !in catalog)
            && (error == Some(ExceedsPolicy) <==>
                  !missing && !open && Distinct(items) && (forall i :: i in items ==> i in catalog)
                  && call.PutAssignment? && exists i :: i in items && i !in store.policy.value.items)
  {
    hide Allowed, Distinct;
  }

  /** Every item that a policy or an assignment names is in the catalog. */
  predicate Configured(store: Store, catalog: set<string>) {
    (store.policy.Some? ==> store.policy.value.items <= catalog)
    && forall s :: s in store.assignments ==> store.assignments[s].items <= catalog
  }

  /** Over every run of the endpoints nobody is granted an item that is not in the catalog. */
  lemma {:induction false} RunsStayConfigured(store: Store, catalog: set<string>, calls: seq<Call>, userId: string)
    requires Configured(store, catalog)
    ensures var after := Run(store, catalog, calls);
            Configured(after, catalog)
            && (EffectiveAccess(after, userId).items.Some? ==> EffectiveAccess(after, userId).items.value <= catalog)
    decreases |calls|
  {
    hide Allowed, Distinct;
    if calls != [] {
      assert Configured(Step(store, catalog, calls[0]).0, catalog);
      RunsStayConfigured(Step(store, catalog, calls[0]).0, catalog, calls[1..], userId);
    }
  }

  // ----- Changes of users -----

  /** The endpoints that write users; suspending, activating and deleting set the status. */
  datatype UserCall =
    | CreateUser(user: User)
    | UpdateUser(id: string, role: Option<Role>, status: Option<Status>)

  datatype UserError = UserExists | UserNotFound | LastOwner

  predicate IsActiveOwner(user: User) {
    user.role == Owner && user.status == Active
  }

  function ActiveOwners(users: seq<User>): nat {
    if users == [] then 0 else (if IsActiveOwner(users[0]) then 1 else 0) + ActiveOwners(users[1..])
  }

  function Position(users: seq<User>, id: string): (position: nat)
    ensures position <= |users|
    ensures position < |users| ==> users[position].id == id
    ensures FindUser(users, id) == if position < |users| then Some(users[position]) else None
  {
    if users == [] || users[0].id == id then 0
    else
      var rest := Position(users[1..], id);
      rest + 1
  }

  function Updated(user: User, call: UserCall): User
    requires call.UpdateUser?
  {
    User(user.id, call.role.GetOr(user.role), call.status.GetOr(user.status))
  }

  /** `_protect_last_active_owner` lets the update pass. */
  predicate KeepsAnOwner(users: seq<User>, user: User, next: User) {
    !IsActiveOwner(user) || IsActiveOwner(next) || ActiveOwners(users) > 1
  }

  /** A user call; the written user is listed first from then on, as the latest update. */
  function UserStep(store: Store, call: UserCall): (Store, Option<UserError>) {
    match call
    case CreateUser(user) =>
      if FindUser(store.users, user.id).Some? then (store, Some(UserExists)) else (store.(users := [user] + store.users), None)
    case UpdateUser(id, _, _) =>
      var n := Position(store.users, id);
      if n == |store.users| then (store, Some(UserNotFound))
      else
        var user, next := store.users[n], Updated(store.users[n], call);
        if !KeepsAnOwner(store.users, user, next) then (store, Some(LastOwner))
        else (store.(users := [next] + store.users[..n] + store.users[n + 1..]), None)
  }

  lemma {:induction false} OwnersConcat(a: seq<User>, b: seq<User>)
    ensures ActiveOwners(a + b) == ActiveOwners(a) + ActiveOwners(b)
  {
    if a == [] {
      assert a + b == b;
    } else {
      assert (a + b)[1..] == a[1..] + b && (a + b)[0] == a[0];
      OwnersConcat(a[1..], b);
    }
  }

  lemma OwnersOne(user: User)
    ensures ActiveOwners([user]) == if IsActiveOwner(user) then 1 else 0
  {
    assert [user][1..] == [];
  }

  /** The owner guard: a tenant with an active owner has one after every user call. */
  lemma ActiveOwnerRemains(store: Store, call: UserCall)
    requires HasActiveOwner(store.users)
    ensures HasActiveOwner(UserStep(store, call).0.users)
  {
    ActiveOwnersExactly(store.users);
    ActiveOwnersExactly(UserStep(store, call).0.users);
    hide HasActiveOwner;
    match call
    case CreateUser(user) => OwnersConcat([user], store.users);
    case UpdateUser(id, _, _) =>
      var n := Position(store.users, id);
      if n < |store.users| {
        var before, user, after := store.users[..n], store.users[n], store.users[n + 1..];
        var next := Updated(user, call);
        assert store.users == before + ([user] + after);
        OwnersConcat(before, [user] + after);
        OwnersConcat([user], after);
        OwnersOne(user);
        OwnersConcat([next] + before, after);
        OwnersConcat([next], before);
        OwnersOne(next);
      }
  }

  /** An update is refused for the owner rule exactly when there is an active owner before it and would
      be none after it. */
  lemma OwnerRuleExactly(store: Store, id: string, role: Option<Role>, status: Option<Status>)
    requires FindUser(store.users, id).Some?
    ensures var call, n := UpdateUser(id, role, status), Position(store.users, id);
            var user := store.users[n];
            var next := User(id, if role.Some? then role.value else user.role, if status.Some? then status.value else user.status);
            var after := [next] + store.users[..n] + store.users[n + 1..];
            UserStep(store, call)
            == if HasActiveOwner(store.users) && !HasActiveOwner(after) then (store, Some(LastOwner)) else (store.(users := after), None)
  {
    ActiveOwnersExactly(store.users);
    var n := Position(store.users, id);
    var before, user, rest := store.users[..n], store.users[n], store.users[n + 1..];
    var next := Updated(user, UpdateUser(id, role, status));
    assert store.users == before + ([user] + rest);
    OwnersConcat(before, [user] + rest);
    OwnersConcat([user], rest);
    OwnersOne(user);
    OwnersConcat([next] + before, rest);
    OwnersConcat([next], before);
    OwnersOne(next);
    ActiveOwnersExactly([next] + before + rest);
    hide HasActiveOwner;
  }

  predicate HasActiveOwner(users: seq<User>) {
    exists u :: u in users && u.role == Owner && u.status == Active
  }

  lemma {:induction false} ActiveOwnersExactly(users: seq<User>)
    ensures ActiveOwners(users) > 0 <==> HasActiveOwner(users)
  {
    if users != [] {
      ActiveOwnersExactly(users[1..]);
      assert forall u :: u in users <==> u == users[0] || u in users[1..];
    }
  }

  /** Under a fail-closed policy a privileged user has access exactly through an assignment. */
  lemma PrivilegedAccess(store: Store, i: nat)
    requires UniqueUsers(store.users) && FailClosed(store) && i < |store.users|
    ensures Governs(store.users[i]) && HasAccess(store, store.users[i])
            <==> KeepsAccess(store, store.users[i], store.policy.value.items, NoChange)
  {
    FindListed(store.users, i);
    assert {} * store.policy.value.items == {};
    hide FindUser;
  }

  lemma GuardedByKeepers(store: Store)
    requires UniqueUsers(store.users) && FailClosed(store)
    ensures Guarded(store)
            <==> exists i :: 0 <= i < |store.users| && KeepsAccess(store, store.users[i], store.policy.value.items, NoChange)
  {
    forall i | 0 <= i < |store.users|
      ensures Governs(store.users[i]) && HasAccess(store, store.users[i])
              <==> KeepsAccess(store, store.users[i], store.policy.value.items, NoChange)
    {
      PrivilegedAccess(store, i);
    }
    hide HasAccess, KeepsAccess;
  }

  lemma UserStepKeepsUnique(store: Store, call: UserCall)
    requires UniqueUsers(store.users)
    ensures UniqueUsers(UserStep(store, call).0.users)
  {
    hide KeepsAnOwner;
    match call
    case CreateUser(user) =>
      if FindUser(store.users, user.id).None? {
        forall i | 0 <= i < |store.users| ensures store.users[i].id != user.id { FindListed(store.users, i); }
      }
    case UpdateUser(id, _, _) =>
      var n := Position(store.users, id);
  }

  /** The user that is updated, or any other, keeps access after the update. */
  ghost predicate SomeoneKeeps(store: Store, n: nat, next: User)
    requires n < |store.users| && store.policy.Some?
  {
    var items := store.policy.value.items;
    KeepsAccess(store, next, items, NoChange)
    || exists i :: 0 <= i < |store.users| && i != n && KeepsAccess(store, store.users[i], items, NoChange)
  }

  lemma SameKeepers(a: Store, b: Store, user: User, items: set<string>)
    requires a.assignments == b.assignments
    ensures KeepsAccess(a, user, items, NoChange) == KeepsAccess(b, user, items, NoChange)
  {
  }

  /** An update that passes the owner guard leaves a fail-closed tenant guarded exactly when another
      privileged user has access through an assignment, or the updated one still has. */
  lemma UpdateStaysGuardedExactly(store: Store, id: string, role: Option<Role>, status: Option<Status>)
    requires UniqueUsers(store.users) && FailClosed(store)
    requires UserStep(store, UpdateUser(id, role, status)).1.None?
    ensures var call, n := UpdateUser(id, role, status), Position(store.users, id);
            n < |store.users|
            && (Guarded(UserStep(store, call).0) <==> SomeoneKeeps(store, n, Updated(store.users[n], call)))
  {
    var call, n := UpdateUser(id, role, status), Position(store.users, id);
    var next, after := Updated(store.users[n], call), UserStep(store, call).0;
    UserStepKeepsUnique(store, call);
    GuardedByKeepers(after);
    var items := store.policy.value.items;
    hide Guarded, KeepsAccess, KeepsAnOwner, FindUser, Selected;
    forall user ensures KeepsAccess(after, user, items, NoChange) == KeepsAccess(store, user, items, NoChange) {
      SameKeepers(store, after, user, items);
    }
    assert after.users == [next] + store.users[..n] + store.users[n + 1..];
    assert after.users[0] == next;
    forall i | 0 <= i < |store.users| && i != n
      ensures after.users[if i < n then i + 1 else i] == store.users[i]
    {
    }
    if SomeoneKeeps(store, n, next) && !KeepsAccess(store, next, items, NoChange) {
      var i :| 0 <= i < |store.users| && i != n && KeepsAccess(store, store.users[i], items, NoChange);
      assert KeepsAccess(after, after.users[if i < n then i + 1 else i], items, NoChange);
    }
    if exists j :: 0 <= j < |after.users| && KeepsAccess(after, after.users[j], items, NoChange) {
      var j :| 0 <= j < |after.users| && KeepsAccess(after, after.users[j], items, NoChange);
      if j > 0 {
        var i := if j <= n then j - 1 else j;
        assert after.users[j] == store.users[i];
      }
    }
  }

  /** The owner guard does not keep access: of two active owners, one of whom has the only
      assignment, that one can be suspended, and the tenant is locked. The endpoints lead there. */
  lemma SuspensionLocksOut(a: string, b: string, item: string)
    requires a != b
    ensures var empty := Store([User(a, Owner, Active), User(b, Owner, Active)], None, map[]);
            var calls := [PutPolicy([item], false, false), PutAssignment(UserSubject(a), [item]), PutPolicy([item], false, true)];
            var store := Run(empty, {item}, calls);
            var (after, error) := UserStep(store, UpdateUser(a, None, Some(Suspended)));
            Guarded(store) && FailClosed(store) && error.None? && !Guarded(after)
  {
    var first, second := User(a, Owner, Active), User(b, Owner, Active);
    var empty := Store([first, second], None, map[]);
    var put, assign, close := PutPolicy([item], false, false), PutAssignment(UserSubject(a), [item]), PutPolicy([item], false, true);
    assert Items([item]) == {item};
    assert UniqueUsers(empty.users);
    var open := Step(empty, {item}, put).0;
    assert open == Store(empty.users, Some(Policy({item}, false, false, 1)), map[]);
    var granted := Step(open, {item}, assign).0;
    assert granted == Store(empty.users, open.policy, map[UserSubject(a) := Assignment({item}, 1)]);
    var store := granted.(policy := Some(Policy({item}, false, true, 2)));
    assert KeepsAccess(granted, first, {item}, NoChange) by { assert item in {item} * {item}; }
    assert Listed(granted.users)[0] == first;
    assert Step(granted, {item}, close) == (store, None);
    RunThree(empty, {item}, put, assign, close);
    SuspendOne(store, a, b, item);
  }

  lemma SuspendOne(store: Store, a: string, b: string, item: string)
    requires a != b && store.users == [User(a, Owner, Active), User(b, Owner, Active)]
    requires store.policy == Some(Policy({item}, false, true, 2)) && store.assignments == map[UserSubject(a) := Assignment({item}, 1)]
    ensures var (after, error) := UserStep(store, UpdateUser(a, None, Some(Suspended)));
            Guarded(store) && error.None? && !Guarded(after)
  {
    var first, second := store.users[0], store.users[1];
    var call := UpdateUser(a, None, Some(Suspended));
    assert ActiveOwners(store.users) == 2 by {
      assert store.users == [first] + [second];
      OwnersConcat([first], [second]);
      OwnersOne(first);
      OwnersOne(second);
    }
    assert Position(store.users, a) == 0;
    GuardedByKeepers(store);
    assert KeepsAccess(store, first, {item}, NoChange) by { assert item in {item} * {item}; }
    assert KeepsAccess(store, store.users[0], {item}, NoChange);
    assert !KeepsAccess(store, second, {item}, NoChange) by { assert {} * {item} == {}; }
    UpdateStaysGuardedExactly(store, a, None, Some(Suspended));
    assert !SomeoneKeeps(store, 0, Updated(first, call));
  }

  lemma RunThree(store: Store, catalog: set<string>, a: Call, b: Call, c: Call)
    ensures Run(store, catalog, [a, b, c]) == Step(Step(Step(store, catalog, a).0, catalog, b).0, catalog, c).0
  {
    hide Step;
    assert [a, b, c][1..] == [b, c] && [b, c][1..] == [c] && [c][1..] == [];
    var one := Step(store, catalog, a).0;
    var two := Step(one, catalog, b).0;
    assert Run(one, catalog, [b, c]) == Run(two, catalog, [c]);
  }

  /** The deprovisioning worker removes the assignment of a suspended or deleted user without the
      check. That leaves the tenant guarded exactly when a privileged user keeps an item without
      it; so it can lock the tenant out only if that user is privileged again by then. */
  lemma CleanupStaysGuardedExactly(store: Store, id: string)
    requires UniqueUsers(store.users) && FailClosed(store)
    ensures var after, items := Without(store, UserSubject(id)), store.policy.value.items;
            (Guarded(after) <==>
              exists i :: 0 <= i < |store.users| && KeepsAccess(store, store.users[i], items, Remove(UserSubject(id))))
            && (Guarded(store) && (FindUser(store.users, id).Some? ==> !Governs(FindUser(store.users, id).value)) ==> Guarded(after))
  {
    hide Guarded, FindUser, Selected, KeepsAccess;
    var after, items := Without(store, UserSubject(id)), store.policy.value.items;
    GuardedByKeepers(store);
    GuardedByKeepers(after);
    forall i | 0 <= i < |store.users|
      ensures KeepsAccess(after, store.users[i], items, NoChange) == KeepsAccess(store, store.users[i], items, Remove(UserSubject(id)))
      ensures store.users[i].id != id ==>
                KeepsAccess(after, store.users[i], items, NoChange) == KeepsAccess(store, store.users[i], items, NoChange)
      ensures FindUser(store.users, store.users[i].id) == Some(store.users[i])
    {
      FindListed(store.users, i);
      KeepersWithout(store, store.users[i], id, items);
    }
    if Guarded(store) && (FindUser(store.users, id).Some? ==> !Governs(FindUser(store.users, id).value)) {
      var i :| 0 <= i < |store.users| && KeepsAccess(store, store.users[i], items, NoChange);
      KeeperIsPrivileged(store, store.users[i], items);
      assert store.users[i].id != id;
    }
  }

  lemma KeepersWithout(store: Store, user: User, id: string, items: set<string>)
    ensures KeepsAccess(Without(store, UserSubject(id)), user, items, NoChange) == KeepsAccess(store, user, items, Remove(UserSubject(id)))
    ensures user.id != id ==>
              KeepsAccess(Without(store, UserSubject(id)), user, items, NoChange) == KeepsAccess(store, user, items, NoChange)
  {
  }

  lemma KeeperIsPrivileged(store: Store, user: User, items: set<string>)
    requires KeepsAccess(store, user, items, NoChange)
    ensures Governs(user)
  {
  }

  // ----- Users and catalog together -----

  datatype AnyCall = OnCatalog(call: Call) | OnUsers(userCall: UserCall)

  function AnyStep(store: Store, catalog: set<string>, call: AnyCall): Store {
    match call
    case OnCatalog(c) => Step(store, catalog, c).0
    case OnUsers(c) => UserStep(store, c).0
  }

  function AnyRun(store: Store, catalog: set<string>, calls: seq<AnyCall>): Store
    decreases |calls|
  {
    if calls == [] then store else AnyRun(AnyStep(store, catalog, calls[0]), catalog, calls[1..])
  }

  /** A call that takes the last access: it updates a user under a fail-closed policy, passes the
      owner guard, and leaves nobody privileged with access. */
  ghost predicate TakesLastAccess(store: Store, call: AnyCall) {
    call.OnUsers? && call.userCall.UpdateUser? && FailClosed(store) && UserStep(store, call.userCall).1.None?
    && var n := Position(store.users, call.userCall.id);
       n < |store.users| && !SomeoneKeeps(store, n, Updated(store.users[n], call.userCall))
  }

  /** From a guarded tenant, one call of the catalog or user endpoints leaves it guarded exactly
      when it is not a user update that takes the last access. */
  lemma StepStaysGuardedExactly(store: Store, catalog: set<string>, call: AnyCall)
    requires UniqueUsers(store.users) && Guarded(store)
    ensures Guarded(AnyStep(store, catalog, call)) <==> !TakesLastAccess(store, call)
    ensures UniqueUsers(AnyStep(store, catalog, call).users)
  {
    match call
    case OnCatalog(c) =>
      AllowedExactly(store, c);
      ListedIsEnough(Written(store, c));
      hide Guarded, GuardedByListed, Allowed, Fault;
    case OnUsers(c) =>
      UserStepKeepsUnique(store, c);
      var after := UserStep(store, c).0;
      if c.UpdateUser? && FailClosed(store) && UserStep(store, c).1.None? {
        UpdateStaysGuardedExactly(store, c.id, c.role, c.status);
      } else if FailClosed(store) && c.CreateUser? && UserStep(store, c).1.None? {
        NewUserStaysGuarded(store, c.user);
      }
  }

  lemma NewUserStaysGuarded(store: Store, user: User)
    requires UniqueUsers(store.users) && FailClosed(store) && Guarded(store) && FindUser(store.users, user.id).None?
    ensures Guarded(UserStep(store, CreateUser(user)).0)
  {
    var after := UserStep(store, CreateUser(user)).0;
    UserStepKeepsUnique(store, CreateUser(user));
    assert after == store.(users := [user] + store.users);
    hide Guarded, FindUser, UserStep, KeepsAccess, UniqueUsers;
    GuardedByKeepers(store);
    GuardedByKeepers(after);
    var items := store.policy.value.items;
    var i :| 0 <= i < |store.users| && KeepsAccess(store, store.users[i], items, NoChange);
    SameKeepers(store, after, store.users[i], items);
    assert after.users[i + 1] == store.users[i];
  }

  ghost predicate NeverTakesLastAccess(store: Store, catalog: set<string>, calls: seq<AnyCall>)
    decreases |calls|
  {
    calls == []
    || (!TakesLastAccess(store, calls[0]) && NeverTakesLastAccess(AnyStep(store, catalog, calls[0]), catalog, calls[1..]))
  }

  /** Runs that mix both kinds of endpoints keep a guarded tenant guarded when no update takes the
      last access. */
  lemma {:induction false} MixedRunsStayGuarded(store: Store, catalog: set<string>, calls: seq<AnyCall>)
    requires UniqueUsers(store.users) && Guarded(store) && NeverTakesLastAccess(store, catalog, calls)
    ensures Guarded(AnyRun(store, catalog, calls))
    decreases |calls|
  {
    if calls != [] {
      StepStaysGuardedExactly(store, catalog, calls[0]);
      hide Guarded, AnyStep, TakesLastAccess;
      MixedRunsStayGuarded(AnyStep(store, catalog, calls[0]), catalog, calls[1..]);
    }
  }

  /** With more than 500 users the check is too strict: when the only privileged user is listed
      after the first page, a call that keeps that user's access is still refused. */
  lemma LaterPageRefused(others: seq<User>, id: string, item: string)
    requires |others| == PAGE && forall i :: 0 <= i < PAGE ==> !Governs(others[i])
    requires UniqueUsers(others + [User(id, Owner, Active)])
    ensures var store := Store(others + [User(id, Owner, Active)], Some(Policy({item}, false, false, 1)),
                               map[UserSubject(id) := Assignment({item}, 1)]);
            var call := PutPolicy([item], false, true);
            Step(store, {item}, call).1 == Some(LocksOut) && Guarded(Written(store, call))
  {
    var store := Store(others + [User(id, Owner, Active)], Some(Policy({item}, false, false, 1)),
                       map[UserSubject(id) := Assignment({item}, 1)]);
    var call := PutPolicy([item], false, true);
    assert Listed(store.users) == others;
    assert !Passes(store, Items([item]), NoChange);
    var after := Written(store, call);
    FindListed(after.users, PAGE);
    assert item in {item} * Items([item]);
    assert Governs(after.users[PAGE]);
    assert HasAccess(after, after.users[PAGE]);
  }

  // ----- The endpoints as they write -----

  class CatalogEndpoints {
    const catalog: set<string>
    const users: seq<User>
    var policy: Option<Policy>
    var assignments: map<Subject, Assignment>

    constructor (catalog: set<string>, users: seq<User>)
      ensures this.catalog == catalog && View() == Store(users, None, map[])
    {
      this.catalog, this.users := catalog, users;
      policy, assignments := None, map[];
    }

    function View(): Store
      reads this
    {
      Store(users, policy, assignments)
    }

    method PutMcpServerCatalogPolicy(items: seq<string>, allowCustom: bool, requireAssignment: bool) returns (error: Option<Error>)
      modifies this
      ensures (View(), error) == Step(old(View()), catalog, PutPolicy(items, allowCustom, requireAssignment))
    {
      if !Distinct(items) {
        return Some(DuplicateItems);
      }
      if !(Items(items) <= catalog) {
        return Some(UnknownItems);
      }
      if requireAssignment {
        var passed := ValidateBreakGlass(View(), Items(items), NoChange);
        if !passed {
          return Some(LocksOut);
        }
      }
      var version := if policy.Some? then policy.value.version + 1 else 1;
      policy := Some(Policy(Items(items), allowCustom, requireAssignment, version));
      error := None;
    }

    method DeleteMcpServerCatalogPolicy() returns (error: Option<Error>)
      modifies this
      ensures (View(), error) == Step(old(View()), catalog, DeletePolicy)
    {
      if policy.None? {
        return Some(NotFound);
      }
      policy := None;
      error := None;
    }

    method PutMcpServerCatalogAssignment(subject: Subject, items: seq<string>) returns (error: Option<Error>)
      modifies this
      ensures (View(), error) == Step(old(View()), catalog, PutAssignment(subject, items))
    {
      if subject.UserSubject? && FindUser(users, subject.id).None? {
        return Some(NotFound);
      }
      if policy.None? {
        return Some(NoPolicy);
      }
      if !Distinct(items) {
        return Some(DuplicateItems);
      }
      if !(Items(items) <= catalog) {
        return Some(UnknownItems);
      }
      if !(Items(items) <= policy.value.items) {
        return Some(ExceedsPolicy);
      }
      if policy.value.requireAssignment {
        var passed := ValidateBreakGlass(View(), policy.value.items, Override(subject, items));
        if !passed {
          return Some(LocksOut);
        }
      }
      var version := if subject in assignments then assignments[subject].version + 1 else 1;
      assignments := assignments[subject := Assignment(Items(items), version)];
      error := None;
    }

    method DeleteMcpServerCatalogAssignment(subject: Subject) returns (error: Option<Error>)
      modifies this
      ensures (View(), error) == Step(old(View()), catalog, DeleteAssignment(subject))
    {
      if subject !in assignments {
        return Some(NotFound);
      }
      if policy.Some? && policy.value.requireAssignment {
        var passed := ValidateBreakGlass(View(), policy.value.items, Remove(subject));
        if !passed {
          return Some(LocksOut);
        }
      }
      assignments := assignments - {subject};
      error := None;
    }
  }
}
