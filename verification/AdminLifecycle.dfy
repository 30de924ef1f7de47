/** The administrator lifecycle of departments: no sequence of steps orphans a tenant that had an administrator. */
module AdminLifecycle {
  import opened Common

  datatype DepartmentStatus = DepartmentActive | DepartmentSuspended | DepartmentDeactivated
  datatype Status = Active | Suspended | Revoked

  datatype Membership = Membership(user: nat, dept: nat, status: Status)
  /** A station assignment, with the department its station belongs to. */
  datatype Assignment = Assignment(user: nat, dept: nat, status: Status)
  datatype Token = Token(user: nat, used: bool, expires: int)

  /** `users` maps an account to whether it is active; `systemAdmins` holds the accounts with an active system role. */
  datatype Directory = Directory(
    departments: map<nat, DepartmentStatus>, users: map<nat, bool>, systemAdmins: set<nat>,
    memberships: map<nat, Membership>, assignments: map<nat, Assignment>, tokens: map<nat, Token>)

  datatype Refusal =
    | PermissionDenied | WrongStatus | LastAdministrator | ActiveElsewhere | NoAuthority | Unknown | Taken

  // ---- scopes -------------------------------------------------------------------------------------

  predicate AccountActive(d: Directory, user: nat) {
    user in d.users && d.users[user]
  }

  predicate Operational(d: Directory, dept: nat) {
    dept in d.departments && d.departments[dept].DepartmentActive?
  }

  predicate IsSystemAdmin(d: Directory, user: nat) {
    AccountActive(d, user) && user in d.systemAdmins
  }

  /** An ACTIVE membership of an active account. */
  predicate Administers(d: Directory, m: nat, dept: nat) {
    m in d.memberships && d.memberships[m].dept == dept && d.memberships[m].status.Active?
    && AccountActive(d, d.memberships[m].user)
  }

  /** `effective_department_admin_memberships`. */
  function Effective(d: Directory, dept: nat): set<nat> {
    if Operational(d, dept) then set m | m in d.memberships && Administers(d, m, dept) else {}
  }

  /** `department.id in active_department_ids(user)`. */
  predicate HasDepartment(d: Directory, user: nat, dept: nat) {
    Operational(d, dept) && exists m :: m in d.memberships && d.memberships[m].user == user && Administers(d, m, dept)
  }

  /** `_require_tenant_lifecycle_actor`. */
  predicate TenantActor(d: Directory, actor: nat, dept: nat) {
    !IsSystemAdmin(d, actor) && HasDepartment(d, actor, dept)
  }

  /** `_prevent_last_effective_admin_removal`. */
  predicate IsLastEffective(d: Directory, m: nat)
    requires m in d.memberships
  {
    var dept := d.memberships[m].dept;
    d.memberships[m].status.Active? && m in Effective(d, dept) && |Effective(d, dept)| <= 1
  }

  // ---- operations ---------------------------------------------------------------------------------

  function SetStatus(d: Directory, m: nat, status: Status): Directory
    requires m in d.memberships
  {
    d.(memberships := d.memberships[m := d.memberships[m].(status := status)])
  }

  function ChangeDepartmentStatus(
      d: Directory, actor: nat, dept: nat, status: DepartmentStatus): Result<Directory, Refusal> {
    if !IsSystemAdmin(d, actor) then Err(PermissionDenied)
    else if dept !in d.departments then Err(Unknown)
    else Ok(d.(departments := d.departments[dept := status]))
  }

  /** `provision_department_admin`: a new, still inactive account with an ACTIVE membership and a setup token. */
  function Provision(
      d: Directory, actor: nat, dept: nat, user: nat, m: nat, token: nat, expires: int): Result<Directory, Refusal> {
    if dept !in d.departments then Err(Unknown)
    else if IsSystemAdmin(d, actor) && (!Operational(d, dept) || Effective(d, dept) != {}) then Err(PermissionDenied)
    else if !IsSystemAdmin(d, actor) && !HasDepartment(d, actor, dept) then Err(PermissionDenied)
    else if user in d.users || m in d.memberships || token in d.tokens then Err(Taken)
    else Ok(d.(users := d.users[user := false],
               memberships := d.memberships[m := Membership(user, dept, Active)],
               tokens := d.tokens[token := Token(user, false, expires)]))
  }

  /** `consume_setup_token`: completing the setup activates the account. */
  function CompleteSetup(d: Directory, token: nat, now: int): Result<Directory, Refusal> {
    if token !in d.tokens || d.tokens[token].used || d.tokens[token].expires <= now then Err(NoAuthority)
    else Ok(d.(users := d.users[d.tokens[token].user := true],
               tokens := d.tokens[token := d.tokens[token].(used := true)]))
  }

  function Suspend(d: Directory, actor: nat, m: nat): Result<Directory, Refusal> {
    if m !in d.memberships then Err(Unknown)
    else if !TenantActor(d, actor, d.memberships[m].dept) then Err(PermissionDenied)
    else if !d.memberships[m].status.Active? then Err(WrongStatus)
    else if IsLastEffective(d, m) then Err(LastAdministrator)
    else Ok(SetStatus(d, m, Suspended))
  }

  predicate ActiveOther(d: Directory, user: nat, m: nat) {
    exists n :: n in d.memberships && n != m && d.memberships[n].user == user && d.memberships[n].status.Active?
  }

  function Reinstate(d: Directory, actor: nat, m: nat): Result<Directory, Refusal> {
    if m !in d.memberships then Err(Unknown)
    else if !TenantActor(d, actor, d.memberships[m].dept) then Err(PermissionDenied)
    else if !d.memberships[m].status.Suspended? then Err(WrongStatus)
    else if ActiveOther(d, d.memberships[m].user, m) then Err(ActiveElsewhere)
    else Ok(SetStatus(d, m, Active))
  }

  function RevokeMembership(d: Directory, actor: nat, m: nat): Result<Directory, Refusal> {
    if m !in d.memberships then Err(Unknown)
    else if !TenantActor(d, actor, d.memberships[m].dept) then Err(PermissionDenied)
    else if d.memberships[m].status.Revoked? then Err(WrongStatus)
    else if IsLastEffective(d, m) then Err(LastAdministrator)
    else Ok(SetStatus(d, m, Revoked))
  }

  /** Station assignments come and go without touching memberships or accounts. */
  function ChangeAssignment(d: Directory, id: nat, a: Assignment): Directory {
    d.(assignments := d.assignments[id := a])
  }

  function MembershipsOf(d: Directory, user: nat, dept: nat): set<nat> {
    set m | m in d.memberships && d.memberships[m].user == user && d.memberships[m].dept == dept
  }

  function AssignmentsOf(d: Directory, user: nat, dept: nat): set<nat> {
    set a | a in d.assignments && d.assignments[a].user == user && d.assignments[a].dept == dept
  }

  predicate ActiveFor(holder: nat, status: Status, user: nat) {
    holder == user && status.Active?
  }

  predicate AuthorityOutside(d: Directory, user: nat, dept: nat) {
    || (exists m :: m in d.memberships && ActiveFor(d.memberships[m].user, d.memberships[m].status, user) &&
          d.memberships[m].dept != dept)
    || (exists a :: a in d.assignments && ActiveFor(d.assignments[a].user, d.assignments[a].status, user) &&
          d.assignments[a].dept != dept)
  }

  function RevokedIn(ms: map<nat, Membership>, ids: set<nat>): map<nat, Membership> {
    map m | m in ms :: if m in ids then ms[m].(status := Revoked) else ms[m]
  }

  /** The account's authority in the department is revoked, its account deactivated, its open setup tokens closed. */
  function Removed(d: Directory, user: nat, dept: nat): Directory {
    d.(memberships := RevokedIn(d.memberships, MembershipsOf(d, user, dept)),
       assignments := map a | a in d.assignments ::
         if a in AssignmentsOf(d, user, dept) then d.assignments[a].(status := Revoked) else d.assignments[a],
       users := d.users[user := false],
       tokens := map t | t in d.tokens :: if d.tokens[t].user == user then d.tokens[t].(used := true) else d.tokens[t])
  }

  /** `permanently_remove_administrator`. */
  function Remove(d: Directory, actor: nat, user: nat, dept: nat): Result<Directory, Refusal> {
    if dept !in d.departments || user !in d.users then Err(Unknown)
    else if !TenantActor(d, actor, dept) then Err(PermissionDenied)
    else if IsSystemAdmin(d, user) then Err(PermissionDenied)
    else if MembershipsOf(d, user, dept) == {} && AssignmentsOf(d, user, dept) == {} then Err(NoAuthority)
    else if AuthorityOutside(d, user, dept) then Err(ActiveElsewhere)
    else if exists m :: m in MembershipsOf(d, user, dept) && IsLastEffective(d, m) then Err(LastAdministrator)
    else Ok(Removed(d, user, dept))
  }

  // ---- runs -----------------------------------------------------------------------------------------

  datatype Event =
    | StatusEvent(actor: nat, dept: nat, status: DepartmentStatus)
    | ProvisionEvent(actor: nat, dept: nat, user: nat, membership: nat, token: nat, expires: int)
    | SetupEvent(token: nat, now: int)
    | SuspendEvent(actor: nat, membership: nat)
    | ReinstateEvent(actor: nat, membership: nat)
    | RevokeEvent(actor: nat, membership: nat)
    | RemoveEvent(actor: nat, user: nat, dept: nat)
    | AssignmentEvent(id: nat, assignment: Assignment)

  function Attempt(d: Directory, e: Event): Result<Directory, Refusal> {
    match e
    case StatusEvent(actor, dept, status) => ChangeDepartmentStatus(d, actor, dept, status)
    case ProvisionEvent(actor, dept, user, m, token, expires) => Provision(d, actor, dept, user, m, token, expires)
    case SetupEvent(token, now) => CompleteSetup(d, token, now)
    case SuspendEvent(actor, m) => Suspend(d, actor, m)
    case ReinstateEvent(actor, m) => Reinstate(d, actor, m)
    case RevokeEvent(actor, m) => RevokeMembership(d, actor, m)
    case RemoveEvent(actor, user, dept) => Remove(d, actor, user, dept)
    case AssignmentEvent(id, a) => Ok(ChangeAssignment(d, id, a))
  }

  function Step(d: Directory, e: Event): Directory {
    var r := Attempt(d, e); if r.Ok? then r.value else d
  }

  function Run(d: Directory, events: seq<Event>): Directory
    decreases |events|
  {
    if events == [] then d else Run(Step(d, events[0]), events[1..])
  }

  predicate BothActive(a: Membership, b: Membership) {
    a.user == b.user && a.status.Active? && b.status.Active?
  }

  /** Constraint `one_active_department_admin`: an account has at most one ACTIVE membership. */
  ghost predicate OneActive(d: Directory) {
    forall m, n :: m in d.memberships && n in d.memberships && BothActive(d.memberships[m], d.memberships[n]) ==> m == n
  }

  /** Memberships and setup tokens belong to accounts. */
  ghost predicate OwnersExist(d: Directory) {
    && (forall m :: m in d.memberships ==> d.memberships[m].user in d.users)
    && (forall t :: t in d.tokens ==> d.tokens[t].user in d.users)
  }

  ghost predicate Valid(d: Directory) {
    OneActive(d) && OwnersExist(d)
  }

  lemma StepKeepsValid(d: Directory, e: Event)
    requires Valid(d)
    ensures Valid(Step(d, e))
  {
  }

  /** The department has an ACTIVE membership with an active account, whatever the department's own status. */
  ghost predicate Staffed(d: Directory, dept: nat) {
    exists m :: Administers(d, m, dept)
  }

  /** More than one effective membership: one of them is another one. */
  lemma AnotherEffective(d: Directory, dept: nat, m: nat)
    requires |Effective(d, dept)| > 1
    ensures exists n :: n != m && Administers(d, n, dept)
  {
    if forall n :: n in Effective(d, dept) ==> n == m {
      assert Effective(d, dept) <= {m};
      SubsetOfOne(Effective(d, dept), m);
    }
  }

  lemma SubsetOfOne(s: set<nat>, m: nat)
    requires s <= {m}
    ensures |s| <= 1
  {
    if s != {} { assert s == {m}; }
  }

  /** Taking an ACTIVE membership away leaves another one, because the guard counted the department's. */
  lemma DemotionKeepsStaffed(d: Directory, m: nat, status: Status)
    requires m in d.memberships && Operational(d, d.memberships[m].dept) && !IsLastEffective(d, m)
    requires Staffed(d, d.memberships[m].dept)
    ensures Staffed(SetStatus(d, m, status), d.memberships[m].dept)
  {
    var dept := d.memberships[m].dept;
    var w :| Administers(d, w, dept);
    if w == m {
      assert m in Effective(d, dept);
      AnotherEffective(d, dept, m);
      w :| w != m && Administers(d, w, dept);
    }
    assert Administers(SetStatus(d, m, status), w, dept);
  }

  /** A membership that no removal or demotion aims at keeps administering. */
  lemma RemovalKeepsStaffed(d: Directory, actor: nat, user: nat, dept: nat, any: nat)
    requires Valid(d) && Remove(d, actor, user, dept).Ok? && Staffed(d, any)
    ensures Staffed(Removed(d, user, dept), any)
  {
    var d' := Removed(d, user, dept);
    var w :| Administers(d, w, any);
    if d.memberships[w].user == user {
      // Authority outside the department would have been refused, so this is the department itself.
      assert w in MembershipsOf(d, user, dept) && any == dept;
      assert w in Effective(d, dept) && !IsLastEffective(d, w);
      AnotherEffective(d, dept, w);
      var other :| other != w && Administers(d, other, dept);
      assert d.memberships[other].user != user;
      w := other;
    }
    assert Administers(d', w, any);
  }

  lemma StepKeepsStaffed(d: Directory, e: Event, dept: nat)
    requires Valid(d) && Staffed(d, dept)
    ensures Staffed(Step(d, e), dept)
  {
    var w :| Administers(d, w, dept);
    if Attempt(d, e).Ok? {
      match e
      case RemoveEvent(actor, user, at) => RemovalKeepsStaffed(d, actor, user, at, dept);
      case SuspendEvent(_, m) =>
        if d.memberships[m].dept == dept {
          DemotionKeepsStaffed(d, m, Suspended);
        } else {
          assert Administers(Step(d, e), w, dept);
        }
      case RevokeEvent(_, m) =>
        if d.memberships[m].dept == dept {
          DemotionKeepsStaffed(d, m, Revoked);
        } else {
          assert Administers(Step(d, e), w, dept);
        }
      case _ => assert Administers(Step(d, e), w, dept);
    }
  }

  /** Once a department has an administrator with an active account, every later state has one. */
  lemma {:induction false} NeverOrphaned(d: Directory, events: seq<Event>, dept: nat)
    requires Valid(d) && Staffed(d, dept)
    ensures Staffed(Run(d, events), dept)
    decreases |events|
  {
    if events != [] {
      StepKeepsValid(d, events[0]);
      StepKeepsStaffed(d, events[0], dept);
      NeverOrphaned(Step(d, events[0]), events[1..], dept);
    }
  }

  /** A removed account: inactive, with no setup token left to reopen it. */
  ghost predicate Closed(d: Directory, user: nat) {
    user in d.users && !d.users[user] && forall t :: t in d.tokens && d.tokens[t].user == user ==> d.tokens[t].used
  }

  lemma {:induction false} RemovedForGood(d: Directory, events: seq<Event>, user: nat)
    requires Closed(d, user)
    ensures Closed(Run(d, events), user)
    decreases |events|
  {
    if events != [] {
      assert Closed(Step(d, events[0]), user);
      RemovedForGood(Step(d, events[0]), events[1..], user);
    }
  }

  /**
   Permanent removal closes the account for good: in no later state does it administer a department, even if a
   membership elsewhere is reinstated. Right after the removal it has no ACTIVE membership.
   */
  lemma RemovalIsPermanent(d: Directory, actor: nat, user: nat, dept: nat, events: seq<Event>)
    requires Valid(d) && Remove(d, actor, user, dept).Ok?
    ensures Closed(Run(Removed(d, user, dept), events), user)
    ensures forall m, any :: Administers(Run(Removed(d, user, dept), events), m, any) ==>
              Run(Removed(d, user, dept), events).memberships[m].user != user
    ensures forall m :: m in d.memberships && d.memberships[m].user == user ==>
            !Removed(d, user, dept).memberships[m].status.Active?
  {
    RemovedForGood(Removed(d, user, dept), events, user);
  }

  // ---- who may do what, and what it changes ---------------------------------------------------------

  /** Membership `m` counts: it is ACTIVE, in that department, and its account is active. */
  predicate Serves(d: Directory, m: nat, dept: nat) {
    && m in d.memberships && d.memberships[m].dept == dept && d.memberships[m].status == Active
    && d.memberships[m].user in d.users && d.users[d.memberships[m].user]
  }

  /** An administrator in office: no system administrator, with a membership that counts in an active department. */
  ghost predicate InOffice(d: Directory, actor: nat, dept: nat) {
    && dept in d.departments && d.departments[dept] == DepartmentActive && actor !in d.systemAdmins
    && exists m :: Serves(d, m, dept) && d.memberships[m].user == actor
  }

  lemma ActorMeans(d: Directory, actor: nat, dept: nat)
    ensures TenantActor(d, actor, dept) <==> InOffice(d, actor, dept)
  {
    forall m ensures Administers(d, m, dept) <==> Serves(d, m, dept) { }
  }

  lemma TwoMembers(s: set<nat>, m: nat, n: nat)
    requires m in s && n in s && m != n
    ensures |s| > 1
  {
    assert |s - {m} - {n}| == |s| - 2;
  }

  /** A membership is the last one exactly when it counts, in an active department, and no other one does. */
  lemma LastMeans(d: Directory, m: nat)
    requires m in d.memberships
    ensures var dept := d.memberships[m].dept;
            IsLastEffective(d, m) <==>
            && dept in d.departments && d.departments[dept] == DepartmentActive && Serves(d, m, dept)
            && forall n :: Serves(d, n, dept) ==> n == m
  {
    var dept := d.memberships[m].dept;
    var effective := Effective(d, dept);
    if Operational(d, dept) {
      assert forall n :: n in effective <==> Serves(d, n, dept);
      if n :| Serves(d, n, dept) && n != m {
        if m in effective { TwoMembers(effective, m, n); }
      } else {
        assert effective <= {m};
        SubsetOfOne(effective, m);
      }
    }
  }

  /** Taking the membership out of office leaves the department someone, or takes nobody out. */
  ghost predicate Dispensable(d: Directory, m: nat)
    requires m in d.memberships
  {
    var dept := d.memberships[m].dept;
    Serves(d, m, dept) ==> exists n :: n != m && Serves(d, n, dept)
  }

  lemma DispensableMeans(d: Directory, actor: nat, m: nat)
    requires m in d.memberships && InOffice(d, actor, d.memberships[m].dept)
    ensures IsLastEffective(d, m) <==> !Dispensable(d, m)
  {
    LastMeans(d, m);
  }

  /** The membership has the new status; nothing else is changed. */
  predicate OnlyStatus(d: Directory, m: nat, status: Status, d': Directory) {
    && m in d.memberships
    && d' == d.(memberships := d.memberships[m := Membership(d.memberships[m].user, d.memberships[m].dept, status)])
  }

  /**
   Suspending, revoking and reinstating: done exactly by an administrator in office of that department, on a membership
   of the right status; never on the last one that counts; and a reinstated account has no other ACTIVE membership.
   */
  lemma StatusChangesMean(d: Directory, actor: nat, m: nat)
    ensures Suspend(d, actor, m).Ok? <==>
            && m in d.memberships && InOffice(d, actor, d.memberships[m].dept) && d.memberships[m].status == Active
            && Dispensable(d, m)
    ensures RevokeMembership(d, actor, m).Ok? <==>
            && m in d.memberships && InOffice(d, actor, d.memberships[m].dept) && d.memberships[m].status != Revoked
            && Dispensable(d, m)
    ensures Reinstate(d, actor, m).Ok? <==>
            && m in d.memberships && InOffice(d, actor, d.memberships[m].dept) && d.memberships[m].status == Suspended
            && forall n :: n in d.memberships && d.memberships[n].user == d.memberships[m].user ==>
                 n == m || d.memberships[n].status != Active
    ensures Suspend(d, actor, m).Ok? ==> OnlyStatus(d, m, Suspended, Suspend(d, actor, m).value)
    ensures RevokeMembership(d, actor, m).Ok? ==> OnlyStatus(d, m, Revoked, RevokeMembership(d, actor, m).value)
    ensures Reinstate(d, actor, m).Ok? ==> OnlyStatus(d, m, Active, Reinstate(d, actor, m).value)
  {
    if m in d.memberships {
      ActorMeans(d, actor, d.memberships[m].dept);
      if InOffice(d, actor, d.memberships[m].dept) { DispensableMeans(d, actor, m); }
    }
  }

  /** Each refusal of a suspension has its reason; the last administrator is refused only to someone who might ask. */
  lemma SuspensionRefused(d: Directory, actor: nat, m: nat)
    ensures Suspend(d, actor, m).Err? ==>
            match Suspend(d, actor, m).error
            case Unknown => m !in d.memberships
            case PermissionDenied => m in d.memberships && !InOffice(d, actor, d.memberships[m].dept)
            case WrongStatus => m in d.memberships && d.memberships[m].status != Active
            case LastAdministrator =>
              && m in d.memberships && InOffice(d, actor, d.memberships[m].dept) && d.memberships[m].user == actor
            case _ => false
  {
    if m in d.memberships {
      ActorMeans(d, actor, d.memberships[m].dept);
      LastMeans(d, m);
    }
  }

  /** A system administrator in office. */
  predicate Oversees(d: Directory, actor: nat) {
    actor in d.users && d.users[actor] && actor in d.systemAdmins
  }

  /** The identities of a new administrator are all unused. */
  predicate NewIdentities(d: Directory, user: nat, m: nat, token: nat) {
    user !in d.users && m !in d.memberships && token !in d.tokens
  }

  /**
   A new administrator is provided for exactly by an administrator in office of the department, or by a system
   administrator while an active department has nobody. The account stays inactive until its setup token is used,
   which works once and in time.
   */
  lemma ProvisionMeans(
      d: Directory, actor: nat, dept: nat, user: nat, m: nat, token: nat, expires: int, now: int)
    ensures var r := Provision(d, actor, dept, user, m, token, expires);
            && (r.Ok? <==>
                  && dept in d.departments && d.departments[dept] == DepartmentActive
                  && NewIdentities(d, user, m, token)
                  && (InOffice(d, actor, dept) || (Oversees(d, actor) && !exists n :: Serves(d, n, dept))))
            && (r.Ok? ==>
                  && r.value == d.(users := d.users[user := false],
                                   memberships := d.memberships[m := Membership(user, dept, Active)],
                                   tokens := d.tokens[token := Token(user, false, expires)])
                  && var done := CompleteSetup(r.value, token, now);
                  && (done.Ok? <==> now < expires)
                  && (done.Ok? ==>
                        && done.value == r.value.(users := d.users[user := true],
                                                  tokens := d.tokens[token := Token(user, true, expires)])
                        && Serves(done.value, m, dept) && CompleteSetup(done.value, token, now).Err?))
  {
    forall n ensures Administers(d, n, dept) <==> Serves(d, n, dept) { }
    ActorMeans(d, actor, dept);
    if Operational(d, dept) {
      assert forall n :: n in Effective(d, dept) <==> Serves(d, n, dept);
      if n :| Serves(d, n, dept) { assert n in Effective(d, dept); }
    }
  }

  /** Only system administrators change a department's status, of any department there is, to any status. */
  lemma DepartmentStatusMeans(d: Directory, actor: nat, dept: nat, status: DepartmentStatus)
    ensures var r := ChangeDepartmentStatus(d, actor, dept, status);
            && (r.Ok? <==> Oversees(d, actor) && dept in d.departments)
            && (r.Ok? ==> r.value == d.(departments := d.departments[dept := status]))
  {
  }

  /** The account holds something in the department, of whatever status. */
  ghost predicate Holds(d: Directory, user: nat, dept: nat) {
    || (exists m :: m in d.memberships && d.memberships[m].user == user && d.memberships[m].dept == dept)
    || (exists a :: a in d.assignments && d.assignments[a].user == user && d.assignments[a].dept == dept)
  }

  /** The account has no ACTIVE membership or assignment outside the department. */
  ghost predicate OnlyHere(d: Directory, user: nat, dept: nat) {
    && (forall m :: m in d.memberships && d.memberships[m].user == user && d.memberships[m].dept != dept ==>
          d.memberships[m].status != Active)
    && (forall a :: a in d.assignments && d.assignments[a].user == user && d.assignments[a].dept != dept ==>
          d.assignments[a].status != Active)
  }

  /** If the account serves the department, someone else does too. */
  ghost predicate CanBeSpared(d: Directory, user: nat, dept: nat) {
    (exists m :: Serves(d, m, dept) && d.memberships[m].user == user) ==>
      exists n :: Serves(d, n, dept) && d.memberships[n].user != user
  }

  lemma NothingHeld(d: Directory, user: nat, dept: nat)
    ensures MembershipsOf(d, user, dept) == {} && AssignmentsOf(d, user, dept) == {} <==> !Holds(d, user, dept)
  {
    if m :| m in d.memberships && d.memberships[m].user == user && d.memberships[m].dept == dept {
      assert m in MembershipsOf(d, user, dept);
    }
    if a :| a in d.assignments && d.assignments[a].user == user && d.assignments[a].dept == dept {
      assert a in AssignmentsOf(d, user, dept);
    }
  }

  lemma NoneIsLast(d: Directory, actor: nat, user: nat, dept: nat)
    requires OneActive(d) && InOffice(d, actor, dept)
    ensures (exists m :: m in MembershipsOf(d, user, dept) && IsLastEffective(d, m)) <==> !CanBeSpared(d, user, dept)
  {
    if m :| m in MembershipsOf(d, user, dept) && IsLastEffective(d, m) {
      LastMeans(d, m);
      assert Serves(d, m, dept) && d.memberships[m].user == user;
    }
    if !CanBeSpared(d, user, dept) {
      var m :| Serves(d, m, dept) && d.memberships[m].user == user;
      forall n | Serves(d, n, dept) ensures n == m { assert d.memberships[n].user == user; }
      LastMeans(d, m);
      assert m in MembershipsOf(d, user, dept);
    }
  }

  /**
   Removal for good: done exactly by an administrator in office of the department, on an account, not a system
   administrator's, that holds something there and nothing ACTIVE elsewhere, and that can be replaced.
   */
  lemma RemovalMeans(d: Directory, actor: nat, user: nat, dept: nat)
    requires OneActive(d)
    ensures Remove(d, actor, user, dept).Ok? <==>
            && user in d.users && InOffice(d, actor, dept) && !Oversees(d, user) && Holds(d, user, dept)
            && OnlyHere(d, user, dept) && CanBeSpared(d, user, dept)
  {
    ActorMeans(d, actor, dept);
    NothingHeld(d, user, dept);
    if InOffice(d, actor, dept) { NoneIsLast(d, actor, user, dept); }
    assert AuthorityOutside(d, user, dept) <==> !OnlyHere(d, user, dept);
  }

  /** It revokes all the account holds in the department, closes the account and its tokens, and touches no other. */
  lemma RemovalChanges(d: Directory, actor: nat, user: nat, dept: nat, k: nat)
    requires Remove(d, actor, user, dept).Ok?
    ensures var d' := Remove(d, actor, user, dept).value;
            && d'.departments == d.departments && d'.systemAdmins == d.systemAdmins
            && d'.users == d.users[user := false]
            && d'.memberships.Keys == d.memberships.Keys && d'.assignments.Keys == d.assignments.Keys
            && d'.tokens.Keys == d.tokens.Keys
            && (k in d.memberships ==>
                  var was := d.memberships[k];
                  d'.memberships[k] ==
                  if was.user == user && was.dept == dept then Membership(user, dept, Revoked) else was)
            && (k in d.assignments ==>
                  var was := d.assignments[k];
                  d'.assignments[k] ==
                  if was.user == user && was.dept == dept then Assignment(user, dept, Revoked) else was)
            && (k in d.tokens ==>
                  var was := d.tokens[k];
                  d'.tokens[k] == if was.user == user then Token(user, true, was.expires) else was)
  {
  }

  // ---- the service ----------------------------------------------------------------------------------

  class AdminService {
    var departments: map<nat, DepartmentStatus>
    var users: map<nat, bool>
    var systemAdmins: set<nat>
    var memberships: map<nat, Membership>
    var assignments: map<nat, Assignment>
    var tokens: map<nat, Token>

    function Db(): Directory
      reads this
    {
      Directory(departments, users, systemAdmins, memberships, assignments, tokens)
    }

    /** `_prevent_last_effective_admin_removal` on the current rows. */
    method PreventLast(m: nat) returns (blocked: bool)
      requires m in memberships
      ensures blocked == IsLastEffective(Db(), m)
    {
      if !memberships[m].status.Active? { return false; }
      var effective := Effective(Db(), memberships[m].dept);
      if m !in effective { return false; }
      blocked := |effective| <= 1;
    }

    method SuspendAdmin(actor: nat, m: nat) returns (bad: Option<Refusal>)
      modifies this`memberships
      ensures match Suspend(old(Db()), actor, m)
              case Ok(d) => bad == None && Db() == d
              case Err(e) => bad == Some(e) && Db() == old(Db())
    {
      if m !in memberships { return Some(Unknown); }
      if !TenantActor(Db(), actor, memberships[m].dept) { return Some(PermissionDenied); }
      if !memberships[m].status.Active? { return Some(WrongStatus); }
      var blocked := PreventLast(m);
      if blocked { return Some(LastAdministrator); }
      memberships := memberships[m := memberships[m].(status := Suspended)];
      bad := None;
    }

    method RevokeAdmin(actor: nat, m: nat) returns (bad: Option<Refusal>)
      modifies this`memberships
      ensures match RevokeMembership(old(Db()), actor, m)
              case Ok(d) => bad == None && Db() == d
              case Err(e) => bad == Some(e) && Db() == old(Db())
    {
      if m !in memberships { return Some(Unknown); }
      if !TenantActor(Db(), actor, memberships[m].dept) { return Some(PermissionDenied); }
      if memberships[m].status.Revoked? { return Some(WrongStatus); }
      var blocked := PreventLast(m);
      if blocked { return Some(LastAdministrator); }
      memberships := memberships[m := memberships[m].(status := Revoked)];
      bad := None;
    }

    /** The loop over the account's memberships; a blocked one undoes the whole step. */
    method RevokeAll(user: nat, dept: nat, mine: set<nat>) returns (blocked: bool)
      requires OneActive(Db()) && mine == MembershipsOf(Db(), user, dept)
      modifies this`memberships
      ensures blocked == exists m :: m in mine && IsLastEffective(old(Db()), m)
      ensures memberships == if blocked then old(memberships) else RevokedIn(old(memberships), mine)
    {
      var savepoint := memberships;
      var todo := mine;
      while todo != {}
        invariant todo <= mine && memberships == RevokedIn(savepoint, mine - todo)
        invariant forall m :: m in mine - todo ==> !IsLastEffective(old(Db()), m)
        decreases |todo|
      {
        var m :| m in todo;
        EffectiveUnmoved(old(Db()), Db(), user, dept, mine - todo, m);
        blocked := PreventLast(m);
        if blocked {
          memberships := savepoint;
          return;
        }
        memberships := memberships[m := memberships[m].(status := Revoked)];
        todo := todo - {m};
      }
      assert mine - todo == mine;
      blocked := false;
    }

    method RemoveAdministrator(actor: nat, user: nat, dept: nat) returns (bad: Option<Refusal>)
      requires OneActive(Db())
      modifies this
      ensures match Remove(old(Db()), actor, user, dept)
              case Ok(d) => bad == None && Db() == d
              case Err(e) => bad == Some(e) && Db() == old(Db())
    {
      if dept !in departments || user !in users { return Some(Unknown); }
      if !TenantActor(Db(), actor, dept) || IsSystemAdmin(Db(), user) { return Some(PermissionDenied); }
      var mine, posts := MembershipsOf(Db(), user, dept), AssignmentsOf(Db(), user, dept);
      if mine == {} && posts == {} { return Some(NoAuthority); }
      if AuthorityOutside(Db(), user, dept) { return Some(ActiveElsewhere); }
      var blocked := RevokeAll(user, dept, mine);
      if blocked { return Some(LastAdministrator); }
      assignments := map a | a in assignments :: if a in posts then assignments[a].(status := Revoked)
          else assignments[a];
      users := users[user := false];
      tokens := map t | t in tokens :: if tokens[t].user == user then tokens[t].(used := true) else tokens[t];
      bad := None;
    }
  }

  /** Revoking an account's other memberships of the department never changes whether this one is the last. */
  lemma EffectiveUnmoved(d: Directory, d': Directory, user: nat, dept: nat, done: set<nat>, m: nat)
    requires OneActive(d) && done <= MembershipsOf(d, user, dept) && m in MembershipsOf(d, user, dept) && m !in done
    requires d' == d.(memberships := d'.memberships)
    requires d'.memberships == RevokedIn(d.memberships, done)
    ensures IsLastEffective(d', m) <==> IsLastEffective(d, m)
  {
    if d.memberships[m].status.Active? {
      forall n | n in done ensures !d.memberships[n].status.Active? { }
      assert Effective(d', dept) == Effective(d, dept);
    }
  }
}
