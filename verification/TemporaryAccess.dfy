/** One-shot, six-hour station grants of department administrators. */
module TemporaryAccess {
  import opened Common

  /** Seconds in `TEMPORARY_ACCESS_DURATION`. */
  const SIX_HOURS := 6 * 60 * 60

  datatype Reason = Expired | AuthorityRevoked | Switched | Released | DepartmentMutation | ConsumedByDeletion

  datatype Grant = Grant(user: nat, dept: nat, station: nat, activated: int, expires: int, revoked: Option<Reason>)

  type Grants = map<nat, Grant>

  datatype Station = Station(dept: nat, active: bool)

  /** Authority as the database shows it when a step runs; every step may see a different one. */
  datatype Authority = Authority(
    departments: map<nat, set<nat>>, stationAdmins: map<nat, set<nat>>, systemAdmins: set<nat>,
    stations: map<nat, Station>)

  datatype Scope = DepartmentLibrary(dept: nat) | StationLibrary(station: nat)

  datatype Access = Normal | Temporary | Denied

  function DepartmentsOf(a: Authority, user: nat): set<nat> {
    if user in a.departments then a.departments[user] else {}
  }

  function StationsOf(a: Authority, user: nat): set<nat> {
    if user in a.stationAdmins then a.stationAdmins[user] else {}
  }

  /** `require_scope`. */
  predicate HasScope(a: Authority, user: nat, scope: Scope) {
    && user !in a.systemAdmins
    && match scope
       case DepartmentLibrary(d) => d in DepartmentsOf(a, user)
       case StationLibrary(s) => DepartmentsOf(a, user) == {} && s in StationsOf(a, user)
  }

  function Unrevoked(g: Grants, user: nat): set<nat> {
    set i | i in g && g[i].user == user && g[i].revoked.None?
  }

  /** A grant still carries its holder's authority. */
  predicate Backed(a: Authority, grant: Grant) {
    && grant.dept in DepartmentsOf(a, grant.user)
    && grant.station in a.stations && a.stations[grant.station].active && a.stations[grant.station].dept == grant.dept
  }

  predicate Usable(a: Authority, grant: Grant, now: int) {
    now < grant.expires && Backed(a, grant)
  }

  function Revoke(g: Grants, id: nat, reason: Reason): Grants
    requires id in g
  {
    if g[id].revoked.Some? then g else g[id := g[id].(revoked := Some(reason))]
  }

  /** `active_temporary_access`: the usable grant, if any; an unusable one is revoked on the way. */
  function Active(g: Grants, a: Authority, user: nat, now: int): Option<nat> {
    if Unrevoked(g, user) == {} then None
    else var id := Least(Unrevoked(g, user)); if Usable(a, g[id], now) then Some(id) else None
  }

  function Sweep(g: Grants, a: Authority, user: nat, now: int): Grants {
    if Unrevoked(g, user) == {} then g
    else
      var id := Least(Unrevoked(g, user));
      if Usable(a, g[id], now) then g
      else Revoke(g, id, if g[id].expires <= now then Expired else AuthorityRevoked)
  }

  /** `revoke_temporary_access`. */
  function RevokeActive(g: Grants, a: Authority, user: nat, now: int, reason: Reason): Grants {
    var id := Active(g, a, user, now);
    if id.Some? then Revoke(g, id.value, reason) else Sweep(g, a, user, now)
  }

  /** `revoke_temporary_access_for_user`: whatever grant is unrevoked, usable or not. */
  function RevokeForUser(g: Grants, user: nat, reason: Reason): Grants {
    if Unrevoked(g, user) == {} then g else Revoke(g, Least(Unrevoked(g, user)), reason)
  }

  /** `revoke_department_temporary_accesses`. */
  function RevokeDepartment(g: Grants, dept: nat, reason: Reason): Grants {
    map i | i in g :: if g[i].dept == dept && g[i].revoked.None? then g[i].(revoked := Some(reason)) else g[i]
  }

  /** `activate_temporary_access`: keep, switch or create; the clock is read again for the new grant. */
  function Activate(
      g: Grants, a: Authority, user: nat, station: nat, id: nat, checked: int, now: int): Result<Grants, Access> {
    if station !in a.stations || !a.stations[station].active || a.stations[station].dept !in DepartmentsOf(a, user)
        then Err(Denied)
    else
      var previous := Active(g, a, user, checked);
      if previous.Some? && g[previous.value].station == station then Ok(g)
      else
        var cleared := RevokeActive(g, a, user, checked, Switched);
        if id in cleared then Err(Denied)
        else Ok(cleared[id := Grant(user, a.stations[station].dept, station, now, now + SIX_HOURS, None)])
  }

  /** How a deletion is authorised: by scope, or by a usable grant for exactly that station. */
  function DeleteAccess(g: Grants, a: Authority, user: nat, scope: Scope, now: int): Access {
    if HasScope(a, user, scope) then Normal
    else
      var id := Active(g, a, user, now);
      if scope.StationLibrary? && id.Some? && g[id.value].station == scope.station then Temporary else Denied
  }

  /** Grants, and the grants that authorised an elevated deletion, in order. */
  datatype State = State(grants: Grants, elevated: seq<nat>)

  /**
   One deletion request: the expiry sweep that commits first, the authorisation, the deletion itself, and its
   aftermath, each at its own clock reading. A refusal sweeps once more after the rollback.
   */
  function Delete(s: State, a: Authority, user: nat, scope: Scope, swept: int, checked: int, after: int): State {
    var g := Sweep(s.grants, a, user, swept);
    match DeleteAccess(g, a, user, scope, checked)
    case Denied => s.(grants := Sweep(g, a, user, after))
    case Normal =>
      s.(grants := if scope.DepartmentLibrary? then RevokeActive(g, a, user, after, DepartmentMutation) else g)
    case Temporary =>
      State(RevokeActive(g, a, user, after, ConsumedByDeletion), s.elevated + [Active(g, a, user, checked).value])
  }

  /** Any other change of a department library. */
  function Change(s: State, a: Authority, user: nat, scope: Scope, swept: int, after: int): State {
    var g := Sweep(s.grants, a, user, swept);
    if HasScope(a, user, scope)
    then s.(grants := if scope.DepartmentLibrary? then RevokeActive(g, a, user, after, DepartmentMutation) else g)
    else s.(grants := Sweep(g, a, user, after))
  }

  // ---- the invariant ------------------------------------------------------------------------------

  ghost predicate OnePerUser(g: Grants) {
    forall i, j :: i in g && j in g && g[i].user == g[j].user && g[i].revoked.None? && g[j].revoked.None? ==> i == j
  }

  ghost predicate SixHours(g: Grants) {
    forall i :: i in g ==> g[i].expires == g[i].activated + SIX_HOURS
  }

  ghost predicate Spent(s: State) {
    && (forall n :: 0 <= n < |s.elevated| ==> s.elevated[n] in s.grants && s.grants[s.elevated[n]].revoked.Some?)
    && (forall n, m :: 0 <= n < m < |s.elevated| ==> s.elevated[n] != s.elevated[m])
  }

  ghost predicate Inv(s: State) {
    OnePerUser(s.grants) && SixHours(s.grants) && Spent(s)
  }

  /** Grants are never removed or rewritten; revocation, once recorded, stays as recorded. */
  ghost predicate Grows(g: Grants, g': Grants) {
    forall i :: i in g ==>
      i in g' && g'[i].(revoked := g[i].revoked) == g[i] && (g[i].revoked.Some? ==> g'[i] == g[i])
  }

  /** Nothing but revocations happened. */
  ghost predicate OnlyRevokes(g: Grants, g': Grants) {
    g'.Keys == g.Keys && Grows(g, g')
  }

  lemma RevokingKeeps(g: Grants, g': Grants)
    requires OnlyRevokes(g, g')
    ensures OnePerUser(g) ==> OnePerUser(g')
    ensures SixHours(g) ==> SixHours(g')
    ensures forall user :: Unrevoked(g', user) <= Unrevoked(g, user)
  {
    forall i | i in g'
      ensures g'[i].user == g[i].user && g'[i].expires == g[i].expires && g'[i].activated == g[i].activated
    {
      assert g'[i].(revoked := g[i].revoked) == g[i];
    }
  }

  lemma OnlyLive(g: Grants, user: nat, id: nat)
    requires OnePerUser(g) && id in Unrevoked(g, user)
    ensures Unrevoked(g, user) == {id}
  {
  }

  /** After a revocation of the holder's active grant, the holder has none left. */
  lemma RevokeActiveClears(g: Grants, a: Authority, user: nat, now: int, reason: Reason)
    requires OnePerUser(g)
    ensures var g' := RevokeActive(g, a, user, now, reason); Unrevoked(g', user) == {} && OnlyRevokes(g, g')
  {
    if Unrevoked(g, user) != {} { OnlyLive(g, user, Least(Unrevoked(g, user))); }
  }

  lemma SweepOnlyRevokes(g: Grants, a: Authority, user: nat, now: int)
    ensures OnlyRevokes(g, Sweep(g, a, user, now))
  {
  }

  lemma SpentKept(s: State, g: Grants)
    requires Spent(s) && Grows(s.grants, g)
    ensures Spent(s.(grants := g))
  {
  }

  // ---- runs ---------------------------------------------------------------------------------------

  datatype Event =
    | ActivateEvent(user: nat, station: nat, id: nat, checked: int, now: int)
    | DeleteEvent(user: nat, scope: Scope, swept: int, checked: int, after: int)
    | ChangeEvent(user: nat, scope: Scope, swept: int, after: int)
    | ReleaseEvent(user: nat, now: int)
    | SweepEvent(user: nat, now: int)
    | RevokeUserEvent(user: nat)
    | RevokeDepartmentEvent(dept: nat)

  function Step(s: State, a: Authority, e: Event): State {
    match e
    case ActivateEvent(user, station, id, checked, now) =>
      var r := Activate(s.grants, a, user, station, id, checked, now); if r.Ok? then s.(grants := r.value) else s
    case DeleteEvent(user, scope, swept, checked, after) => Delete(s, a, user, scope, swept, checked, after)
    case ChangeEvent(user, scope, swept, after) => Change(s, a, user, scope, swept, after)
    case ReleaseEvent(user, now) => s.(grants := RevokeActive(s.grants, a, user, now, Released))
    case SweepEvent(user, now) => s.(grants := Sweep(s.grants, a, user, now))
    case RevokeUserEvent(user) => s.(grants := RevokeForUser(s.grants, user, AuthorityRevoked))
    case RevokeDepartmentEvent(dept) => s.(grants := RevokeDepartment(s.grants, dept, AuthorityRevoked))
  }

  lemma GrowsTransitive(g: Grants, h: Grants, k: Grants)
    requires Grows(g, h) && Grows(h, k)
    ensures Grows(g, k)
  {
    forall i | i in g
      ensures i in k && k[i].(revoked := g[i].revoked) == g[i] && (g[i].revoked.Some? ==> k[i] == g[i])
    {
      assert h[i].(revoked := g[i].revoked) == g[i] && k[i].(revoked := h[i].revoked) == h[i];
    }
  }

  lemma ActivateKeeps(g: Grants, a: Authority, user: nat, station: nat, id: nat, checked: int, now: int)
    requires OnePerUser(g) && SixHours(g)
    ensures var r := Activate(g, a, user, station, id, checked, now);
            r.Ok? ==> OnePerUser(r.value) && SixHours(r.value) && Grows(g, r.value)
  {
    RevokeActiveClears(g, a, user, checked, Switched);
    var cleared := RevokeActive(g, a, user, checked, Switched);
    RevokingKeeps(g, cleared);
    var r := Activate(g, a, user, station, id, checked, now);
    if r.Ok? && r.value != g {
      forall i | i in cleared && cleared[i].user == user ensures cleared[i].revoked.Some? {
        assert i !in Unrevoked(cleared, user);
      }
    }
  }

  /** Sweep, then perhaps revoke: the two-phase shape of every library request. */
  lemma TwoPhase(g: Grants, a: Authority, user: nat, swept: int, after: int, reason: Reason)
    requires OnePerUser(g)
    ensures var h := Sweep(g, a, user, swept);
            && OnePerUser(h) && OnlyRevokes(g, h)
            && OnlyRevokes(g, RevokeActive(h, a, user, after, reason))
            && Unrevoked(RevokeActive(h, a, user, after, reason), user) == {}
            && OnlyRevokes(g, Sweep(h, a, user, after))
  {
    var h := Sweep(g, a, user, swept);
    SweepOnlyRevokes(g, a, user, swept);
    RevokingKeeps(g, h);
    RevokeActiveClears(h, a, user, after, reason);
    SweepOnlyRevokes(h, a, user, after);
    GrowsTransitive(g, h, RevokeActive(h, a, user, after, reason));
    GrowsTransitive(g, h, Sweep(h, a, user, after));
  }

  lemma DeleteOnlyRevokes(s: State, a: Authority, user: nat, scope: Scope, swept: int, checked: int, after: int)
    requires OnePerUser(s.grants)
    ensures OnlyRevokes(s.grants, Delete(s, a, user, scope, swept, checked, after).grants)
  {
    TwoPhase(s.grants, a, user, swept, after, DepartmentMutation);
    TwoPhase(s.grants, a, user, swept, after, ConsumedByDeletion);
  }

  lemma DeleteKeepsInv(s: State, a: Authority, user: nat, scope: Scope, swept: int, checked: int, after: int)
    requires Inv(s)
    ensures Inv(Delete(s, a, user, scope, swept, checked, after))
    ensures OnlyRevokes(s.grants, Delete(s, a, user, scope, swept, checked, after).grants)
  {
    var s' := Delete(s, a, user, scope, swept, checked, after);
    DeleteOnlyRevokes(s, a, user, scope, swept, checked, after);
    RevokingKeeps(s.grants, s'.grants);
    SpentKept(s, s'.grants);
    if DeleteAccess(Sweep(s.grants, a, user, swept), a, user, scope, checked).Temporary? {
      ElevatedSpendsItsGrant(s, a, user, scope, swept, checked, after);
    }
  }

  /** An elevated deletion leaves its own grant revoked, and no earlier elevated deletion used that grant. */
  lemma ElevatedSpendsItsGrant(s: State, a: Authority, user: nat, scope: Scope, swept: int, checked: int, after: int)
    requires Inv(s) && DeleteAccess(Sweep(s.grants, a, user, swept), a, user, scope, checked).Temporary?
    ensures var id := Active(Sweep(s.grants, a, user, swept), a, user, checked).value;
            var s' := Delete(s, a, user, scope, swept, checked, after);
            && id in s.grants && s.grants[id].revoked.None? && id !in s.elevated
            && s.grants[id].user == user && scope == StationLibrary(s.grants[id].station)
            && checked < s.grants[id].expires
            && s'.elevated == s.elevated + [id]
            && s'.grants[id].revoked.Some?
  {
    var g := Sweep(s.grants, a, user, swept);
    var id := Active(g, a, user, checked).value;
    TwoPhase(s.grants, a, user, swept, after, ConsumedByDeletion);
    RevokingKeeps(s.grants, g);
    assert id in Unrevoked(g, user);
    assert id in Unrevoked(s.grants, user);
    var g' := RevokeActive(g, a, user, after, ConsumedByDeletion);
    assert id in g' && g'[id].(revoked := s.grants[id].revoked) == s.grants[id];
    assert id !in Unrevoked(g', user);
    assert g[id].(revoked := s.grants[id].revoked) == s.grants[id];
  }

  lemma StepKeepsInv(s: State, a: Authority, e: Event)
    requires Inv(s)
    ensures Inv(Step(s, a, e)) && Grows(s.grants, Step(s, a, e).grants)
  {
    var s' := Step(s, a, e);
    match e
    case ActivateEvent(user, station, id, checked, now) =>
      ActivateKeeps(s.grants, a, user, station, id, checked, now);
      if s'.grants != s.grants { SpentKept(s, s'.grants); }
    case DeleteEvent(user, scope, swept, checked, after) => DeleteKeepsInv(s, a, user, scope, swept, checked, after);
    case ChangeEvent(user, scope, swept, after) =>
      TwoPhase(s.grants, a, user, swept, after, DepartmentMutation);
      RevokingKeeps(s.grants, s'.grants);
      SpentKept(s, s'.grants);
    case ReleaseEvent(user, now) =>
      RevokeActiveClears(s.grants, a, user, now, Released);
      RevokingKeeps(s.grants, s'.grants);
      SpentKept(s, s'.grants);
    case _ =>
      assert OnlyRevokes(s.grants, s'.grants);
      RevokingKeeps(s.grants, s'.grants);
      SpentKept(s, s'.grants);
  }

  /** A run is a list of events, each under whatever authority the database shows at that moment. */
  function Run(s: State, events: seq<(Authority, Event)>): State
    decreases |events|
  {
    if events == [] then s else Run(Step(s, events[0].0, events[0].1), events[1..])
  }

  lemma {:induction false} RunKeepsInv(s: State, events: seq<(Authority, Event)>)
    requires Inv(s)
    ensures Inv(Run(s, events)) && Grows(s.grants, Run(s, events).grants)
    decreases |events|
  {
    if events != [] {
      var t := Step(s, events[0].0, events[0].1);
      StepKeepsInv(s, events[0].0, events[0].1);
      RunKeepsInv(t, events[1..]);
      GrowsTransitive(s.grants, t.grants, Run(s, events).grants);
    }
  }

  lemma {:induction false} DistinctWithin(ids: seq<nat>, keys: set<nat>)
    requires forall n :: 0 <= n < |ids| ==> ids[n] in keys
    requires forall n, m :: 0 <= n < m < |ids| ==> ids[n] != ids[m]
    ensures |ids| <= |keys|
    decreases |ids|
  {
    if ids != [] {
      var last := ids[|ids| - 1];
      DistinctWithin(ids[..|ids| - 1], keys - {last});
    }
  }

  /**
   From no grants at all, whatever happens: every user holds at most one unrevoked grant, every grant spans exactly six
   hours, and there were at most as many elevated deletions as activations.
   */
  lemma ReachableGrants(events: seq<(Authority, Event)>)
    ensures var s := Run(State(map[], []), events);
            && OnePerUser(s.grants)
            && (forall i :: i in s.grants ==> s.grants[i].expires == s.grants[i].activated + 21600)
            && |s.elevated| <= |s.grants|
  {
    var s := Run(State(map[], []), events);
    RunKeepsInv(State(map[], []), events);
    DistinctWithin(s.elevated, s.grants.Keys);
  }

  /** No grant stays live once its holder has changed a department library, by deletion or otherwise. */
  lemma DepartmentChangeEndsGrants(s: State, a: Authority, user: nat, dept: nat, swept: int, checked: int, after: int)
    requires Inv(s) && HasScope(a, user, DepartmentLibrary(dept))
    ensures Unrevoked(Delete(s, a, user, DepartmentLibrary(dept), swept, checked, after).grants, user) == {}
    ensures Unrevoked(Change(s, a, user, DepartmentLibrary(dept), swept, after).grants, user) == {}
  {
    TwoPhase(s.grants, a, user, swept, after, DepartmentMutation);
  }

  // ---- who is granted and who is refused ------------------------------------------------------------

  /** The user administers the department. */
  predicate Administers(a: Authority, user: nat, dept: nat) {
    user in a.departments && dept in a.departments[user]
  }

  /**
   Standing authority over a library: a department's belongs to its administrators, a station's to its own, unless they
   administer a department as well; system administrators have none.
   */
  predicate Entitled(a: Authority, user: nat, scope: Scope) {
    && user !in a.systemAdmins
    && match scope
       case DepartmentLibrary(d) => Administers(a, user, d)
       case StationLibrary(st) =>
         && (user in a.departments ==> a.departments[user] == {})
         && user in a.stationAdmins && st in a.stationAdmins[user]
  }

  /**
   The grant is in force: neither revoked nor run out, its holder still administers its department, and its station is
   still an active one of that department.
   */
  predicate InForce(a: Authority, grant: Grant, now: int) {
    && grant.revoked.None? && now < grant.expires && Administers(a, grant.user, grant.dept)
    && grant.station in a.stations && a.stations[grant.station].active && a.stations[grant.station].dept == grant.dept
  }

  /** Grant `i` is the user's and in force. */
  predicate HeldInForce(g: Grants, a: Authority, user: nat, now: int, i: nat) {
    i in g && g[i].user == user && InForce(a, g[i], now)
  }

  lemma ActiveMeans(g: Grants, a: Authority, user: nat, now: int, i: nat)
    requires OnePerUser(g)
    ensures Active(g, a, user, now) == Some(i) <==> HeldInForce(g, a, user, now, i)
  {
    if i in Unrevoked(g, user) { OnlyLive(g, user, i); }
  }

  /**
   Who may delete from a library: with standing authority, anyone; without it, for a station's library, exactly the
   holder of a grant in force for that very station; nobody else.
   */
  lemma DeletionIsGranted(g: Grants, a: Authority, user: nat, scope: Scope, now: int)
    requires OnePerUser(g)
    ensures var access := DeleteAccess(g, a, user, scope, now);
            && (access.Normal? <==> Entitled(a, user, scope))
            && (access.Temporary? <==>
                  && !Entitled(a, user, scope) && scope.StationLibrary?
                  && exists i :: HeldInForce(g, a, user, now, i) && g[i].station == scope.station)
  {
    var id := Active(g, a, user, now);
    if id.Some? { ActiveMeans(g, a, user, now, id.value); }
    if i :| HeldInForce(g, a, user, now, i) { ActiveMeans(g, a, user, now, i); }
  }

  /** Why a grant is no longer good: it has run out, or else its authority is gone. */
  function WhyUnusable(grant: Grant, now: int): Reason {
    if now >= grant.expires then Expired else AuthorityRevoked
  }

  /** Sweeping revokes exactly the user's unrevoked grant that is not in force, for the reason that it is not. */
  lemma SweepMeans(g: Grants, a: Authority, user: nat, now: int, i: nat)
    requires OnePerUser(g) && i in g
    ensures var g' := Sweep(g, a, user, now);
            && g'.Keys == g.Keys
            && g'[i] ==
               if g[i].user == user && g[i].revoked.None? && !InForce(a, g[i], now)
               then g[i].(revoked := Some(WhyUnusable(g[i], now))) else g[i]
  {
    if i in Unrevoked(g, user) { OnlyLive(g, user, i); }
  }

  /** Revoking leaves the user without a grant: one in force goes for the reason given, any other for its own. */
  lemma RevokeMeans(g: Grants, a: Authority, user: nat, now: int, reason: Reason, i: nat)
    requires OnePerUser(g) && i in g
    ensures var g' := RevokeActive(g, a, user, now, reason);
            && g'.Keys == g.Keys
            && g'[i] ==
               if g[i].user == user && g[i].revoked.None?
               then g[i].(revoked := Some(if InForce(a, g[i], now) then reason else WhyUnusable(g[i], now)))
               else g[i]
  {
    if i in Unrevoked(g, user) { OnlyLive(g, user, i); }
    if Unrevoked(g, user) != {} { OnlyLive(g, user, Least(Unrevoked(g, user))); }
  }

  /** Losing the administrator role revokes whatever grant the user has left, and nothing else. */
  lemma RevokeForUserMeans(g: Grants, user: nat, reason: Reason, i: nat)
    requires OnePerUser(g) && i in g
    ensures var g' := RevokeForUser(g, user, reason);
            && g'.Keys == g.Keys
            && g'[i] == if g[i].user == user && g[i].revoked.None? then g[i].(revoked := Some(reason)) else g[i]
  {
    if i in Unrevoked(g, user) { OnlyLive(g, user, i); }
  }

  /**
   Activation succeeds exactly for an active station of a department the user administers. A grant in force for that
   station is kept; otherwise a new one of six hours is added, and an earlier one revoked, as switched if it was still
   in force.
   */
  lemma ActivationMeans(g: Grants, a: Authority, user: nat, station: nat, id: nat, checked: int, now: int)
    requires OnePerUser(g) && id !in g
    ensures var r := Activate(g, a, user, station, id, checked, now);
            && (r.Ok? <==>
                  station in a.stations && a.stations[station].active && Administers(a, user, a.stations[station].dept))
            && (r.Ok? && (exists i :: HeldInForce(g, a, user, checked, i) && g[i].station == station) ==> r.value == g)
            && (r.Ok? && !(exists i :: HeldInForce(g, a, user, checked, i) && g[i].station == station) ==>
                  && r.value.Keys == g.Keys + {id}
                  && r.value[id] == Grant(user, a.stations[station].dept, station, now, now + 21600, None)
                  && forall i :: i in g ==>
                       r.value[i] ==
                       if g[i].user == user && g[i].revoked.None?
                       then g[i].(revoked :=
                                    Some(if InForce(a, g[i], checked) then Switched else WhyUnusable(g[i], checked)))
                       else g[i])
  {
    var previous := Active(g, a, user, checked);
    if previous.Some? { ActiveMeans(g, a, user, checked, previous.value); }
    if i :| HeldInForce(g, a, user, checked, i) && g[i].station == station { ActiveMeans(g, a, user, checked, i); }
    var cleared := RevokeActive(g, a, user, checked, Switched);
    forall i | i in g
      ensures i in cleared && cleared[i] ==
              if g[i].user == user && g[i].revoked.None?
              then g[i].(revoked := Some(if InForce(a, g[i], checked) then Switched else WhyUnusable(g[i], checked)))
              else g[i]
    {
      RevokeMeans(g, a, user, checked, Switched, i);
    }
    RevokeActiveClears(g, a, user, checked, Switched);
  }

  /** Revoking a department revokes every unrevoked grant it gave, of whatever user, and no other. */
  lemma RevokeDepartmentMeans(g: Grants, dept: nat, reason: Reason, i: nat)
    requires i in g
    ensures var g' := RevokeDepartment(g, dept, reason);
            && g'.Keys == g.Keys
            && g'[i] == if g[i].dept == dept && g[i].revoked.None? then g[i].(revoked := Some(reason)) else g[i]
  {
  }

  /**
   What a deletion request makes of the user's live grant `i`, if there is one: the grant that authorises it is consumed
   by it, a change of a department's library ends it, a refused request leaves it if it is in force; and a grant found
   not in force at any of these moments goes for that reason.
   */
  lemma DeletionSpendsGrants(
      s: State, a: Authority, user: nat, scope: Scope, swept: int, checked: int, after: int, i: nat)
    requires Inv(s) && i in s.grants && s.grants[i].user == user && s.grants[i].revoked.None?
    ensures var s', was := Delete(s, a, user, scope, swept, checked, after), s.grants[i];
            && s'.grants.Keys == s.grants.Keys
            && s'.grants[i] == was.(revoked :=
                 if !InForce(a, was, swept) then Some(WhyUnusable(was, swept))
                 else if Entitled(a, user, scope) then
                   if scope.StationLibrary? then None
                   else Some(if InForce(a, was, after) then DepartmentMutation else WhyUnusable(was, after))
                 else if scope == StationLibrary(was.station) && InForce(a, was, checked) then
                   Some(if InForce(a, was, after) then ConsumedByDeletion else WhyUnusable(was, after))
                 else if InForce(a, was, after) then None else Some(WhyUnusable(was, after)))
  {
    var g := Sweep(s.grants, a, user, swept);
    SweepMeans(s.grants, a, user, swept, i);
    SweepOnlyRevokes(s.grants, a, user, swept);
    RevokingKeeps(s.grants, g);
    DeletionIsGranted(g, a, user, scope, checked);
    RevokeMeans(g, a, user, after, DepartmentMutation, i);
    RevokeMeans(g, a, user, after, ConsumedByDeletion, i);
    SweepMeans(g, a, user, after, i);
    if g[i].revoked.None? {
      OnlyLive(g, user, i);
      forall j | HeldInForce(g, a, user, checked, j) ensures j == i { assert j in Unrevoked(g, user); }
    } else {
      forall j ensures !HeldInForce(g, a, user, checked, j) { OnlyLiveGone(s.grants, g, user, i, j); }
    }
  }

  /** The same for any other change of a library, which no grant can authorise. */
  lemma ChangeSpendsGrants(s: State, a: Authority, user: nat, scope: Scope, swept: int, after: int, i: nat)
    requires Inv(s) && i in s.grants && s.grants[i].user == user && s.grants[i].revoked.None?
    ensures var s', was := Change(s, a, user, scope, swept, after), s.grants[i];
            && s'.grants.Keys == s.grants.Keys && s'.elevated == s.elevated
            && s'.grants[i] == was.(revoked :=
                 if !InForce(a, was, swept) then Some(WhyUnusable(was, swept))
                 else if Entitled(a, user, scope) then
                   if scope.StationLibrary? then None
                   else Some(if InForce(a, was, after) then DepartmentMutation else WhyUnusable(was, after))
                 else if InForce(a, was, after) then None else Some(WhyUnusable(was, after)))
  {
    var g := Sweep(s.grants, a, user, swept);
    SweepMeans(s.grants, a, user, swept, i);
    SweepOnlyRevokes(s.grants, a, user, swept);
    RevokingKeeps(s.grants, g);
    RevokeMeans(g, a, user, after, DepartmentMutation, i);
    SweepMeans(g, a, user, after, i);
  }

  lemma OnlyLiveGone(g: Grants, g': Grants, user: nat, i: nat, j: nat)
    requires OnePerUser(g) && OnlyRevokes(g, g') && i in g && g[i].user == user && g[i].revoked.None?
    requires g'[i].revoked.Some?
    ensures j !in Unrevoked(g', user)
  {
    RevokingKeeps(g, g');
    OnlyLive(g, user, i);
  }

  // ---- the service --------------------------------------------------------------------------------

  class AccessService {
    var grants: Grants
    var elevated: seq<nat>

    ghost function Db(): State
      reads this
    {
      State(grants, elevated)
    }

    constructor ()
      ensures Db() == State(map[], []) && Inv(Db())
    {
      grants, elevated := map[], [];
    }

    method ActiveAccess(a: Authority, user: nat, now: int) returns (id: Option<nat>)
      modifies this`grants
      ensures id == Active(old(grants), a, user, now)
      ensures grants == Sweep(old(grants), a, user, now)
    {
      var live := set i | i in grants && grants[i].user == user && grants[i].revoked.None?;
      assert live == Unrevoked(grants, user);
      if live == {} { return None; }
      var first := Least(live);
      var grant := grants[first];
      if grant.expires <= now {
        grants := grants[first := grant.(revoked := Some(Expired))];
        return None;
      }
      if !Backed(a, grant) {
        grants := grants[first := grant.(revoked := Some(AuthorityRevoked))];
        return None;
      }
      id := Some(first);
    }

    method RevokeAccess(a: Authority, user: nat, now: int, reason: Reason)
      modifies this`grants
      ensures grants == RevokeActive(old(grants), a, user, now, reason)
    {
      var id := ActiveAccess(a, user, now);
      if id.Some? { grants := grants[id.value := grants[id.value].(revoked := Some(reason))]; }
    }

    method ActivateAccess(a: Authority, user: nat, station: nat, id: nat, checked: int, now: int) returns (ok: bool)
      requires Inv(Db()) && id !in grants
      modifies this`grants
      ensures Inv(Db()) && ok == Activate(old(grants), a, user, station, id, checked, now).Ok?
      ensures grants == if ok then Activate(old(grants), a, user, station, id, checked, now).value else old(grants)
      ensures ok ==> exists i :: Unrevoked(grants, user) == {i} && grants[i].station == station
    {
      StepKeepsInv(Db(), a, ActivateEvent(user, station, id, checked, now));
      if station !in a.stations || !a.stations[station].active || a.stations[station].dept !in DepartmentsOf(a, user) {
        return false;
      }
      var previous := ActiveAccess(a, user, checked);
      if previous.Some? && grants[previous.value].station == station {
        OnlyLive(grants, user, previous.value);
        return true;
      }
      if previous.Some? { grants := grants[previous.value := grants[previous.value].(revoked := Some(Switched))]; }
      assert grants == RevokeActive(old(grants), a, user, checked, Switched);
      grants := grants[id := Grant(user, a.stations[station].dept, station, now, now + SIX_HOURS, None)];
      OnlyLive(grants, user, id);
      ok := true;
    }

    method RevokeForDepartment(dept: nat, reason: Reason) returns (count: nat)
      modifies this`grants
      ensures grants == RevokeDepartment(old(grants), dept, reason)
      ensures count == |set i | i in old(grants) && old(grants)[i].dept == dept && old(grants)[i].revoked.None?|
    {
      var todo := set i | i in grants && grants[i].dept == dept && grants[i].revoked.None?;
      ghost var all := todo;
      count := 0;
      while todo != {}
        invariant todo <= all && count == |all| - |todo|
        invariant grants.Keys == old(grants).Keys
        invariant forall i :: i in grants ==>
                    grants[i] == if i in all && i !in todo then old(grants)[i].(revoked := Some(reason))
                        else old(grants)[i]
        decreases |todo|
      {
        var i :| i in todo;
        grants := grants[i := grants[i].(revoked := Some(reason))];
        todo := todo - {i};
        count := count + 1;
      }
    }

    /** `delete_entry` as far as grants are concerned. */
    method DeleteEntry(
        a: Authority, user: nat, scope: Scope, swept: int, checked: int, after: int) returns (access: Access)
      requires Inv(Db())
      modifies this
      ensures Db() == Delete(old(Db()), a, user, scope, swept, checked, after) && Inv(Db())
      ensures access == DeleteAccess(Sweep(old(grants), a, user, swept), a, user, scope, checked)
    {
      DeleteKeepsInv(Db(), a, user, scope, swept, checked, after);
      var ignored := ActiveAccess(a, user, swept);
      if HasScope(a, user, scope) {
        if scope.DepartmentLibrary? { RevokeAccess(a, user, after, DepartmentMutation); }
        return Normal;
      }
      var savepoint := grants;
      var id := ActiveAccess(a, user, checked);
      if scope.DepartmentLibrary? || id.None? || grants[id.value].station != scope.station {
        // The refusal rolls the check's own revocation back; the sweep repeats outside the transaction.
        grants := savepoint;
        ignored := ActiveAccess(a, user, after);
        return Denied;
      }
      elevated := elevated + [id.value];
      RevokeAccess(a, user, after, ConsumedByDeletion);
      access := Temporary;
    }
  }
}
