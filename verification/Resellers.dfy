/** A reseller's allowance: the checks of internal/panelusers/reseller.go, the sum they
    measure (internal/db/scope.go), and the handlers that check and then write
    (internal/httpapi/user_handlers.go and plan_handlers.go). One request is one step. */
module Resellers {

  import opened Accounts
  import opened Wrappers

  /** plans row; `owner` is the reseller it belongs to, None for the server's own. */
  datatype Plan = Plan(diskQuota: nat, owner: Option<int>)

  datatype Limits = Limits(maxAccounts: nat, diskQuota: nat, allowOversell: bool)

  /** Packages and limits, fixed over a run. */
  datatype Terms = Terms(plans: map<int, Plan>, limits: map<int, Limits>)

  /** A reseller without a row is unlimited. */
  function ResellerLimitsFor(t: Terms, id: int): Limits {
    if id in t.limits then t.limits[id] else Limits(0, 0, false)
  }

  function PlanDisk(t: Terms, plan: Option<int>): nat {
    if plan.Some? && plan.value in t.plans then t.plans[plan.value].diskQuota else 0
  }

  datatype Allocation = Allocation(accounts: nat, diskQuota: nat)

  /** COUNT(*) and SUM over the customers' packages. */
  function AllocationFor(t: Terms, rows: seq<User>, reseller: int): Allocation {
    if rows == [] then Allocation(0, 0)
    else
      var rest := AllocationFor(t, rows[1..], reseller);
      if rows[0].parent == Some(reseller) then
        Allocation(rest.accounts + 1, rest.diskQuota + PlanDisk(t, rows[0].plan))
      else rest
  }

  /** False is ErrAllocationExceeded. */
  predicate CheckCanCreateAccount(t: Terms, rows: seq<User>, actor: User, planDisk: nat) {
    !actor.role.Reseller? ||
    var limits := ResellerLimitsFor(t, actor.id);
    var used := AllocationFor(t, rows, actor.id);
    if limits.maxAccounts > 0 && used.accounts >= limits.maxAccounts then false
    else if limits.allowOversell || limits.diskQuota == 0 then true
    else used.diskQuota + planDisk <= limits.diskQuota
  }

  predicate CheckCanAllocate(t: Terms, rows: seq<User>, actor: User, delta: int) {
    !actor.role.Reseller? || delta <= 0 ||
    var limits := ResellerLimitsFor(t, actor.id);
    if limits.allowOversell || limits.diskQuota == 0 then true
    else AllocationFor(t, rows, actor.id).diskQuota + delta <= limits.diskQuota
  }

  /** Scope.Covers for the caller's scope: everything, one's own customers, or oneself. */
  predicate CanSee(actor: User, target: User) {
    match actor.role
    case Admin => true
    case Reseller => target.id == actor.id || target.parent == Some(actor.id)
    case _ => target.id == actor.id
  }

  /** The account a request names, unless the caller may not know of it. */
  function LoadPanelUser(rows: seq<User>, actor: User, id: int): Option<User> {
    match UserByID(rows, id)
    case None => None
    case Some(u) => if CanSee(actor, u) then Some(u) else None
  }

  predicate CanManage(actor: User, target: User) {
    if actor.id == target.id then false
    else match actor.role
      case Admin => true
      case Reseller => target.role.EndUser? && target.parent == Some(actor.id)
      case _ => false
  }

  predicate MayEditPlan(actor: User, p: Plan) {
    actor.role.Admin? || p.owner == Some(actor.id)
  }

  function WithPlan(u: User, id: int, plan: Option<int>): User {
    if u.id == id then u.(plan := plan) else u
  }

  function SetUserPlan(rows: seq<User>, id: int, plan: Option<int>): seq<User> {
    seq(|rows|, (i: nat) requires i < |rows| => WithPlan(rows[i], id, plan))
  }

  // ----- the requests --------------------------------------------------------

  datatype Reply = Ok | BadRequest | Forbidden | NotFoundReply | AllocationExceeded | CallFailed(error: Error)

  datatype Action =
    | CreateAccount(request: Request, plan: Option<int>, steps: AccountSteps, planStored: bool)
    | AssignPlan(target: int, plan: Option<int>, planRead: bool, planStored: bool)
    | DeleteAccount(target: int, resources: nat, dropped: bool, linuxGone: bool)

  /** The parent the handler files the new account under. */
  function Filed(actor: User, q: Request): Request {
    if actor.role.Reseller? then q.(parent := Some(actor.id)) else q
  }

  function Handle(t: Terms, s: State, actor: User, a: Action): (State, Reply) {
    match a
    case CreateAccount(q, plan, steps, planStored) =>
      if !actor.role.Admin? && !q.role.EndUser? then (s, Forbidden)
      else if plan.Some? && plan.value !in t.plans then (s, BadRequest)
      else if !CheckCanCreateAccount(t, s.rows, actor, PlanDisk(t, plan)) then (s, AllocationExceeded)
      else
        var made := CreateStep(s, Filed(actor, q), steps);
        if made.1.Refused? then (made.0, CallFailed(made.1.error))
        else if plan.Some? && planStored then (made.0.(rows := SetUserPlan(made.0.rows, s.nextId, plan)), Ok)
        else (made.0, Ok)
    case AssignPlan(id, plan, planRead, planStored) =>
      (match LoadPanelUser(s.rows, actor, id)
       case None => (s, NotFoundReply)
       case Some(target) =>
         var before := if planRead then PlanDisk(t, target.plan) else 0;
         if !CanManage(actor, target) then (s, Forbidden)
         else if plan.Some? && plan.value !in t.plans then (s, BadRequest)
         else if plan.Some? && !MayEditPlan(actor, t.plans[plan.value]) then (s, Forbidden)
         else if !CheckCanAllocate(t, s.rows, actor, PlanDisk(t, plan) - before) then (s, AllocationExceeded)
         else if planStored then (s.(rows := SetUserPlan(s.rows, id, plan)), Ok)
         else (s, CallFailed(StepFailed)))
    case DeleteAccount(id, resources, dropped, linuxGone) =>
      (match LoadPanelUser(s.rows, actor, id)
       case None => (s, NotFoundReply)
       case Some(target) =>
         if target.id == actor.id then (s, BadRequest)
         else if !CanManage(actor, target) then (s, Forbidden)
         else
           var done := Step(s, Delete(id, resources, dropped, linuxGone));
           (done.0, if done.1.Done? then Ok else CallFailed(done.1.error)))
  }

  method HandleUserCreate(t: Terms, users: Service, actor: User, q: Request, plan: Option<int>,
                          steps: AccountSteps, planStored: bool) returns (reply: Reply)
    modifies users
    ensures (users.View(), reply) == Handle(t, old(users.View()), actor, CreateAccount(q, plan, steps, planStored))
  {
    if !actor.role.Admin? && !q.role.EndUser? {
      return Forbidden;
    }
    var parent := q.parent;
    if actor.role.Reseller? {
      parent := Some(actor.id);
    }
    var planDisk := 0;
    if plan.Some? {
      if plan.value !in t.plans {
        return BadRequest;
      }
      planDisk := t.plans[plan.value].diskQuota;
    }
    if !CheckCanCreateAccount(t, users.rows, actor, planDisk) {
      return AllocationExceeded;
    }
    var id := users.nextId;
    var outcome := users.Create(q.(parent := parent), steps);
    if outcome.Refused? {
      return CallFailed(outcome.error);
    }
    if plan.Some? && planStored {
      users.rows := SetUserPlan(users.rows, id, plan);
    }
    return Ok;
  }

  method HandleUserPlanAssign(t: Terms, users: Service, actor: User, id: int, plan: Option<int>,
                              planRead: bool, planStored: bool) returns (reply: Reply)
    modifies users
    ensures (users.View(), reply) == Handle(t, old(users.View()), actor, AssignPlan(id, plan, planRead, planStored))
  {
    var target := LoadPanelUser(users.rows, actor, id);
    if target.None? {
      return NotFoundReply;
    }
    if !CanManage(actor, target.value) {
      return Forbidden;
    }
    var before: int := 0;
    if planRead && target.value.plan.Some? && target.value.plan.value in t.plans {
      before := t.plans[target.value.plan.value].diskQuota;
    }
    var after: int := 0;
    if plan.Some? {
      if plan.value !in t.plans {
        return BadRequest;
      }
      if !MayEditPlan(actor, t.plans[plan.value]) {
        return Forbidden;
      }
      after := t.plans[plan.value].diskQuota;
    }
    if !CheckCanAllocate(t, users.rows, actor, after - before) {
      return AllocationExceeded;
    }
    if !planStored {
      return CallFailed(StepFailed);
    }
    users.rows := SetUserPlan(users.rows, id, plan);
    return Ok;
  }

  // ----- the sum -------------------------------------------------------------

  /** The allocation of no accounts is nothing; one more customer adds one account and
      the size of its package, nothing where it has none, and anybody else adds nothing. */
  lemma {:induction false} AllocationAppend(t: Terms, rows: seq<User>, u: User, r: int)
    ensures AllocationFor(t, [], r) == Allocation(0, 0)
    ensures var a, b := AllocationFor(t, rows + [u], r), AllocationFor(t, rows, r);
            && a.accounts == b.accounts + (if u.parent == Some(r) then 1 else 0)
            && a.diskQuota == b.diskQuota +
                 if u.parent == Some(r) && u.plan.Some? && u.plan.value in t.plans then t.plans[u.plan.value].diskQuota
                 else 0
  {
    if rows == [] {
      assert rows + [u] == [u];
    } else {
      assert (rows + [u])[1..] == rows[1..] + [u];
      AllocationAppend(t, rows[1..], u, r);
    }
  }

  lemma {:induction false} AllocationDelete(t: Terms, rows: seq<User>, id: int, r: int)
    ensures var a, b := AllocationFor(t, DeleteUser(rows, id), r), AllocationFor(t, rows, r);
            a.accounts <= b.accounts && a.diskQuota <= b.diskQuota
  {
    if rows == [] {
    } else {
      AllocationDelete(t, rows[1..], id, r);
      if rows[0].id != id {
        assert ([Orphaned(rows[0], id)] + DeleteUser(rows[1..], id))[1..] == DeleteUser(rows[1..], id);
      }
    }
  }

  lemma {:induction false} AllocationElsewhere(t: Terms, rows: seq<User>, id: int, plan: Option<int>, r: int)
    requires forall u :: u in rows && u.id == id ==> u.parent != Some(r)
    ensures AllocationFor(t, SetUserPlan(rows, id, plan), r) == AllocationFor(t, rows, r)
  {
    if rows == [] {
    } else {
      AllocationElsewhere(t, rows[1..], id, plan, r);
      SetPlanTail(rows, id, plan);
    }
  }

  lemma SetPlanTail(rows: seq<User>, id: int, plan: Option<int>)
    requires rows != []
    ensures SetUserPlan(rows, id, plan)[0] == WithPlan(rows[0], id, plan)
    ensures SetUserPlan(rows, id, plan)[1..] == SetUserPlan(rows[1..], id, plan)
  {
  }

  /** Changing one customer's package changes the sum by the difference. */
  lemma {:induction false} AllocationSetPlan(t: Terms, rows: seq<User>, u: User, plan: Option<int>, r: int)
    requires UniqueIds(rows) && u in rows && u.parent == Some(r)
    ensures var a, b := AllocationFor(t, SetUserPlan(rows, u.id, plan), r), AllocationFor(t, rows, r);
            && a.accounts == b.accounts
            && a.diskQuota == b.diskQuota + PlanDisk(t, plan) - PlanDisk(t, u.plan)
  {
    SetPlanTail(rows, u.id, plan);
    if rows[0] == u {
      AllocationElsewhere(t, rows[1..], u.id, plan, r);
    } else {
      AllocationSetPlan(t, rows[1..], u, plan, r);
    }
  }

  // ----- every run -----------------------------------------------------------

  predicate AccountsFit(l: Limits, a: Allocation) {
    l.maxAccounts > 0 ==> a.accounts <= l.maxAccounts
  }

  /** Oversell, or a cap of zero, turns the disk limit off. */
  predicate DiskFits(l: Limits, a: Allocation) {
    !l.allowOversell && l.diskQuota > 0 ==> a.diskQuota <= l.diskQuota
  }

  /** The rows once the account is created with its package. */
  function WithAccount(s: State, q: Request, plan: Option<int>): seq<User> {
    SetUserPlan(s.rows + [NewUser(s, q)], s.nextId, plan)
  }

  lemma AllocationCreate(t: Terms, s: State, q: Request, plan: Option<int>, r: int)
    requires Valid(s)
    ensures UniqueIds(s.rows + [NewUser(s, q)])
    ensures var a, b := AllocationFor(t, WithAccount(s, q, plan), r), AllocationFor(t, s.rows, r);
            && a.accounts == b.accounts + (if q.parent == Some(r) then 1 else 0)
            && a.diskQuota == b.diskQuota + (if q.parent == Some(r) then PlanDisk(t, plan) else 0)
  {
    var user := NewUser(s, q);
    UniqueSnoc(s.rows, user);
    AllocationAppend(t, s.rows, user, r);
    if q.parent == Some(r) {
      AllocationSetPlan(t, s.rows + [user], user, plan, r);
    } else {
      AllocationElsewhere(t, s.rows + [user], user.id, plan, r);
    }
  }

  /** An account is refused exactly when it would not fit. */
  lemma CreateCheckIsExact(t: Terms, s: State, actor: User, q: Request, plan: Option<int>)
    requires Valid(s) && actor.role.Reseller?
    ensures var after := AllocationFor(t, WithAccount(s, Filed(actor, q), plan), actor.id);
            var limits := ResellerLimitsFor(t, actor.id);
            CheckCanCreateAccount(t, s.rows, actor, PlanDisk(t, plan)) <==>
            AccountsFit(limits, after) && DiskFits(limits, after)
  {
    AllocationCreate(t, s, Filed(actor, q), plan, actor.id);
  }

  /** A new package is refused exactly when it is bigger than the old one and the sum
      would not fit, so a smaller one always goes through. */
  lemma AssignCheckIsExact(t: Terms, s: State, actor: User, target: User, plan: Option<int>)
    requires Valid(s) && actor.role.Reseller? && target in s.rows && target.parent == Some(actor.id)
    ensures var after := AllocationFor(t, SetUserPlan(s.rows, target.id, plan), actor.id);
            CheckCanAllocate(t, s.rows, actor, PlanDisk(t, plan) - PlanDisk(t, target.plan)) <==>
            PlanDisk(t, plan) <= PlanDisk(t, target.plan) || DiskFits(ResellerLimitsFor(t, actor.id), after)
  {
    AllocationSetPlan(t, s.rows, target, plan, actor.id);
  }

  function Max(a: int, b: int): int { if a < b then b else a }

  /** What one request may do to any reseller's totals. */
  ghost predicate Bounded(t: Terms, before: seq<User>, after: seq<User>, r: int) {
    var l, a, b := ResellerLimitsFor(t, r), AllocationFor(t, after, r), AllocationFor(t, before, r);
    && (l.maxAccounts > 0 ==> a.accounts <= Max(b.accounts, l.maxAccounts))
    && (!l.allowOversell && l.diskQuota > 0 ==> a.diskQuota <= Max(b.diskQuota, l.diskQuota))
  }

  /** One request of a reseller never takes any reseller past its limits, nor, where an
      administrator has lowered them, further past. */
  lemma HandleBounds(t: Terms, s: State, actor: User, a: Action, r: int)
    requires Valid(s) && actor in s.rows && actor.role.Reseller?
    ensures Valid(Handle(t, s, actor, a).0)
    ensures Bounded(t, s.rows, Handle(t, s, actor, a).0.rows, r)
  {
    match a
    case CreateAccount(q, plan, steps, planStored) => CreateBounds(t, s, actor, q, plan, steps, planStored, r);
    case AssignPlan(id, plan, planRead, planStored) => AssignBounds(t, s, actor, id, plan, planRead, planStored, r);
    case DeleteAccount(id, resources, dropped, linuxGone) =>
      StepKeepsValid(s, Delete(id, resources, dropped, linuxGone));
      AllocationDelete(t, s.rows, id, r);
  }

  lemma CreateBounds(t: Terms, s: State, actor: User, q: Request, plan: Option<int>,
                     steps: AccountSteps, planStored: bool, r: int)
    requires Valid(s) && actor in s.rows && actor.role.Reseller?
    ensures var n := Handle(t, s, actor, CreateAccount(q, plan, steps, planStored)).0;
            Valid(n) && Bounded(t, s.rows, n.rows, r)
  {
    var filed := Filed(actor, q);
    var made := CreateStep(s, filed, steps).0;
    StepKeepsValid(s, Create(filed, steps));
    CreateRows(s, filed, steps);
    AllocationAppend(t, s.rows, NewUser(s, filed), r);
    AllocationCreate(t, s, filed, plan, r);
    PlanKeepsValid(made, s.nextId, plan);
    if made.rows == s.rows {
      AllocationElsewhere(t, s.rows, s.nextId, plan, r);
    }
  }

  lemma PlanKeepsValid(s: State, id: int, plan: Option<int>)
    requires Valid(s)
    ensures Valid(s.(rows := SetUserPlan(s.rows, id, plan)))
  {
    var written := SetUserPlan(s.rows, id, plan);
    forall v | v in written ensures Numbered(v, s.nextId) {
      var i :| 0 <= i < |written| && written[i] == v;
      assert s.rows[i] in s.rows;
    }
  }

  lemma AssignBounds(t: Terms, s: State, actor: User, id: int, plan: Option<int>,
                     planRead: bool, planStored: bool, r: int)
    requires Valid(s) && actor in s.rows && actor.role.Reseller?
    ensures var n := Handle(t, s, actor, AssignPlan(id, plan, planRead, planStored)).0;
            Valid(n) && Bounded(t, s.rows, n.rows, r)
  {
    var found := UserByID(s.rows, id);
    PlanKeepsValid(s, id, plan);
    if found.Some? && CanManage(actor, found.value) {
      if r == actor.id {
        AllocationSetPlan(t, s.rows, found.value, plan, r);
      } else {
        forall u | u in s.rows && u.id == id ensures u.parent != Some(r) {
          SameIdSameRow(s.rows, u, found.value);
        }
        AllocationElsewhere(t, s.rows, id, plan, r);
      }
    }
  }

  // ----- each request, spelled out -----------------------------------------------

  function Size(t: Terms, plan: Option<int>): nat {
    match plan
    case None => 0
    case Some(p) => if p in t.plans then t.plans[p].diskQuota else 0
  }

  /** Whom the caller may know of: an administrator everyone, a reseller its customers,
      and everyone themselves. */
  predicate Sees(actor: User, target: User) {
    actor.role.Admin? || actor.id == target.id || (actor.role.Reseller? && target.parent == Some(actor.id))
  }

  /** Whose account the caller may change: any other for an administrator, its own
      customers for a reseller. */
  predicate May(actor: User, target: User) {
    actor.id != target.id
    && (actor.role.Admin? || (actor.role.Reseller? && target.role.EndUser? && target.parent == Some(actor.id)))
  }

  /** The caller is no reseller, or has no disk cap, or the cap leaves room. */
  predicate DiskRoom(t: Terms, rows: seq<User>, actor: User, extra: int) {
    || !actor.role.Reseller? || actor.id !in t.limits
    || t.limits[actor.id].allowOversell || t.limits[actor.id].diskQuota == 0
    || AllocationFor(t, rows, actor.id).diskQuota + extra <= t.limits[actor.id].diskQuota
  }

  predicate AccountRoom(t: Terms, rows: seq<User>, actor: User) {
    || !actor.role.Reseller? || actor.id !in t.limits || t.limits[actor.id].maxAccounts == 0
    || AllocationFor(t, rows, actor.id).accounts < t.limits[actor.id].maxAccounts
  }

  /** An assignment succeeds exactly when the account is there and the caller's to
      manage, the package is there and the caller's to give, a bigger one fits, and the
      write goes through; then that account has that package and nothing else changed.
      Otherwise nothing did. */
  lemma AssignExactly(t: Terms, s: State, actor: User, target: User,
                      plan: Option<int>, planRead: bool, planStored: bool)
    requires Valid(s) && target in s.rows
    ensures var (n, r) := Handle(t, s, actor, AssignPlan(target.id, plan, planRead, planStored));
            var extra := Size(t, plan) - if planRead then Size(t, target.plan) else 0;
            && (r == Ok <==>
                  && May(actor, target) && planStored
                  && (plan.None? || (plan.value in t.plans
                                     && (actor.role.Admin? || t.plans[plan.value].owner == Some(actor.id))))
                  && (extra <= 0 || DiskRoom(t, s.rows, actor, extra)))
            && (r == NotFoundReply <==> !Sees(actor, target))
            && (r != Ok ==> n == s)
            && (r == Ok ==>
                  && n.nextId == s.nextId && n.sessions == s.sessions && |n.rows| == |s.rows|
                  && forall i :: 0 <= i < |s.rows| ==>
                       n.rows[i] == if s.rows[i].id == target.id then s.rows[i].(plan := plan) else s.rows[i])
  {
    SameIdSameRow(s.rows, UserByID(s.rows, target.id).value, target);
  }

  lemma AssignNeedsAccount(t: Terms, s: State, actor: User, id: int,
                           plan: Option<int>, planRead: bool, planStored: bool)
    requires forall u :: u in s.rows ==> u.id != id
    ensures Handle(t, s, actor, AssignPlan(id, plan, planRead, planStored)) == (s, NotFoundReply)
  {
  }

  /** A creation succeeds exactly when the role and the package are allowed, the account
      and its package fit, and the account can be made; then there is one new row, the
      reseller's own customer when a reseller asked, with the package if that could be
      stored. */
  lemma CreateAccountExactly(t: Terms, s: State, actor: User, q: Request, plan: Option<int>,
                             steps: AccountSteps, planStored: bool)
    requires Valid(s)
    ensures var (n, r) := Handle(t, s, actor, CreateAccount(q, plan, steps, planStored));
            var filed := if actor.role.Reseller? then q.(parent := Some(actor.id)) else q;
            && (r == Ok <==>
                  && (actor.role.Admin? || q.role.EndUser?) && (plan.Some? ==> plan.value in t.plans)
                  && AccountRoom(t, s.rows, actor) && DiskRoom(t, s.rows, actor, Size(t, plan))
                  && Acceptable(s, filed) && (q.role.EndUser? ==> steps.created && steps.recorded && steps.passwordSet))
            && (r == Ok ==> n.rows == s.rows + [User(s.nextId, q.username, q.role, false, filed.parent,
                                                     if planStored then plan else None)])
            && n.sessions == s.sessions
  {
    var filed := Filed(actor, q);
    CreateExactly(s, filed, steps);
    var made := s.rows + [NewUser(s, filed)];
    var written := SetUserPlan(made, s.nextId, plan);
    assert |written| == |made|;
    forall i | 0 <= i < |s.rows| ensures written[i] == s.rows[i] {
      assert s.rows[i] in s.rows;
    }
    assert written == s.rows + [NewUser(s, filed).(plan := plan)];
  }

  /** A deletion through the panel is the service's, for an account the caller may
      manage, and otherwise nothing. */
  lemma DeleteAccountExactly(t: Terms, s: State, actor: User, target: User,
                             resources: nat, dropped: bool, linuxGone: bool)
    requires Valid(s) && target in s.rows
    ensures var (n, r) := Handle(t, s, actor, DeleteAccount(target.id, resources, dropped, linuxGone));
            var (m, o) := Step(s, Delete(target.id, resources, dropped, linuxGone));
            if !Sees(actor, target) then n == s && r == NotFoundReply
            else if target.id == actor.id then n == s && r == BadRequest
            else if !May(actor, target) then n == s && r == Forbidden
            else n == m && r == match o case Done => Ok case Refused(e) => CallFailed(e)
  {
    SameIdSameRow(s.rows, UserByID(s.rows, target.id).value, target);
  }

  datatype Call = Call(actor: int, action: Action)

  /** Every caller is a reseller when its request arrives. */
  ghost predicate ResellerRun(t: Terms, s: State, calls: seq<Call>)
    decreases |calls|
  {
    calls == [] ||
    (var actor := UserByID(s.rows, calls[0].actor);
     actor.Some? && actor.value.role.Reseller?
     && ResellerRun(t, Handle(t, s, actor.value, calls[0].action).0, calls[1..]))
  }

  ghost function AfterCalls(t: Terms, s: State, calls: seq<Call>): State
    requires ResellerRun(t, s, calls)
    decreases |calls|
  {
    if calls == [] then s
    else AfterCalls(t, Handle(t, s, UserByID(s.rows, calls[0].actor).value, calls[0].action).0, calls[1..])
  }

  /** Whatever any number of resellers do, in any order, a reseller that started
      within its account limit and its disk cap ends within them. */
  lemma {:induction false} AllowancesHold(t: Terms, s: State, calls: seq<Call>, r: int)
    requires Valid(s) && ResellerRun(t, s, calls)
    ensures var l, a := ResellerLimitsFor(t, r), AllocationFor(t, s.rows, r);
            var end := AllocationFor(t, AfterCalls(t, s, calls).rows, r);
            && (AccountsFit(l, a) ==> AccountsFit(l, end))
            && (DiskFits(l, a) ==> DiskFits(l, end))
    decreases |calls|
  {
    if calls == [] {
    } else {
      var actor := UserByID(s.rows, calls[0].actor).value;
      HandleBounds(t, s, actor, calls[0].action, r);
      AllowancesHold(t, Handle(t, s, actor, calls[0].action).0, calls[1..], r);
    }
  }
}
