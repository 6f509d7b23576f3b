/** internal/panelusers/service.go and the user rows it works on
    (internal/db/users.go): creating, deleting, suspending and re-roling accounts
    without ever locking every administrator out. One service call is one step. */
module Accounts {

  import opened Wrappers

  /** `Other` is any text that is not a role. */
  datatype Role = Admin | Reseller | EndUser | Other(text: string)

  predicate ValidRole(r: Role) {
    !r.Other?
  }

  /** A users row; `parent` is the reseller, `plan` the package. */
  datatype User = User(id: int, username: string, role: Role, suspended: bool,
                       parent: Option<int>, plan: Option<int>)

  // ----- the rows ------------------------------------------------------------

  predicate UniqueIds(rows: seq<User>) {
    forall i, j :: 0 <= i < j < |rows| ==> rows[i].id != rows[j].id
  }

  function UserByID(rows: seq<User>, id: int): (u: Option<User>)
    ensures u.Some? ==> u.value in rows && u.value.id == id
    ensures u.None? ==> forall r :: r in rows ==> r.id != id
  {
    if rows == [] then None
    else if rows[0].id == id then Some(rows[0])
    else UserByID(rows[1..], id)
  }

  predicate UsernameTaken(rows: seq<User>, username: string) {
    exists i :: 0 <= i < |rows| && rows[i].username == username
  }

  /** The foreign key on parent_id. */
  predicate ParentExists(rows: seq<User>, parent: Option<int>) {
    parent.Some? ==> UserByID(rows, parent.value).Some?
  }

  predicate ActiveAdmin(u: User) {
    u.role.Admin? && !u.suspended
  }

  /** COUNT(*) of active administrators other than `excludeId`. */
  function CountAdmins(rows: seq<User>, excludeId: int): nat {
    if rows == [] then 0
    else CountAdmins(rows[1..], excludeId) + if ActiveAdmin(rows[0]) && rows[0].id != excludeId then 1 else 0
  }

  function WithSuspended(u: User, id: int, suspended: bool): User {
    if u.id == id then u.(suspended := suspended) else u
  }

  function WithRole(u: User, id: int, role: Role): User {
    if u.id == id then u.(role := role) else u
  }

  function SetUserSuspended(rows: seq<User>, id: int, suspended: bool): seq<User> {
    seq(|rows|, (i: nat) requires i < |rows| => WithSuspended(rows[i], id, suspended))
  }

  function UpdateUserRole(rows: seq<User>, id: int, role: Role): seq<User> {
    seq(|rows|, (i: nat) requires i < |rows| => WithRole(rows[i], id, role))
  }

  /** The row goes, and a reseller's customers fall back to the server. */
  function DeleteUser(rows: seq<User>, id: int): seq<User> {
    if rows == [] then []
    else if rows[0].id == id then DeleteUser(rows[1..], id)
    else [Orphaned(rows[0], id)] + DeleteUser(rows[1..], id)
  }

  function Orphaned(u: User, id: int): User {
    if u.parent == Some(id) then u.(parent := None) else u
  }

  // ----- the calls -----------------------------------------------------------

  /** `sessions` maps a stored token hash to the user it signs in. */
  datatype State = State(rows: seq<User>, nextId: int, sessions: map<int, int>)

  /** `nameOk` and `passwordOk` stand for the naming and length rules. */
  datatype Request = Request(username: string, role: Role, parent: Option<int>, nameOk: bool, passwordOk: bool)

  /** Which of the steps behind an end user's Linux account succeed. */
  datatype AccountSteps = AccountSteps(created: bool, rolledBack: bool, recorded: bool, passwordSet: bool)

  datatype Error = NotFound | BadRole | BadUsername | UsernameInUse | WeakPassword
                 | LastAdmin | OwnsResources | StepFailed

  datatype Outcome = Done | Refused(error: Error)

  datatype Op =
    | Create(request: Request, steps: AccountSteps)
    | Delete(id: int, resources: nat, dropped: bool, linuxGone: bool)
    | SetSuspended(id: int, suspended: bool, ended: bool)    // `ended`: the sessions could be removed
    | UpdateProfile(id: int, role: Role)
    | SignIn(id: int, token: int)

  function DeleteUserSessions(sessions: map<int, int>, id: int): map<int, int> {
    map t | t in sessions && sessions[t] != id :: sessions[t]
  }

  function CreateStep(s: State, q: Request, steps: AccountSteps): (State, Outcome) {
    if !ValidRole(q.role) then (s, Refused(BadRole))
    else if !q.nameOk then (s, Refused(BadUsername))
    else if UsernameTaken(s.rows, q.username) then (s, Refused(UsernameInUse))
    else if !q.passwordOk then (s, Refused(WeakPassword))
    else
      var user := User(s.nextId, q.username, q.role, false, q.parent, None);
      var created := State(s.rows + [user], s.nextId + 1, s.sessions);
      if !ParentExists(created.rows, q.parent) then (s, Refused(StepFailed))
      else if !q.role.EndUser? then (created, Done)
      else if !steps.created then
        (if steps.rolledBack then created.(rows := DeleteUser(created.rows, user.id)) else created,
         Refused(StepFailed))
      else (created, if steps.recorded && steps.passwordSet then Done else Refused(StepFailed))
  }

  function Step(s: State, op: Op): (State, Outcome) {
    match op
    case Create(q, steps) => CreateStep(s, q, steps)
    case Delete(id, resources, dropped, linuxGone) =>
      (match UserByID(s.rows, id)
       case None => (s, Refused(NotFound))
       case Some(u) =>
         if resources > 0 then (s, Refused(OwnsResources))
         else if u.role.Admin? && CountAdmins(s.rows, id) == 0 then (s, Refused(LastAdmin))
         else if !dropped then (s, Refused(StepFailed))
         else (s.(rows := DeleteUser(s.rows, id), sessions := DeleteUserSessions(s.sessions, id)),
               if linuxGone then Done else Refused(StepFailed)))
    case SetSuspended(id, suspended, ended) =>
      (match UserByID(s.rows, id)
       case None => (s, Refused(NotFound))
       case Some(u) =>
         if suspended && u.role.Admin? && CountAdmins(s.rows, id) == 0 then (s, Refused(LastAdmin))
         else (s.(rows := SetUserSuspended(s.rows, id, suspended),
                  sessions := if suspended && ended then DeleteUserSessions(s.sessions, id) else s.sessions),
               if suspended && !ended then Refused(StepFailed) else Done))
    case UpdateProfile(id, role) =>
      (match UserByID(s.rows, id)
       case None => (s, Refused(NotFound))
       case Some(u) =>
         if !ValidRole(role) then (s, Refused(BadRole))
         else if u.role.Admin? && !role.Admin? && CountAdmins(s.rows, id) == 0 then (s, Refused(LastAdmin))
         else (s.(rows := UpdateUserRole(s.rows, id, role)), Done))
    case SignIn(id, token) =>
      (match UserByID(s.rows, id)
       case None => (s, Refused(NotFound))
       case Some(u) =>
         if u.suspended then (s, Refused(StepFailed)) else (s.(sessions := s.sessions[token := id]), Done))
  }

  class Service {
    var rows: seq<User>
    var nextId: int
    var sessions: map<int, int>

    ghost function View(): State
      reads this
    {
      State(rows, nextId, sessions)
    }

    constructor (s: State)
      ensures View() == s
    {
      rows, nextId, sessions := s.rows, s.nextId, s.sessions;
    }

    method Create(q: Request, steps: AccountSteps) returns (outcome: Outcome)
      modifies this
      ensures (View(), outcome) == Step(old(View()), Op.Create(q, steps))
    {
      if !ValidRole(q.role) {
        return Refused(BadRole);
      }
      if !q.nameOk {
        return Refused(BadUsername);
      }
      if UsernameTaken(rows, q.username) {
        return Refused(UsernameInUse);
      }
      if !q.passwordOk {
        return Refused(WeakPassword);
      }
      var user := User(nextId, q.username, q.role, false, q.parent, None);
      if !ParentExists(rows + [user], q.parent) {
        return Refused(StepFailed);
      }
      rows := rows + [user];
      nextId := nextId + 1;
      if q.role.EndUser? {
        if !steps.created {
          if steps.rolledBack {
            rows := DeleteUser(rows, user.id);
          }
          return Refused(StepFailed);
        }
        if !steps.recorded || !steps.passwordSet {
          return Refused(StepFailed);
        }
      }
      return Done;
    }

    method Delete(id: int, resources: nat, dropped: bool, linuxGone: bool) returns (outcome: Outcome)
      modifies this
      ensures (View(), outcome) == Step(old(View()), Op.Delete(id, resources, dropped, linuxGone))
    {
      var user := UserByID(rows, id);
      if user.None? {
        return Refused(NotFound);
      }
      if resources > 0 {
        return Refused(OwnsResources);
      }
      if user.value.role.Admin? {
        var others := CountAdmins(rows, id);
        if others == 0 {
          return Refused(LastAdmin);
        }
      }
      if !dropped {
        return Refused(StepFailed);
      }
      rows := DeleteUser(rows, id);
      sessions := DeleteUserSessions(sessions, id);
      return if linuxGone then Done else Refused(StepFailed);
    }

    method SetSuspended(id: int, suspended: bool, ended: bool) returns (outcome: Outcome)
      modifies this
      ensures (View(), outcome) == Step(old(View()), Op.SetSuspended(id, suspended, ended))
    {
      var user := UserByID(rows, id);
      if user.None? {
        return Refused(NotFound);
      }
      if suspended && user.value.role.Admin? {
        var others := CountAdmins(rows, id);
        if others == 0 {
          return Refused(LastAdmin);
        }
      }
      rows := SetUserSuspended(rows, id, suspended);
      if suspended {
        if !ended {
          return Refused(StepFailed);
        }
        sessions := DeleteUserSessions(sessions, id);
      }
      return Done;
    }

    method UpdateProfile(id: int, role: Role) returns (outcome: Outcome)
      modifies this
      ensures (View(), outcome) == Step(old(View()), Op.UpdateProfile(id, role))
    {
      var user := UserByID(rows, id);
      if user.None? {
        return Refused(NotFound);
      }
      if !ValidRole(role) {
        return Refused(BadRole);
      }
      if user.value.role.Admin? && !role.Admin? {
        var others := CountAdmins(rows, id);
        if others == 0 {
          return Refused(LastAdmin);
        }
      }
      rows := UpdateUserRole(rows, id, role);
      return Done;
    }
  }

  // ----- every run -----------------------------------------------------------

  ghost predicate Valid(s: State) {
    UniqueIds(s.rows) && forall u :: u in s.rows ==> Numbered(u, s.nextId)
  }

  /** Ids are never used twice, and a parent was there before its customers. */
  predicate Numbered(u: User, next: int) {
    u.id < next && (u.parent.Some? ==> u.parent.value < next)
  }

  ghost predicate HasAdmin(rows: seq<User>) {
    exists u :: u in rows && ActiveAdmin(u)
  }

  /** Whoever is signed in exists. */
  ghost predicate SessionsOwned(s: State) {
    forall t :: t in s.sessions ==> exists u :: u in s.rows && u.id == s.sessions[t]
  }

  /** Whoever is signed in exists and is not suspended. */
  ghost predicate SessionsLive(s: State) {
    forall t :: t in s.sessions ==> exists u :: u in s.rows && u.id == s.sessions[t] && !u.suspended
  }

  lemma {:induction false} CountPositive(rows: seq<User>, id: int)
    ensures CountAdmins(rows, id) > 0 <==> exists u :: u in rows && ActiveAdmin(u) && u.id != id
  {
    if rows == [] {
    } else {
      CountPositive(rows[1..], id);
    }
  }

  lemma SameIdSameRow(rows: seq<User>, u: User, v: User)
    requires UniqueIds(rows) && u in rows && v in rows && u.id == v.id
    ensures u == v
  {
  }

  lemma UniqueCons(u: User, rest: seq<User>)
    requires UniqueIds(rest) && forall v :: v in rest ==> v.id != u.id
    ensures UniqueIds([u] + rest)
  {
    var all := [u] + rest;
    forall i, j | 0 <= i < j < |all| ensures all[i].id != all[j].id {
      assert all[j] == rest[j - 1];
      if i > 0 {
        assert all[i] == rest[i - 1];
      }
    }
  }

  /** Deleting a row keeps every other one, but for a parent that went. */
  lemma {:induction false} DeleteKeepsOthers(rows: seq<User>, id: int)
    requires UniqueIds(rows)
    ensures UniqueIds(DeleteUser(rows, id))
    ensures forall u :: u in rows && u.id != id ==> Orphaned(u, id) in DeleteUser(rows, id)
    ensures forall v :: v in DeleteUser(rows, id) ==>
              v.id != id && exists u :: u in rows && v == Orphaned(u, id)
  {
    if rows == [] {
    } else {
      DeleteKeepsOthers(rows[1..], id);
      if rows[0].id != id {
        UniqueCons(Orphaned(rows[0], id), DeleteUser(rows[1..], id));
      }
    }
  }

  /** Writing one row by id leaves the others in place. */
  lemma SuspendWrites(rows: seq<User>, id: int, suspended: bool)
    requires UniqueIds(rows)
    ensures UniqueIds(SetUserSuspended(rows, id, suspended))
    ensures forall u :: u in rows ==> WithSuspended(u, id, suspended) in SetUserSuspended(rows, id, suspended)
    ensures forall v :: v in SetUserSuspended(rows, id, suspended) ==>
              exists u :: u in rows && v == WithSuspended(u, id, suspended)
  {
    var written := SetUserSuspended(rows, id, suspended);
    forall u | u in rows ensures WithSuspended(u, id, suspended) in written {
      var i :| 0 <= i < |rows| && rows[i] == u;
      assert written[i] in written;
    }
    forall v | v in written ensures exists u :: u in rows && v == WithSuspended(u, id, suspended) {
      var i :| 0 <= i < |written| && written[i] == v;
      assert v == WithSuspended(rows[i], id, suspended);
    }
  }

  lemma RoleWrites(rows: seq<User>, id: int, role: Role)
    requires UniqueIds(rows)
    ensures UniqueIds(UpdateUserRole(rows, id, role))
    ensures forall u :: u in rows ==> WithRole(u, id, role) in UpdateUserRole(rows, id, role)
    ensures forall v :: v in UpdateUserRole(rows, id, role) ==> exists u :: u in rows && v == WithRole(u, id, role)
  {
    var written := UpdateUserRole(rows, id, role);
    forall u | u in rows ensures WithRole(u, id, role) in written {
      var i :| 0 <= i < |rows| && rows[i] == u;
      assert written[i] in written;
    }
    forall v | v in written ensures exists u :: u in rows && v == WithRole(u, id, role) {
      var i :| 0 <= i < |written| && written[i] == v;
      assert v == WithRole(rows[i], id, role);
    }
  }

  /** A failed Linux account leaves no trace of the row. */
  lemma RollbackRestores(s: State, q: Request, steps: AccountSteps)
    requires Valid(s) && !steps.created && steps.rolledBack && q.role.EndUser?
    ensures Step(s, Create(q, steps)).0.rows == s.rows && Step(s, Create(q, steps)).1.Refused?
  {
    var user := User(s.nextId, q.username, q.role, false, q.parent, None);
    DeleteAppended(s.rows, user);
  }

  lemma {:induction false} DeleteAppended(rows: seq<User>, user: User)
    requires forall u :: u in rows ==> u.id != user.id && u.parent != Some(user.id)
    ensures DeleteUser(rows + [user], user.id) == rows
  {
    if rows == [] {
    } else {
      assert (rows + [user])[1..] == rows[1..] + [user];
      DeleteAppended(rows[1..], user);
    }
  }

  function NewUser(s: State, q: Request): User {
    User(s.nextId, q.username, q.role, false, q.parent, None)
  }

  /** Create adds its row at the end or leaves the rows alone. */
  lemma CreateRows(s: State, q: Request, steps: AccountSteps)
    requires Valid(s)
    ensures var n := CreateStep(s, q, steps).0;
            && n.sessions == s.sessions && n.nextId >= s.nextId
            && (n.rows == s.rows ||
                (n.rows == s.rows + [NewUser(s, q)] && n.nextId == s.nextId + 1
                 && (q.parent.Some? ==> q.parent.value <= s.nextId)))
  {
    var user := NewUser(s, q);
    DeleteAppended(s.rows, user);
    if ParentExists(s.rows + [user], q.parent) && q.parent.Some? {
      var p := UserByID(s.rows + [user], q.parent.value).value;
      assert p in s.rows || p == user;
    }
  }

  lemma UniqueSnoc(rows: seq<User>, user: User)
    requires UniqueIds(rows) && forall u :: u in rows ==> u.id != user.id
    ensures UniqueIds(rows + [user])
  {
  }

  lemma StepKeepsValid(s: State, op: Op)
    requires Valid(s)
    ensures Valid(Step(s, op).0)
  {
    match op
    case Create(q, steps) =>
      CreateRows(s, q, steps);
      UniqueSnoc(s.rows, NewUser(s, q));
    case Delete(id, _, _, _) =>
      DeleteKeepsOthers(s.rows, id);
      forall v | v in DeleteUser(s.rows, id) ensures Numbered(v, s.nextId) {
        var u :| u in s.rows && v == Orphaned(u, id);
      }
    case SetSuspended(id, suspended, _) =>
      SuspendWrites(s.rows, id, suspended);
      forall v | v in SetUserSuspended(s.rows, id, suspended) ensures Numbered(v, s.nextId) {
        var u :| u in s.rows && v == WithSuspended(u, id, suspended);
      }
    case UpdateProfile(id, role) =>
      RoleWrites(s.rows, id, role);
      forall v | v in UpdateUserRole(s.rows, id, role) ensures Numbered(v, s.nextId) {
        var u :| u in s.rows && v == WithRole(u, id, role);
      }
    case SignIn(_, _) =>
  }

  /** The rows a call would leave if it skipped the last-administrator check. */
  function Unguarded(s: State, op: Op): seq<User> {
    match op
    case Delete(id, _, _, _) => DeleteUser(s.rows, id)
    case SetSuspended(id, suspended, _) => SetUserSuspended(s.rows, id, suspended)
    case UpdateProfile(id, role) => UpdateUserRole(s.rows, id, role)
    case _ => s.rows
  }

  /** No earlier check stops the call before it asks about administrators. */
  predicate ReachesGuard(s: State, op: Op) {
    match op
    case Delete(id, resources, _, _) => UserByID(s.rows, id).Some? && resources == 0
    case SetSuspended(id, suspended, _) => UserByID(s.rows, id).Some? && suspended
    case UpdateProfile(id, role) => UserByID(s.rows, id).Some? && ValidRole(role)
    case _ => false
  }

  /** An active administrator other than the account written to is still one. */
  lemma OthersRemain(s: State, op: Op, u: User)
    requires Valid(s) && ReachesGuard(s, op) && u in s.rows && ActiveAdmin(u) && u.id != op.id
    ensures HasAdmin(Unguarded(s, op))
  {
    match op
    case Delete(id, _, _, _) =>
      DeleteKeepsOthers(s.rows, id);
      assert ActiveAdmin(Orphaned(u, id));
    case SetSuspended(id, suspended, _) =>
      SuspendWrites(s.rows, id, suspended);
      assert WithSuspended(u, id, suspended) == u;
    case UpdateProfile(id, role) =>
      RoleWrites(s.rows, id, role);
      assert WithRole(u, id, role) == u;
  }

  /** Any active administrator left by the write was one before it, or is the account
      that was just made one. */
  lemma AdminsCameFrom(s: State, op: Op)
    requires Valid(s) && ReachesGuard(s, op) && HasAdmin(Unguarded(s, op))
    ensures (exists u :: u in s.rows && ActiveAdmin(u) && u.id != op.id) || (op.UpdateProfile? && op.role.Admin?)
  {
    var v :| v in Unguarded(s, op) && ActiveAdmin(v);
    match op
    case Delete(id, _, _, _) =>
      DeleteKeepsOthers(s.rows, id);
      var u :| u in s.rows && v == Orphaned(u, id);
      assert ActiveAdmin(u) && u.id != id;
    case SetSuspended(id, suspended, _) =>
      SuspendWrites(s.rows, id, suspended);
      var u :| u in s.rows && v == WithSuspended(u, id, suspended);
      assert ActiveAdmin(u) && u.id != id;
    case UpdateProfile(id, role) =>
      RoleWrites(s.rows, id, role);
      var u :| u in s.rows && v == WithRole(u, id, role);
      if u.id != id {
        assert ActiveAdmin(u);
      }
  }

  /** The check refuses a call exactly when the call would leave no active
      administrator: never too late, and never too soon. */
  lemma GuardIsExact(s: State, op: Op)
    requires Valid(s) && HasAdmin(s.rows)
    ensures Step(s, op).1 == Refused(LastAdmin) <==> ReachesGuard(s, op) && !HasAdmin(Unguarded(s, op))
  {
    if ReachesGuard(s, op) {
      var target := UserByID(s.rows, op.id).value;
      CountPositive(s.rows, op.id);
      var admin :| admin in s.rows && ActiveAdmin(admin);
      if CountAdmins(s.rows, op.id) > 0 {
        var u :| u in s.rows && ActiveAdmin(u) && u.id != op.id;
        OthersRemain(s, op, u);
      } else {
        assert admin.id == op.id;
        SameIdSameRow(s.rows, admin, target);
        if op.UpdateProfile? && op.role.Admin? {
          RoleWrites(s.rows, op.id, op.role);
          assert ActiveAdmin(WithRole(admin, op.id, op.role));
        } else if HasAdmin(Unguarded(s, op)) {
          AdminsCameFrom(s, op);
        }
      }
    }
  }

  lemma StepKeepsAdmin(s: State, op: Op)
    requires Valid(s) && HasAdmin(s.rows)
    ensures HasAdmin(Step(s, op).0.rows)
  {
    var admin :| admin in s.rows && ActiveAdmin(admin);
    match op
    case Create(q, steps) => CreateRows(s, q, steps);
    case SetSuspended(id, suspended, _) =>
      GuardIsExact(s, op);
      if !suspended {
        SuspendWrites(s.rows, id, false);
        assert ActiveAdmin(WithSuspended(admin, id, false));
      }
    case Delete(_, _, _, _) => GuardIsExact(s, op);
    case UpdateProfile(_, _) => GuardIsExact(s, op);
    case SignIn(_, _) =>
  }

  /** The row behind a session that a call leaves open is still there, and active
      unless the call suspended it. */
  lemma OwnerStays(s: State, op: Op, u: User) returns (v: User)
    requires Valid(s) && !op.SignIn? && u in s.rows && (op.Delete? ==> u.id != op.id)
    ensures v in Step(s, op).0.rows && v.id == u.id
    ensures u.suspended || (op.SetSuspended? && op.suspended && u.id == op.id) || !v.suspended
  {
    v := u;
    match op
    case Create(q, steps) => CreateRows(s, q, steps);
    case Delete(id, _, _, _) =>
      DeleteKeepsOthers(s.rows, id);
      if u !in Step(s, op).0.rows {
        v := Orphaned(u, id);
      }
    case SetSuspended(id, suspended, _) =>
      SuspendWrites(s.rows, id, suspended);
      if Step(s, op).0 != s {
        v := WithSuspended(u, id, suspended);
      }
    case UpdateProfile(id, role) =>
      RoleWrites(s.rows, id, role);
      if Step(s, op).0 != s {
        v := WithRole(u, id, role);
      }
  }

  lemma StepKeepsOwned(s: State, op: Op)
    requires Valid(s) && SessionsOwned(s)
    ensures SessionsOwned(Step(s, op).0)
  {
    var n := Step(s, op).0;
    forall t | t in n.sessions ensures exists u :: u in n.rows && u.id == n.sessions[t] {
      if op.SignIn? {
        if UserByID(s.rows, op.id).Some? && n.sessions[t] == op.id && t == op.token {
          assert UserByID(s.rows, op.id).value.id == op.id;
        }
      } else if n != s {
        var u :| u in s.rows && u.id == s.sessions[t];
        var v := OwnerStays(s, op, u);
      }
    }
  }

  /** The account is suspended but its sessions could not be removed. */
  ghost predicate LeavesSessions(s: State, op: Op) {
    && op.SetSuspended? && op.suspended && !op.ended
    && UserByID(s.rows, op.id).Some? && Step(s, op).1 != Refused(LastAdmin)
    && exists t :: t in s.sessions && s.sessions[t] == op.id
  }

  lemma LeftSessionsAreSuspended(s: State, op: Op)
    requires Valid(s) && LeavesSessions(s, op)
    ensures !SessionsLive(Step(s, op).0)
  {
    var n := Step(s, op).0;
    var t :| t in s.sessions && s.sessions[t] == op.id;
    SuspendWrites(s.rows, op.id, true);
    forall v | v in n.rows && v.id == n.sessions[t] ensures v.suspended {
      var u :| u in s.rows && v == WithSuspended(u, op.id, true);
    }
  }

  lemma NewSessionIsLive(s: State, id: int, token: int)
    requires SessionsLive(s)
    ensures SessionsLive(Step(s, SignIn(id, token)).0)
  {
    if UserByID(s.rows, id).Some? {
      assert UserByID(s.rows, id).value.id == id;
    }
  }

  lemma OtherSessionsStayLive(s: State, op: Op)
    requires Valid(s) && SessionsLive(s) && !op.SignIn? && !LeavesSessions(s, op)
    ensures SessionsLive(Step(s, op).0)
  {
    var n := Step(s, op).0;
    if n != s {
      forall t | t in n.sessions ensures exists u :: u in n.rows && u.id == n.sessions[t] && !u.suspended {
        var u :| u in s.rows && u.id == s.sessions[t] && !u.suspended;
        var v := OwnerStays(s, op, u);
      }
    }
  }

  /** Only such a call leaves a suspended account signed in. (ValidateSession still
      refuses those sessions, and removes them.) */
  lemma StepKeepsSessions(s: State, op: Op)
    requires Valid(s) && SessionsLive(s)
    ensures SessionsLive(Step(s, op).0) <==> !LeavesSessions(s, op)
  {
    if LeavesSessions(s, op) {
      LeftSessionsAreSuspended(s, op);
    } else if op.SignIn? {
      NewSessionIsLive(s, op.id, op.token);
    } else {
      OtherSessionsStayLive(s, op);
    }
  }

  function After(s: State, ops: seq<Op>): State
    decreases |ops|
  {
    if ops == [] then s else After(Step(s, ops[0]).0, ops[1..])
  }

  /** From a server with an active administrator, no sequence of calls ends without
      one, and nobody stays signed in to a deleted account. */
  lemma {:induction false} NeverLockedOut(s: State, ops: seq<Op>)
    requires Valid(s) && HasAdmin(s.rows) && SessionsOwned(s)
    ensures var end := After(s, ops);
            Valid(end) && HasAdmin(end.rows) && SessionsOwned(end)
    decreases |ops|
  {
    if ops == [] {
    } else {
      StepKeepsValid(s, ops[0]);
      StepKeepsAdmin(s, ops[0]);
      StepKeepsOwned(s, ops[0]);
      NeverLockedOut(Step(s, ops[0]).0, ops[1..]);
    }
  }

  /** Nor to a suspended one, while removing sessions does not fail. */
  lemma {:induction false} SuspendedAreSignedOut(s: State, ops: seq<Op>)
    requires Valid(s) && SessionsLive(s)
    requires forall i :: 0 <= i < |ops| && ops[i].SetSuspended? ==> ops[i].ended
    ensures SessionsLive(After(s, ops))
    decreases |ops|
  {
    if ops == [] {
    } else {
      StepKeepsValid(s, ops[0]);
      StepKeepsSessions(s, ops[0]);
      SuspendedAreSignedOut(Step(s, ops[0]).0, ops[1..]);
    }
  }

  // ----- each call, spelled out --------------------------------------------------

  /** Somebody else administers the server. */
  ghost predicate OtherAdmin(s: State, id: int) {
    exists u :: u in s.rows && u.role.Admin? && !u.suspended && u.id != id
  }

  ghost predicate IsAdmin(s: State, id: int) {
    exists u :: u in s.rows && u.id == id && u.role.Admin?
  }

  ghost predicate Exists(s: State, id: int) {
    exists u :: u in s.rows && u.id == id
  }

  lemma FoundIs(s: State, id: int)
    requires Valid(s)
    ensures UserByID(s.rows, id).Some? <==> Exists(s, id)
    ensures UserByID(s.rows, id).Some? ==> (UserByID(s.rows, id).value.role.Admin? <==> IsAdmin(s, id))
    ensures CountAdmins(s.rows, id) > 0 <==> OtherAdmin(s, id)
  {
    CountPositive(s.rows, id);
    if u :| u in s.rows && u.id == id && u.role.Admin? {
      SameIdSameRow(s.rows, u, UserByID(s.rows, id).value);
    }
    if u :| u in s.rows && u.role.Admin? && !u.suspended && u.id != id {
      assert ActiveAdmin(u);
    }
  }

  /** Suspending and restoring set the account's own flag, whichever way, and nothing
      else of any row; only suspending can be refused for the last administrator, and only
      suspending ends sessions, the account's and no others. */
  lemma SuspendExactly(s: State, id: int, suspended: bool, ended: bool)
    requires Valid(s)
    ensures var (n, o) := Step(s, SetSuspended(id, suspended, ended));
            if !Exists(s, id) then n == s && o == Refused(NotFound)
            else if suspended && IsAdmin(s, id) && !OtherAdmin(s, id) then n == s && o == Refused(LastAdmin)
            else
              && |n.rows| == |s.rows| && n.nextId == s.nextId
              && (forall i :: 0 <= i < |s.rows| ==>
                    n.rows[i] == if s.rows[i].id == id then s.rows[i].(suspended := suspended) else s.rows[i])
              && (forall t :: t in n.sessions <==> t in s.sessions && !(suspended && ended && s.sessions[t] == id))
              && (forall t :: t in n.sessions ==> n.sessions[t] == s.sessions[t])
              && o == if suspended && !ended then Refused(StepFailed) else Done
  {
    FoundIs(s, id);
  }

  /** A role change sets the account's own role and nothing else. */
  lemma RoleExactly(s: State, id: int, role: Role)
    requires Valid(s)
    ensures var (n, o) := Step(s, UpdateProfile(id, role));
            if !Exists(s, id) then n == s && o == Refused(NotFound)
            else if role.Other? then n == s && o == Refused(BadRole)
            else if IsAdmin(s, id) && !role.Admin? && !OtherAdmin(s, id) then n == s && o == Refused(LastAdmin)
            else
              && |n.rows| == |s.rows| && n.nextId == s.nextId && n.sessions == s.sessions && o == Done
              && (forall i :: 0 <= i < |s.rows| ==>
                    n.rows[i] == if s.rows[i].id == id then s.rows[i].(role := role) else s.rows[i])
  {
    FoundIs(s, id);
  }

  lemma RowsAfterDelete(rows: seq<User>, id: int)
    requires UniqueIds(rows)
    ensures forall u :: u in rows && u.id != id ==>
              (if u.parent == Some(id) then u.(parent := None) else u) in DeleteUser(rows, id)
    ensures forall v :: v in DeleteUser(rows, id) ==> v.id != id && exists u ::
              u in rows && u.id == v.id && v == if u.parent == Some(id) then u.(parent := None) else u
  {
    DeleteKeepsOthers(rows, id);
    forall u | u in rows && u.id != id
      ensures (if u.parent == Some(id) then u.(parent := None) else u) in DeleteUser(rows, id)
    {
      assert Orphaned(u, id) in DeleteUser(rows, id);
    }
    forall v | v in DeleteUser(rows, id)
      ensures v.id != id && exists u ::
                u in rows && u.id == v.id && v == if u.parent == Some(id) then u.(parent := None) else u
    {
      var u :| u in rows && v == Orphaned(u, id);
      assert u.id == v.id;
    }
  }

  /** A deletion takes the account's row and its sessions; its customers lose their
      reseller, and nothing else changes. */
  lemma DeleteExactly(s: State, id: int, resources: nat, dropped: bool, linuxGone: bool)
    requires Valid(s)
    ensures var (n, o) := Step(s, Delete(id, resources, dropped, linuxGone));
            if !Exists(s, id) then n == s && o == Refused(NotFound)
            else if resources > 0 then n == s && o == Refused(OwnsResources)
            else if IsAdmin(s, id) && !OtherAdmin(s, id) then n == s && o == Refused(LastAdmin)
            else if !dropped then n == s && o == Refused(StepFailed)
            else
              && n.nextId == s.nextId && o == (if linuxGone then Done else Refused(StepFailed))
              && (forall u :: u in s.rows && u.id != id ==>
                    (if u.parent == Some(id) then u.(parent := None) else u) in n.rows)
              && (forall v :: v in n.rows ==> v.id != id && exists u ::
                    u in s.rows && u.id == v.id && v == if u.parent == Some(id) then u.(parent := None) else u)
              && (forall t :: t in n.sessions <==> t in s.sessions && s.sessions[t] != id)
              && (forall t :: t in n.sessions ==> n.sessions[t] == s.sessions[t])
  {
    FoundIs(s, id);
    RowsAfterDelete(s.rows, id);
  }

  ghost predicate Acceptable(s: State, q: Request) {
    && !q.role.Other? && q.nameOk && q.passwordOk
    && (forall u :: u in s.rows ==> u.username != q.username)
    && (q.parent.Some? ==> q.parent.value == s.nextId || Exists(s, q.parent.value))
  }

  lemma ParentIs(s: State, q: Request)
    requires Valid(s)
    ensures ParentExists(s.rows + [NewUser(s, q)], q.parent) <==>
            q.parent.None? || q.parent.value == s.nextId || Exists(s, q.parent.value)
  {
    var all := s.rows + [NewUser(s, q)];
    if q.parent.Some? {
      assert NewUser(s, q) in all;
      forall u ensures u in all <==> u in s.rows || u == NewUser(s, q) {
      }
    }
  }

  /** A creation adds one row, not suspended, with the name, role and reseller asked for
      and a new id, if the request is acceptable; an end user's stays only if the Linux
      account was made, or could not be rolled back. The call succeeds when every step
      did. No other row and no session changes. */
  lemma CreateExactly(s: State, q: Request, steps: AccountSteps)
    requires Valid(s)
    ensures var (n, o) := Step(s, Create(q, steps));
            && n.sessions == s.sessions
            && (o == Done <==>
                  Acceptable(s, q) && (q.role.EndUser? ==> steps.created && steps.recorded && steps.passwordSet))
            && n.rows == (if Acceptable(s, q) && (q.role.EndUser? && !steps.created ==> !steps.rolledBack)
                          then s.rows + [User(s.nextId, q.username, q.role, false, q.parent, None)] else s.rows)
            && n.nextId == s.nextId + if Acceptable(s, q) then 1 else 0
  {
    ParentIs(s, q);
    DeleteAppended(s.rows, NewUser(s, q));
    assert UsernameTaken(s.rows, q.username) <==> !(forall u :: u in s.rows ==> u.username != q.username);
  }

  /** Signing in opens a session for an account that is there and not suspended, and for
      no other. */
  lemma SignInExactly(s: State, id: int, token: int)
    requires Valid(s)
    ensures var (n, o) := Step(s, SignIn(id, token));
            if exists u :: u in s.rows && u.id == id && !u.suspended
            then o == Done && n == s.(sessions := s.sessions[token := id])
            else o.Refused? && n == s
  {
    var found := UserByID(s.rows, id);
    if u :| u in s.rows && u.id == id && !u.suspended {
      SameIdSameRow(s.rows, u, found.value);
    }
  }
}
