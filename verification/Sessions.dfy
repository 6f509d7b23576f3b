/** internal/auth/service.go: sessions with an absolute timeout, an idle timeout
    and a last-seen stamp that is only written when it is a minute old. Times are
    integers in nanoseconds. */
module Sessions {
  import opened Wrappers

  const SECOND := 1_000_000_000
  const MINUTE := 60 * SECOND

  datatype Session = Session(userId: int, createdAt: int, expiresAt: int, lastSeenAt: int, impersonatorId: int)

  /** The rows a session decision reads: sessions by hashed id, and whether each
      user is suspended. */
  datatype Store = Store(sessions: map<string, Session>, suspended: map<int, bool>)

  /** An idle timeout of zero or less disables it. `hash` is the digest that turns
      a cookie into a session id. */
  datatype Config = Config(sessionTTL: int, idleTTL: int, hash: string -> string)

  datatype Denied = SessionInvalid | AccountSuspended

  // ----- one validation ------------------------------------------------------

  predicate TimedOut(c: Config, s: Session, now: int) {
    now > s.expiresAt || (c.idleTTL > 0 && now - s.lastSeenAt > c.idleTTL)
  }

  /** The row as a validation leaves it. */
  function Touched(s: Session, now: int): Session {
    if now - s.lastSeenAt > MINUTE then s.(lastSeenAt := now) else s
  }

  function Verdict(c: Config, st: Store, cookie: string, now: int): Result<Session, Denied> {
    var id := c.hash(cookie);
    if cookie == "" || id !in st.sessions || TimedOut(c, st.sessions[id], now)
       || st.sessions[id].userId !in st.suspended then Failure(SessionInvalid)
    else if st.suspended[st.sessions[id].userId] then Failure(AccountSuspended)
    else Success(Touched(st.sessions[id], now))
  }

  function WithoutUser(sessions: map<string, Session>, userId: int): map<string, Session> {
    map id | id in sessions && sessions[id].userId != userId :: sessions[id]
  }

  function AfterValidate(c: Config, st: Store, cookie: string, now: int): Store {
    var id := c.hash(cookie);
    if cookie == "" || id !in st.sessions then st
    else
      var s := st.sessions[id];
      if TimedOut(c, s, now) || s.userId !in st.suspended then st.(sessions := st.sessions - {id})
      else if st.suspended[s.userId] then st.(sessions := WithoutUser(st.sessions, s.userId))
      else st.(sessions := st.sessions[id := Touched(s, now)])
  }

  class Service {
    const config: Config
    var sessions: map<string, Session>
    var suspended: map<int, bool>

    constructor (config: Config)
      ensures this.config == config && sessions == map[] && suspended == map[]
    {
      this.config := config;
      sessions := map[];
      suspended := map[];
    }

    function Rows(): Store
      reads this
    {
      Store(sessions, suspended)
    }

    /** newSessionAs, given the fresh random cookie; the row's id is the table's
        primary key, so a repeated one is refused. */
    method NewSessionAs(cookie: string, userId: int, impersonatorId: int, now: int) returns (ok: bool)
      modifies this`sessions
      ensures ok <==> config.hash(cookie) !in old(sessions)
      ensures Rows() == AfterNew(config, old(Rows()), cookie, userId, impersonatorId, now)
      ensures ok ==> sessions == old(sessions)[config.hash(cookie) :=
                                   Session(userId, now, now + config.sessionTTL, now, impersonatorId)]
      ensures !ok ==> sessions == old(sessions)
    {
      var id := config.hash(cookie);
      if id in sessions {
        return false;
      }
      sessions := sessions[id := Session(userId, now, now + config.sessionTTL, now, impersonatorId)];
      return true;
    }

    method ValidateSession(cookie: string, now: int) returns (r: Result<Session, Denied>)
      modifies this`sessions
      ensures r == Verdict(config, old(Rows()), cookie, now)
      ensures Rows() == AfterValidate(config, old(Rows()), cookie, now)
    {
      if cookie == "" {
        return Failure(SessionInvalid);
      }
      var id := config.hash(cookie);
      if id !in sessions {
        return Failure(SessionInvalid);
      }
      var sess := sessions[id];
      if now > sess.expiresAt {
        sessions := sessions - {id};
        return Failure(SessionInvalid);
      }
      if config.idleTTL > 0 && now - sess.lastSeenAt > config.idleTTL {
        sessions := sessions - {id};
        return Failure(SessionInvalid);
      }
      if sess.userId !in suspended {
        sessions := sessions - {id};
        return Failure(SessionInvalid);
      }
      if suspended[sess.userId] {
        sessions := WithoutUser(sessions, sess.userId);
        return Failure(AccountSuspended);
      }
      if now - sess.lastSeenAt > MINUTE {
        sess := sess.(lastSeenAt := now);
      }
      sessions := sessions[id := sess];
      return Success(sess);
    }

    method Logout(cookie: string)
      modifies this`sessions
      ensures sessions == if cookie == "" then old(sessions) else old(sessions) - {config.hash(cookie)}
    {
      if cookie == "" {
        return;
      }
      sessions := sessions - {config.hash(cookie)};
    }
  }

  // ----- runs ----------------------------------------------------------------

  function AfterNew(c: Config, st: Store, cookie: string, userId: int, impersonatorId: int, now: int): Store {
    var id := c.hash(cookie);
    if id in st.sessions then st
    else st.(sessions := st.sessions[id := Session(userId, now, now + c.sessionTTL, now, impersonatorId)])
  }

  datatype Event =
    | New(cookie: string, userId: int, impersonatorId: int, now: int)
    | Validate(cookie: string, now: int)
    | Logout(cookie: string)
    | RevokeUser(userId: int)                    // password change: the user's sessions go
    | SetSuspended(userId: int, flag: bool)      // suspending revokes as well
    | AddUser(userId: int)
    | DeleteUser(userId: int)                    // the foreign key takes the sessions along
    | Purge(gone: set<string>, now: int)

  /** The store, and the time of each session's last accepted request; signing in
      counts as one. */
  datatype History = History(store: Store, accepted: map<string, int>, clock: int)

  function NewAccepted(c: Config, h: History, e: Event): map<string, int> {
    match e
    case New(cookie, _, _, now) =>
      if c.hash(cookie) in h.store.sessions then h.accepted else h.accepted[c.hash(cookie) := now]
    case Validate(cookie, now) =>
      if Verdict(c, h.store, cookie, now).Success? then h.accepted[c.hash(cookie) := now] else h.accepted
    case _ => h.accepted
  }

  function AfterEvent(c: Config, st: Store, e: Event): Store {
    match e
    case New(cookie, userId, imp, now) => AfterNew(c, st, cookie, userId, imp, now)
    case Validate(cookie, now) => AfterValidate(c, st, cookie, now)
    case Logout(cookie) => if cookie == "" then st else st.(sessions := st.sessions - {c.hash(cookie)})
    case RevokeUser(u) => st.(sessions := WithoutUser(st.sessions, u))
    case SetSuspended(u, flag) =>
      if u !in st.suspended then st
      else Store(if flag then WithoutUser(st.sessions, u) else st.sessions, st.suspended[u := flag])
    case AddUser(u) => if u in st.suspended then st else st.(suspended := st.suspended[u := false])
    case DeleteUser(u) => Store(WithoutUser(st.sessions, u), st.suspended - {u})
    case Purge(gone, _) => st.(sessions := st.sessions - gone)
  }

  function ClockAfter(e: Event, clock: int): int {
    match e
    case New(_, _, _, now) => now
    case Validate(_, now) => now
    case Purge(_, now) => now
    case _ => clock
  }

  function Step(c: Config, h: History, e: Event): History {
    History(AfterEvent(c, h.store, e), NewAccepted(c, h, e), ClockAfter(e, h.clock))
  }

  /** The clock does not run backwards. A purge compares stored text, which is
      right to within a second, so it may take any session that expires less than
      a second after it. */
  ghost predicate Possible(h: History, e: Event) {
    && h.clock <= ClockAfter(e, h.clock)
    && (e.Purge? ==> forall id :: id in e.gone && id in h.store.sessions ==>
          h.store.sessions[id].expiresAt < e.now + SECOND)
  }

  ghost predicate PossibleRun(c: Config, h: History, es: seq<Event>)
    decreases |es|
  {
    es == [] || (Possible(h, es[0]) && PossibleRun(c, Step(c, h, es[0]), es[1..]))
  }

  function Run(c: Config, h: History, es: seq<Event>): History
    decreases |es|
  {
    if es == [] then h else Run(c, Step(c, h, es[0]), es[1..])
  }

  // ----- one verdict, spelled out ----------------------------------------------

  /** The cookie's session is stored, has not expired, has been used within the idle
      timeout where there is one, and belongs to an account that exists. */
  predicate Current(c: Config, st: Store, cookie: string, now: int) {
    && cookie != "" && c.hash(cookie) in st.sessions
    && var s := st.sessions[c.hash(cookie)];
       now <= s.expiresAt && (c.idleTTL <= 0 || now - s.lastSeenAt <= c.idleTTL) && s.userId in st.suspended
  }

  /** A request is accepted exactly for a current session of an account that is not
      suspended, and is then that session's. A suspended account is told so. */
  lemma VerdictExactly(c: Config, st: Store, cookie: string, now: int)
    ensures var v := Verdict(c, st, cookie, now);
            && (v.Success? <==> Current(c, st, cookie, now) && !st.suspended[st.sessions[c.hash(cookie)].userId])
            && (v == Failure(AccountSuspended) <==>
                  Current(c, st, cookie, now) && st.suspended[st.sessions[c.hash(cookie)].userId])
            && (v.Success? ==> v.value.(lastSeenAt := 0) == st.sessions[c.hash(cookie)].(lastSeenAt := 0))
  {
  }

  /** What a validation leaves stored: a session that is not current goes; a suspended
      account's all go; an accepted one has its stamp renewed when that is more than a
      minute old, and is otherwise not written at all. Nobody else's change. */
  lemma ValidationLeaves(c: Config, st: Store, cookie: string, now: int)
    ensures var n, id := AfterValidate(c, st, cookie, now), c.hash(cookie);
            && n.suspended == st.suspended
            && (cookie == "" || id !in st.sessions ==> n == st)
            && (cookie != "" && id in st.sessions ==>
                  var s := st.sessions[id];
                  if !Current(c, st, cookie, now) then n.sessions == st.sessions - {id}
                  else if st.suspended[s.userId] then
                    forall k :: (k in n.sessions <==> k in st.sessions && st.sessions[k].userId != s.userId)
                                && (k in n.sessions && k in st.sessions ==> n.sessions[k] == st.sessions[k])
                  else if now - s.lastSeenAt > 60_000_000_000 then
                    n.sessions == st.sessions[id := s.(lastSeenAt := now)]
                  else n == st)
  {
    var n, id := AfterValidate(c, st, cookie, now), c.hash(cookie);
    if cookie != "" && id in st.sessions && Current(c, st, cookie, now) {
      if !st.suspended[st.sessions[id].userId] && now - st.sessions[id].lastSeenAt <= MINUTE {
        assert st.sessions[id := st.sessions[id]] == st.sessions;
      }
    }
  }

  /** A new session lasts exactly its time: a request on it is accepted if and only if it
      comes no later than the absolute timeout, and within the idle one, of an account
      that is there and not suspended. */
  lemma NewSessionLasts(c: Config, st: Store, cookie: string, userId: int, imp: int, t: int, now: int)
    requires cookie != "" && c.hash(cookie) !in st.sessions && t <= now
    ensures Verdict(c, AfterNew(c, st, cookie, userId, imp, t), cookie, now).Success? <==>
            && now - t <= c.sessionTTL && (c.idleTTL <= 0 || now - t <= c.idleTTL)
            && userId in st.suspended && !st.suspended[userId]
  {
  }

  /** What ends sessions: signing out, that session; a revocation, a suspension or a
      deletion, all of the account's and no others; restoring an account, none. */
  lemma EndingsAreExact(c: Config, st: Store, cookie: string, u: int, k: string)
    ensures cookie != "" ==>
              AfterEvent(c, st, Logout(cookie)).sessions == st.sessions - {c.hash(cookie)}
    ensures k in AfterEvent(c, st, RevokeUser(u)).sessions <==> k in st.sessions && st.sessions[k].userId != u
    ensures k in AfterEvent(c, st, DeleteUser(u)).sessions <==> k in st.sessions && st.sessions[k].userId != u
    ensures u in st.suspended ==>
              && AfterEvent(c, st, SetSuspended(u, true)).suspended == st.suspended[u := true]
              && (k in AfterEvent(c, st, SetSuspended(u, true)).sessions <==>
                    k in st.sessions && st.sessions[k].userId != u)
              && AfterEvent(c, st, SetSuspended(u, false)) == Store(st.sessions, st.suspended[u := false])
  {
  }

  /** In every run, a session's expiry is its creation plus the absolute timeout. */
  ghost predicate Dated(c: Config, h: History) {
    forall id :: id in h.store.sessions ==>
      && h.store.sessions[id].expiresAt == h.store.sessions[id].createdAt + c.sessionTTL
      && h.store.sessions[id].createdAt <= h.store.sessions[id].lastSeenAt <= h.clock
  }

  lemma StepKeepsDated(c: Config, h: History, e: Event)
    requires Dated(c, h) && Possible(h, e)
    ensures Dated(c, Step(c, h, e))
  {
  }

  lemma {:induction false} DatedAlways(c: Config, h: History, es: seq<Event>)
    requires Dated(c, h) && PossibleRun(c, h, es)
    ensures Dated(c, Run(c, h, es))
    decreases |es|
  {
    if es == [] {
    } else {
      StepKeepsDated(c, h, es[0]);
      DatedAlways(c, Step(c, h, es[0]), es[1..]);
    }
  }

  // ----- the stamp trails the truth by at most a minute -----------------------

  /** For every session: stamp <= last accepted request <= stamp + one minute. */
  ghost predicate StampsTrail(h: History) {
    forall id :: id in h.store.sessions ==>
      && id in h.accepted
      && h.store.sessions[id].lastSeenAt <= h.accepted[id] <= h.store.sessions[id].lastSeenAt + MINUTE
      && h.accepted[id] <= h.clock
  }

  lemma StepKeepsStamps(c: Config, h: History, e: Event)
    requires StampsTrail(h) && Possible(h, e)
    ensures StampsTrail(Step(c, h, e))
  {
  }

  /** It holds in every state of every run. */
  lemma {:induction false} StampsTrailAlways(c: Config, h: History, es: seq<Event>)
    requires StampsTrail(h) && PossibleRun(c, h, es)
    ensures StampsTrail(Run(c, h, es))
    decreases |es|
  {
    if es == [] {
    } else {
      StepKeepsStamps(c, h, es[0]);
      StampsTrailAlways(c, Step(c, h, es[0]), es[1..]);
    }
  }

  lemma EmptyStoreTrails(clock: int)
    ensures StampsTrail(History(Store(map[], map[]), map[], clock))
  {
  }

  /** After any run from an empty store, a request is accepted only within the idle
      timeout of the session's last accepted request and before its expiry; and a
      timeout is only ever charged to someone who has really been away for more
      than the idle timeout less a minute, or whose session has expired. */
  lemma IdleTimeoutIsReal(c: Config, es: seq<Event>, clock: int, cookie: string, now: int)
    requires var h0 := History(Store(map[], map[]), map[], clock);
             PossibleRun(c, h0, es) && Run(c, h0, es).clock <= now
    ensures var h := Run(c, History(Store(map[], map[]), map[], clock), es);
            var id := c.hash(cookie);
            && (Verdict(c, h.store, cookie, now).Success? ==>
                  && id in h.accepted
                  && now <= h.store.sessions[id].expiresAt
                  && (c.idleTTL > 0 ==> now - h.accepted[id] <= c.idleTTL))
            && (id in h.store.sessions && TimedOut(c, h.store.sessions[id], now) ==>
                  || now > h.store.sessions[id].expiresAt
                  || (id in h.accepted && now - h.accepted[id] > c.idleTTL - MINUTE))
  {
    var h0 := History(Store(map[], map[]), map[], clock);
    EmptyStoreTrails(clock);
    StampsTrailAlways(c, h0, es);
  }

  // ----- an active account is never signed out --------------------------------

  /** The session is live and its owner may use it. */
  ghost predicate Live(h: History, id: string) {
    && id in h.store.sessions
    && h.store.sessions[id].userId in h.store.suspended
    && !h.store.suspended[h.store.sessions[id].userId]
  }

  /** An event that does not end the session on purpose, and, when it is one of the
      session's own requests, comes within the idle timeout less a minute of the
      last accepted one and before the expiry. */
  ghost predicate KeepsActive(c: Config, h: History, e: Event, id: string)
    requires id in h.store.sessions && id in h.accepted
  {
    var s := h.store.sessions[id];
    match e
    case Validate(cookie, now) =>
      cookie != "" && c.hash(cookie) == id ==>
        now <= s.expiresAt && (c.idleTTL > 0 ==> now - h.accepted[id] <= c.idleTTL - MINUTE)
    case Logout(cookie) => cookie == "" || c.hash(cookie) != id
    case RevokeUser(u) => u != s.userId
    case SetSuspended(u, flag) => u != s.userId || !flag
    case DeleteUser(u) => u != s.userId
    case Purge(_, now) => now + SECOND <= s.expiresAt
    case _ => true
  }

  ghost predicate StaysActive(c: Config, h: History, es: seq<Event>, id: string)
    decreases |es|
  {
    es == [] ||
    ((id in h.store.sessions && id in h.accepted ==> KeepsActive(c, h, es[0], id))
     && StaysActive(c, Step(c, h, es[0]), es[1..], id))
  }

  /** Every request the session makes over the run is accepted, and it is still
      there at the end. */
  ghost predicate AlwaysAccepted(c: Config, h: History, es: seq<Event>, id: string)
    decreases |es|
  {
    id in h.store.sessions &&
    (es == [] ||
     ((es[0].Validate? && es[0].cookie != "" && c.hash(es[0].cookie) == id ==>
         Verdict(c, h.store, es[0].cookie, es[0].now).Success?)
      && AlwaysAccepted(c, Step(c, h, es[0]), es[1..], id)))
  }

  lemma ActiveStep(c: Config, h: History, e: Event, id: string)
    requires StampsTrail(h) && Possible(h, e) && Live(h, id) && KeepsActive(c, h, e, id)
    ensures Live(Step(c, h, e), id)
    ensures e.Validate? && e.cookie != "" && c.hash(e.cookie) == id ==>
              Verdict(c, h.store, e.cookie, e.now).Success?
  {
  }

  /** Whatever else happens on the server, a session whose requests are never
      further apart than the idle timeout less a minute is not signed out before
      its expiry. */
  lemma {:induction false} ActiveIsNeverSignedOut(c: Config, h: History, es: seq<Event>, id: string)
    requires StampsTrail(h) && PossibleRun(c, h, es) && Live(h, id) && StaysActive(c, h, es, id)
    ensures AlwaysAccepted(c, h, es, id)
    decreases |es|
  {
    if es == [] {
    } else {
      ActiveStep(c, h, es[0], id);
      StepKeepsStamps(c, h, es[0]);
      ActiveIsNeverSignedOut(c, Step(c, h, es[0]), es[1..], id);
    }
  }

  /** The minute's slack is needed: someone away for the whole idle timeout, and
      no longer, can be signed out because the stamp was not written. */
  lemma SlackIsNeeded(c: Config, id: string, cookie: string)
    requires c.idleTTL > MINUTE && c.hash(cookie) == id && cookie != ""
    ensures var s := Session(1, 0, c.idleTTL + 2 * MINUTE, 0, 0);
            var h := History(Store(map[id := s], map[1 := false]), map[id := MINUTE], MINUTE);
            && StampsTrail(h)
            && !Verdict(c, h.store, cookie, MINUTE + c.idleTTL).Success?
            && MINUTE + c.idleTTL <= s.expiresAt
  {
  }
}
