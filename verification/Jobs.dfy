/** internal/backups/service.go and internal/malware/service.go: background jobs
    started by many callers at once, guarded by a map of running owners. Each lock
    section and each database call is one atomic step; any interleaving of the
    steps of any number of threads is a run. */
module Jobs {
  import opened Wrappers

  datatype Status = Running | Ready | Failed

  datatype Row = Row(owner: int, status: Status)

  /** Where a thread is between two atomic steps. The first four belong to Start and
      its worker; the last to Upload, which files a row without the guard. */
  datatype Phase =
    | Holding(owner: int)               // passed the guard, no row yet
    | Working(owner: int, row: int)     // the agent is writing the archive or scanning
    | Finishing(owner: int)             // outcome recorded: copying offsite, quarantining
    | Releasing(owner: int)             // about to give the guard back
    | Uploading(owner: int, row: int)

  /** `lost` marks the rows that say running and that nobody will close. */
  datatype State = State(running: set<int>, threads: map<int, Phase>, rows: map<int, Row>, nextRow: int, lost: set<int>)

  function Initial(): State {
    State({}, map[], map[], 0, {})
  }

  /** Storing a row: it may fail, or succeed and then fail to be read back. */
  datatype Insert = Stored | NotStored | StoredUnread

  datatype Action =
    | Acquire(thread: int, owner: int, asksRows: bool)
    | CreateRow(thread: int, insert: Insert)
    | Finish(thread: int, ok: bool, recorded: bool)
    | Copied(thread: int)
    | Release(thread: int)
    | UploadRow(thread: int, owner: int, insert: Insert)
    | UploadDone(thread: int, recorded: bool)
    | Delete(row: int)
    | DeleteOwner(owner: int)           // the foreign key takes the rows along
    | Restart(closesRows: bool)         // backups close stale rows at startup, scans do not

  /** The step is some thread's next one. A thread id is used once. */
  predicate Enabled(s: State, a: Action) {
    match a
    case Acquire(t, _, _) => t !in s.threads
    case CreateRow(t, _) => t in s.threads && s.threads[t].Holding?
    case Finish(t, _, _) => t in s.threads && s.threads[t].Working?
    case Copied(t) => t in s.threads && s.threads[t].Finishing?
    case Release(t) => t in s.threads && s.threads[t].Releasing?
    case UploadRow(t, _, _) => t !in s.threads
    case UploadDone(t, _) => t in s.threads && s.threads[t].Uploading?
    case _ => true
  }

  /** RunningScanFor. */
  predicate HasRunningRow(rows: map<int, Row>, owner: int) {
    exists r :: r in rows && rows[r] == Row(owner, Running)
  }

  /** Whether Start's locked section lets the owner through: the map is asked, and by
      the malware service the rows too. */
  predicate Free(s: State, owner: int, asksRows: bool) {
    owner !in s.running && !(asksRows && HasRunningRow(s.rows, owner))
  }

  /** FinishBackup: the row, if it is still there, gets its outcome. */
  function Finished(rows: map<int, Row>, id: int, ok: bool): map<int, Row> {
    if id in rows then rows[id := rows[id].(status := if ok then Ready else Failed)] else rows
  }

  /** MarkStaleBackupsFailed: rows left running by a crash. */
  function StaleFailed(rows: map<int, Row>): map<int, Row> {
    map id | id in rows :: if rows[id].status.Running? then rows[id].(status := Failed) else rows[id]
  }

  function RunningRows(rows: map<int, Row>): set<int> {
    set id | id in rows && rows[id].status.Running?
  }

  /** Service.Delete refuses a running row. */
  function Deleted(rows: map<int, Row>, id: int): map<int, Row> {
    if id in rows && rows[id].status.Running? then rows else rows - {id}
  }

  /** The outcome of a row is written, or the row is lost. */
  function Recorded(s: State, id: int, ok: bool, recorded: bool): State {
    if recorded then s.(rows := Finished(s.rows, id, ok))
    else s.(lost := s.lost + if id in s.rows then {id} else {})
  }

  function Filed(s: State, owner: int, insert: Insert): State {
    if insert.NotStored? then s
    else s.(rows := s.rows[s.nextRow := Row(owner, Running)], nextRow := s.nextRow + 1,
            lost := s.lost + if insert.StoredUnread? then {s.nextRow} else {})
  }

  function Next(s: State, a: Action): State
    requires Enabled(s, a)
  {
    match a
    case Acquire(t, o, asksRows) =>
      if !Free(s, o, asksRows) then s
      else s.(running := s.running + {o}, threads := s.threads[t := Holding(o)])
    case CreateRow(t, insert) =>
      var o := s.threads[t].owner;
      Filed(s, o, insert).(threads := s.threads[t := if insert.Stored? then Working(o, s.nextRow) else Releasing(o)])
    case Finish(t, ok, recorded) =>
      var p := s.threads[t];
      var next := if ok then Finishing(p.owner) else Releasing(p.owner);
      Recorded(s, p.row, ok, recorded).(threads := s.threads[t := next])
    case Copied(t) => s.(threads := s.threads[t := Releasing(s.threads[t].owner)])
    case Release(t) => s.(running := s.running - {s.threads[t].owner}, threads := s.threads - {t})
    case UploadRow(t, o, insert) =>
      Filed(s, o, insert).(threads := if insert.Stored? then s.threads[t := Uploading(o, s.nextRow)] else s.threads)
    case UploadDone(t, recorded) => Recorded(s, s.threads[t].row, true, recorded).(threads := s.threads - {t})
    case Delete(id) => s.(rows := Deleted(s.rows, id))
    case DeleteOwner(o) =>
      var left := map id | id in s.rows && s.rows[id].owner != o :: s.rows[id];
      s.(rows := left, lost := s.lost * left.Keys)
    case Restart(closesRows) =>
      if closesRows then State({}, map[], StaleFailed(s.rows), s.nextRow, {})
      else State({}, map[], s.rows, s.nextRow, RunningRows(s.rows))
  }

  // ----- the service's own methods -------------------------------------------

  /** The shared fields, one method per atomic section. `threads` is where the
      callers are and `lost` what they left behind, for the proof only. */
  class Service {
    var running: set<int>
    var rows: map<int, Row>
    var nextRow: int
    ghost var threads: map<int, Phase>
    ghost var lost: set<int>

    ghost function View(): State
      reads this
    {
      State(running, threads, rows, nextRow, lost)
    }

    constructor ()
      ensures View() == Initial()
    {
      running := {};
      rows := map[];
      nextRow := 0;
      threads := map[];
      lost := {};
    }

    /** Start's locked section: false is ErrBusy or ErrAlreadyRunning. */
    method TryAcquire(owner: int, asksRows: bool, ghost thread: int) returns (ok: bool)
      requires Enabled(View(), Acquire(thread, owner, asksRows))
      modifies this
      ensures View() == Next(old(View()), Acquire(thread, owner, asksRows))
      ensures ok <==> owner !in old(running)
                      && !(asksRows && exists r :: r in old(rows) && old(rows)[r] == Row(owner, Running))
      ensures running == (if ok then old(running) + {owner} else old(running)) && rows == old(rows)
    {
      if owner in running {
        return false;
      }
      if asksRows {
        var busy := HasRunningRow(rows, owner);
        if busy {
          return false;
        }
      }
      running := running + {owner};
      threads := threads[thread := Holding(owner)];
      return true;
    }

    /** Storing the row; when it cannot be had the starter goes on to release. */
    method CreateBackup(owner: int, insert: Insert, ghost thread: int) returns (row: Option<int>)
      requires Enabled(View(), CreateRow(thread, insert)) && threads[thread].owner == owner
      modifies this
      ensures View() == Next(old(View()), CreateRow(thread, insert))
      ensures row == if insert.Stored? then Some(old(nextRow)) else None
      ensures rows == if insert.NotStored? then old(rows) else old(rows)[old(nextRow) := Row(owner, Running)]
      ensures running == old(running)
    {
      threads := threads[thread := if insert.Stored? then Working(owner, nextRow) else Releasing(owner)];
      if insert.NotStored? {
        return None;
      }
      var id := nextRow;
      rows := rows[id := Row(owner, Running)];
      nextRow := nextRow + 1;
      if insert.StoredUnread? {
        lost := lost + {id};
        return None;
      }
      return Some(id);
    }

    method FinishBackup(id: int, ok: bool, recorded: bool, ghost thread: int)
      requires Enabled(View(), Finish(thread, ok, recorded)) && threads[thread].row == id
      modifies this
      ensures View() == Next(old(View()), Finish(thread, ok, recorded))
      ensures rows == if recorded && id in old(rows)
                      then old(rows)[id := Row(old(rows)[id].owner, if ok then Ready else Failed)] else old(rows)
      ensures running == old(running)
    {
      if recorded {
        if id in rows {
          rows := rows[id := rows[id].(status := if ok then Ready else Failed)];
        }
      } else {
        lost := lost + if id in rows then {id} else {};
      }
      threads := threads[thread := if ok then Finishing(threads[thread].owner) else Releasing(threads[thread].owner)];
    }

    method ReleaseOwner(owner: int, ghost thread: int)
      requires Enabled(View(), Release(thread)) && threads[thread].owner == owner
      modifies this
      ensures View() == Next(old(View()), Release(thread))
      ensures running == old(running) - {owner} && rows == old(rows)
    {
      running := running - {owner};
      threads := threads - {thread};
    }

    /** Service.Delete, its archive gone: false is the refusal of a running row. */
    method DeleteBackup(id: int) returns (ok: bool)
      modifies this
      ensures View() == Next(old(View()), Delete(id))
      ensures ok <==> !(id in old(rows) && old(rows)[id].status.Running?)
      ensures rows == (if ok then old(rows) - {id} else old(rows)) && running == old(running)
    {
      if id in rows && rows[id].status.Running? {
        return false;
      }
      rows := rows - {id};
      return true;
    }

    method MarkStaleBackupsFailed()
      modifies this
      ensures View() == Next(old(View()), Restart(true))
      ensures running == {} && rows.Keys == old(rows).Keys
      ensures forall r :: r in rows ==>
                rows[r] == if old(rows)[r].status.Running? then Row(old(rows)[r].owner, Failed) else old(rows)[r]
    {
      running := {};
      threads := map[];
      rows := StaleFailed(rows);
      lost := {};
    }
  }

  // ----- every interleaving --------------------------------------------------

  predicate Holds(p: Phase, owner: int) {
    !p.Uploading? && p.owner == owner
  }

  predicate Tending(p: Phase) {
    p.Working? || p.Uploading?
  }

  /** The thread will still record the outcome of this row. */
  predicate Tends(p: Phase, row: int) {
    Tending(p) && p.row == row
  }

  /** An owner is marked exactly while one thread holds it. */
  ghost predicate Guarded(s: State) {
    && (forall t :: t in s.threads && !s.threads[t].Uploading? ==> s.threads[t].owner in s.running)
    && (forall o :: o in s.running ==> exists t :: t in s.threads && Holds(s.threads[t], o))
    && (forall t, u :: t in s.threads && u in s.threads && !s.threads[t].Uploading?
                 && Holds(s.threads[u], s.threads[t].owner)
                 ==> t == u)
  }

  /** Ids are never used again, and a lost row is there and says running. */
  ghost predicate Numbered(s: State) {
    && (forall r :: r in s.rows ==> r < s.nextRow)
    && (forall r :: r in s.lost ==> r in s.rows && s.rows[r].status.Running?)
  }

  /** A row that a thread will close is not lost, and still says running if it is
      there. */
  ghost predicate RowsKept(s: State) {
    forall t :: t in s.threads && Tending(s.threads[t]) ==>
      && s.threads[t].row < s.nextRow && s.threads[t].row !in s.lost
      && (s.threads[t].row in s.rows ==> s.rows[s.threads[t].row] == Row(s.threads[t].owner, Running))
  }

  /** No two threads close one row. */
  ghost predicate TendersApart(s: State) {
    forall t, u :: t in s.threads && u in s.threads && Tending(s.threads[t])
            && Tends(s.threads[u], s.threads[t].row)
            ==> t == u
  }

  /** A row that says running has a thread that will close it, or is lost. */
  ghost predicate Tended(s: State) {
    forall r :: r in s.rows && s.rows[r].status.Running? && r !in s.lost ==>
      exists t :: t in s.threads && Tends(s.threads[t], r)
  }

  ghost predicate Consistent(s: State) {
    Guarded(s) && Numbered(s) && RowsKept(s) && TendersApart(s) && Tended(s)
  }

  ghost predicate ValidRun(s: State, acts: seq<Action>)
    decreases |acts|
  {
    acts == [] || (Enabled(s, acts[0]) && ValidRun(Next(s, acts[0]), acts[1..]))
  }

  ghost function After(s: State, acts: seq<Action>): State
    requires ValidRun(s, acts)
    decreases |acts|
  {
    if acts == [] then s else After(Next(s, acts[0]), acts[1..])
  }

  lemma HoldersStayApart(s: State, a: Action)
    requires Guarded(s) && Enabled(s, a)
    ensures var n := Next(s, a);
            && (forall t :: t in n.threads && !n.threads[t].Uploading? ==> n.threads[t].owner in n.running)
            && (forall t, u :: t in n.threads && u in n.threads && !n.threads[t].Uploading?
                         && Holds(n.threads[u], n.threads[t].owner)
                         ==> t == u)
  {
  }

  lemma NextKeepsGuarded(s: State, a: Action)
    requires Consistent(s) && Enabled(s, a)
    ensures Guarded(Next(s, a))
  {
    var n := Next(s, a);
    HoldersStayApart(s, a);
    forall o | o in n.running ensures exists u :: u in n.threads && Holds(n.threads[u], o) {
      if o in s.running {
        var u :| u in s.threads && Holds(s.threads[u], o);
        assert Holds(n.threads[u], o);
      } else {
        assert Holds(n.threads[a.thread], o);
      }
    }
  }

  lemma NextKeepsNumbered(s: State, a: Action)
    requires Consistent(s) && Enabled(s, a)
    ensures Numbered(Next(s, a))
  {
  }

  lemma NextKeepsRowsKept(s: State, a: Action)
    requires Consistent(s) && Enabled(s, a)
    ensures RowsKept(Next(s, a))
  {
  }

  lemma NextKeepsTendersApart(s: State, a: Action)
    requires Consistent(s) && Enabled(s, a)
    ensures TendersApart(Next(s, a))
  {
  }

  lemma NextKeepsTended(s: State, a: Action)
    requires Consistent(s) && Enabled(s, a)
    ensures Tended(Next(s, a))
  {
    var n := Next(s, a);
    forall r | r in n.rows && n.rows[r].status.Running? && r !in n.lost
      ensures exists u :: u in n.threads && Tends(n.threads[u], r)
    {
      if r in s.rows {
        var u :| u in s.threads && Tends(s.threads[u], r);
        assert Tends(n.threads[u], r);
      } else {
        assert Tends(n.threads[a.thread], r);
      }
    }
  }

  lemma NextKeeps(s: State, a: Action)
    requires Consistent(s) && Enabled(s, a)
    ensures Consistent(Next(s, a))
  {
    NextKeepsGuarded(s, a);
    NextKeepsNumbered(s, a);
    NextKeepsRowsKept(s, a);
    NextKeepsTendersApart(s, a);
    NextKeepsTended(s, a);
  }

  /** Every state of every interleaving is consistent. */
  lemma {:induction false} AlwaysConsistent(s: State, acts: seq<Action>)
    requires Consistent(s) && ValidRun(s, acts)
    ensures Consistent(After(s, acts))
    decreases |acts|
  {
    if acts == [] {
    } else {
      NextKeeps(s, acts[0]);
      AlwaysConsistent(Next(s, acts[0]), acts[1..]);
    }
  }

  ghost function HoldersOf(s: State, owner: int): set<int> {
    set t | t in s.threads && Holds(s.threads[t], owner)
  }

  ghost function InFlight(s: State, owner: int): set<int> {
    set t | t in s.threads && s.threads[t].Working? && s.threads[t].owner == owner
  }

  lemma HolderCount(s: State, owner: int)
    requires Guarded(s)
    ensures |InFlight(s, owner)| <= 1
    ensures |HoldersOf(s, owner)| == if owner in s.running then 1 else 0
    ensures owner in s.running ==> s.threads != map[]
  {
    if owner in s.running {
      var t :| t in s.threads && Holds(s.threads[t], owner);
      forall u | u in s.threads && Holds(s.threads[u], owner) ensures u == t {
        assert Holds(s.threads[t], s.threads[u].owner);
      }
      assert HoldersOf(s, owner) == {t};
      assert InFlight(s, owner) == if s.threads[t].Working? then {t} else {};
    } else {
      forall u | u in s.threads ensures !Holds(s.threads[u], owner) {
      }
      assert HoldersOf(s, owner) == {};
      assert InFlight(s, owner) == {};
    }
  }

  /** In every interleaving, from an empty service: at most one archive or scan of an
      owner is in flight; an owner is in the map exactly while one starter or worker
      holds it; a row that says running has a thread that will close it or is lost;
      and once all threads have ended the map is empty and only lost rows say
      running. */
  lemma OneJobPerOwner(acts: seq<Action>, owner: int)
    requires ValidRun(Initial(), acts)
    ensures var s := After(Initial(), acts);
            && |InFlight(s, owner)| <= 1
            && |HoldersOf(s, owner)| == (if owner in s.running then 1 else 0)
            && (forall r :: r in s.rows && s.rows[r].status.Running? ==>
                  (r in s.lost <==> !exists t :: t in s.threads && Tends(s.threads[t], r)))
            && (s.threads == map[] ==> s.running == {} && RunningRows(s.rows) == s.lost)
  {
    AlwaysConsistent(Initial(), acts);
    var s := After(Initial(), acts);
    HolderCount(s, owner);
    if s.threads == map[] {
      forall o ensures o !in s.running {
        HolderCount(s, o);
      }
      assert s.running == {};
      forall r ensures r in RunningRows(s.rows) <==> r in s.lost {
      }
      assert RunningRows(s.rows) == s.lost;
    }
  }

  /** Every row that was stored could be read back, every outcome was written, and
      every restart closed the rows it found. */
  predicate Reliable(a: Action) {
    match a
    case CreateRow(_, insert) => !insert.StoredUnread?
    case UploadRow(_, _, insert) => !insert.StoredUnread?
    case Finish(_, _, recorded) => recorded
    case UploadDone(_, recorded) => recorded
    case Restart(closesRows) => closesRows
    case _ => true
  }

  lemma {:induction false} NothingLost(s: State, acts: seq<Action>)
    requires ValidRun(s, acts) && s.lost == {} && forall i :: 0 <= i < |acts| ==> Reliable(acts[i])
    ensures After(s, acts).lost == {}
    decreases |acts|
  {
    if acts == [] {
    } else {
      NothingLost(Next(s, acts[0]), acts[1..]);
    }
  }

  /** Start is refused exactly when somebody holds the owner or, where it asks the
      rows, one of the owner's says running. */
  lemma BusyExactlyWhenHeld(acts: seq<Action>, thread: int, owner: int, asksRows: bool)
    requires ValidRun(Initial(), acts) && Enabled(After(Initial(), acts), Acquire(thread, owner, asksRows))
    ensures var s := After(Initial(), acts);
            Next(s, Acquire(thread, owner, asksRows)) == s <==>
            HoldersOf(s, owner) != {} || (asksRows && HasRunningRow(s.rows, owner))
  {
    OneJobPerOwner(acts, owner);
    var s := After(Initial(), acts);
    if Free(s, owner, asksRows) {
      assert thread in Next(s, Acquire(thread, owner, asksRows)).threads;
    }
  }

  lemma ClosedRowStep(s: State, a: Action, r: int)
    requires Consistent(s) && Enabled(s, a) && r < s.nextRow
    requires r !in s.rows || !s.rows[r].status.Running?
    ensures var n := Next(s, a); r < n.nextRow && (r !in n.rows || !n.rows[r].status.Running?)
  {
  }

  /** A row never goes back to running: once it is closed, or gone, every later
      state of every run agrees, so a status read earlier is safe to act on. */
  lemma {:induction false} ClosedRowsStayClosed(s: State, acts: seq<Action>, r: int)
    requires Consistent(s) && ValidRun(s, acts) && r < s.nextRow
    requires r !in s.rows || !s.rows[r].status.Running?
    ensures var n := After(s, acts); r !in n.rows || !n.rows[r].status.Running?
    decreases |acts|
  {
    if acts == [] {
    } else {
      NextKeeps(s, acts[0]);
      ClosedRowStep(s, acts[0], r);
      ClosedRowsStayClosed(Next(s, acts[0]), acts[1..], r);
    }
  }

  // ----- what a row's status says ------------------------------------------------

  /** An outcome that is written is the worker's own: ready when the archive was made,
      failed when it was not. No other row changes, and the worker still holds its
      owner: to copy a good archive on, or else to give the owner back. */
  lemma OutcomeIsTheWorkers(s: State, thread: int, ok: bool)
    requires Consistent(s) && Enabled(s, Finish(thread, ok, true))
    ensures var n, r := Next(s, Finish(thread, ok, true)), s.threads[thread].row;
            && n.rows.Keys == s.rows.Keys
            && (r in s.rows ==> n.rows[r] == Row(s.threads[thread].owner, if ok then Ready else Failed))
            && (forall q :: q in s.rows && q != r ==> n.rows[q] == s.rows[q])
            && n.running == s.running && n.threads.Keys == s.threads.Keys
            && var owner := s.threads[thread].owner;
               n.threads[thread] == if ok then Finishing(owner) else Releasing(owner)
  {
  }

  /** What a restart does to rows: those left running fail where stale rows are closed,
      and nothing else changes. */
  lemma RestartRows(s: State, closesRows: bool)
    ensures var n := Next(s, Restart(closesRows));
            && n.running == {} && n.threads == map[] && n.rows.Keys == s.rows.Keys
            && forall r :: r in s.rows ==>
                 n.rows[r] ==
                 if closesRows && s.rows[r].status.Running? then Row(s.rows[r].owner, Failed) else s.rows[r]
  {
  }

  /** The step writes this outcome to this row: its worker's, its upload's, or a
      restart's. */
  predicate Closes(s: State, a: Action, r: int, status: Status) {
    match a
    case Finish(t, ok, recorded) =>
      && recorded && t in s.threads && s.threads[t].Working? && s.threads[t].row == r
      && status == if ok then Ready else Failed
    case UploadDone(t, recorded) =>
      recorded && t in s.threads && s.threads[t].Uploading? && s.threads[t].row == r && status == Ready
    case Restart(closesRows) => closesRows && status == Failed
    case _ => false
  }

  ghost predicate ClosedAlong(s: State, acts: seq<Action>, r: int, status: Status)
    requires ValidRun(s, acts)
    decreases |acts|
  {
    acts != [] && (Closes(s, acts[0], r, status) || ClosedAlong(Next(s, acts[0]), acts[1..], r, status))
  }

  lemma StatusStep(s: State, a: Action, r: int)
    requires Consistent(s) && Enabled(s, a) && r in Next(s, a).rows && !Next(s, a).rows[r].status.Running?
    ensures (r in s.rows && Next(s, a).rows[r] == s.rows[r]) || Closes(s, a, r, Next(s, a).rows[r].status)
  {
  }

  lemma {:induction false} ClosedByAStep(s: State, acts: seq<Action>, r: int)
    requires Consistent(s) && ValidRun(s, acts)
    requires r in After(s, acts).rows && !After(s, acts).rows[r].status.Running?
    ensures (r in s.rows && s.rows[r] == After(s, acts).rows[r])
            || ClosedAlong(s, acts, r, After(s, acts).rows[r].status)
    decreases |acts|
  {
    if acts == [] {
    } else {
      var n := Next(s, acts[0]);
      NextKeeps(s, acts[0]);
      ClosedByAStep(n, acts[1..], r);
      if r in n.rows && n.rows[r] == After(s, acts).rows[r] {
        StatusStep(s, acts[0], r);
      }
    }
  }

  /** In every run from an empty service a row says ready only if its own worker
      succeeded or its own upload was recorded, and failed only if its own worker failed
      or a restart closed it. */
  lemma StatusIsEarned(acts: seq<Action>, r: int)
    requires ValidRun(Initial(), acts)
    requires r in After(Initial(), acts).rows && !After(Initial(), acts).rows[r].status.Running?
    ensures ClosedAlong(Initial(), acts, r, After(Initial(), acts).rows[r].status)
  {
    ClosedByAStep(Initial(), acts, r);
  }

  /** And an outcome, once written, is never changed. */
  lemma OutcomeStands(s: State, a: Action, r: int)
    requires Consistent(s) && Enabled(s, a) && r in s.rows && !s.rows[r].status.Running?
    ensures r in Next(s, a).rows ==> Next(s, a).rows[r] == s.rows[r]
    ensures r !in Next(s, a).rows ==> a == Delete(r) || a == DeleteOwner(s.rows[r].owner)
  {
  }

  /** A delete that is not refused takes its row and no other; deleting an account takes
      its rows and no others. */
  lemma DeletesTakeTheirOwn(s: State, id: int, owner: int)
    ensures Next(s, Delete(id)).rows ==
            if id in s.rows && s.rows[id].status.Running? then s.rows else s.rows - {id}
    ensures forall r :: r in Next(s, DeleteOwner(owner)).rows <==> r in s.rows && s.rows[r].owner != owner
    ensures forall r :: r in Next(s, DeleteOwner(owner)).rows ==> Next(s, DeleteOwner(owner)).rows[r] == s.rows[r]
  {
  }

  /** Asking the rows as well, as the malware service does, where no row is filed
      without the guard: it refuses more than the map does exactly for the owners of
      lost rows, for whom nothing is running. */
  lemma RowCheckCatchesLostRows(acts: seq<Action>, owner: int)
    requires ValidRun(Initial(), acts)
    requires forall t :: t in After(Initial(), acts).threads ==> !After(Initial(), acts).threads[t].Uploading?
    ensures var s := After(Initial(), acts);
            Free(s, owner, false) && !Free(s, owner, true) <==>
            owner !in s.running && exists r :: r in s.lost && r in s.rows && s.rows[r].owner == owner
  {
    AlwaysConsistent(Initial(), acts);
    var s := After(Initial(), acts);
    if r :| r in s.rows && s.rows[r] == Row(owner, Running) && r !in s.lost {
      var t :| t in s.threads && Tends(s.threads[t], r);
    }
    if r :| r in s.lost && s.rows[r].owner == owner {
      assert s.rows[r] == Row(owner, Running);
    }
  }

  predicate Rescues(a: Action, owner: int) {
    match a
    case Restart(closesRows) => closesRows
    case DeleteOwner(o) => o == owner
    case _ => false
  }

  /** And such an owner is refused for good: until a restart closes the rows, which
      for scans none does, or the account is deleted, no run of any threads lets its
      next start through. */
  lemma {:induction false} LostRowBlocksForever(s: State, acts: seq<Action>, r: int)
    requires Consistent(s) && ValidRun(s, acts) && r in s.lost
    requires forall i :: 0 <= i < |acts| ==> !Rescues(acts[i], s.rows[r].owner)
    ensures var n := After(s, acts);
            && r in n.lost && r in n.rows && n.rows[r] == s.rows[r]
            && !Free(n, s.rows[r].owner, true)
    decreases |acts|
  {
    if acts == [] {
      assert s.rows[r] == Row(s.rows[r].owner, Running);
    } else {
      NextKeeps(s, acts[0]);
      assert !Rescues(acts[0], s.rows[r].owner);
      assert r in Next(s, acts[0]).lost && Next(s, acts[0]).rows[r] == s.rows[r];
      LostRowBlocksForever(Next(s, acts[0]), acts[1..], r);
    }
  }

  lemma AfterTwo(s: State, a: Action, b: Action)
    requires Enabled(s, a) && Enabled(Next(s, a), b)
    ensures ValidRun(s, [a, b]) && After(s, [a, b]) == Next(Next(s, a), b)
  {
    assert [a, b][1..] == [b] && [b][1..] == [];
    assert ValidRun(Next(s, a), [b]);
    assert After(Next(s, a), [b]) == Next(Next(s, a), b);
  }

  lemma {:induction false} AfterMore(s: State, acts: seq<Action>, a: Action)
    requires ValidRun(s, acts) && Enabled(After(s, acts), a)
    ensures ValidRun(s, acts + [a]) && After(s, acts + [a]) == Next(After(s, acts), a)
    decreases |acts|
  {
    if acts == [] {
      assert acts + [a] == [a] && [a][1..] == [];
      assert ValidRun(Next(s, a), []);
    } else {
      assert (acts + [a])[0] == acts[0] && (acts + [a])[1..] == acts[1..] + [a];
      AfterMore(Next(s, acts[0]), acts[1..], a);
    }
  }

  predicate Orphaned(s: State, r: int, owner: int) {
    r in s.lost && r in s.rows && s.rows[r] == Row(owner, Running)
  }

  /** One scan, from its start to the row being stored. */
  function ScanBegun(owner: int): seq<Action> {
    [Acquire(1, owner, true), CreateRow(1, Stored)]
  }

  /** Such rows are reached from an empty service: by a restart while a scan runs, and
      by a scan that fails and cannot write its outcome. Nobody then holds the owner,
      and the owner is refused. */
  lemma RowsAreLost(owner: int)
    ensures var acts := ScanBegun(owner) + [Restart(false)];
            && ValidRun(Initial(), acts)
            && var s := After(Initial(), acts);
               Orphaned(s, 0, owner) && HoldersOf(s, owner) == {} && !Free(s, owner, true)
    ensures var acts := ScanBegun(owner) + [Finish(1, false, false)] + [Release(1)];
            && ValidRun(Initial(), acts)
            && var s := After(Initial(), acts);
               Orphaned(s, 0, owner) && HoldersOf(s, owner) == {} && !Free(s, owner, true)
  {
    var begun := ScanBegun(owner);
    AfterTwo(Initial(), Acquire(1, owner, true), CreateRow(1, Stored));
    var s := After(Initial(), begun);
    assert s.threads == map[1 := Working(owner, 0)] && s.rows == map[0 := Row(owner, Running)];
    AfterMore(Initial(), begun, Restart(false));
    AfterMore(Initial(), begun, Finish(1, false, false));
    AfterMore(Initial(), begun + [Finish(1, false, false)], Release(1));
    var restarted := After(Initial(), begun + [Restart(false)]);
    var unwritten := After(Initial(), begun + [Finish(1, false, false)] + [Release(1)]);
    assert restarted.rows[0] == Row(owner, Running) && unwritten.rows[0] == Row(owner, Running);
    assert unwritten.threads == map[];
    assert HoldersOf(restarted, owner) == {} && HoldersOf(unwritten, owner) == {};
  }
}
