/** internal/backups/schedule.go Prune and the rows it works on
    (internal/db/backups.go): scheduled archives beyond an account's retention are
    removed, whatever order the rows are stored in. */
module Retention {

  import opened Text

  datatype Kind = Manual | Scheduled | Uploaded

  datatype Status = Running | Ready | Failed

  /** `createdAt` is the stored text, which is what the query orders by. */
  datatype Backup = Backup(id: int, ownerId: int, kind: Kind, status: Status, createdAt: string)

  datatype Schedule = Schedule(ownerId: int, keep: int)

  /** The agent's answer to removing an archive file. */
  datatype Reply = Removed | Refused(error: string)

  predicate UniqueIds(rows: seq<Backup>) {
    forall i, j :: 0 <= i < j < |rows| ==> rows[i].id != rows[j].id
  }

  /** backup_schedules is keyed by owner. */
  predicate OnePerOwner(ss: seq<Schedule>) {
    forall i, j :: 0 <= i < j < |ss| ==> ss[i].ownerId != ss[j].ownerId
  }

  function Select(rows: seq<Backup>, wanted: Backup -> bool): seq<Backup> {
    if rows == [] then []
    else if wanted(rows[0]) then [rows[0]] + Select(rows[1..], wanted)
    else Select(rows[1..], wanted)
  }

  // ----- the query -----------------------------------------------------------

  predicate Eligible(b: Backup, owner: int) {
    b.ownerId == owner && b.kind.Scheduled? && b.status.Ready?
  }

  /** ORDER BY created_at DESC, id DESC puts `a` before `b`. */
  predicate Newer(a: Backup, b: Backup) {
    Less(b.createdAt, a.createdAt) || (a.createdAt == b.createdAt && b.id < a.id)
  }

  function Insert(b: Backup, ranked: seq<Backup>): seq<Backup> {
    if ranked == [] || Newer(b, ranked[0]) then [b] + ranked else [ranked[0]] + Insert(b, ranked[1..])
  }

  function Ranked(rows: seq<Backup>, owner: int): seq<Backup> {
    if rows == [] then []
    else if Eligible(rows[0], owner) then Insert(rows[0], Ranked(rows[1..], owner))
    else Ranked(rows[1..], owner)
  }

  function Retained(keep: int): (n: nat) {
    if keep < 1 then 1 else keep
  }

  function PrunableBackups(rows: seq<Backup>, owner: int, keep: int): seq<Backup> {
    var ranked := Ranked(rows, owner);
    if |ranked| <= Retained(keep) then [] else ranked[Retained(keep)..]
  }

  // ----- the service ---------------------------------------------------------

  predicate ContainsText(s: string, t: string) {
    t <= s || (s != "" && ContainsText(s[1..], t))
  }

  /** A file that is already gone is the wanted state. */
  predicate FileGone(r: Reply) {
    r.Removed? || ContainsText(r.error, "no such file")
  }

  lemma {:induction false} TextAround(s: string, t: string) returns (a: string, c: string)
    requires ContainsText(s, t)
    ensures s == a + t + c
  {
    if t <= s {
      a, c := "", s[|t|..];
    } else {
      a, c := TextAround(s[1..], t);
      assert s == [s[0]] + s[1..];
      a := [s[0]] + a;
    }
  }

  lemma {:induction false} TextWithin(a: string, t: string, c: string)
    ensures ContainsText(a + t + c, t)
  {
    if a == "" {
      assert t <= a + t + c;
    } else {
      assert (a + t + c)[1..] == a[1..] + t + c;
      TextWithin(a[1..], t, c);
    }
  }

  lemma ContainsTextExactly(s: string, t: string)
    ensures ContainsText(s, t) <==> exists a, c :: s == a + t + c
  {
    if ContainsText(s, t) {
      var a, c := TextAround(s, t);
    }
    if a, c :| s == a + t + c {
      TextWithin(a, t, c);
    }
  }

  lemma FileGoneExactly(r: Reply)
    ensures FileGone(r) <==> r.Removed? || exists a, c :: r.error == a + "no such file" + c
  {
    if r.Refused? {
      ContainsTextExactly(r.error, "no such file");
    }
  }

  /** Some schedule's query returns the row. */
  predicate Doomed(rows: seq<Backup>, ss: seq<Schedule>, b: Backup) {
    exists i :: 0 <= i < |ss| && b in PrunableBackups(rows, ss[i].ownerId, ss[i].keep)
  }

  function OtherThan(id: int): Backup -> bool {
    (b: Backup) => b.id != id
  }

  /** The rows left once those of `targets` whose file went away are removed. */
  function Spared(targets: seq<Backup>, agent: int -> Reply): Backup -> bool {
    (b: Backup) => !(b in targets && FileGone(agent(b.id)))
  }

  function Survivors(rows: seq<Backup>, ss: seq<Schedule>, agent: int -> Reply): Backup -> bool {
    (b: Backup) => !(Doomed(rows, ss, b) && FileGone(agent(b.id)))
  }

  function PrunableCount(rows: seq<Backup>, ss: seq<Schedule>): nat {
    if ss == [] then 0
    else PrunableCount(rows, ss[..|ss| - 1]) + |PrunableBackups(rows, ss[|ss| - 1].ownerId, ss[|ss| - 1].keep)|
  }

  class Store {
    var rows: seq<Backup>
    const schedules: seq<Schedule>

    ghost predicate Valid()
      reads this
    {
      UniqueIds(rows) && OnePerOwner(schedules)
    }

    constructor (rows: seq<Backup>, schedules: seq<Schedule>)
      requires UniqueIds(rows) && OnePerOwner(schedules)
      ensures Valid() && this.rows == rows && this.schedules == schedules
    {
      this.rows := rows;
      this.schedules := schedules;
    }

    /** Service.Delete: the archive first, then its row. */
    method Delete(b: Backup, reply: Reply) returns (ok: bool)
      requires Valid()
      modifies this
      ensures Valid()
      ensures ok <==> !b.status.Running? && FileGone(reply)
      ensures rows == if ok then Select(old(rows), OtherThan(b.id)) else old(rows)
    {
      if b.status.Running? || !FileGone(reply) {
        return false;
      }
      SelectUnique(rows, OtherThan(b.id));
      rows := Select(rows, OtherThan(b.id));
      return true;
    }

    /** Every row that some schedule's query returned when the pass began, and whose
        file went away, is gone; every other row is untouched and in its place; and
        each row the queries returned is counted once, as removed or as an error. */
    method Prune(agent: int -> Reply) returns (removed: nat, errs: nat)
      requires Valid()
      modifies this
      ensures Valid()
      ensures rows == Select(old(rows), Survivors(old(rows), schedules, agent))
      ensures removed == |old(rows)| - |rows|
      ensures removed + errs == PrunableCount(old(rows), schedules)
    {
      removed, errs := 0, 0;
      ghost var rows0 := rows;
      NoScheduleYet(rows0, agent);
      for k := 0 to |schedules|
        invariant Valid()
        invariant rows == Select(rows0, Survivors(rows0, schedules[..k], agent))
        invariant removed == |rows0| - |rows|
        invariant removed + errs == PrunableCount(rows0, schedules[..k])
      {
        var s := schedules[k];
        var targets := PrunableBackups(rows, s.ownerId, s.keep);
        OtherOwnersApart(rows0, schedules, agent, k);
        var r, e := PruneOne(targets, agent);
        NextOwner(rows0, schedules, agent, k);
        TakeNext(schedules, k);
        removed, errs := removed + r, errs + e;
      }
      TakeAll(schedules);
    }

    /** One schedule's archives. */
    method PruneOne(targets: seq<Backup>, agent: int -> Reply) returns (removed: nat, errs: nat)
      requires Valid() && UniqueIds(targets)
      requires forall b :: b in targets ==> b in rows && b.status.Ready?
      modifies this
      ensures Valid()
      ensures rows == Select(old(rows), Spared(targets, agent))
      ensures removed == |old(rows)| - |rows|
      ensures removed + errs == |targets|
    {
      removed, errs := 0, 0;
      ghost var rows0 := rows;
      NoTargetYet(rows0, targets, agent);
      for j := 0 to |targets|
        invariant Valid()
        invariant rows == Select(rows0, Spared(targets[..j], agent))
        invariant removed == |rows0| - |rows|
        invariant removed + errs == j
      {
        var b := targets[j];
        ghost var before := rows;
        var ok := Delete(b, agent(b.id));
        NextTarget(rows0, targets, agent, j);
        if ok {
          TargetStill(rows0, targets, agent, j);
          DeletedOne(before, b);
          removed := removed + 1;
        } else {
          errs := errs + 1;
        }
      }
      TakeAll(targets);
    }
  }

  // ----- selections ----------------------------------------------------------

  lemma {:induction false} SelectMembers(rows: seq<Backup>, f: Backup -> bool)
    ensures forall b :: b in Select(rows, f) <==> b in rows && f(b)
  {
    if rows == [] {
    } else {
      SelectMembers(rows[1..], f);
    }
  }

  lemma SelectCons(b: Backup, rest: seq<Backup>, f: Backup -> bool)
    ensures Select([b] + rest, f) == if f(b) then [b] + Select(rest, f) else Select(rest, f)
  {
    assert ([b] + rest)[1..] == rest;
  }

  lemma UniqueCons(b: Backup, rest: seq<Backup>)
    requires UniqueIds(rest) && forall c :: c in rest ==> c.id != b.id
    ensures UniqueIds([b] + rest)
  {
    var all := [b] + rest;
    forall i, j | 0 <= i < j < |all| ensures all[i].id != all[j].id {
      assert all[j] == rest[j - 1];
      if i > 0 {
        assert all[i] == rest[i - 1];
      }
    }
  }

  lemma {:induction false} SelectUnique(rows: seq<Backup>, f: Backup -> bool)
    requires UniqueIds(rows)
    ensures UniqueIds(Select(rows, f))
  {
    if rows == [] {
    } else {
      SelectMembers(rows[1..], f);
      SelectUnique(rows[1..], f);
      if f(rows[0]) {
        UniqueCons(rows[0], Select(rows[1..], f));
      }
    }
  }

  lemma {:induction false} SelectAll(rows: seq<Backup>, f: Backup -> bool)
    requires forall b :: b in rows ==> f(b)
    ensures Select(rows, f) == rows
  {
    if rows == [] {
    } else {
      SelectAll(rows[1..], f);
    }
  }

  lemma {:induction false} SelectSame(rows: seq<Backup>, f: Backup -> bool, g: Backup -> bool)
    requires forall b :: b in rows ==> f(b) == g(b)
    ensures Select(rows, f) == Select(rows, g)
  {
    if rows == [] {
    } else {
      SelectSame(rows[1..], f, g);
    }
  }

  lemma {:induction false} SelectTwice(rows: seq<Backup>, f: Backup -> bool, g: Backup -> bool, h: Backup -> bool)
    requires forall b :: b in rows ==> h(b) == (f(b) && g(b))
    ensures Select(Select(rows, f), g) == Select(rows, h)
  {
    if rows == [] {
    } else {
      SelectTwice(rows[1..], f, g, h);
      SelectCons(rows[0], Select(rows[1..], f), g);
    }
  }

  lemma {:induction false} DeletedOne(rows: seq<Backup>, b: Backup)
    requires UniqueIds(rows) && b in rows
    ensures |Select(rows, OtherThan(b.id))| == |rows| - 1
  {
    if rows[0] == b {
      SelectAll(rows[1..], OtherThan(b.id));
    } else {
      DeletedOne(rows[1..], b);
    }
  }

  lemma NoTargetYet(rows: seq<Backup>, targets: seq<Backup>, agent: int -> Reply)
    ensures Select(rows, Spared(targets[..0], agent)) == rows
  {
    SelectAll(rows, Spared(targets[..0], agent));
  }

  lemma TargetStill(rows: seq<Backup>, targets: seq<Backup>, agent: int -> Reply, j: nat)
    requires UniqueIds(targets) && j < |targets| && targets[j] in rows
    ensures targets[j] in Select(rows, Spared(targets[..j], agent))
  {
    SelectMembers(rows, Spared(targets[..j], agent));
  }

  lemma NextTarget(rows: seq<Backup>, targets: seq<Backup>, agent: int -> Reply, j: nat)
    requires UniqueIds(rows) && UniqueIds(targets) && j < |targets| && targets[j] in rows
    ensures var b := targets[j];
            Select(rows, Spared(targets[..j + 1], agent)) ==
            if FileGone(agent(b.id)) then Select(Select(rows, Spared(targets[..j], agent)), OtherThan(b.id))
            else Select(rows, Spared(targets[..j], agent))
  {
    var b := targets[j];
    TakeNext(targets, j);
    if FileGone(agent(b.id)) {
      forall c | c in rows
        ensures Spared(targets[..j + 1], agent)(c) == (Spared(targets[..j], agent)(c) && OtherThan(b.id)(c))
      {
      }
      SelectTwice(rows, Spared(targets[..j], agent), OtherThan(b.id), Spared(targets[..j + 1], agent));
    } else {
      SelectSame(rows, Spared(targets[..j], agent), Spared(targets[..j + 1], agent));
    }
  }

  // ----- the order -----------------------------------------------------------

  predicate Sorted(ranked: seq<Backup>) {
    forall i, j :: 0 <= i < j < |ranked| ==> Newer(ranked[i], ranked[j])
  }

  lemma NewerOrder(a: Backup, b: Backup, c: Backup)
    ensures a.id != b.id ==> Newer(a, b) || Newer(b, a)
    ensures Newer(a, b) ==> !Newer(b, a)
    ensures Newer(a, b) && Newer(b, c) ==> Newer(a, c)
  {
    LessTotal(a.createdAt, b.createdAt);
    if Newer(a, b) && Newer(b, a) {
      if Less(a.createdAt, b.createdAt) && Less(b.createdAt, a.createdAt) {
        LessTransitive(a.createdAt, b.createdAt, a.createdAt);
      }
      LessIrreflexive(a.createdAt);
    }
    if Newer(a, b) && Newer(b, c) && a.createdAt != b.createdAt && b.createdAt != c.createdAt {
      LessTransitive(c.createdAt, b.createdAt, a.createdAt);
    }
  }

  lemma {:induction false} InsertMembers(b: Backup, ranked: seq<Backup>)
    ensures forall c :: c in Insert(b, ranked) <==> c == b || c in ranked
  {
    if ranked == [] || Newer(b, ranked[0]) {
    } else {
      InsertMembers(b, ranked[1..]);
    }
  }

  lemma SortedCons(b: Backup, rest: seq<Backup>)
    requires Sorted(rest) && forall c :: c in rest ==> Newer(b, c)
    ensures Sorted([b] + rest)
  {
    var all := [b] + rest;
    forall i, j | 0 <= i < j < |all| ensures Newer(all[i], all[j]) {
      assert all[j] == rest[j - 1];
      if i > 0 {
        assert all[i] == rest[i - 1];
      }
    }
  }

  lemma InsertCons(b: Backup, c: Backup, rest: seq<Backup>)
    ensures Insert(b, [c] + rest) == if Newer(b, c) then [b] + ([c] + rest) else [c] + Insert(b, rest)
  {
    assert ([c] + rest)[1..] == rest;
  }

  lemma {:induction false} InsertSorts(b: Backup, ranked: seq<Backup>)
    requires Sorted(ranked) && UniqueIds(ranked) && forall c :: c in ranked ==> c.id != b.id
    ensures Sorted(Insert(b, ranked)) && UniqueIds(Insert(b, ranked))
  {
    if ranked == [] {
    } else if Newer(b, ranked[0]) {
      forall j | 0 <= j < |ranked| ensures Newer(b, ranked[j]) {
        NewerOrder(b, ranked[0], ranked[j]);
      }
      UniqueCons(b, ranked);
      SortedCons(b, ranked);
    } else {
      var rest := Insert(b, ranked[1..]);
      InsertMembers(b, ranked[1..]);
      InsertSorts(b, ranked[1..]);
      forall c | c in rest ensures Newer(ranked[0], c) && c.id != ranked[0].id {
        if c == b {
          NewerOrder(b, ranked[0], b);
        } else {
          var i :| 0 < i < |ranked| && ranked[i] == c;
        }
      }
      UniqueCons(ranked[0], rest);
      SortedCons(ranked[0], rest);
    }
  }

  lemma {:induction false} InsertSelect(b: Backup, ranked: seq<Backup>, f: Backup -> bool)
    requires Sorted(ranked)
    ensures Select(Insert(b, ranked), f) == if f(b) then Insert(b, Select(ranked, f)) else Select(ranked, f)
  {
    if ranked == [] {
    } else if Newer(b, ranked[0]) {
      var chosen := Select(ranked, f);
      SelectMembers(ranked, f);
      if chosen != [] {
        assert chosen[0] in ranked;
        NewerOrder(b, ranked[0], chosen[0]);
      }
      SelectCons(b, ranked, f);
    } else {
      InsertSelect(b, ranked[1..], f);
      SelectCons(ranked[0], Insert(b, ranked[1..]), f);
      InsertCons(b, ranked[0], Select(ranked[1..], f));
    }
  }

  /** The query returns the owner's ready scheduled rows, each once, newest first. */
  lemma {:induction false} RankedIs(rows: seq<Backup>, owner: int)
    requires UniqueIds(rows)
    ensures forall b :: b in Ranked(rows, owner) <==> b in rows && Eligible(b, owner)
    ensures Sorted(Ranked(rows, owner)) && UniqueIds(Ranked(rows, owner))
  {
    if rows == [] {
    } else {
      RankedIs(rows[1..], owner);
      if Eligible(rows[0], owner) {
        InsertMembers(rows[0], Ranked(rows[1..], owner));
        InsertSorts(rows[0], Ranked(rows[1..], owner));
      }
    }
  }

  lemma {:induction false} RankedSelect(rows: seq<Backup>, owner: int, f: Backup -> bool)
    requires UniqueIds(rows)
    ensures Ranked(Select(rows, f), owner) == Select(Ranked(rows, owner), f)
  {
    if rows == [] {
    } else {
      var rest := Select(rows[1..], f);
      RankedSelect(rows[1..], owner, f);
      RankedIs(rows[1..], owner);
      assert ([rows[0]] + rest)[1..] == rest;
      if Eligible(rows[0], owner) {
        InsertSelect(rows[0], Ranked(rows[1..], owner), f);
      }
    }
  }

  lemma PrunableOwner(rows: seq<Backup>, owner: int, keep: int)
    requires UniqueIds(rows)
    ensures UniqueIds(PrunableBackups(rows, owner, keep))
    ensures forall b :: b in PrunableBackups(rows, owner, keep) ==> b in rows && Eligible(b, owner)
  {
    RankedIs(rows, owner);
  }

  // ----- one pass ------------------------------------------------------------

  lemma NoScheduleYet(rows: seq<Backup>, agent: int -> Reply)
    ensures Select(rows, Survivors(rows, [], agent)) == rows
  {
    forall b ensures Survivors(rows, [], agent)(b) {
      assert !Doomed(rows, [], b);
    }
    SelectAll(rows, Survivors(rows, [], agent));
  }

  /** Earlier schedules belong to other owners, so their deletes do not change what
      this schedule's query returns. */
  lemma OtherOwnersApart(rows: seq<Backup>, ss: seq<Schedule>, agent: int -> Reply, k: nat)
    requires UniqueIds(rows) && OnePerOwner(ss) && k < |ss|
    ensures var now := Select(rows, Survivors(rows, ss[..k], agent));
            var targets := PrunableBackups(rows, ss[k].ownerId, ss[k].keep);
            && PrunableBackups(now, ss[k].ownerId, ss[k].keep) == targets
            && UniqueIds(targets)
            && forall b :: b in targets ==> b in now && b.status.Ready?
  {
    var f := Survivors(rows, ss[..k], agent);
    var owner := ss[k].ownerId;
    RankedIs(rows, owner);
    forall b | b in Ranked(rows, owner) ensures f(b) {
      if Doomed(rows, ss[..k], b) {
        var i :| 0 <= i < k && b in PrunableBackups(rows, ss[i].ownerId, ss[i].keep);
        PrunableOwner(rows, ss[i].ownerId, ss[i].keep);
      }
    }
    RankedSelect(rows, owner, f);
    SelectAll(Ranked(rows, owner), f);
    PrunableOwner(rows, owner, ss[k].keep);
    PrunableOwner(Select(rows, f), owner, ss[k].keep) by {
      SelectUnique(rows, f);
    }
  }

  lemma NextOwner(rows: seq<Backup>, ss: seq<Schedule>, agent: int -> Reply, k: nat)
    requires k < |ss|
    ensures var targets := PrunableBackups(rows, ss[k].ownerId, ss[k].keep);
            Select(Select(rows, Survivors(rows, ss[..k], agent)), Spared(targets, agent)) ==
            Select(rows, Survivors(rows, ss[..k + 1], agent))
  {
    var targets := PrunableBackups(rows, ss[k].ownerId, ss[k].keep);
    forall b ensures Doomed(rows, ss[..k + 1], b) == (Doomed(rows, ss[..k], b) || b in targets) {
      DoomedNext(rows, ss, k, b);
    }
    SelectTwice(rows, Survivors(rows, ss[..k], agent), Spared(targets, agent), Survivors(rows, ss[..k + 1], agent));
  }

  lemma DoomedNext(rows: seq<Backup>, ss: seq<Schedule>, k: nat, b: Backup)
    requires k < |ss|
    ensures Doomed(rows, ss[..k + 1], b) ==
            (Doomed(rows, ss[..k], b) || b in PrunableBackups(rows, ss[k].ownerId, ss[k].keep))
  {
    var before, after := ss[..k], ss[..k + 1];
    forall i | 0 <= i < k ensures before[i] == ss[i] == after[i] {
    }
    assert after[k] == ss[k];
  }

  // ----- what retention promises ---------------------------------------------

  function NewerThan(b: Backup, owner: int): Backup -> bool {
    (c: Backup) => Eligible(c, owner) && Newer(c, b)
  }

  function NewerCount(rows: seq<Backup>, b: Backup): nat {
    |Select(rows, NewerThan(b, b.ownerId))|
  }

  /** The ready scheduled backups of the same owner that are newer: created later, or at
      the same time with a higher id. */
  function NewerReady(rows: seq<Backup>, b: Backup): set<Backup> {
    set c | c in rows && c.ownerId == b.ownerId && c.kind.Scheduled? && c.status.Ready?
            && (Less(b.createdAt, c.createdAt) || (b.createdAt == c.createdAt && b.id < c.id))
  }

  lemma SetCons(rows: seq<Backup>, f: Backup -> bool)
    requires rows != []
    ensures var rest := set c | c in rows[1..] && f(c);
            (set c | c in rows && f(c)) == if f(rows[0]) then rest + {rows[0]} else rest
  {
    assert rows == [rows[0]] + rows[1..];
  }

  lemma {:induction false} SelectSize(rows: seq<Backup>, f: Backup -> bool)
    requires UniqueIds(rows)
    ensures |Select(rows, f)| == |set c | c in rows && f(c)|
  {
    if rows == [] {
      assert (set c | c in rows && f(c)) == {};
    } else {
      SelectSize(rows[1..], f);
      SetCons(rows, f);
      assert forall c :: c in rows[1..] ==> c != rows[0];
    }
  }

  lemma NewerCountIs(rows: seq<Backup>, b: Backup)
    requires UniqueIds(rows)
    ensures NewerCount(rows, b) == |NewerReady(rows, b)|
  {
    var f := NewerThan(b, b.ownerId);
    SelectSize(rows, f);
    assert NewerReady(rows, b) == set c | c in rows && f(c);
  }

  /** The query's list: the owner's ready scheduled rows, each once, newest first. */
  lemma QueryOrder(rows: seq<Backup>, owner: int)
    requires UniqueIds(rows)
    ensures var ranked := Ranked(rows, owner);
            && (forall b :: b in ranked <==> b in rows && b.ownerId == owner && b.kind.Scheduled? && b.status.Ready?)
            && UniqueIds(ranked)
            && forall i, j :: 0 <= i < j < |ranked| ==>
                 Less(ranked[j].createdAt, ranked[i].createdAt)
                 || (ranked[j].createdAt == ranked[i].createdAt && ranked[j].id < ranked[i].id)
  {
    RankedIs(rows, owner);
    var ranked := Ranked(rows, owner);
    forall i, j | 0 <= i < j < |ranked|
      ensures Less(ranked[j].createdAt, ranked[i].createdAt)
              || (ranked[j].createdAt == ranked[i].createdAt && ranked[j].id < ranked[i].id)
    {
      assert Newer(ranked[i], ranked[j]);
    }
  }

  lemma {:induction false} InsertCounts(b: Backup, ranked: seq<Backup>, f: Backup -> bool)
    ensures |Select(Insert(b, ranked), f)| == |Select(ranked, f)| + if f(b) then 1 else 0
  {
    if ranked == [] || Newer(b, ranked[0]) {
    } else {
      InsertCounts(b, ranked[1..], f);
    }
  }

  lemma {:induction false} RankedCounts(rows: seq<Backup>, owner: int, f: Backup -> bool)
    requires forall b :: b in rows && f(b) ==> Eligible(b, owner)
    ensures |Select(Ranked(rows, owner), f)| == |Select(rows, f)|
  {
    if rows == [] {
    } else {
      RankedCounts(rows[1..], owner, f);
      if Eligible(rows[0], owner) {
        InsertCounts(rows[0], Ranked(rows[1..], owner), f);
      }
    }
  }

  lemma {:induction false} PrefixCount(rows: seq<Backup>, f: Backup -> bool, n: nat)
    requires n <= |rows|
    requires forall i :: 0 <= i < |rows| ==> f(rows[i]) == (i < n)
    ensures |Select(rows, f)| == n
  {
    if rows == [] {
    } else {
      PrefixCount(rows[1..], f, if n == 0 then 0 else n - 1);
    }
  }

  /** A row's place in the query's order is the number of newer rows. */
  lemma PlaceIsCount(rows: seq<Backup>, owner: int, i: nat)
    requires UniqueIds(rows) && i < |Ranked(rows, owner)|
    ensures Ranked(rows, owner)[i].ownerId == owner && NewerCount(rows, Ranked(rows, owner)[i]) == i
  {
    var ranked := Ranked(rows, owner);
    var b := ranked[i];
    RankedIs(rows, owner);
    assert b in ranked;
    forall j | 0 <= j < |ranked| ensures NewerThan(b, owner)(ranked[j]) == (j < i) {
      assert ranked[j] in ranked;
      NewerOrder(b, ranked[j], b);
    }
    PrefixCount(ranked, NewerThan(b, owner), i);
    RankedCounts(rows, owner, NewerThan(b, owner));
  }

  /** The query returns exactly the owner's ready scheduled rows that have at least
      `keep` newer ones, and never the newest of all. */
  lemma PrunableExactly(rows: seq<Backup>, owner: int, keep: int, b: Backup)
    requires UniqueIds(rows)
    ensures b in PrunableBackups(rows, owner, keep) <==>
            && b in rows && b.ownerId == owner && b.kind.Scheduled? && b.status.Ready?
            && |NewerReady(rows, b)| >= 1 && |NewerReady(rows, b)| >= keep
  {
    var ranked := Ranked(rows, owner);
    RankedIs(rows, owner);
    NewerCountIs(rows, b);
    if b in ranked {
      var i :| 0 <= i < |ranked| && ranked[i] == b;
      PlaceIsCount(rows, owner, i);
      if i >= Retained(keep) {
        assert ranked[Retained(keep)..][i - Retained(keep)] == b;
      }
    }
  }

  lemma DoomedExactly(rows: seq<Backup>, ss: seq<Schedule>, i: nat, b: Backup)
    requires UniqueIds(rows) && OnePerOwner(ss) && i < |ss| && b in rows && Eligible(b, ss[i].ownerId)
    ensures Doomed(rows, ss, b) <==> |NewerReady(rows, b)| >= 1 && |NewerReady(rows, b)| >= ss[i].keep
  {
    PrunableExactly(rows, ss[i].ownerId, ss[i].keep, b);
    if Doomed(rows, ss, b) {
      var j :| 0 <= j < |ss| && b in PrunableBackups(rows, ss[j].ownerId, ss[j].keep);
      PrunableOwner(rows, ss[j].ownerId, ss[j].keep);
      assert i == j;
    }
  }

  /** What is left after a pass, whatever the agent answered. A manual, uploaded, running
      or failed row, or one of an owner without a schedule, stays. So does the newest
      ready scheduled row of each owner, and any with fewer than `keep` newer ones; the
      others go unless their file could not be removed. */
  lemma PassExactly(rows: seq<Backup>, ss: seq<Schedule>, agent: int -> Reply, b: Backup)
    requires UniqueIds(rows) && OnePerOwner(ss) && b in rows
    ensures var left := Select(rows, Survivors(rows, ss, agent));
            && (!b.kind.Scheduled? || !b.status.Ready? || (forall i :: 0 <= i < |ss| ==> b.ownerId != ss[i].ownerId)
                ==> b in left)
            && (forall i :: 0 <= i < |ss| && b.ownerId == ss[i].ownerId && b.kind.Scheduled? && b.status.Ready? ==>
                  (b in left <==> || NewerReady(rows, b) == {} || |NewerReady(rows, b)| < ss[i].keep
                                  || !FileGone(agent(b.id))))
  {
    SelectMembers(rows, Survivors(rows, ss, agent));
    forall i | 0 <= i < |ss| && Eligible(b, ss[i].ownerId)
      ensures Doomed(rows, ss, b) <==> |NewerReady(rows, b)| >= 1 && |NewerReady(rows, b)| >= ss[i].keep
    {
      DoomedExactly(rows, ss, i, b);
    }
    if Doomed(rows, ss, b) {
      var j :| 0 <= j < |ss| && b in PrunableBackups(rows, ss[j].ownerId, ss[j].keep);
      PrunableOwner(rows, ss[j].ownerId, ss[j].keep);
    }
  }

  function Failed(agent: int -> Reply): Backup -> bool {
    (b: Backup) => !FileGone(agent(b.id))
  }

  lemma {:induction false} SelectPrefix(rows: seq<Backup>, f: Backup -> bool, n: nat)
    requires n <= |rows| && forall i :: 0 <= i < n ==> f(rows[i])
    ensures Select(rows, f) == rows[..n] + Select(rows[n..], f)
  {
    if n > 0 {
      SelectPrefix(rows[1..], f, n - 1);
      assert rows[1..][n - 1..] == rows[n..];
      assert [rows[0]] + rows[1..][..n - 1] == rows[..n];
      Associate([rows[0]], rows[1..][..n - 1], Select(rows[n..], f));
    } else {
      assert rows[0..] == rows;
    }
  }

  function Fewer(a: nat, b: nat): nat {
    if a < b then a else b
  }

  /** After a pass the newest `keep` of each scheduled owner lead its list, followed
      by the rows whose file could not be removed; those are exactly what the next
      pass is offered. */
  lemma AfterPass(rows: seq<Backup>, ss: seq<Schedule>, agent: int -> Reply, i: nat)
    requires UniqueIds(rows) && OnePerOwner(ss) && i < |ss|
    ensures var left := Select(rows, Survivors(rows, ss, agent));
            var ranked := Ranked(rows, ss[i].ownerId);
            var kept := Fewer(|ranked|, if ss[i].keep < 1 then 1 else ss[i].keep);
            var retry := Select(PrunableBackups(rows, ss[i].ownerId, ss[i].keep), Failed(agent));
            && Ranked(left, ss[i].ownerId) == ranked[..kept] + retry
            && PrunableBackups(left, ss[i].ownerId, ss[i].keep) == retry
  {
    var owner := ss[i].ownerId;
    var f := Survivors(rows, ss, agent);
    var ranked := Ranked(rows, owner);
    var kept := Fewer(|ranked|, Retained(ss[i].keep));
    RankedIs(rows, owner);
    RankedSelect(rows, owner, f);
    forall j | 0 <= j < |ranked| ensures f(ranked[j]) == (j < kept || Failed(agent)(ranked[j])) {
      assert ranked[j] in ranked;
      PlaceIsCount(rows, owner, j);
      NewerCountIs(rows, ranked[j]);
      DoomedExactly(rows, ss, i, ranked[j]);
    }
    SelectPrefix(ranked, f, kept);
    SelectSame(ranked[kept..], f, Failed(agent));
    var retry := Select(ranked[kept..], Failed(agent));
    assert (ranked[..kept] + retry)[kept..] == retry;
  }

  /** A pass whose deletes all succeed leaves each scheduled owner exactly the `keep`
      newest ready scheduled rows, and an immediate second pass removes nothing,
      whatever the agent would answer. */
  lemma SecondPassIdle(rows: seq<Backup>, ss: seq<Schedule>, agent: int -> Reply, later: int -> Reply)
    requires UniqueIds(rows) && OnePerOwner(ss)
    requires forall b :: b in rows ==> FileGone(agent(b.id))
    ensures var left := Select(rows, Survivors(rows, ss, agent));
            && Select(left, Survivors(left, ss, later)) == left
            && PrunableCount(left, ss) == 0
            && forall i :: 0 <= i < |ss| ==>
                 var ranked := Ranked(rows, ss[i].ownerId);
                 var now := Ranked(left, ss[i].ownerId);
                 && (ss[i].keep >= 1 ==> now == if |ranked| <= ss[i].keep then ranked else ranked[..ss[i].keep])
                 && (ss[i].keep < 1 ==> now == if ranked == [] then [] else [ranked[0]])
  {
    var left := Select(rows, Survivors(rows, ss, agent));
    forall i | 0 <= i < |ss|
      ensures PrunableBackups(left, ss[i].ownerId, ss[i].keep) == []
      ensures var ranked := Ranked(rows, ss[i].ownerId);
              var now := Ranked(left, ss[i].ownerId);
              && (ss[i].keep >= 1 ==> now == if |ranked| <= ss[i].keep then ranked else ranked[..ss[i].keep])
              && (ss[i].keep < 1 ==> now == if ranked == [] then [] else [ranked[0]])
    {
      AfterPass(rows, ss, agent, i);
      PrunableOwner(rows, ss[i].ownerId, ss[i].keep);
      SelectNone(PrunableBackups(rows, ss[i].ownerId, ss[i].keep), Failed(agent));
    }
    NothingPrunable(left, ss, later);
  }

  lemma {:induction false} SelectNone(rows: seq<Backup>, f: Backup -> bool)
    requires forall b :: b in rows ==> !f(b)
    ensures Select(rows, f) == []
  {
    if rows == [] {
    } else {
      SelectNone(rows[1..], f);
    }
  }

  lemma {:induction false} NothingPrunable(rows: seq<Backup>, ss: seq<Schedule>, agent: int -> Reply)
    requires forall i :: 0 <= i < |ss| ==> PrunableBackups(rows, ss[i].ownerId, ss[i].keep) == []
    ensures Select(rows, Survivors(rows, ss, agent)) == rows && PrunableCount(rows, ss) == 0
  {
    forall b ensures Survivors(rows, ss, agent)(b) {
      assert !Doomed(rows, ss, b);
    }
    SelectAll(rows, Survivors(rows, ss, agent));
    if ss == [] {
    } else {
      NothingPrunable(rows, ss[..|ss| - 1], agent);
    }
  }
}
