/** internal/backups/schedule.go and internal/malware/service.go: when a daily or
    weekly job is due, and what a sweep that ticks now and then makes of it. Time
    is nanoseconds since Go's zero time, in days of fixed length. */
module Schedules {
  import opened Wrappers

  const HOUR := 3_600_000_000_000
  const DAY := 24 * HOUR

  function Daily(): string { "daily" }
  function Weekly(): string { "weekly" }

  function DayOf(t: int): int { t / DAY }
  function HourOf(t: int): int { t % DAY / HOUR }

  /** Go's zero time is a Monday. */
  function WeekdayOf(t: int): int { (DayOf(t) + 1) % 7 }

  /** What both kinds of schedule have in common. */
  datatype Timing = Timing(enabled: bool, frequency: string, hour: int, weekday: int, lastRunAt: int)

  predicate ValidTiming(s: Timing) {
    && (s.frequency == Daily() || s.frequency == Weekly())
    && 0 <= s.hour <= 23 && 0 <= s.weekday <= 6
  }

  /** The hour has arrived, on the right day. */
  predicate Gate(s: Timing, now: int) {
    s.enabled && HourOf(now) >= s.hour && (s.frequency == Weekly() ==> WeekdayOf(now) == s.weekday)
  }

  function PeriodStart(s: Timing, now: int): int { DayOf(now) * DAY + s.hour * HOUR }

  predicate BackupDue(s: Timing, now: int) {
    Gate(s, now) && s.lastRunAt < PeriodStart(s, now)
  }

  /** The malware sweep's own start of period, with its step back of a week. */
  function MalwareStart(s: Timing, now: int): int {
    var start := PeriodStart(s, now);
    if s.frequency == Weekly() then
      var moved := start + (s.weekday - WeekdayOf(now)) * DAY;
      if moved > now then moved - 7 * DAY else moved
    else start
  }

  predicate MalwareDue(s: Timing, now: int) {
    Gate(s, now) && (s.lastRunAt == 0 || s.lastRunAt < MalwareStart(s, now))
  }

  // ----- the two decisions ---------------------------------------------------

  lemma HourArrived(s: Timing, now: int)
    requires Gate(s, now)
    ensures PeriodStart(s, now) <= now
  {
    assert now == DayOf(now) * DAY + now % DAY;
    assert now % DAY >= HourOf(now) * HOUR;
  }

  /** Reading a moment as a day, an hour and the rest. */
  lemma DayAndHour(d: int, h: int, r: int)
    requires 0 <= h < 24 && 0 <= r < 3_600_000_000_000
    ensures var t := d * 86_400_000_000_000 + h * 3_600_000_000_000 + r;
            DayOf(t) == d && HourOf(t) == h && WeekdayOf(t) == (d + 1) % 7
  {
    var t := d * DAY + h * HOUR + r;
    var rest := h * HOUR + r;
    assert 0 <= rest < DAY;
    assert t / DAY == d && t % DAY == rest;
    assert rest / HOUR == h;
  }

  /** 1 January 1970, the 719162nd day after Go's zero time, is a Thursday. */
  lemma EpochIsThursday()
    ensures WeekdayOf(719_162 * 86_400_000_000_000) == 4
  {
    DayAndHour(719_162, 0, 0);
  }

  /** When both decisions fire, said of the day d, the hour h and the rest of the moment:
      the schedule is on, its hour has come, a weekly one is on its day, and the last run
      was before that hour of that day, or, for a scan, never. */
  lemma DueExactly(s: Timing, d: int, h: int, r: int)
    requires 0 <= h < 24 && 0 <= r < 3_600_000_000_000
    ensures var t := d * 86_400_000_000_000 + h * 3_600_000_000_000 + r;
            var since := d * 86_400_000_000_000 + s.hour * 3_600_000_000_000;
            var open := s.enabled && h >= s.hour && (s.frequency == "weekly" ==> (d + 1) % 7 == s.weekday);
            && (BackupDue(s, t) <==> open && s.lastRunAt < since)
            && (MalwareDue(s, t) <==> open && (s.lastRunAt == 0 || s.lastRunAt < since))
  {
    DayAndHour(d, h, r);
    var t := d * DAY + h * HOUR + r;
    if Gate(s, t) {
      MalwareStartIsPeriodStart(s, t);
    }
  }

  /** The step back of a week never happens. */
  lemma MalwareStartIsPeriodStart(s: Timing, now: int)
    requires Gate(s, now)
    ensures MalwareStart(s, now) == PeriodStart(s, now) <= now
  {
    HourArrived(s, now);
  }

  /** The two decisions agree, but for one moment: a schedule that never ran, on
      the very day of Go's zero time. */
  lemma DueAgree(s: Timing, now: int)
    ensures BackupDue(s, now) == MalwareDue(s, now) <==>
            !(Gate(s, now) && s.lastRunAt == 0 && PeriodStart(s, now) <= 0)
  {
    if Gate(s, now) {
      MalwareStartIsPeriodStart(s, now);
    }
  }

  /** From the second day on they always agree. */
  lemma DueAgreeInPractice(s: Timing, now: int)
    requires ValidTiming(s) && now >= DAY
    ensures BackupDue(s, now) == MalwareDue(s, now)
  {
    DueAgree(s, now);
    assert DayOf(now) >= 1;
    assert DayOf(now) * DAY >= DAY;
  }

  lemma DueCanDisagree()
    ensures var s := Timing(true, Daily(), 0, 0, 0);
            ValidTiming(s) && !BackupDue(s, 0) && MalwareDue(s, 0)
  {
  }

  // ----- the backup sweep ----------------------------------------------------

  datatype BackupSchedule = BackupSchedule(
    ownerId: int, timing: Timing, keep: int, includeFiles: bool, includeDatabases: bool, lastError: string)

  /** A schedule after one sweep: stamped when it was due, whether or not its
      backup then started. */
  function Swept(s: BackupSchedule, now: int, starts: int -> Option<string>): BackupSchedule {
    if !BackupDue(s.timing, now) then s
    else
      s.(timing := s.timing.(lastRunAt := now),
         lastError := match starts(s.ownerId) case None => "" case Some(e) => e)
  }

  function SweptAll(ss: seq<BackupSchedule>, now: int, starts: int -> Option<string>): (r: seq<BackupSchedule>)
    ensures |r| == |ss| && forall i :: 0 <= i < |ss| ==> r[i] == Swept(ss[i], now, starts)
  {
    if ss == [] then [] else [Swept(ss[0], now, starts)] + SweptAll(ss[1..], now, starts)
  }

  function CountStarted(ss: seq<BackupSchedule>, now: int, starts: int -> Option<string>, ok: bool): nat {
    if ss == [] then 0
    else
      var last := ss[|ss| - 1];
      CountStarted(ss[..|ss| - 1], now, starts, ok)
      + (if BackupDue(last.timing, now) && starts(last.ownerId).None? == ok then 1 else 0)
  }

  function Counted(ss: seq<BackupSchedule>, now: int, starts: int -> Option<string>, ok: bool): set<int> {
    set i | 0 <= i < |ss| && BackupDue(ss[i].timing, now) && starts(ss[i].ownerId).None? == ok
  }

  lemma CountedNext(ss: seq<BackupSchedule>, now: int, starts: int -> Option<string>, ok: bool)
    requires ss != []
    ensures var n := |ss| - 1;
            var before := Counted(ss[..n], now, starts, ok);
            n !in before
            && Counted(ss, now, starts, ok) ==
               if BackupDue(ss[n].timing, now) && starts(ss[n].ownerId).None? == ok then before + {n} else before
  {
    var n := |ss| - 1;
    forall i | 0 <= i < n ensures ss[..n][i] == ss[i] {
    }
  }

  lemma {:induction false} CountStartedIs(ss: seq<BackupSchedule>, now: int, starts: int -> Option<string>, ok: bool)
    ensures CountStarted(ss, now, starts, ok) == |Counted(ss, now, starts, ok)|
  {
    if ss == [] {
      assert Counted(ss, now, starts, ok) == {};
    } else {
      CountedNext(ss, now, starts, ok);
      CountStartedIs(ss[..|ss| - 1], now, starts, ok);
    }
  }

  lemma CountsMean(ss: seq<BackupSchedule>, now: int, starts: int -> Option<string>)
    ensures CountStarted(ss, now, starts, true) ==
            |set i | 0 <= i < |ss| && BackupDue(ss[i].timing, now) && starts(ss[i].ownerId).None?|
    ensures CountStarted(ss, now, starts, false) ==
            |set i | 0 <= i < |ss| && BackupDue(ss[i].timing, now) && starts(ss[i].ownerId).Some?|
  {
    CountStartedIs(ss, now, starts, true);
    CountStartedIs(ss, now, starts, false);
    assert (set i | 0 <= i < |ss| && BackupDue(ss[i].timing, now) && starts(ss[i].ownerId).None?)
        == Counted(ss, now, starts, true);
    assert (set i | 0 <= i < |ss| && BackupDue(ss[i].timing, now) && starts(ss[i].ownerId).Some?)
        == Counted(ss, now, starts, false);
  }

  lemma SweptMeans(ss: seq<BackupSchedule>, now: int, starts: int -> Option<string>)
    ensures var after := SweptAll(ss, now, starts);
            && |after| == |ss|
            && (forall i :: 0 <= i < |ss| && !BackupDue(ss[i].timing, now) ==> after[i] == ss[i])
            && (forall i :: 0 <= i < |ss| && BackupDue(ss[i].timing, now) ==>
                  after[i] == ss[i].(timing := ss[i].timing.(lastRunAt := now),
                                     lastError :=
                                       if starts(ss[i].ownerId).Some? then starts(ss[i].ownerId).value else ""))
  {
  }

  /** The rows once the loop has been through the first k. */
  predicate PartSwept(listed: seq<BackupSchedule>, rows: seq<BackupSchedule>, now: int,
                      starts: int -> Option<string>, k: nat)
  {
    && |rows| == |listed|
    && forall i :: 0 <= i < |rows| ==> rows[i] == if i < k then Swept(listed[i], now, starts) else listed[i]
  }

  lemma CountNext(ss: seq<BackupSchedule>, now: int, starts: int -> Option<string>, k: nat)
    requires k < |ss|
    ensures forall ok :: CountStarted(ss[..k + 1], now, starts, ok) == CountStarted(ss[..k], now, starts, ok)
              + if BackupDue(ss[k].timing, now) && starts(ss[k].ownerId).None? == ok then 1 else 0
  {
    assert ss[..k + 1][..k] == ss[..k];
  }

  lemma AllSwept(listed: seq<BackupSchedule>, rows: seq<BackupSchedule>, now: int, starts: int -> Option<string>)
    requires PartSwept(listed, rows, now, starts, |listed|)
    ensures rows == SweptAll(listed, now, starts)
  {
  }

  class BackupSweep {
    var schedules: seq<BackupSchedule>

    /** `starts` is what Start says for an owner: nothing, or an error. */
    method RunDue(now: int, starts: int -> Option<string>) returns (started: nat, errs: nat)
      modifies this
      ensures |schedules| == |old(schedules)|
      ensures forall i :: 0 <= i < |schedules| && !BackupDue(old(schedules)[i].timing, now) ==>
                schedules[i] == old(schedules)[i]
      ensures forall i :: 0 <= i < |schedules| && BackupDue(old(schedules)[i].timing, now) ==>
                var was := old(schedules)[i];
                schedules[i] == was.(timing := was.timing.(lastRunAt := now),
                                     lastError := if starts(was.ownerId).Some? then starts(was.ownerId).value else "")
      ensures schedules == SweptAll(old(schedules), now, starts)
      ensures started == |set i | 0 <= i < |old(schedules)| && BackupDue(old(schedules)[i].timing, now)
                                  && starts(old(schedules)[i].ownerId).None?|
      ensures errs == |set i | 0 <= i < |old(schedules)| && BackupDue(old(schedules)[i].timing, now)
                               && starts(old(schedules)[i].ownerId).Some?|
    {
      var listed := schedules;
      started, errs := 0, 0;
      for k := 0 to |listed|
        invariant PartSwept(listed, schedules, now, starts, k)
        invariant started == CountStarted(listed[..k], now, starts, true)
        invariant errs == CountStarted(listed[..k], now, starts, false)
      {
        CountNext(listed, now, starts, k);
        if !BackupDue(listed[k].timing, now) {
          continue;
        }
        var err := StampAndStart(k, now, starts);
        if err.Some? {
          errs := errs + 1;
          continue;
        }
        started := started + 1;
      }
      assert listed[..|listed|] == listed;
      AllSwept(listed, schedules, now, starts);
      SweptMeans(listed, now, starts);
      CountsMean(listed, now, starts);
    }

    /** A due schedule is stamped before its start is tried, and given the error after. */
    method StampAndStart(k: nat, now: int, starts: int -> Option<string>) returns (err: Option<string>)
      requires k < |schedules| && BackupDue(schedules[k].timing, now)
      modifies this
      ensures err == starts(old(schedules)[k].ownerId)
      ensures schedules == old(schedules)[k := Swept(old(schedules)[k], now, starts)]
    {
      var sc := schedules[k];
      var stamped := sc.(timing := sc.timing.(lastRunAt := now), lastError := "");
      schedules := schedules[k := stamped];
      err := starts(sc.ownerId);
      if err.Some? {
        schedules := schedules[k := stamped.(lastError := err.value)];
      }
    }
  }

  /** A schedule's timing over a run of ticks. */
  function Stamp(s: Timing, now: int): Timing {
    if BackupDue(s, now) then s.(lastRunAt := now) else s
  }

  /** The days on which the sweep fires a schedule, in order. */
  function FireDays(s: Timing, ticks: seq<int>): seq<int>
    decreases |ticks|
  {
    if ticks == [] then []
    else (if BackupDue(s, ticks[0]) then [DayOf(ticks[0])] else []) + FireDays(Stamp(s, ticks[0]), ticks[1..])
  }

  /** The days with a tick at or after the hour, on the right weekday, whose period
      starts after the last run. */
  function OwedDays(s: Timing, ticks: seq<int>): set<int> {
    set i | 0 <= i < |ticks| && BackupDue(s, ticks[i]) :: DayOf(ticks[i])
  }

  predicate NonDecreasing(ticks: seq<int>) {
    forall i, j :: 0 <= i < j < |ticks| ==> ticks[i] <= ticks[j]
  }

  lemma DayOfMonotone(a: int, b: int)
    requires a <= b
    ensures DayOf(a) <= DayOf(b)
    ensures DayOf(a) < DayOf(b) ==> a < DayOf(b) * DAY
  {
    assert a == DayOf(a) * DAY + a % DAY && b == DayOf(b) * DAY + b % DAY;
  }

  /** Firing at t settles t's day and leaves every later owed day owed. */
  lemma FiringSettlesDay(s: Timing, t: int, later: int)
    requires ValidTiming(s) && BackupDue(s, t) && t <= later
    ensures BackupDue(Stamp(s, t), later) <==> BackupDue(s, later) && DayOf(later) != DayOf(t)
    ensures DayOf(t) <= DayOf(later)
  {
    HourArrived(s, t);
    DayOfMonotone(t, later);
  }

  lemma OwedAfterTick(s: Timing, ticks: seq<int>)
    requires ValidTiming(s) && NonDecreasing(ticks) && ticks != []
    ensures var t, rest := ticks[0], ticks[1..];
            OwedDays(s, ticks) ==
            if BackupDue(s, t) then {DayOf(t)} + OwedDays(Stamp(s, t), rest) else OwedDays(s, rest)
    ensures BackupDue(s, ticks[0]) ==>
              forall d :: d in OwedDays(Stamp(s, ticks[0]), ticks[1..]) ==> d > DayOf(ticks[0])
  {
    var t, rest := ticks[0], ticks[1..];
    assert forall i :: 0 <= i < |rest| ==> rest[i] == ticks[i + 1];
    if BackupDue(s, t) {
      forall i | 0 <= i < |rest|
        ensures BackupDue(Stamp(s, t), rest[i]) <==> BackupDue(s, rest[i]) && DayOf(rest[i]) != DayOf(t)
        ensures DayOf(t) <= DayOf(rest[i])
      {
        FiringSettlesDay(s, t, rest[i]);
      }
    }
    forall d | d in OwedDays(s, ticks)
      ensures d in if BackupDue(s, t) then {DayOf(t)} + OwedDays(Stamp(s, t), rest) else OwedDays(s, rest)
    {
      var i :| 0 <= i < |ticks| && BackupDue(s, ticks[i]) && DayOf(ticks[i]) == d;
      if i > 0 {
        assert rest[i - 1] == ticks[i];
      }
    }
    forall d | d in if BackupDue(s, t) then {DayOf(t)} + OwedDays(Stamp(s, t), rest) else OwedDays(s, rest)
      ensures d in OwedDays(s, ticks)
    {
      if !(BackupDue(s, t) && d == DayOf(t)) {
        var i :| 0 <= i < |rest| && BackupDue(Stamp(s, t), rest[i]) && DayOf(rest[i]) == d;
        assert ticks[i + 1] == rest[i];
      }
    }
  }

  function Elements(days: seq<int>): set<int> {
    set d | d in days
  }

  predicate Ascending(days: seq<int>) {
    forall i, j :: 0 <= i < j < |days| ==> days[i] < days[j]
  }

  lemma PrependDay(d: int, days: seq<int>)
    requires Ascending(days) && |Elements(days)| == |days|
    requires forall e :: e in Elements(days) ==> d < e
    ensures Ascending([d] + days) && |Elements([d] + days)| == 1 + |days|
    ensures Elements([d] + days) == {d} + Elements(days)
  {
    forall i | 0 <= i < |days| ensures d < days[i] {
      assert days[i] in Elements(days);
    }
    assert Elements([d] + days) == {d} + Elements(days);
    assert d !in Elements(days);
  }

  /** However late or bunched the ticks, a schedule fires exactly once on each day it
      is owed a run, and on no other. */
  lemma {:induction false} FiresOncePerOwedDay(s: Timing, ticks: seq<int>)
    requires ValidTiming(s) && NonDecreasing(ticks)
    ensures Elements(FireDays(s, ticks)) == OwedDays(s, ticks)
    ensures Ascending(FireDays(s, ticks))
    ensures |FireDays(s, ticks)| == |OwedDays(s, ticks)|
    decreases |ticks|
  {
    if ticks == [] {
    } else {
      var t, rest := ticks[0], ticks[1..];
      OwedAfterTick(s, ticks);
      FiresOncePerOwedDay(Stamp(s, t), rest);
      var more := FireDays(Stamp(s, t), rest);
      if BackupDue(s, t) {
        PrependDay(DayOf(t), more);
      } else {
        assert FireDays(s, ticks) == more;
      }
    }
  }

  /** A schedule that has never run fires once for each day with a tick at or after
      its hour, on its weekday when it is weekly. */
  lemma NeverRunFiresEveryDay(s: Timing, ticks: seq<int>)
    requires ValidTiming(s) && NonDecreasing(ticks) && s.lastRunAt == 0
    requires forall i :: 0 <= i < |ticks| ==> ticks[i] >= DAY
    ensures |FireDays(s, ticks)| == |set i | 0 <= i < |ticks| && Gate(s, ticks[i]) :: DayOf(ticks[i])|
  {
    FiresOncePerOwedDay(s, ticks);
    forall i | 0 <= i < |ticks| ensures BackupDue(s, ticks[i]) <==> Gate(s, ticks[i]) {
      assert DayOf(ticks[i]) >= 1;
      assert DayOf(ticks[i]) * DAY >= DAY;
    }
    assert OwedDays(s, ticks) == set i | 0 <= i < |ticks| && Gate(s, ticks[i]) :: DayOf(ticks[i]);
  }

  /** The days on which successive whole sweeps fire schedule i. */
  function SweepDays(ss: seq<BackupSchedule>, ticks: seq<int>, starts: seq<int -> Option<string>>, i: nat): seq<int>
    requires i < |ss| && |starts| == |ticks|
    decreases |ticks|
  {
    if ticks == [] then []
    else
      (if BackupDue(ss[i].timing, ticks[0]) then [DayOf(ticks[0])] else [])
      + SweepDays(SweptAll(ss, ticks[0], starts[0]), ticks[1..], starts[1..], i)
  }

  /** Neither the other schedules nor failing starts change when one fires: each
      owner's runs are those of its own schedule. */
  lemma {:induction false} SweepsAreIndependent(ss: seq<BackupSchedule>, ticks: seq<int>,
                                                starts: seq<int -> Option<string>>, i: nat)
    requires i < |ss| && |starts| == |ticks|
    ensures SweepDays(ss, ticks, starts, i) == FireDays(ss[i].timing, ticks)
    decreases |ticks|
  {
    if ticks == [] {
    } else {
      SweepsAreIndependent(SweptAll(ss, ticks[0], starts[0]), ticks[1..], starts[1..], i);
    }
  }

  // ----- the malware sweep ---------------------------------------------------

  datatype StartOutcome = Started | AlreadyRunning | Refused | NoOwner

  /** What a sweep may pick: a schedule that is due and starts, whenever there is
      one. The listing has no fixed order, so which one is open. */
  ghost predicate ValidPick(ss: seq<Timing>, now: int, startable: set<nat>, pick: Option<nat>) {
    match pick
    case Some(j) => j < |ss| && MalwareDue(ss[j], now) && j in startable
    case None => forall j :: 0 <= j < |ss| && j in startable ==> !MalwareDue(ss[j], now)
  }

  function AfterPick(ss: seq<Timing>, now: int, pick: Option<nat>): seq<Timing>
    requires pick.Some? ==> pick.value < |ss|
  {
    match pick
    case None => ss
    case Some(j) => ss[j := ss[j].(lastRunAt := now)]
  }

  function StartableRows(n: nat, outcomes: nat -> StartOutcome): set<nat> {
    set j: nat | j < n && outcomes(j).Started?
  }

  /** The due schedules among the first n that a sweep reports as errors. */
  function Faults(ss: seq<Timing>, now: int, outcomes: nat -> StartOutcome, n: nat): set<nat>
    requires n <= |ss|
  {
    set j: nat | j < n && MalwareDue(ss[j], now) && (outcomes(j).NoOwner? || outcomes(j).Refused?)
  }

  lemma FaultsNext(ss: seq<Timing>, now: int, outcomes: nat -> StartOutcome, n: nat)
    requires n < |ss|
    ensures |Faults(ss, now, outcomes, n + 1)| == |Faults(ss, now, outcomes, n)|
              + if MalwareDue(ss[n], now) && (outcomes(n).NoOwner? || outcomes(n).Refused?) then 1 else 0
  {
    var before := Faults(ss, now, outcomes, n);
    assert n !in before;
    assert Faults(ss, now, outcomes, n + 1) ==
           if MalwareDue(ss[n], now) && (outcomes(n).NoOwner? || outcomes(n).Refused?) then before + {n} else before;
  }

  class MalwareSweep {
    var schedules: seq<Timing>

    /** `outcomes` is what finding the owner and Start say for each row. The first due
        schedule whose scan starts is stamped, and the sweep ends there: at most one
        scan is started, no other schedule is touched, and each due schedule passed on
        the way whose owner was missing or whose scan was refused is an error. */
    method RunDue(now: int, outcomes: nat -> StartOutcome) returns (started: nat, errs: nat, ghost pick: Option<nat>)
      modifies this
      ensures ValidPick(old(schedules), now, StartableRows(|old(schedules)|, outcomes), pick)
      ensures pick.Some? ==>
                forall j :: 0 <= j < pick.value && MalwareDue(old(schedules)[j], now) ==> !outcomes(j).Started?
      ensures |schedules| == |old(schedules)|
      ensures forall j :: 0 <= j < |schedules| ==>
                schedules[j] == if pick == Some(j) then old(schedules)[j].(lastRunAt := now) else old(schedules)[j]
      ensures schedules == AfterPick(old(schedules), now, pick)
      ensures started == if pick.Some? then 1 else 0
      ensures errs == |set j: nat | j < (if pick.Some? then pick.value else |old(schedules)|)
                                    && MalwareDue(old(schedules)[j], now)
                                    && (outcomes(j).NoOwner? || outcomes(j).Refused?)|
    {
      started, errs, pick := 0, 0, None;
      var listed := schedules;
      for k := 0 to |listed|
        invariant schedules == listed && started == 0 && pick == None
        invariant forall j :: 0 <= j < k && outcomes(j).Started? ==> !MalwareDue(listed[j], now)
        invariant errs == |Faults(listed, now, outcomes, k)|
      {
        FaultsNext(listed, now, outcomes, k);
        if !MalwareDue(listed[k], now) {
          continue;
        }
        match outcomes(k) {
          case NoOwner => errs := errs + 1; continue;
          case AlreadyRunning => continue;
          case Refused => errs := errs + 1; continue;
          case Started =>
        }
        schedules := schedules[k := schedules[k].(lastRunAt := now)];
        started := 1;
        pick := Some(k);
        return;
      }
    }
  }

  /** A run of sweeps on one day. */
  ghost predicate SweepRun(ss: seq<Timing>, ticks: seq<int>, startable: seq<set<nat>>, picks: seq<Option<nat>>)
    requires |startable| == |picks| == |ticks|
    decreases |ticks|
  {
    ticks == [] ||
    (ValidPick(ss, ticks[0], startable[0], picks[0])
     && SweepRun(AfterPick(ss, ticks[0], picks[0]), ticks[1..], startable[1..], picks[1..]))
  }

  /** Schedules that could take a sweep up to time `until`: due by then, and not
      failing every time. */
  ghost function Contenders(ss: seq<Timing>, startable: seq<set<nat>>, until: int): set<nat> {
    set j: nat | j < |ss| && MalwareDue(ss[j], until) && exists k :: 0 <= k < |startable| && j in startable[k]
  }

  /** Within a day, what is due stays due until it runs. */
  lemma DueUntilRun(s: Timing, now: int, later: int)
    requires ValidTiming(s) && MalwareDue(s, now) && now <= later && DayOf(later) == DayOf(now)
    ensures MalwareDue(s, later)
  {
    assert now % DAY <= later % DAY;
    MalwareStartIsPeriodStart(s, now);
    MalwareStartIsPeriodStart(s, later);
  }

  lemma RunSettlesDay(s: Timing, now: int, later: int)
    requires MalwareDue(s, now) && 0 < now <= later && DayOf(later) == DayOf(now)
    ensures !MalwareDue(s.(lastRunAt := now), later)
  {
    HourArrived(s, now);
    if Gate(s, later) {
      MalwareStartIsPeriodStart(s.(lastRunAt := now), later);
    }
  }

  /** One scan at a time is still enough: a schedule due at the first of n sweeps of
      one day, whose starts succeed, is started by one of them, if no more than n
      schedules contend that day, whatever the listing order and whichever others
      fail. */
  lemma {:induction false} EveryDueScanStarts(
      ss: seq<Timing>, ticks: seq<int>, startable: seq<set<nat>>, picks: seq<Option<nat>>, i: nat, until: int)
    requires |startable| == |picks| == |ticks| && ticks != []
    requires forall j :: 0 <= j < |ss| ==> ValidTiming(ss[j])
    requires NonDecreasing(ticks) && ticks[0] > 0
    requires forall k :: 0 <= k < |ticks| ==> ticks[k] <= until && DayOf(ticks[k]) == DayOf(until)
    requires SweepRun(ss, ticks, startable, picks)
    requires i < |ss| && MalwareDue(ss[i], ticks[0])
    requires forall k :: 0 <= k < |startable| ==> i in startable[k]
    requires |Contenders(ss, startable, until)| <= |ticks|
    ensures exists k :: 0 <= k < |picks| && picks[k] == Some(i)
    decreases |ticks|
  {
    var now := ticks[0];
    var j := picks[0].value;
    if j != i {
      var ss' := AfterPick(ss, now, picks[0]);
      assert j in startable[0] && i in startable[0];
      DueUntilRun(ss[i], now, until);
      DueUntilRun(ss[j], now, until);
      RunSettlesDay(ss[j], now, until);
      var all := Contenders(ss, startable, until);
      var left := Contenders(ss', startable[1..], until);
      assert left <= all - {j} by {
        forall x | x in left ensures x in all && x != j {
          var k :| 0 <= k < |startable[1..]| && x in startable[1..][k];
          assert startable[k + 1] == startable[1..][k];
        }
      }
      SubsetCount(left, all - {j});
      assert {i, j} <= all;
      SubsetCount({i, j}, all);
      assert |ticks| >= 2 && ticks[1..][0] == ticks[1];
      DueUntilRun(ss[i], now, ticks[1]);
      EveryDueScanStarts(ss', ticks[1..], startable[1..], picks[1..], i, until);
      var k :| 0 <= k < |picks[1..]| && picks[1..][k] == Some(i);
      assert picks[k + 1] == Some(i);
    }
  }

  // ----- exactly when a due scan is started ------------------------------------

  /** The schedules a sweep at t could pick, where those of `startable` always start. */
  function DueNow(ss: seq<Timing>, startable: set<nat>, t: int): set<nat> {
    set j: nat | j < |ss| && j in startable && MalwareDue(ss[j], t)
  }

  function Always(startable: set<nat>, n: nat): seq<set<nat>> {
    seq(n, _ => startable)
  }

  ghost predicate OneDay(ss: seq<Timing>, ticks: seq<int>) {
    && (forall j :: 0 <= j < |ss| ==> ValidTiming(ss[j]))
    && NonDecreasing(ticks)
    && forall k :: 0 <= k < |ticks| ==> ticks[k] > 0 && DayOf(ticks[k]) == DayOf(ticks[0])
  }

  /** Some sweep comes when no more schedules are due than sweeps have been made,
      itself included. */
  predicate TurnComes(ss: seq<Timing>, ticks: seq<int>, startable: set<nat>) {
    exists k :: 0 <= k < |ticks| && |DueNow(ss, startable, ticks[k])| <= k + 1
  }

  /** Whatever is picked, schedule i is picked once. */
  ghost predicate StartedAlways(ss: seq<Timing>, ticks: seq<int>, startable: set<nat>, i: nat) {
    forall picks: seq<Option<nat>> ::
      |picks| == |ticks| && SweepRun(ss, ticks, Always(startable, |ticks|), picks) ==> Some(i) in picks
  }

  /** The start of a run is a run. */
  lemma {:induction false} SweepRunPrefix(ss: seq<Timing>, ticks: seq<int>, startable: set<nat>,
                                          picks: seq<Option<nat>>, n: nat)
    requires |picks| == |ticks| && n <= |ticks| && SweepRun(ss, ticks, Always(startable, |ticks|), picks)
    ensures SweepRun(ss, ticks[..n], Always(startable, n), picks[..n])
    decreases n
  {
    if n == 0 {
    } else {
      var all := Always(startable, |ticks|);
      assert all[1..] == Always(startable, |ticks[1..]|);
      SweepRunPrefix(AfterPick(ss, ticks[0], picks[0]), ticks[1..], startable, picks[1..], n - 1);
      assert ticks[..n][1..] == ticks[1..][..n - 1] && picks[..n][1..] == picks[1..][..n - 1];
      assert Always(startable, n)[1..] == Always(startable, n - 1);
    }
  }

  lemma FixedContenders(ss: seq<Timing>, startable: set<nat>, n: nat, until: int)
    requires n > 0
    ensures Contenders(ss, Always(startable, n), until) == DueNow(ss, startable, until)
  {
    var all := Always(startable, n);
    assert all[0] == startable;
    forall j ensures (exists k :: 0 <= k < |all| && j in all[k]) <==> j in startable {
    }
  }

  /** The sweeps up to the turn are enough to start it. */
  lemma TurnIsTaken(ss: seq<Timing>, ticks: seq<int>, startable: set<nat>, picks: seq<Option<nat>>, i: nat)
    requires OneDay(ss, ticks) && ticks != [] && |ticks| == |picks|
    requires SweepRun(ss, ticks, Always(startable, |ticks|), picks)
    requires i < |ss| && i in startable && MalwareDue(ss[i], ticks[0])
    requires |DueNow(ss, startable, ticks[|ticks| - 1])| <= |ticks|
    ensures Some(i) in picks
  {
    FixedContenders(ss, startable, |ticks|, ticks[|ticks| - 1]);
    EveryDueScanStarts(ss, ticks, Always(startable, |ticks|), picks, i, ticks[|ticks| - 1]);
  }

  /** A pick is due at no later sweep of the day, and the others are as before. */
  lemma DueAfterPick(ss: seq<Timing>, startable: set<nat>, j: nat, now: int, later: int)
    requires forall x :: 0 <= x < |ss| ==> ValidTiming(ss[x])
    requires j in DueNow(ss, startable, now) && 0 < now <= later && DayOf(later) == DayOf(now)
    ensures DueNow(ss[j := ss[j].(lastRunAt := now)], startable, later) == DueNow(ss, startable, later) - {j}
    ensures j in DueNow(ss, startable, later)
  {
    RunSettlesDay(ss[j], now, later);
    DueUntilRun(ss[j], now, later);
  }

  /** Where the turn never comes, a run that passes i over at every sweep. */
  lemma {:induction false} PassedOver(ss: seq<Timing>, ticks: seq<int>, startable: set<nat>, i: nat)
    returns (picks: seq<Option<nat>>)
    requires OneDay(ss, ticks) && !TurnComes(ss, ticks, startable)
    ensures |picks| == |ticks| && SweepRun(ss, ticks, Always(startable, |ticks|), picks)
    ensures Some(i) !in picks
    decreases |ticks|
  {
    if ticks == [] {
      picks := [];
    } else {
      var now, rest := ticks[0], ticks[1..];
      var j := AnotherDue(DueNow(ss, startable, now), i);
      var ss' := ss[j := ss[j].(lastRunAt := now)];
      forall k | 0 <= k < |rest| ensures |DueNow(ss', startable, rest[k])| > k + 1 {
        assert rest[k] == ticks[k + 1];
        DueAfterPick(ss, startable, j, now, ticks[k + 1]);
      }
      var more := PassedOver(ss', rest, startable, i);
      picks := [Some(j)] + more;
      assert picks[1..] == more;
      assert Always(startable, |ticks|)[1..] == Always(startable, |rest|);
    }
  }

  lemma AnotherDue(due: set<nat>, i: nat) returns (j: nat)
    requires |due| > 1
    ensures j in due && j != i
  {
    if due <= {i} {
      SubsetCount(due, {i});
    }
    j :| j in due && j != i;
  }

  lemma TakeMember(picks: seq<Option<nat>>, n: nat, p: Option<nat>)
    requires n <= |picks| && p in picks[..n]
    ensures p in picks
  {
  }

  /** A schedule due at the first sweep of a day, whose starts succeed, is started that
      day whatever the listing order if and only if some sweep comes when no more
      schedules are due than sweeps have been made. Hours, stamps and ticks decide it
      beforehand. */
  lemma StartedExactly(ss: seq<Timing>, ticks: seq<int>, startable: set<nat>, i: nat)
    requires OneDay(ss, ticks) && ticks != []
    requires i < |ss| && i in startable && MalwareDue(ss[i], ticks[0])
    ensures StartedAlways(ss, ticks, startable, i) <==> TurnComes(ss, ticks, startable)
  {
    if TurnComes(ss, ticks, startable) {
      var k :| 0 <= k < |ticks| && |DueNow(ss, startable, ticks[k])| <= k + 1;
      forall picks: seq<Option<nat>>
        | |picks| == |ticks| && SweepRun(ss, ticks, Always(startable, |ticks|), picks)
        ensures Some(i) in picks
      {
        var n := k + 1;
        SweepRunPrefix(ss, ticks, startable, picks, n);
        assert ticks[..n][0] == ticks[0] && ticks[..n][n - 1] == ticks[k];
        TurnIsTaken(ss, ticks[..n], startable, picks[..n], i);
        TakeMember(picks, n, Some(i));
      }
    } else {
      var picks := PassedOver(ss, ticks, startable, i);
    }
  }

  /** Counting only what is due at the first sweep is not enough: here two scans
      are due and two sweeps run, but a third schedule whose hour comes in between
      takes the second one. */
  lemma LaterHourTakesASweep()
    ensures var early := Timing(true, Daily(), 0, 0, 0);
            var late := Timing(true, Daily(), 1, 0, 0);
            var ss := [early, early, late];
            var ticks := [DAY, DAY + HOUR];
            var all: set<nat> := {0, 1, 2};
            && MalwareDue(ss[0], ticks[0]) && MalwareDue(ss[1], ticks[0]) && !MalwareDue(ss[2], ticks[0])
            && DayOf(ticks[0]) == DayOf(ticks[1])
            && ValidPick(ss, ticks[0], all, Some(1))
            && ValidPick(AfterPick(ss, ticks[0], Some(1)), ticks[1], all, Some(2))
  {
  }

  lemma {:induction false} SubsetCount(a: set<nat>, b: set<nat>)
    requires a <= b
    ensures |a| <= |b|
    decreases |a|
  {
    if a == {} {
    } else {
      var x :| x in a;
      SubsetCount(a - {x}, b - {x});
    }
  }
}
