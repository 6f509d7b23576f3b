/** internal/cron/cron.go ValidateSchedule, ValidateCommand and Validate: which
    schedules, commands and notes they let through, stated on the texts. */
module CronFields {
  import opened Wrappers
  import opened Text
  import opened Cron
  import opened CronRoundTrip

  // ----- values --------------------------------------------------------------

  /** Minute, hour, day of the month, month and day of the week. */
  function Lowest(i: nat): int { if i == 2 || i == 3 then 1 else 0 }

  function Highest(i: nat): int {
    if i == 0 then 59 else if i == 1 then 23 else if i == 2 then 31 else if i == 3 then 12 else 7
  }

  predicate Digits(s: string) {
    s != "" && forall i :: 0 <= i < |s| ==> '0' <= s[i] <= '9'
  }

  /** Decimal notation: a further digit is worth itself, and the ones before it ten
      times as much. */
  lemma DecimalValue(s: string, d: nat)
    requires d <= 9 && forall i :: 0 <= i < |s| ==> '0' <= s[i] <= '9'
    ensures DigitsValue(s + [('0' as int + d) as char]) == 10 * DigitsValue(s) + d
    ensures DigitsValue("") == 0
  {
    var c := ('0' as int + d) as char;
    assert (s + [c])[..|s|] == s;
  }

  lemma DigitsAreNoName(s: string)
    requires Digits(s)
    ensures ToLower(s) !in Months() && ToLower(s) !in Weekdays()
  {
    assert LowerChar(s[0]) == s[0];
    assert ToLower(s)[0] == s[0];
  }

  /** A number stands for itself when it is in the position's range. */
  lemma NumberValue(s: string, i: nat)
    requires Digits(s) && i < 5
    ensures FieldValue(s, FieldAt(i)) ==
            if Lowest(i) <= DigitsValue(s) <= Highest(i) then Some(DigitsValue(s)) else None
  {
    DigitsAreNoName(s);
    assert Atoi(s) == if DigitsValue(s) <= MAX_INT64 then Some(DigitsValue(s)) else None;
  }

  function MonthName(k: nat): string
    requires 1 <= k <= 12
  {
    ["jan", "feb", "mar", "apr", "may", "jun", "jul", "aug", "sep", "oct", "nov", "dec"][k - 1]
  }

  function WeekdayName(k: nat): string
    requires k <= 6
  {
    ["sun", "mon", "tue", "wed", "thu", "fri", "sat"][k]
  }

  lemma MonthNumber(k: nat)
    requires 1 <= k <= 12
    ensures MonthName(k) in Months() && Months()[MonthName(k)] == k
  {
  }

  lemma WeekdayNumber(k: nat)
    requires k <= 6
    ensures WeekdayName(k) in Weekdays() && Weekdays()[WeekdayName(k)] == k
  {
  }

  /** Months and weekdays may be named, in any case, in their own positions only. */
  lemma MonthValue(s: string, k: nat)
    requires 1 <= k <= 12 && ToLower(s) == MonthName(k)
    ensures FieldValue(s, FieldAt(3)) == Some(k)
  {
    MonthNumber(k);
  }

  lemma WeekdayValue(s: string, k: nat)
    requires k <= 6 && ToLower(s) == WeekdayName(k)
    ensures FieldValue(s, FieldAt(4)) == Some(k)
  {
    WeekdayNumber(k);
  }

  lemma NoNamesBefore(s: string, i: nat)
    requires i < 3 && s != "" && ('a' <= s[0] <= 'z' || 'A' <= s[0] <= 'Z')
    ensures FieldValue(s, FieldAt(i)) == None
  {
    assert s[0] in s && !IsDigit(s[0]);
  }

  // ----- items ---------------------------------------------------------------

  /** No comma, slash or dash. */
  predicate Plain(s: string) {
    ',' !in s && '/' !in s && '-' !in s
  }

  lemma OneItem(part: string, f: FieldRange)
    requires ',' !in part
    ensures ValidField(part, f) == ValidItem(part, f)
  {
    var parts := Split(part, ',');
    assert parts == [part] && parts[0] == part;
    if ValidItem(part, f) {
      forall k | 0 <= k < |parts| ensures ValidItem(parts[k], f) {
      }
    }
    assert ValidField(part, f) ==> ValidItem(parts[0], f);
  }

  /** A star, or one value. */
  lemma SingleField(a: string, i: nat)
    requires Plain(a) && i < 5
    ensures ValidField(a, FieldAt(i)) <==> a == "*" || FieldValue(a, FieldAt(i)).Some?
  {
    OneItem(a, FieldAt(i));
    assert IndexOf(a, '/') < 0 && IndexOf(a, '-') < 0;
    if a == "" {
      assert Atoi(a) == None;
      assert ToLower(a) == "" && "" !in Months() && "" !in Weekdays();
    }
  }

  lemma DashSplits(a: string, b: string)
    requires Plain(a) && Plain(b)
    ensures var r := a + "-" + b;
            IndexOf(r, '-') == |a| && r[..|a|] == a && r[|a| + 1..] == b && ',' !in r && '/' !in r
  {
    var r := a + "-" + b;
    assert r[|a|] == '-';
    forall j | 0 <= j < |a| ensures r[j] != '-' {
      assert r[j] == a[j] && a[j] in a;
    }
    IndexOfIs(r, '-', |a|);
  }

  /** A range of two values, the lower first. An end left out is no end: `5-` is `5`. */
  lemma RangeField(a: string, b: string, i: nat)
    requires Plain(a) && Plain(b) && i < 5
    ensures var lo, hi := FieldValue(a, FieldAt(i)), FieldValue(b, FieldAt(i));
            ValidField(a + "-" + b, FieldAt(i)) <==>
            lo.Some? && (b == "" || (hi.Some? && lo.value <= hi.value))
  {
    var r := a + "-" + b;
    DashSplits(a, b);
    OneItem(r, FieldAt(i));
    assert IndexOf(r, '/') < 0;
    assert r != "*" by { assert r[|a|] == '-'; }
  }

  lemma SlashSplits(base: string, step: string)
    requires '/' !in base && ',' !in base && ',' !in step
    ensures var item := base + "/" + step;
            IndexOf(item, '/') == |base| && item[..|base|] == base && item[|base| + 1..] == step && ',' !in item
  {
    var item := base + "/" + step;
    assert item[|base|] == '/';
    forall j | 0 <= j < |base| ensures item[j] != '/' {
      assert item[j] == base[j] && base[j] in base;
    }
    IndexOfIs(item, '/', |base|);
  }

  lemma EmptyIsNoRange(i: nat)
    requires i < 5
    ensures !ValidRange("", FieldAt(i)) && !ValidItem("", FieldAt(i))
  {
    assert ToLower("") == "" && "" !in Months() && "" !in Weekdays();
    assert Atoi("") == None;
    assert IndexOf("", '-') < 0;
  }

  lemma BaseItem(base: string, i: nat)
    requires '/' !in base && i < 5
    ensures ValidItem(base, FieldAt(i)) <==> base == "*" || ValidRange(base, FieldAt(i))
  {
    EmptyIsNoRange(i);
    assert IndexOf(base, '/') < 0;
  }

  lemma StepNumber(step: string, i: nat)
    requires Digits(step) && i < 5
    ensures ValidStep(step, FieldAt(i)) <==> 1 <= DigitsValue(step) <= Highest(i)
  {
    assert Atoi(step) == if DigitsValue(step) <= MAX_INT64 then Some(DigitsValue(step)) else None;
  }

  /** A step, on a star, a value or a range, between one and the position's highest. */
  lemma StepField(base: string, step: string, i: nat)
    requires ',' !in base && '/' !in base && Digits(step) && i < 5
    ensures ValidField(base + "/" + step, FieldAt(i)) <==>
            ValidField(base, FieldAt(i)) && 1 <= DigitsValue(step) <= Highest(i)
  {
    SlashSplits(base, step);
    OneItem(base + "/" + step, FieldAt(i));
    OneItem(base, FieldAt(i));
    BaseItem(base, i);
    StepNumber(step, i);
  }

  /** A list is valid when each item is. */
  lemma ListField(a: string, b: string, i: nat)
    requires ',' !in a && i < 5
    ensures ValidField(a + "," + b, FieldAt(i)) <==> ValidField(a, FieldAt(i)) && ValidField(b, FieldAt(i))
  {
    var parts := Split(b, ',');
    SplitCons(a, ',', b);
    var all := Split(a + "," + b, ',');
    assert all == [a] + parts;
    OneItem(a, FieldAt(i));
    if ValidField(a + "," + b, FieldAt(i)) {
      assert ValidItem(all[0], FieldAt(i));
      forall k | 0 <= k < |parts| ensures ValidItem(parts[k], FieldAt(i)) {
        assert all[k + 1] == parts[k];
      }
    }
  }

  /** A schedule is five valid fields, and no `@` shorthand. */
  lemma ScheduleIsFiveFields(ws: seq<string>)
    requires ws != [] && IsWord(ws[0]) && forall i :: 0 <= i < |ws| ==> IsWord(ws[i])
    ensures ValidSchedule(JoinSpace(ws)) <==>
            ws[0][0] != '@' && |ws| == 5 && forall i :: 0 <= i < 5 ==> ValidField(ws[i], FieldAt(i))
  {
    FieldsJoin(ws);
    JoinShape(ws);
    TrimTight(JoinSpace(ws));
  }

  // ----- commands and notes --------------------------------------------------

  predicate Printing(s: string) {
    forall i :: 0 <= i < |s| ==> ' ' <= s[i] <= '~'
  }

  lemma {:induction false} PrintingLength(s: string)
    requires Printing(s)
    ensures ByteLength(s) == |s|
  {
    if s == "" {
    } else {
      PrintingLength(s[1..]);
    }
  }

  /** An ordinary command is valid up to a thousand characters, a note up to two
      hundred. */
  lemma LengthLimits(j: Job)
    requires ValidSchedule(j.schedule)
    requires Printing(j.command) && Tight(j.command) && Printing(j.comment)
    ensures ValidCommand(j.command) <==> 0 < |j.command| <= 1000
    ensures ValidJob(j) <==> 0 < |j.command| <= 1000 && |j.comment| <= 200
  {
    TrimTight(j.command);
    PrintingLength(j.command);
    PrintingLength(j.comment);
  }

  /** A line break or a null byte anywhere inside makes a command invalid, and a line
      break a note. */
  lemma BreaksAreRefused(j: Job, c: char)
    requires c == '\n' || c == '\r'
    ensures c in TrimSpace(j.command) || c in j.comment || '\0' in TrimSpace(j.command) ==> !ValidJob(j)
  {
  }
}
