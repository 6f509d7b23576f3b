/** internal/db/models.go: times stored as text, and the claim that comparing the
    text compares the times. A time is its UTC calendar fields. */
module Timestamps {
  import opened Wrappers
  import opened Text

  datatype Time = Time(year: nat, month: nat, day: nat, hour: nat, minute: nat, second: nat, nanos: nat)

  predicate Leap(y: nat) { y % 4 == 0 && (y % 100 != 0 || y % 400 == 0) }

  function DaysIn(month: nat, y: nat): nat {
    if month == 2 then (if Leap(y) then 29 else 28)
    else if month in {4, 6, 9, 11} then 30
    else 31
  }

  predicate ValidDate(t: Time) {
    t.year <= 9999 && 1 <= t.month <= 12 && 1 <= t.day <= DaysIn(t.month, t.year)
  }

  predicate ValidTime(t: Time) {
    ValidDate(t) && t.hour < 24 && t.minute < 60 && t.second < 60 && t.nanos < 1_000_000_000
  }

  // ----- the instant a time stands for ---------------------------------------

  function DaysBeforeYear(y: nat): nat {
    if y == 0 then 0 else DaysBeforeYear(y - 1) + (if Leap(y - 1) then 366 else 365)
  }

  function DaysBeforeMonth(month: nat, y: nat): nat {
    if month <= 1 then 0 else DaysBeforeMonth(month - 1, y) + DaysIn(month - 1, y)
  }

  function DayNumber(t: Time): int {
    DaysBeforeYear(t.year) + DaysBeforeMonth(t.month, t.year) + t.day - 1
  }

  /** Whole seconds since the start of year 0. */
  function Seconds(t: Time): int {
    DayNumber(t) * 86400 + t.hour * 3600 + t.minute * 60 + t.second
  }

  /** Nanoseconds since the start of year 0. */
  function Instant(t: Time): int {
    Seconds(t) * 1_000_000_000 + t.nanos
  }

  lemma {:induction false} MonthsAdvance(m: nat, n: nat, y: nat)
    requires 1 <= m < n <= 13
    ensures DaysBeforeMonth(m, y) + DaysIn(m, y) <= DaysBeforeMonth(n, y)
    decreases n
  {
    if n <= m + 1 {
    } else {
      MonthsAdvance(m, n - 1, y);
    }
  }

  lemma MonthsFillYear(y: nat)
    ensures DaysBeforeMonth(13, y) == if Leap(y) then 366 else 365
  {
    var leap := if Leap(y) then 1 else 0;
    assert DaysBeforeMonth(2, y) == 31;
    assert DaysBeforeMonth(3, y) == 59 + leap;
    assert DaysBeforeMonth(5, y) == 120 + leap;
    assert DaysBeforeMonth(7, y) == 181 + leap;
    assert DaysBeforeMonth(9, y) == 243 + leap;
    assert DaysBeforeMonth(11, y) == 304 + leap;
  }

  lemma {:induction false} YearsAdvance(a: nat, b: nat)
    requires a < b
    ensures DaysBeforeYear(a) + (if Leap(a) then 366 else 365) <= DaysBeforeYear(b)
    decreases b
  {
    if b <= a + 1 {
    } else {
      YearsAdvance(a, b - 1);
    }
  }

  predicate EarlierDate(a: Time, b: Time) {
    || a.year < b.year
    || (a.year == b.year && (a.month < b.month || (a.month == b.month && a.day < b.day)))
  }

  lemma DateOrder(a: Time, b: Time)
    requires ValidDate(a) && ValidDate(b) && EarlierDate(a, b)
    ensures DayNumber(a) < DayNumber(b)
  {
    if a.year < b.year {
      YearsAdvance(a.year, b.year);
      MonthsFillYear(a.year);
      MonthsAdvance(a.month, 13, a.year);
    } else if a.month < b.month {
      MonthsAdvance(a.month, b.month, a.year);
    }
  }

  predicate EarlierSecond(a: Time, b: Time) {
    || EarlierDate(a, b)
    || (SameDate(a, b)
        && (a.hour < b.hour
            || (a.hour == b.hour
                && (a.minute < b.minute || (a.minute == b.minute && a.second < b.second)))))
  }

  predicate SameDate(a: Time, b: Time) {
    a.year == b.year && a.month == b.month && a.day == b.day
  }

  predicate SameSecond(a: Time, b: Time) {
    SameDate(a, b) && a.hour == b.hour && a.minute == b.minute && a.second == b.second
  }

  lemma SecondOrder(a: Time, b: Time)
    requires ValidTime(a) && ValidTime(b)
    ensures Seconds(a) < Seconds(b) <==> EarlierSecond(a, b)
    ensures Seconds(a) == Seconds(b) <==> SameSecond(a, b)
  {
    if EarlierDate(a, b) {
      DateOrder(a, b);
    } else if EarlierDate(b, a) {
      DateOrder(b, a);
    }
  }

  /** Of the years before y, every fourth but for the hundredths, and every four
      hundredth after all. */
  function LeapsBefore(y: nat): int {
    (y + 3) / 4 - (y + 99) / 100 + (y + 399) / 400
  }

  lemma NextFourth(y: nat)
    ensures (y + 4) / 4 == (y + 3) / 4 + if y % 4 == 0 then 1 else 0
  {
  }

  lemma NextHundredth(y: nat)
    ensures (y + 100) / 100 == (y + 99) / 100 + if y % 100 == 0 then 1 else 0
  {
  }

  lemma NextFourHundredth(y: nat)
    ensures (y + 400) / 400 == (y + 399) / 400 + if y % 400 == 0 then 1 else 0
  {
  }

  lemma HundredthsAreFourths(y: nat)
    ensures y % 400 == 0 ==> y % 100 == 0
    ensures y % 100 == 0 ==> y % 4 == 0
  {
    if y % 400 == 0 {
      assert y == 100 * (4 * (y / 400));
    }
    if y % 100 == 0 {
      assert y == 4 * (25 * (y / 100));
    }
  }

  lemma NextLeap(y: nat)
    ensures LeapsBefore(y + 1) == LeapsBefore(y) + if Leap(y) then 1 else 0
  {
    NextFourth(y);
    NextHundredth(y);
    NextFourHundredth(y);
    HundredthsAreFourths(y);
  }

  /** The Gregorian count of days. */
  lemma {:induction false} YearsCount(y: nat)
    ensures DaysBeforeYear(y) == 365 * y + LeapsBefore(y)
  {
    if y == 0 {
    } else {
      YearsCount(y - 1);
      NextLeap(y - 1);
    }
  }

  /** Known dates: the Unix epoch, and 29 February of 2024, which is 19782 days later;
      1900 had no such day and 2000 did. */
  lemma KnownDates()
    ensures DayNumber(Time(1970, 1, 1, 0, 0, 0, 0)) == 719_528
    ensures DayNumber(Time(2024, 2, 29, 0, 0, 0, 0)) == 719_528 + 19_782
    ensures ValidDate(Time(2000, 2, 29, 0, 0, 0, 0)) && !ValidDate(Time(1900, 2, 29, 0, 0, 0, 0))
    ensures ValidDate(Time(2024, 4, 30, 0, 0, 0, 0)) && !ValidDate(Time(2024, 4, 31, 0, 0, 0, 0))
  {
    YearsCount(1970);
    YearsCount(2024);
    assert DaysBeforeMonth(1, 2024) == 0;
  }

  // ----- the text ------------------------------------------------------------

  function Power10(w: nat): nat { if w == 0 then 1 else 10 * Power10(w - 1) }

  function DigitChar(d: nat): (c: char)
    requires d < 10
    ensures IsDigit(c) && DigitValue(c) == d
  {
    ('0' as int + d) as char
  }

  /** n in w digits, padded with zeros. */
  function Pad(n: nat, w: nat): (s: string)
    ensures |s| == w && forall i :: 0 <= i < w ==> IsDigit(s[i])
  {
    if w == 0 then "" else Pad(n / 10, w - 1) + [DigitChar(n % 10)]
  }

  /** A string of digits without its trailing zeros. */
  function TrimZeros(s: string): string {
    if AllZeros(s) then "" else [s[0]] + TrimZeros(s[1..])
  }

  predicate AllZeros(s: string) {
    s == "" || (s[0] == '0' && AllZeros(s[1..]))
  }

  function Fraction(nanos: nat): string { TrimZeros(Pad(nanos, 9)) }

  function FormatTail(nanos: nat): string {
    if Fraction(nanos) == "" then "Z" else "." + (Fraction(nanos) + "Z")
  }

  /** The layout RFC3339Nano in UTC: section 5.6 of RFC 3339, with the fraction's
      trailing zeros dropped. */
  function FmtTime(t: Time): string {
    Pad(t.year, 4) + ("-" + (Pad(t.month, 2) + ("-" + (Pad(t.day, 2) + ("T" + FormatClock(t))))))
  }

  function FormatClock(t: Time): string {
    Pad(t.hour, 2) + (":" + (Pad(t.minute, 2) + (":" + (Pad(t.second, 2) + FormatTail(t.nanos)))))
  }

  // ----- order ---------------------------------------------------------------

  lemma LessCons(c: char, d: char, s: string, t: string)
    ensures Less([c] + s, [d] + t) <==> c < d || (c == d && Less(s, t))
  {
    assert ([c] + s)[1..] == s && ([d] + t)[1..] == t;
  }

  /** Padded numbers order what they start. */
  lemma {:induction false} PadOrder(a: nat, b: nat, w: nat, s: string, t: string)
    requires a < Power10(w) && b < Power10(w)
    ensures Less(Pad(a, w) + s, Pad(b, w) + t) <==> a < b || (a == b && Less(s, t))
  {
    if w == 0 {
      ConcatEmpty(s);
      ConcatEmpty(t);
    } else {
      var da, db := [DigitChar(a % 10)], [DigitChar(b % 10)];
      Associate(Pad(a / 10, w - 1), da, s);
      Associate(Pad(b / 10, w - 1), db, t);
      PadOrder(a / 10, b / 10, w - 1, da + s, db + t);
      LessCons(da[0], db[0], s, t);
    }
  }

  lemma Powers()
    ensures Power10(2) == 100 && Power10(4) == 10_000 && Power10(9) == 1_000_000_000
  {
    assert Power10(5) == 100_000;
  }

  lemma ClockOrder(a: Time, b: Time)
    requires ValidTime(a) && ValidTime(b)
    ensures Less(FormatClock(a), FormatClock(b)) <==>
            || a.hour < b.hour
            || (a.hour == b.hour
                && (a.minute < b.minute
                    || (a.minute == b.minute
                        && (a.second < b.second
                            || (a.second == b.second && Less(FormatTail(a.nanos), FormatTail(b.nanos)))))))
  {
    Powers();
    var s1, s2 := Pad(a.second, 2) + FormatTail(a.nanos), Pad(b.second, 2) + FormatTail(b.nanos);
    var m1, m2 := Pad(a.minute, 2) + (":" + s1), Pad(b.minute, 2) + (":" + s2);
    PadOrder(a.second, b.second, 2, FormatTail(a.nanos), FormatTail(b.nanos));
    LessCons(':', ':', s1, s2);
    PadOrder(a.minute, b.minute, 2, ":" + s1, ":" + s2);
    LessCons(':', ':', m1, m2);
    PadOrder(a.hour, b.hour, 2, ":" + m1, ":" + m2);
  }

  /** The text orders first by the second, then by the tail. */
  lemma TextOrder(a: Time, b: Time)
    requires ValidTime(a) && ValidTime(b)
    ensures Less(FmtTime(a), FmtTime(b)) <==>
            EarlierSecond(a, b) || (SameSecond(a, b) && Less(FormatTail(a.nanos), FormatTail(b.nanos)))
  {
    Powers();
    ClockOrder(a, b);
    var c1, c2 := FormatClock(a), FormatClock(b);
    var d1, d2 := Pad(a.day, 2) + ("T" + c1), Pad(b.day, 2) + ("T" + c2);
    var m1, m2 := Pad(a.month, 2) + ("-" + d1), Pad(b.month, 2) + ("-" + d2);
    LessCons('T', 'T', c1, c2);
    PadOrder(a.day, b.day, 2, "T" + c1, "T" + c2);
    LessCons('-', '-', d1, d2);
    PadOrder(a.month, b.month, 2, "-" + d1, "-" + d2);
    LessCons('-', '-', m1, m2);
    PadOrder(a.year, b.year, 4, "-" + m1, "-" + m2);
  }

  predicate Digits(s: string) { forall i :: 0 <= i < |s| ==> IsDigit(s[i]) }

  lemma LessNotZeros(p: string, q: string)
    requires |p| == |q| && Digits(p) && Less(p, q)
    ensures !AllZeros(q)
  {
  }

  /** Dropping trailing zeros keeps the order, except that a fraction that starts
      a longer one sorts after it: the closing Z is greater than any digit. */
  lemma {:induction false} TrimmedOrder(p: string, q: string)
    requires |p| == |q| && Digits(p) && Digits(q) && Less(p, q)
    ensures var f, g := TrimZeros(p), TrimZeros(q);
            Less(f + "Z", g + "Z") <==> !(f <= g)
    decreases |p|
  {
    var f, g := TrimZeros(p), TrimZeros(q);
    LessNotZeros(p, q);
    assert IsDigit(q[0]) && IsDigit(p[0]);
    var g' := TrimZeros(q[1..]);
    Associate([q[0]], g', "Z");
    if AllZeros(p) {
      ConcatEmpty("Z");
      LessCons('Z', q[0], "", g' + "Z");
      assert "Z" == ['Z'] + "";
    } else {
      var f' := TrimZeros(p[1..]);
      Associate([p[0]], f', "Z");
      LessCons(p[0], q[0], f' + "Z", g' + "Z");
      PrefixCons(p[0], q[0], f', g');
      if p[0] == q[0] {
        TrimmedOrder(p[1..], q[1..]);
      }
    }
  }

  lemma PrefixCons(c: char, d: char, s: string, t: string)
    ensures [c] + s <= [d] + t <==> c == d && s <= t
  {
    var a, b := [c] + s, [d] + t;
    assert a[1..] == s && b[1..] == t;
    if a <= b {
      assert a[0] == b[0];
      assert s == a[1..] == b[1..|a|] == t[..|s|];
    }
    if c == d && s <= t {
      assert a == b[..|a|];
    }
  }

  lemma TailOrder(m: nat, n: nat)
    requires m < n < 1_000_000_000
    ensures Less(FormatTail(m), FormatTail(n)) <==> !(Fraction(m) <= Fraction(n))
  {
    var p, q := Pad(m, 9), Pad(n, 9);
    Powers();
    PadOrder(m, n, 9, "", "");
    ConcatEmpty(p);
    ConcatEmpty(q);
    TrimmedOrder(p, q);
    LessNotZeros(p, q);
    LessCons('.', '.', Fraction(m) + "Z", Fraction(n) + "Z");
    if Fraction(m) == "" {
      assert "Z" == ['Z'] + "";
      LessCons('Z', '.', "", Fraction(n) + "Z");
    }
  }

  /** The claim beside fmtTime, with its exact condition: the stored text orders
      two different times correctly if and only if they differ in the second or
      the earlier one's fraction is not the start of the later one's. */
  lemma StoredOrder(a: Time, b: Time)
    requires ValidTime(a) && ValidTime(b) && Instant(a) < Instant(b)
    ensures Less(FmtTime(a), FmtTime(b)) <==>
            Seconds(a) != Seconds(b) || !(Fraction(a.nanos) <= Fraction(b.nanos))
  {
    TextOrder(a, b);
    SecondOrder(a, b);
    if Seconds(a) == Seconds(b) {
      TailOrder(a.nanos, b.nanos);
    }
  }

  /** Times in different seconds always compare correctly, both ways. */
  lemma DifferentSecondsOrder(a: Time, b: Time)
    requires ValidTime(a) && ValidTime(b) && Seconds(a) != Seconds(b)
    ensures Less(FmtTime(a), FmtTime(b)) <==> Instant(a) < Instant(b)
  {
    TextOrder(a, b);
    SecondOrder(a, b);
  }

  /** Within a second it can go wrong: a whole second sorts after its own half. */
  lemma StoredOrderFails()
    ensures var a := Time(2024, 1, 2, 3, 4, 5, 0);
            var b := Time(2024, 1, 2, 3, 4, 5, 500_000_000);
            ValidTime(a) && ValidTime(b) && Instant(a) < Instant(b) && !Less(FmtTime(a), FmtTime(b))
  {
    var a := Time(2024, 1, 2, 3, 4, 5, 0);
    var b := Time(2024, 1, 2, 3, 4, 5, 500_000_000);
    ZeroPads(9);
    StoredOrder(a, b);
  }

  lemma ZeroPads(w: nat)
    ensures AllZeros(Pad(0, w))
  {
    if w > 0 {
      ZeroPads(w - 1);
      ZerosAppend(Pad(0, w - 1));
    }
  }

  lemma ZerosAppend(s: string)
    requires AllZeros(s)
    ensures AllZeros(s + ['0'])
  {
    if s != "" {
      assert (s + ['0'])[1..] == s[1..] + ['0'];
    }
  }

  /** A stored deadline compared with the present, as the session purge and the
      certificate sweep do in SQL, is right to within one second: what is more
      than a second past is found, and nothing a second or more ahead is. */
  lemma DeadlineWithinASecond(deadline: Time, now: Time)
    requires ValidTime(deadline) && ValidTime(now)
    ensures Instant(deadline) + 1_000_000_000 <= Instant(now) ==> Less(FmtTime(deadline), FmtTime(now))
    ensures Less(FmtTime(deadline), FmtTime(now)) ==> Instant(deadline) < Instant(now) + 1_000_000_000
  {
    TextOrder(deadline, now);
    SecondOrder(deadline, now);
  }

  // ----- reading a stored time back ------------------------------------------

  predicate AllDigits(s: string) { s != "" && Digits(s) }

  /** Go reads at most nine digits of a fraction. */
  function FractionValue(f: string): nat
    requires Digits(f)
  {
    var nine := if |f| > 9 then f[..9] else f + Zeros(9 - |f|);
    DigitsValue(nine)
  }

  function Zeros(n: nat): (s: string)
    ensures |s| == n && Digits(s)
  {
    if n == 0 then "" else ['0'] + Zeros(n - 1)
  }

  /** time.Parse with the layout RFC3339Nano, for texts in UTC. */
  function ParseTime(s: string): Option<Time> {
    if |s| < 20 || s[|s| - 1] != 'Z' then None
    else
      var tail := s[19..|s| - 1];
      if !(s[4] == '-' && s[7] == '-' && s[10] == 'T' && s[13] == ':' && s[16] == ':')
         || !AllDigits(s[0..4]) || !AllDigits(s[5..7]) || !AllDigits(s[8..10])
         || !AllDigits(s[11..13]) || !AllDigits(s[14..16]) || !AllDigits(s[17..19])
         || !(tail == "" || (tail[0] == '.' && AllDigits(tail[1..])))
      then None
      else
        var t := Time(DigitsValue(s[0..4]), DigitsValue(s[5..7]), DigitsValue(s[8..10]),
                      DigitsValue(s[11..13]), DigitsValue(s[14..16]), DigitsValue(s[17..19]),
                      if tail == "" then 0 else FractionValue(tail[1..]));
        if ValidTime(t) then Some(t) else None
  }

  lemma {:induction false} PadValue(n: nat, w: nat)
    requires n < Power10(w)
    ensures DigitsValue(Pad(n, w)) == n
  {
    if w == 0 {
    } else {
      PadValue(n / 10, w - 1);
      var s := Pad(n, w);
      assert s[..|s| - 1] == Pad(n / 10, w - 1);
    }
  }

  lemma {:induction false} TrimZerosRestores(s: string)
    ensures |TrimZeros(s)| <= |s| && TrimZeros(s) + Zeros(|s| - |TrimZeros(s)|) == s
    ensures Digits(s) ==> Digits(TrimZeros(s))
  {
    if AllZeros(s) {
      ZerosAre(s);
      ConcatEmpty(s);
    } else {
      TrimZerosRestores(s[1..]);
      Associate([s[0]], TrimZeros(s[1..]), Zeros(|s| - |TrimZeros(s)|));
      Uncons(s);
    }
  }

  lemma ZerosAre(s: string)
    requires AllZeros(s)
    ensures s == Zeros(|s|)
  {
    if s != "" {
      ZerosAre(s[1..]);
      Uncons(s);
    }
  }

  lemma FractionRoundTrip(nanos: nat)
    requires nanos < 1_000_000_000
    ensures Digits(Fraction(nanos)) && |Fraction(nanos)| <= 9
    ensures FractionValue(Fraction(nanos)) == nanos
    ensures Fraction(nanos) == "" <==> nanos == 0
  {
    var p := Pad(nanos, 9);
    Powers();
    PadValue(nanos, 9);
    TrimZerosRestores(p);
    ZeroPads(9);
    PadValue(0, 9);
    if |Fraction(nanos)| == 9 {
      ConcatEmpty(Fraction(nanos));
    }
    if Fraction(nanos) == "" {
      ConcatEmpty(Zeros(9));
      ZerosAre(Pad(0, 9));
    }
  }

  /** Every stored time reads back as itself. */
  lemma ParseOfFmt(t: Time)
    requires ValidTime(t)
    ensures ParseTime(FmtTime(t)) == Some(t)
  {
    var s := FmtTime(t);
    Powers();
    PadValue(t.year, 4);
    PadValue(t.month, 2);
    PadValue(t.day, 2);
    PadValue(t.hour, 2);
    PadValue(t.minute, 2);
    PadValue(t.second, 2);
    FractionRoundTrip(t.nanos);
    DatePositions(t);
    ClockPositions(t);
    TailPositions(t);
  }

  lemma DatePositions(t: Time)
    ensures var s := FmtTime(t);
            && |s| >= 20
            && s[0..4] == Pad(t.year, 4) && s[4] == '-'
            && s[5..7] == Pad(t.month, 2) && s[7] == '-'
            && s[8..10] == Pad(t.day, 2) && s[10] == 'T'
            && s[11..] == FormatClock(t)
  {
  }

  lemma ClockFields(t: Time)
    ensures var c := FormatClock(t);
            && |c| >= 9
            && c[0..2] == Pad(t.hour, 2) && c[2] == ':'
            && c[3..5] == Pad(t.minute, 2) && c[5] == ':'
            && c[6..8] == Pad(t.second, 2) && c[8..] == FormatTail(t.nanos)
  {
    var c := FormatClock(t);
    assert c[3..5] == Pad(t.minute, 2);
    assert c[6..8] == Pad(t.second, 2);
  }

  lemma ClockPositions(t: Time)
    ensures var s := FmtTime(t);
            && |s| >= 20
            && s[11..13] == Pad(t.hour, 2) && s[13] == ':'
            && s[14..16] == Pad(t.minute, 2) && s[16] == ':'
            && s[17..19] == Pad(t.second, 2)
            && s[19..] == FormatTail(t.nanos)
  {
    DatePositions(t);
    ClockFields(t);
    ShiftedFields(FmtTime(t), FormatClock(t));
  }

  /** Positions in the clock are positions in the text, eleven further on. */
  lemma ShiftedFields(s: string, c: string)
    requires |s| >= 11 && s[11..] == c && |c| >= 9
    ensures s[11..13] == c[0..2] && s[13] == c[2] && s[14..16] == c[3..5] && s[16] == c[5]
    ensures s[17..19] == c[6..8] && s[19..] == c[8..]
  {
    SliceOfSlice(s, 11, 0, 2);
    SliceOfSlice(s, 11, 3, 5);
    SliceOfSlice(s, 11, 6, 8);
    assert s[11..][2] == s[13] && s[11..][5] == s[16];
    assert s[11..][8..] == s[19..];
  }

  lemma SliceOfSlice(s: string, k: nat, i: nat, j: nat)
    requires k + j <= |s| && i <= j
    ensures s[k..][i..j] == s[k + i..k + j]
  {
  }

  lemma TailPositions(t: Time)
    ensures var s := FmtTime(t);
            && |s| >= 20 && s[|s| - 1] == 'Z'
            && var tail := s[19..|s| - 1];
               if Fraction(t.nanos) == "" then tail == ""
               else tail != "" && tail[0] == '.' && tail[1..] == Fraction(t.nanos)
  {
    ClockPositions(t);
    var s, z := FmtTime(t), FormatTail(t.nanos);
    assert s[19..][|z| - 1] == s[|s| - 1];
    assert s[19..|s| - 1] == s[19..][..|z| - 1];
  }

  // ----- the layout, spelled out -------------------------------------------------

  lemma PadDigits(n: nat, w: nat)
    requires n < Power10(w)
    ensures |Pad(n, w)| == w && Digits(Pad(n, w)) && DigitsValue(Pad(n, w)) == n
  {
    PadValue(n, w);
  }

  lemma {:induction false} TrimmedEnd(s: string)
    ensures TrimZeros(s) != "" ==> TrimZeros(s)[|TrimZeros(s)| - 1] != '0'
  {
    if AllZeros(s) {
    } else {
      TrimmedEnd(s[1..]);
      if TrimZeros(s[1..]) == "" {
        assert AllZeros(s[1..]);
      }
    }
  }

  predicate Number(s: string, n: nat) {
    Digits(s) && DigitsValue(s) == n
  }

  /** A fraction only when there is one, of at most nine digits and without a zero at its
      end. */
  predicate FractionText(s: string, nanos: nat) {
    if nanos == 0 then s == "Z"
    else
      && 3 <= |s| <= 11 && s[0] == '.' && s[|s| - 1] == 'Z' && s[|s| - 2] != '0'
      && Digits(s[1..|s| - 1]) && FractionValue(s[1..|s| - 1]) == nanos
  }

  lemma TailLayout(nanos: nat)
    requires nanos < 1_000_000_000
    ensures FractionText(FormatTail(nanos), nanos)
  {
    FractionRoundTrip(nanos);
    TrimmedEnd(Pad(nanos, 9));
    var f, s := Fraction(nanos), FormatTail(nanos);
    if nanos > 0 {
      assert s[1..|s| - 1] == f;
      assert s[|s| - 2] == f[|f| - 1];
    }
  }

  /** Section 5.1 of RFC 3339 in UTC: four, two, two, two, two and two digits with their
      separators, the fraction, and a Z. */
  lemma StoredLayout(t: Time)
    requires ValidTime(t)
    ensures var s := FmtTime(t);
            && |s| >= 20 && s[4] == '-' && s[7] == '-' && s[10] == 'T' && s[13] == ':' && s[16] == ':'
            && Number(s[0..4], t.year) && Number(s[5..7], t.month) && Number(s[8..10], t.day)
            && Number(s[11..13], t.hour) && Number(s[14..16], t.minute) && Number(s[17..19], t.second)
            && FractionText(s[19..], t.nanos)
  {
    Powers();
    PadDigits(t.year, 4);
    PadDigits(t.month, 2);
    PadDigits(t.day, 2);
    PadDigits(t.hour, 2);
    PadDigits(t.minute, 2);
    PadDigits(t.second, 2);
    DatePositions(t);
    ClockPositions(t);
    TailLayout(t.nanos);
  }
}
