/** What the crontab printer and parser promise each other: percent escaping
    cannot accumulate, and a printed file parses back to the same jobs exactly
    when no command holds an escaped percent and no note looks like one of the
    panel's own lines. */
module CronRoundTrip {
  import opened Wrappers
  import opened Text
  import opened Cron

  // ----- percent escaping ----------------------------------------------------

  /** Every percent sign has a backslash before it, counting the one the text
      may follow. */
  predicate NoBarePercent(afterBackslash: bool, s: string)
    decreases |s|
  {
    s == "" || ((s[0] == '%' ==> afterBackslash) && NoBarePercent(s[0] == '\\', s[1..]))
  }

  ghost predicate HasEscapedPercent(s: string) {
    exists i :: 0 <= i < |s| - 1 && s[i] == '\\' && s[i + 1] == '%'
  }

  lemma {:induction false} EscapedLeavesNoBarePercent(afterBackslash: bool, s: string)
    ensures NoBarePercent(afterBackslash, EscapeFrom(afterBackslash, s))
    decreases |s|
  {
    if s == "" {
    } else {
      var e := EscapeFrom(afterBackslash, s);
      if s[0] == '%' {
        EscapedLeavesNoBarePercent(false, s[1..]);
        if afterBackslash {
          assert e[1..] == EscapeFrom(false, s[1..]);
        } else {
          assert e[1..] == "%" + EscapeFrom(false, s[1..]);
          assert e[1..][1..] == EscapeFrom(false, s[1..]);
        }
      } else {
        EscapedLeavesNoBarePercent(s[0] == '\\', s[1..]);
        assert e[1..] == EscapeFrom(s[0] == '\\', s[1..]);
      }
    }
  }

  /** Escaping leaves a text without bare percents alone. */
  lemma {:induction false} EscapeKeeps(afterBackslash: bool, s: string)
    requires NoBarePercent(afterBackslash, s)
    ensures EscapeFrom(afterBackslash, s) == s
    decreases |s|
  {
    if s == "" {
    } else {
      EscapeKeeps(s[0] == '\\', s[1..]);
      assert s == [s[0]] + s[1..];
    }
  }

  lemma EscapeIdempotent(cmd: string)
    ensures Escaped(Escaped(cmd)) == Escaped(cmd)
  {
    EscapedLeavesNoBarePercent(false, cmd);
    EscapeKeeps(false, Escaped(cmd));
  }

  /** Undoing the escape gives the command with its own escapes undone, whatever
      it held. */
  lemma {:induction false} UnescapeEscapeFrom(s: string)
    ensures Unescaped(EscapeFrom(false, s)) == Unescaped(s)
    ensures Unescaped("\\" + EscapeFrom(true, s)) == Unescaped("\\" + s)
    decreases |s|
  {
    if s == "" {
    } else {
      var c, t := s[0], s[1..];
      assert s == [c] + t;
      UnescapeEscapeFrom(t);
      if c == '%' {
        var e := EscapeFrom(false, t);
        assert ("\\%" + e)[2..] == e && ("%" + t)[1..] == t && ("\\" + s)[2..] == t;
        assert "\\" + ("%" + e) == "\\%" + e;
      } else {
        var e := EscapeFrom(c == '\\', t);
        assert ([c] + e)[1..] == e && ("\\" + ([c] + e))[1..] == [c] + e && ("\\" + s)[1..] == s;
        if c != '\\' {
          assert Unescaped([c] + e) == [c] + Unescaped(e);
        }
      }
    }
  }

  lemma {:induction false} UnescapeIdentity(s: string)
    ensures Unescaped(s) == s <==> !HasEscapedPercent(s)
    ensures HasEscapedPercent(s) ==> |Unescaped(s)| < |s|
    decreases |s|
  {
    if s == "" {
    } else if |s| >= 2 && s[0] == '\\' && s[1] == '%' {
      assert HasEscapedPercent(s);
    } else {
      UnescapeIdentity(s[1..]);
      assert s == [s[0]] + s[1..];
      if HasEscapedPercent(s) {
        var i :| 0 <= i < |s| - 1 && s[i] == '\\' && s[i + 1] == '%';
        assert s[1..][i - 1] == '\\' && s[1..][i] == '%';
        assert HasEscapedPercent(s[1..]);
      }
      if HasEscapedPercent(s[1..]) {
        var i :| 0 <= i < |s[1..]| - 1 && s[1..][i] == '\\' && s[1..][i + 1] == '%';
        assert s[i + 1] == '\\' && s[i + 2] == '%';
      }
    }
  }

  /** Unescaping inverts escaping exactly on the commands without `\%`. */
  lemma EscapeInvertible(cmd: string)
    ensures Unescaped(Escaped(cmd)) == cmd <==> !HasEscapedPercent(cmd)
  {
    UnescapeEscapeFrom(cmd);
    UnescapeIdentity(cmd);
  }

  /** One more trip through the file does not lengthen an escaped command. */
  lemma {:induction false} TripShrinks(afterBackslash: bool, e: string)
    requires NoBarePercent(false, e)
    ensures |EscapeFrom(afterBackslash, Unescaped(e))| <= |e|
    decreases |e|
  {
    if e == "" {
    } else if |e| >= 2 && e[0] == '\\' && e[1] == '%' {
      assert e[1..][1..] == e[2..];
      TripShrinks(false, e[2..]);
      var u := Unescaped(e[2..]);
      assert Unescaped(e) == "%" + u && ("%" + u)[1..] == u;
    } else {
      assert NoBarePercent(false, e[1..]);
      TripShrinks(e[0] == '\\', e[1..]);
      var u := Unescaped(e[1..]);
      assert Unescaped(e) == [e[0]] + u && ([e[0]] + u)[1..] == u;
    }
  }

  /** An escaped command after n more trips through a file. */
  function Trips(cmd: string, n: nat): string {
    if n == 0 then Escaped(cmd) else Escaped(Unescaped(Trips(cmd, n - 1)))
  }

  /** Backslashes cannot accumulate: however often a command is saved, read and
      saved again, its line never grows and never gains a bare percent. */
  lemma {:induction false} BackslashesDoNotAccumulate(cmd: string, n: nat)
    ensures |Trips(cmd, n + 1)| <= |Trips(cmd, n)| <= |Escaped(cmd)|
    ensures NoBarePercent(false, Trips(cmd, n))
  {
    if n == 0 {
      EscapedLeavesNoBarePercent(false, cmd);
    } else {
      BackslashesDoNotAccumulate(cmd, n - 1);
      EscapedLeavesNoBarePercent(false, Unescaped(Trips(cmd, n - 1)));
    }
    TripShrinks(false, Trips(cmd, n));
  }

  // ----- shapes the escape keeps ---------------------------------------------

  lemma {:induction false} EscapeShape(afterBackslash: bool, s: string)
    requires s != ""
    ensures var e := EscapeFrom(afterBackslash, s);
            e != "" && e[|e| - 1] == s[|s| - 1] && (e[0] == s[0] || e[0] == '\\')
    ensures forall c :: c in EscapeFrom(afterBackslash, s) ==> c == '\\' || c in s
    decreases |s|
  {
    var t := EscapeFrom(s[0] == '\\', s[1..]);
    assert s == [s[0]] + s[1..];
    if |s| <= 1 {
    } else {
      EscapeShape(s[0] == '\\', s[1..]);
    }
    if s[0] == '%' && !afterBackslash {
      assert EscapeFrom(afterBackslash, s) == "\\%" + t;
    } else {
      assert EscapeFrom(afterBackslash, s) == [s[0]] + t;
    }
  }

  lemma {:induction false} UnescapeShape(s: string)
    requires s != ""
    ensures var u := Unescaped(s);
            u != "" && u[|u| - 1] == s[|s| - 1] && (u[0] == s[0] || u[0] == '%')
    ensures forall c :: c in Unescaped(s) ==> c in s
    ensures ByteLength(Unescaped(s)) <= ByteLength(s)
    decreases |s|
  {
    var skip := if |s| >= 2 && s[0] == '\\' && s[1] == '%' then 2 else 1;
    var c := if skip == 2 then '%' else s[0];
    var u := Unescaped(s[skip..]);
    assert s == s[..skip] + s[skip..];
    assert Unescaped(s) == [c] + u && ([c] + u)[1..] == u;
    if |s| > skip {
      UnescapeShape(s[skip..]);
    }
    if skip == 2 {
      assert s[1..][1..] == s[2..];
    }
  }

  /** A valid command is still valid once its escapes are undone. */
  lemma UnescapedValid(cmd: string)
    requires ValidCommand(cmd)
    ensures ValidCommand(Unescaped(TrimSpace(cmd)))
  {
    UnescapeShape(TrimSpace(cmd));
    TrimTight(Unescaped(TrimSpace(cmd)));
  }

  // ----- schedules -----------------------------------------------------------

  /** A character no part of a valid schedule field can hold. */
  predicate Foreign(c: char) { c == '=' || c == '#' }

  lemma NamesNotForeign(name: string, c: char)
    requires name in Months() || name in Weekdays()
    requires Foreign(c)
    ensures c !in name
  {
  }

  lemma ValueNotForeign(s: string, f: FieldRange, c: char)
    requires f.names == map[] || f.names == Months() || f.names == Weekdays()
    requires FieldValue(s, f).Some? && Foreign(c)
    ensures c !in s
  {
    if ToLower(s) in f.names {
      NamesNotForeign(ToLower(s), c);
      forall i | 0 <= i < |s| ensures s[i] != c {
        assert LowerChar(c) == c;
        assert ToLower(s)[i] == LowerChar(s[i]);
      }
    }
  }

  lemma RangeNotForeign(body: string, f: FieldRange, c: char)
    requires f.names == map[] || f.names == Months() || f.names == Weekdays()
    requires ValidRange(body, f) && Foreign(c)
    ensures c !in body
  {
    var dash := IndexOf(body, '-');
    if dash >= 0 {
      CutAt(body, dash);
      ValueNotForeign(body[..dash], f, c);
      if body[dash + 1..] != "" {
        ValueNotForeign(body[dash + 1..], f, c);
      }
    } else {
      ValueNotForeign(body, f, c);
    }
  }

  lemma StepNotForeign(step: string, f: FieldRange, c: char)
    requires ValidStep(step, f) && Foreign(c)
    ensures c !in step
  {
  }

  lemma ItemNotForeign(item: string, f: FieldRange, c: char)
    requires f.names == map[] || f.names == Months() || f.names == Weekdays()
    requires ValidItem(item, f) && Foreign(c)
    ensures c !in item
  {
    var slash := IndexOf(item, '/');
    var body := if slash >= 0 then item[..slash] else item;
    if slash >= 0 {
      CutAt(item, slash);
      StepNotForeign(item[slash + 1..], f, c);
    }
    if body != "*" {
      RangeNotForeign(body, f, c);
    }
  }

  lemma FieldNotForeign(part: string, i: nat, c: char)
    requires ValidField(part, FieldAt(i)) && Foreign(c)
    ensures c !in part
  {
    if c in part {
      SplitCovers(part, ',', c);
      var k :| 0 <= k < |Split(part, ',')| && c in Split(part, ',')[k];
      ItemNotForeign(Split(part, ',')[k], FieldAt(i), c);
    }
  }

  /** Five valid fields joined by spaces are a valid schedule. */
  lemma WordsValid(ws: seq<string>)
    requires |ws| == 5 && forall i :: 0 <= i < 5 ==> IsWord(ws[i]) && ValidField(ws[i], FieldAt(i))
    requires IsWord(ws[0]) && ws[0][0] != '@'
    ensures ValidSchedule(JoinSpace(ws))
  {
    FieldsJoin(ws);
    JoinShape(ws);
    TrimTight(JoinSpace(ws));
  }

  /** What a valid schedule looks like once its white space is normalised. */
  lemma NormalizedSchedule(spec: string)
    requires ValidSchedule(spec)
    ensures var ws := Fields(spec);
            && |ws| == 5 && ValidSchedule(JoinSpace(ws))
            && ws[0][0] != '#' && ws[0][0] != '@'
    ensures '=' !in JoinSpace(Fields(spec))
  {
    FieldsOfTrim(spec);
    var ws := Fields(spec);
    FirstFieldStart(TrimSpace(spec));
    WordsValid(ws);
    JoinShape(ws);
    FieldNotForeign(ws[0], 0, '#');
    forall c | c in JoinSpace(ws) ensures c != '=' {
      if c != ' ' {
        var i :| 0 <= i < |ws| && c in ws[i];
        FieldNotForeign(ws[i], i, '=');
      }
    }
  }

  lemma FirstFieldStart(s: string)
    requires s != "" && Tight(s)
    ensures Fields(s) != [] && Fields(s)[0][0] == s[0]
  {
    assert TrimLeft(s) == s;
  }

  lemma {:induction false} FieldsTrimLeft(s: string)
    ensures Fields(TrimLeft(s)) == Fields(s)
    decreases |s|
  {
    if s == "" || !IsSpace(s[0]) {
    } else {
      FieldsTrimLeft(s[1..]);
      FieldsSkipSpace(s[0], s[1..]);
      Uncons(s);
    }
  }

  /** White space at the end adds no field. */
  lemma {:induction false} FieldsDropLast(s: string, c: char)
    requires IsSpace(c)
    ensures Fields(s + [c]) == Fields(s)
    decreases |s|
  {
    if s == "" {
      FieldsSkipSpace(c, "");
      assert s + [c] == [c] + "";
    } else if IsSpace(s[0]) {
      Uncons(s);
      Associate([s[0]], s[1..], [c]);
      FieldsDropLast(s[1..], c);
      FieldsSkipSpace(s[0], s[1..] + [c]);
      FieldsSkipSpace(s[0], s[1..]);
    } else {
      FieldsDropLast(s[WordLength(s)..], c);
      FieldsDropLastWord(s, c);
    }
  }

  lemma FieldsDropLastWord(s: string, c: char)
    requires IsSpace(c) && s != "" && !IsSpace(s[0])
    requires Fields(s[WordLength(s)..] + [c]) == Fields(s[WordLength(s)..])
    ensures Fields(s + [c]) == Fields(s)
  {
    var n := WordLength(s);
    var t := s + [c];
    WordLengthIs(t, n);
    CutWithin(s, [c], n);
    assert TrimLeft(t) == t && TrimLeft(s) == s;
  }

  lemma {:induction false} FieldsTrimRight(s: string)
    ensures Fields(TrimRight(s)) == Fields(s)
    decreases |s|
  {
    if s == "" || !IsSpace(s[|s| - 1]) {
    } else {
      FieldsTrimRight(s[..|s| - 1]);
      FieldsDropLast(s[..|s| - 1], s[|s| - 1]);
      Unsnoc(s);
    }
  }

  lemma FieldsOfTrim(s: string)
    ensures Fields(TrimSpace(s)) == Fields(s)
  {
    FieldsTrimLeft(s);
    FieldsTrimRight(TrimLeft(s));
  }

  // ----- one rendered line ---------------------------------------------------

  lemma {:induction false} OffsetAfterWord(w: string, rest: string, n: int)
    requires IsWord(w)
    ensures OffsetAfterFields(w + " " + rest, n, true) ==
            if n == 1 then |w|
            else var o := OffsetAfterFields(rest, n - 1, false);
                 if o < 0 then -1 else |w| + 1 + o
    ensures OffsetAfterFields(w + " " + rest, n, false) == OffsetAfterFields(w + " " + rest, n, true)
    decreases |w|
  {
    var s := w + " " + rest;
    if |w| == 1 {
      assert s[1..] == " " + rest && (" " + rest)[1..] == rest;
    } else {
      assert s[1..] == w[1..] + " " + rest;
      OffsetAfterWord(w[1..], rest, n);
    }
  }

  lemma {:induction false} OffsetAfterJoin(ws: seq<string>, rest: string)
    requires ws != [] && forall i :: 0 <= i < |ws| ==> IsWord(ws[i])
    ensures OffsetAfterFields(JoinSpace(ws) + " " + rest, |ws|, false) == |JoinSpace(ws)|
  {
    if |ws| == 1 {
      OffsetAfterWord(ws[0], rest, 1);
    } else {
      var tail := JoinSpace(ws[1..]) + " " + rest;
      Regroup(ws[0] + " ", JoinSpace(ws[1..]), " ", rest);
      OffsetAfterJoin(ws[1..], rest);
      OffsetAfterWord(ws[0], tail, |ws|);
    }
  }

  /** A schedule's words and an escaped command read back as one job. */
  lemma LineJobOf(ws: seq<string>, esc: string)
    requires |ws| == 5 && forall i :: 0 <= i < 5 ==> IsWord(ws[i])
    requires ValidSchedule(JoinSpace(ws))
    requires esc != "" && Tight(esc) && ValidCommand(Unescaped(esc))
    ensures LineJob(JoinSpace(ws) + " " + esc) == Some(Job(0, JoinSpace(ws), Unescaped(esc), "", false))
  {
    var sched := JoinSpace(ws);
    FieldsJoinRest(ws, esc);
    FieldsNonempty(esc);
    TakeDrop(ws, Fields(esc));
    OffsetAfterJoin(ws, esc);
    Associate(sched, " ", esc);
    TakeDrop(sched, " " + esc);
    TrimSpacePrefix(esc);
  }

  lemma EscapedCommand(cmd: string)
    requires cmd != "" && Tight(cmd) && '\n' !in cmd
    ensures Escaped(cmd) != "" && Tight(Escaped(cmd)) && '\n' !in Escaped(cmd)
    ensures Unescaped(Escaped(cmd)) == Unescaped(cmd)
  {
    EscapeShape(false, cmd);
    UnescapeEscapeFrom(cmd);
  }

  /** What printing asks of a job: less than Validate does, which also bounds the note
      and keeps carriage returns out of it. */
  predicate Printable(j: Job) {
    ValidSchedule(j.schedule) && ValidCommand(j.command) && '\n' !in j.comment
  }

  /** What the line printed for a job holds once read back. */
  lemma RenderedLineParses(j: Job)
    requires Printable(j)
    ensures LineJob(CommandLine(j)) ==
            Some(Job(0, NormalizeSchedule(j.schedule), Unescaped(TrimSpace(j.command)), "", false))
  {
    NormalizedSchedule(j.schedule);
    EscapedCommand(TrimSpace(j.command));
    UnescapedValid(j.command);
    LineJobOf(Fields(j.schedule), Escaped(TrimSpace(j.command)));
  }

  /** Words, a space and a tight text make one tight line. */
  lemma LineShape(ws: seq<string>, esc: string)
    requires |ws| == 5 && forall i :: 0 <= i < 5 ==> IsWord(ws[i])
    requires esc != "" && Tight(esc) && '\n' !in esc
    ensures var line := JoinSpace(ws) + " " + esc;
            line != "" && Tight(line) && '\n' !in line && line[0] == ws[0][0]
  {
    JoinShape(ws);
    var sched := JoinSpace(ws);
    forall c | c in sched ensures c != '\n' {
      if c != ' ' {
        var i :| 0 <= i < |ws| && c in ws[i];
      }
    }
  }

  /** No variable is set on a line whose schedule holds no equals sign. */
  lemma NotAnAssignment(ws: seq<string>, esc: string)
    requires |ws| == 5 && forall i :: 0 <= i < 5 ==> IsWord(ws[i])
    requires '=' !in JoinSpace(ws)
    ensures !IsAssignment(JoinSpace(ws) + " " + esc)
  {
    var sched := JoinSpace(ws);
    var line := sched + " " + esc;
    var idx := IndexOf(line, '=');
    if idx > 0 {
      if idx < |sched| {
        assert false;
      }
      assert line[..idx][..|sched|] == sched;
      SpaceInTrimmedPrefix(ws, line[..idx]);
    }
  }

  /** The printed line is one tight line that Parse takes for neither a comment
      nor an assignment. */
  lemma RenderedLineShape(j: Job)
    requires Printable(j)
    ensures var line := CommandLine(j);
            && line != "" && Tight(line) && '\n' !in line
            && line[0] != '#' && line[0] != '@'
    ensures !IsAssignment(CommandLine(j))
  {
    NormalizedSchedule(j.schedule);
    EscapedCommand(TrimSpace(j.command));
    LineShape(Fields(j.schedule), Escaped(TrimSpace(j.command)));
    NotAnAssignment(Fields(j.schedule), Escaped(TrimSpace(j.command)));
  }

  /** A text that starts with two words and a space keeps a space when trimmed. */
  lemma SpaceInTrimmedPrefix(ws: seq<string>, t: string)
    requires |ws| > 1 && forall i :: 0 <= i < |ws| ==> IsWord(ws[i])
    requires JoinSpace(ws) <= t
    ensures ' ' in TrimSpace(t)
  {
    var sched := JoinSpace(ws);
    JoinShape(ws);
    assert TrimLeft(t) == t;
    TrimRightKeeps(sched, t);
    assert sched == ws[0] + " " + JoinSpace(ws[1..]);
    assert sched[|ws[0]|] == ' ';
    assert TrimSpace(t)[|ws[0]|] == ' ';
  }

  lemma {:induction false} TrimRightKeeps(p: string, t: string)
    requires p <= t && (p == "" || !IsSpace(p[|p| - 1]))
    ensures p <= TrimRight(t)
    decreases |t|
  {
    if t == "" || !IsSpace(t[|t| - 1]) {
    } else {
      assert p != t;
      TrimRightKeeps(p, t[..|t| - 1]);
    }
  }

  // ----- reading the whole file back -----------------------------------------

  lemma {:induction false} ParseAllAppend(st: ParseState, a: seq<string>, b: seq<string>)
    ensures ParseAll(st, a + b) == ParseAll(ParseAll(st, a), b)
    decreases |a|
  {
    if a == [] {
      assert a + b == b;
    } else {
      assert (a + b)[0] == a[0] && (a + b)[1..] == a[1..] + b;
      ParseAllAppend(ParseOne(st, a[0]), a[1..], b);
    }
  }

  lemma {:induction false} SplitLines(ls: seq<string>, rest: string)
    requires forall i :: 0 <= i < |ls| ==> '\n' !in ls[i]
    ensures Split(Lines(ls) + rest, '\n') == ls + Split(rest, '\n')
  {
    if ls == [] {
      assert Lines(ls) + rest == rest;
    } else {
      Associate(ls[0] + "\n", Lines(ls[1..]), rest);
      SplitCons(ls[0], '\n', Lines(ls[1..]) + rest);
      SplitLines(ls[1..], rest);
      Uncons(ls);
      Associate([ls[0]], ls[1..], Split(rest, '\n'));
    }
  }

  lemma EmptyNoteBody(line: string)
    requires |line| == 2 && line[0] == '#' && line[1] == ' '
    ensures var t := TrimSpace(line);
            t != "" && t[0] == '#' && TrimSpace(t[1..]) == []
  {
    var mark := line[..1];
    assert line == mark + [' '];
    TrimTrailing(mark, ' ');
    TrimTight(mark[1..]);
  }

  lemma NoteBody(body: string)
    requires Tight(body)
    ensures var t := TrimSpace("# " + body);
            t != "" && t[0] == '#' && TrimSpace(t[1..]) == body
  {
    var line := "# " + body;
    if body == "" {
      EmptyNoteBody(line);
    } else {
      TrimTight(line);
      assert line[1..] == " " + body;
      TrimSpacePrefix(body);
    }
  }

  lemma EmptyBody(s: string)
    requires |s| == 0
    ensures !HeaderNote(s) && !(Disabled() <= s) && TrimSpace(s) == s
  {
  }

  /** A note line: header notes are skipped, `disabled: ` lines are jobs, and
      anything else becomes the pending note. */
  lemma ParseNoteLine(st: ParseState, body: string)
    requires Tight(body)
    ensures ParseOne(st, "# " + body) ==
            if HeaderNote(body) then st
            else if !(Disabled() <= body) then st.(pending := body)
            else match LineJob(body[|Disabled()|..])
                 case None => st
                 case Some(j) => ParseState(st.out + [j.(enabled := false, comment := st.pending)], "")
  {
    NoteBody(body);
  }

  lemma HeaderParses()
    ensures ParseAll(ParseState([], ""), HeaderLines()) == ParseState([], "")
    ensures forall i :: 0 <= i < |HeaderLines()| ==> '\n' !in HeaderLines()[i]
  {
    var h := HeaderLines();
    var st := ParseState([], "");
    forall i | 0 <= i < |h| ensures ParseOne(st, h[i]) == st && '\n' !in h[i] {
      HeaderLineShape(i);
      InertLineParses(st, h[i]);
    }
    ParseFixed(st, h);
  }

  lemma {:induction false} ParseFixed(st: ParseState, ls: seq<string>)
    requires forall i :: 0 <= i < |ls| ==> ParseOne(st, ls[i]) == st
    ensures ParseAll(st, ls) == st
    decreases |ls|
  {
    if ls == [] {
    } else {
      ParseFixed(st, ls[1..]);
    }
  }

  /** `# ` and a text that starts with one of the panel's phrases. */
  predicate PanelNote(line: string, phrase: string, more: string, end: string) {
    && line == HeaderPhrase(phrase, more, end)
    && phrase != "" && !IsSpace(phrase[0]) && HeaderNote(phrase)
    && end != "" && !IsSpace(end[|end| - 1])
    && '\n' !in phrase && '\n' !in more && '\n' !in end
  }

  predicate Setting(line: string, name: string, value: string) {
    && line == HeaderSetting(name, value)
    && name != "" && (forall c :: c in name ==> NameChar(c))
    && value != "" && !IsSpace(value[|value| - 1]) && '\n' !in value
  }

  /** A line that leaves the parser where it was when no note is pending. */
  ghost predicate InertLine(line: string) {
    || line == "" || line == "#"
    || (exists phrase, more, end :: PanelNote(line, phrase, more, end))
    || (exists name, value :: Setting(line, name, value))
  }

  lemma PanelNoteInert(phrase: string, more: string, end: string)
    requires PanelNote(HeaderPhrase(phrase, more, end), phrase, more, end)
    ensures InertLine(HeaderPhrase(phrase, more, end))
  {
  }

  lemma SettingInert(name: string, value: string)
    requires Setting(HeaderSetting(name, value), name, value)
    ensures InertLine(HeaderSetting(name, value))
  {
  }

  lemma ManagedLineInert()
    ensures InertLine(HeaderLine(0))
  {
    PanelNoteInert("Managed by OPanel", ". Changes made", " here are replaced.");
  }

  lemma EditLineInert()
    ensures InertLine(HeaderLine(1))
  {
    PanelNoteInert("Edit these under", " Cron", " in the panel.");
  }

  lemma OutputLineInert()
    ensures InertLine(HeaderLine(3))
  {
    PanelNoteInert("Output is not mailed", ": this server has no", " mail transport, and cron");
  }

  lemma DeliverLineInert()
    ensures InertLine(HeaderLine(4))
  {
    PanelNoteInert("that cannot deliver", " logs a failure on every run.", " Redirect what you");
  }

  lemma KeepLineInert()
    ensures InertLine(HeaderLine(5))
  {
    PanelNoteInert("want to keep", ", for example: >>", " $HOME/logs/cron.log 2>&1");
  }

  lemma SettingShape(i: nat)
    requires 6 <= i < 9
    ensures InertLine(HeaderLine(i))
  {
    if i == 6 {
      SettingInert("MAILTO", "\"\"");
    } else if i == 7 {
      SettingInert("PATH", "/usr/local/bin:/usr/bin:/bin");
    }
  }

  lemma HeaderLineShape(i: nat)
    requires i < 9
    ensures InertLine(HeaderLine(i))
  {
    if i == 0 {
      ManagedLineInert();
    } else if i == 1 {
      EditLineInert();
    } else if i == 3 {
      OutputLineInert();
    } else if i == 4 {
      DeliverLineInert();
    } else if i == 5 {
      KeepLineInert();
    } else if i >= 6 {
      SettingShape(i);
    }
  }

  lemma InertLineParses(st: ParseState, line: string)
    requires st.pending == "" && InertLine(line)
    ensures ParseOne(st, line) == st && '\n' !in line
  {
    if line == "" {
      assert TrimSpace(line) == line;
    } else if line == "#" {
      ParseNoteMark(st, line);
    } else if phrase, more, end :| PanelNote(line, phrase, more, end) {
      PanelNoteParses(st, phrase, more, end);
    } else {
      var name, value :| Setting(line, name, value);
      SettingParses(st, name, value);
    }
  }

  lemma ParseNoteMark(st: ParseState, line: string)
    requires st.pending == "" && |line| == 1 && line[0] == '#'
    ensures ParseOne(st, line) == st && '\n' !in line
  {
    TrimTight(line);
    EmptyBody(line[1..]);
  }

  lemma PanelNoteParses(st: ParseState, phrase: string, more: string, end: string)
    requires PanelNote(HeaderPhrase(phrase, more, end), phrase, more, end)
    ensures var line := HeaderPhrase(phrase, more, end); ParseOne(st, line) == st && '\n' !in line
  {
    var body := phrase + (more + end);
    assert body[0] == phrase[0] && body[|body| - 1] == end[|end| - 1];
    HeaderNoteThrough(phrase, more + end);
    ParseNoteLine(st, body);
    assert '\n' !in body;
  }

  lemma HeaderNoteThrough(s: string, t: string)
    requires HeaderNote(s)
    ensures HeaderNote(s + t)
  {
    PrefixThrough("Managed by OPanel", s, t);
    PrefixThrough("Edit these under", s, t);
    PrefixThrough("Output is not mailed", s, t);
    PrefixThrough("that cannot deliver", s, t);
    PrefixThrough("want to keep", s, t);
  }

  lemma PrefixThrough(p: string, s: string, t: string)
    ensures p <= s ==> p <= s + t
  {
  }

  /** A setting's name ends at the first equals sign. */
  lemma SettingName(name: string, value: string)
    requires name != "" && forall c :: c in name ==> NameChar(c)
    ensures IndexOf(HeaderSetting(name, value), '=') == |name|
    ensures HeaderSetting(name, value)[..|name|] == name
    ensures Tight(name) && !IsSpace(name[0]) && name[0] != '#' && name[0] != '@'
  {
    var line := name + ("=" + value);
    forall j | 0 <= j < |name| ensures NameChar(name[j]) && line[j] == name[j] {
      assert name[j] in name;
    }
    IndexOfIs(line, '=', |name|);
  }

  lemma SettingIsAssignment(name: string, value: string)
    requires name != "" && forall c :: c in name ==> NameChar(c)
    ensures IsAssignment(HeaderSetting(name, value))
  {
    SettingName(name, value);
    TrimTight(name);
  }

  lemma AssignmentParses(st: ParseState, line: string)
    requires line != "" && Tight(line) && line[0] != '#' && line[0] != '@' && IsAssignment(line)
    ensures ParseOne(st, line) == st.(pending := "")
  {
    TrimTight(line);
  }

  lemma SettingParses(st: ParseState, name: string, value: string)
    requires name != "" && value != "" && st.pending == ""
    requires forall c :: c in name ==> NameChar(c)
    requires !IsSpace(value[|value| - 1]) && '\n' !in value
    ensures ParseOne(st, HeaderSetting(name, value)) == st && '\n' !in HeaderSetting(name, value)
  {
    var line := HeaderSetting(name, value);
    SettingName(name, value);
    assert line[0] == name[0] && line[|line| - 1] == value[|value| - 1];
    SettingIsAssignment(name, value);
    AssignmentParses(st, line);
  }

  // ----- the round trip ------------------------------------------------------

  /** What reading its own printed line back makes of a job, the note aside. */
  function ReadJob(j: Job, comment: string): Job {
    Job(0, NormalizeSchedule(j.schedule), Unescaped(TrimSpace(j.command)), comment, j.enabled)
  }

  /** The jobs a note line is mistaken for: one that reads like a disabled job. */
  function NoteJobs(note: string): seq<Job> {
    if HeaderNote(note) || !(Disabled() <= note) then []
    else match LineJob(note[|Disabled()|..]) case None => [] case Some(x) => [x]
  }

  /** The note still pending after a note line: none when it reads like the
      panel's own. */
  function NoteKept(note: string): string {
    if HeaderNote(note) || Disabled() <= note then "" else note
  }

  /** Everything the parser takes from one job's printed text. */
  function ReadBack(j: Job): seq<Job> {
    var note := TrimSpace(j.comment);
    NoteJobs(note) + [ReadJob(j, NoteKept(note))]
  }

  function ReadBackAll(js: seq<Job>): seq<Job> {
    if js == [] then [] else ReadBack(js[0]) + ReadBackAll(js[1..])
  }

  lemma MarkedLine(j: Job)
    requires !j.enabled
    ensures Mark(j) + CommandLine(j) == "# " + (Disabled() + CommandLine(j))
  {
    Associate("# ", Disabled(), CommandLine(j));
  }

  lemma DisabledIsNoHeader(rest: string)
    ensures !HeaderNote(Disabled() + rest) && Disabled() <= Disabled() + rest
    ensures (Disabled() + rest)[|Disabled()|..] == rest
    ensures Disabled()[0] == 'd' && '\n' !in Disabled()
  {
  }

  lemma DisabledLineParses(st: ParseState, line: string)
    requires line != "" && Tight(line) && LineJob(line).Some?
    ensures ParseOne(st, "# " + (Disabled() + line)) ==
            ParseState(st.out + [LineJob(line).value.(enabled := false, comment := st.pending)], "")
  {
    DisabledIsNoHeader(line);
    assert Tight(Disabled() + line);
    ParseNoteLine(st, Disabled() + line);
  }

  lemma EnabledLineParses(st: ParseState, line: string)
    requires line != "" && Tight(line) && line[0] != '#' && !IsAssignment(line)
    requires LineJob(line).Some?
    ensures ParseOne(st, line) ==
            ParseState(st.out + [LineJob(line).value.(enabled := true, comment := st.pending)], "")
  {
    TrimTight(line);
  }

  lemma JobLineParses(st: ParseState, j: Job)
    requires Printable(j)
    ensures ParseOne(st, Mark(j) + CommandLine(j)) ==
            ParseState(st.out + [ReadJob(j, st.pending)], "")
  {
    RenderedLineShape(j);
    RenderedLineParses(j);
    if j.enabled {
      ConcatEmpty(CommandLine(j));
      EnabledLineParses(st, CommandLine(j));
    } else {
      MarkedLine(j);
      DisabledLineParses(st, CommandLine(j));
    }
  }

  lemma JobLineUnbroken(j: Job)
    requires Printable(j)
    ensures '\n' !in Mark(j) + CommandLine(j)
  {
    RenderedLineShape(j);
    DisabledIsNoHeader("");
    assert '\n' !in Mark(j);
  }

  lemma NoteLineParses(out: seq<Job>, note: string)
    requires Tight(note)
    ensures ParseOne(ParseState(out, ""), "# " + note) == ParseState(out + NoteJobs(note), NoteKept(note))
  {
    ParseNoteLine(ParseState(out, ""), note);
    LineJobPlain(if Disabled() <= note then note[|Disabled()|..] else "");
    assert out + [] == out;
  }

  lemma EmptyNote()
    ensures TrimSpace("") == "" && NoteKept("") == "" && NoteJobs("") == []
  {
  }

  /** A line's job is disabled and has no note until the caller says otherwise. */
  lemma LineJobPlain(line: string)
    ensures LineJob(line).Some? ==>
              LineJob(line).value.(enabled := false, comment := "") == LineJob(line).value
  {
  }

  /** The lines one job takes in the file. */
  function JobLines(note: string, commented: bool, line: string): seq<string> {
    if commented then ["# " + note, line] else [line]
  }

  lemma TwoLines(st: ParseState, a: string, b: string)
    ensures ParseAll(st, [a, b]) == ParseOne(ParseOne(st, a), b)
    ensures ParseAll(st, [b]) == ParseOne(st, b)
  {
    assert [a, b][1..] == [b];
    assert [b][1..] == [];
    var mid := ParseOne(st, a);
    assert ParseAll(st, [a, b]) == ParseAll(mid, [b]);
    assert ParseAll(mid, [b]) == ParseAll(ParseOne(mid, b), []);
  }

  /** The note line, then the job line, from a state with no note pending. */
  lemma BlockParses(out: seq<Job>, j: Job)
    requires Printable(j)
    ensures ParseAll(ParseState(out, ""),
                     JobLines(TrimSpace(j.comment), j.comment != "", Mark(j) + CommandLine(j))) ==
            ParseState(out + ReadBack(j), "")
  {
    var note := TrimSpace(j.comment);
    TwoLines(ParseState(out, ""), "# " + note, Mark(j) + CommandLine(j));
    if j.comment != "" {
      NoteLineParses(out, note);
    } else {
      EmptyNote();
      ConcatEmpty(out);
    }
    JobLineParses(ParseState(out + NoteJobs(note), NoteKept(note)), j);
    Associate(out, NoteJobs(note), [ReadJob(j, NoteKept(note))]);
  }

  /** One job's text splits into its own lines. */
  lemma TextSplits(note: string, commented: bool, line: string, rest: string)
    requires '\n' !in note && '\n' !in line
    ensures Split((if commented then "# " + note + "\n" else "") + (line + "\n") + rest, '\n') ==
            JobLines(note, commented, line) + Split(rest, '\n')
  {
    SplitCons(line, '\n', rest);
    if commented {
      Associate("# " + note + "\n", line + "\n", rest);
      SplitCons("# " + note, '\n', line + "\n" + rest);
      Associate(["# " + note], [line], Split(rest, '\n'));
    } else {
      assert "" + (line + "\n") == line + "\n";
    }
  }

  lemma {:induction false} JobsParse(out: seq<Job>, js: seq<Job>)
    requires forall j :: j in js ==> Printable(j)
    ensures ParseAll(ParseState(out, ""), Split(JobsText(js), '\n')) ==
            ParseState(out + ReadBackAll(js), "")
    decreases |js|
  {
    if js == [] {
      EmptyFileParses(out);
    } else {
      var j := js[0];
      var rest := JobsText(js[1..]);
      var lines := JobLines(TrimSpace(j.comment), j.comment != "", Mark(j) + CommandLine(j));
      JobLineUnbroken(j);
      TrimSubset(j.comment, '\n');
      TextSplits(TrimSpace(j.comment), j.comment != "", Mark(j) + CommandLine(j), rest);
      BlockParses(out, j);
      ParseAllAppend(ParseState(out, ""), lines, Split(rest, '\n'));
      JobsParse(out + ReadBack(j), js[1..]);
      Associate(out, ReadBack(j), ReadBackAll(js[1..]));
    }
  }

  lemma EmptyFileParses(out: seq<Job>)
    ensures ParseAll(ParseState(out, ""), Split("", '\n')) == ParseState(out + [], "")
  {
    var st := ParseState(out, "");
    assert Split("", '\n') == [""] && [""][1..] == [];
    assert ParseOne(st, "") == st;
    assert out + [] == out;
  }

  /** Sorting moves jobs around and nothing else. */
  lemma {:induction false} InsertPermutes(j: Job, js: seq<Job>)
    ensures multiset(InsertById(j, js)) == multiset(js) + multiset{j}
  {
    if js == [] || j.id <= js[0].id {
    } else {
      InsertPermutes(j, js[1..]);
      Uncons(js);
    }
  }

  lemma {:induction false} SortPermutes(js: seq<Job>)
    ensures multiset(SortById(js)) == multiset(js)
    ensures forall j :: j in SortById(js) <==> j in js
  {
    if js == [] {
    } else {
      SortPermutes(js[1..]);
      InsertPermutes(js[0], SortById(js[1..]));
      Uncons(js);
    }
    assert forall j :: j in SortById(js) <==> j in multiset(SortById(js));
    assert forall j :: j in js <==> j in multiset(js);
  }

  /** Reading a printed crontab gives back, job by job and in id order, exactly
      what each job's own lines say. */
  lemma ParseOfRender(jobs: seq<Job>)
    requires forall j :: j in jobs ==> Printable(j)
    ensures Parsed(Rendered(jobs)) == ReadBackAll(SortById(jobs))
  {
    var sorted := SortById(jobs);
    SortPermutes(jobs);
    HeaderParses();
    SplitLines(HeaderLines(), JobsText(sorted));
    ParseAllAppend(ParseState([], ""), HeaderLines(), Split(JobsText(sorted), '\n'));
    JobsParse([], sorted);
    assert [] + ReadBackAll(sorted) == ReadBackAll(sorted);
  }

  /** A job as the panel means it: white space normalised, no id. */
  function Tidy(j: Job): Job {
    Job(0, NormalizeSchedule(j.schedule), TrimSpace(j.command), TrimSpace(j.comment), j.enabled)
  }

  function TidyAll(js: seq<Job>): seq<Job> {
    if js == [] then [] else [Tidy(js[0])] + TidyAll(js[1..])
  }

  /** The jobs a crontab can carry faithfully. */
  ghost predicate Survives(j: Job) {
    && !HasEscapedPercent(TrimSpace(j.command))
    && !HeaderNote(TrimSpace(j.comment))
    && !(Disabled() <= TrimSpace(j.comment))
  }

  lemma OneJobRoundTrip(j: Job)
    ensures |ReadBack(j)| >= 1
    ensures ReadBack(j) == [Tidy(j)] <==> Survives(j)
  {
    var note := TrimSpace(j.comment);
    var kept := ReadJob(j, NoteKept(note));
    UnescapeIdentity(TrimSpace(j.command));
    NoteSurvives(note);
    assert kept == Tidy(j) <==> Survives(j);
    if NoteJobs(note) == [] {
      ConcatEmpty([kept]);
      assert [kept][0] == kept && [Tidy(j)][0] == Tidy(j);
    } else {
      assert |ReadBack(j)| > 1;
    }
  }

  lemma NoteSurvives(note: string)
    ensures NoteKept(note) == note <==> !HeaderNote(note) && !(Disabled() <= note)
    ensures NoteKept(note) == note ==> NoteJobs(note) == []
  {
    EmptyNote();
  }

  lemma {:induction false} ListRoundTrip(js: seq<Job>)
    ensures |ReadBackAll(js)| >= |js| == |TidyAll(js)|
    ensures ReadBackAll(js) == TidyAll(js) <==> forall j :: j in js ==> Survives(j)
  {
    if js == [] {
    } else {
      var a, b := ReadBack(js[0]), ReadBackAll(js[1..]);
      var c, d := [Tidy(js[0])], TidyAll(js[1..]);
      OneJobRoundTrip(js[0]);
      ListRoundTrip(js[1..]);
      SameSplit(a, b, c, d);
      Uncons(js);
      assert forall j :: j in js <==> j == js[0] || j in js[1..];
    }
  }

  lemma SameSplit(a: seq<Job>, b: seq<Job>, c: seq<Job>, d: seq<Job>)
    requires |a| >= |c| && |b| >= |d|
    ensures a + b == c + d <==> a == c && b == d
  {
    if a + b == c + d {
      assert |a| == |c| && |b| == |d|;
      TakeDrop(a, b);
      TakeDrop(c, d);
    }
  }

  /** The central law of the package: printing a set of jobs, of which every valid one
      is printable, and reading the file back gives the same jobs in id order, tidied,
      if and only if no command holds an escaped percent and no note reads like a line
      of the panel's own. */
  lemma CrontabRoundTrip(jobs: seq<Job>)
    requires forall j :: j in jobs ==> Printable(j)
    ensures Parsed(Rendered(jobs)) == TidyAll(SortById(jobs)) <==> forall j :: j in jobs ==> Survives(j)
  {
    ParseOfRender(jobs);
    SortPermutes(jobs);
    ListRoundTrip(SortById(jobs));
  }

  /** The round trip does fail for jobs the panel accepts: one command with an
      escaped percent, or one note that reads like the panel's header or like a
      disabled job, spoils any file it is in. */
  lemma OneJobSpoilsTheFile(jobs: seq<Job>, j: Job)
    requires j in jobs && forall k :: k in jobs ==> Printable(k)
    requires !Survives(j)
    ensures Parsed(Rendered(jobs)) != TidyAll(SortById(jobs))
  {
    CrontabRoundTrip(jobs);
  }

  /** A concrete job of that kind: the command `\%` with no note. */
  lemma RoundTripFails(jobs: seq<Job>, j: Job)
    requires ValidSchedule(j.schedule) && |j.comment| == 0 && jobs == [j]
    requires |j.command| == 2 && j.command[0] == '\\' && j.command[1] == '%'
    ensures ValidJob(j) && Parsed(Rendered(jobs)) != TidyAll(SortById(jobs))
  {
    PercentCommand(j.command);
    OneJobSpoilsTheFile(jobs, j);
  }

  lemma PercentCommand(cmd: string)
    requires |cmd| == 2 && cmd[0] == '\\' && cmd[1] == '%'
    ensures ValidCommand(cmd) && HasEscapedPercent(TrimSpace(cmd))
  {
    TrimTight(cmd);
    ByteLengthBound(cmd);
  }

  lemma ByteLengthBound(s: string)
    ensures ByteLength(s) <= 4 * |s|
  {
  }

  /** `* * * * *`, the panel's first preset. */
  function EveryMinute(): string {
    JoinSpace(seq(5, _ => "*"))
  }

  lemma EveryMinuteValid()
    ensures ValidSchedule(EveryMinute())
  {
    StarFields();
    WordsValid(seq(5, _ => "*"));
  }

  lemma StarFields()
    ensures forall i: nat :: i < 5 ==> ValidField("*", FieldAt(i))
    ensures IsWord("*")
  {
    assert Split("*", ',') == ["*"];
  }

  // ----- order ---------------------------------------------------------------

  ghost predicate DistinctIds(js: seq<Job>) {
    forall a, b :: 0 <= a < b < |js| ==> js[a].id != js[b].id
  }

  ghost predicate Ascending(js: seq<Job>) {
    forall a, b :: 0 <= a < b < |js| ==> js[a].id <= js[b].id
  }

  lemma {:induction false} InsertAscends(j: Job, js: seq<Job>)
    requires Ascending(js)
    ensures Ascending(InsertById(j, js))
  {
    if js == [] || j.id <= js[0].id {
    } else {
      InsertAscends(j, js[1..]);
      InsertPermutes(j, js[1..]);
      var r := InsertById(j, js[1..]);
      forall a | 0 <= a < |r| ensures js[0].id <= r[a].id {
        assert r[a] in multiset(js[1..]) + multiset{j};
      }
    }
  }

  lemma {:induction false} SortAscends(js: seq<Job>)
    ensures Ascending(SortById(js))
  {
    if js == [] {
    } else {
      SortAscends(js[1..]);
      InsertAscends(js[0], SortById(js[1..]));
    }
  }

  lemma MultisetTail(a: seq<Job>)
    requires a != []
    ensures multiset(a[1..]) == multiset(a) - multiset{a[0]}
    ensures multiset(a[1..]) <= multiset(a) && a[0] in multiset(a)
  {
    Uncons(a);
  }

  /** Among these jobs an id names one job. */
  ghost predicate IdsIdentify(m: multiset<Job>) {
    forall x, y :: x in m && y in m && x.id == y.id ==> x == y
  }

  /** The first of an ascending arrangement has the least id of them all. */
  lemma FirstIsLeast(a: seq<Job>, x: Job)
    requires Ascending(a) && x in multiset(a)
    ensures a != [] && a[0].id <= x.id
  {
    var i :| 0 <= i < |a| && a[i] == x;
  }

  lemma TailKeeps(a: seq<Job>)
    requires a != [] && Ascending(a) && IdsIdentify(multiset(a))
    ensures Ascending(a[1..]) && IdsIdentify(multiset(a[1..]))
  {
    MultisetTail(a);
  }

  /** Two ascending arrangements of jobs with different ids are the same one. */
  lemma {:induction false} AscendingUnique(a: seq<Job>, b: seq<Job>)
    requires Ascending(a) && Ascending(b) && multiset(a) == multiset(b)
    requires IdsIdentify(multiset(a))
    ensures a == b
    decreases |a|
  {
    assert |multiset(a)| == |a| && |multiset(b)| == |b|;
    if a == [] {
    } else {
      MultisetTail(a);
      MultisetTail(b);
      FirstIsLeast(a, b[0]);
      FirstIsLeast(b, a[0]);
      TailKeeps(a);
      TailKeeps(b);
      AscendingUnique(a[1..], b[1..]);
      Uncons(a);
      Uncons(b);
    }
  }

  /** The same rows always print the same file, whatever order they arrive in. */
  lemma RenderIgnoresOrder(a: seq<Job>, b: seq<Job>)
    requires multiset(a) == multiset(b) && DistinctIds(a)
    ensures Rendered(a) == Rendered(b)
  {
    SortPermutes(a);
    SortPermutes(b);
    SortAscends(a);
    SortAscends(b);
    forall x, y | x in multiset(a) && y in multiset(a) && x.id == y.id ensures x == y {
      var i :| 0 <= i < |a| && a[i] == x;
      var k :| 0 <= k < |a| && a[k] == y;
    }
    AscendingUnique(SortById(a), SortById(b));
  }
}
