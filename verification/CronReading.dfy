/** internal/cron/cron.go Parse on crontabs somebody else wrote: what one line holds,
    whatever separates its fields, and which note a job is given. */
module CronReading {
  import opened Wrappers
  import opened Text
  import opened Cron
  import opened CronRoundTrip

  // ----- one line, any spaces and tabs ----------------------------------------

  predicate Gap(s: string) {
    s != "" && forall i :: 0 <= i < |s| ==> s[i] == ' ' || s[i] == '\t'
  }

  /** Words, each followed by its gap. */
  function Spaced(ws: seq<string>, gaps: seq<string>): string
    requires |ws| == |gaps|
  {
    if ws == [] then "" else ws[0] + (gaps[0] + Spaced(ws[1..], gaps[1..]))
  }

  lemma {:induction false} FieldsSkipGap(gap: string, rest: string)
    requires forall i :: 0 <= i < |gap| ==> gap[i] == ' ' || gap[i] == '\t'
    ensures Fields(gap + rest) == Fields(rest)
    decreases |gap|
  {
    if gap == "" {
      assert gap + rest == rest;
    } else {
      FieldsSkipSpace(gap[0], gap[1..] + rest);
      assert gap + rest == [gap[0]] + (gap[1..] + rest);
      FieldsSkipGap(gap[1..], rest);
    }
  }

  lemma FieldsGapCons(w: string, gap: string, rest: string)
    requires IsWord(w) && Gap(gap)
    ensures Fields(w + (gap + rest)) == [w] + Fields(rest)
  {
    var s := w + (gap + rest);
    assert s[0] == w[0] && s[|w|] == gap[0];
    assert TrimLeft(s) == s;
    WordLengthIs(s, |w|);
    assert s[..|w|] == w && s[|w|..] == gap + rest;
    FieldsSkipGap(gap, rest);
  }

  lemma {:induction false} FieldsSpaced(ws: seq<string>, gaps: seq<string>, rest: string)
    requires |ws| == |gaps| && forall i :: 0 <= i < |ws| ==> IsWord(ws[i]) && Gap(gaps[i])
    ensures Fields(Spaced(ws, gaps) + rest) == ws + Fields(rest)
  {
    if ws == [] {
      assert Spaced(ws, gaps) + rest == rest;
      assert ws + Fields(rest) == Fields(rest);
    } else {
      var tail := Spaced(ws[1..], gaps[1..]);
      FieldsSpaced(ws[1..], gaps[1..], rest);
      FieldsGapCons(ws[0], gaps[0], tail + rest);
      assert Spaced(ws, gaps) + rest == ws[0] + (gaps[0] + (tail + rest));
      Uncons(ws);
      Associate([ws[0]], ws[1..], Fields(rest));
    }
  }

  lemma {:induction false} OffsetThroughWord(w: string, gap: string, rest: string, n: int)
    requires IsWord(w) && Gap(gap)
    ensures OffsetAfterFields(w + (gap + rest), n, false) == OffsetAfterFields(w + (gap + rest), n, true)
    ensures OffsetAfterFields(w + (gap + rest), n, true) ==
            if n == 1 then |w|
            else var o := OffsetAfterFields(gap[1..] + rest, n - 1, false);
                 if o < 0 then -1 else |w| + 1 + o
    decreases |w|
  {
    var s := w + (gap + rest);
    if |w| == 1 {
      assert s[1..] == gap + rest && (gap + rest)[1..] == gap[1..] + rest;
    } else {
      assert s[1..] == w[1..] + (gap + rest);
      OffsetThroughWord(w[1..], gap, rest, n);
    }
  }

  lemma {:induction false} OffsetThroughGap(gap: string, rest: string, n: int)
    requires forall i :: 0 <= i < |gap| ==> gap[i] == ' ' || gap[i] == '\t'
    ensures OffsetAfterFields(gap + rest, n, false) ==
            var o := OffsetAfterFields(rest, n, false); if o < 0 then -1 else |gap| + o
    decreases |gap|
  {
    if gap == "" {
      assert gap + rest == rest;
    } else {
      assert (gap + rest)[1..] == gap[1..] + rest;
      OffsetThroughGap(gap[1..], rest, n);
    }
  }

  lemma {:induction false} SpacedEnds(ws: seq<string>, gaps: seq<string>, rest: string)
    requires |ws| == |gaps| > 0
    ensures var line := Spaced(ws, gaps) + rest;
            var last := gaps[|gaps| - 1];
            && |last| <= |Spaced(ws, gaps)|
            && line[|Spaced(ws, gaps)| - |last|..] == last + rest
    decreases |ws|
  {
    var tail := Spaced(ws[1..], gaps[1..]);
    if |ws| == 1 {
      assert tail == "";
    } else {
      SpacedEnds(ws[1..], gaps[1..], rest);
      assert gaps[1..][|gaps| - 2] == gaps[|gaps| - 1];
      assert Spaced(ws, gaps) + rest == (ws[0] + gaps[0]) + (tail + rest);
    }
  }

  lemma {:induction false} OffsetSpaced(ws: seq<string>, gaps: seq<string>, rest: string)
    requires |ws| == |gaps| > 0 && forall i :: 0 <= i < |ws| ==> IsWord(ws[i]) && Gap(gaps[i])
    ensures OffsetAfterFields(Spaced(ws, gaps) + rest, |ws|, false) ==
            |Spaced(ws, gaps)| - |gaps[|gaps| - 1]|
    decreases |ws|
  {
    var tail := Spaced(ws[1..], gaps[1..]);
    assert Spaced(ws, gaps) + rest == ws[0] + (gaps[0] + (tail + rest));
    OffsetThroughWord(ws[0], gaps[0], tail + rest, |ws|);
    if |ws| == 1 {
      assert tail == "";
    } else {
      OffsetThroughGap(gaps[0][1..], tail + rest, |ws| - 1);
      OffsetSpaced(ws[1..], gaps[1..], rest);
      SpacedEnds(ws[1..], gaps[1..], rest);
      assert gaps[1..][|gaps| - 2] == gaps[|gaps| - 1];
    }
  }

  lemma {:induction false} TrimGap(gap: string, cmd: string)
    requires forall i :: 0 <= i < |gap| ==> gap[i] == ' ' || gap[i] == '\t'
    requires Tight(cmd)
    ensures TrimSpace(gap + cmd) == cmd
    decreases |gap|
  {
    if gap == "" {
      assert gap + cmd == cmd;
      TrimTight(cmd);
    } else {
      assert (gap + cmd)[1..] == gap[1..] + cmd;
      TrimGap(gap[1..], cmd);
    }
  }

  /** How a job is printed, whatever white space its schedule was typed with: its note,
      if it has one, then the mark of a disabled job, five words a space apart, and the
      escaped command, each without white space around it. */
  lemma PrintedJob(j: Job, ws: seq<string>, gaps: seq<string>)
    requires |ws| == |gaps| == 5 && forall i :: 0 <= i < 5 ==> IsWord(ws[i]) && Gap(gaps[i])
    requires j.schedule == Spaced(ws, gaps)
    ensures JobText(j) ==
            (if j.comment == "" then "" else "# " + TrimSpace(j.comment) + "\n")
            + ((if j.enabled then "" else "# disabled: ")
               + (JoinSpace(ws) + " " + Escaped(TrimSpace(j.command))) + "\n")
  {
    FieldsSpaced(ws, gaps, "");
    ConcatEmpty(Spaced(ws, gaps));
    ConcatEmpty(ws);
    assert "# " + Disabled() == "# disabled: ";
  }

  lemma LineJobIs(line: string, ws: seq<string>, cmd: string, idx: int)
    requires |ws| == 5 && |Fields(line)| >= 6 && Fields(line)[..5] == ws && ValidSchedule(JoinSpace(ws))
    requires OffsetAfterFields(line, 5, false) == idx && 0 <= idx <= |line| && TrimSpace(line[idx..]) == cmd
    requires ValidCommand(Unescaped(cmd))
    ensures LineJob(line) == Some(Job(0, JoinSpace(ws), Unescaped(cmd), "", false))
  {
  }

  /** Five words that make a valid schedule, with any mix of spaces and tabs after
      each, and then a command: the line is that job. */
  lemma SpacedLineReads(ws: seq<string>, gaps: seq<string>, cmd: string)
    requires |ws| == |gaps| == 5 && forall i :: 0 <= i < 5 ==> IsWord(ws[i]) && Gap(gaps[i])
    requires ValidSchedule(JoinSpace(ws))
    requires cmd != "" && Tight(cmd) && ValidCommand(Unescaped(cmd))
    ensures LineJob(Spaced(ws, gaps) + cmd) == Some(Job(0, JoinSpace(ws), Unescaped(cmd), "", false))
  {
    FieldsSpaced(ws, gaps, cmd);
    FieldsNonempty(cmd);
    TakeDrop(ws, Fields(cmd));
    OffsetSpaced(ws, gaps, cmd);
    SpacedEnds(ws, gaps, cmd);
    TrimGap(gaps[4], cmd);
    LineJobIs(Spaced(ws, gaps) + cmd, ws, cmd, |Spaced(ws, gaps)| - |gaps[4]|);
  }

  lemma FrontParts(a: string, b: string, c: string, x: string, rest: string)
    ensures a + (b + (c + x)) + rest == a + b + c + (x + rest)
    ensures a + b + c <= a + b + c + (x + rest)
  {
  }

  lemma SpacedStart(ws: seq<string>, gaps: seq<string>, rest: string)
    requires |ws| == |gaps| >= 2
    ensures ws[0] + gaps[0] + ws[1] <= Spaced(ws, gaps) + rest
  {
    var ws', gaps' := ws[1..], gaps[1..];
    FrontParts(ws[0], gaps[0], ws'[0], gaps'[0] + Spaced(ws'[1..], gaps'[1..]), rest);
  }

  predicate Blank(s: string) {
    s != "" && forall i :: 0 <= i < |s| ==> IsSpace(s[i])
  }

  /** Two words before the first equals sign are no variable's name. */
  lemma TwoWordsNoAssignment(line: string, a: string, gap: string, b: string)
    requires IsWord(a) && Blank(gap) && IsWord(b) && a + gap + b <= line
    requires '=' !in a && '=' !in b
    ensures !IsAssignment(line)
  {
    var p := a + gap + b;
    var idx := IndexOf(line, '=');
    if idx > 0 {
      forall i | 0 <= i < |p| ensures line[i] != '=' {
        assert p[i] in a || p[i] in gap || p[i] in b;
      }
      var before := line[..idx];
      assert p <= before;
      assert before[0] == a[0] && TrimLeft(before) == before;
      assert p[|p| - 1] == b[|b| - 1];
      TrimRightKeeps(p, before);
      var name := TrimSpace(before);
      assert name[|a|] == p[|a|] == gap[0];
      assert name[|a|] in name && !NameChar(gap[0]);
    }
  }

  lemma NoBreakOneLine(text: string)
    requires '\n' !in text
    ensures Split(text, '\n') == [text]
  {
    assert IndexOf(text, '\n') < 0;
  }

  /** A crontab of that one line is that one job, enabled and without a note, whatever
      mix of spaces and tabs it uses. */
  lemma SpacedLineParses(ws: seq<string>, gaps: seq<string>, cmd: string)
    requires |ws| == |gaps| == 5 && forall i :: 0 <= i < 5 ==> IsWord(ws[i]) && Gap(gaps[i])
    requires ValidSchedule(JoinSpace(ws))
    requires cmd != "" && Tight(cmd) && '\n' !in cmd && ValidCommand(Unescaped(cmd))
    ensures Parsed(Spaced(ws, gaps) + cmd) == [Job(0, JoinSpace(ws), Unescaped(cmd), "", true)]
  {
    var line := Spaced(ws, gaps) + cmd;
    SpacedLineReads(ws, gaps, cmd);
    SpacedStart(ws, gaps, cmd);
    FieldsJoin(ws);
    NormalizedSchedule(JoinSpace(ws));
    FieldsOfTrim(JoinSpace(ws));
    FieldNotForeign(ws[0], 0, '=');
    FieldNotForeign(ws[1], 1, '=');
    TwoWordsNoAssignment(line, ws[0], gaps[0], ws[1]);
    SpacedUnbroken(ws, gaps);
    assert line[0] == ws[0][0] && line[|line| - 1] == cmd[|cmd| - 1];
    TrimTight(line);
    NoBreakOneLine(line);
    OneLineParses(line);
  }

  /** One line that is trimmed, and neither a comment nor an assignment. */
  lemma OneLineParses(line: string)
    requires Split(line, '\n') == [line] && TrimSpace(line) == line
    requires line != "" && line[0] != '#' && line[0] != '@' && !IsAssignment(line)
    requires LineJob(line).Some?
    ensures Parsed(line) == [LineJob(line).value.(enabled := true, comment := "")]
  {
    var start := ParseState([], "");
    assert [line][1..] == [];
    assert ParseAll(start, [line]) == ParseOne(start, line);
    ConcatEmpty(start.out);
    assert ParseOne(start, line) == ParseState([] + [LineJob(line).value.(enabled := true, comment := "")], "");
  }

  lemma {:induction false} SpacedUnbroken(ws: seq<string>, gaps: seq<string>)
    requires |ws| == |gaps| && forall i :: 0 <= i < |ws| ==> IsWord(ws[i]) && Gap(gaps[i])
    ensures '\n' !in Spaced(ws, gaps)
  {
    if ws == [] {
    } else {
      SpacedUnbroken(ws[1..], gaps[1..]);
      assert '\n' !in ws[0] && '\n' !in gaps[0];
    }
  }

  // ----- which note a job is given ---------------------------------------------

  /** A comment line's text. */
  function NoteOf(line: string): Option<string> {
    var t := TrimSpace(line);
    if t != "" && t[0] == '#' then Some(TrimSpace(t[1..])) else None
  }

  predicate PanelsOwn(note: string) {
    || "Managed by OPanel" <= note || "Edit these under" <= note || "Output is not mailed" <= note
    || "that cannot deliver" <= note || "want to keep" <= note
  }

  /** The job on a line: a comment's when it says `disabled: `, otherwise the line's. */
  function JobOn(line: string): Option<Job> {
    match NoteOf(line)
    case Some(note) =>
      if PanelsOwn(note) || !("disabled: " <= note) then None
      else (match LineJob(note[10..]) case None => None case Some(j) => Some(j.(enabled := false)))
    case None =>
      if TrimSpace(line) == "" then None
      else match LineJob(TrimSpace(line)) case None => None case Some(j) => Some(j.(enabled := true))
  }

  /** Comments that neither hold a job nor count as a note. */
  predicate Passed(line: string) {
    NoteOf(line).Some? && JobOn(line).None?
    && (PanelsOwn(NoteOf(line).value) || "disabled: " <= NoteOf(line).value)
  }

  /** The note that stands before line k: the nearest line above that is not passed
      over, if that is a plain comment. */
  function NoteBefore(lines: seq<string>, k: nat): string
    requires k <= |lines|
  {
    if k == 0 then ""
    else if Passed(lines[k - 1]) then NoteBefore(lines, k - 1)
    else if JobOn(lines[k - 1]).None? && NoteOf(lines[k - 1]).Some? then NoteOf(lines[k - 1]).value
    else ""
  }

  function JobsUpTo(lines: seq<string>, k: nat): seq<Job>
    requires k <= |lines|
  {
    if k == 0 then []
    else
      JobsUpTo(lines, k - 1) +
      match JobOn(lines[k - 1])
      case None => []
      case Some(j) => [j.(comment := NoteBefore(lines, k - 1))]
  }

  lemma {:induction false} TrimLeftCuts(s: string) returns (k: nat)
    ensures k <= |s| && s[k..] == TrimLeft(s) && forall i :: 0 <= i < k ==> IsSpace(s[i])
  {
    if s == "" || !IsSpace(s[0]) {
      k := 0;
    } else {
      var m := TrimLeftCuts(s[1..]);
      k := m + 1;
      assert s[k..] == s[1..][m..];
      forall i | 0 <= i < k ensures IsSpace(s[i]) {
        if i > 0 {
          assert s[i] == s[1..][i - 1];
        }
      }
    }
  }

  lemma FirstField(t: string)
    requires t != "" && !IsSpace(t[0])
    ensures Fields(t) == [t[..WordLength(t)]] + Fields(t[WordLength(t)..])
  {
    assert TrimLeft(t) == t;
  }

  lemma FieldsAfter(s: string, k: nat)
    requires k <= |s| && s[k..] == TrimLeft(s)
    ensures Fields(s) == if s[k..] == "" then [] else Fields(s[k..])
  {
  }

  lemma FirstTwoFields(line: string) returns (gap: string)
    requires Tight(line) && |Fields(line)| >= 2
    ensures Blank(gap) && Fields(line)[0] + gap + Fields(line)[1] <= line
  {
    FirstField(line);
    var n := WordLength(line);
    var rest := line[n..];
    var k := TrimLeftCuts(rest);
    FieldsAfter(rest, k);
    gap := rest[..k];
    var u := rest[k..];
    FirstField(u);
    var m := WordLength(u);
    assert rest[0] == line[n];
    CutAt3(line, n, k, m);
  }

  lemma CutAt3(s: string, n: nat, k: nat, m: nat)
    requires n + k + m <= |s|
    ensures s[..n] + s[n..][..k] + s[n..][k..][..m] <= s
  {
    assert s[n..][..k] == s[n..n + k] && s[n..][k..][..m] == s[n + k..n + k + m];
    assert s[..n] + s[n..n + k] + s[n + k..n + k + m] == s[..n + k + m];
  }

  /** A variable set in a crontab is never also a job. */
  lemma AssignmentIsNoJob(line: string)
    requires Tight(line) && line != "" && LineJob(line).Some?
    ensures !IsAssignment(line)
  {
    var ws := Fields(line);
    var gap := FirstTwoFields(line);
    assert ValidSchedule(JoinSpace(ws[..5]));
    FieldsJoin(ws[..5]);
    FieldsOfTrim(JoinSpace(ws[..5]));
    FieldNotForeign(ws[0], 0, '=');
    FieldNotForeign(ws[1], 1, '=');
    TwoWordsNoAssignment(line, ws[0], gap, ws[1]);
  }

  lemma SameWords(note: string)
    ensures PanelsOwn(note) == HeaderNote(note)
    ensures ("disabled: " <= note) == (Disabled() <= note)
    ensures Disabled() <= note ==> |note| >= 10 && note[10..] == note[|Disabled()|..]
  {
  }

  /** What one line adds, and the note it leaves. */
  function Added(line: string, note: string): seq<Job> {
    match JobOn(line) case None => [] case Some(j) => [j.(comment := note)]
  }

  function Left(line: string, note: string): string {
    if Passed(line) then note
    else if JobOn(line).None? && NoteOf(line).Some? then NoteOf(line).value
    else ""
  }

  lemma CommentStep(st: ParseState, line: string)
    requires NoteOf(line).Some?
    ensures ParseOne(st, line) == ParseState(st.out + Added(line, st.pending), Left(line, st.pending))
  {
    SameWords(NoteOf(line).value);
    ConcatEmpty(st.out);
  }

  lemma PlainStep(st: ParseState, line: string)
    requires NoteOf(line).None?
    ensures ParseOne(st, line) == ParseState(st.out + Added(line, st.pending), Left(line, st.pending))
  {
    var trimmed := TrimSpace(line);
    ConcatEmpty(st.out);
    if trimmed != "" && LineJob(trimmed).Some? {
      AssignmentIsNoJob(trimmed);
    }
  }

  lemma LineStep(st: ParseState, line: string)
    ensures ParseOne(st, line) == ParseState(st.out + Added(line, st.pending), Left(line, st.pending))
  {
    if NoteOf(line).Some? {
      CommentStep(st, line);
    } else {
      PlainStep(st, line);
    }
  }

  lemma NextAdded(lines: seq<string>, k: nat)
    requires k < |lines|
    ensures JobsUpTo(lines, k + 1) == JobsUpTo(lines, k) + Added(lines[k], NoteBefore(lines, k))
    ensures NoteBefore(lines, k + 1) == Left(lines[k], NoteBefore(lines, k))
  {
  }

  lemma NextLine(st: ParseState, lines: seq<string>, k: nat)
    requires k < |lines|
    ensures ParseAll(st, lines[..k + 1]) == ParseOne(ParseAll(st, lines[..k]), lines[k])
  {
    TakeNext(lines, k);
    ParseAllAppend(st, lines[..k], [lines[k]]);
    assert [lines[k]][1..] == [];
  }

  lemma {:induction false} ParsedUpTo(lines: seq<string>, k: nat)
    requires k <= |lines|
    ensures ParseAll(ParseState([], ""), lines[..k]) == ParseState(JobsUpTo(lines, k), NoteBefore(lines, k))
    decreases k
  {
    if k == 0 {
      assert lines[..0] == [];
    } else {
      ParsedUpTo(lines, k - 1);
      var st := ParseState(JobsUpTo(lines, k - 1), NoteBefore(lines, k - 1));
      LineStep(st, lines[k - 1]);
      NextAdded(lines, k - 1);
      NextLine(ParseState([], ""), lines, k - 1);
    }
  }

  /** The forward scan with its pending note gives every job of the text, in order, the
      note that a look back from its line finds. */
  lemma JobsKeepTheNearestNote(text: string)
    ensures var lines := Split(text, '\n'); Parsed(text) == JobsUpTo(lines, |lines|)
  {
    var lines := Split(text, '\n');
    ParsedUpTo(lines, |lines|);
    TakeAll(lines);
  }
}
