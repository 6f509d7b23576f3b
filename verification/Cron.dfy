/** internal/cron: validating a customer's jobs, printing them as a crontab and
    reading a crontab back into jobs. The functions say what is computed; the
    methods follow the source's loops and are proved equal to them. */
module Cron {
  import opened Wrappers
  import opened Text

  const MAX_COMMAND_LENGTH := 1000
  const MAX_COMMENT_LENGTH := 200

  datatype Job = Job(id: int, schedule: string, command: string, comment: string, enabled: bool)

  // ----- schedules ---------------------------------------------------------

  /** One position of a schedule; `names` is empty where cron takes only numbers. */
  datatype FieldRange = FieldRange(min: int, max: int, names: map<string, int>)

  function Months(): map<string, int> {
    map["jan" := 1, "feb" := 2, "mar" := 3, "apr" := 4, "may" := 5, "jun" := 6,
        "jul" := 7, "aug" := 8, "sep" := 9, "oct" := 10, "nov" := 11, "dec" := 12]
  }

  function Weekdays(): map<string, int> {
    map["sun" := 0, "mon" := 1, "tue" := 2, "wed" := 3, "thu" := 4, "fri" := 5, "sat" := 6]
  }

  function FieldAt(i: nat): FieldRange {
    if i == 0 then FieldRange(0, 59, map[])
    else if i == 1 then FieldRange(0, 23, map[])
    else if i == 2 then FieldRange(1, 31, map[])
    else if i == 3 then FieldRange(1, 12, Months())
    else FieldRange(0, 7, Weekdays())
  }

  function FieldValue(s: string, f: FieldRange): Option<int> {
    if ToLower(s) in f.names then Some(f.names[ToLower(s)])
    else
      match Atoi(s)
      case None => None
      case Some(n) => if f.min <= n <= f.max then Some(n) else None
  }

  /** One comma-separated item: a star, a value or a range, with an optional step. */
  predicate ValidItem(item: string, f: FieldRange) {
    var slash := IndexOf(item, '/');
    var body := if slash >= 0 then item[..slash] else item;
    && item != ""
    && (slash >= 0 ==> ValidStep(item[slash + 1..], f))
    && (body == "*" || ValidRange(body, f))
  }

  predicate ValidStep(step: string, f: FieldRange) {
    match Atoi(step)
    case None => false
    case Some(n) => 1 <= n <= f.max
  }

  predicate ValidRange(body: string, f: FieldRange) {
    var dash := IndexOf(body, '-');
    var lo := if dash >= 0 then body[..dash] else body;
    var hi := if dash >= 0 then body[dash + 1..] else "";
    match FieldValue(lo, f)
    case None => false
    case Some(loN) =>
      hi == "" ||
      match FieldValue(hi, f)
      case None => false
      case Some(hiN) => loN <= hiN
  }

  predicate ValidField(part: string, f: FieldRange) {
    forall k :: 0 <= k < |Split(part, ',')| ==> ValidItem(Split(part, ',')[k], f)
  }

  predicate ValidSchedule(spec: string) {
    var s := TrimSpace(spec);
    var parts := Fields(s);
    && s != "" && s[0] != '@'
    && |parts| == 5
    && forall i :: 0 <= i < 5 ==> ValidField(parts[i], FieldAt(i))
  }

  function NormalizeSchedule(spec: string): string {
    JoinSpace(Fields(spec))
  }

  // ----- commands and jobs ---------------------------------------------------

  predicate ValidCommand(cmd: string) {
    var c := TrimSpace(cmd);
    && c != ""
    && ByteLength(c) <= MAX_COMMAND_LENGTH
    && '\r' !in c && '\n' !in c
    && '\0' !in c
  }

  predicate ValidJob(j: Job) {
    && ValidSchedule(j.schedule)
    && ValidCommand(j.command)
    && '\r' !in j.comment && '\n' !in j.comment
    && ByteLength(j.comment) <= MAX_COMMENT_LENGTH
  }

  // ----- percent signs -------------------------------------------------------

  /** The escaped form of s, where afterBackslash says what came just before it. */
  function EscapeFrom(afterBackslash: bool, s: string): string
    decreases |s|
  {
    if s == "" then ""
    else if s[0] == '%' then (if afterBackslash then "%" else "\\%") + EscapeFrom(false, s[1..])
    else [s[0]] + EscapeFrom(s[0] == '\\', s[1..])
  }

  function Escaped(cmd: string): string {
    EscapeFrom(false, cmd)
  }

  /** strings.ReplaceAll(s, `\%`, `%`). */
  function Unescaped(s: string): (r: string)
    ensures |r| <= |s|
  {
    if s == "" then ""
    else if |s| >= 2 && s[0] == '\\' && s[1] == '%' then "%" + Unescaped(s[2..])
    else [s[0]] + Unescaped(s[1..])
  }

  method EscapePercent(cmd: string) returns (out: string)
    ensures out == Escaped(cmd)
  {
    out := "";
    for i := 0 to |cmd|
      invariant out + EscapeFrom(i > 0 && cmd[i - 1] == '\\', cmd[i..]) == Escaped(cmd)
    {
      TakeNext(cmd, i);
      ghost var rest := EscapeFrom(cmd[i] == '\\', cmd[i + 1..]);
      if cmd[i] == '%' {
        if i > 0 && cmd[i - 1] == '\\' {
          Associate(out, "%", rest);
          out := out + "%";
        } else {
          Associate(out, "\\%", rest);
          out := out + "\\%";
        }
      } else {
        Associate(out, [cmd[i]], rest);
        out := out + [cmd[i]];
      }
    }
    TakeAll(cmd);
  }

  // ----- printing ------------------------------------------------------------

  function Disabled(): string { "disabled: " }

  /** The lines above the jobs: five notes, an empty one, two settings and a gap. */
  function HeaderLine(i: nat): string {
    if i == 0 then HeaderPhrase("Managed by OPanel", ". Changes made", " here are replaced.")
    else if i == 1 then HeaderPhrase("Edit these under", " Cron", " in the panel.")
    else if i == 2 then "#"
    else if i == 3 then HeaderPhrase("Output is not mailed", ": this server has no", " mail transport, and cron")
    else if i == 4 then
      HeaderPhrase("that cannot deliver", " logs a failure on every run.", " Redirect what you")
    else if i == 5 then HeaderPhrase("want to keep", ", for example: >>", " $HOME/logs/cron.log 2>&1")
    else if i == 6 then HeaderSetting("MAILTO", "\"\"")
    else if i == 7 then HeaderSetting("PATH", "/usr/local/bin:/usr/bin:/bin")
    else ""
  }

  function HeaderPhrase(phrase: string, more: string, end: string): string {
    "# " + (phrase + (more + end))
  }

  function HeaderSetting(name: string, value: string): string {
    name + ("=" + value)
  }

  function HeaderLines(): seq<string> {
    seq(9, i requires 0 <= i => HeaderLine(i))
  }

  /** Every line followed by a line feed. */
  function Lines(ls: seq<string>): string {
    if ls == [] then "" else ls[0] + "\n" + Lines(ls[1..])
  }

  /** Insertion by id, the order Render prints in. */
  function InsertById(j: Job, js: seq<Job>): seq<Job> {
    if js == [] || j.id <= js[0].id then [j] + js else [js[0]] + InsertById(j, js[1..])
  }

  function SortById(js: seq<Job>): seq<Job> {
    if js == [] then [] else InsertById(js[0], SortById(js[1..]))
  }

  function CommandLine(j: Job): string {
    NormalizeSchedule(j.schedule) + " " + Escaped(TrimSpace(j.command))
  }

  function Mark(j: Job): string {
    if j.enabled then "" else "# " + Disabled()
  }

  function Note(j: Job): string {
    if j.comment != "" then "# " + TrimSpace(j.comment) + "\n" else ""
  }

  function JobText(j: Job): string {
    Note(j) + (Mark(j) + CommandLine(j) + "\n")
  }

  function JobsText(js: seq<Job>): string {
    if js == [] then "" else JobText(js[0]) + JobsText(js[1..])
  }

  function Rendered(jobs: seq<Job>): string {
    Lines(HeaderLines()) + JobsText(SortById(jobs))
  }

  lemma {:induction false} JobsTextAppend(js: seq<Job>, j: Job)
    ensures JobsText(js + [j]) == JobsText(js) + JobText(j)
  {
    if js == [] {
      assert js + [j] == [j];
      assert JobsText([j][1..]) == "";
    } else {
      assert (js + [j])[0] == js[0] && (js + [j])[1..] == js[1..] + [j];
      JobsTextAppend(js[1..], j);
      Associate(JobText(js[0]), JobsText(js[1..]), JobText(j));
    }
  }

  /** The part of Render's loop body that writes one job. */
  method RenderJob(j: Job) returns (block: string)
    ensures block == JobText(j)
  {
    block := "";
    if j.comment != "" {
      block := "# " + TrimSpace(j.comment) + "\n";
    }
    var line := "";
    if !j.enabled {
      line := "# " + Disabled();
    }
    ghost var mark := line;
    line := line + NormalizeSchedule(j.schedule);
    line := line + " ";
    var escaped := EscapePercent(TrimSpace(j.command));
    line := line + escaped;
    Regroup(mark, NormalizeSchedule(j.schedule), " ", escaped);
    block := block + (line + "\n");
  }

  method Render(jobs: seq<Job>) returns (text: string)
    ensures text == Rendered(jobs)
  {
    text := Lines(HeaderLines());
    var ordered := SortById(jobs);
    ghost var header := text;
    for k := 0 to |ordered|
      invariant text == header + JobsText(ordered[..k])
    {
      var block := RenderJob(ordered[k]);
      JobsTextAppend(ordered[..k], ordered[k]);
      TakeNext(ordered, k);
      Associate(header, JobsText(ordered[..k]), block);
      text := text + block;
    }
    TakeAll(ordered);
  }

  // ----- reading -------------------------------------------------------------

  predicate IsBlank(c: char) { c == ' ' || c == '\t' }

  function Shifted(i: int): int { if i < 0 then -1 else i + 1 }

  /** Offset just past the n'th field still to come, counting spaces and tabs
      only; -1 when the text ends first. */
  function OffsetAfterFields(s: string, n: int, inField: bool): (i: int)
    ensures -1 <= i < |s|
  {
    if s == "" then -1
    else if !IsBlank(s[0]) && !inField then Shifted(OffsetAfterFields(s[1..], n, true))
    else if IsBlank(s[0]) && inField then
      (if n == 1 then 0 else Shifted(OffsetAfterFields(s[1..], n - 1, false)))
    else Shifted(OffsetAfterFields(s[1..], n, inField))
  }

  method IndexAfterFields(s: string, n: int) returns (idx: int)
    ensures idx == OffsetAfterFields(s, n, false)
  {
    var seen, inField := 0, false;
    for i := 0 to |s|
      invariant var rest := OffsetAfterFields(s[i..], n - seen, inField);
                OffsetAfterFields(s, n, false) == if rest < 0 then -1 else rest + i
    {
      TakeNext(s, i);
      var isSpace := s[i] == ' ' || s[i] == '\t';
      if !isSpace && !inField {
        inField := true;
      } else if isSpace && inField {
        inField := false;
        seen := seen + 1;
        if seen == n {
          return i;
        }
      }
    }
    TakeAll(s);
    return -1;
  }

  predicate NameChar(c: char) {
    c == '_' || 'A' <= c <= 'Z' || 'a' <= c <= 'z' || '0' <= c <= '9'
  }

  predicate IsAssignment(line: string) {
    var idx := IndexOf(line, '=');
    && idx > 0
    && var name := TrimSpace(line[..idx]);
       && name != "" && ' ' !in name && '\t' !in name
       && forall c :: c in name ==> NameChar(c)
  }

  /** The job a crontab line holds: schedule and command only. */
  function LineJob(line: string): Option<Job> {
    var parts := Fields(line);
    if |parts| < 6 then None
    else
      var schedule := JoinSpace(parts[..5]);
      var idx := OffsetAfterFields(line, 5, false);
      if !ValidSchedule(schedule) || idx < 0 then None
      else
        var command := Unescaped(TrimSpace(line[idx..]));
        if ValidCommand(command) then Some(Job(0, schedule, command, "", false)) else None
  }

  method ParseLine(line: string) returns (j: Option<Job>)
    ensures j == LineJob(line)
  {
    var parts := Fields(line);
    if |parts| < 6 {
      return None;
    }
    var schedule := JoinSpace(parts[..5]);
    if !ValidSchedule(schedule) {
      return None;
    }
    var idx := IndexAfterFields(line, 5);
    if idx < 0 {
      return None;
    }
    var command := TrimSpace(line[idx..]);
    command := Unescaped(command);
    if !ValidCommand(command) {
      return None;
    }
    return Some(Job(0, schedule, command, "", false));
  }

  /** A note Parse takes for the panel's own header. */
  predicate HeaderNote(body: string) {
    || "Managed by OPanel" <= body
    || "Edit these under" <= body
    || "Output is not mailed" <= body
    || "that cannot deliver" <= body
    || "want to keep" <= body
  }

  datatype ParseState = ParseState(out: seq<Job>, pending: string)

  function ParseOne(st: ParseState, line: string): ParseState {
    var trimmed := TrimSpace(line);
    if trimmed == "" then st.(pending := "")
    else if trimmed[0] == '#' then
      var body := TrimSpace(trimmed[1..]);
      if HeaderNote(body) then st
      else if Disabled() <= body then
        (match LineJob(body[|Disabled()|..])
         case None => st
         case Some(j) => ParseState(st.out + [j.(enabled := false, comment := st.pending)], ""))
      else st.(pending := body)
    else if trimmed[0] != '@' && IsAssignment(trimmed) then st.(pending := "")
    else
      match LineJob(trimmed)
      case None => st.(pending := "")
      case Some(j) => ParseState(st.out + [j.(enabled := true, comment := st.pending)], "")
  }

  function ParseAll(st: ParseState, lines: seq<string>): ParseState
    decreases |lines|
  {
    if lines == [] then st else ParseAll(ParseOne(st, lines[0]), lines[1..])
  }

  function Parsed(text: string): seq<Job> {
    ParseAll(ParseState([], ""), Split(text, '\n')).out
  }

  /** The part of Parse's loop body that deals with one line. */
  method ParseStep(out: seq<Job>, pending: string, line: string)
    returns (out': seq<Job>, pending': string)
    ensures ParseState(out', pending') == ParseOne(ParseState(out, pending), line)
  {
    out', pending' := out, pending;
    var trimmed := TrimSpace(line);
    if trimmed == "" {
      pending' := "";
      return;
    }
    if trimmed[0] == '#' {
      var body := TrimSpace(trimmed[1..]);
      if HeaderNote(body) {
        return;
      }
      if Disabled() <= body {
        var j := ParseLine(body[|Disabled()|..]);
        if j.Some? {
          out' := out + [j.value.(enabled := false, comment := pending)];
          pending' := "";
        }
        return;
      }
      pending' := body;
      return;
    }
    if trimmed[0] != '@' && IsAssignment(trimmed) {
      pending' := "";
      return;
    }
    var j := ParseLine(trimmed);
    if j.Some? {
      out' := out + [j.value.(enabled := true, comment := pending)];
    }
    pending' := "";
  }

  method Parse(text: string) returns (out: seq<Job>)
    ensures out == Parsed(text)
  {
    var pending := "";
    out := [];
    var lines := Split(text, '\n');
    for k := 0 to |lines|
      invariant ParseAll(ParseState(out, pending), lines[k..]) == ParseAll(ParseState([], ""), lines)
    {
      TakeNext(lines, k);
      out, pending := ParseStep(out, pending, lines[k]);
    }
    TakeAll(lines);
  }
}
