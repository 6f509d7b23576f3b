/** internal/httpapi/cron_handlers.go: a crontab the panel did not write is parsed
    into rows once, and printed from them ever after. What Parse makes of an
    arbitrary text, and when the first reprint keeps it. */
module CronImport {
  import opened Wrappers
  import opened Text
  import opened Cron
  import opened CronRoundTrip

  predicate GoodNote(note: string) {
    Tight(note) && '\n' !in note && !HeaderNote(note) && !(Disabled() <= note)
  }

  /** A job as Parse gives it: checked, tidied and without an id. */
  predicate Sound(j: Job) {
    && j.id == 0
    && ValidSchedule(j.schedule) && NormalizeSchedule(j.schedule) == j.schedule
    && ValidCommand(j.command) && TrimSpace(j.command) == j.command
    && GoodNote(j.comment)
  }

  lemma NoNoteIsGood()
    ensures GoodNote("")
  {
  }

  lemma UnescapedTight(raw: string)
    requires Tight(raw)
    ensures TrimSpace(Unescaped(raw)) == Unescaped(raw)
  {
    if raw == "" {
      TrimTight("");
    } else {
      UnescapeShape(raw);
      TrimTight(Unescaped(raw));
    }
  }

  lemma JoinedIsNormal(ws: seq<string>)
    requires forall i :: 0 <= i < |ws| ==> IsWord(ws[i])
    ensures NormalizeSchedule(JoinSpace(ws)) == JoinSpace(ws)
  {
    FieldsJoin(ws);
  }

  lemma LineJobSound(line: string)
    ensures LineJob(line).Some? ==> Sound(LineJob(line).value)
  {
    var job := LineJob(line);
    if job.Some? {
      JoinedIsNormal(Fields(line)[..5]);
      UnescapedTight(TrimSpace(line[OffsetAfterFields(line, 5, false)..]));
      NoNoteIsGood();
    }
  }

  predicate NoneHolds(parts: seq<string>, c: char) {
    forall k :: 0 <= k < |parts| ==> c !in parts[k]
  }

  lemma NoneHoldsCons(first: string, rest: seq<string>, c: char)
    requires c !in first && NoneHolds(rest, c)
    ensures NoneHolds([first] + rest, c)
  {
  }

  lemma {:induction false} SplitPieces(s: string, sep: char)
    ensures NoneHolds(Split(s, sep), sep)
    decreases |s|
  {
    var i := IndexOf(s, sep);
    if i < 0 {
    } else {
      SplitPieces(s[i + 1..], sep);
      NoneHoldsCons(s[..i], Split(s[i + 1..], sep), sep);
    }
  }

  ghost predicate SoundState(st: ParseState) {
    GoodNote(st.pending) && forall j :: j in st.out ==> Sound(j)
  }

  lemma ParseOneSound(st: ParseState, line: string)
    requires SoundState(st) && '\n' !in line
    ensures SoundState(ParseOne(st, line))
  {
    var trimmed := TrimSpace(line);
    TrimSubset(line, '\n');
    NoNoteIsGood();
    if trimmed == "" {
    } else if trimmed[0] == '#' {
      var body := TrimSpace(trimmed[1..]);
      TrimSubset(trimmed[1..], '\n');
      if Disabled() <= body {
        LineJobSound(body[|Disabled()|..]);
      }
    } else {
      LineJobSound(trimmed);
    }
  }

  lemma {:induction false} ParseAllSound(st: ParseState, lines: seq<string>)
    requires SoundState(st) && NoneHolds(lines, '\n')
    ensures SoundState(ParseAll(st, lines))
    decreases |lines|
  {
    if lines == [] {
    } else {
      ParseOneSound(st, lines[0]);
      ParseAllSound(ParseOne(st, lines[0]), lines[1..]);
    }
  }

  /** Whatever text is parsed, every job in it has a valid schedule and a valid command,
      both tidied, and a note of one trimmed line that reads like none of the panel's. */
  lemma ParsedIsSound(text: string)
    ensures forall j :: j in Parsed(text) ==> Sound(j)
  {
    NoNoteIsGood();
    SplitPieces(text, '\n');
    ParseAllSound(ParseState([], ""), Split(text, '\n'));
  }

  /** The import stores what Parse gives without validating it. Such a row fails
      Validate, and so cannot be edited as it is, exactly when its note is too long or
      holds a carriage return. */
  lemma ImportedIsValidExactly(text: string, j: Job)
    requires j in Parsed(text)
    ensures ValidJob(j) <==> '\r' !in j.comment && ByteLength(j.comment) <= MAX_COMMENT_LENGTH
  {
    ParsedIsSound(text);
  }

  /** There are such texts: any printable job whose note is too long, written out. */
  lemma LongNoteIsImported(j: Job)
    requires Printable(j) && Survives(j) && ByteLength(TrimSpace(j.comment)) > MAX_COMMENT_LENGTH
    ensures Parsed(Rendered([j])) == [Tidy(j)] && !ValidJob(Tidy(j))
  {
    var js := [j];
    assert js[1..] == [];
    assert SortById(js) == [j];
    ConcatEmpty([Tidy(j)]);
    assert TidyAll(js) == [Tidy(j)] + TidyAll(js[1..]);
    CrontabRoundTrip([j]);
  }

  // ----- importing and printing again ----------------------------------------

  predicate Growing(ids: seq<int>) {
    forall a, b :: 0 <= a < b < |ids| ==> ids[a] < ids[b]
  }

  /** The rows stored for the parsed jobs, in order. */
  function Stored(js: seq<Job>, ids: seq<int>): (rows: seq<Job>)
    requires |js| == |ids|
    ensures |rows| == |js|
  {
    if js == [] then [] else [js[0].(id := ids[0])] + Stored(js[1..], ids[1..])
  }

  lemma {:induction false} StoredSorted(js: seq<Job>, ids: seq<int>)
    requires |js| == |ids| && Growing(ids)
    ensures SortById(Stored(js, ids)) == Stored(js, ids)
  {
    if js == [] {
    } else {
      StoredSorted(js[1..], ids[1..]);
      var first, rest := js[0].(id := ids[0]), Stored(js[1..], ids[1..]);
      assert Stored(js, ids)[1..] == rest;
      if rest != [] {
        assert rest[0].id == ids[1..][0] == ids[1];
      }
    }
  }

  lemma {:induction false} StoredTidy(js: seq<Job>, ids: seq<int>)
    requires |js| == |ids| && forall j :: j in js ==> Sound(j)
    ensures TidyAll(Stored(js, ids)) == js
    ensures forall r :: r in Stored(js, ids) ==> Printable(r)
    ensures (forall r :: r in Stored(js, ids) ==> Survives(r)) <==>
            forall j :: j in js ==> !HasEscapedPercent(j.command)
  {
    if js == [] {
    } else {
      var first, rest := js[0].(id := ids[0]), Stored(js[1..], ids[1..]);
      assert js[0] in js;
      StoredTidy(js[1..], ids[1..]);
      TrimTight(first.comment);
      assert Tidy(first) == js[0];
      assert Stored(js, ids) == [first] + rest && ([first] + rest)[1..] == rest;
      Uncons(js);
      assert Survives(first) <==> !HasEscapedPercent(js[0].command);
    }
  }

  /** Importing any crontab and printing it from the rows keeps its jobs, as the next
      reading sees them, if and only if none of their commands holds an escaped
      percent. */
  lemma ImportRoundTrip(text: string, ids: seq<int>)
    requires |ids| == |Parsed(text)| && Growing(ids)
    ensures Parsed(Rendered(Stored(Parsed(text), ids))) == Parsed(text) <==>
            forall j :: j in Parsed(text) ==> !HasEscapedPercent(j.command)
  {
    var js := Parsed(text);
    ParsedIsSound(text);
    StoredTidy(js, ids);
    StoredSorted(js, ids);
    CrontabRoundTrip(Stored(js, ids));
  }
}
