/** The parts of Go's `strings` and `strconv` packages the panel's text code
    leans on. A string is a sequence of Unicode code points. */
module Text {
  import opened Wrappers

  /** Go's unicode.IsSpace. */
  predicate IsSpace(c: char) {
    || c == ' ' || c == '\t' || c == '\n' || c == '\r' || c == '\U{0B}' || c == '\U{0C}'
    || c == '\U{85}' || c == '\U{A0}' || c == '\U{1680}'
    || '\U{2000}' <= c <= '\U{200A}'
    || c == '\U{2028}' || c == '\U{2029}' || c == '\U{202F}' || c == '\U{205F}' || c == '\U{3000}'
  }

  /** No white space anywhere: what one field of strings.Fields looks like. */
  predicate IsWord(s: string) {
    s != "" && forall i :: 0 <= i < |s| ==> !IsSpace(s[i])
  }

  /** A string strings.TrimSpace leaves alone. */
  predicate Tight(s: string) {
    s == "" || (!IsSpace(s[0]) && !IsSpace(s[|s| - 1]))
  }

  function TrimLeft(s: string): (r: string)
    ensures |r| <= |s|
    ensures r != "" ==> !IsSpace(r[0])
  {
    if s != "" && IsSpace(s[0]) then TrimLeft(s[1..]) else s
  }

  function TrimRight(s: string): (r: string)
    ensures |r| <= |s|
    ensures r != "" ==> r[0] == s[0] && !IsSpace(r[|r| - 1])
  {
    if s != "" && IsSpace(s[|s| - 1]) then TrimRight(s[..|s| - 1]) else s
  }

  /** strings.TrimSpace. */
  function TrimSpace(s: string): (r: string)
    ensures Tight(r)
  {
    TrimRight(TrimLeft(s))
  }

  lemma {:induction false} TrimLeftSubset(s: string, c: char)
    requires c in TrimLeft(s)
    ensures c in s
  {
    if s == "" || !IsSpace(s[0]) {
    } else {
      TrimLeftSubset(s[1..], c);
    }
  }

  lemma {:induction false} TrimRightSubset(s: string, c: char)
    requires c in TrimRight(s)
    ensures c in s
  {
    if s == "" || !IsSpace(s[|s| - 1]) {
    } else {
      TrimRightSubset(s[..|s| - 1], c);
    }
  }

  /** Trimming adds no character. */
  lemma TrimSubset(s: string, c: char)
    requires c !in s
    ensures c !in TrimSpace(s)
  {
    if c in TrimSpace(s) {
      TrimRightSubset(TrimLeft(s), c);
      TrimLeftSubset(s, c);
    }
  }

  lemma TrimTight(s: string)
    requires Tight(s)
    ensures TrimSpace(s) == s
  {
  }

  lemma TrimSpacePrefix(s: string)
    requires Tight(s)
    ensures TrimSpace(" " + s) == s
  {
    assert (" " + s)[1..] == s;
    assert TrimLeft(" " + s) == TrimLeft(s) == s;
  }

  lemma TrimTrailing(s: string, c: char)
    requires Tight(s) && s != "" && IsSpace(c)
    ensures TrimSpace(s + [c]) == s
  {
    var t := s + [c];
    assert TrimLeft(t) == t;
    assert t[..|t| - 1] == s;
    assert TrimRight(t) == TrimRight(s) == s;
  }

  /** Length of the first word of a text that does not start with white space. */
  function WordLength(s: string): (n: nat)
    ensures n <= |s|
    ensures forall i :: 0 <= i < n ==> !IsSpace(s[i])
    ensures n < |s| ==> IsSpace(s[n])
  {
    if s == "" || IsSpace(s[0]) then 0 else 1 + WordLength(s[1..])
  }

  /** strings.Fields. */
  function Fields(s: string): (fs: seq<string>)
    ensures forall i :: 0 <= i < |fs| ==> IsWord(fs[i])
    decreases |s|
  {
    var t := TrimLeft(s);
    if t == "" then []
    else
      var n := WordLength(t);
      var word, rest := t[..n], Fields(t[n..]);
      assert IsWord(word);
      [word] + rest
  }

  lemma WordLengthIs(s: string, n: nat)
    requires n <= |s|
    requires forall i :: 0 <= i < n ==> !IsSpace(s[i])
    requires n < |s| ==> IsSpace(s[n])
    ensures WordLength(s) == n
  {
  }

  /** Leading blanks do not matter to Fields. */
  lemma FieldsSkipSpace(c: char, s: string)
    requires IsSpace(c)
    ensures Fields([c] + s) == Fields(s)
  {
    assert ([c] + s)[1..] == s;
    assert TrimLeft([c] + s) == TrimLeft(s);
  }

  lemma FieldsCons(w: string, rest: string)
    requires IsWord(w)
    ensures Fields(w + " " + rest) == [w] + Fields(rest)
  {
    var s := w + " " + rest;
    assert TrimLeft(s) == s;
    WordLengthIs(s, |w|);
    assert s[..|w|] == w && s[|w|..] == " " + rest;
    FieldsSkipSpace(' ', rest);
  }

  lemma FieldsWord(w: string)
    requires IsWord(w)
    ensures Fields(w) == [w]
  {
    assert TrimLeft(w) == w;
    WordLengthIs(w, |w|);
    assert w[..|w|] == w && w[|w|..] == "";
    assert Fields("") == [];
  }

  /** A text with something other than white space in it has a field. */
  lemma FieldsNonempty(s: string)
    requires s != "" && Tight(s)
    ensures Fields(s) != []
  {
    assert TrimLeft(s) == s;
  }

  /** strings.Index for one character: -1 when absent. */
  function IndexOf(s: string, c: char): (i: int)
    ensures -1 <= i < |s|
    ensures i >= 0 ==> s[i] == c && forall j :: 0 <= j < i ==> s[j] != c
    ensures i < 0 ==> c !in s
  {
    if s == "" then -1
    else if s[0] == c then 0
    else
      var i := IndexOf(s[1..], c);
      if i < 0 then -1 else i + 1
  }

  lemma IndexOfIs(s: string, c: char, i: nat)
    requires i < |s| && s[i] == c && forall j :: 0 <= j < i ==> s[j] != c
    ensures IndexOf(s, c) == i
  {
  }

  /** strings.Split on one character. */
  function Split(s: string, sep: char): (parts: seq<string>)
    ensures |parts| >= 1
    decreases |s|
  {
    var i := IndexOf(s, sep);
    if i < 0 then [s] else [s[..i]] + Split(s[i + 1..], sep)
  }

  lemma SplitCons(line: string, sep: char, rest: string)
    requires sep !in line
    ensures Split(line + [sep] + rest, sep) == [line] + Split(rest, sep)
  {
    var s := line + [sep] + rest;
    assert s[|line|] == sep;
    forall j | 0 <= j < |line| ensures s[j] != sep {
      assert s[j] == line[j];
      assert line[j] in line;
    }
    IndexOfIs(s, sep, |line|);
    assert s[..|line|] == line && s[|line| + 1..] == rest;
  }

  predicate InSomePart(parts: seq<string>, c: char) {
    exists k :: 0 <= k < |parts| && c in parts[k]
  }

  lemma InSomePartOf(first: string, rest: seq<string>, c: char)
    requires c in first || InSomePart(rest, c)
    ensures InSomePart([first] + rest, c)
  {
    var parts := [first] + rest;
    if c in first {
      assert c in parts[0];
    } else {
      var k :| 0 <= k < |rest| && c in rest[k];
      assert c in parts[k + 1];
    }
  }

  /** A character of s other than the separator ends up in one of the parts. */
  lemma {:induction false} SplitCovers(s: string, sep: char, c: char)
    requires c in s && c != sep
    ensures InSomePart(Split(s, sep), c)
    decreases |s|
  {
    var i := IndexOf(s, sep);
    if i < 0 {
      assert c in Split(s, sep)[0];
    } else {
      assert s == s[..i] + [sep] + s[i + 1..];
      if c !in s[..i] {
        SplitCovers(s[i + 1..], sep, c);
      }
      InSomePartOf(s[..i], Split(s[i + 1..], sep), c);
    }
  }

  /** strings.Join with a single space. */
  function JoinSpace(parts: seq<string>): (s: string)
  {
    if parts == [] then ""
    else if |parts| == 1 then parts[0]
    else parts[0] + " " + JoinSpace(parts[1..])
  }

  lemma {:induction false} FieldsJoin(ws: seq<string>)
    requires forall i :: 0 <= i < |ws| ==> IsWord(ws[i])
    ensures Fields(JoinSpace(ws)) == ws
  {
    if |ws| == 1 {
      FieldsWord(ws[0]);
      assert ws == [ws[0]];
    } else if |ws| > 1 {
      var tail := JoinSpace(ws[1..]);
      FieldsJoin(ws[1..]);
      FieldsCons(ws[0], tail);
      assert ws == [ws[0]] + ws[1..];
    }
  }

  lemma Associate<T>(a: seq<T>, b: seq<T>, c: seq<T>)
    ensures a + b + c == a + (b + c)
  {
  }

  lemma ConcatEmpty<T>(s: seq<T>)
    ensures [] + s == s && s + [] == s
  {
  }

  lemma TakeNext<T>(s: seq<T>, k: nat)
    requires k < |s|
    ensures s[..k + 1] == s[..k] + [s[k]]
    ensures s[k..] == [s[k]] + s[k + 1..]
    ensures s[k..][0] == s[k] && s[k..][1..] == s[k + 1..]
  {
  }

  lemma Uncons<T>(s: seq<T>)
    requires s != []
    ensures s == [s[0]] + s[1..]
  {
  }

  lemma Unsnoc<T>(s: seq<T>)
    requires s != []
    ensures s == s[..|s| - 1] + [s[|s| - 1]]
  {
  }

  lemma CutAt<T>(s: seq<T>, i: nat)
    requires i < |s|
    ensures s == s[..i] + [s[i]] + s[i + 1..]
    ensures forall c :: c in s ==> c in s[..i] || c == s[i] || c in s[i + 1..]
  {
  }

  lemma TakeDrop<T>(a: seq<T>, b: seq<T>)
    ensures (a + b)[..|a|] == a && (a + b)[|a|..] == b
  {
  }

  lemma CutWithin<T>(a: seq<T>, b: seq<T>, n: nat)
    requires n <= |a|
    ensures (a + b)[..n] == a[..n] && (a + b)[n..] == a[n..] + b
  {
  }

  lemma TakeAll<T>(s: seq<T>)
    ensures s[..|s|] == s && s[|s|..] == []
  {
  }

  lemma Regroup<T>(a: seq<T>, b: seq<T>, c: seq<T>, d: seq<T>)
    ensures a + b + c + d == a + (b + c + d)
  {
  }

  lemma {:induction false} FieldsJoinRest(ws: seq<string>, rest: string)
    requires ws != [] && forall i :: 0 <= i < |ws| ==> IsWord(ws[i])
    ensures Fields(JoinSpace(ws) + " " + rest) == ws + Fields(rest)
  {
    if |ws| == 1 {
      FieldsCons(ws[0], rest);
      assert ws == [ws[0]];
    } else {
      var tail := JoinSpace(ws[1..]) + " " + rest;
      FieldsJoinRest(ws[1..], rest);
      FieldsCons(ws[0], tail);
      Regroup(ws[0] + " ", JoinSpace(ws[1..]), " ", rest);
      Associate([ws[0]], ws[1..], Fields(rest));
      assert ws == [ws[0]] + ws[1..];
    }
  }

  /** A join of words is tight, starts like the first word, and holds only the
      words' own characters and the joining spaces. */
  lemma {:induction false} JoinShape(ws: seq<string>)
    requires ws != [] && forall i :: 0 <= i < |ws| ==> IsWord(ws[i])
    ensures JoinSpace(ws) != "" && Tight(JoinSpace(ws)) && JoinSpace(ws)[0] == ws[0][0]
    ensures forall c :: c in JoinSpace(ws) ==> c == ' ' || exists i :: 0 <= i < |ws| && c in ws[i]
  {
    if |ws| > 1 {
      JoinShape(ws[1..]);
      forall c | c in JoinSpace(ws) && c != ' '
        ensures exists i :: 0 <= i < |ws| && c in ws[i]
      {
        if c in ws[0] {
        } else {
          assert c in JoinSpace(ws[1..]);
          var i :| 0 <= i < |ws[1..]| && c in ws[1..][i];
          assert ws[i + 1] == ws[1..][i];
        }
      }
    } else {
      assert JoinSpace(ws) == ws[0];
    }
  }

  /** Bytes the UTF-8 form of a text takes: what Go's len counts. */
  function ByteLength(s: string): nat {
    if s == "" then 0
    else (if s[0] < '\U{80}' then 1 else if s[0] < '\U{800}' then 2
          else if s[0] < '\U{10000}' then 3 else 4) + ByteLength(s[1..])
  }

  /** UTF-8's ranges, as in section 3 of RFC 3629. */
  lemma BytesOfOne(c: char)
    ensures ByteLength([c]) ==
            if c as int <= 0x7F then 1 else if c as int <= 0x7FF then 2 else if c as int <= 0xFFFF then 3 else 4
  {
    assert [c][1..] == "";
  }

  /** Go's simple lower-casing, exact for every letter whose lower case is ASCII. */
  function LowerChar(c: char): char {
    if 'A' <= c <= 'Z' then (c as int + 32) as char
    else if c == '\U{130}' then 'i'
    else if c == '\U{212A}' then 'k'
    else c
  }

  function ToLower(s: string): (r: string)
    ensures |r| == |s| && forall i :: 0 <= i < |s| ==> r[i] == LowerChar(s[i])
  {
    if s == "" then "" else [LowerChar(s[0])] + ToLower(s[1..])
  }

  predicate IsDigit(c: char) { '0' <= c <= '9' }

  function DigitValue(c: char): (d: nat)
    requires IsDigit(c)
    ensures d <= 9
  {
    c as int - '0' as int
  }

  function DigitsValue(s: string): nat
    requires forall i :: 0 <= i < |s| ==> IsDigit(s[i])
  {
    if s == "" then 0 else DigitsValue(s[..|s| - 1]) * 10 + DigitValue(s[|s| - 1])
  }

  const MAX_INT64 := 0x7FFF_FFFF_FFFF_FFFF

  /** strconv.Atoi on a 64-bit machine. */
  function Atoi(s: string): (r: Option<int>)
    ensures r.Some? ==> forall c :: c in s ==> IsDigit(c) || c == '+' || c == '-'
  {
    var signed := s != "" && (s[0] == '+' || s[0] == '-');
    var body := if signed then s[1..] else s;
    if body == "" || exists i :: 0 <= i < |body| && !IsDigit(body[i]) then None
    else
      var v: int := DigitsValue(body);
      assert forall c :: c in s ==> c in body || (signed && c == s[0]);
      if signed && s[0] == '-' then (if v <= MAX_INT64 + 1 then Some(-v) else None)
      else (if v <= MAX_INT64 then Some(v) else None)
  }

  /** Byte order of two texts, which for UTF-8 is code point order: Go's < and
      SQLite's BINARY collation. */
  predicate Less(a: string, b: string) {
    b != "" && (a == "" || a[0] < b[0] || (a[0] == b[0] && Less(a[1..], b[1..])))
  }

  lemma LessIrreflexive(a: string)
    ensures !Less(a, a)
  {
  }

  lemma LessTotal(a: string, b: string)
    ensures Less(a, b) || a == b || Less(b, a)
  {
    if a != "" && b != "" && a[0] == b[0] {
      LessTotal(a[1..], b[1..]);
      assert a == [a[0]] + a[1..] && b == [b[0]] + b[1..];
    }
  }

  lemma LessTransitive(a: string, b: string, c: string)
    requires Less(a, b) && Less(b, c)
    ensures Less(a, c)
  {
  }
}
