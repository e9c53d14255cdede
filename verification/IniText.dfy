/** What src/lib/ini.c makes of the text of a file, as functions on strings: one line, and a
    file line by line. */
module IniText {
  import opened Prelude

  const NUL: char := '\0'
  const INI_MAX_LINE := 256
  const MAX_SECTION := 50

  /** The C string at the start of a buffer: what comes before the first NUL. */
  function CString(s: string): (t: string)
    ensures |t| <= |s| && s[..|t|] == t && NUL !in t
  {
    if s == [] || s[0] == NUL then "" else [s[0]] + CString(s[1..])
  }

  function RStrip(s: string): (t: string)
    ensures |t| <= |s| && s[..|t|] == t
  {
    if s == [] || !IsSpace(s[|s| - 1]) then s else RStrip(s[..|s| - 1])
  }

  function LStrip(s: string): (t: string)
    ensures |t| <= |s| && s[|s| - |t|..] == t
  {
    if s == [] || !IsSpace(s[0]) then s else LStrip(s[1..])
  }

  /** The position of the first c, or of the first ';' or '#' after white space (before says
      whether white space came just before s), or the length. */
  function Find(s: string, c: char, before: bool): (k: nat)
    ensures k <= |s|
  {
    if s == [] || s[0] == c || (before && (s[0] == ';' || s[0] == '#')) then 0
    else 1 + Find(s[1..], c, IsSpace(s[0]))
  }

  /** A string whose last character is no space loses nothing on the right. */
  lemma RStripSolid(s: string)
    requires s != [] && !IsSpace(s[|s| - 1])
    ensures RStrip(s) == s
  {
  }

  lemma LStripSolid(s: string)
    requires s == [] || !IsSpace(s[0])
    ensures LStrip(s) == s
  {
  }

  lemma FindHere(s: string, c: char, before: bool)
    requires s != [] && s[0] == c
    ensures Find(s, c, before) == 0
  {
  }

  function At(s: string, k: nat): char
    requires k <= |s|
  {
    if k < |s| then s[k] else NUL
  }

  datatype Line = Blank | Section(name: string) | Pair(name: string, value: string) | Malformed

  /** The value part: without leading space, cut at a comment, without trailing space. */
  function ValueOf(s: string): string {
    var v := LStrip(s);
    RStrip(v[..Find(v, NUL, false)])
  }

  function Truncated(s: string): string {
    s[..Min(|s|, MAX_SECTION - 1)]
  }

  function ParseLine(text: string): Line {
    ParseStripped(LStrip(RStrip(text)))
  }

  function ParseStripped(t: string): Line {
    if t == [] || t[0] == ';' || t[0] == '#' then Blank
    else if t[0] == '[' then
      var k := Find(t[1..], ']', false);
      if At(t[1..], k) == ']' then Section(Truncated(t[1..][..k])) else Malformed
    else
      var e := Find(t, '=', false);
      var k := if At(t, e) == '=' then e else Find(t, ':', false);
      if At(t, k) == '=' || At(t, k) == ':' then Pair(RStrip(t[..k]), ValueOf(t[k + 1..]))
      else Malformed
  }

  /** The two branches of ParseStripped, each with the search result that takes it. */
  lemma PairBranch(t: string, e: nat)
    requires e < |t| && t[e] == '=' && Find(t, '=', false) == e
    requires t[0] != '[' && t[0] != ';' && t[0] != '#'
    ensures ParseStripped(t) == Pair(RStrip(t[..e]), ValueOf(t[e + 1..]))
  {
    hide RStrip, Find, ValueOf;
  }

  lemma SectionBranch(t: string, k: nat)
    requires t != [] && t[0] == '['
    requires k < |t[1..]| && t[1..][k] == ']' && Find(t[1..], ']', false) == k
    ensures ParseStripped(t) == Section(Truncated(t[1..][..k]))
  {
    hide RStrip, Find, ValueOf, Truncated;
  }

  // ---------------------------------------------------------------- files

  /** fgets: up to and with the first newline, at most room characters. */
  function ChunkLength(file: string, room: nat): (n: nat)
    ensures n <= |file| && n <= room
    ensures file != [] && room > 0 ==> n > 0
  {
    if file == [] || room == 0 then 0
    else if file[0] == '\n' then 1
    else 1 + ChunkLength(file[1..], room - 1)
  }

  datatype Call = Call(section: string, name: string, value: string)

  /** The handler may depend on the calls before; true is success. */
  type Handler = (seq<Call>, Call) -> bool

  /** The error number and all handler calls, from a position in the file on. */
  function ParseFrom(file: string, lineno: nat, section: string, calls: seq<Call>, handler: Handler): (nat, seq<Call>)
    decreases |file|
  {
    hide ParseLine, CString, ChunkLength;
    if file == [] then (0, calls)
    else
      var n := ChunkLength(file, INI_MAX_LINE - 1);
      var rest := file[n..];
      match ParseLine(CString(file[..n]))
      case Blank => ParseFrom(rest, lineno + 1, section, calls, handler)
      case Section(name) => ParseFrom(rest, lineno + 1, name, calls, handler)
      case Malformed => (lineno + 1, calls)
      case Pair(name, value) =>
        var call := Call(section, name, value);
        if handler(calls, call) then ParseFrom(rest, lineno + 1, section, calls + [call], handler)
        else (lineno + 1, calls + [call])
  }

  // ---------------------------------------------------------------- meaning

  /** The lines of a file, as fgets cuts it. */
  function Lines(file: string): seq<Line>
    decreases |file|
  {
    if file == [] then []
    else
      var n := ChunkLength(file, INI_MAX_LINE - 1);
      [ParseLine(CString(file[..n]))] + Lines(file[n..])
  }

  function SectionAfter(lines: seq<Line>, section: string): string {
    if lines == [] then section
    else SectionAfter(lines[1..], if lines[0].Section? then lines[0].name else section)
  }

  /** The calls the lines stand for, whatever becomes of them. */
  function Meaning(lines: seq<Line>, section: string): seq<Call> {
    if lines == [] then []
    else
      (if lines[0].Pair? then [Call(section, lines[0].name, lines[0].value)] else [])
      + Meaning(lines[1..], if lines[0].Section? then lines[0].name else section)
  }

  /** The calls from position `from` up to n were accepted. */
  ghost predicate Accepted(calls: seq<Call>, from: nat, n: nat, handler: Handler) {
    n <= |calls| && forall i {:trigger calls[i]} :: from <= i < n ==> handler(calls[..i], calls[i])
  }

  /** The parse of some lines, after the calls in done, is their meaning up to the first line
      that is malformed or whose call is rejected; its number is error, or error is 0. */
  ghost predicate UpToFirstError(lines: seq<Line>, section: string, done: seq<Call>, handler: Handler,
                                 error: nat, calls: seq<Call>) {
    && error <= |lines|
    && (error == 0 ==>
          && calls == done + Meaning(lines, section)
          && (forall i {:trigger lines[i]} :: 0 <= i < |lines| ==> !lines[i].Malformed?)
          && Accepted(calls, |done|, |calls|, handler))
    && (error > 0 ==>
          && calls == done + Meaning(lines[..error], section)
          && (forall i {:trigger lines[i]} :: 0 <= i < error - 1 ==> !lines[i].Malformed?)
          && FailsAt(lines[error - 1], done, calls, handler))
  }

  ghost predicate FailsAt(line: Line, done: seq<Call>, calls: seq<Call>, handler: Handler) {
    if line.Malformed? then Accepted(calls, |done|, |calls|, handler)
    else
      && line.Pair? && |calls| > |done|
      && Accepted(calls, |done|, |calls| - 1, handler)
      && !handler(calls[..|calls| - 1], calls[|calls| - 1])
  }

  /** One more good line in front. */
  lemma OneLineBefore(line: Line, lines: seq<Line>, section: string, done: seq<Call>, handler: Handler,
                      error: nat, calls: seq<Call>)
    requires !Bad(line, section, done, handler)
    requires UpToFirstError(lines, SectionOf(line, section), done + CallsOf(line, section), handler, error, calls)
    ensures UpToFirstError([line] + lines, section, done, handler, if error == 0 then 0 else error + 1, calls)
  {
    var section1, done1 := SectionOf(line, section), done + CallsOf(line, section);
    var all := [line] + lines;
    assert all[1..] == lines;
    var part := if error == 0 then lines else lines[..error];
    var part1 := if error == 0 then all else all[..error + 1];
    assert part1 == [line] + part;
    MeaningAfter(line, part, section, done);
    assert calls == done1 + Meaning(part, section1);
    if line.Pair? {
      assert calls[..|done|] == done && calls[|done|] == Call(section, line.name, line.value);
    }
    assert error > 0 ==> all[error] == lines[error - 1];
  }

  lemma MeaningAfter(line: Line, lines: seq<Line>, section: string, done: seq<Call>)
    ensures done + Meaning([line] + lines, section) ==
            (done + CallsOf(line, section)) + Meaning(lines, SectionOf(line, section))
  {
    assert ([line] + lines)[1..] == lines;
    var a, b := CallsOf(line, section), Meaning(lines, SectionOf(line, section));
    assert Meaning([line] + lines, section) == a + b;
    assert done + (a + b) == (done + a) + b;
  }

  predicate Bad(line: Line, section: string, done: seq<Call>, handler: Handler) {
    line.Malformed? || (line.Pair? && !handler(done, Call(section, line.name, line.value)))
  }

  function CallsOf(line: Line, section: string): seq<Call> {
    if line.Pair? then [Call(section, line.name, line.value)] else []
  }

  function SectionOf(line: Line, section: string): string {
    if line.Section? then line.name else section
  }

  lemma BadLineFirst(line: Line, rest: seq<Line>, section: string, done: seq<Call>, handler: Handler)
    requires Bad(line, section, done, handler)
    ensures UpToFirstError([line] + rest, section, done, handler, 1, done + CallsOf(line, section))
  {
    var all := [line] + rest;
    var calls := done + CallsOf(line, section);
    assert all[..1] == [line] && [line][1..] == [];
    assert Meaning([line], section) == CallsOf(line, section) + Meaning([], SectionOf(line, section));
    assert line.Pair? ==> calls[..|calls| - 1] == done;
    assert FailsAt(line, done, calls, handler);
  }

  /** One line of the parser. */
  lemma ParseStep(file: string, lineno: nat, section: string, done: seq<Call>, handler: Handler)
    requires file != []
    ensures var n := ChunkLength(file, INI_MAX_LINE - 1);
            var line := ParseLine(CString(file[..n]));
            && n > 0
            && Lines(file) == [line] + Lines(file[n..])
            && ParseFrom(file, lineno, section, done, handler) ==
                 (if Bad(line, section, done, handler) then (lineno + 1, done + CallsOf(line, section))
                  else ParseFrom(file[n..], lineno + 1, SectionOf(line, section),
                                 done + CallsOf(line, section), handler))
  {
    assert done + [] == done;
  }

  lemma ParseEnd(lineno: nat, section: string, done: seq<Call>, handler: Handler)
    ensures ParseFrom([], lineno, section, done, handler) == (0, done)
    ensures UpToFirstError(Lines([]), section, done, handler, 0, done)
  {
    assert done + [] == done;
  }

  /** For any file, any handler and whatever section the parser starts in. */
  lemma {:induction false} ParseIsMeaning(file: string, lineno: nat, section: string, done: seq<Call>, handler: Handler)
    ensures var (e, calls) := ParseFrom(file, lineno, section, done, handler);
            && (e == 0 || e > lineno)
            && UpToFirstError(Lines(file), section, done, handler, if e == 0 then 0 else e - lineno, calls)
    decreases |file|
  {
    hide ParseFrom, Lines, ParseLine, UpToFirstError, ChunkLength, CString, Meaning;
    if file == [] {
      ParseEnd(lineno, section, done, handler);
    } else {
      ParseStep(file, lineno, section, done, handler);
      var n := ChunkLength(file, INI_MAX_LINE - 1);
      var line := ParseLine(CString(file[..n]));
      if Bad(line, section, done, handler) {
        BadLineFirst(line, Lines(file[n..]), section, done, handler);
      } else {
        var section1, done1 := SectionOf(line, section), done + CallsOf(line, section);
        ParseIsMeaning(file[n..], lineno + 1, section1, done1, handler);
        var (e, calls) := ParseFrom(file[n..], lineno + 1, section1, done1, handler);
        OneLineBefore(line, Lines(file[n..]), section, done, handler, if e == 0 then 0 else e - lineno - 1, calls);
      }
    }
  }

  // ---------------------------------------------------------------- before the first header

  /** The first line that is a header, a setting or malformed, if there is one, is no setting. */
  predicate NoPairFirst(lines: seq<Line>) {
    lines == [] || lines[0].Section? || lines[0].Malformed? || (lines[0].Blank? && NoPairFirst(lines[1..]))
  }

  /** The parser only adds to the calls made. */
  lemma {:induction false} ParseExtends(file: string, lineno: nat, section: string, done: seq<Call>, handler: Handler)
    ensures done <= ParseFrom(file, lineno, section, done, handler).1
    decreases |file|
  {
    hide ParseFrom, ParseLine, CString, ChunkLength;
    if file == [] {
      ParseEnd(lineno, section, done, handler);
    } else {
      ParseStep(file, lineno, section, done, handler);
      var n := ChunkLength(file, INI_MAX_LINE - 1);
      var line := ParseLine(CString(file[..n]));
      if !Bad(line, section, done, handler) {
        ParseExtends(file[n..], lineno + 1, SectionOf(line, section), done + CallsOf(line, section), handler);
      }
    }
  }

  /** A setting on the first line is the first call, with the section the parser is in. */
  lemma FirstCall(file: string, lineno: nat, section: string, handler: Handler)
    requires file != []
    ensures ParseLine(CString(file[..ChunkLength(file, INI_MAX_LINE - 1)])).Pair? ==>
              var calls := ParseFrom(file, lineno, section, [], handler).1;
              calls != [] && calls[0].section == section
  {
    hide ParseFrom, ParseLine, CString, ChunkLength;
    var n := ChunkLength(file, INI_MAX_LINE - 1);
    var line := ParseLine(CString(file[..n]));
    if line.Pair? {
      ParseStep(file, lineno, section, [], handler);
      var first := [] + CallsOf(line, section);
      assert |first| == 1 && first[0].section == section;
      ParseExtends(file[n..], lineno + 1, section, first, handler);
    }
  }

  /** src/lib/ini.h:16-17 promises the section "" for settings before the first header, but
      src/lib/ini.c:80 leaves it uninitialised: whatever the array holds (section0) is what
      the handler gets.  For every file and handler, the calls made are the promised ones
      exactly when that happens to be "" or the parser meets a header or a malformed line
      before any setting. */
  lemma {:induction false} PromisedSection(file: string, lineno: nat, section0: string, handler: Handler)
    ensures ParseFrom(file, lineno, section0, [], handler).1 == ParseFrom(file, lineno, "", [], handler).1 <==>
            (section0 == "" || NoPairFirst(Lines(file)))
    decreases |file|
  {
    hide ParseFrom, ParseLine, CString, ChunkLength, Lines;
    if file == [] {
      ParseEnd(lineno, section0, [], handler);
      ParseEnd(lineno, "", [], handler);
      NoLines();
    } else {
      ParseStep(file, lineno, section0, [], handler);
      ParseStep(file, lineno, "", [], handler);
      var n := ChunkLength(file, INI_MAX_LINE - 1);
      var line := ParseLine(CString(file[..n]));
      assert ([line] + Lines(file[n..]))[1..] == Lines(file[n..]);
      match line
      case Pair(_, _) =>
        FirstCall(file, lineno, section0, handler);
        FirstCall(file, lineno, "", handler);
      case Blank => PromisedSection(file[n..], lineno + 1, section0, handler);
      case _ =>
    }
  }

  /** A file of one character, a setting of empty name and value: the handler gets whatever the
      section array holds. */
  lemma JunkSection(file: string, junk: string, handler: Handler)
    requires |file| == 1 && file[0] == '='
    ensures ParseFrom(file, 0, junk, [], handler).1 == [Call(junk, "", "")]
  {
    hide ParseFrom, ParseLine, CString, ChunkLength;
    LoneChunk(file);
    LoneSeparator(file);
    ParseStep(file, 0, junk, [], handler);
    assert file[..1] == file && file[1..] == [];
    assert [] + CallsOf(Pair("", ""), junk) == [Call(junk, "", "")];
    ParseEnd(1, junk, [Call(junk, "", "")], handler);
  }

  lemma LoneChunk(file: string)
    requires |file| == 1 && file[0] == '='
    ensures ChunkLength(file, INI_MAX_LINE - 1) == 1 && CString(file) == file
  {
  }

  lemma LoneSeparator(t: string)
    requires |t| == 1 && t[0] == '='
    ensures ParseLine(t) == Pair([], [])
  {
    hide RStrip, LStrip, Find, ValueOf, ParseStripped;
    RStripSolid(t);
    LStripSolid(t);
    FindHere(t, '=', false);
    NothingThere();
    LonePair(t);
  }

  lemma LonePair(t: string)
    requires |t| == 1 && t[0] == '=' && Find(t, '=', false) == 0
    ensures ParseStripped(t) == Pair(RStrip([]), ValueOf([]))
  {
    hide RStrip, LStrip, Find, ValueOf, ParseStripped;
    assert t[..0] == [] && t[1..] == [];
    PairBranch(t, 0);
  }

  lemma NothingThere()
    ensures RStrip([]) == [] && ValueOf([]) == []
  {
    hide Find;
  }

  lemma NoLines()
    ensures Lines([]) == []
  {
  }

  // ---------------------------------------------------------------- no error

  /** The calls of the first n lines are the first calls. */
  lemma {:induction false} MeaningPrefix(lines: seq<Line>, n: nat, section: string)
    requires n <= |lines|
    ensures Meaning(lines[..n], section) <= Meaning(lines, section)
  {
    if n > 0 {
      assert lines[..n][0] == lines[0] && lines[..n][1..] == lines[1..][..n - 1];
      MeaningPrefix(lines[1..], n - 1, SectionOf(lines[0], section));
    }
  }

  /** Every line is well-formed and every call it stands for is accepted. */
  ghost predicate AllGood(lines: seq<Line>, section: string, handler: Handler) {
    && (forall i {:trigger lines[i]} :: 0 <= i < |lines| ==> !lines[i].Malformed?)
    && Accepted(Meaning(lines, section), 0, |Meaning(lines, section)|, handler)
  }

  /** An error has its cause in a line. */
  lemma ErrorHasCause(lines: seq<Line>, section: string, handler: Handler, error: nat, calls: seq<Call>)
    requires UpToFirstError(lines, section, [], handler, error, calls) && error > 0
    ensures !AllGood(lines, section, handler)
  {
    hide Meaning;
    if !lines[error - 1].Malformed? {
      var all, n := Meaning(lines, section), |calls| - 1;
      MeaningPrefix(lines, error, section);
      assert FailsAt(lines[error - 1], [], calls, handler);
      assert calls == Meaning(lines[..error], section);
      assert calls[..n] == all[..n] && calls[n] == all[n];
    }
  }

  /** The number 0 means that the file was read whole: every line is well-formed, every call
      was accepted, and the calls are all there are.  Any other number means it was not. */
  lemma WholeFile(file: string, section: string, handler: Handler)
    ensures var (error, calls) := ParseFrom(file, 0, section, [], handler);
            && (error == 0 <==> AllGood(Lines(file), section, handler))
            && (error == 0 ==> calls == Meaning(Lines(file), section))
  {
    hide ParseFrom, Lines, Meaning, Accepted;
    ParseIsMeaning(file, 0, section, [], handler);
    var (error, calls) := ParseFrom(file, 0, section, [], handler);
    if error > 0 {
      ErrorHasCause(Lines(file), section, handler, error, calls);
    } else {
      assert [] + Meaning(Lines(file), section) == Meaning(Lines(file), section);
    }
  }
}
