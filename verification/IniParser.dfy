/** The parser of src/lib/ini.c as it works: on a line buffer into which it writes NULs, with
    pointers (positions here) moved along it, and a section buffer kept from line to line.
    It is proved against the functions of IniText.dfy. */
module IniParser {
  import opened Prelude
  import opened IniText

  /** At position o of the buffer lies the C string t. */
  ghost predicate Str(a: array<char>, o: int, t: string)
    reads a
  {
    && 0 <= o && o + |t| < a.Length
    && a[o..o + |t|] == t && a[o + |t|] == NUL && NUL !in t
  }

  /** Outside of [from, to) the buffer is as before. */
  twostate predicate Kept(a: array<char>, from: int, to: int)
    reads a
  {
    forall k {:trigger a[k]} :: 0 <= k < a.Length && !(from <= k < to) ==> a[k] == old(a[k])
  }

  lemma StrAt(a: array<char>, o: nat, t: string, k: nat)
    requires Str(a, o, t) && k <= |t|
    ensures o + k < a.Length && a[o + k] == At(t, k) && (a[o + k] == NUL <==> k == |t|)
  {
    if k < |t| {
      assert a[o + k] == a[o..o + |t|][k];
      assert t[k] in t;
    }
  }

  lemma StrTail(a: array<char>, o: nat, t: string, k: nat)
    requires Str(a, o, t) && k <= |t|
    ensures Str(a, o + k, t[k..])
  {
    assert a[o + k..o + |t|] == a[o..o + |t|][k..];
    forall c | c in t[k..] ensures c in t {}
  }

  /** Writing a NUL cuts the string short. */
  lemma StrCut(a: array<char>, o: nat, t: string, k: nat)
    requires k <= |t| && o + k < a.Length && a[o..o + k] == t[..k] && a[o + k] == NUL && NUL !in t
    ensures Str(a, o, t[..k])
  {
    forall c | c in t[..k] ensures c in t {}
  }

  method StrLen(a: array<char>, o: nat, ghost t: string) returns (n: nat)
    requires Str(a, o, t)
    ensures n == |t|
  {
    hide Str;
    n := 0;
    StrAt(a, o, t, n);
    while a[o + n] != NUL
      invariant n <= |t| && o + n < a.Length && (a[o + n] == NUL <==> n == |t|)
      decreases |t| - n
    {
      n := n + 1;
      StrAt(a, o, t, n);
    }
  }

  /** rstrip. */
  method RStripInPlace(a: array<char>, o: nat, ghost t: string)
    requires Str(a, o, t)
    modifies a
    ensures Str(a, o, RStrip(t)) && Kept(a, o, o + |t|)
  {
    var n := StrLen(a, o, t);
    ghost var k := n;
    var p := o + n;
    assert t[..n] == t;
    while p > o && IsSpace(a[p - 1])
      invariant 0 <= k <= n && p == o + k && RStrip(t[..k]) == RStrip(t)
      invariant Str(a, o, t[..k]) && Kept(a, o, o + |t|)
    {
      StrAt(a, o, t[..k], k - 1);
      assert t[..k][..k - 1] == t[..k - 1];
      p := p - 1;
      k := k - 1;
      ghost var before := a[o..o + k];
      a[p] := NUL;
      assert a[o..o + k] == before;
      assert before == t[..k];
      StrCut(a, o, t, k);
    }
    if k > 0 {
      StrAt(a, o, t[..k], k - 1);
    }
  }

  lemma {:induction false} LStripIs(t: string, k: nat)
    requires k <= |t| && (forall j {:trigger t[j]} :: 0 <= j < k ==> IsSpace(t[j]))
    requires k < |t| ==> !IsSpace(t[k])
    ensures LStrip(t) == t[k..]
  {
    if k > 0 {
      LStripIs(t[1..], k - 1);
      assert t[1..][k - 1..] == t[k..];
    }
  }

  /** lskip. */
  method LSkip(a: array<char>, o: nat, ghost t: string) returns (s: nat)
    requires Str(a, o, t)
    ensures s == o + |t| - |LStrip(t)| && Str(a, s, LStrip(t))
  {
    hide Str;
    s := o;
    ghost var k := 0;
    StrAt(a, o, t, 0);
    while IsSpace(a[s])
      invariant 0 <= k <= |t| && s == o + k && s < a.Length && a[s] == At(t, k)
      invariant forall j {:trigger t[j]} :: 0 <= j < k ==> IsSpace(t[j])
      decreases |t| - k
    {
      s := s + 1;
      k := k + 1;
      StrAt(a, o, t, k);
    }
    LStripIs(t, k);
    StrTail(a, o, t, k);
  }

  /** find_char_or_comment. */
  method FindCharOrComment(a: array<char>, o: nat, c: char, ghost t: string) returns (s: nat)
    requires Str(a, o, t)
    ensures s == o + Find(t, c, false) && s < a.Length && a[s] == At(t, s - o)
  {
    hide Str;
    s := o;
    ghost var k := 0;
    var wasSpace := false;
    assert t[0..] == t;
    StrAt(a, o, t, 0);
    while a[s] != NUL && a[s] != c && !(wasSpace && (a[s] == ';' || a[s] == '#'))
      invariant 0 <= k <= |t| && s == o + k
      invariant s < a.Length && a[s] == At(t, k) && (a[s] == NUL <==> k == |t|)
      invariant Find(t, c, false) == k + Find(t[k..], c, wasSpace)
      decreases |t| - k
    {
      assert t[k..][1..] == t[k + 1..];
      wasSpace := IsSpace(a[s]);
      s := s + 1;
      k := k + 1;
      StrAt(a, o, t, k);
    }
  }

  /** strncpy0 into the section buffer. */
  method StrNCpy0(dest: array<char>, a: array<char>, o: nat, ghost t: string)
    requires Str(a, o, t) && dest != a && dest.Length == MAX_SECTION
    modifies dest
    ensures Str(dest, 0, Truncated(t))
  {
    var n := StrLen(a, o, t);
    for i := 0 to dest.Length
      invariant forall k {:trigger dest[k]} :: 0 <= k < i ==> dest[k] == if k < n then a[o + k] else NUL
    {
      dest[i] := if i < n then a[o + i] else NUL;
    }
    dest[dest.Length - 1] := NUL;
    ghost var u := Truncated(t);
    forall k | 0 <= k < |u| ensures dest[k] == u[k] {
      assert a[o + k] == a[o..o + |t|][k];
    }
    assert dest[0..|u|] == u;
    assert forall c :: c in u ==> c in t;
  }

  // ---------------------------------------------------------------- one line

  /** What becomes of a line: the arguments for the handler, or that it is malformed. */
  datatype Verdict = Nothing | ForHandler(name: string, value: string) | Wrong

  function VerdictOf(line: Line): Verdict {
    match line
    case Pair(name, value) => ForHandler(name, value)
    case Malformed => Wrong
    case _ => Nothing
  }

  /** The text at a position, as a handler given the pointer would see it. */
  method Text(a: array<char>, o: nat, ghost t: string) returns (r: string)
    requires Str(a, o, t)
    ensures r == t
  {
    var n := StrLen(a, o, t);
    r := a[o..o + n];
  }

  /** The value, from just after the separator: where it starts in the buffer. */
  method ValueInPlace(a: array<char>, o: nat, ghost t: string) returns (value: nat)
    requires Str(a, o, t)
    modifies a
    ensures Str(a, value, ValueOf(t)) && Kept(a, o, o + |t|)
  {
    hide LStrip, RStrip, Find;
    value := LSkip(a, o, t);
    ghost var v := LStrip(t);
    var end := FindCharOrComment(a, value, NUL, v);
    ghost var k := end - value;
    if a[end] == ';' || a[end] == '#' {
      ghost var before := a[value..end];
      assert before == v[..k];
      a[end] := NUL;
      assert a[value..end] == before;
    }
    FindNul(v, k);
    StrCut(a, value, v, k);
    RStripInPlace(a, value, v[..k]);
  }

  lemma FindNul(v: string, k: nat)
    requires NUL !in v && k == Find(v, NUL, false)
    ensures At(v, k) == NUL || At(v, k) == ';' || At(v, k) == '#'
    ensures At(v, k) == NUL ==> k == |v|
  {
    FindStops(v, NUL, false);
  }

  lemma {:induction false} FindStops(s: string, c: char, before: bool)
    requires NUL !in s
    ensures var k := Find(s, c, before);
            k == |s| || s[k] == c || s[k] == ';' || s[k] == '#'
  {
    if s != [] && s[0] != c && !(before && (s[0] == ';' || s[0] == '#')) {
      FindStops(s[1..], c, IsSpace(s[0]));
    }
  }

  /** The name=value branch, for a line that lies at start. */
  method PairLine(a: array<char>, start: nat, ghost t: string) returns (v: Verdict)
    requires Str(a, start, t) && t != [] && t[0] != '[' && t[0] != ';' && t[0] != '#'
    modifies a
    ensures v == VerdictOf(ParseStripped(t))
  {
    hide LStrip, RStrip, Find, ValueOf, Str;
    var end := FindCharOrComment(a, start, '=', t);
    if a[end] != '=' {
      end := FindCharOrComment(a, start, ':', t);
    }
    ghost var k := end - start;
    if a[end] == '=' || a[end] == ':' {
      v := SplitAt(a, start, end, t);
    } else {
      v := Wrong;
    }
  }

  /** The string t at position o of a buffer with these contents. */
  ghost predicate StrIn(contents: string, o: int, t: string) {
    && 0 <= o && o + |t| < |contents|
    && contents[o..o + |t|] == t && contents[o + |t|] == NUL && NUL !in t
  }

  /** A string that lies outside of what was changed is still there. */
  lemma StrKept(a: array<char>, was: string, o: nat, t: string, from: int, to: int)
    requires StrIn(was, o, t) && |was| == a.Length && (o + |t| < from || to <= o)
    requires forall k {:trigger a[k]} :: 0 <= k < a.Length && !(from <= k < to) ==> a[k] == was[k]
    ensures Str(a, o, t)
  {
    assert a[o..o + |t|] == was[o..o + |t|];
  }

  lemma StrNow(a: array<char>, o: nat, t: string)
    requires Str(a, o, t)
    ensures StrIn(a[..], o, t)
  {
    assert a[..][o..o + |t|] == a[o..o + |t|];
  }

  /** A NUL at the separator makes two strings of one. */
  method CutAt(a: array<char>, start: nat, end: nat, ghost t: string)
    requires Str(a, start, t) && start <= end < start + |t|
    modifies a
    ensures Str(a, start, t[..end - start]) && Str(a, end + 1, t[end - start + 1..])
  {
    ghost var k := end - start;
    StrTail(a, start, t, k + 1);
    StrNow(a, end + 1, t[k + 1..]);
    ghost var was := a[..];
    ghost var before := a[start..end];
    assert a[start..start + |t|][..k] == before;
    a[end] := NUL;
    assert a[start..end] == before;
    StrCut(a, start, t, k);
    StrKept(a, was, end + 1, t[k + 1..], end, end + 1);
  }

  /** The line is cut in two at the separator; both parts are trimmed where they lie. */
  method SplitAt(a: array<char>, start: nat, end: nat, ghost t: string) returns (v: Verdict)
    requires Str(a, start, t) && start <= end < start + |t|
    modifies a
    ensures v == ForHandler(RStrip(t[..end - start]), ValueOf(t[end - start + 1..]))
  {
    hide LStrip, RStrip, Find, ValueOf, Str;
    ghost var k := end - start;
    ghost var rest := t[k + 1..];
    CutAt(a, start, end, t);
    StrNow(a, end + 1, rest);
    ghost var cut := a[..];
    RStripInPlace(a, start, t[..k]);
    StrKept(a, cut, end + 1, rest, start, start + k);
    ghost var name := RStrip(t[..k]);
    StrNow(a, start, name);
    ghost var trimmed := a[..];
    var value := ValueInPlace(a, end + 1, rest);
    StrKept(a, trimmed, start, name, end + 1, end + 1 + |rest|);
    var nameText := Text(a, start, name);
    var valueText := Text(a, value, ValueOf(rest));
    v := ForHandler(nameText, valueText);
  }

  /** The section branch. */
  method SectionLine(a: array<char>, start: nat, section: array<char>, ghost t: string, ghost name: string)
    returns (v: Verdict)
    requires Str(a, start, t) && t != [] && t[0] == '['
    requires section != a && section.Length == MAX_SECTION && Str(section, 0, name)
    modifies a, section
    ensures v == VerdictOf(ParseStripped(t))
    ensures Str(section, 0, SectionOf(ParseStripped(t), name))
  {
    StrTail(a, start, t, 1);
    ghost var u := t[1..];
    var end := FindCharOrComment(a, start + 1, ']', u);
    ghost var k := end - (start + 1);
    if a[end] == ']' {
      ghost var before := a[start + 1..end];
      assert before == u[..k];
      a[end] := NUL;
      assert a[start + 1..end] == before;
      StrCut(a, start + 1, u, k);
      StrNCpy0(section, a, start + 1, u[..k]);
      v := Nothing;
    } else {
      v := Wrong;
    }
  }

  /** One line, in the buffer from its start. */
  method LineInPlace(a: array<char>, section: array<char>, ghost t: string, ghost name: string) returns (v: Verdict)
    requires Str(a, 0, t) && section != a && section.Length == MAX_SECTION && Str(section, 0, name)
    modifies a, section
    ensures v == VerdictOf(ParseLine(t))
    ensures Str(section, 0, SectionOf(ParseLine(t), name))
  {
    hide LStrip, RStrip, Find, ValueOf, Str;
    RStripInPlace(a, 0, t);
    var start := LSkip(a, 0, RStrip(t));
    ghost var u := LStrip(RStrip(t));
    StrAt(a, start, u, 0);
    if a[start] == ';' || a[start] == '#' {
      v := Nothing;
    } else if a[start] == '[' {
      v := SectionLine(a, start, section, u, name);
    } else if a[start] != NUL && a[start] != ';' {
      v := PairLine(a, start, u);
    } else {
      v := Nothing;
    }
  }

  // ---------------------------------------------------------------- the file

  /** fgets: the next characters of the file into the line buffer, and a NUL. */
  method FGets(a: array<char>, file: string) returns (n: nat)
    requires a.Length == INI_MAX_LINE && file != []
    modifies a
    ensures n == ChunkLength(file, INI_MAX_LINE - 1) && Str(a, 0, CString(file[..n]))
  {
    n := ChunkLength(file, INI_MAX_LINE - 1);
    forall i | 0 <= i < n {
      a[i] := file[i];
    }
    a[n] := NUL;
    ghost var t := CString(file[..n]);
    assert a[0..|t|] == t;
    CStringEnds(file[..n]);
  }

  lemma {:induction false} CStringEnds(s: string)
    ensures |CString(s)| < |s| ==> s[|CString(s)|] == NUL
  {
    if s != [] && s[0] != NUL {
      CStringEnds(s[1..]);
    }
  }

  /** ini_parse_file.  The section buffer starts with whatever the stack holds; section0 is
      the string in it. */
  method IniParseFile(file: string, section: array<char>, ghost section0: string, handler: Handler)
    returns (error: nat, calls: seq<Call>)
    requires section.Length == MAX_SECTION && Str(section, 0, section0)
    modifies section
    ensures (error, calls) == ParseFrom(file, 0, section0, [], handler)
  {
    hide ParseFrom, ParseLine, CString, ChunkLength, Str;
    var line := new char[INI_MAX_LINE];
    var lineno := 0;
    var rest := file;
    error, calls := 0, [];
    ghost var name := section0;
    while rest != [] && error == 0
      invariant Str(section, 0, name) && fresh(line) && line.Length == INI_MAX_LINE
      invariant error == 0 ==>
                  ParseFrom(rest, lineno, name, calls, handler) == ParseFrom(file, 0, section0, [], handler)
      invariant error > 0 ==> (error, calls) == ParseFrom(file, 0, section0, [], handler)
      decreases |rest|
    {
      ParseStep(rest, lineno, name, calls, handler);
      ghost var name0, calls0 := name, calls;
      var n := FGets(line, rest);
      lineno := lineno + 1;
      ghost var parsed := ParseLine(CString(rest[..n]));
      var v := LineInPlace(line, section, CString(rest[..n]), name);
      match v {
        case Nothing =>
          name := SectionOf(parsed, name);
        case Wrong =>
          error := lineno;
        case ForHandler(key, value) =>
          var sectionText := Text(section, 0, name);
          var call := Call(sectionText, key, value);
          var ok := handler(calls, call);
          calls := calls + [call];
          if !ok {
            error := lineno;
          }
      }
      assert calls == calls0 + CallsOf(parsed, name0);
      rest := rest[n..];
    }
    if error == 0 {
      ParseEnd(lineno, name, calls, handler);
    }
  }
}
