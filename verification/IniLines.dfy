/** What kind of line the parser of src/lib/ini.c takes a text for, told without its searches:
    by the characters that stand in the text and where. */
module IniLines {
  import opened Prelude
  import opened IniText
  import opened IniRoundTrip

  /** A comment begins at k: a mark after white space. */
  predicate CommentAt(s: string, k: nat)
    requires k < |s|
  {
    k > 0 && IsSpace(s[k - 1]) && (s[k] == ';' || s[k] == '#')
  }

  /** At k is the first c, and no comment begins before it. */
  predicate First(s: string, c: char, k: nat) {
    k < |s| && s[k] == c && forall j: nat :: j < k ==> s[j] != c && !CommentAt(s, j)
  }

  predicate Stops(s: string, c: char, k: nat) {
    k <= |s| && (k < |s| ==> s[k] == c || CommentAt(s, k)) && forall j: nat :: j < k ==> s[j] != c && !CommentAt(s, j)
  }

  /** The search stops at the first c or comment, or at the end. */
  lemma {:induction false} FindStops(s: string, c: char, before: bool)
    ensures var k := Find(s, c, before);
            && (k < |s| ==> s[k] == c || CommentAt(s, k) || (k == 0 && before && (s[0] == ';' || s[0] == '#')))
            && (forall j: nat :: j < k ==> s[j] != c && !CommentAt(s, j))
            && (k > 0 && before ==> s[0] != ';' && s[0] != '#')
  {
    if !(s == [] || s[0] == c || (before && (s[0] == ';' || s[0] == '#'))) {
      FindStops(s[1..], c, IsSpace(s[0]));
      var k := Find(s, c, before);
      forall j: nat | j < k ensures s[j] != c && !CommentAt(s, j) {
        if j > 0 {
          assert s[j] == s[1..][j - 1];
          if j > 1 {
            assert !CommentAt(s[1..], j - 1);
          }
        }
      }
    }
  }

  lemma FindFirst(s: string, c: char)
    ensures Stops(s, c, Find(s, c, false))
    ensures forall k: nat :: First(s, c, k) <==> k == Find(s, c, false) && k < |s| && s[k] == c
  {
    FindStops(s, c, false);
    var e := Find(s, c, false);
    forall k: nat ensures First(s, c, k) <==> k == e && k < |s| && s[k] == c {}
  }

  lemma {:induction false} RStripVerdict(s: string)
    ensures AllSpace(s[|RStrip(s)|..])
    ensures RStrip(s) != [] ==> !IsSpace(RStrip(s)[|RStrip(s)| - 1])
    decreases |s|
  {
    if s != [] && IsSpace(s[|s| - 1]) {
      var init, n := s[..|s| - 1], |RStrip(s)|;
      RStripVerdict(init);
      forall i | 0 <= i < |s| - n ensures IsSpace(s[n..][i]) {
        assert i < |init| - n ==> init[n..][i] == s[n..][i];
      }
    }
  }

  lemma {:induction false} LStripVerdict(s: string)
    ensures AllSpace(s[..|s| - |LStrip(s)|])
    ensures LStrip(s) != [] ==> !IsSpace(LStrip(s)[0])
  {
    if s != [] && IsSpace(s[0]) {
      LStripVerdict(s[1..]);
      var n := |s| - |LStrip(s)|;
      assert s[..n] == [s[0]] + s[1..][..n - 1];
    }
  }

  /** t stands in the text from n to m, and only white space stands around it. */
  predicate Between(text: string, n: nat, m: nat, t: string) {
    && n <= m <= |text| && t == text[n..m]
    && (forall i :: 0 <= i < n ==> IsSpace(text[i])) && (forall i :: m <= i < |text| ==> IsSpace(text[i]))
  }

  /** What a line is judged by: the text without the white space around it. */
  lemma StrippedVerdict(text: string)
    ensures var t := LStrip(RStrip(text));
            Trimmed(t) && exists n: nat, m: nat :: Between(text, n, m, t)
  {
    hide RStrip, LStrip, Between, AllSpace;
    var s := RStrip(text);
    RStripVerdict(text);
    LStripVerdict(s);
    var n := |s| - |LStrip(s)|;
    Cut(text, s, LStrip(s), n);
    assert Between(text, n, |s|, LStrip(s));
  }

  lemma Cut(text: string, s: string, t: string, n: nat)
    requires |s| <= |text| && text[..|s|] == s && AllSpace(text[|s|..])
    requires n <= |s| && s[n..] == t && AllSpace(s[..n])
    requires t != [] ==> !IsSpace(t[0])
    requires s != [] ==> !IsSpace(s[|s| - 1])
    ensures Trimmed(t) && Between(text, n, |s|, t)
  {
    forall i | 0 <= i < n ensures IsSpace(text[i]) {
      assert text[i] == s[i] == s[..n][i];
    }
    forall i | |s| <= i < |text| ensures IsSpace(text[i]) {
      assert text[i] == text[|s|..][i - |s|];
    }
    assert t != [] ==> t[|t| - 1] == s[|s| - 1];
  }

  /** Every line that starts a header.  With a closing bracket before any comment it is a
      section, of whose name at most 49 characters are kept; without one it is malformed. */
  lemma HeaderVerdict(t: string)
    requires t != [] && t[0] == '['
    ensures forall k: nat :: First(t[1..], ']', k) ==> ParseStripped(t) == Section(t[1..][..Min(k, 49)])
    ensures (forall k: nat :: !First(t[1..], ']', k)) ==> ParseStripped(t) == Malformed
  {
    var s := t[1..];
    FindFirst(s, ']');
    var e := Find(s, ']', false);
    assert s[..e][..Min(e, 49)] == s[..Min(e, 49)];
    hide Find;
    if e < |s| && s[e] == ']' {
      assert First(s, ']', e);
    }
  }

  /** Every other line that is no comment.  The first '=' divides it, unless a comment begins
      before; failing that the first ':' does, on the same condition; a line with neither is
      malformed. */
  lemma SettingVerdict(t: string)
    requires t != [] && t[0] != '[' && t[0] != ';' && t[0] != '#'
    ensures forall k: nat :: First(t, '=', k) ==> ParseStripped(t) == Pair(RStrip(t[..k]), ValueOf(t[k + 1..]))
    ensures (forall k: nat :: !First(t, '=', k)) ==>
              && (forall k: nat :: First(t, ':', k) ==> ParseStripped(t) == Pair(RStrip(t[..k]), ValueOf(t[k + 1..])))
              && ((forall k: nat :: !First(t, ':', k)) ==> ParseStripped(t) == Malformed)
  {
    FindFirst(t, '=');
    FindFirst(t, ':');
    hide Find, RStrip, ValueOf;
    var e, d := Find(t, '=', false), Find(t, ':', false);
    if e < |t| && t[e] == '=' {
      assert First(t, '=', e);
    } else if d < |t| && t[d] == ':' {
      assert First(t, ':', d);
    }
  }

  /** Every line: nothing, a comment mark first, or one of the two kinds above. */
  lemma LineVerdict(text: string)
    ensures var t := LStrip(RStrip(text));
            && (ParseLine(text) == Blank <==> t == [] || t[0] == ';' || t[0] == '#')
            && (ParseLine(text).Section? ==> t[0] == '[')
            && (ParseLine(text).Pair? ==> t[0] != '[')
            && ParseLine(text) == ParseStripped(t)
  {
    hide Find, RStrip, LStrip, ValueOf, Truncated;
  }

  /** A value: the text after the separator without leading white space, up to the first mark
      after white space, without the white space before that. */
  lemma ValueVerdict(s: string, k: nat)
    requires NUL !in s && k <= |LStrip(s)|
    requires k < |LStrip(s)| ==> CommentAt(LStrip(s), k)
    requires forall j: nat :: j < k ==> !CommentAt(LStrip(s), j)
    ensures ValueOf(s) == RStrip(LStrip(s)[..k]) && Trimmed(ValueOf(s))
  {
    hide Find, RStrip, LStrip;
    var v := LStrip(s);
    LStripVerdict(s);
    FindFirst(v, NUL);
    var e := Find(v, NUL, false);
    assert forall j: nat :: j < |v| ==> v[j] in s;
    assert e == k;
    SolidStart(v, k);
  }

  /** What is left of a text that starts with no white space, once its end is stripped. */
  lemma SolidStart(v: string, k: nat)
    requires k <= |v| && (v != [] ==> !IsSpace(v[0]))
    ensures Trimmed(RStrip(v[..k]))
  {
    hide RStrip;
    RStripVerdict(v[..k]);
  }

  /** What fgets puts in the buffer: a line with its newline, or the first `room` characters of
      a longer one, or what is left of the file. */
  lemma {:induction false} ChunkVerdict(file: string, room: nat)
    ensures var n := ChunkLength(file, room);
            && (forall i :: 0 <= i < n - 1 ==> file[i] != '\n')
            && (n == |file| || n == room || (n > 0 && file[n - 1] == '\n'))
  {
    if file != [] && room > 0 && file[0] != '\n' {
      ChunkVerdict(file[1..], room - 1);
    }
  }

  /** The rest of the line is not seen after a NUL. */
  lemma {:induction false} CStringVerdict(s: string)
    ensures |CString(s)| == |s| || s[|CString(s)|] == NUL
  {
    if s != [] && s[0] != NUL {
      CStringVerdict(s[1..]);
    }
  }
}
