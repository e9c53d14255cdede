/** Printing a configuration and parsing it back (src/lib/ini.c): every name and value arrives
    as it was, under its section, in order, whatever padding, comments and blank lines the
    printing adds, unless it puts a comment after an empty value. */
module IniRoundTrip {
  import opened Prelude
  import opened IniText

  // ---------------------------------------------------------------- what can be printed

  predicate AllSpace(s: string) {
    forall i :: 0 <= i < |s| ==> IsSpace(s[i])
  }

  /** Text that stays on its line. */
  predicate OneLine(s: string) {
    forall i :: 0 <= i < |s| ==> s[i] != '\n' && s[i] != NUL
  }

  predicate Trimmed(s: string) {
    s == [] || (!IsSpace(s[0]) && !IsSpace(s[|s| - 1]))
  }

  /** Nowhere white space followed by a comment character; before as in Find. */
  predicate NoComment(s: string, before: bool) {
    s == [] ||
    (!(before && (s[0] == ';' || s[0] == '#')) && NoComment(s[1..], IsSpace(s[0])))
  }

  predicate Lacks(s: string, c: char) {
    forall i :: 0 <= i < |s| ==> s[i] != c
  }

  /** What may follow a value or header: white space, or white space and a comment. */
  datatype Trailer = Spaces(gap: string) | Comment(gap: string, mark: char, text: string)

  function TrailerText(t: Trailer): string {
    match t
    case Spaces(gap) => gap
    case Comment(gap, mark, text) => gap + [mark] + text
  }

  predicate TrailerOk(t: Trailer) {
    match t
    case Spaces(gap) => AllSpace(gap) && OneLine(gap)
    case Comment(gap, mark, text) =>
      gap != [] && AllSpace(gap) && OneLine(gap) && (mark == ';' || mark == '#') && OneLine(text)
  }

  /** A line of a configuration file: its content and its decoration. */
  datatype Item =
    | Header(lead: string, name: string, rest: string)
    | Setting(lead: string, name: string, pad1: string, pad2: string, value: string, trailer: Trailer)
    | Filler(lead: string, comment: string)

  function Text(it: Item): string {
    match it
    case Header(lead, name, rest) => lead + "[" + name + "]" + rest
    case Setting(lead, name, pad1, pad2, value, trailer) =>
      lead + (name + (pad1 + ("=" + (pad2 + (value + TrailerText(trailer))))))
    case Filler(lead, comment) => lead + comment
  }

  predicate NameOk(name: string) {
    && OneLine(name) && Trimmed(name) && NoComment(name, false) && Lacks(name, '=')
    && (name != [] ==> name[0] != '[' && name[0] != ';' && name[0] != '#')
  }

  predicate ValueOk(value: string) {
    OneLine(value) && Trimmed(value) && NoComment(value, false)
  }

  predicate Blanks(s: string) {
    AllSpace(s) && OneLine(s)
  }

  /** Lines as they may be printed: blanks where blanks belong, and text that fits its place. */
  predicate ItemOk(it: Item) {
    && |Text(it)| < INI_MAX_LINE - 1
    && match it
       case Header(lead, name, rest) =>
         Blanks(lead) && OneLine(name) && NoComment(name, false) && Lacks(name, ']')
         && |name| < MAX_SECTION && OneLine(rest)
       case Setting(lead, name, pad1, pad2, value, trailer) =>
         Blanks(lead) && NameOk(name) && Blanks(pad1) && Blanks(pad2) && ValueOk(value) && TrailerOk(trailer)
         && (name == [] ==> pad1 == [])
       case Filler(lead, comment) =>
         Blanks(lead) && OneLine(comment) && (comment == [] || comment[0] == ';' || comment[0] == '#')
  }

  /** No comment after an empty value. */
  predicate Kept(it: Item) {
    it.Setting? ==> it.value != [] || it.trailer.Spaces?
  }

  /** What the line stands for. */
  function LineOf(it: Item): Line {
    match it
    case Header(_, name, _) => Section(name)
    case Setting(_, name, _, _, value, _) => Pair(name, value)
    case Filler(_, _) => Blank
  }

  // ---------------------------------------------------------------- stripping and searching

  lemma {:induction false} RStripSpace(s: string, gap: string)
    requires AllSpace(gap)
    ensures RStrip(s + gap) == RStrip(s)
    decreases |gap|
  {
    if gap == [] {
      assert s + gap == s;
    } else {
      var shorter := gap[..|gap| - 1];
      assert (s + gap)[..|s + gap| - 1] == s + shorter;
      RStripSpace(s, shorter);
    }
  }

  lemma {:induction false} RStripInner(s: string, t: string)
    requires RStrip(t) != []
    ensures RStrip(s + t) == s + RStrip(t)
    decreases |t|
  {
    if t != [] && IsSpace(t[|t| - 1]) {
      assert (s + t)[..|s + t| - 1] == s + t[..|t| - 1];
      RStripInner(s, t[..|t| - 1]);
    }
  }

  lemma {:induction false} LStripSpace(gap: string, s: string)
    requires AllSpace(gap)
    ensures LStrip(gap + s) == LStrip(s)
  {
    if gap == [] {
      assert gap + s == s;
    } else {
      assert (gap + s)[1..] == gap[1..] + s;
      LStripSpace(gap[1..], s);
    }
  }

  /** The right strip keeps everything up to a character that is no space. */
  lemma {:induction false} RStripKeeps(s: string, k: nat)
    requires k < |s| && !IsSpace(s[k])
    ensures |RStrip(s)| > k && RStrip(s)[..k + 1] == s[..k + 1]
    decreases |s|
  {
    if IsSpace(s[|s| - 1]) {
      RStripKeeps(s[..|s| - 1], k);
    }
  }

  /** The first k characters pass the search, and after them it goes on in the rest. */
  lemma {:induction false} FindPasses(s: string, t: string, c: char, before: bool)
    requires Lacks(s, c) && NoComment(s, before)
    ensures Find(s + t, c, before) == |s| + Find(t, c, if s == [] then before else IsSpace(s[|s| - 1]))
    decreases |s|
  {
    if s == [] {
      assert s + t == t;
    } else {
      assert (s + t)[1..] == s[1..] + t;
      FindPasses(s[1..], t, c, IsSpace(s[0]));
    }
  }

  lemma {:induction false} SpaceNoComment(gap: string, before: bool)
    requires AllSpace(gap)
    ensures NoComment(gap, before)
  {
    if gap != [] {
      SpaceNoComment(gap[1..], true);
    }
  }

  // ---------------------------------------------------------------- one setting

  lemma NothingStripped()
    ensures RStrip([]) == [] && LStrip([]) == [] && Find([], NUL, false) == 0
  {
  }

  /** What may stand after a trimmed value: nothing, or a comment mark after white space. */
  lemma CutValue(value: string, gap: string, rest: string)
    requires ValueOk(value) && AllSpace(gap)
    requires rest == [] || (gap != [] && (rest[0] == ';' || rest[0] == '#'))
    requires (rest == [] ==> gap == []) && (value == [] ==> rest == [])
    ensures var v := value + (gap + rest);
            Find(v, NUL, false) == |value| + |gap| && RStrip(v[..|value| + |gap|]) == value
  {
    hide LStrip;
    FindPasses(value, gap + rest, NUL, false);
    SpaceNoComment(gap, if value == [] then false else IsSpace(value[|value| - 1]));
    SpaceNoNul(gap);
    FindPasses(gap, rest, NUL, if value == [] then false else IsSpace(value[|value| - 1]));
    assert (value + (gap + rest))[..|value| + |gap|] == value + gap;
    RStripSpace(value, gap);
    if value != [] {
      RStripSolid(value);
    }
  }

  lemma EmptyValue(pad2: string)
    requires Blanks(pad2)
    ensures ValueOf(RStrip(pad2 + [])) == []
  {
    hide RStrip, LStrip, Find;
    NothingStripped();
    assert pad2 + [] == [] + pad2;
    RStripSpace([], pad2);
  }

  lemma SolidValue(pad2: string, value: string)
    requires Blanks(pad2) && ValueOk(value) && value != []
    ensures ValueOf(RStrip(pad2 + value)) == value
  {
    hide RStrip, LStrip, Find, NoComment;
    RStripSolid(pad2 + value);
    LStripSpace(pad2, value);
    LStripSolid(value);
    CutValue(value, [], []);
    assert value + ([] + []) == value;
  }

  lemma PlainValue(pad2: string, value: string, gap: string)
    requires Blanks(pad2) && ValueOk(value) && Blanks(gap)
    ensures ValueOf(RStrip(pad2 + (value + gap))) == value
  {
    hide RStrip, ValueOf, ValueOk;
    assert pad2 + (value + gap) == (pad2 + value) + gap;
    RStripSpace(pad2 + value, gap);
    if value == [] {
      EmptyValue(pad2);
    } else {
      SolidValue(pad2, value);
    }
  }

  lemma CommentedValue(pad2: string, value: string, gap: string, mark: char, text: string)
    requires Blanks(pad2) && ValueOk(value) && value != []
    requires TrailerOk(Comment(gap, mark, text))
    ensures ValueOf(RStrip(pad2 + (value + (gap + [mark] + text)))) == value
  {
    hide RStrip, LStrip, Find, NoComment;
    var c := [mark] + text;
    RStripKeeps(c, 0);
    var rest := RStrip(c);
    assert rest[0] == mark by { assert rest[..1] == c[..1]; }
    assert pad2 + (value + (gap + [mark] + text)) == (pad2 + value + gap) + c;
    RStripInner(pad2 + value + gap, c);
    var v := value + (gap + rest);
    assert (pad2 + value + gap) + rest == pad2 + v;
    LStripSpace(pad2, v);
    LStripSolid(v);
    CutValue(value, gap, rest);
  }

  /** The part of a line after the separator. */
  lemma ValueBack(pad2: string, value: string, trailer: Trailer)
    requires Blanks(pad2) && ValueOk(value) && TrailerOk(trailer) && (value == [] ==> trailer.Spaces?)
    ensures ValueOf(RStrip(pad2 + (value + TrailerText(trailer)))) == value
  {
    hide ValueOf, RStrip, ValueOk;
    match trailer
    case Spaces(gap) => PlainValue(pad2, value, gap);
    case Comment(gap, mark, text) => CommentedValue(pad2, value, gap, mark, text);
  }

  lemma SpaceNoNul(gap: string)
    requires AllSpace(gap)
    ensures Lacks(gap, NUL) && Lacks(gap, '=')
  {
  }

  /** Stripping a line that begins, after its lead, with a solid character somewhere. */
  lemma StripLine(lead: string, core: string, k: nat)
    requires AllSpace(lead) && k < |core| && !IsSpace(core[k]) && !IsSpace(core[0])
    ensures LStrip(RStrip(lead + core)) == RStrip(core)
    ensures |RStrip(core)| > k && RStrip(core)[..k + 1] == core[..k + 1]
  {
    hide LStrip;
    RStripKeeps(core, k);
    RStripInner(lead, core);
    LStripSpace(lead, RStrip(core));
    assert RStrip(core)[0] == RStrip(core)[..k + 1][0] == core[..k + 1][0];
    LStripSolid(RStrip(core));
  }

  /** A stripped setting line, whatever follows the separator. */
  lemma SettingParsed(name: string, pad1: string, after: string)
    requires NameOk(name) && Blanks(pad1) && (name == [] ==> pad1 == [])
    ensures ParseStripped((name + pad1) + ("=" + after)) == Pair(name, ValueOf(after))
  {
    hide RStrip, LStrip, Find, NoComment, ValueOf, ParseStripped;
    var front := name + pad1;
    var t := front + ("=" + after);
    var e := |front|;
    FrontFind(name, pad1, "=" + after);
    assert t[e] == '=' && t[e + 1..] == after && t[..e] == front;
    assert t[0] == if name == [] then '=' else name[0];
    PairBranch(t, e);
    NameStripped(name, pad1);
  }

  lemma NameStripped(name: string, pad1: string)
    requires Trimmed(name) && AllSpace(pad1)
    ensures RStrip(name + pad1) == name
  {
    RStripSpace(name, pad1);
    if name != [] {
      RStripSolid(name);
    }
  }

  /** What is left of a setting line when it is stripped. */
  lemma SettingStripped(lead: string, name: string, pad1: string, tail: string)
    requires Blanks(lead) && NameOk(name) && Blanks(pad1) && (name == [] ==> pad1 == [])
    ensures LStrip(RStrip(lead + ((name + pad1) + ("=" + tail)))) == (name + pad1) + ("=" + RStrip(tail))
  {
    hide RStrip, LStrip, Find, NoComment;
    var front := name + pad1;
    var core := front + ("=" + tail);
    assert core[|front|] == '=';
    assert core[0] == if name == [] then '=' else name[0];
    StripLine(lead, core, |front|);
    RStripTail(front, tail);
  }

  /** After an empty value the comment is read as the value. */
  lemma CommentTaken(pad2: string, gap: string, mark: char, text: string)
    requires Blanks(pad2) && TrailerOk(Comment(gap, mark, text))
    ensures var v := ValueOf(RStrip(pad2 + ("" + (gap + [mark] + text))));
            v != [] && v[0] == mark
  {
    hide RStrip, LStrip, NoComment;
    var c := [mark] + text;
    RStripKeeps(c, 0);
    var rest := RStrip(c);
    assert rest[0] == mark by { assert rest[..1] == c[..1]; }
    assert pad2 + ("" + (gap + [mark] + text)) == (pad2 + gap) + c;
    RStripInner(pad2 + gap, c);
    LStripSpace(pad2 + gap, rest);
    LStripSolid(rest);
    var k := Find(rest, NUL, false);
    assert k > 0;
    RStripKeeps(rest[..k], 0);
    assert RStrip(rest[..k])[0] == RStrip(rest[..k])[..1][0] == rest[..k][..1][0];
  }

  /** A setting comes back under its name; its value comes back exactly when it is not an
      empty value followed by a comment. */
  lemma SettingBack(lead: string, name: string, pad1: string, pad2: string, value: string, trailer: Trailer)
    requires ItemOk(Setting(lead, name, pad1, pad2, value, trailer))
    ensures var line := ParseLine(Text(Setting(lead, name, pad1, pad2, value, trailer)));
            && line.Pair? && line.name == name
            && (line.value == value <==> value != [] || trailer.Spaces?)
  {
    hide RStrip, LStrip, Find, NoComment, ValueOf, NameOk, ValueOk, TrailerOk, ParseStripped;
    var tail := pad2 + (value + TrailerText(trailer));
    assert name + (pad1 + ("=" + tail)) == (name + pad1) + ("=" + tail);
    SettingStripped(lead, name, pad1, tail);
    SettingParsed(name, pad1, RStrip(tail));
    if value != [] || trailer.Spaces? {
      ValueBack(pad2, value, trailer);
    } else {
      CommentTaken(pad2, trailer.gap, trailer.mark, trailer.text);
    }
  }

  /** Such a line. */
  lemma LostValue()
    ensures ParseLine("k= ;c") == Pair("k", ";c")
  {
    hide RStrip, LStrip, Find, NoComment, ValueOf, ParseStripped;
    var t := "k= ;c";
    RStripSolid(t);
    LStripSolid(t);
    assert t == ("k" + "") + ("=" + " ;c");
    assert NoComment("k", false) by { ShortName(); }
    SettingParsed("k", "", " ;c");
    ShortComment();
  }

  lemma ShortName()
    ensures NoComment("k", false)
  {
    assert "k"[1..] == "";
  }

  lemma ShortComment()
    ensures ValueOf(" ;c") == ";c"
  {
    hide RStrip;
    assert " ;c"[1..] == ";c" && ";c"[1..] == "c" && "c"[1..] == "" && ";c"[..2] == ";c";
    LStripSolid(";c");
    RStripSolid(";c");
  }

  lemma RStripTail(front: string, tail: string)
    ensures RStrip(front + ("=" + tail)) == front + ("=" + RStrip(tail))
  {
    RStripKeeps("=" + tail, 0);
    RStripInner(front, "=" + tail);
    if RStrip(tail) != [] {
      RStripInner("=", tail);
    } else {
      RStripAllSpace(tail);
      RStripSpace("=", tail);
      RStripSolid("=");
    }
  }

  lemma {:induction false} RStripAllSpace(s: string)
    requires RStrip(s) == []
    ensures AllSpace(s)
    decreases |s|
  {
    if s != [] {
      RStripAllSpace(s[..|s| - 1]);
      assert forall i :: 0 <= i < |s| - 1 ==> s[i] == s[..|s| - 1][i];
    }
  }

  lemma FrontFind(name: string, pad1: string, rest: string)
    requires NameOk(name) && AllSpace(pad1) && rest != [] && rest[0] == '='
    ensures Find((name + pad1) + rest, '=', false) == |name| + |pad1|
  {
    assert (name + pad1) + rest == name + (pad1 + rest);
    FindPasses(name, pad1 + rest, '=', false);
    var b := if name == [] then false else IsSpace(name[|name| - 1]);
    SpaceNoComment(pad1, b);
    SpaceNoNul(pad1);
    FindPasses(pad1, rest, '=', b);
  }

  lemma HeaderParsed(name: string, after: string)
    requires OneLine(name) && NoComment(name, false) && Lacks(name, ']') && |name| < MAX_SECTION
    ensures ParseStripped("[" + (name + ("]" + after))) == Section(name)
  {
    hide RStrip, LStrip, Find, NoComment, ParseStripped;
    var t := "[" + (name + ("]" + after));
    assert t[1..] == name + ("]" + after);
    FindPasses(name, "]" + after, ']', false);
    FindHere("]" + after, ']', if name == [] then false else IsSpace(name[|name| - 1]));
    SectionBranch(t, |name|);
    assert (name + ("]" + after))[..|name|] == name && name[..|name|] == name;
  }

  lemma HeaderStripped(lead: string, name: string, rest: string) returns (after: string)
    requires AllSpace(lead)
    ensures LStrip(RStrip(lead + ("[" + (name + ("]" + rest))))) == "[" + (name + ("]" + after))
  {
    hide RStrip, LStrip;
    var inner := name + ("]" + rest);
    var core := "[" + inner;
    var k := 1 + |name|;
    assert core[0] == '[' && core[k] == inner[|name|] == ']';
    StripLine(lead, core, k);
    var t := RStrip(core);
    after := t[k + 1..];
    assert core[..k + 1] == "[" + (name + "]");
    assert t == t[..k + 1] + after;
    assert ("[" + (name + "]")) + after == "[" + (name + ("]" + after));
  }

  lemma HeaderBack(lead: string, name: string, rest: string)
    requires ItemOk(Header(lead, name, rest))
    ensures ParseLine(Text(Header(lead, name, rest))) == Section(name)
  {
    hide RStrip, LStrip, Find, NoComment, ParseStripped;
    assert lead + "[" + name + "]" + rest == lead + ("[" + (name + ("]" + rest)));
    var after := HeaderStripped(lead, name, rest);
    HeaderParsed(name, after);
  }

  lemma FillerBack(lead: string, comment: string)
    requires ItemOk(Filler(lead, comment))
    ensures ParseLine(Text(Filler(lead, comment))) == Blank
  {
    if comment == [] {
      assert lead + comment == [] + lead;
      RStripSpace([], lead);
    } else {
      StripLine(lead, comment, 0);
      assert RStrip(comment)[0] == RStrip(comment)[..1][0] == comment[0];
    }
  }

  /** Every line comes back as what it stands for, except a setting whose empty value is
      followed by a comment, which is still a setting of that name. */
  lemma ItemBack(it: Item)
    requires ItemOk(it)
    ensures ParseLine(Text(it)) == LineOf(it) <==> Kept(it)
    ensures it.Header? || it.Filler? ==> ParseLine(Text(it)) == LineOf(it)
    ensures it.Setting? ==> ParseLine(Text(it)).Pair? && ParseLine(Text(it)).name == it.name
  {
    hide ParseLine, Text, ItemOk;
    match it
    case Header(lead, name, rest) => HeaderBack(lead, name, rest);
    case Setting(lead, name, pad1, pad2, value, trailer) => SettingBack(lead, name, pad1, pad2, value, trailer);
    case Filler(lead, comment) => FillerBack(lead, comment);
  }

  lemma OneLineJoin(s: string, t: string)
    requires OneLine(s) && OneLine(t)
    ensures OneLine(s + t)
  {
  }

  lemma ItemOneLine(it: Item)
    requires ItemOk(it)
    ensures OneLine(Text(it))
  {
    match it
    case Header(lead, name, rest) =>
    case Setting(lead, name, pad1, pad2, value, trailer) =>
      var tail := TrailerText(trailer);
      assert OneLine(tail);
      OneLineJoin(value, tail);
      OneLineJoin(pad2, value + tail);
      OneLineJoin("=", pad2 + (value + tail));
      OneLineJoin(pad1, "=" + (pad2 + (value + tail)));
      OneLineJoin(name, pad1 + ("=" + (pad2 + (value + tail))));
      OneLineJoin(lead, name + (pad1 + ("=" + (pad2 + (value + tail)))));
    case Filler(lead, comment) =>
  }

  // ---------------------------------------------------------------- the file

  function Print(items: seq<Item>): string {
    if items == [] then "" else (Text(items[0]) + "\n") + Print(items[1..])
  }

  function LinesOf(items: seq<Item>): seq<Line> {
    if items == [] then [] else [ParseLine(Text(items[0]))] + LinesOf(items[1..])
  }

  lemma {:induction false} ChunkIsLine(text: string, rest: string, room: nat)
    requires OneLine(text) && |text| < room
    ensures ChunkLength((text + "\n") + rest, room) == |text| + 1
    decreases |text|
  {
    var file := (text + "\n") + rest;
    if text == [] {
      assert file[0] == '\n';
    } else {
      assert file[0] == text[0];
      assert file[1..] == (text[1..] + "\n") + rest;
      ChunkIsLine(text[1..], rest, room - 1);
    }
  }

  lemma {:induction false} CStringWhole(s: string)
    requires forall i :: 0 <= i < |s| ==> s[i] != NUL
    ensures CString(s) == s
  {
    if s != [] {
      CStringWhole(s[1..]);
    }
  }

  lemma NewlineStripped(text: string)
    ensures ParseLine(text + "\n") == ParseLine(text)
  {
    RStripSpace(text, "\n");
  }

  lemma {:induction false} LinesBack(items: seq<Item>)
    requires forall i :: 0 <= i < |items| ==> ItemOk(items[i])
    ensures Lines(Print(items)) == LinesOf(items)
  {
    hide ParseLine, Text, ItemOk, ChunkLength, CString;
    if items != [] {
      var text, rest := Text(items[0]), Print(items[1..]);
      ItemLength(items[0]);
      ItemOneLine(items[0]);
      ChunkIsLine(text, rest, INI_MAX_LINE - 1);
      var file := (text + "\n") + rest;
      assert file[..|text| + 1] == text + "\n" && file[|text| + 1..] == rest;
      CStringWhole(text + "\n");
      NewlineStripped(text);
      LinesBack(items[1..]);
    }
  }

  lemma ItemLength(it: Item)
    requires ItemOk(it)
    ensures |Text(it)| < INI_MAX_LINE - 1
  {
  }

  /** The settings with the section each is under. */
  function Settings(items: seq<Item>, section: string): seq<Call> {
    if items == [] then []
    else
      (if items[0].Setting? then [Call(section, items[0].name, items[0].value)] else [])
      + Settings(items[1..], if items[0].Header? then items[0].name else section)
  }

  /** What the lines mean is what was printed exactly when no line loses its value; in any
      case none is malformed. */
  lemma {:induction false} MeaningOfItems(items: seq<Item>, section: string)
    requires forall i :: 0 <= i < |items| ==> ItemOk(items[i])
    ensures Meaning(LinesOf(items), section) == Settings(items, section) <==>
            forall i {:trigger items[i]} :: 0 <= i < |items| ==> Kept(items[i])
    ensures |LinesOf(items)| == |items|
    ensures forall i {:trigger LinesOf(items)[i]} :: 0 <= i < |items| ==> !LinesOf(items)[i].Malformed?
  {
    hide ItemOk, ParseLine, Text;
    if items != [] {
      var it, lines := items[0], LinesOf(items[1..]);
      var line := ParseLine(Text(it));
      var section1 := if it.Header? then it.name else section;
      ItemBack(it);
      MeaningOfItems(items[1..], section1);
      assert LinesOf(items)[1..] == lines;
      SameHead(it, line, Meaning(lines, section1), Settings(items[1..], section1), section);
      assert Meaning(LinesOf(items), section) == CallsOf(line, section) + Meaning(lines, section1);
      assert forall i {:trigger items[i]} :: 1 <= i < |items| ==> items[i] == items[1..][i - 1];
    }
  }

  lemma SameHead(it: Item, line: Line, calls: seq<Call>, settings: seq<Call>, section: string)
    requires it.Setting? <==> line.Pair?
    requires it.Setting? ==> line.name == it.name
    ensures CallsOf(line, section) + calls ==
            (if it.Setting? then [Call(section, it.name, it.value)] else []) + settings <==>
            calls == settings && (it.Setting? ==> line.value == it.value)
  {
    if it.Setting? {
      var x, y := CallsOf(line, section) + calls, [Call(section, it.name, it.value)] + settings;
      assert x[1..] == calls && y[1..] == settings;
    } else {
      assert [] + calls == calls && [] + settings == settings;
    }
  }

  /** Printed and parsed again, with a handler that accepts the settings: there is no error and
      the handler gets exactly the settings, each under its section, in order, if and only if
      no empty value is followed by a comment. */
  lemma IniRoundTrip(items: seq<Item>, section0: string, handler: Handler)
    requires forall i :: 0 <= i < |items| ==> ItemOk(items[i])
    requires Accepted(Settings(items, section0), 0, |Settings(items, section0)|, handler)
    ensures ParseFrom(Print(items), 0, section0, [], handler) == (0, Settings(items, section0)) <==>
            forall i {:trigger items[i]} :: 0 <= i < |items| ==> Kept(items[i])
  {
    hide ItemOk, Kept, Lines, ParseFrom, Print, Meaning, Settings, Accepted;
    WholeFile(Print(items), section0, handler);
    LinesBack(items);
    MeaningOfItems(items, section0);
  }
}
