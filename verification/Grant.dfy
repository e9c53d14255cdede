/** The grant of machines: how many the broker asks for (src/daemon/resources.c), the text in
    which the server names them (src/server/rbio.c), and how the broker reads that text. */
module Grant {
  import opened Prelude
  import opened BlockIo
  import opened Messages

  // ---------------------------------------------------------------- the server

  function Spaced(names: seq<string>): string {
    if names == [] then "" else Spaced(names[..|names| - 1]) + " " + names[|names| - 1]
  }

  /** The body of the reply to a request for `want` machines. */
  function Encode(names: seq<string>, want: nat): string {
    var n := Min(|names|, want);
    Decimal(n) + " " + Spaced(names[..n])
  }

  const BUFSIZE := 1024

  /** The part of the reply written after i names. */
  function Written(names: seq<string>, n: nat, i: nat): string
    requires i <= n <= |names|
  {
    Decimal(n) + " " + Spaced(names[..i])
  }

  lemma {:induction false} WrittenGrows(names: seq<string>, n: nat, i: nat, j: nat)
    requires i <= j <= n <= |names|
    ensures |Written(names, n, i)| <= |Written(names, n, j)|
    decreases j - i
  {
    if i < j {
      WrittenGrows(names, n, i, j - 1);
      assert names[..j][..j - 1] == names[..j - 1];
    }
  }

  /** The sprintf loop of boot_resources: the reply, or None where it writes past the end of
      its buffer, which happens exactly when the reply and a NUL do not fit. */
  method BootResources(names: seq<string>, want: nat) returns (buf: Option<string>)
    ensures buf == if |Encode(names, want)| < BUFSIZE then Some(Encode(names, want)) else None
  {
    var n := Min(|names|, want);
    var text := Decimal(n) + " ";
    assert text == Written(names, n, 0);
    for i := 0 to n
      invariant text == Written(names, n, i) && (i > 0 ==> |text| < BUFSIZE)
    {
      assert names[..i + 1][..i] == names[..i];
      assert Written(names, n, i + 1) == Written(names, n, i) + (" " + names[i]);
      text := text + (" " + names[i]);
      if |text| >= BUFSIZE {
        WrittenGrows(names, n, i + 1, n);
        return None;
      }
    }
    return if |text| < BUFSIZE then Some(text) else None;
  }

  lemma {:induction false} SpacedLength(names: seq<string>)
    requires forall i :: 0 <= i < |names| ==> |names[i]| == 63
    ensures |Spaced(names)| == 64 * |names|
  {
    if names != [] {
      SpacedLength(names[..|names| - 1]);
    }
  }

  /** Sixteen names of 63 characters are too much for the buffer. */
  lemma ReplyTooLong()
    ensures var names := seq(16, _ => seq(63, _ => 'a'));
            (forall i :: 0 <= i < |names| ==> IsName(names[i])) && |Encode(names, 16)| >= BUFSIZE
  {
    var names := seq(16, _ => seq(63, _ => 'a'));
    assert names[..16] == names;
    SpacedLength(names);
  }

  // ---------------------------------------------------------------- the broker

  /** The number of leading white-space characters. */
  function Spaces(s: string): (k: nat)
    ensures k <= |s|
  {
    if s == [] || !IsSpace(s[0]) then 0 else 1 + Spaces(s[1..])
  }

  function WordLength(s: string): (k: nat)
    ensures k <= |s|
  {
    if s == [] || IsSpace(s[0]) then 0 else 1 + WordLength(s[1..])
  }

  function DigitCount(s: string): (k: nat)
    ensures k <= |s| && forall c :: c in s[..k] ==> IsDigit(c)
  {
    if s == [] || !IsDigit(s[0]) then 0
    else
      var k := 1 + DigitCount(s[1..]);
      assert s[..k] == [s[0]] + s[1..][..k - 1];
      k
  }

  /** sscanf "%d%n": the number and how many characters were used. */
  function ScanInt(s: string): (r: Option<(int, nat)>)
    ensures r.Some? ==> r.value.1 <= |s|
  {
    var a := Spaces(s);
    var t := s[a..];
    var sign := if t != [] && (t[0] == '-' || t[0] == '+') then 1 else 0;
    var k := DigitCount(t[sign..]);
    if k == 0 then None
    else
      var v: int := Value(t[sign..][..k]);
      Some((if sign == 1 && t[0] == '-' then -v else v, a + sign + k))
  }

  const MAXHOSTNAMELEN := 64

  /** sscanf "%s%n" into a buffer of MAXHOSTNAMELEN characters. */
  function ScanWord(s: string): (r: Option<(string, nat)>)
    ensures r.Some? ==> r.value.1 <= |s|
  {
    var a := Spaces(s);
    var k := WordLength(s[a..]);
    if k == 0 || k >= MAXHOSTNAMELEN then None else Some((s[a..a + k], a + k))
  }

  function Words(s: string, n: nat): Option<seq<string>> {
    if n == 0 then Some([])
    else match ScanWord(s)
      case None => None
      case Some((w, used)) => More(w, Words(s[used..], n - 1))
  }

  function More(w: string, ws: Option<seq<string>>): Option<seq<string>> {
    if ws.None? then None else Some([w] + ws.value)
  }

  /** What get_server_resources makes of a reply; None where the C code would use a variable
      that was never set or overrun its buffer. */
  function Decode(body: string): Option<seq<string>> {
    match ScanInt(body)
    case None => None
    case Some((n, used)) => if n <= 0 then Some([]) else Words(body[used..], n)
  }

  function After(found: seq<string>, ws: Option<seq<string>>): Option<seq<string>> {
    if ws.None? then None else Some(found + ws.value)
  }

  /** The decoding loop, which moves the cursor along the body. */
  method DecodeReply(body: string) returns (machines: Option<seq<string>>)
    ensures machines == Decode(body)
  {
    var first := ScanInt(body);
    if first.None? {
      return None;
    }
    var nsend: int, cursor: nat := first.value.0, first.value.1;
    if nsend <= 0 {
      return Some([]);
    }
    machines := DecodeNames(body[cursor..], nsend);
  }

  method DecodeNames(buf: string, nsend: nat) returns (machines: Option<seq<string>>)
    ensures machines == Words(buf, nsend)
  {
    hide Words, ScanWord;
    var rest := buf;
    var found: seq<string> := [];
    ghost var all := Words(buf, nsend);
    assert all.Some? ==> [] + all.value == all.value;
    for i := 0 to nsend
      invariant After(found, Words(rest, nsend - i)) == all
    {
      WordsStep(rest, nsend - i);
      var w := ScanWord(rest);
      if w.None? {
        return None;
      }
      AfterMore(found, w.value.0, Words(rest[w.value.1..], nsend - i - 1));
      found := found + [w.value.0];
      rest := rest[w.value.1..];
    }
    NoWords(rest);
    assert found + [] == found;
    return Some(found);
  }

  lemma WordsStep(s: string, n: nat)
    requires n > 0
    ensures Words(s, n) == if ScanWord(s).None? then None
                           else More(ScanWord(s).value.0, Words(s[ScanWord(s).value.1..], n - 1))
  {
  }

  lemma NoWords(s: string)
    ensures Words(s, 0) == Some([])
  {
  }

  lemma AfterMore(found: seq<string>, w: string, ws: Option<seq<string>>)
    ensures After(found, More(w, ws)) == After(found + [w], ws)
  {
    assert ws.Some? ==> found + ([w] + ws.value) == (found + [w]) + ws.value;
  }

  // ---------------------------------------------------------------- the round trip

  predicate IsName(w: string) {
    0 < |w| < MAXHOSTNAMELEN && forall c :: c in w ==> !IsSpace(c)
  }

  lemma {:induction false} WordThen(w: string, rest: string)
    requires (forall c :: c in w ==> !IsSpace(c)) && (rest == [] || IsSpace(rest[0]))
    ensures WordLength(w + rest) == |w|
  {
    if w != [] {
      assert w[0] in w;
      assert (w + rest)[1..] == w[1..] + rest;
      WordThen(w[1..], rest);
    } else {
      assert w + rest == rest;
    }
  }

  /** The names from the front, as the broker meets them. */
  function Tail(names: seq<string>): string {
    if names == [] then "" else " " + names[0] + Tail(names[1..])
  }

  lemma {:induction false} SpacedIsTail(names: seq<string>)
    ensures Spaced(names) == Tail(names)
  {
    if names != [] {
      var k := |names| - 1;
      SpacedIsTail(names[..k]);
      TailSnoc(names[..k], names[k]);
      assert names == names[..k] + [names[k]];
    }
  }

  lemma {:induction false} TailSnoc(names: seq<string>, w: string)
    ensures Tail(names + [w]) == Tail(names) + " " + w
  {
    if names == [] {
      assert [w][1..] == [];
    } else {
      TailSnoc(names[1..], w);
      assert (names + [w])[1..] == names[1..] + [w];
    }
  }

  lemma ScanFirst(gap: nat, w: string, rest: string)
    requires IsName(w) && (rest == [] || IsSpace(rest[0]))
    ensures ScanWord(seq(gap, _ => ' ') + w + rest) == Some((w, gap + |w|))
  {
    var s := seq(gap, _ => ' ') + w + rest;
    GapLength(gap, w + rest);
    assert s == seq(gap, _ => ' ') + (w + rest);
    assert s[gap..] == w + rest;
    WordThen(w, rest);
    assert s[gap..gap + |w|] == w;
  }

  lemma {:induction false} GapLength(gap: nat, rest: string)
    requires rest != [] && !IsSpace(rest[0])
    ensures Spaces(seq(gap, _ => ' ') + rest) == gap
  {
    var s := seq(gap, _ => ' ') + rest;
    if gap > 0 {
      assert s[1..] == seq(gap - 1, _ => ' ') + rest;
      GapLength(gap - 1, rest);
    } else {
      assert s == rest;
    }
  }

  lemma WordsCons(gap: nat, w: string, rest: string, n: nat)
    requires IsName(w) && (rest == [] || IsSpace(rest[0]))
    ensures Words(seq(gap, _ => ' ') + w + rest, n + 1) == More(w, Words(rest, n))
  {
    var s := seq(gap, _ => ' ') + w + rest;
    ScanFirst(gap, w, rest);
    assert s[gap + |w|..] == rest;
  }

  lemma TailGap(names: seq<string>)
    requires names != []
    ensures Tail(names) == seq(1, _ => ' ') + names[0] + Tail(names[1..])
    ensures " " + Tail(names) == seq(2, _ => ' ') + names[0] + Tail(names[1..])
  {
    var w, rest := names[0], Tail(names[1..]);
    assert seq(1, _ => ' ') == " ";
    assert seq(2, _ => ' ') == " " + " ";
    assert " " + (" " + w + rest) == (" " + " ") + w + rest;
  }

  /** The names after one blank, as sent, or after two, as they follow the count. */
  lemma {:induction false} WordsAfterFirst(names: seq<string>, gap: nat)
    requires names != [] && forall i :: 0 <= i < |names| ==> IsName(names[i])
    ensures Words(seq(gap, _ => ' ') + names[0] + Tail(names[1..]), |names|) == Some(names)
    ensures Tail(names) == seq(1, _ => ' ') + names[0] + Tail(names[1..])
    decreases |names|
  {
    hide Words;
    TailGap(names);
    WordsCons(gap, names[0], Tail(names[1..]), |names| - 1);
    if |names| > 1 {
      WordsAfterFirst(names[1..], 1);
    } else {
      NoWords(Tail([]));
    }
    assert [names[0]] + names[1..] == names;
  }

  /** An extra blank before the first name changes nothing. */
  lemma WordsAfterBlank(names: seq<string>)
    requires forall i :: 0 <= i < |names| ==> IsName(names[i])
    ensures Words(" " + Tail(names), |names|) == Some(names)
  {
    hide Words;
    if names != [] {
      TailGap(names);
      WordsAfterFirst(names, 2);
    } else {
      NoWords(" " + Tail(names));
    }
  }

  lemma {:induction false} DigitsThen(d: string, rest: string)
    requires (forall c :: c in d ==> IsDigit(c)) && (rest == [] || !IsDigit(rest[0]))
    ensures DigitCount(d + rest) == |d|
  {
    if d != [] {
      assert d[0] in d;
      assert (d + rest)[1..] == d[1..] + rest;
      DigitsThen(d[1..], rest);
    } else {
      assert d + rest == rest;
    }
  }

  lemma ScanCount(n: nat, rest: string)
    requires rest == [] || !IsDigit(rest[0])
    ensures ScanInt(Decimal(n) + rest) == Some((n, |Decimal(n)|))
  {
    hide DigitCount, Value, Digits;
    DigitsValue(n);
    var d := Digits(n);
    assert Decimal(n) == d;
    assert IsDigit(d[0]) by { assert d[0] in d; }
    var s := d + rest;
    assert Spaces(s) == 0;
    assert s[0] == d[0] && s[0..] == s;
    DigitsThen(d, rest);
    assert s[..|d|] == d;
  }

  /** The names the broker decodes are exactly the first min(m, want) of the server's m. */
  lemma GrantRoundTrip(names: seq<string>, want: nat)
    requires forall i :: 0 <= i < |names| ==> IsName(names[i])
    ensures Decode(Encode(names, want)) == Some(names[..Min(|names|, want)])
  {
    var n := Min(|names|, want);
    var sent := names[..n];
    SpacedIsTail(sent);
    var rest := " " + Tail(sent);
    assert Encode(names, want) == Decimal(n) + rest;
    ScanCount(n, rest);
    assert (Decimal(n) + rest)[|Decimal(n)|..] == rest;
    WordsAfterBlank(sent);
  }

  lemma NothingLeft(n: nat)
    ensures Words("", n) == if n == 0 then Some([]) else None
  {
  }

  lemma MoreOf(names: seq<string>, n: nat)
    requires names != []
    ensures More(names[0], if n <= |names| - 1 then Some(names[1..][..n]) else None) ==
            if n + 1 <= |names| then Some(names[..n + 1]) else None
  {
    if n + 1 <= |names| {
      assert names[..n + 1] == [names[0]] + names[1..][..n];
    }
  }

  lemma {:induction false} WordsCounted(names: seq<string>, gap: nat, n: nat)
    requires names != [] && forall i :: 0 <= i < |names| ==> IsName(names[i])
    ensures Words(seq(gap, _ => ' ') + names[0] + Tail(names[1..]), n) ==
            if n <= |names| then Some(names[..n]) else None
    decreases |names|
  {
    hide Words;
    if n == 0 {
      NoWords(seq(gap, _ => ' ') + names[0] + Tail(names[1..]));
    } else {
      TailGap(names);
      WordsCons(gap, names[0], Tail(names[1..]), n - 1);
      if |names| > 1 {
        TailGap(names[1..]);
        WordsCounted(names[1..], 1, n - 1);
      } else {
        NothingLeft(n - 1);
      }
      MoreOf(names, n - 1);
    }
  }

  /** The count is believed: names beyond it are ignored, and a count beyond the names makes
      the broker use a machine that it never read. */
  lemma CountVerdict(names: seq<string>, n: nat)
    requires forall i :: 0 <= i < |names| ==> IsName(names[i])
    ensures Decode(Decimal(n) + (" " + Tail(names))) == if n <= |names| then Some(names[..n]) else None
  {
    hide Words, ScanInt;
    var rest := " " + Tail(names);
    ScanCount(n, rest);
    assert (Decimal(n) + rest)[|Decimal(n)|..] == rest;
    if names == [] {
      BlankOnly(n);
      assert rest == " ";
    } else {
      TailGap(names);
      WordsCounted(names, 2, n);
    }
  }

  lemma BlankOnly(n: nat)
    ensures Words(" ", n) == if n == 0 then Some([]) else None
  {
    assert " "[1..] == "";
    assert Spaces(" ") == 1;
  }

  // ---------------------------------------------------------------- over the connection

  function Bytes(s: string): (b: seq<byte>)
    requires forall c :: c in s ==> c as int < 256
    ensures |b| == |s|
  {
    seq(|s|, i requires 0 <= i < |s| => assert s[i] in s; s[i] as int as byte)
  }

  function Chars(b: seq<byte>): string {
    seq(|b|, i requires 0 <= i < |b| => b[i] as int as char)
  }

  const SERVER_RESOURCES_OK := 0

  /** End to end: the server writes its reply in any pieces, the broker reads it in any
      pieces, and has exactly the granted names. */
  lemma GrantOverTheWire(names: seq<string>, want: nat, padding: seq<byte>,
                         p1: seq<Io>, p2: seq<Io>, plan: seq<Io>)
    requires forall i :: 0 <= i < |names| ==> IsName(names[i])
    requires |Encode(names, want)| < BUFSIZE && forall c :: c in Encode(names, want) ==> c as int < 256
    requires |padding| == 4 && NoFail(p1) && NoFail(p2) && NoFail(plan)
    ensures var m := Message(SERVER_RESOURCES_OK, Bytes(Encode(names, want)));
            var sent := Send(m, padding, p1, p2);
            && sent.Some?
            && Receive(sent.value, plan).Some?
            && Decode(Chars(Receive(sent.value, plan).value.0.body)) == Some(names[..Min(|names|, want)])
  {
    var text := Encode(names, want);
    var m := Message(SERVER_RESOURCES_OK, Bytes(text));
    SendWhole(m, padding, p1, p2);
    Pow8();
    ReceiveOne(m, padding, Wire(m, padding), plan);
    assert Chars(Bytes(text)) == text;
    GrantRoundTrip(names, want);
  }

  lemma Pow8()
    ensures Pow256(8) > 1024 && Pow256(4) > 0
  {
    assert Pow256(2) == 65536;
    assert Pow256(4) == 256 * (256 * Pow256(2));
    assert Pow256(6) == 256 * (256 * Pow256(4));
    assert Pow256(8) == 256 * (256 * Pow256(6));
  }

  // ---------------------------------------------------------------- how many

  /** C's integer division. */
  function Quotient(a: int, b: int): int
    requires b != 0
  {
    if a >= 0 then a / b else -((-a) / b)
  }

  /** Division towards zero: the remainder has the sign of the dividend. */
  lemma QuotientTruncates(a: int, b: int)
    requires b != 0
    ensures var r := a - Quotient(a, b) * b;
            && (a >= 0 ==> 0 <= r < (if b > 0 then b else -b))
            && (a <= 0 ==> 0 <= -r < (if b > 0 then b else -b))
  {
    if a < 0 {
      var q := (-a) / b;
      assert -a == q * b + (-a) % b;
      assert Quotient(a, b) * b == -(q * b);
    }
  }

  /** get_num_machines; None is a division by zero. */
  function NumMachines(pending: int, factor0: int, factor1: int, held: nat): Option<int> {
    if factor0 == 0 then None
    else
      var nmach := Quotient(pending, factor0);
      if nmach == 0 then Some(0)
      else
        var num := nmach * factor1;
        if held >= num then Some(0) else Some(num - held)
  }

  /** The machines a queue holds and those granted to it never exceed what its pending jobs
      call for, and reach it exactly when the server has as many as the broker needs.  The
      factors may be negative, as the configuration may give them. */
  lemma GrantMeetsDemand(pending: int, factor0: int, factor1: int, held: nat, names: seq<string>)
    requires factor0 != 0 && forall i :: 0 <= i < |names| ==> IsName(names[i])
    ensures NumMachines(pending, factor0, factor1, held).Some?
    ensures var need := NumMachines(pending, factor0, factor1, held).value;
            var target := Quotient(pending, factor0) * factor1;
            && need >= 0
            && (need == 0 <==> held >= target)
            && (need > 0 ==>
                 var granted := Decode(Encode(names, need));
                 && granted.Some?
                 && held + |granted.value| <= target
                 && (held + |granted.value| == target <==> |names| >= need))
  {
    hide Decode, Encode;
    var need := NumMachines(pending, factor0, factor1, held).value;
    var q := Quotient(pending, factor0);
    assert q == 0 ==> q * factor1 == 0;
    if need > 0 {
      GrantRoundTrip(names, need);
    }
  }
}
