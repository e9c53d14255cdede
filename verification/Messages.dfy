/** Messages between the broker, its servers and its clients: struct rb_header as it lies in
    memory, then the body (src/lib/nio.c, src/lib/libresb.h). */
module Messages {
  import opened Prelude
  import opened BlockIo

  // ---------------------------------------------------------------- the header

  /** The k low bytes of n, lowest first. */
  function Little(n: nat, k: nat): (s: seq<byte>)
    ensures |s| == k
  {
    if k == 0 then [] else [(n % 256) as byte] + Little(n / 256, k - 1)
  }

  function FromLittle(s: seq<byte>): nat {
    if s == [] then 0 else s[0] as nat + 256 * FromLittle(s[1..])
  }

  function Pow256(k: nat): nat {
    if k == 0 then 1 else 256 * Pow256(k - 1)
  }

  lemma {:induction false} LittleBack(n: nat, k: nat)
    requires n < Pow256(k)
    ensures FromLittle(Little(n, k)) == n
  {
    if k > 0 {
      LittleBack(n / 256, k - 1);
      assert Little(n, k)[1..] == Little(n / 256, k - 1);
    }
  }

  datatype Header = Header(opcode: nat, len: nat)

  const HEADER := 16

  /** sizeof(struct rb_header): an int, four bytes of padding, a size_t. */
  function HeaderBytes(h: Header, padding: seq<byte>): (s: seq<byte>)
    requires |padding| == 4
    ensures |s| == HEADER
  {
    Little(h.opcode, 4) + padding + Little(h.len, 8)
  }

  function HeaderOf(s: seq<byte>): Header
    requires |s| == HEADER
  {
    Header(FromLittle(s[..4]), FromLittle(s[8..]))
  }

  predicate Fits(h: Header) {
    h.opcode < Pow256(4) && h.len < Pow256(8)
  }

  lemma HeaderRoundTrip(h: Header, padding: seq<byte>)
    requires Fits(h) && |padding| == 4
    ensures HeaderOf(HeaderBytes(h, padding)) == h
  {
    LittleBack(h.opcode, 4);
    LittleBack(h.len, 8);
    assert HeaderBytes(h, padding)[..4] == Little(h.opcode, 4);
    assert HeaderBytes(h, padding)[8..] == Little(h.len, 8);
  }

  /** The i-th digit of n to the base 256, the lowest being number 0. */
  function ByteAt(n: nat, i: nat): nat {
    if i == 0 then n % 256 else ByteAt(n / 256, i - 1)
  }

  lemma {:induction false} LittleByte(n: nat, k: nat, i: nat)
    requires i < k
    ensures Little(n, k)[i] as nat == ByteAt(n, i)
  {
    if i > 0 {
      LittleByte(n / 256, k - 1, i - 1);
    }
  }

  /** struct rb_header as it lies in memory: the opcode's four bytes first, the padding, and the
      length's eight bytes from offset 8; each number lowest byte first. */
  lemma HeaderLayout(h: Header, padding: seq<byte>, i: nat)
    requires |padding| == 4 && i < 8
    ensures i < 4 ==> HeaderBytes(h, padding)[i] as nat == ByteAt(h.opcode, i)
    ensures i < 4 ==> HeaderBytes(h, padding)[4 + i] == padding[i]
    ensures HeaderBytes(h, padding)[8 + i] as nat == ByteAt(h.len, i)
  {
    hide Little, ByteAt;
    if i < 4 {
      LittleByte(h.opcode, 4, i);
    }
    LittleByte(h.len, 8, i);
    assert HeaderBytes(h, padding)[8 + i] == Little(h.len, 8)[i];
  }

  // ---------------------------------------------------------------- messages

  datatype Message = Message(opcode: nat, body: seq<byte>)

  predicate Sendable(m: Message) {
    Fits(Header(m.opcode, |m.body|))
  }

  function Wire(m: Message, padding: seq<byte>): seq<byte>
    requires |padding| == 4
  {
    HeaderBytes(Header(m.opcode, |m.body|), padding) + m.body
  }

  /** How a message is sent: the header in one block write, then the body, if there is one, in
      another.  The plans answer the two.  None when a write fails. */
  function Send(m: Message, padding: seq<byte>, p1: seq<Io>, p2: seq<Io>): Option<seq<byte>>
    requires |padding| == 4
  {
    var h := HeaderBytes(Header(m.opcode, |m.body|), padding);
    match WriteBlock(h, |h|, |h|, p1, true)
    case Sent(s1) =>
      if m.body == [] then Some(s1)
      else (match WriteBlock(m.body, |m.body|, |m.body|, p2, true)
            case Sent(s2) => Some(s1 + s2)
            case _ => None)
    case _ => None
  }

  lemma SendWhole(m: Message, padding: seq<byte>, p1: seq<Io>, p2: seq<Io>)
    requires |padding| == 4 && NoFail(p1) && NoFail(p2)
    ensures Send(m, padding, p1, p2) == Some(Wire(m, padding))
  {
    var h := HeaderBytes(Header(m.opcode, |m.body|), padding);
    WriteBlockWhole(h, |h|, |h|, p1);
    WriteBlockWhole(m.body, |m.body|, |m.body|, p2);
    assert h[..|h|] == h && m.body[..|m.body|] == m.body && h + [] == h;
  }

  /** The writes of a block of n bytes reach its end before the first error. */
  predicate Lasts(plan: seq<Io>, n: nat) {
    NoFail(plan) || Took(plan) >= n
  }

  /** Whatever the kernel answers: a message is on the wire whole, or its sender is told that it
      is not. */
  lemma SendVerdict(m: Message, padding: seq<byte>, p1: seq<Io>, p2: seq<Io>)
    requires |padding| == 4
    ensures Send(m, padding, p1, p2) ==
            if Lasts(p1, HEADER) && (m.body == [] || Lasts(p2, |m.body|)) then Some(Wire(m, padding)) else None
  {
    var h := HeaderBytes(Header(m.opcode, |m.body|), padding);
    WriteBlockVerdict(h, |h|, |h|, p1);
    WriteBlockVerdict(m.body, |m.body|, |m.body|, p2);
    assert h[..|h|] == h && m.body[..|m.body|] == m.body && h + [] == h;
  }

  /** How a message is received: a block read of the header, then one of as many bytes as it
      announces, if any.  None when a read fails. */
  function Receive(data: seq<byte>, plan: seq<Io>): Option<(Message, seq<byte>, seq<Io>)> {
    var (hdr, plan1) := ReadBlock(data, HEADER, plan);
    if hdr.None? then None
    else
      var h := HeaderOf(hdr.value);
      var data1 := data[HEADER..];
      if h.len == 0 then Some((Message(h.opcode, []), data1, plan1))
      else
        var (body, plan2) := ReadBlock(data1, h.len, plan1);
        if body.None? then None
        else Some((Message(h.opcode, body.value), data1[h.len..], plan2))
  }

  /** Receives until n messages are there or one cannot be had. */
  function ReceiveAll(data: seq<byte>, plan: seq<Io>, n: nat): seq<Message> {
    if n == 0 then []
    else match Receive(data, plan)
      case None => []
      case Some((m, data1, plan1)) => [m] + ReceiveAll(data1, plan1, n - 1)
  }

  /** Each message has the four bytes that pad its header. */
  predicate Padded(ms: seq<Message>, paddings: seq<seq<byte>>) {
    |paddings| == |ms| && forall i :: 0 <= i < |ms| ==> |paddings[i]| == 4
  }

  /** The two write plans of each message, none of them with a failure. */
  predicate Planned(ms: seq<Message>, plans: seq<(seq<Io>, seq<Io>)>) {
    |plans| == |ms| && forall i :: 0 <= i < |ms| ==> NoFail(plans[i].0) && NoFail(plans[i].1)
  }

  /** What reaches the stream when the messages are sent one after the other. */
  function SendAll(ms: seq<Message>, paddings: seq<seq<byte>>, plans: seq<(seq<Io>, seq<Io>)>): Option<seq<byte>>
    requires Padded(ms, paddings) && |plans| == |ms|
  {
    if ms == [] then Some([])
    else match Send(ms[0], paddings[0], plans[0].0, plans[0].1)
      case None => None
      case Some(first) =>
        var rest := SendAll(ms[1..], paddings[1..], plans[1..]);
        if rest.None? then None else Some(first + rest.value)
  }

  function WireAll(ms: seq<Message>, paddings: seq<seq<byte>>): seq<byte>
    requires Padded(ms, paddings)
  {
    if ms == [] then [] else Wire(ms[0], paddings[0]) + WireAll(ms[1..], paddings[1..])
  }

  /** One whole message at the start of the stream is received, and nothing after it is. */
  lemma ReceiveOne(m: Message, padding: seq<byte>, data: seq<byte>, plan: seq<Io>)
    requires Sendable(m) && |padding| == 4 && NoFail(plan) && Wire(m, padding) <= data
    ensures var r := Receive(data, plan);
            r.Some? && r.value.0 == m && r.value.1 == data[|Wire(m, padding)|..] && NoFail(r.value.2)
  {
    var h := Header(m.opcode, |m.body|);
    HeaderRoundTrip(h, padding);
    ReadBlockWhole(data, HEADER, plan);
    assert data[..HEADER] == HeaderBytes(h, padding) by {
      assert Wire(m, padding)[..HEADER] == HeaderBytes(h, padding);
    }
    var data1 := data[HEADER..];
    var plan1 := ReadBlock(data, HEADER, plan).1;
    ReadBlockWhole(data1, |m.body|, plan1);
    assert data1[..|m.body|] == m.body by {
      assert Wire(m, padding)[HEADER..] == m.body;
      assert data[..|Wire(m, padding)|] == Wire(m, padding);
    }
    assert data1[|m.body|..] == data[|Wire(m, padding)|..];
  }

  /** With errors too, what comes of a whole message at the start of the stream is that message
      or none. */
  lemma ReceiveOrNone(m: Message, padding: seq<byte>, data: seq<byte>, plan: seq<Io>)
    requires Sendable(m) && |padding| == 4 && Wire(m, padding) <= data
    ensures var r := Receive(data, plan);
            r.Some? ==> r.value.0 == m && r.value.1 == data[|Wire(m, padding)|..]
    ensures Receive(data, plan).Some? ==> NoFail(plan) || Brought(plan) >= HEADER
  {
    ReceiveOne(m, padding, data, []);
    ReadBlockVerdict(data, HEADER, plan);
    ReadBlockVerdict(data, HEADER, []);
    var data1, n := data[HEADER..], |m.body|;
    ReadBlockVerdict(data1, n, ReadBlock(data, HEADER, plan).1);
    ReadBlockVerdict(data1, n, ReadBlock(data, HEADER, []).1);
    hide ReadBlock, Little, FromLittle;
  }

  /** A stream that ends within the message yields -1 and no message. */
  lemma ReceiveNone(m: Message, padding: seq<byte>, data: seq<byte>, plan: seq<Io>)
    requires Sendable(m) && |padding| == 4 && NoFail(plan)
    requires data <= Wire(m, padding) && |data| < |Wire(m, padding)|
    ensures Receive(data, plan).None?
  {
    var h := Header(m.opcode, |m.body|);
    ReadBlockWhole(data, HEADER, plan);
    if |data| >= HEADER {
      HeaderRoundTrip(h, padding);
      assert data[..HEADER] == HeaderBytes(h, padding);
      ReadBlockWhole(data[HEADER..], |m.body|, ReadBlock(data, HEADER, plan).1);
    }
  }

  /** The number of messages of ms that lie wholly within the first n bytes on the wire. */
  function Whole(ms: seq<Message>, paddings: seq<seq<byte>>, n: nat): (k: nat)
    requires Padded(ms, paddings)
    ensures k <= |ms|
  {
    if ms == [] || n < |Wire(ms[0], paddings[0])| then 0
    else 1 + Whole(ms[1..], paddings[1..], n - |Wire(ms[0], paddings[0])|)
  }

  /** Message boundaries survive any fragmentation: from the first n bytes of what was sent,
      read in whatever pieces, come exactly the messages that are complete in them. */
  lemma {:induction false} BoundariesSurvive(ms: seq<Message>, paddings: seq<seq<byte>>, n: nat, plan: seq<Io>)
    requires Padded(ms, paddings)
    requires (forall i :: 0 <= i < |ms| ==> Sendable(ms[i])) && NoFail(plan)
    requires n <= |WireAll(ms, paddings)|
    ensures ReceiveAll(WireAll(ms, paddings)[..n], plan, |ms|) == ms[..Whole(ms, paddings, n)]
    decreases |ms|
  {
    hide Wire, Receive;
    if ms != [] {
      var w := Wire(ms[0], paddings[0]);
      var rest := WireAll(ms[1..], paddings[1..]);
      var data := (w + rest)[..n];
      if n < |w| {
        assert data == w[..n];
        ReceiveNone(ms[0], paddings[0], data, plan);
      } else {
        assert data == w + rest[..n - |w|];
        ReceiveOne(ms[0], paddings[0], data, plan);
        assert data[|w|..] == rest[..n - |w|];
        var plan1 := Receive(data, plan).value.2;
        BoundariesSurvive(ms[1..], paddings[1..], n - |w|, plan1);
        var k := Whole(ms[1..], paddings[1..], n - |w|);
        assert ms[..1 + k] == [ms[0]] + ms[1..][..k];
      }
    }
  }

  lemma {:induction false} AllWhole(ms: seq<Message>, paddings: seq<seq<byte>>)
    requires Padded(ms, paddings)
    ensures Whole(ms, paddings, |WireAll(ms, paddings)|) == |ms|
  {
    if ms != [] {
      AllWhole(ms[1..], paddings[1..]);
    }
  }

  lemma {:induction false} SendAllWhole(ms: seq<Message>, paddings: seq<seq<byte>>, plans: seq<(seq<Io>, seq<Io>)>)
    requires Padded(ms, paddings) && Planned(ms, plans)
    ensures SendAll(ms, paddings, plans) == Some(WireAll(ms, paddings))
  {
    hide Send, Wire;
    if ms != [] {
      SendWhole(ms[0], paddings[0], plans[0].0, plans[0].1);
      SendAllWhole(ms[1..], paddings[1..], plans[1..]);
    }
  }

  /** What is sent is what is received, whatever the short writes, short reads and
      interruptions; and of a stream that breaks off after n bytes, exactly the messages that
      are complete in them. */
  lemma MessagesRoundTrip(ms: seq<Message>, paddings: seq<seq<byte>>, plans: seq<(seq<Io>, seq<Io>)>, n: nat,
                          plan: seq<Io>)
    requires Padded(ms, paddings) && Planned(ms, plans)
    requires (forall i :: 0 <= i < |ms| ==> Sendable(ms[i])) && NoFail(plan)
    ensures var sent := SendAll(ms, paddings, plans);
            && sent.Some?
            && ReceiveAll(sent.value, plan, |ms|) == ms
            && (n <= |sent.value| ==>
                  ReceiveAll(sent.value[..n], plan, |ms|) == ms[..Whole(ms, paddings, n)])
  {
    hide ReceiveAll, SendAll, WireAll, Whole;
    SendAllWhole(ms, paddings, plans);
    var all := WireAll(ms, paddings);
    AllWhole(ms, paddings);
    BoundariesSurvive(ms, paddings, |all|, plan);
    assert all[..|all|] == all && ms[..|ms|] == ms;
    if n <= |all| {
      BoundariesSurvive(ms, paddings, n, plan);
    }
  }
}
