/** The SSL mode of the relay engine (src/lib/nio2.c) within one session: what an end reads is
    queued for its peer, which writes the queue out, and an operation the SSL library asks to
    have repeated is the next one attempted.

    The functions say what the C functions do to one end or both; class Relay does it in
    place and is proved against them. */
module SslRelay {
  import opened Prelude

  /** sslmode: nothing owed, or the read or write that has to be repeated. */
  datatype Mode = DoOk | DoRead | DoWrite

  datatype Mask = Mask(rd: bool, wr: bool)

  /** struct nio_buf: of its L bytes the first p are sent. */
  datatype NioBuf = NioBuf(bytes: seq<byte>, p: nat)

  /** What SSL_get_error says of an SSL_read, and of an SSL_write. */
  datatype ReadResult = Got(bytes: seq<byte>) | ReadWantRead | ReadWantWrite | ReadBroken {
    predicate Again() { ReadWantRead? || ReadWantWrite? }
  }

  datatype WriteResult = Wrote(n: nat) | WriteWantRead | WriteWantWrite | SslError | WriteBroken {
    predicate Again() { WriteWantRead? || WriteWantWrite? }
  }

  /** One call on an SSL object. */
  datatype Call = ReadCall(rd: ReadResult) | WriteCall(offered: seq<byte>, wr: WriteResult)

  /** One end.  calls, read and written are the history of its SSL object. */
  datatype End = End(
    active: bool, mode: Mode, mask: Mask, outbuf: seq<NioBuf>, rbytes: nat, wbytes: nat,
    calls: seq<Call>, read: seq<byte>, written: seq<byte>)

  const IN := Mask(true, false)
  const OUT := Mask(false, true)

  function Rest(b: NioBuf): seq<byte> {
    if b.p <= |b.bytes| then b.bytes[b.p..] else []
  }

  // ---------------------------------------------------------------- sslniorelayread

  /** Reads from r and queues for p.  The flag says the session is torn down. */
  function ReadInto(r: End, p: End, rd: ReadResult): (End, End, bool) {
    if r.mode.DoWrite? then (r, p, false)
    else
      var r1 := r.(mode := DoOk, mask := if r.mode.DoRead? then IN else r.mask, calls := r.calls + [ReadCall(rd)]);
      match rd
      case Got(b) =>
        (r1.(read := r1.read + b, rbytes := r1.rbytes + |b|), p.(outbuf := p.outbuf + [NioBuf(b, 0)]), false)
      case ReadBroken => (r1, p, true)
      case _ => (r1.(mode := DoRead), p, false)
  }

  // ---------------------------------------------------------------- sslnioflush2peer

  /** SSL_write answers from ws in turn; when they are used up it wants to write later. */
  function NextAnswer(ws: seq<WriteResult>): WriteResult {
    if ws == [] then WriteWantWrite else ws[0]
  }

  /** The queue after n more bytes of its front buffer were sent. */
  function FrontSent(q: seq<NioBuf>, n: nat): seq<NioBuf>
    requires q != [] && q[0].p + n <= |q[0].bytes|
  {
    if q[0].p + n == |q[0].bytes| then q[1..] else [q[0].(p := q[0].p + n)] + q[1..]
  }

  function SentFront(r: End, n: nat): End
    requires r.outbuf != [] && r.outbuf[0].p + n <= |r.outbuf[0].bytes|
  {
    r.(outbuf := FrontSent(r.outbuf, n), wbytes := r.wbytes + n, written := r.written + Rest(r.outbuf[0])[..n])
  }

  /** One SSL_write of the front buffer: the end, whether to go on, and whether the session is
      torn down. */
  function Attempt(r: End, w: WriteResult): (End, bool, bool)
    requires r.outbuf != [] && r.outbuf[0].p <= |r.outbuf[0].bytes|
  {
    var b := r.outbuf[0];
    var r1 := r.(calls := r.calls + [WriteCall(Rest(b), w)]);
    match w
    case Wrote(n) => (SentFront(r1, Min(n, |Rest(b)|)), true, false)
    case SslError => (r1, false, false)
    case WriteBroken => (r1, false, true)
    case _ => (r1.(mode := DoWrite, mask := OUT), false, false)
  }

  /** Writes the queue out until it is empty or the library stops it. */
  function Drain(r: End, ws: seq<WriteResult>): (End, bool)
    decreases |ws|
  {
    if r.outbuf == [] || r.outbuf[0].p > |r.outbuf[0].bytes| then (r, false)
    else
      var (r1, more, down) := Attempt(r, NextAnswer(ws));
      if more then Drain(r1, ws[1..]) else (r1, down)
  }

  function FlushOut(r: End, ws: seq<WriteResult>): (End, bool) {
    if r.mode.DoRead? then (r, false)
    else Drain(r.(mode := DoOk, mask := if r.mode.DoWrite? then IN else r.mask), ws)
  }

  // ---------------------------------------------------------------- sessions

  /** Down keeps both ends as they are when the teardown begins. */
  datatype Session = Session(a: End, b: End) | Down(a: End, b: End) | Aborted

  function Swap(s: Session): Session {
    match s
    case Session(a, b) => Session(b, a)
    case Down(a, b) => Down(b, a)
    case Aborted => s
  }

  /** sslniorelay on the first end. */
  function RelayA(a: End, b: End, rd: ReadResult, ws: seq<WriteResult>): Session {
    var (a1, b1, down) := ReadInto(a, b, rd);
    if down then Down(a1, b1)
    else if !b1.active then Session(a1, b1)
    else
      var (b2, down2) := FlushOut(b1, ws);
      if down2 then Down(a1, b2) else Session(a1, b2)
  }

  /** runrelays2 on the first end; out says the event is EPOLLOUT. */
  function EventA(a: End, b: End, out: bool, rd: ReadResult, ws: seq<WriteResult>): Session {
    match a.mode
    case DoRead => RelayA(a, b, rd, ws)
    case DoWrite =>
      var (a1, down) := FlushOut(a, ws);
      if down then Down(a1, b) else Session(a1, b)
    case DoOk => if out then Aborted else RelayA(a, b, rd, ws)
  }

  /** An end connects, or its socket becomes ready; first says which end. */
  datatype Event =
    | Connect(first: bool)
    | Ready(first: bool, out: bool, rd: ReadResult, ws: seq<WriteResult>)

  function Connected(e: End): End {
    e.(active := true, mask := IN)
  }

  /** epoll reports only what is registered, and a successful SSL_read yields bytes. */
  predicate Possible(s: Session, e: Event) {
    s.Session? &&
    match e
    case Connect(first) => !(if first then s.a else s.b).active
    case Ready(first, out, rd, _) =>
      var x := if first then s.a else s.b;
      x.active && (if out then x.mask.wr else x.mask.rd) && (rd.Got? ==> rd.bytes != [])
  }

  function Step(s: Session, e: Event): Session {
    if !Possible(s, e) then s
    else match e
      case Connect(first) =>
        if first then Session(Connected(s.a), s.b) else Session(s.a, Connected(s.b))
      case Ready(first, out, rd, ws) =>
        if first then EventA(s.a, s.b, out, rd, ws) else Swap(EventA(s.b, s.a, out, rd, ws))
  }

  const NewEnd := End(false, DoOk, Mask(false, false), [], 0, 0, [], [], [])

  function RunFrom(a: End, b: End, evs: seq<Event>): Session {
    if evs == [] then Session(a, b) else Step(RunFrom(a, b, evs[..|evs| - 1]), evs[|evs| - 1])
  }

  /** A session of two records that were never used. */
  function Run(evs: seq<Event>): Session {
    RunFrom(NewEnd, NewEnd, evs)
  }

  /** The end that nioshutrelay and the next reservation leave for the next session: the
      connection, the counts and the SSL object are new, but the queue and the mode are not. */
  function Reused(e: End): End {
    End(false, e.mode, Mask(false, false), e.outbuf, 0, 0, [], [], [])
  }

  // ---------------------------------------------------------------- the invariant

  function Unsent(q: seq<NioBuf>): seq<byte> {
    if q == [] then [] else Rest(q[0]) + Unsent(q[1..])
  }

  /** After a call the library asks to have repeated comes that very call: a write of the same
      bytes with no read between, or a read with no write between. */
  ghost predicate Disciplined(calls: seq<Call>) {
    forall i {:trigger calls[i]} :: 0 < i < |calls| ==> Follows(calls[i - 1], calls[i])
  }

  predicate Follows(before: Call, after: Call) {
    match before
    case ReadCall(rd) => rd.Again() ==> after.ReadCall?
    case WriteCall(offered, wr) => wr.Again() ==> after.WriteCall? && after.offered == offered
  }

  /** What the mode remembers of the last call.  Before the first call a read may be owed from
      an earlier session, which does no harm: the first call is a read either way. */
  ghost predicate ModeOk(e: End) {
    && (e.calls == [] ==> !e.mode.DoWrite?)
    && (e.calls != [] ==>
          match e.calls[|e.calls| - 1]
          case ReadCall(rd) => !e.mode.DoWrite? && (e.mode.DoRead? <==> rd.Again())
          case WriteCall(offered, wr) =>
            && !e.mode.DoRead? && (e.mode.DoWrite? <==> wr.Again())
            && (e.mode.DoWrite? ==> e.outbuf != [] && Rest(e.outbuf[0]) == offered))
  }

  ghost predicate EndOk(e: End) {
    && Disciplined(e.calls) && ModeOk(e)
    && (forall i {:trigger e.outbuf[i]} :: 0 <= i < |e.outbuf| ==> e.outbuf[i].p < |e.outbuf[i].bytes|)
    && (e.active ==> e.mask == if e.mode.DoWrite? then OUT else IN)
    && (!e.active ==> !e.mode.DoWrite? && e.calls == [])
    && e.rbytes == |e.read| && e.wbytes == |e.written|
  }

  /** What p read is what r wrote followed by what is queued at r. */
  ghost predicate PipeOk(p: End, r: End) {
    p.read == r.written + Unsent(r.outbuf)
  }

  ghost predicate SessionOk(s: Session) {
    && !s.Aborted?
    && EndOk(s.a) && EndOk(s.b) && PipeOk(s.a, s.b) && PipeOk(s.b, s.a)
  }

  lemma {:induction false} UnsentAppend(q: seq<NioBuf>, b: NioBuf)
    ensures Unsent(q + [b]) == Unsent(q) + Rest(b)
  {
    if q == [] {
      assert [] + [b] == [b] + [];
      UnsentCons(b, []);
    } else {
      UnsentAppend(q[1..], b);
      assert q + [b] == [q[0]] + (q[1..] + [b]);
      UnsentCons(q[0], q[1..] + [b]);
      Associative(Rest(q[0]), Unsent(q[1..]), Rest(b));
    }
  }

  lemma Associative(x: seq<byte>, y: seq<byte>, z: seq<byte>)
    ensures (x + y) + z == x + (y + z)
  {
  }

  lemma ReadIntoKeeps(r: End, p: End, rd: ReadResult)
    requires EndOk(r) && EndOk(p) && PipeOk(r, p) && r.active && (rd.Got? ==> rd.bytes != [])
    ensures var (r1, p1, down) := ReadInto(r, p, rd);
            && EndOk(r1) && EndOk(p1) && PipeOk(r1, p1)
            && r1.outbuf == r.outbuf && r1.written == r.written && p1.read == p.read
            && r1.active && p1.active == p.active
  {
    if !r.mode.DoWrite? {
      ReadNext(r, rd);
    }
    if rd.Got? {
      UnsentAppend(p.outbuf, NioBuf(rd.bytes, 0));
      Associative(p.written, Unsent(p.outbuf), rd.bytes);
    }
  }

  lemma ReadNext(r: End, rd: ReadResult)
    requires Disciplined(r.calls) && ModeOk(r) && !r.mode.DoWrite?
    ensures Disciplined(r.calls + [ReadCall(rd)])
  {
    var calls := r.calls + [ReadCall(rd)];
    forall i | 0 < i < |calls| ensures Follows(calls[i - 1], calls[i]) {
      if i < |r.calls| {
        assert Follows(r.calls[i - 1], r.calls[i]);
      }
    }
  }

  /** An end in the middle of a flush: no call is owed, or exactly the front buffer is. */
  ghost predicate Draining(r: End) {
    && Disciplined(r.calls)
    && (forall i {:trigger r.outbuf[i]} :: 0 <= i < |r.outbuf| ==> r.outbuf[i].p < |r.outbuf[i].bytes|)
    && r.mode.DoOk? && r.active && r.mask == IN
    && r.rbytes == |r.read| && r.wbytes == |r.written|
    && (r.calls != [] ==>
          match r.calls[|r.calls| - 1]
          case ReadCall(rd) => !rd.Again()
          case WriteCall(offered, wr) => wr.Again() ==> r.outbuf != [] && Rest(r.outbuf[0]) == offered)
  }

  /** A call that is allowed next keeps the sequence disciplined. */
  lemma CallNext(r: End, w: WriteResult)
    requires Draining(r) && r.outbuf != []
    ensures Disciplined(r.calls + [WriteCall(Rest(r.outbuf[0]), w)])
  {
    var calls := r.calls + [WriteCall(Rest(r.outbuf[0]), w)];
    forall i | 0 < i < |calls| ensures Follows(calls[i - 1], calls[i]) {
      if i < |r.calls| {
        assert Follows(r.calls[i - 1], r.calls[i]);
      }
    }
  }

  lemma UnsentFront(q: seq<NioBuf>, n: nat)
    requires q != [] && q[0].p + n <= |q[0].bytes|
    ensures Unsent(q) == Rest(q[0])[..n] + Unsent(FrontSent(q, n))
  {
    var x, tail := Rest(q[0]), Unsent(q[1..]);
    if n == |x| {
      assert x[..n] == x;
    } else {
      var b := q[0].(p := q[0].p + n);
      assert Rest(b) == x[n..];
      UnsentCons(b, q[1..]);
      SplitFront(x, n, tail);
    }
  }

  lemma UnsentCons(b: NioBuf, q: seq<NioBuf>)
    ensures Unsent([b] + q) == Rest(b) + Unsent(q)
  {
    assert ([b] + q)[1..] == q;
  }

  lemma SplitFront(x: seq<byte>, n: nat, tail: seq<byte>)
    requires n <= |x|
    ensures x + tail == x[..n] + (x[n..] + tail)
  {
  }

  lemma SentFrontPipe(p: End, r: End, n: nat)
    requires PipeOk(p, r) && r.outbuf != [] && r.outbuf[0].p + n <= |r.outbuf[0].bytes|
    ensures PipeOk(p, SentFront(r, n))
  {
    UnsentFront(r.outbuf, n);
  }

  lemma {:induction false} DrainKeeps(p: End, r: End, ws: seq<WriteResult>)
    requires Draining(r) && PipeOk(p, r)
    ensures var (r1, down) := Drain(r, ws);
            EndOk(r1) && PipeOk(p, r1) && r1.read == r.read && r1.active
    decreases |ws|
  {
    if r.outbuf != [] {
      var b := r.outbuf[0];
      var w := NextAnswer(ws);
      CallNext(r, w);
      if w.Wrote? {
        var r1 := r.(calls := r.calls + [WriteCall(Rest(b), w)]);
        var n := Min(w.n, |Rest(b)|);
        SentFrontPipe(p, r1, n);
        DrainKeeps(p, SentFront(r1, n), ws[1..]);
      }
    }
  }

  lemma FlushOutKeeps(p: End, r: End, ws: seq<WriteResult>)
    requires EndOk(r) && PipeOk(p, r) && r.active
    ensures var (r1, down) := FlushOut(r, ws);
            EndOk(r1) && PipeOk(p, r1) && r1.read == r.read && r1.active
  {
    if !r.mode.DoRead? {
      DrainKeeps(p, r.(mode := DoOk, mask := if r.mode.DoWrite? then IN else r.mask), ws);
    }
  }

  lemma EventAKeeps(a: End, b: End, out: bool, rd: ReadResult, ws: seq<WriteResult>)
    requires SessionOk(Session(a, b)) && Possible(Session(a, b), Ready(true, out, rd, ws))
    ensures SessionOk(EventA(a, b, out, rd, ws))
  {
    if a.mode.DoWrite? {
      FlushOutKeeps(b, a, ws);
    } else {
      ReadIntoKeeps(a, b, rd);
      var (a1, b1, down) := ReadInto(a, b, rd);
      if b1.active {
        FlushOutKeeps(a1, b1, ws);
      }
    }
  }

  lemma StepKeeps(s: Session, e: Event)
    requires SessionOk(s)
    ensures SessionOk(Step(s, e))
  {
    if Possible(s, e) && e.Ready? {
      if e.first {
        EventAKeeps(s.a, s.b, e.out, e.rd, e.ws);
      } else {
        EventAKeeps(s.b, s.a, e.out, e.rd, e.ws);
      }
    }
  }

  lemma {:induction false} RunKeeps(a: End, b: End, evs: seq<Event>)
    requires SessionOk(Session(a, b))
    ensures SessionOk(RunFrom(a, b, evs))
    decreases |evs|
  {
    hide Step, SessionOk;
    if evs != [] {
      RunKeeps(a, b, evs[..|evs| - 1]);
      StepKeeps(RunFrom(a, b, evs[..|evs| - 1]), evs[|evs| - 1]);
    }
  }

  /** In every run of a session that starts with empty queues, the event that tears it down
      included: the abort() is never reached, each direction is a lossless pipe, and both SSL
      objects see a disciplined sequence of calls. */
  lemma SslSession(evs: seq<Event>)
    ensures SessionOk(Run(evs))
  {
    RunKeeps(NewEnd, NewEnd, evs);
  }

  /** In any run, and also when it ends in a teardown: what an end read is what its peer wrote
      followed by what is queued. */
  lemma SslPipes(evs: seq<Event>)
    ensures var s := Run(evs);
            && !s.Aborted?
            && s.a.read == s.b.written + Unsent(s.b.outbuf)
            && s.b.read == s.a.written + Unsent(s.a.outbuf)
  {
    hide Run;
    SslSession(evs);
  }

  /** In any run, and also in the event that tears the session down, on either SSL object: the
      call after one that has to be repeated is that call, with the same bytes if it is a
      write. */
  lemma SslRetries(evs: seq<Event>, first: bool, i: nat)
    ensures !Run(evs).Aborted?
    ensures var calls := (if first then Run(evs).a else Run(evs).b).calls;
            i + 1 < |calls| ==>
              && (calls[i].ReadCall? && calls[i].rd.Again() ==> calls[i + 1].ReadCall?)
              && (calls[i].WriteCall? && calls[i].wr.Again() ==>
                    calls[i + 1].WriteCall? && calls[i + 1].offered == calls[i].offered)
  {
    hide Run;
    SslSession(evs);
    var calls := (if first then Run(evs).a else Run(evs).b).calls;
    if i + 1 < |calls| {
      assert Follows(calls[i + 1 - 1], calls[i + 1]);
    }
  }

  // ---------------------------------------------------------------- what an event does

  function AnswerAt(ws: seq<WriteResult>, j: nat): WriteResult {
    if j < |ws| then ws[j] else WriteWantWrite
  }

  /** From r to r1 the queue was written out: the front buffer was offered first, the calls got
      the answers of ws in turn, each one but the last was taken, and bytes are left only if
      the last one was not. */
  ghost predicate WrittenOut(r: End, r1: End, ws: seq<WriteResult>) {
    && r.calls <= r1.calls
    && var made := r1.calls[|r.calls|..];
    && (made == [] <==> r.outbuf == [])
    && (made != [] ==> r.outbuf != [] && made[0].WriteCall? && made[0].offered == Rest(r.outbuf[0]))
    && (forall j: nat {:trigger made[j]} :: j < |made| ==>
          && made[j].WriteCall? && made[j].wr == AnswerAt(ws, j)
          && (j < |made| - 1 ==> made[j].wr.Wrote?))
    && (r1.outbuf != [] ==> made != [] && !made[|made| - 1].wr.Wrote?)
  }

  /** From r to r1 calls were made, and the last one broke the connection. */
  predicate Broke(r: End, r1: End) {
    && |r1.calls| > |r.calls|
    && match r1.calls[|r1.calls| - 1]
       case ReadCall(rd) => rd.ReadBroken?
       case WriteCall(_, wr) => wr.WriteBroken?
  }

  ghost predicate Sound(q: seq<NioBuf>) {
    forall i {:trigger q[i]} :: 0 <= i < |q| ==> q[i].p < |q[i].bytes|
  }

  /** The first call was taken; the rest of the queue was written out after it. */
  lemma WrittenOnward(r: End, r1: End, r2: End, ws: seq<WriteResult>)
    requires r.outbuf != [] && ws != [] && ws[0].Wrote?
    requires r1.calls == r.calls + [WriteCall(Rest(r.outbuf[0]), ws[0])] && WrittenOut(r1, r2, ws[1..])
    ensures WrittenOut(r, r2, ws) && (Broke(r, r2) <==> Broke(r1, r2))
  {
    var made := r2.calls[|r.calls|..];
    var later := r2.calls[|r1.calls|..];
    assert made == [WriteCall(Rest(r.outbuf[0]), ws[0])] + later;
    forall j: nat | j < |made|
      ensures made[j].WriteCall? && made[j].wr == AnswerAt(ws, j) && (j < |made| - 1 ==> made[j].wr.Wrote?) {
      if j > 0 {
        assert made[j] == later[j - 1];
        assert later[j - 1].wr == AnswerAt(ws[1..], j - 1);
      }
    }
    if later != [] {
      assert made[|made| - 1] == later[|later| - 1];
    }
  }

  lemma WrittenOnce(r: End, r1: End, ws: seq<WriteResult>)
    requires r.outbuf != [] && !NextAnswer(ws).Wrote?
    requires r1.calls == r.calls + [WriteCall(Rest(r.outbuf[0]), NextAnswer(ws))]
    ensures WrittenOut(r, r1, ws) && (Broke(r, r1) <==> NextAnswer(ws).WriteBroken?)
  {
    assert r1.calls[|r.calls|..] == [WriteCall(Rest(r.outbuf[0]), NextAnswer(ws))];
  }

  lemma {:induction false} DrainWritesOut(r: End, ws: seq<WriteResult>)
    requires Sound(r.outbuf)
    ensures WrittenOut(r, Drain(r, ws).0, ws) && (Drain(r, ws).1 <==> Broke(r, Drain(r, ws).0))
    decreases |ws|
  {
    hide WrittenOut, Broke;
    if r.outbuf == [] {
      NothingWritten(r, ws);
    } else {
      var (r1, more, down) := Attempt(r, NextAnswer(ws));
      if more {
        DrainWritesOut(r1, ws[1..]);
        WrittenOnward(r, r1, Drain(r1, ws[1..]).0, ws);
      } else {
        WrittenOnce(r, r1, ws);
      }
    }
  }

  lemma NothingWritten(r: End, ws: seq<WriteResult>)
    requires r.outbuf == []
    ensures WrittenOut(r, r, ws) && !Broke(r, r)
  {
  }

  lemma FlushOutVerdict(r: End, ws: seq<WriteResult>)
    requires EndOk(r)
    ensures var (r1, down) := FlushOut(r, ws);
            if r.mode.DoRead? then r1 == r && !down else WrittenOut(r, r1, ws) && (down <==> Broke(r, r1))
  {
    if !r.mode.DoRead? {
      DrainWritesOut(r.(mode := DoOk, mask := if r.mode.DoWrite? then IN else r.mask), ws);
    }
  }

  function Own(s: Session, first: bool): End
    requires !s.Aborted?
  {
    if first then s.a else s.b
  }

  /** From (x, y) to (x1, y1): x's socket was ready.  An end that owes a write writes its queue
      out.  Any other end makes one SSL_read; what it got is queued at its peer, and unless the
      connection broke or the peer is not connected or owes a read, the peer writes its queue
      out.  down says that one of these calls broke its connection, which is when the session
      is torn down. */
  ghost predicate Served(x: End, y: End, x1: End, y1: End, down: bool, rd: ReadResult, ws: seq<WriteResult>) {
    if x.mode.DoWrite? then
      WrittenOut(x, x1, ws) && y1 == y && (down <==> Broke(x, x1))
    else
      var queued := y.(outbuf := y.outbuf + if rd.Got? then [NioBuf(rd.bytes, 0)] else []);
      && x1.calls == x.calls + [ReadCall(rd)] && x1.outbuf == x.outbuf
      && (if rd.ReadBroken? || !y.active || y.mode.DoRead? then y1 == queued else WrittenOut(queued, y1, ws))
      && (down <==> Broke(x, x1) || Broke(y, y1))
  }

  lemma EventAVerdict(a: End, b: End, out: bool, rd: ReadResult, ws: seq<WriteResult>)
    requires SessionOk(Session(a, b)) && Possible(Session(a, b), Ready(true, out, rd, ws))
    ensures var t := EventA(a, b, out, rd, ws);
            !t.Aborted? && Served(a, b, t.a, t.b, t.Down?, rd, ws)
  {
    hide Drain, Disciplined;
    if a.mode.DoWrite? {
      FlushOutVerdict(a, ws);
    } else {
      ReadIntoKeeps(a, b, rd);
      var (a1, b1, down) := ReadInto(a, b, rd);
      assert b.outbuf + [] == b.outbuf;
      FlushOutVerdict(b1, ws);
    }
  }

  /** One event, told by the calls made on the two SSL objects. */
  lemma EventVerdict(s: Session, e: Event)
    requires SessionOk(s) && Possible(s, e)
    ensures !Step(s, e).Aborted?
    ensures var t := Step(s, e);
            var x, y := Own(s, e.first), Own(s, !e.first);
            match e
            case Connect(first) => t.Session? && Own(t, first) == x.(active := true, mask := IN) && Own(t, !first) == y
            case Ready(first, _, rd, ws) => Served(x, y, Own(t, first), Own(t, !first), t.Down?, rd, ws)
  {
    hide Served, EventA;
    if e.Ready? {
      if e.first {
        EventAVerdict(s.a, s.b, e.out, e.rd, e.ws);
      } else {
        assert SessionOk(Swap(s));
        EventAVerdict(s.b, s.a, e.out, e.rd, e.ws);
      }
    }
  }

  /** The abort is reached exactly by a report that an end can be written to which owes nothing;
      epoll makes none, as long as its reports are handled one at a time (SslSession). */
  lemma AbortsExactly(a: End, b: End, out: bool, rd: ReadResult, ws: seq<WriteResult>)
    ensures EventA(a, b, out, rd, ws).Aborted? <==> a.mode.DoOk? && out
  {
    hide FlushOut, ReadInto;
  }

  // ---------------------------------------------------------------- what the calls add up to

  /** The bytes that SSL_read gave, and those that SSL_write took. */
  function Received(calls: seq<Call>): seq<byte> {
    if calls == [] then []
    else Received(calls[..|calls| - 1]) +
         match calls[|calls| - 1]
         case ReadCall(Got(b)) => b
         case _ => []
  }

  function Accepted(calls: seq<Call>): seq<byte> {
    if calls == [] then []
    else Accepted(calls[..|calls| - 1]) +
         match calls[|calls| - 1]
         case WriteCall(offered, Wrote(n)) => offered[..Min(n, |offered|)]
         case _ => []
  }

  ghost predicate Told(e: End) {
    e.read == Received(e.calls) && e.written == Accepted(e.calls)
  }

  lemma OneMoreCall(calls: seq<Call>, k: Call)
    ensures Received(calls + [k]) == Received(calls) + match k { case ReadCall(Got(b)) => b case _ => [] }
    ensures Accepted(calls + [k]) ==
            Accepted(calls) + match k { case WriteCall(o, Wrote(n)) => o[..Min(n, |o|)] case _ => [] }
  {
    assert (calls + [k])[..|calls|] == calls;
  }

  lemma {:induction false} DrainTold(r: End, ws: seq<WriteResult>)
    requires Told(r)
    ensures Told(Drain(r, ws).0)
    decreases |ws|
  {
    if r.outbuf != [] && r.outbuf[0].p <= |r.outbuf[0].bytes| {
      var w := NextAnswer(ws);
      OneMoreCall(r.calls, WriteCall(Rest(r.outbuf[0]), w));
      var (r1, more, down) := Attempt(r, w);
      if more {
        DrainTold(r1, ws[1..]);
      }
    }
  }

  lemma ReadIntoTold(r: End, p: End, rd: ReadResult)
    requires Told(r) && Told(p)
    ensures Told(ReadInto(r, p, rd).0) && Told(ReadInto(r, p, rd).1)
  {
    OneMoreCall(r.calls, ReadCall(rd));
    hide Received, Accepted;
    assert r.read + [] == r.read && r.written + [] == r.written;
  }

  lemma FlushOutTold(r: End, ws: seq<WriteResult>)
    requires Told(r)
    ensures Told(FlushOut(r, ws).0)
  {
    DrainTold(r.(mode := DoOk, mask := if r.mode.DoWrite? then IN else r.mask), ws);
    hide Drain, Received, Accepted;
  }

  lemma EventATold(a: End, b: End, out: bool, rd: ReadResult, ws: seq<WriteResult>)
    requires Told(a) && Told(b)
    ensures var t := EventA(a, b, out, rd, ws);
            !t.Aborted? ==> Told(t.a) && Told(t.b)
  {
    hide Told, ReadInto, FlushOut;
    FlushOutTold(a, ws);
    ReadIntoTold(a, b, rd);
    FlushOutTold(ReadInto(a, b, rd).1, ws);
  }

  /** In any run: read and written are the bytes that the library said it gave and took, call
      by call. */
  lemma {:induction false} SslCalls(evs: seq<Event>)
    ensures !Run(evs).Aborted? && Told(Run(evs).a) && Told(Run(evs).b)
    decreases |evs|
  {
    hide EventA, Told;
    SslSession(evs);
    if evs == [] {
      NewTold();
    } else {
      SslCalls(evs[..|evs| - 1]);
      var s, e := Run(evs[..|evs| - 1]), evs[|evs| - 1];
      if Possible(s, e) {
        StepTold(s, e);
      }
    }
  }

  lemma NewTold()
    ensures Told(NewEnd)
  {
  }

  lemma StepTold(s: Session, e: Event)
    requires s.Session? && Told(s.a) && Told(s.b) && !Step(s, e).Aborted?
    ensures Told(Step(s, e).a) && Told(Step(s, e).b)
  {
    hide EventA;
    if e.Ready? {
      EventATold(s.a, s.b, e.out, e.rd, e.ws);
      EventATold(s.b, s.a, e.out, e.rd, e.ws);
    }
  }

  // ---------------------------------------------------------------- reuse of a record

  /** Nothing is written at an end that was not read, in that order, at its peer. */
  ghost predicate Isolated(s: Session) {
    !s.Aborted? && s.b.written <= s.a.read && s.a.written <= s.b.read
  }

  /** Two records that earlier sessions left with empty queues make a session as good as new. */
  lemma CleanReuse(a: End, b: End, evs: seq<Event>)
    requires EndOk(a) && EndOk(b) && a.outbuf == [] && b.outbuf == []
    ensures SessionOk(RunFrom(Reused(a), Reused(b), evs))
    ensures Isolated(RunFrom(Reused(a), Reused(b), evs))
  {
    hide RunFrom;
    RunKeeps(Reused(a), Reused(b), evs);
  }

  const WITHHOLD := [SslError]

  /** The ends of a session once both have connected. */
  function Joined(a: End, b: End): Session {
    Session(Connected(Reused(a)), Connected(Reused(b)))
  }

  lemma JoinedRun(a: End, b: End)
    ensures RunFrom(Reused(a), Reused(b), [Connect(true), Connect(false)]) == Joined(a, b)
  {
    var evs := [Connect(true), Connect(false)];
    assert evs[..1] == [Connect(true)] && [Connect(true)][..0] == [];
    var s0 := Session(Reused(a), Reused(b));
    assert RunFrom(Reused(a), Reused(b), []) == s0;
    assert RunFrom(Reused(a), Reused(b), [Connect(true)]) == Step(s0, Connect(true));
  }

  lemma RunSnoc(a: End, b: End, evs: seq<Event>, e: Event)
    ensures RunFrom(a, b, evs + [e]) == Step(RunFrom(a, b, evs), e)
  {
    assert (evs + [e])[..|evs|] == evs;
  }

  /** An end with a buffer of an earlier session in its queue: one SSL_write of one byte. */
  lemma LeftoverSent(r: End)
    requires r.outbuf != [] && r.outbuf[0].p < |r.outbuf[0].bytes| && !r.mode.DoRead?
    ensures FlushOut(r, [Wrote(1), SslError]).0.written == r.written + [r.outbuf[0].bytes[r.outbuf[0].p]]
    ensures !FlushOut(r, [Wrote(1), SslError]).1
  {
    var r0 := r.(mode := DoOk, mask := if r.mode.DoWrite? then IN else r.mask);
    var r1 := Attempt(r0, Wrote(1)).0;
    assert Rest(r.outbuf[0])[..1] == [r.outbuf[0].bytes[r.outbuf[0].p]];
    OneAnswer(r1);
    assert [Wrote(1), SslError][1..] == [SslError];
  }

  /** A queue whose first write ends in an SSL error keeps its bytes. */
  lemma OneAnswer(r: End)
    ensures Drain(r, [SslError]).0.written == r.written && !Drain(r, [SslError]).1
    ensures Drain(r, [SslError]).0.outbuf == r.outbuf && Drain(r, [SslError]).0.mode == r.mode
    ensures Drain(r, [SslError]).0.active == r.active && Drain(r, [SslError]).0.mask == r.mask
    ensures Drain(r, [SslError]).0.read == r.read
  {
  }

  /** The first end owes a write, of bytes of an earlier session, and makes good on it. */
  lemma OwedWriteCrosses(a: End, b: End) returns (evs: seq<Event>)
    requires EndOk(a) && a.mode.DoWrite? && a.outbuf != []
    ensures !Isolated(RunFrom(Reused(a), Reused(b), evs))
  {
    var e := Ready(true, false, ReadWantRead, [Wrote(1), SslError]);
    JoinedRun(a, b);
    evs := [Connect(true), Connect(false)] + [e];
    RunSnoc(Reused(a), Reused(b), [Connect(true), Connect(false)], e);
    LeftoverSent(Connected(Reused(a)));
  }

  /** A byte that the first end reads moves the queue of the second. */
  lemma QueueCrosses(s: Session)
    requires s.Session? && s.a.active && s.b.active && s.a.mask.rd && !s.a.mode.DoWrite? && !s.b.mode.DoRead?
    requires s.a.read == [] && s.b.written == []
    requires s.b.outbuf != [] && s.b.outbuf[0].p < |s.b.outbuf[0].bytes|
    ensures var x := s.b.outbuf[0].bytes[s.b.outbuf[0].p];
            var y: byte := if x == 0 then 1 else 0;
            !Isolated(Step(s, Ready(true, false, Got([y]), [Wrote(1), SslError])))
  {
    var x := s.b.outbuf[0].bytes[s.b.outbuf[0].p];
    var y: byte := if x == 0 then 1 else 0;
    var (a1, b1, down) := ReadInto(s.a, s.b, Got([y]));
    assert b1.outbuf[0] == s.b.outbuf[0];
    LeftoverSent(b1);
    hide FlushOut;
    var b2 := FlushOut(b1, [Wrote(1), SslError]).0;
    var s1 := Step(s, Ready(true, false, Got([y]), [Wrote(1), SslError]));
    assert s1 == Session(a1, b2);
    assert s1.a.read[0] == y && s1.b.written[0] == x;
  }

  /** The second end has bytes of an earlier session in its queue. */
  lemma LeftoverCrosses(a: End, b: End) returns (evs: seq<Event>)
    requires EndOk(a) && EndOk(b) && !a.mode.DoWrite? && b.outbuf != []
    ensures !Isolated(RunFrom(Reused(a), Reused(b), evs))
  {
    JoinedRun(a, b);
    evs := [Connect(true), Connect(false)];
    var s := Joined(a, b);
    if b.mode.DoRead? {
      // A read at the second end settles what it owes.
      var e := Ready(false, false, Got([0]), WITHHOLD);
      RunSnoc(Reused(a), Reused(b), evs, e);
      evs := evs + [e];
      OwedReadSettled(a, b);
      s := Step(s, e);
    }
    var x := s.b.outbuf[0].bytes[s.b.outbuf[0].p];
    var y: byte := if x == 0 then 1 else 0;
    var e := Ready(true, false, Got([y]), [Wrote(1), SslError]);
    QueueCrosses(s);
    RunSnoc(Reused(a), Reused(b), evs, e);
    evs := evs + [e];
  }

  lemma OwedReadSettled(a: End, b: End)
    requires EndOk(a) && EndOk(b) && !a.mode.DoWrite? && b.outbuf != [] && b.mode.DoRead?
    ensures var s := Step(Joined(a, b), Ready(false, false, Got([0]), WITHHOLD));
            && s.Session? && s.a.active && s.b.active && s.a.mask.rd && !s.a.mode.DoWrite? && !s.b.mode.DoRead?
            && s.a.read == [] && s.b.written == [] && s.b.outbuf == b.outbuf
  {
    var s0 := Joined(a, b);
    var (b1, a1, down) := ReadInto(s0.b, s0.a, Got([0]));
    OneAnswer(a1.(mode := DoOk));
  }

  lemma SwapRun(a: End, b: End, evs: seq<Event>) returns (other: seq<Event>)
    ensures RunFrom(b, a, other) == Swap(RunFrom(a, b, evs))
    decreases |evs|
  {
    other := [];
    if evs != [] {
      var k := |evs| - 1;
      other := SwapRun(a, b, evs[..k]);
      var e := evs[k].(first := !evs[k].first);
      RunSnoc(b, a, other, e);
      other := other + [e];
      SwapStep(RunFrom(a, b, evs[..k]), evs[k]);
    }
  }

  lemma SwapStep(s: Session, e: Event)
    ensures Step(Swap(s), e.(first := !e.first)) == Swap(Step(s, e))
  {
    hide EventA;
  }

  /** Records are reused (src/lib/nio2.c:690-707), with whatever earlier sessions left in their
      queues.  The bytes of the next session stay in it, in every run, if and only if both
      queues were empty when the records were shut.  A read that was owed makes no
      difference; a write that was owed is one with bytes in the queue. */
  lemma ReuseIsolates(a: End, b: End)
    requires EndOk(a) && EndOk(b)
    ensures (forall evs {:trigger RunFrom(Reused(a), Reused(b), evs)} :: Isolated(RunFrom(Reused(a), Reused(b), evs)))
            <==> a.outbuf == [] && b.outbuf == []
  {
    if a.outbuf == [] && b.outbuf == [] {
      forall evs ensures Isolated(RunFrom(Reused(a), Reused(b), evs)) {
        CleanReuse(a, b, evs);
      }
    } else {
      var evs := LeavesSession(a, b);
    }
  }

  lemma LeavesSession(a: End, b: End) returns (evs: seq<Event>)
    requires EndOk(a) && EndOk(b) && (a.outbuf != [] || b.outbuf != [])
    ensures !Isolated(RunFrom(Reused(a), Reused(b), evs))
  {
    hide RunFrom, Step;
    if a.mode.DoWrite? {
      OwedHasBytes(a);
      evs := OwedWriteCrosses(a, b);
    } else if b.mode.DoWrite? {
      OwedHasBytes(b);
      evs := OwedWriteCrosses(b, a);
      evs := SwapRun(Reused(b), Reused(a), evs);
    } else if b.outbuf != [] {
      evs := LeftoverCrosses(a, b);
    } else {
      evs := LeftoverCrosses(b, a);
      evs := SwapRun(Reused(b), Reused(a), evs);
    }
  }

  lemma OwedHasBytes(e: End)
    requires EndOk(e) && e.mode.DoWrite?
    ensures e.outbuf != []
  {
  }

  // ---------------------------------------------------------------- in place

  /** The SSL fields of struct nio_relay. */
  class Relay {
    var active: bool
    var mode: Mode
    var mask: Mask
    var outbuf: seq<NioBuf>
    var rbytes: nat
    var wbytes: nat
    var peer: Relay?
    ghost var calls: seq<Call>
    ghost var read: seq<byte>
    ghost var written: seq<byte>

    constructor ()
      ensures View() == NewEnd && peer == null
    {
      active, mode, mask, outbuf, rbytes, wbytes, peer := false, DoOk, Mask(false, false), [], 0, 0, null;
      calls, read, written := [], [], [];
    }

    ghost function View(): End
      reads this
    {
      End(active, mode, mask, outbuf, rbytes, wbytes, calls, read, written)
    }

    /** sslniorelayread. */
    method RelayRead(rd: ReadResult) returns (down: bool)
      requires peer != null && peer != this
      modifies this, peer
      ensures peer == old(peer) && peer.peer == old(peer.peer)
      ensures (View(), peer.View(), down) == ReadInto(old(View()), old(peer.View()), rd)
    {
      if mode == DoWrite {
        return false;
      }
      if mode == DoRead {
        mask := IN;
      }
      mode := DoOk;
      calls := calls + [ReadCall(rd)];
      match rd
      case Got(bytes) =>
        peer.outbuf := peer.outbuf + [NioBuf(bytes, 0)];
        rbytes := rbytes + |bytes|;
        read := read + bytes;
        return false;
      case ReadBroken => return true;
      case _ =>
        mode := DoRead;
        return false;
    }

    /** sslnioflush2peer: tries the front buffer again and again until the queue is empty or
        the library does not take more. */
    method FlushToPeer(ws: seq<WriteResult>) returns (down: bool)
      requires forall i :: 0 <= i < |outbuf| ==> outbuf[i].p <= |outbuf[i].bytes|
      modifies this
      ensures peer == old(peer)
      ensures (View(), down) == FlushOut(old(View()), ws)
    {
      if mode == DoRead {
        return false;
      }
      if mode == DoWrite {
        mask := IN;
      }
      mode := DoOk;
      ghost var start := View();
      var rest := ws;
      while outbuf != []
        invariant peer == old(peer)
        invariant forall i :: 0 <= i < |outbuf| ==> outbuf[i].p <= |outbuf[i].bytes|
        invariant Drain(View(), rest) == Drain(start, ws)
        decreases |rest|
      {
        var more, broken := WriteFront(NextAnswer(rest));
        if !more {
          return broken;
        }
        rest := rest[1..];
      }
      return false;
    }

    method WriteFront(w: WriteResult) returns (more: bool, broken: bool)
      requires outbuf != [] && forall i :: 0 <= i < |outbuf| ==> outbuf[i].p <= |outbuf[i].bytes|
      modifies this
      ensures peer == old(peer) && forall i :: 0 <= i < |outbuf| ==> outbuf[i].p <= |outbuf[i].bytes|
      ensures (View(), more, broken) == Attempt(old(View()), w)
    {
      var nb := outbuf[0];
      calls := calls + [WriteCall(Rest(nb), w)];
      match w {
        case Wrote(n) =>
          var cc := Min(n, |nb.bytes| - nb.p);
          written := written + Rest(nb)[..cc];
          wbytes := wbytes + cc;
          nb := nb.(p := nb.p + cc);
          outbuf := if nb.p == |nb.bytes| then outbuf[1..] else [nb] + outbuf[1..];
          return true, false;
        case SslError => return false, false;
        case WriteBroken => return false, true;
        case _ =>
          mode := DoWrite;
          mask := OUT;
          return false, false;
      }
    }

    ghost predicate Sane()
      reads this
    {
      forall i :: 0 <= i < |outbuf| ==> outbuf[i].p <= |outbuf[i].bytes|
    }

    /** What became of the session: Session, Down or Aborted, with the views of both ends. */
    ghost function Outcome(fate: Fate): Session
      reads this, peer
    {
      if fate == Abort || peer == null then Aborted
      else if fate == Gone then Down(View(), peer.View())
      else Session(View(), peer.View())
    }

    /** sslniorelay. */
    method RelayOnce(rd: ReadResult, ws: seq<WriteResult>) returns (fate: Fate)
      requires peer != null && peer != this && peer.peer == this && Sane() && peer.Sane()
      modifies this, peer
      ensures peer == old(peer)
      ensures Outcome(fate) == RelayA(old(View()), old(peer.View()), rd, ws)
    {
      var down := RelayRead(rd);
      if down {
        return Gone;
      }
      if peer.active {
        assert peer.outbuf == peer.View().outbuf;
        down := peer.FlushToPeer(ws);
      }
      return if down then Gone else Alive;
    }

    /** The SSL half of runrelays2. */
    method RunRelays(out: bool, rd: ReadResult, ws: seq<WriteResult>) returns (fate: Fate)
      requires peer != null && peer != this && peer.peer == this && Sane() && peer.Sane()
      modifies this, peer
      ensures peer == old(peer)
      ensures Outcome(fate) == EventA(old(View()), old(peer.View()), out, rd, ws)
    {
      if mode == DoRead {
        fate := RelayOnce(rd, ws);
      } else if mode == DoWrite {
        var down := FlushToPeer(ws);
        fate := if down then Gone else Alive;
      } else if out {
        fate := Abort;
      } else {
        fate := RelayOnce(rd, ws);
      }
    }
  }

  datatype Fate = Alive | Gone | Abort
}
