/** nioasyncread of src/lib/nio2.c: the receive buffer of a control connection is filled by
    one read(2) per event, first a header of fixed size, then the body it announces. */
module AsyncRead {
  import opened Prelude

  /** The header size, and what decoding a header yields: the body length, or None when the
      XDR decoding fails. */
  datatype Format = Format(size: nat, decode: seq<byte> -> Option<nat>)

  /** struct nio_buf at the tail of the receive queue; of the L bytes wanted, p are there. */
  datatype Rcv = Rcv(buf: seq<byte>, p: nat, L: nat)

  /** A control: its receive buffer, if any, how often it was put on the list of ready
      controls, and how often a header was decoded. */
  datatype Ctrl = Ctrl(rcv: Option<Rcv>, queued: nat, decoded: nat)

  const Fresh := Ctrl(None, 0, 0)

  /** read(2): at most n of the bytes there, end of file, or an error. */
  datatype Io = Chunk(n: nat) | Eof | Error

  function Zeros(n: nat): seq<byte> {
    seq(n, _ => 0)
  }

  /** The buffer an event finds: allocated, and sized for the header if it had no size. */
  function Prepared(f: Format, c: Ctrl): Rcv {
    var b := if c.rcv.None? then Rcv([], 0, 0) else c.rcv.value;
    if b.L == 0 then Rcv(Zeros(f.size), 0, f.size) else b
  }

  /** What is decoded once the header is complete; None when it does not decode. */
  function Sized(f: Format, b: Rcv): Option<Rcv> {
    if b.L == f.size && b.p == b.L then
      match f.decode(b.buf)
      case None => None
      case Some(len) =>
        if len > 0 then Some(b.(L := f.size + len, buf := b.buf + Zeros(len))) else Some(b)
    else Some(b)
  }

  /** The read of at most n bytes into the buffer, and what follows it. */
  function Chunked(f: Format, c: Ctrl, data: seq<byte>, n: nat): (Ctrl, seq<byte>, int)
    requires c.rcv.Some?
  {
    var b := c.rcv.value;
    var k := if b.p <= b.L <= |b.buf| then Min(Min(Max(n, 1), b.L - b.p), |data|) else 0;
    if k == 0 then (c, data, 0)
    else
      var b1 := Rcv(b.buf[..b.p] + data[..k] + b.buf[b.p + k..], b.p + k, b.L);
      var complete := b1.L == f.size && b1.p == b1.L;
      var s := Sized(f, b1);
      if s.None? then (Ctrl(Some(b1), c.queued, c.decoded + 1), data[k..], -1 as int)
      else
        var b2 := s.value;
        (Ctrl(Some(b2), if b2.p == b2.L then c.queued + 1 else c.queued,
              c.decoded + if complete then 1 else 0),
         data[k..], b2.p)
  }

  /** One event: the control, the bytes left unread, and the value returned. */
  function Event(f: Format, c: Ctrl, data: seq<byte>, io: Io): (Ctrl, seq<byte>, int) {
    var b := Prepared(f, c);
    var c1 := Ctrl(Some(b), if b.p == b.L then c.queued + 1 else c.queued, c.decoded);
    match io
    case Error => (c1, data, -1 as int)
    case Eof => (c1, data, 0)
    case Chunk(n) => Chunked(f, c1, data, n)
  }

  /** Events on the bytes of data in pieces of the given sizes, until the control is queued. */
  function Feed(f: Format, c: Ctrl, data: seq<byte>, sizes: seq<nat>): (Ctrl, seq<byte>)
    decreases |sizes|
  {
    if sizes == [] || c.queued > 0 then (c, data)
    else
      var (c1, data1, ret) := Event(f, c, data, Chunk(sizes[0]));
      Feed(f, c1, data1, sizes[1..])
  }

  // ---------------------------------------------------------------- one-shot parsing

  /** The message at the start of a stream: its length in bytes. */
  ghost predicate StartsWith(f: Format, stream: seq<byte>, total: nat) {
    && f.size > 0 && f.size <= total <= |stream|
    && f.decode(stream[..f.size]) == Some(total - f.size)
  }

  ghost predicate Holds(f: Format, stream: seq<byte>, total: nat, b: Rcv, got: nat)
    requires got <= |stream|
  {
    && b.p == got <= |b.buf| && b.L == |b.buf| && b.buf[..got] == stream[..got]
    && b.L == (if got < f.size then f.size else total)
  }

  /** The first `got` bytes of the stream are in the buffer, and no more were taken. */
  ghost predicate Partway(f: Format, stream: seq<byte>, total: nat, c: Ctrl, data: seq<byte>, got: nat) {
    && got <= total && got <= |stream| && data == stream[got..]
    && (got == 0 ==> c == Fresh)
    && (got > 0 ==> c.rcv.Some? && Holds(f, stream, total, c.rcv.value, got))
    && c.decoded == (if got < f.size then 0 else 1)
    && c.queued == (if got == total then 1 else 0)
  }

  lemma PreparedHolds(f: Format, stream: seq<byte>, total: nat, c: Ctrl, data: seq<byte>, got: nat)
    requires StartsWith(f, stream, total) && Partway(f, stream, total, c, data, got)
    ensures Holds(f, stream, total, Prepared(f, c), got)
  {
    if got == 0 {
      assert Prepared(f, c).buf[..0] == stream[..0];
    }
  }

  lemma Spliced(buf: seq<byte>, stream: seq<byte>, got: nat, k: nat)
    requires got + k <= |buf| && got + k <= |stream| && buf[..got] == stream[..got]
    ensures var buf1 := buf[..got] + stream[got..][..k] + buf[got + k..];
            |buf1| == |buf| && buf1[..got + k] == stream[..got + k]
    ensures stream[got..][k..] == stream[got + k..]
  {
    assert stream[..got] + stream[got..][..k] == stream[..got + k];
  }

  /** Bytes read into a buffer that holds the first got. */
  lemma ChunkHolds(f: Format, stream: seq<byte>, total: nat, c: Ctrl, got: nat, n: nat)
    requires StartsWith(f, stream, total) && got < total && c.rcv.Some? && c.queued == 0
    requires Holds(f, stream, total, c.rcv.value, got) && c.decoded == (if got < f.size then 0 else 1)
    ensures var (c1, data1, ret) := Chunked(f, c, stream[got..], n);
            && |data1| <= |stream| && got < |stream| - |data1| <= total && ret == |stream| - |data1|
            && Partway(f, stream, total, c1, data1, |stream| - |data1|)
  {
    var b, data := c.rcv.value, stream[got..];
    var k := Min(Min(Max(n, 1), b.L - b.p), |data|);
    Spliced(b.buf, stream, got, k);
    var buf1 := b.buf[..got] + data[..k] + b.buf[got + k..];
    if got + k == f.size == b.L {
      assert buf1 == buf1[..f.size];
      assert (buf1 + Zeros(total - f.size))[..f.size] == buf1;
    }
  }

  /** One more piece: at least one byte is taken, and none beyond the message. */
  lemma EventAdvances(f: Format, stream: seq<byte>, total: nat, c: Ctrl, data: seq<byte>, got: nat, n: nat)
    requires StartsWith(f, stream, total) && Partway(f, stream, total, c, data, got) && got < total
    ensures var (c1, data1, ret) := Event(f, c, data, Chunk(n));
            && |data1| <= |stream| && got < |stream| - |data1| <= total && ret == |stream| - |data1|
            && Partway(f, stream, total, c1, data1, |stream| - |data1|)
  {
    hide Prepared, Chunked;
    PreparedHolds(f, stream, total, c, data, got);
    var b := Prepared(f, c);
    ChunkHolds(f, stream, total, Ctrl(Some(b), 0, c.decoded), got, n);
  }

  lemma PartwayFacts(f: Format, stream: seq<byte>, total: nat, c: Ctrl, data: seq<byte>, got: nat)
    requires Partway(f, stream, total, c, data, got)
    ensures got <= |stream| && data == stream[got..]
    ensures c.queued == if got == total then 1 else 0
    ensures c.decoded <= 1 && (got >= f.size ==> c.decoded == 1)
    ensures got > 0 ==> c.rcv.Some? && Holds(f, stream, total, c.rcv.value, got)
  {
  }

  lemma FeedStep(f: Format, c: Ctrl, data: seq<byte>, sizes: seq<nat>)
    ensures Feed(f, c, data, sizes) ==
              if sizes == [] || c.queued > 0 then (c, data)
              else
                var (c1, data1, ret) := Event(f, c, data, Chunk(sizes[0]));
                Feed(f, c1, data1, sizes[1..])
  {
    hide Event;
  }

  lemma {:induction false} FeedAdvances(f: Format, stream: seq<byte>, total: nat, c: Ctrl, data: seq<byte>, got: nat,
                                        sizes: seq<nat>)
    requires StartsWith(f, stream, total) && Partway(f, stream, total, c, data, got)
    ensures var (c1, data1) := Feed(f, c, data, sizes);
            && |data1| <= |stream| && Partway(f, stream, total, c1, data1, |stream| - |data1|)
            && (|stream| - |data1| == total || |stream| - |data1| >= got + |sizes|)
    decreases |sizes|
  {
    hide StartsWith, Partway, Event, Feed;
    PartwayFacts(f, stream, total, c, data, got);
    FeedStep(f, c, data, sizes);
    if sizes != [] && c.queued == 0 {
      PartwayBelow(f, stream, total, c, data, got);
      EventAdvances(f, stream, total, c, data, got, sizes[0]);
      var (c1, data1, _) := Event(f, c, data, Chunk(sizes[0]));
      FeedAdvances(f, stream, total, c1, data1, |stream| - |data1|, sizes[1..]);
    }
  }

  lemma PartwayBelow(f: Format, stream: seq<byte>, total: nat, c: Ctrl, data: seq<byte>, got: nat)
    requires Partway(f, stream, total, c, data, got)
    ensures got <= total
  {
  }

  /** However the bytes of a message arrive, the control is queued once, when exactly the
      header and body are in its buffer; nothing of what follows is consumed, and the header
      is decoded once.  One event per byte is always enough. */
  lemma RefinesOneShot(f: Format, stream: seq<byte>, total: nat, sizes: seq<nat>)
    requires StartsWith(f, stream, total)
    ensures var (c, rest) := Feed(f, Fresh, stream, sizes);
            && c.queued <= 1 && c.decoded <= 1
            && (c.queued == 1 <==> rest == stream[total..])
            && (c.queued == 1 ==> c.rcv == Some(Rcv(stream[..total], total, total)) && c.decoded == 1)
            && (|sizes| >= total ==> c.queued == 1)
  {
    assert stream[0..] == stream;
    FreshPartway(f, stream, total);
    var size := f.size;
    assert 0 < size <= total <= |stream|;
    hide Feed, Partway, StartsWith;
    FeedAdvances(f, stream, total, Fresh, stream, 0, sizes);
    var (c, rest) := Feed(f, Fresh, stream, sizes);
    var got := |stream| - |rest|;
    PartwayFacts(f, stream, total, c, rest, got);
    PartwayBelow(f, stream, total, c, rest, got);
    if c.queued == 1 {
      assert c.rcv.value.buf == c.rcv.value.buf[..total] == stream[..total];
    } else {
      assert |rest| > |stream[total..]|;
    }
  }

  lemma FreshPartway(f: Format, stream: seq<byte>, total: nat)
    requires StartsWith(f, stream, total)
    ensures Partway(f, stream, total, Fresh, stream, 0)
  {
    assert stream[0..] == stream;
  }

  /** A header that does not decode is refused as soon as it is complete, and the control is
      never queued for it. */
  lemma {:induction false} BadHeaderRefused(f: Format, stream: seq<byte>, c: Ctrl, data: seq<byte>, got: nat, n: nat)
    requires f.size > 0 && |stream| >= f.size && f.decode(stream[..f.size]).None?
    requires got < f.size && data == stream[got..]
    requires if got == 0 then c == Fresh
             else c == Ctrl(Some(Rcv(stream[..got] + Zeros(f.size - got), got, f.size)), 0, 0)
    ensures var (c1, data1, ret) := Event(f, c, data, Chunk(n));
            && c1.queued == 0 && |data1| < |data|
            && (ret == -1 <==> data1 == stream[f.size..])
            && (ret != -1 ==>
                 var got1 := |stream| - |data1|;
                 got1 < f.size && data1 == stream[got1..] && ret == got1 &&
                 c1 == Ctrl(Some(Rcv(stream[..got1] + Zeros(f.size - got1), got1, f.size)), 0, 0))
  {
    HeaderSoFar(stream, f.size, 0, 0);
    hide Zeros, Chunked;
    var b := Rcv(stream[..got] + Zeros(f.size - got), got, f.size);
    assert Prepared(f, c) == b;
    BadChunk(f, stream, got, n);
  }

  lemma BadChunk(f: Format, stream: seq<byte>, got: nat, n: nat)
    requires f.size > 0 && |stream| >= f.size && f.decode(stream[..f.size]).None? && got < f.size
    ensures var b := Rcv(stream[..got] + Zeros(f.size - got), got, f.size);
            var k := Min(Min(Max(n, 1), f.size - got), |stream| - got);
            var b1 := Rcv(stream[..got + k] + Zeros(f.size - got - k), got + k, f.size);
            Chunked(f, Ctrl(Some(b), 0, 0), stream[got..], n) ==
              if got + k == f.size then (Ctrl(Some(b1), 0, 1), stream[f.size..], -1 as int)
              else (Ctrl(Some(b1), 0, 0), stream[got + k..], got + k)
  {
    HeaderSoFar(stream, f.size, got, Min(Min(Max(n, 1), f.size - got), |stream| - got));
    hide Zeros;
  }

  lemma TwoPieces(stream: seq<byte>, got: nat, k: nat)
    requires got + k <= |stream|
    ensures stream[..got] + stream[got..][..k] == stream[..got + k]
  {
  }

  /** A header buffer of which the first got bytes are there takes k more. */
  lemma HeaderSoFar(stream: seq<byte>, size: nat, got: nat, k: nat)
    requires got + k <= size <= |stream|
    ensures var buf := stream[..got] + Zeros(size - got);
            && |buf| == size && |Zeros(size - got)| == size - got
            && buf[..got] + stream[got..][..k] + buf[got + k..] == stream[..got + k] + Zeros(size - got - k)
            && stream[got..][k..] == stream[got + k..]
            && (got == 0 ==> buf == Zeros(size)) && (got == size ==> buf == stream[..size])
            && (got + k == size ==> stream[..got + k] + Zeros(size - got - k) == stream[..size])
  {
    var buf := stream[..got] + Zeros(size - got);
    assert buf[..got] == stream[..got];
    TwoPieces(stream, got, k);
    assert buf[got + k..] == Zeros(size - got - k);
  }

  /** The code relies on the daemon taking a complete message before the next event.  An event
      puts a control on the list of ready ones that was there already exactly when the whole
      message was in the buffer before it; such an event also reads nothing and returns 0, the
      sign of a connection closed, while any other that finds bytes takes some. */
  lemma SecondEvent(f: Format, stream: seq<byte>, total: nat, c: Ctrl, data: seq<byte>, got: nat, n: nat)
    requires StartsWith(f, stream, total) && Partway(f, stream, total, c, data, got)
    ensures var (c1, data1, ret) := Event(f, c, data, Chunk(n));
            && (c1.queued > 1 <==> got == total)
            && (ret == 0 <==> got == total)
            && (data1 == data <==> got == total)
  {
    if got < total {
      EventAdvances(f, stream, total, c, data, got, n);
      hide Event;
      var (c1, data1, ret) := Event(f, c, data, Chunk(n));
      assert |data1| < |data|;
    } else {
      assert Holds(f, stream, total, c.rcv.value, got);
    }
  }

  // ---------------------------------------------------------------- end of file and errors

  /** Bytes that an event with n bytes there takes when got of the message are in the buffer:
      as many as complete the header, or the message once the header is there. */
  function Wanted(f: Format, total: nat, got: nat, n: nat): int {
    Min(Max(n, 1), (if got < f.size then f.size else total) - got)
  }

  /** What the value returned says, anywhere before the message is complete: positive exactly
      when bytes came; 0 at end of file and -1 on an error, with the bytes there so far and the
      stream as they were. */
  lemma EventVerdict(f: Format, stream: seq<byte>, total: nat, c: Ctrl, data: seq<byte>, got: nat, io: Io)
    requires StartsWith(f, stream, total) && Partway(f, stream, total, c, data, got) && got < total
    ensures var (c1, data1, ret) := Event(f, c, data, io);
            && (ret > 0 <==> |data1| < |data|) && (ret > 0 <==> io.Chunk?)
            && (io.Chunk? ==> |data| - |data1| == Wanted(f, total, got, io.n))
            && (io.Eof? ==> ret == 0) && (io.Error? ==> ret == -1)
            && (ret <= 0 ==>
                 && data1 == data && c1.rcv.Some? && Holds(f, stream, total, c1.rcv.value, got)
                 && c1.queued == c.queued && c1.decoded == c.decoded)
  {
    PreparedHolds(f, stream, total, c, data, got);
    if io.Chunk? {
      EventAdvances(f, stream, total, c, data, got, io.n);
      ChunkTakes(f, stream, total, c, data, got, io.n);
    }
  }

  lemma ChunkTakes(f: Format, stream: seq<byte>, total: nat, c: Ctrl, data: seq<byte>, got: nat, n: nat)
    requires StartsWith(f, stream, total) && Partway(f, stream, total, c, data, got) && got < total
    ensures |data| - |Event(f, c, data, Chunk(n)).1| == Wanted(f, total, got, n)
  {
    PreparedHolds(f, stream, total, c, data, got);
    hide Prepared, Sized;
  }

  /** A control in the hands of the epoll loop: still open, its message taken by the daemon,
      or shut because an event returned no positive value. */
  datatype Served = Open(c: Ctrl, data: seq<byte>) | Taken(message: seq<byte>, data: seq<byte>) | Shut

  function Serve(f: Format, c: Ctrl, data: seq<byte>, ios: seq<Io>): Served
    decreases |ios|
  {
    if ios == [] then Open(c, data)
    else
      var (c1, data1, ret) := Event(f, c, data, ios[0]);
      if ret <= 0 then Shut
      else if c1.queued > 0 && c1.rcv.Some? then Taken(c1.rcv.value.buf, data1)
      else Serve(f, c1, data1, ios[1..])
  }

  /** The pieces that come before the first end of file or error. */
  function Pieces(ios: seq<Io>): (sizes: seq<nat>)
    ensures |sizes| <= |ios|
  {
    if ios == [] || !ios[0].Chunk? then [] else [ios[0].n] + Pieces(ios[1..])
  }

  lemma {:induction false} ServeFrom(f: Format, stream: seq<byte>, total: nat, c: Ctrl, data: seq<byte>, got: nat,
                                     ios: seq<Io>)
    requires StartsWith(f, stream, total) && Partway(f, stream, total, c, data, got) && got < total
    ensures var (c1, rest) := Feed(f, c, data, Pieces(ios));
            Serve(f, c, data, ios) ==
              if c1.queued > 0 then Taken(stream[..total], stream[total..])
              else if |Pieces(ios)| < |ios| then Shut
              else Open(c1, rest)
    decreases |ios|
  {
    PartwayFacts(f, stream, total, c, data, got);
    hide Event, Partway, StartsWith, Holds;
    if ios != [] {
      EventVerdict(f, stream, total, c, data, got, ios[0]);
      if ios[0].Chunk? {
        var (c1, data1, ret) := Event(f, c, data, ios[0]);
        EventAdvances(f, stream, total, c, data, got, ios[0].n);
        var got1 := |stream| - |data1|;
        PartwayFacts(f, stream, total, c1, data1, got1);
        assert Pieces(ios)[1..] == Pieces(ios[1..]);
        if got1 < total {
          ServeFrom(f, stream, total, c1, data1, got1, ios[1..]);
        } else {
          MessageWhole(f, stream, total, c1);
        }
      }
    }
  }

  lemma MessageWhole(f: Format, stream: seq<byte>, total: nat, c: Ctrl)
    requires StartsWith(f, stream, total) && c.rcv.Some? && Holds(f, stream, total, c.rcv.value, total)
    ensures c.rcv.value.buf == stream[..total]
  {
    assert c.rcv.value.buf[..total] == c.rcv.value.buf;
  }

  /** A client that goes away: whatever comes, the daemon takes the message exactly when the
      pieces before the first end of file or error bring all of it; when they do not, that end
      of file or error shuts the control, and without one it stays open with what it has. */
  lemma ServeVerdict(f: Format, stream: seq<byte>, total: nat, ios: seq<Io>)
    requires StartsWith(f, stream, total)
    ensures var (c, rest) := Feed(f, Fresh, stream, Pieces(ios));
            Serve(f, Fresh, stream, ios) ==
              if c.queued > 0 then Taken(stream[..total], stream[total..])
              else if |Pieces(ios)| < |ios| then Shut
              else Open(c, rest)
  {
    FreshPartway(f, stream, total);
    ServeFrom(f, stream, total, Fresh, stream, 0, ios);
  }

  // ---------------------------------------------------------------- one message after another

  /** Events on the bytes of data in pieces of the given sizes; the daemon takes each message
      as soon as its control is queued, and the next event starts a new buffer. */
  function Collect(f: Format, c: Ctrl, data: seq<byte>, sizes: seq<nat>): seq<seq<byte>>
    decreases |sizes|
  {
    if sizes == [] || data == [] then []
    else
      var (c1, data1, _) := Event(f, c, data, Chunk(sizes[0]));
      if c1.queued > 0 && c1.rcv.Some? then [c1.rcv.value.buf] + Collect(f, Fresh, data1, sizes[1..])
      else Collect(f, c1, data1, sizes[1..])
  }

  /** A header, and a body as long as the header says. */
  ghost predicate IsMessage(f: Format, m: seq<byte>) {
    f.size > 0 && f.size <= |m| && f.decode(m[..f.size]) == Some(|m| - f.size)
  }

  function Concat(ms: seq<seq<byte>>): seq<byte> {
    if ms == [] then [] else ms[0] + Concat(ms[1..])
  }

  lemma FirstMessage(f: Format, ms: seq<seq<byte>>)
    requires ms != [] && IsMessage(f, ms[0])
    ensures StartsWith(f, Concat(ms), |ms[0]|)
    ensures Concat(ms)[..|ms[0]|] == ms[0] && Concat(ms)[|ms[0]|..] == Concat(ms[1..])
  {
    var m, stream := ms[0], Concat(ms);
    assert stream[..|m|] == m && stream[|m|..] == Concat(ms[1..]);
    assert stream[..f.size] == m[..f.size];
  }

  lemma CollectStep(f: Format, c: Ctrl, data: seq<byte>, sizes: seq<nat>)
    requires sizes != [] && data != []
    ensures var (c1, data1, _) := Event(f, c, data, Chunk(sizes[0]));
            Collect(f, c, data, sizes) ==
              if c1.queued > 0 && c1.rcv.Some? then [c1.rcv.value.buf] + Collect(f, Fresh, data1, sizes[1..])
              else Collect(f, c1, data1, sizes[1..])
  {
    hide Event;
  }

  lemma NothingCollected(f: Format, c: Ctrl, data: seq<byte>, sizes: seq<nat>)
    requires sizes == [] || data == []
    ensures Collect(f, c, data, sizes) == []
  {
  }

  /** The events of a run over messages, the first of which is partly there. */
  lemma {:induction false} CollectFrom(f: Format, ms: seq<seq<byte>>, c: Ctrl, data: seq<byte>, got: nat,
                                       sizes: seq<nat>)
    requires ms != [] && forall i :: 0 <= i < |ms| ==> IsMessage(f, ms[i])
    requires Partway(f, Concat(ms), |ms[0]|, c, data, got) && got < |ms[0]|
    ensures Collect(f, c, data, sizes) <= ms
    ensures |sizes| >= |data| ==> Collect(f, c, data, sizes) == ms
    decreases |sizes|
  {
    hide Event, Partway, StartsWith, IsMessage, Concat, Collect;
    var stream, total := Concat(ms), |ms[0]|;
    FirstMessage(f, ms);
    PartwayFacts(f, stream, total, c, data, got);
    if sizes == [] || data == [] {
      NothingCollected(f, c, data, sizes);
    } else {
      EventAdvances(f, stream, total, c, data, got, sizes[0]);
      CollectStep(f, c, data, sizes);
      var (c1, data1, _) := Event(f, c, data, Chunk(sizes[0]));
      var got1 := |stream| - |data1|;
      NextMessage(f, ms, c1, data1, got1);
      if got1 < total {
        CollectFrom(f, ms, c1, data1, got1, sizes[1..]);
      } else if ms[1..] != [] {
        CollectFrom(f, ms[1..], Fresh, data1, 0, sizes[1..]);
        assert [ms[0]] + ms[1..] == ms;
      } else {
        NothingLeft();
        NothingCollected(f, Fresh, data1, sizes[1..]);
        assert [ms[0]] == ms;
      }
    }
  }

  lemma NothingLeft()
    ensures Concat([]) == []
  {
  }

  /** What the daemon takes, and where the next event starts. */
  lemma NextMessage(f: Format, ms: seq<seq<byte>>, c: Ctrl, data: seq<byte>, got: nat)
    requires ms != [] && forall i :: 0 <= i < |ms| ==> IsMessage(f, ms[i])
    requires Partway(f, Concat(ms), |ms[0]|, c, data, got) && got > 0
    ensures (c.queued > 0 <==> got == |ms[0]|) && c.rcv.Some?
    ensures got == |ms[0]| ==>
              && c.rcv.value.buf == ms[0] && data == Concat(ms[1..])
              && (ms[1..] != [] ==> |ms[1]| > 0 && Partway(f, Concat(ms[1..]), |ms[1]|, Fresh, data, 0))
  {
    FirstMessage(f, ms);
    if got == |ms[0]| {
      var b := c.rcv.value;
      assert b.buf[..got] == b.buf;
      assert Concat(ms[1..])[0..] == Concat(ms[1..]);
    }
  }

  /** However a sequence of messages arrives, the daemon takes them one by one, whole, in
      order: a first part of the sequence, and all of it when there are as many events as
      bytes. */
  lemma StreamRefined(f: Format, ms: seq<seq<byte>>, sizes: seq<nat>)
    requires forall i :: 0 <= i < |ms| ==> IsMessage(f, ms[i])
    ensures Collect(f, Fresh, Concat(ms), sizes) <= ms
    ensures |sizes| >= |Concat(ms)| ==> Collect(f, Fresh, Concat(ms), sizes) == ms
  {
    if ms != [] {
      assert Concat(ms)[0..] == Concat(ms);
      CollectFrom(f, ms, Fresh, Concat(ms), 0, sizes);
    }
  }

  // ---------------------------------------------------------------- in place

  class Control {
    var rcv: Option<Rcv>
    var queued: nat
    var decoded: nat
    var unread: seq<byte>

    constructor (unread: seq<byte>)
      ensures View() == Fresh && this.unread == unread
    {
      rcv, queued, decoded, this.unread := None, 0, 0, unread;
    }

    ghost function View(): Ctrl
      reads this
    {
      Ctrl(rcv, queued, decoded)
    }

    /** The read of nioasyncread and the rest of it. */
    method ReadChunk(f: Format, n: nat) returns (ret: int)
      requires rcv.Some?
      modifies this
      ensures (View(), unread, ret) == Chunked(f, old(View()), old(unread), n)
    {
      hide Zeros;
      var b := rcv.value;
      var cc := if b.p <= b.L <= |b.buf| then Min(Min(Max(n, 1), b.L - b.p), |unread|) else 0;
      if cc <= 0 {
        return 0;
      }
      b := Rcv(b.buf[..b.p] + unread[..cc] + b.buf[b.p + cc..], b.p + cc, b.L);
      rcv := Some(b);
      unread := unread[cc..];
      if b.L == f.size && b.p == b.L {
        decoded := decoded + 1;
        var hdr := f.decode(b.buf);
        if hdr.None? {
          return -1;
        }
        if hdr.value > 0 {
          b := b.(L := f.size + hdr.value, buf := b.buf + Zeros(hdr.value));
          rcv := Some(b);
        }
      }
      if b.p == b.L {
        queued := queued + 1;
      }
      return b.p;
    }

    /** nioasyncread. */
    method NioAsyncRead(f: Format, io: Io) returns (ret: int)
      modifies this
      ensures (View(), unread, ret) == Event(f, old(View()), old(unread), io)
    {
      hide Zeros, Chunked;
      if rcv.None? {
        rcv := Some(Rcv([], 0, 0));
      }
      var b := rcv.value;
      if b.L == 0 {
        b := Rcv(Zeros(f.size), 0, f.size);
        rcv := Some(b);
      }
      if b.p == b.L {
        queued := queued + 1;
      }
      match io
      case Error => return -1;
      case Eof => return 0;
      case Chunk(n) => ret := ReadChunk(f, n);
    }
  }
}
