/** What the relay engine of src/lib/nio2.c does to its state in plain (non-SSL) mode, as
    functions: one function for each C function, one Event for each thing the outside world
    can do to the engine.

    Every C function is given twice over by one definition: `repaired` in Config selects
    between the code as it is written and the code with three evident slips mended (they are
    marked SLIP below).  RelayExact.dfy says exactly when the code as written is safe. */
module Relay {
  import opened Prelude

  /** An epoll event mask, EPOLLIN and EPOLLOUT. */
  datatype Mask = Mask(rd: bool, wr: bool)

  const NOTHING := Mask(false, false)
  const READ := Mask(true, false)
  const BOTH := Mask(true, true)

  datatype Status = Idle | Waiting | Active

  /** struct nio_relay.  ev says the epoll_event is allocated, events is its mask, bits the
      engine's own copy, and reg what was last registered with epoll_ctl.  peer is the sid of
      the peer, -1 for NULL.  ep and flushed are bookkeeping the C code does not have: the
      endpoint the record currently plays (see Endpoint), and whether its buffer was flushed
      while both ends were connected. */
  datatype Relay = Relay(
    status: Status, s: int, ev: bool, events: Mask, bits: Mask, reg: Mask,
    peer: int, buf: seq<byte>, x1: int, x2: int, rbytes: int, wbytes: int, ttidl: int,
    ep: int, flushed: bool)

  /** One end of one session.  Each successful niogetpeer call opens endpoints 2k and 2k+1.
      read is what was read from its socket, delivered what was written to its socket. */
  datatype Endpoint = Endpoint(sid: nat, read: seq<byte>, delivered: seq<byte>, started: bool)

  /** One call of the accounting function, and the buffered bytes it gave up on. */
  datatype Bill = Bill(ep: int, rbytes: int, wbytes: int, lost: seq<byte>)

  /** The engine.  cache is the list relaycache as sids, waiting the table wpeers, shown says
      which entries of relayarray are set. */
  datatype Pool = Pool(
    relays: seq<Relay>, cache: seq<nat>, waiting: map<string, nat>, shown: seq<bool>,
    eps: seq<Endpoint>, bills: seq<Bill>)

  datatype Config = Config(maxrelay: nat, relaybuf: nat, ttidl: int, repaired: bool)

  /** read(2): bytes, end of file, an errno that means try again, any other errno. */
  datatype ReadResult = Got(bytes: seq<byte>) | ReadRetry | ReadFail

  /** write(2): a count, EAGAIN or EWOULDBLOCK, EINTR, any other errno. */
  datatype WriteResult = Wrote(n: nat) | Again | Interrupted | WriteFail

  /** Crash: an assert fails, or memory outside the pool or a buffer is touched. */
  datatype Result<+T> = Ok(value: T) | Crash {
    predicate IsFailure() { Crash? }
    function PropagateFailure<U>(): Result<U> requires Crash? { Crash }
    function Extract(): T requires Ok? { value }
  }

  function Mate(e: int): int {
    if e % 2 == 0 then e + 1 else e - 1
  }

  predicate Has(st: Pool, i: int) {
    0 <= i < |st.relays|
  }

  function Set(st: Pool, i: int, r: Relay): Pool
    requires Has(st, i)
  {
    st.(relays := st.relays[i := r])
  }

  /** The bytes of the buffer still to be written. */
  function Window(r: Relay): seq<byte> {
    if 0 <= r.x2 <= r.x1 <= |r.buf| then r.buf[r.x2..r.x1] else []
  }

  function LogRead(eps: seq<Endpoint>, e: int, b: seq<byte>): seq<Endpoint> {
    if 0 <= e < |eps| then eps[e := eps[e].(read := eps[e].read + b)] else eps
  }

  function LogDelivered(eps: seq<Endpoint>, e: int, b: seq<byte>): seq<Endpoint> {
    if 0 <= e < |eps| then eps[e := eps[e].(delivered := eps[e].delivered + b)] else eps
  }

  function LogStart(eps: seq<Endpoint>, e: int): seq<Endpoint> {
    if 0 <= e < |eps| then eps[e := eps[e].(started := true)] else eps
  }

  // ---------------------------------------------------------------- niogetpeer

  /** The first position from k on of an idle record in the cache, or its length. */
  function NextIdle(st: Pool, k: nat): nat
    requires k <= |st.cache|
    decreases |st.cache| - k
  {
    if k == |st.cache| then k
    else if Has(st, st.cache[k]) && st.relays[st.cache[k]].status.Idle? then k
    else NextIdle(st, k + 1)
  }

  lemma NextIdleBound(st: Pool, k: nat)
    requires k <= |st.cache|
    ensures k <= NextIdle(st, k) <= |st.cache|
    ensures NextIdle(st, k) < |st.cache| ==>
              Has(st, st.cache[NextIdle(st, k)]) && st.relays[st.cache[NextIdle(st, k)]].status.Idle?
    ensures forall j :: k <= j < NextIdle(st, k) ==>
              !(Has(st, st.cache[j]) && st.relays[st.cache[j]].status.Idle?)
    decreases |st.cache| - k
  {
    if k < |st.cache| && !(Has(st, st.cache[k]) && st.relays[st.cache[k]].status.Idle?) {
      NextIdleBound(st, k + 1);
    }
  }

  function Reserve(r: Relay, ttidl: int): Relay {
    r.(status := Waiting, x1 := 0, x2 := 0, ttidl := ttidl)
  }

  function Opened(eps: seq<Endpoint>, a: nat, b: nat): seq<Endpoint> {
    eps + [Endpoint(a, [], [], false), Endpoint(b, [], [], false)]
  }

  /** The state with records a and b reserved as each other's peers and filed in the table. */
  function Paired2(c: Config, st: Pool, a: nat, b: nat, now: int): Pool
    requires Has(st, a) && Has(st, b)
  {
    var e := |st.eps|;
    var ra := Reserve(st.relays[a], c.ttidl + now).(peer := b, ep := e, flushed := false);
    var rb := Reserve(st.relays[b], c.ttidl + now).(peer := a, ep := e + 1, flushed := false);
    st.(relays := st.relays[a := ra][b := rb],
        waiting := st.waiting[Decimal(a) := a][Decimal(b) := b],
        eps := Opened(st.eps, a, b))
  }

  /** Reserves the first two idle records of the cache.  When there is only one it is left
      reserved, without a peer and without a table entry. */
  function GetPeer(c: Config, st: Pool, now: int): Result<(Pool, Option<(nat, nat)>)> {
    NextIdleBound(st, 0);
    var i := NextIdle(st, 0);
    if i == |st.cache| then Ok((st, None))
    else
      var a := st.cache[i];
      var st1 := Set(st, a, Reserve(st.relays[a], c.ttidl));
      NextIdleBound(st1, i + 1);
      var j := NextIdle(st1, i + 1);
      if j == |st.cache| then Ok((st1, None))
      else
        var b := st.cache[j];
        if Decimal(a) in st.waiting || Decimal(b) in st.waiting then Crash
        else Ok((Paired2(c, st, a, b, now), Some((a, b))))
  }

  // ---------------------------------------------------------------- niostartrelay

  function Drop(s: seq<nat>, x: nat): (r: seq<nat>)
    ensures forall y :: y in r <==> y in s && y != x
  {
    if s == [] then [] else if s[0] == x then Drop(s[1..], x) else [s[0]] + Drop(s[1..], x)
  }

  function Connect(r: Relay, sock: int): Relay {
    r.(status := Active, s := sock, ev := true, events := READ, bits := READ, reg := READ)
  }

  /** Turns the connection sock into the relay waiting under this sid.  None when no relay is. */
  function Start(st: Pool, sid: int, sock: int): Result<(Pool, Option<nat>)> {
    var key := Decimal(sid);
    if key !in st.waiting then Ok((st, None))
    else
      var i := st.waiting[key];
      if !(Has(st, i) && st.relays[i].status.Waiting? && i < |st.shown|) then Crash
      else
        Ok((Set(st, i, Connect(st.relays[i], sock)).(
              waiting := st.waiting - {key},
              cache := Drop(st.cache, i),
              shown := st.shown[i := true],
              eps := LogStart(st.eps, st.relays[i].ep)),
            Some(i)))
  }

  // ---------------------------------------------------------------- niorelayread

  /** The record after b was read into its buffer at x1. */
  function Filled(r: Relay, b: seq<byte>): Relay
    requires 0 <= r.x1 && r.x1 + |b| <= |r.buf|
  {
    r.(buf := r.buf[..r.x1] + b + r.buf[r.x1 + |b|..], x1 := r.x1 + |b|, rbytes := r.rbytes + |b|)
  }

  /** The state, and whether the relay must be shut, that is, whether read(2) came
      back with end of file or an errno that is not a retry. */
  function Read(st: Pool, i: int, rd: ReadResult): Result<(Pool, bool)>
    requires Has(st, i)
  {
    var r := st.relays[i];
    if r.x1 == |r.buf| then Ok((st, false))
    else if !(0 <= r.x1 < |r.buf|) then Crash
    else match rd
      case ReadRetry => Ok((st, false))
      case ReadFail => Ok((st, true))
      case Got(bytes) =>
        var b := bytes[..Min(|bytes|, |r.buf| - r.x1)];
        if b == [] then Ok((st, true))
        else
          Ok((Set(st, i, Filled(r, b)).(eps := LogRead(st.eps, r.ep, b)), false))
  }

  // ---------------------------------------------------------------- nioflush2peer

  function Arm(r: Relay): Relay {
    r.(events := BOTH, bits := BOTH, reg := BOTH)
  }

  function Disarm(r: Relay): Relay {
    if r.bits.wr then r.(events := READ, bits := READ, reg := READ) else r
  }

  /** The buffer after cc more of its bytes went out. */
  function Advance(r: Relay, cc: int): Relay {
    if r.x2 + cc == r.x1 then r.(x1 := 0, x2 := 0, wbytes := r.wbytes + cc)
    else r.(x2 := r.x2 + cc, wbytes := r.wbytes + cc)
  }

  /** What write(2) and the code after it do to the two records and the endpoint logs;
      b is the window of r.  SLIP: an error other than EAGAIN falls through with cc == -1 and
      moves the cursor and the count back by one; mended, it makes no progress. */
  function Written(c: Config, st: Pool, i: int, p: int, w: WriteResult): (Pool, int)
    requires Has(st, i) && Has(st, p)
  {
    var r := st.relays[i];
    match w
    case Again => (Set(st, p, Arm(st.relays[p])), -1)
    case Wrote(n) =>
      var b := Window(r)[..Min(n, |Window(r)|)];
      var st1 := Set(st, i, Advance(r, |b|)).(eps := LogDelivered(st.eps, st.relays[p].ep, b));
      (if r.x2 + |b| == r.x1 then st1 else Set(st1, p, Arm(st1.relays[p])), |b|)
    case _ =>
      var st1 := Set(st, i, Advance(r, if c.repaired then 0 else -1));
      (Set(st1, p, Arm(st1.relays[p])), -1)
  }

  /** The state once EPOLLOUT is taken off the peer. */
  function Disarmed(st: Pool, i: int, p: int): Pool
    requires Has(st, i) && Has(st, p)
  {
    var st1 := Set(st, p, Disarm(st.relays[p]));
    Set(st1, i, st1.relays[i].(flushed := st1.relays[i].status.Active?))
  }

  /** Writes what i has buffered to the socket of its peer. */
  function Flush(c: Config, st: Pool, i: int, w: WriteResult): Result<(Pool, int)>
    requires Has(st, i)
  {
    var p := st.relays[i].peer;
    if !Has(st, p) || p == i then Crash
    else if !st.relays[p].ev then Ok((st, 0))
    else
      var st1 := Disarmed(st, i, p);
      var r := st1.relays[i];
      if r.x1 == 0 then (if r.x2 == 0 then Ok((st1, 0)) else Crash)
      else if !(0 <= r.x2 < r.x1 <= |r.buf|) then Crash
      else Ok(Written(c, st1, i, p, w))
  }

  // ---------------------------------------------------------------- nioshutrelay

  function Closed(r: Relay): Relay {
    r.(status := Idle, s := -1, ev := false, bits := NOTHING, reg := NOTHING,
       x1 := 0, x2 := 0, rbytes := 0, wbytes := 0)
  }

  function BillOf(r: Relay): Bill {
    Bill(r.ep, r.rbytes, r.wbytes, Window(r))
  }

  /** Returns a record for reuse.  SLIP: the guard is s < 0, which also holds of a relay
      waiting for its connection; mended, it is "already idle". */
  function Shut(c: Config, st: Pool, i: int): Result<Pool>
    requires Has(st, i)
  {
    var r := st.relays[i];
    if (if c.repaired then r.status.Idle? else r.s < 0) then Ok(st)
    else if !(i < |st.shown|) then Crash
    else
      var st1 := st.(shown := st.shown[i := false]);
      match r.status
      case Active =>
        Ok(Set(st1, i, Closed(r)).(bills := st.bills + [BillOf(r)], cache := st.cache + [i]))
      case Waiting =>
        if Decimal(i) !in st.waiting || st.waiting[Decimal(i)] != i then Crash
        else Ok(Set(st1, i, r.(status := Idle)).(waiting := st.waiting - {Decimal(i)}))
      case Idle => Ok(st1)
  }

  function Teardown(c: Config, st: Pool, i: int): Result<Pool>
    requires Has(st, i)
  {
    var st1 :- Shut(c, st, i);
    var p := st.relays[i].peer;
    if !Has(st1, p) then Crash else Shut(c, st1, p)
  }

  // ---------------------------------------------------------------- niorelay

  /** What follows the read: fatal says to shut both ends.  w2 answers the flush in the other
      direction that a failed write brings on. */
  function AfterRead(c: Config, st: Pool, i: int, fatal: bool, w: WriteResult, w2: WriteResult): Result<Pool>
    requires Has(st, i)
  {
    if fatal then
      var (st2, _) :- Flush(c, st, i, w);
      if !Has(st2, i) then Crash else Teardown(c, st2, i)
    else
      var p := st.relays[i].peer;
      if !Has(st, p) then Crash
      else if !st.relays[p].status.Active? then Ok(st)
      else
        var (st2, cc) :- Flush(c, st, i, w);
        if !Has(st2, i) || !Has(st2, p) then Crash
        else if cc < 0 && w.WriteFail? then
          var (st3, _) :- Flush(c, st2, p, w2);
          if !Has(st3, i) then Crash else Teardown(c, st3, i)
        else Ok(st2)
  }

  /** EPOLLIN on i: read, flush to the peer. */
  function Readable(c: Config, st: Pool, i: int, rd: ReadResult, w: WriteResult, w2: WriteResult): Result<Pool>
    requires Has(st, i)
  {
    if st.relays[i].s < 0 then Ok(st)
    else
      var st0 := Set(st, i, st.relays[i].(events := NOTHING));
      var (st1, fatal) :- Read(st0, i, rd);
      if !Has(st1, i) then Crash else AfterRead(c, st1, i, fatal, w, w2)
  }

  /** EPOLLOUT on i: its peer has data for it. */
  function Writable(c: Config, st: Pool, i: int, w: WriteResult): Result<Pool>
    requires Has(st, i)
  {
    var p := st.relays[i].peer;
    if !Has(st, p) then Crash
    else
      var (st1, _) :- Flush(c, st, p, w);
      Ok(st1)
  }

  // ---------------------------------------------------------------- niofindidle

  /** The entries of a walk over the table that have expired. */
  function Expired(st: Pool, walk: seq<nat>, now: int): seq<nat> {
    if walk == [] then []
    else (if Has(st, walk[0]) && now >= st.relays[walk[0]].ttidl then [walk[0]] else [])
         + Expired(st, walk[1..], now)
  }

  /** Shuts the listed relays, last first.  SLIP: only the listed half is shut; mended, its
      peer is too. */
  function ShutAll(c: Config, st: Pool, u: seq<nat>): Result<Pool>
    decreases |u|
  {
    if u == [] then Ok(st)
    else
      var i := u[|u| - 1];
      if !Has(st, i) then Crash
      else
        var st1 :- if c.repaired then Teardown(c, st, i) else Shut(c, st, i);
        ShutAll(c, st1, u[..|u| - 1])
  }

  /** A walk visits every value of the table once. */
  ghost predicate IsWalk(st: Pool, walk: seq<nat>) {
    && (forall i :: i in walk <==> i in st.waiting.Values)
    && Distinct(walk)
  }

  function FindIdle(c: Config, st: Pool, now: int, walk: seq<nat>): Result<Pool> {
    ShutAll(c, st, Expired(st, walk, now))
  }

  // ---------------------------------------------------------------- events and runs

  datatype Event =
    | EvGetPeer(now: int)
    | EvStart(sid: int, sock: int)
    | EvReadable(i: nat, rd: ReadResult, w: WriteResult, w2: WriteResult)
    | EvWritable(i: nat, w: WriteResult)
    | EvHangup(i: nat)
    | EvFindIdle(now: int, walk: seq<nat>)

  /** What can happen: epoll reports only registered sockets, sockets are not negative, and
      a hash walk visits what is in the table. */
  ghost predicate Possible(st: Pool, e: Event) {
    match e
    case EvGetPeer(_) => true
    case EvStart(_, sock) => sock >= 0
    case EvReadable(i, _, _, _) => Has(st, i) && st.relays[i].status.Active?
    case EvWritable(i, _) => Has(st, i) && st.relays[i].status.Active?
    case EvHangup(i) => Has(st, i) && st.relays[i].status.Active?
    case EvFindIdle(_, walk) => IsWalk(st, walk)
  }

  /** One event.  What cannot happen changes nothing. */
  ghost function Step(c: Config, st: Pool, e: Event): Result<Pool> {
    if !Possible(st, e) then Ok(st)
    else match e
      case EvGetPeer(now) =>
        var (st1, _) :- GetPeer(c, st, now);
        Ok(st1)
      case EvStart(sid, sock) =>
        var (st1, _) :- Start(st, sid, sock);
        Ok(st1)
      case EvReadable(i, rd, w, w2) => Readable(c, st, i, rd, w, w2)
      case EvWritable(i, w) => Writable(c, st, i, w)
      case EvHangup(i) => Teardown(c, st, i)
      case EvFindIdle(now, walk) => FindIdle(c, st, now, walk)
  }

  function Fresh(c: Config): Relay {
    Relay(Idle, -1, false, NOTHING, NOTHING, NOTHING, -1, seq(c.relaybuf, _ => 0), 0, 0, 0, 0,
          c.ttidl, -1, false)
  }

  /** nioinit. */
  function Init(c: Config): Pool {
    Pool(seq(c.maxrelay, _ => Fresh(c)), seq(c.maxrelay, i => i), map[],
         seq(c.maxrelay, _ => false), [], [])
  }

  ghost function Run(c: Config, evs: seq<Event>): Result<Pool> {
    if evs == [] then Ok(Init(c))
    else
      var st :- Run(c, evs[..|evs| - 1]);
      Step(c, st, evs[|evs| - 1])
  }
}
