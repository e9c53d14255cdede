/** The relay engine of src/lib/nio2.c on the heap: records linked into relaycache by
    pointers, relayarray, the table wpeers, and peer pointers between records.  Every method
    is proved to do to the ghost state M exactly what the function of the same name in
    Relay.dfy says, so what is proved about those functions holds of the pointers. */
module RelayEngine {
  import opened Prelude
  import opened CircularList
  import R = Relay
  import opened RelayInv
  import opened RelayRuns
  import opened RelayPool

  /** struct nio_relay: link is the list header at its start. */
  class NioRelay {
    const sid: nat
    const link: Node
    const buf: array<byte>
    var status: R.Status
    var s: int
    var ev: bool
    var events: R.Mask
    var bits: R.Mask
    var reg: R.Mask
    var peer: NioRelay?
    var x1: int
    var x2: int
    var rbytes: int
    var wbytes: int
    var ttidl: int
    ghost var ep: int
    ghost var flushed: bool

    constructor (sid: nat, relaybuf: nat, ttidl: int)
      ensures fresh(link) && fresh(buf) && link.id == sid && this.sid == sid && peer == null
      ensures Rec() == R.Fresh(R.Config(0, relaybuf, ttidl, false))
    {
      this.sid := sid;
      link := new Node(sid);
      buf := new byte[relaybuf](_ => 0);
      status, s, ev, events, bits, reg := R.Idle, -1, false, R.NOTHING, R.NOTHING, R.NOTHING;
      peer, x1, x2, rbytes, wbytes, this.ttidl := null, 0, 0, 0, 0, ttidl;
      ep, flushed := -1, false;
      new;
      assert buf[..] == seq(relaybuf, _ => 0);
    }

    ghost function Rec(): R.Relay
      reads this, buf
    {
      R.Relay(status, s, ev, events, bits, reg, if peer == null then -1 else peer.sid, buf[..],
              x1, x2, rbytes, wbytes, ttidl, ep, flushed)
    }

    /** read(2) put b into the buffer at x1. */
    method Fill(b: seq<byte>)
      requires 0 <= x1 && x1 + |b| <= buf.Length
      modifies this, buf
      ensures Rec() == R.Filled(old(Rec()), b) && peer == old(peer)
    {
      ghost var before := buf[..];
      for k := 0 to |b|
        modifies buf
        invariant forall j {:trigger buf[j]} :: 0 <= j < buf.Length ==>
                    buf[j] == if x1 <= j < x1 + k then b[j - x1] else before[j]
      {
        buf[x1 + k] := b[k];
      }
      assert buf[..] == before[..x1] + b + before[x1 + |b|..];
      x1 := x1 + |b|;
      rbytes := rbytes + |b|;
    }

    method ArmOut()
      modifies this
      ensures Rec() == R.Arm(old(Rec())) && peer == old(peer)
    {
      events := R.BOTH;
      bits := R.BOTH;
      reg := events;
    }

    method DisarmOut()
      modifies this
      ensures Rec() == R.Disarm(old(Rec())) && peer == old(peer)
    {
      if bits.wr {
        events := R.READ;
        bits := R.READ;
        reg := events;
      }
    }

    method Connect(sock: int)
      modifies this
      ensures Rec() == R.Connect(old(Rec()), sock) && peer == old(peer)
    {
      status := R.Active;
      s := sock;
      ev := true;
      events := R.READ;
      bits := R.READ;
      reg := events;
    }

    method Reserve(ttidl: int)
      modifies this
      ensures Rec() == R.Reserve(old(Rec()), ttidl) && peer == old(peer)
    {
      status := R.Waiting;
      x1, x2 := 0, 0;
      this.ttidl := ttidl;
    }

    method Pair(p: NioRelay, now: int, ghost e: int)
      modifies this
      ensures Rec() == old(Rec()).(peer := p.sid, ttidl := old(ttidl) + now, ep := e, flushed := false)
      ensures peer == p
    {
      peer := p;
      ttidl := ttidl + now;
      ep, flushed := e, false;
    }

    method DropSocket()
      modifies this
      ensures Rec() == old(Rec()).(status := R.Idle, s := -1, ev := false, bits := R.NOTHING, reg := R.NOTHING)
      ensures peer == old(peer)
    {
      reg := R.NOTHING;
      ev := false;
      s := -1;
      status := R.Idle;
      bits := R.NOTHING;
    }

    method ResetCounts()
      modifies this
      ensures Rec() == old(Rec()).(x1 := 0, x2 := 0, rbytes := 0, wbytes := 0) && peer == old(peer)
    {
      x1, x2 := 0, 0;
      rbytes, wbytes := 0, 0;
    }

    method Close()
      modifies this
      ensures Rec() == R.Closed(old(Rec())) && peer == old(peer)
    {
      DropSocket();
      ResetCounts();
    }

    method AdvanceBy(cc: int)
      modifies this
      ensures Rec() == R.Advance(old(Rec()), cc) && peer == old(peer)
    {
      x2 := x2 + cc;
      wbytes := wbytes + cc;
      if x2 == x1 {
        x2, x1 := 0, 0;
      }
    }
  }

  /** A record in its initial state, all of whose memory is in parts. */
  ghost predicate Blank(c: R.Config, r: NioRelay, i: nat, parts: set<object>)
    reads r, r.buf
  {
    && r.sid == i && r.link.id == i && r.peer == null && r.Rec() == R.Fresh(c)
    && r in parts && r.link in parts && r.buf in parts
  }

  /** The loop of nioinit over the records. */
  method MakeRecords(c: R.Config) returns (rs: seq<NioRelay>, h: Node, ghost nodes: seq<Node>, ghost parts: set<object>)
    ensures fresh(parts) && h in parts && |rs| == c.maxrelay && |nodes| == c.maxrelay
    ensures forall i {:trigger rs[i]} :: 0 <= i < |rs| ==> Blank(c, rs[i], i, parts) && rs[i].link != h
    ensures forall i {:trigger nodes[i]} :: 0 <= i < |rs| ==> nodes[i] == rs[i].link
    ensures forall i, j {:trigger rs[i].buf, rs[j].buf} :: 0 <= i < j < |rs| ==> rs[i].buf != rs[j].buf
    ensures Ring(h, nodes)
  {
    h := ListMake();
    rs, nodes, parts := [], [], {h};
    for cc := 0 to c.maxrelay
      invariant fresh(parts) && h in parts && |rs| == |nodes| == cc
      invariant forall i {:trigger rs[i]} :: 0 <= i < cc ==> Blank(c, rs[i], i, parts) && rs[i].link != h
      invariant forall i {:trigger nodes[i]} :: 0 <= i < cc ==> nodes[i] == rs[i].link
      invariant forall i, j {:trigger rs[i].buf, rs[j].buf} :: 0 <= i < j < cc ==> rs[i].buf != rs[j].buf
      invariant Ring(h, nodes)
    {
      hide Ring, Cycle;
      BackIn(h, nodes);
      var r := AddRecord(c, h, nodes, cc);
      nodes := nodes + [r.link];
      rs := rs + [r];
      parts := parts + {r, r.link, r.buf};
    }
  }

  lemma BackIn(h: Node, nodes: seq<Node>)
    requires Ring(h, nodes)
    ensures h.back != null && (h.back == h || (nodes != [] && h.back == nodes[|nodes| - 1]))
  {
    assert Joined(Cycle(h, nodes)[|nodes|], h);
  }

  /** One turn of that loop. */
  method AddRecord(c: R.Config, h: Node, ghost nodes: seq<Node>, cc: nat) returns (r: NioRelay)
    requires Ring(h, nodes)
    modifies h, h.back
    ensures fresh(r) && fresh(r.link) && fresh(r.buf) && r.sid == cc && r.link.id == cc && r.peer == null
    ensures r.Rec() == R.Fresh(c)
    ensures Ring(h, nodes + [r.link])
  {
    r := new NioRelay(cc, c.relaybuf, c.ttidl);
    ListEnque(h, r.link, nodes);
  }

  class Engine {
    const c: R.Config
    const pool: seq<NioRelay>
    const relaycache: Node
    const relayarray: array<NioRelay?>
    var wpeers: map<string, NioRelay>
    ghost var M: R.Pool
    ghost var ring: seq<Node>
    ghost const Repr: set<object>

    /** The parts are all there and all different. */
    ghost predicate Built()
    {
      && |pool| == c.maxrelay == relayarray.Length
      && this in Repr && relaycache in Repr && relayarray in Repr
      && (forall i {:trigger pool[i]} :: 0 <= i < |pool| ==>
            && pool[i].sid == i && pool[i].link.id == i
            && pool[i] in Repr && pool[i].link in Repr && pool[i].buf in Repr
            && pool[i].link != relaycache)
      && (forall i, j {:trigger pool[i].buf, pool[j].buf} :: 0 <= i < j < |pool| ==> pool[i].buf != pool[j].buf)
    }

    ghost predicate RecordsTied()
      requires Built()
      reads this, Repr
    {
      && |M.relays| == |pool|
      && (forall i {:trigger M.relays[i]} :: 0 <= i < |pool| ==> pool[i].Rec() == M.relays[i])
      && (forall i {:trigger pool[i].peer} :: 0 <= i < |pool| && pool[i].peer != null ==>
           pool[i].peer.sid < |pool| && pool[pool[i].peer.sid] == pool[i].peer)
    }

    ghost predicate CacheTied()
      requires Built()
      reads this, Repr
    {
      && |ring| == |M.cache|
      && (forall k {:trigger M.cache[k]} {:trigger ring[k]} :: 0 <= k < |ring| ==>
           M.cache[k] < |pool| && ring[k] == pool[M.cache[k]].link)
      && (forall n :: n in ring ==> n in Repr)
      && Ring(relaycache, ring)
    }

    ghost predicate ArrayTied()
      requires Built()
      reads this, Repr
    {
      && |M.shown| == |pool|
      && forall i {:trigger relayarray[i]} {:trigger M.shown[i]} :: 0 <= i < |pool| ==>
           relayarray[i] == (if M.shown[i] then pool[i] else null)
    }

    ghost predicate TableTied()
      requires Built()
      reads this
    {
      && wpeers.Keys == M.waiting.Keys
      && forall k {:trigger wpeers[k]} {:trigger M.waiting[k]} :: k in wpeers ==>
           M.waiting[k] < |pool| && wpeers[k] == pool[M.waiting[k]]
    }

    /** The pointers say exactly what M says. */
    ghost predicate Valid()
      reads this, Repr
    {
      Built() && RecordsTied() && CacheTied() && ArrayTied() && TableTied()
    }

    /** nioinit: every record in the cache in the order of its sid. */
    constructor (c: R.Config)
      ensures Valid() && fresh(Repr) && this.c == c && M == R.Init(c)
    {
      var rs, h;
      ghost var nodes, parts;
      rs, h, nodes, parts := MakeRecords(c);
      var arr := new NioRelay?[c.maxrelay](_ => null);
      this.c := c;
      pool := rs;
      relaycache := h;
      relayarray := arr;
      wpeers := map[];
      ring := nodes;
      M := R.Init(c);
      Repr := parts + {this, arr};
    }

    method FillRecord(i: nat, b: seq<byte>)
      requires Valid() && i < |pool| && 0 <= pool[i].x1 && pool[i].x1 + |b| <= pool[i].buf.Length
      modifies Repr
      ensures Valid() && M == R.Set(old(M), i, R.Filled(old(M.relays[i]), b))
    {
      assert pool[i].Rec() == M.relays[i];
      hide R.Filled;
      pool[i].Fill(b);
      M := R.Set(M, i, R.Filled(M.relays[i], b));
    }

    /** niorelayread. */
    method RelayRead(i: nat, rd: R.ReadResult) returns (fatal: bool)
      requires Valid() && i < |pool| && R.Read(M, i, rd).Ok?
      modifies Repr
      ensures Valid()
      ensures (M, fatal) == old(R.Read(M, i, rd).value)
    {
      var r := pool[i];
      assert r.Rec() == M.relays[i];
      if r.x1 == r.buf.Length {
        return false;
      }
      match rd
      case ReadRetry => return false;
      case ReadFail => return true;
      case Got(bytes) =>
        var n := Min(|bytes|, r.buf.Length - r.x1);
        if n == 0 {
          return true;
        }
        ghost var e := M.relays[i].ep;
        FillRecord(i, bytes[..n]);
        Log(R.LogRead(M.eps, e, bytes[..n]), M.bills);
        return false;
    }

    // Changes of one record, with M kept in step.

    method Arm(p: nat)
      requires Valid() && p < |pool|
      modifies Repr
      ensures Valid() && M == R.Set(old(M), p, R.Arm(old(M.relays[p])))
    {
      hide R.Arm;
      pool[p].ArmOut();
      M := R.Set(M, p, R.Arm(M.relays[p]));
    }

    method DisarmPeer(p: nat)
      requires Valid() && p < |pool|
      modifies Repr
      ensures Valid() && M == R.Set(old(M), p, R.Disarm(old(M.relays[p])))
    {
      hide R.Disarm;
      pool[p].DisarmOut();
      M := R.Set(M, p, R.Disarm(M.relays[p]));
    }

    ghost method MarkFlushed(i: nat)
      requires Valid() && i < |pool|
      modifies Repr
      ensures Valid()
      ensures M == R.Set(old(M), i, old(M.relays[i]).(flushed := old(M.relays[i]).status.Active?))
    {
      pool[i].flushed := pool[i].status.Active?;
      M := R.Set(M, i, M.relays[i].(flushed := M.relays[i].status.Active?));
    }

    /** The logs are in M only. */
    ghost method Log(eps: seq<R.Endpoint>, bills: seq<R.Bill>)
      requires Valid()
      modifies this`M
      ensures Valid() && M == old(M).(eps := eps, bills := bills)
    {
      M := M.(eps := eps, bills := bills);
    }

    method Advance(i: nat, cc: int)
      requires Valid() && i < |pool|
      modifies Repr
      ensures Valid() && M == R.Set(old(M), i, R.Advance(old(M.relays[i]), cc))
    {
      hide R.Advance;
      pool[i].AdvanceBy(cc);
      M := R.Set(M, i, R.Advance(M.relays[i], cc));
    }

    /** The write of nioflush2peer and the handling of its result. */
    method WritePart(i: nat, p: nat, w: R.WriteResult) returns (cc: int)
      requires Valid() && i < |pool| && p < |pool| && i != p
      requires 0 <= pool[i].x2 < pool[i].x1 <= pool[i].buf.Length
      modifies Repr
      ensures Valid()
      ensures (M, cc) == old(R.Written(c, M, i, p, w))
    {
      var r := pool[i];
      assert r.Rec() == M.relays[i];
      match w
      case Again =>
        Arm(p);
        cc := -1;
      case Wrote(n) =>
        cc := WroteSome(i, p, n);
      case _ =>
        Advance(i, if c.repaired then 0 else -1);
        Arm(p);
        cc := -1;
    }

    method WroteSome(i: nat, p: nat, n: nat) returns (cc: int)
      requires Valid() && i < |pool| && p < |pool| && i != p
      requires 0 <= pool[i].x2 < pool[i].x1 <= pool[i].buf.Length
      modifies Repr
      ensures Valid()
      ensures (M, cc) == old(R.Written(c, M, i, p, R.Wrote(n)))
    {
      var r := pool[i];
      assert r.Rec() == M.relays[i];
      cc := Min(n, r.x1 - r.x2);
      var rest := r.x1 - r.x2 - cc;
      ghost var b := R.Window(M.relays[i])[..cc];
      ghost var e := M.relays[p].ep;
      Advance(i, cc);
      Log(R.LogDelivered(M.eps, e, b), M.bills);
      if rest != 0 {
        Arm(p);
      }
    }

    /** nioflush2peer. */
    method Flush2Peer(i: nat, w: R.WriteResult) returns (cc: int)
      requires Valid() && i < |pool| && R.Flush(c, M, i, w).Ok?
      modifies Repr
      ensures Valid()
      ensures (M, cc) == old(R.Flush(c, M, i, w).value)
    {
      var r := pool[i];
      assert r.Rec() == M.relays[i];
      var p := r.peer.sid;
      assert pool[p].Rec() == M.relays[p];
      if !r.peer.ev {
        return 0;
      }
      DisarmPeer(p);
      MarkFlushed(i);
      assert r.Rec() == M.relays[i];
      if r.x1 == 0 {
        assert r.x2 == 0;
        return 0;
      }
      assert r.x1 != r.x2;
      cc := WritePart(i, p, w);
    }

    method ConnectTo(i: nat, sock: int)
      requires Valid() && i < |pool|
      modifies Repr
      ensures Valid() && M == R.Set(old(M), i, R.Connect(old(M.relays[i]), sock))
    {
      hide R.Connect;
      pool[i].Connect(sock);
      M := R.Set(M, i, R.Connect(M.relays[i], sock));
    }

    method CloseRecord(i: nat)
      requires Valid() && i < |pool|
      modifies Repr
      ensures Valid() && M == R.Set(old(M), i, R.Closed(old(M.relays[i])))
    {
      hide R.Closed;
      pool[i].Close();
      M := R.Set(M, i, R.Closed(M.relays[i]));
    }

    method MakeIdle(i: nat)
      requires Valid() && i < |pool|
      modifies Repr
      ensures Valid() && M == R.Set(old(M), i, old(M.relays[i]).(status := R.Idle))
    {
      pool[i].status := R.Idle;
      M := R.Set(M, i, M.relays[i].(status := R.Idle));
    }

    method ResetEvents(i: nat)
      requires Valid() && i < |pool|
      modifies Repr
      ensures Valid() && M == R.Set(old(M), i, old(M.relays[i]).(events := R.NOTHING))
    {
      pool[i].events := R.NOTHING;
      M := R.Set(M, i, M.relays[i].(events := R.NOTHING));
    }

    method ReserveRecord(i: nat, ttidl: int)
      requires Valid() && i < |pool|
      modifies Repr
      ensures Valid() && M == R.Set(old(M), i, R.Reserve(old(M.relays[i]), ttidl))
    {
      hide R.Reserve;
      pool[i].Reserve(ttidl);
      M := R.Set(M, i, R.Reserve(M.relays[i], ttidl));
    }

    /** Sets the peer and the time limit; endpoint e is what the record will play. */
    method SetPeer(i: nat, p: nat, now: int, ghost e: int)
      requires Valid() && i < |pool| && p < |pool|
      modifies Repr
      ensures Valid()
      ensures M == R.Set(old(M), i, old(M.relays[i]).(
                    peer := p, ttidl := old(M.relays[i]).ttidl + now, ep := e, flushed := false))
    {
      assert pool[p].sid == p;
      pool[i].Pair(pool[p], now, e);
      assert pool[i].Rec() == M.relays[i].(peer := p, ttidl := M.relays[i].ttidl + now, ep := e, flushed := false);
      M := R.Set(M, i, M.relays[i].(peer := p, ttidl := M.relays[i].ttidl + now, ep := e, flushed := false));
    }

    // The cache, the array and the table, with M kept in step.

    method Show(i: nat, b: bool)
      requires Valid() && i < |pool|
      modifies relayarray, this`M
      ensures Valid() && M == old(M).(shown := old(M.shown)[i := b])
    {
      relayarray[i] := if b then pool[i] else null;
      M := M.(shown := M.shown[i := b]);
    }

    method Enque(i: nat)
      requires Valid() && i < |pool| && i !in M.cache
      modifies Repr
      ensures Valid() && M == old(M).(cache := old(M.cache) + [i])
    {
      var l := pool[i].link;
      forall k | 0 <= k < |ring| ensures ring[k] != l {
        assert M.cache[k] in M.cache;
      }
      assert Joined(Cycle(relaycache, ring)[|ring|], relaycache);
      assert relaycache.back == relaycache || relaycache.back == ring[|ring| - 1];
      ListEnque(relaycache, l, ring);
      ring := ring + [l];
      M := M.(cache := M.cache + [i]);
    }

    method Remove(i: nat)
      requires Valid() && i < |pool| && i in M.cache && Distinct(M.cache)
      modifies Repr
      ensures Valid() && M == old(M).(cache := R.Drop(old(M.cache), i))
    {
      ghost var k :| 0 <= k < |M.cache| && M.cache[k] == i;
      DropWithout(M.cache, k);
      RemoveAt(pool[i].link, k);
    }

    method RemoveAt(l: Node, ghost k: nat)
      requires Valid() && k < |ring| && l == ring[k]
      modifies Repr
      ensures Valid() && M == old(M).(cache := Without(old(M.cache), k))
    {
      Neighbours(k);
      var _ := ListRm(relaycache, l, ring, k);
      ring := Without(ring, k);
      M := M.(cache := Without(M.cache, k));
      assert CacheTied();
    }

    lemma Neighbours(k: nat)
      requires Valid() && k < |ring|
      ensures ring[k].back != null && ring[k].back in Repr && ring[k].forw != null && ring[k].forw in Repr
    {
      assert Joined(Cycle(relaycache, ring)[k], Cycle(relaycache, ring)[k + 1]);
      assert Joined(Cycle(relaycache, ring)[k + 1], Cycle(relaycache, ring)[k + 2]);
      assert k > 0 ==> Cycle(relaycache, ring)[k] == ring[k - 1];
      assert k + 1 < |ring| ==> Cycle(relaycache, ring)[k + 2] == ring[k + 1];
    }

    method File(i: nat)
      requires Valid() && i < |pool|
      modifies this`wpeers, this`M
      ensures Valid() && M == old(M).(waiting := old(M.waiting)[Decimal(i) := i])
    {
      wpeers := wpeers[Decimal(i) := pool[i]];
      M := M.(waiting := M.waiting[Decimal(i) := i]);
    }

    /** hashrm: takes the entry out of the table, if there is one. */
    method Unfile(key: string) returns (r: NioRelay?)
      requires Valid()
      modifies this`wpeers, this`M
      ensures Valid() && M == old(M).(waiting := old(M.waiting) - {key})
      ensures r == if key in old(M.waiting) then pool[old(M.waiting)[key]] else null
    {
      r := if key in wpeers then wpeers[key] else null;
      wpeers := wpeers - {key};
      M := M.(waiting := M.waiting - {key});
    }

    // ------------------------------------------------------------ the operations

    /** nioshutrelay. */
    method ShutRelay(i: nat)
      requires Valid() && i < |pool| && R.Shut(c, M, i).Ok?
      requires Uncached(M)
      modifies Repr
      ensures Valid() && Uncached(M)
      ensures M == old(R.Shut(c, M, i).value)
    {
      var r := pool[i];
      assert r.Rec() == M.relays[i];
      if if c.repaired then r.status.Idle? else r.s < 0 {
        return;
      }
      Show(i, false);
      assert r.Rec() == M.relays[i];
      match r.status
      case Active =>
        ghost var bill := R.BillOf(M.relays[i]);
        CloseRecord(i);
        Log(M.eps, M.bills + [bill]);
        Enque(i);
      case Waiting =>
        var r2 := Unfile(Decimal(i));
        assert r2 == r;
        MakeIdle(i);
      case Idle =>
    }

    /** niostartrelay; the record leaves the cache and the table. */
    method StartRelay(sid: int, sock: int) returns (r: NioRelay?)
      requires Valid() && R.Start(M, sid, sock).Ok?
      requires Distinct(M.cache) && forall k :: k in M.waiting ==> M.waiting[k] in M.cache
      modifies Repr
      ensures Valid()
      ensures M == old(R.Start(M, sid, sock).value.0)
      ensures var answer := old(R.Start(M, sid, sock).value.1);
              r == if answer.Some? then pool[answer.value] else null
    {
      r := Unfile(Decimal(sid));
      if r == null {
        assert M.waiting == old(M.waiting);
        return;
      }
      var i := r.sid;
      assert r.Rec() == M.relays[i];
      assert r.status.Waiting?;
      ghost var e := M.relays[i].ep;
      Remove(i);
      Show(i, true);
      ConnectTo(i, sock);
      Log(R.LogStart(M.eps, e), M.bills);
    }

    /** The k-th record of the cache, as met on the walk along the forw pointers. */
    lemma Walk(k: nat)
      requires Valid() && k <= |M.cache|
      ensures relaycache.forw == Cycle(relaycache, ring)[1]
      ensures k < |M.cache| ==>
                && Cycle(relaycache, ring)[k + 1] == pool[M.cache[k]].link != relaycache
                && pool[M.cache[k]].link.forw == Cycle(relaycache, ring)[k + 2]
                && pool[M.cache[k]].status == M.relays[M.cache[k]].status
      ensures k == |M.cache| ==> Cycle(relaycache, ring)[k + 1] == relaycache
    {
      assert Joined(Cycle(relaycache, ring)[0], Cycle(relaycache, ring)[1]);
      if k < |M.cache| {
        assert Joined(Cycle(relaycache, ring)[k + 1], Cycle(relaycache, ring)[k + 2]);
        assert ring[k] == Cycle(relaycache, ring)[k + 1];
        assert pool[M.cache[k]].Rec() == M.relays[M.cache[k]];
      }
    }

    /** The two records found, a first, become each other's peers. */
    method JoinPeers(a: nat, b: nat, now: int, ghost M0: R.Pool)
      requires Valid() && a < |pool| && b < |pool| && a != b && |M0.relays| == |pool|
      requires M == R.Set(R.Set(M0, a, R.Reserve(M0.relays[a], c.ttidl)), b, R.Reserve(M0.relays[b], c.ttidl))
      requires Decimal(a) !in M0.waiting && Decimal(b) !in M0.waiting
      modifies Repr
      ensures Valid() && M == R.Paired2(c, M0, a, b, now)
    {
      ghost var e := |M.eps|;
      SetPeer(a, b, now, e);
      SetPeer(b, a, now, e + 1);
      assert M.relays == R.Paired2(c, M0, a, b, now).relays;
      FilePeers(a, b);
    }

    method FilePeers(a: nat, b: nat)
      requires Valid() && a < |pool| && b < |pool| && a != b
      requires Decimal(a) !in M.waiting && Decimal(b) !in M.waiting
      modifies Repr
      ensures Valid()
      ensures M == old(M).(waiting := old(M.waiting)[Decimal(a) := a][Decimal(b) := b],
                           eps := R.Opened(old(M.eps), a, b))
    {
      if Decimal(a) == Decimal(b) {
        DecimalInjective(a, b);
      }
      assert Decimal(a) !in wpeers;
      File(a);
      assert Decimal(b) !in wpeers;
      File(b);
      Log(R.Opened(M.eps, a, b), M.bills);
    }

    /** The body of the loop of niogetpeer: r is the k-th record on the walk, r1 the idle one
        found before, if any.  done says that r completed the pair. */
    method Consider(r: Node, r1: Option<nat>, now: int, ghost M0: R.Pool, ghost k: nat)
      returns (r2: Option<nat>, done: bool)
      requires Valid() && Searching(c, M0, M, r1, k) && k < |M.cache| && R.GetPeer(c, M0, now).Ok?
      requires |M0.relays| == |pool| && r == pool[M.cache[k]].link
      modifies Repr
      ensures Valid()
      ensures done ==> r1.Some? && R.Ok((M, Some((r1.value, r.id)))) == R.GetPeer(c, M0, now)
      ensures !done ==> Searching(c, M0, M, r2, k + 1)
    {
      hide R.GetPeer, R.NextIdle;
      Walk(k);
      var i := r.id;
      if pool[i].status.Idle? {
        SearchFound(c, M0, M, r1, k, now);
        ReserveRecord(i, c.ttidl);
        if r1.Some? {
          JoinPeers(r1.value, i, now, M0);
          return None, true;
        }
        return Some(i), false;
      }
      SearchSkipped(c, M0, M, r1, k);
      return r1, false;
    }

    /** niogetpeer: walks the cache along the forw pointers. */
    method GetPeer(now: int) returns (answer: Option<(nat, nat)>)
      requires Valid() && R.GetPeer(c, M, now).Ok?
      modifies Repr
      ensures Valid()
      ensures R.Ok((M, answer)) == old(R.GetPeer(c, M, now))
    {
      hide R.GetPeer, R.NextIdle;
      ghost var M0, k := M, 0;
      var r1: Option<nat> := None;
      Walk(0);
      var r := relaycache.forw;
      while r != relaycache
        invariant Valid() && Searching(c, M0, M, r1, k)
        invariant r == Cycle(relaycache, ring)[k + 1]
        decreases |M0.cache| - k
      {
        Walk(k);
        var r2, done := Consider(r, r1, now, M0, k);
        if done {
          return Some((r1.value, r.id));
        }
        r1 := r2;
        Walk(k);
        r := r.forw;
        k := k + 1;
      }
      Walk(k);
      SearchEnded(c, M0, M, r1, k, now);
      return None;
    }

    /** Both ends, the record first. */
    method Teardown(i: nat)
      requires Valid() && i < |pool| && R.Teardown(c, M, i).Ok? && Uncached(M)
      modifies Repr
      ensures Valid() && Uncached(M)
      ensures R.Ok(M) == old(R.Teardown(c, M, i))
    {
      var r := pool[i];
      assert r.Rec() == M.relays[i];
      ghost var p := M.relays[i].peer;
      ShutRelay(i);
      assert r.Rec() == M.relays[i];
      ShutKeepsPeer(c, old(M), i);
      ShutRelay(r.peer.sid);
    }

    /** niorelay. */
    method Relay(i: nat, rd: R.ReadResult, w: R.WriteResult, w2: R.WriteResult)
      requires Valid() && i < |pool| && R.Readable(c, M, i, rd, w, w2).Ok? && Uncached(M)
      modifies Repr
      ensures Valid()
      ensures R.Ok(M) == old(R.Readable(c, M, i, rd, w, w2))
    {
      hide R.AfterRead, R.Read;
      assert pool[i].Rec() == M.relays[i];
      if pool[i].s < 0 {
        return;
      }
      ResetEvents(i);
      ReadUncached(M, i, rd);
      var fatal := RelayRead(i, rd);
      AfterRead(i, fatal, w, w2);
    }

    method AfterRead(i: nat, fatal: bool, w: R.WriteResult, w2: R.WriteResult)
      requires Valid() && i < |pool| && R.AfterRead(c, M, i, fatal, w, w2).Ok? && Uncached(M)
      modifies Repr
      ensures Valid()
      ensures R.Ok(M) == old(R.AfterRead(c, M, i, fatal, w, w2))
    {
      hide R.Flush, R.Teardown;
      var r := pool[i];
      assert r.Rec() == M.relays[i];
      if fatal {
        FlushUncached(c, M, i, w);
        var _ := Flush2Peer(i, w);
        Teardown(i);
        return;
      }
      var p := r.peer.sid;
      assert pool[p].Rec() == M.relays[p];
      if r.peer.status.Active? {
        FlushUncached(c, M, i, w);
        var cc := Flush2Peer(i, w);
        if cc < 0 && w.WriteFail? {
          FlushUncached(c, M, p, w2);
          var _ := Flush2Peer(p, w2);
          Teardown(i);
        }
      }
    }

    /** The EPOLLOUT half of runrelays2. */
    method Writable(i: nat, w: R.WriteResult)
      requires Valid() && i < |pool| && R.Writable(c, M, i, w).Ok?
      modifies Repr
      ensures Valid()
      ensures R.Ok(M) == old(R.Writable(c, M, i, w))
    {
      assert pool[i].Rec() == M.relays[i];
      var _ := Flush2Peer(pool[i].peer.sid, w);
    }

    /** niofindidle: collects the expired entries on a walk over the table, then shuts them
        from the last to the first. */
    method FindIdle(now: int, walk: seq<nat>)
      requires Valid() && Inv(c, M) && R.IsWalk(M, walk)
      modifies Repr
      ensures Valid()
      ensures R.Ok(M) == old(R.FindIdle(c, M, now, walk))
    {
      hide R.ShutAll, R.Teardown, R.Shut, Inv;
      ghost var M0 := M;
      WalkMembers(c, M, walk, now);
      InvUncached(c, M);
      var u := Overdues(now, walk);
      FindIdleOk(c, M, now, walk);
      var z := |u|;
      assert u[..z] == u;
      while z > 0
        invariant 0 <= z <= |u| && Valid() && Uncached(M)
        invariant R.ShutAll(c, M, u[..z]).Ok? && R.ShutAll(c, M, u[..z]) == R.ShutAll(c, M0, u)
        decreases z
      {
        ShutAllStep(c, M, u, z - 1);
        z := z - 1;
        if c.repaired {
          Teardown(u[z]);
        } else {
          ShutRelay(u[z]);
        }
      }
      ShutAllNone(c, M, u);
    }

    method Overdues(now: int, walk: seq<nat>) returns (u: seq<nat>)
      requires Valid() && forall i :: i in walk ==> i < |pool|
      ensures u == R.Expired(M, walk, now)
    {
      hide R.Expired;
      u := [];
      assert walk[0..] == walk && [] + R.Expired(M, walk, now) == R.Expired(M, walk, now);
      for k := 0 to |walk|
        invariant u + R.Expired(M, walk[k..], now) == R.Expired(M, walk, now)
      {
        assert walk[k] in walk && walk[k..][1..] == walk[k + 1..];
        assert pool[walk[k]].Rec() == M.relays[walk[k]];
        ExpiredStep(M, walk[k..], now);
        ghost var later := R.Expired(M, walk[k + 1..], now);
        assert (u + [walk[k]]) + later == u + ([walk[k]] + later);
        if now >= pool[walk[k]].ttidl {
          u := u + [walk[k]];
        }
      }
      ExpiredEnd(M, now);
    }

    /** One event from outside: if it is safe, no assert fails on the way, and the heap is left
        in the invariant. */
    method HandleEvent(e: R.Event)
      requires Valid() && Inv(c, M) && Safe(c, M, e) && R.Possible(M, e)
      modifies Repr
      ensures Valid() && Inv(c, M)
      ensures R.Ok(M) == old(R.Step(c, M, e))
    {
      hide R.GetPeer, R.Start, R.Readable, R.Writable, R.Teardown, R.FindIdle, Safe;
      StepKeeps(c, M, e);
      InvUncached(c, M);
      match e
      case EvGetPeer(now) => var _ := GetPeer(now);
      case EvStart(sid, sock) => var _ := StartRelay(sid, sock);
      case EvReadable(i, rd, w, w2) => Relay(i, rd, w, w2);
      case EvWritable(i, w) => Writable(i, w);
      case EvHangup(i) => Teardown(i);
      case EvFindIdle(now, walk) => FindIdle(now, walk);
    }

    ghost function Connected(): set<int>
      requires Built()
      reads this, Repr
    {
      set i | 0 <= i < |pool| && pool[i].status.Active?
    }

    /** The pool on the heap: relaycache is a well-formed circular list of records, it holds
        each idle and waiting record once and no connected one, its count and the connected
        records make up the pool, and relayarray points to exactly the connected ones. */
    ghost predicate Partitioned()
      requires Valid()
      reads this, Repr
    {
      && Ring(relaycache, ring) && Distinct(ring)
      && (forall n :: n in ring ==> n.id < |pool| && n == pool[n.id].link)
      && (forall i {:trigger pool[i]} :: 0 <= i < |pool| ==>
            && (pool[i].link in ring <==> !pool[i].status.Active?)
            && relayarray[i] == if pool[i].status.Active? then pool[i] else null)
      && relaycache.num + |Connected()| == |pool|
    }

    lemma PoolOnHeap()
      requires Valid() && Inv(c, M)
      ensures Partitioned()
    {
      hide Inv, Ring;
      InvBasic(c, M);
      BasicPartition(c, M);
      RingCounts();
      forall i | 0 <= i < |pool|
        ensures pool[i].status == M.relays[i].status
        ensures pool[i].link in ring <==> i in M.cache {
        assert pool[i].Rec() == M.relays[i];
        if i in M.cache {
          var k :| 0 <= k < |M.cache| && M.cache[k] == i;
          assert ring[k] == pool[i].link;
        }
        if pool[i].link in ring {
          var k :| 0 <= k < |ring| && ring[k] == pool[i].link;
          assert M.cache[k] == pool[M.cache[k]].link.id;
        }
      }
      assert Connected() == ActiveSet(M);
    }

    lemma RingCounts()
      requires Valid()
      ensures Distinct(ring) && relaycache.num == |M.cache|
    {
    }
  }

  /** What is reported can happen. */
  ghost predicate Feasible(c: R.Config, evs: seq<R.Event>)
    decreases |evs|
  {
    evs == [] ||
    (var before := evs[..|evs| - 1];
     Feasible(c, before) && R.Run(c, before).Ok? && R.Possible(R.Run(c, before).value, evs[|evs| - 1]))
  }

  /** What cannot happen makes no difference, so every safe run is one of feasible events. */
  lemma {:induction false} FeasibleRun(c: R.Config, evs: seq<R.Event>) returns (evs1: seq<R.Event>)
    requires SafeRun(c, evs)
    ensures SafeRun(c, evs1) && Feasible(c, evs1) && R.Run(c, evs1) == R.Run(c, evs)
    decreases |evs|
  {
    evs1 := [];
    if evs != [] {
      var before, e := evs[..|evs| - 1], evs[|evs| - 1];
      evs1 := FeasibleRun(c, before);
      if R.Possible(R.Run(c, before).value, e) {
        assert (evs1 + [e])[..|evs1|] == evs1;
        evs1 := evs1 + [e];
      }
    }
  }

  /** From start-up through any safe run, on the heap: the state is the one the run leads to,
      and the pool is partitioned. */
  method Drive(c: R.Config, evs: seq<R.Event>) returns (engine: Engine)
    requires SafeRun(c, evs) && Feasible(c, evs)
    ensures fresh(engine.Repr) && engine.c == c && engine.Valid()
    ensures R.Run(c, evs) == R.Ok(engine.M) && Inv(c, engine.M)
    ensures engine.Partitioned()
  {
    hide R.Step, Inv, Safe, R.Possible;
    engine := new Engine(c);
    InitInv(c);
    for i := 0 to |evs|
      invariant fresh(engine.Repr) && engine.c == c && engine.Valid() && Inv(c, engine.M)
      invariant R.Run(c, evs[..i]) == R.Ok(engine.M)
      invariant SafeRun(c, evs[..i]) && Feasible(c, evs[..i])
    {
      Prefixes(c, evs, i + 1);
      assert evs[..i + 1][..i] == evs[..i];
      engine.HandleEvent(evs[i]);
    }
    assert evs[..|evs|] == evs;
    engine.PoolOnHeap();
  }

  lemma {:induction false} Prefixes(c: R.Config, evs: seq<R.Event>, n: nat)
    requires SafeRun(c, evs) && Feasible(c, evs) && n <= |evs|
    ensures SafeRun(c, evs[..n]) && Feasible(c, evs[..n])
    decreases |evs|
  {
    hide R.Step, Safe, R.Possible, R.Run;
    if n == |evs| {
      assert evs[..n] == evs;
    } else {
      assert evs[..|evs| - 1][..n] == evs[..n];
      Prefixes(c, evs[..|evs| - 1], n);
    }
  }

  lemma ExpiredStep(M: R.Pool, walk: seq<nat>, now: int)
    requires walk != [] && R.Has(M, walk[0])
    ensures R.Expired(M, walk, now) ==
            if now >= M.relays[walk[0]].ttidl then [walk[0]] + R.Expired(M, walk[1..], now)
            else R.Expired(M, walk[1..], now)
  {
    assert [] + R.Expired(M, walk[1..], now) == R.Expired(M, walk[1..], now);
  }

  lemma ExpiredEnd(M: R.Pool, now: int)
    ensures R.Expired(M, [], now) == []
  {
  }

  lemma FindIdleOk(c: R.Config, M: R.Pool, now: int, walk: seq<nat>)
    requires Inv(c, M) && R.IsWalk(M, walk)
    ensures R.FindIdle(c, M, now, walk).Ok? && R.FindIdle(c, M, now, walk) == R.ShutAll(c, M, R.Expired(M, walk, now))
  {
    if c.repaired {
      FindIdleVerdict(c, M, now, walk);
    } else {
      InvBasic(c, M);
      SweepIdles(c, M, now, walk);
    }
  }

  lemma ShutAllStep(c: R.Config, M: R.Pool, u: seq<nat>, z: nat)
    requires z < |u| && R.ShutAll(c, M, u[..z + 1]).Ok?
    ensures R.Has(M, u[z])
    ensures var one := if c.repaired then R.Teardown(c, M, u[z]) else R.Shut(c, M, u[z]);
            one.Ok? && R.ShutAll(c, one.value, u[..z]) == R.ShutAll(c, M, u[..z + 1])
  {
    assert u[..z + 1][..z] == u[..z];
  }

  lemma ShutAllNone(c: R.Config, M: R.Pool, u: seq<nat>)
    ensures R.ShutAll(c, M, u[..0]) == R.Ok(M)
  {
  }

  lemma InvUncached(c: R.Config, M: R.Pool)
    requires Inv(c, M)
    ensures Uncached(M) && Distinct(M.cache) && forall k :: k in M.waiting ==> M.waiting[k] in M.cache
  {
    forall i: nat | R.Has(M, i) ensures i in M.cache <==> !M.relays[i].status.Active? {
      assert RecordOk(c, M, i);
    }
  }

  /** No connected record is in the cache, so shutting one links it in only once. */
  ghost predicate Uncached(M: R.Pool) {
    forall i {:trigger i in M.cache} :: i in M.cache && R.Has(M, i) ==> !M.relays[i].status.Active?
  }

  lemma ShutKeepsPeer(c: R.Config, M: R.Pool, i: nat)
    requires R.Has(M, i) && R.Shut(c, M, i).Ok?
    ensures |R.Shut(c, M, i).value.relays| == |M.relays|
    ensures R.Shut(c, M, i).value.relays[i].peer == M.relays[i].peer
  {
  }

  lemma ReadUncached(M: R.Pool, i: nat, rd: R.ReadResult)
    requires R.Has(M, i) && R.Read(M, i, rd).Ok? && Uncached(M)
    ensures Uncached(R.Read(M, i, rd).value.0) && |R.Read(M, i, rd).value.0.relays| == |M.relays|
  {
  }

  lemma FlushUncached(c: R.Config, M: R.Pool, i: nat, w: R.WriteResult)
    requires R.Has(M, i) && R.Flush(c, M, i, w).Ok? && Uncached(M)
    ensures Uncached(R.Flush(c, M, i, w).value.0) && |R.Flush(c, M, i, w).value.0.relays| == |M.relays|
  {
  }

  /** The search of niogetpeer from state M0 has seen the first k records of the cache; r1 is
      the idle one it found, if any, and has been reserved. */
  ghost predicate Searching(c: R.Config, M0: R.Pool, M: R.Pool, r1: Option<nat>, k: nat) {
    && k <= |M.cache| && M.cache == M0.cache
    && match r1
       case None => M == M0 && R.NextIdle(M0, k) == R.NextIdle(M0, 0)
       case Some(a) =>
         var j := R.NextIdle(M0, 0);
         && j < k && M0.cache[j] == a && R.Has(M0, a)
         && M == R.Set(M0, a, R.Reserve(M0.relays[a], c.ttidl))
         && R.NextIdle(M, k) == R.NextIdle(M, j + 1)
  }

  lemma SearchSkipped(c: R.Config, M0: R.Pool, M: R.Pool, r1: Option<nat>, k: nat)
    requires Searching(c, M0, M, r1, k) && k < |M.cache|
    requires R.Has(M, M.cache[k]) && !M.relays[M.cache[k]].status.Idle?
    ensures Searching(c, M0, M, r1, k + 1)
  {
  }

  lemma SearchEnded(c: R.Config, M0: R.Pool, M: R.Pool, r1: Option<nat>, k: nat, now: int)
    requires Searching(c, M0, M, r1, k) && k == |M.cache|
    ensures R.GetPeer(c, M0, now) == R.Ok((M, None))
  {
    R.NextIdleBound(M0, 0);
  }

  /** An idle record is met: it is the first, or it completes the answer. */
  lemma SearchFound(c: R.Config, M0: R.Pool, M: R.Pool, r1: Option<nat>, k: nat, now: int)
    requires Searching(c, M0, M, r1, k) && k < |M.cache|
    requires R.Has(M, M.cache[k]) && M.relays[M.cache[k]].status.Idle? && R.GetPeer(c, M0, now).Ok?
    ensures var i := M.cache[k];
            && (r1.None? ==> Searching(c, M0, R.Set(M, i, R.Reserve(M.relays[i], c.ttidl)), Some(i), k + 1))
            && (r1.Some? ==>
                 && r1.value != i && R.Has(M0, i) && M.relays[i] == M0.relays[i]
                 && Decimal(r1.value) !in M0.waiting && Decimal(i) !in M0.waiting
                 && R.GetPeer(c, M0, now).value == (R.Paired2(c, M0, r1.value, i, now), Some((r1.value, i))))
  {
    R.NextIdleBound(M0, 0);
  }

  lemma {:induction false} DropWithout(s: seq<nat>, k: nat)
    requires Distinct(s) && k < |s|
    ensures R.Drop(s, s[k]) == Without(s, k)
  {
    if k == 0 {
      DropAbsent(s[1..], s[0]);
    } else {
      DropWithout(s[1..], k - 1);
      assert s[k] == s[1..][k - 1];
    }
  }

  lemma {:induction false} DropAbsent(s: seq<nat>, x: nat)
    requires x !in s
    ensures R.Drop(s, x) == s
  {
    if s != [] {
      DropAbsent(s[1..], x);
    }
  }
}
