/** The invariant of the relay engine, and that every C function of the repaired engine keeps
    it: no run ever fails an assert, peers are mutual, bytes never cross sessions. */
module RelayInv {
  import opened Prelude
  import opened Relay

  /** Reserved by a successful niogetpeer, or connected. */
  predicate Paired(st: Pool, i: int) {
    && Has(st, i)
    && (st.relays[i].status.Active? || (st.relays[i].status.Waiting? && Decimal(i) in st.waiting))
  }

  /** Reserved by a failing niogetpeer. */
  predicate Stranded(st: Pool, i: int) {
    Has(st, i) && st.relays[i].status.Waiting? && Decimal(i) !in st.waiting
  }

  /** One record by itself: x2 <= x1 <= L, an empty buffer starts at 0, only a connected
      record has a socket, and the registered mask is the engine's copy. */
  ghost predicate SelfOk(c: Config, r: Relay) {
    && |r.buf| == c.relaybuf
    && 0 <= r.x2 <= r.x1 <= |r.buf|
    && (r.x1 == r.x2 ==> r.x1 == 0)
    && (r.status.Active? <==> r.s >= 0)
    && (r.status.Active? <==> r.ev)
    && (r.status.Active? ==> r.reg == r.bits && r.bits.rd)
    && (!r.status.Active? ==> r.reg == NOTHING == r.bits)
    && (!r.status.Active? ==> r.s == -1 && r.x1 == 0 && r.rbytes == 0 && r.wbytes == 0)
  }

  /** A record, its place in the cache and in relayarray. */
  ghost predicate RecordOk(c: Config, st: Pool, i: int)
    requires Has(st, i) && |st.shown| == |st.relays|
  {
    && SelfOk(c, st.relays[i])
    && (st.shown[i] <==> st.relays[i].status.Active?)
    && (i in st.cache <==> !st.relays[i].status.Active?)
  }

  /** Two live ends of one session. */
  ghost predicate LinkOk(st: Pool, i: int) {
    Paired(st, i) ==>
      var r := st.relays[i];
      && Has(st, r.peer) && r.peer != i
      && Paired(st, r.peer)
      && var q := st.relays[r.peer];
      && q.peer == i
      && 0 <= r.ep < |st.eps| && 0 <= q.ep < |st.eps| && q.ep == Mate(r.ep)
  }

  /** What was read from r's socket as endpoint e is what was delivered at the other end m
      followed by what is buffered, and the two counters count it. */
  ghost predicate Flow(r: Relay, e: Endpoint, m: Endpoint) {
    && e.read == m.delivered + Window(r)
    && r.rbytes == |e.read| && r.wbytes == |m.delivered|
  }

  ghost predicate StreamOk(st: Pool, i: int) {
    Paired(st, i) ==>
      var r := st.relays[i];
      && 0 <= r.ep < |st.eps| && 0 <= Mate(r.ep) < |st.eps|
      && var e := st.eps[r.ep];
      && e.sid == i
      && (e.started <==> r.status.Active?)
      && Flow(r, e, st.eps[Mate(r.ep)])
  }

  /** Some record is still playing this endpoint on a connected socket. */
  ghost predicate Live(st: Pool, e: int) {
    && 0 <= e < |st.eps|
    && Has(st, st.eps[e].sid)
    && st.relays[st.eps[e].sid].status.Active?
    && st.relays[st.eps[e].sid].ep == e
  }

  ghost predicate Billed(st: Pool, e: int) {
    exists k :: 0 <= k < |st.bills| && st.bills[k].ep == e
  }

  ghost predicate EndpointOk(st: Pool, e: int)
    requires 0 <= e < |st.eps|
  {
    && Has(st, st.eps[e].sid)
    && 0 <= Mate(e) < |st.eps|
    && st.eps[e].delivered <= st.eps[Mate(e)].read
    && (st.eps[e].started ==> (Live(st, e) <==> !Billed(st, e)))
    && (!st.eps[e].started ==> !Billed(st, e) && st.eps[e].read == [] && st.eps[e].delivered == [])
  }

  ghost predicate BillOk(st: Pool, k: int)
    requires 0 <= k < |st.bills|
  {
    var b := st.bills[k];
    && 0 <= b.ep < |st.eps| && 0 <= Mate(b.ep) < |st.eps|
    && st.eps[b.ep].started
    && st.eps[b.ep].read == st.eps[Mate(b.ep)].delivered + b.lost
    && b.rbytes == |st.eps[b.ep].read| && b.wbytes == |st.eps[Mate(b.ep)].delivered|
    && forall j :: 0 <= j < k ==> st.bills[j].ep != b.ep
  }

  ghost predicate TableOk(st: Pool) {
    forall k :: k in st.waiting ==>
      Has(st, st.waiting[k]) && k == Decimal(st.waiting[k]) && st.relays[st.waiting[k]].status.Waiting?
  }

  ghost predicate CacheOk(st: Pool) {
    && (forall i {:trigger i in st.cache} :: i in st.cache ==> i < |st.relays|)
    && Distinct(st.cache)
  }

  /** At most one record is ever stranded, and only in a pool of odd size. */
  ghost predicate StrandOk(st: Pool) {
    && (forall i, j :: Stranded(st, i) && Stranded(st, j) ==> i == j)
    && forall i :: Stranded(st, i) ==> |st.relays| % 2 == 1
  }

  ghost predicate Sized(c: Config, st: Pool) {
    |st.relays| == c.maxrelay && |st.shown| == c.maxrelay && |st.eps| % 2 == 0
  }

  /** The invariant with a hole: relay h has just lost its peer.  -1 is no hole. */
  ghost predicate InvBut(c: Config, st: Pool, h: int) {
    && Sized(c, st) && TableOk(st) && CacheOk(st) && StrandOk(st)
    && Records(c, st) && Links(st, h) && Streams(st) && Endpoints(st) && Bills(st)
  }

  ghost predicate Records(c: Config, st: Pool) {
    && |st.shown| == |st.relays|
    && forall i {:trigger RecordOk(c, st, i)} :: 0 <= i < |st.relays| ==> RecordOk(c, st, i)
  }

  ghost predicate Links(st: Pool, h: int) {
    forall i {:trigger LinkOk(st, i)} :: 0 <= i < |st.relays| && i != h ==> LinkOk(st, i)
  }

  ghost predicate Streams(st: Pool) {
    forall i {:trigger StreamOk(st, i)} :: 0 <= i < |st.relays| ==> StreamOk(st, i)
  }

  ghost predicate Endpoints(st: Pool) {
    forall e {:trigger EndpointOk(st, e)} :: 0 <= e < |st.eps| ==> EndpointOk(st, e)
  }

  ghost predicate Bills(st: Pool) {
    forall k {:trigger BillOk(st, k)} :: 0 <= k < |st.bills| ==> BillOk(st, k)
  }

  ghost predicate Inv(c: Config, st: Pool) {
    InvBut(c, st, -1)
  }

  lemma InitInv(c: Config)
    ensures Inv(c, Init(c))
  {
    var st := Init(c);
    forall i | 0 <= i < |st.relays| ensures RecordOk(c, st, i) {
      assert st.cache[i] == i;
    }
  }

  // ---------------------------------------------------------------- reading and flushing

  /** Reading and flushing change only the byte cursors, masks and logs of the two ends
      i and p of one session. */
  ghost predicate Touched(st: Pool, st1: Pool, i: int, p: int) {
    && Paired(st, i) && Paired(st, p) && i != p
    && |st1.relays| == |st.relays| && |st1.eps| == |st.eps|
    && st1.cache == st.cache && st1.waiting == st.waiting && st1.shown == st.shown && st1.bills == st.bills
    && (forall j {:trigger st1.relays[j]} :: Has(st, j) && j != i && j != p ==> st1.relays[j] == st.relays[j])
    && SameEnd(st.relays[i], st1.relays[i]) && SameEnd(st.relays[p], st1.relays[p])
    && var e, m := st.relays[i].ep, st.relays[p].ep;
    && 0 <= e < |st.eps| && 0 <= m < |st.eps| && m == Mate(e)
    && (forall f {:trigger st1.eps[f]} :: 0 <= f < |st.eps| && f != e && f != m ==> st1.eps[f] == st.eps[f])
    && st1.eps[e].sid == st.eps[e].sid && st1.eps[e].started == st.eps[e].started
    && st1.eps[m].sid == st.eps[m].sid && st1.eps[m].started == st.eps[m].started
  }

  ghost predicate SameEnd(r: Relay, r1: Relay) {
    r1.status == r.status && r1.s == r.s && r1.ev == r.ev && r1.peer == r.peer && r1.ep == r.ep
  }

  lemma TouchedLinks(st: Pool, st1: Pool, i: int, p: int)
    requires Links(st, -1) && Touched(st, st1, i, p) && st.relays[i].peer == p
    requires LinkOk(st1, i) && LinkOk(st1, p)
    ensures Links(st1, -1)
  {
    assert LinkOk(st, i);
    forall j | 0 <= j < |st1.relays| && j != i && j != p ensures LinkOk(st1, j) {
      assert LinkOk(st, j);
    }
  }

  /** No endpoint belongs to two sessions. */
  lemma EndpointsApart(st: Pool, i: int, p: int, j: int)
    requires StreamOk(st, i) && StreamOk(st, p) && StreamOk(st, j)
    requires Paired(st, i) && Paired(st, p) && Paired(st, j) && j != i && j != p
    requires st.relays[p].ep == Mate(st.relays[i].ep)
    ensures var e, f := st.relays[i].ep, st.relays[j].ep;
            f != e && f != Mate(e) && Mate(f) != e && Mate(f) != Mate(e)
  {
    hide Flow;
    var e, f := st.relays[i].ep, st.relays[j].ep;
    assert st.eps[f].sid == j && st.eps[e].sid == i && st.eps[Mate(e)].sid == p;
  }

  lemma StreamApart(st: Pool, st1: Pool, i: int, p: int, j: int)
    requires Streams(st) && Touched(st, st1, i, p)
    requires 0 <= j < |st1.relays| && j != i && j != p
    ensures StreamOk(st1, j)
  {
    assert StreamOk(st, i) && StreamOk(st, p) && StreamOk(st, j);
    hide Streams, Flow;
    var r := st.relays[j];
    assert st1.relays[j] == r;
    if Paired(st1, j) {
      EndpointsApart(st, i, p, j);
      assert st1.eps[r.ep] == st.eps[r.ep] && st1.eps[Mate(r.ep)] == st.eps[Mate(r.ep)];
    }
  }

  lemma TouchedStreams(st: Pool, st1: Pool, i: int, p: int)
    requires Streams(st) && Touched(st, st1, i, p)
    requires StreamOk(st1, i) && StreamOk(st1, p)
    ensures Streams(st1)
  {
    hide StreamOk, Touched;
    forall j | 0 <= j < |st1.relays| && j != i && j != p ensures StreamOk(st1, j) {
      StreamApart(st, st1, i, p, j);
    }
  }

  lemma TouchedLive(st: Pool, st1: Pool, i: int, p: int, f: int)
    requires Touched(st, st1, i, p)
    ensures Live(st1, f) == Live(st, f) && Billed(st1, f) == Billed(st, f)
  {
  }

  /** An endpoint in use is not billed. */
  lemma InUse(c: Config, st: Pool, i: int)
    requires Records(c, st) && Streams(st) && Endpoints(st) && Paired(st, i)
    ensures 0 <= st.relays[i].ep < |st.eps| && !Billed(st, st.relays[i].ep)
  {
    assert StreamOk(st, i) && RecordOk(c, st, i) && EndpointOk(st, st.relays[i].ep);
  }

  lemma TouchedEndpoints(st: Pool, st1: Pool, i: int, p: int)
    requires Endpoints(st) && Touched(st, st1, i, p)
    requires EndpointOk(st1, st.relays[i].ep) && EndpointOk(st1, st.relays[p].ep)
    ensures Endpoints(st1)
  {
    forall f | 0 <= f < |st1.eps| && f != st.relays[i].ep && f != st.relays[p].ep ensures EndpointOk(st1, f) {
      assert EndpointOk(st, f);
      TouchedLive(st, st1, i, p, f);
    }
  }

  lemma TouchedBills(c: Config, st: Pool, st1: Pool, i: int, p: int)
    requires Records(c, st) && Streams(st) && Endpoints(st) && Bills(st) && Touched(st, st1, i, p)
    ensures Bills(st1)
  {
    InUse(c, st, i);
    InUse(c, st, p);
    forall k | 0 <= k < |st1.bills| ensures BillOk(st1, k) {
      assert BillOk(st, k);
    }
  }

  lemma TouchedRecords(c: Config, st: Pool, st1: Pool, i: int, p: int)
    requires Records(c, st) && Touched(st, st1, i, p)
    requires |st1.shown| == |st1.relays| && RecordOk(c, st1, i) && RecordOk(c, st1, p)
    ensures Records(c, st1)
  {
    forall j | 0 <= j < |st1.relays| && j != i && j != p ensures RecordOk(c, st1, j) {
      assert RecordOk(c, st, j);
    }
  }

  lemma TouchedTables(c: Config, st: Pool, st1: Pool, i: int, p: int)
    requires Sized(c, st) && TableOk(st) && CacheOk(st) && StrandOk(st) && Touched(st, st1, i, p)
    ensures Sized(c, st1) && TableOk(st1) && CacheOk(st1) && StrandOk(st1)
  {
    forall j | Stranded(st1, j) ensures Stranded(st, j) {}
  }

  /** It is enough to look at the two ends. */
  lemma TouchedInv(c: Config, st: Pool, st1: Pool, i: int, p: int)
    requires Inv(c, st) && Touched(st, st1, i, p) && st.relays[i].peer == p
    requires RecordOk(c, st1, i) && RecordOk(c, st1, p)
    requires LinkOk(st1, i) && LinkOk(st1, p) && StreamOk(st1, i) && StreamOk(st1, p)
    requires EndpointOk(st1, st.relays[i].ep) && EndpointOk(st1, st.relays[p].ep)
    ensures Inv(c, st1)
  {
    TouchedTables(c, st, st1, i, p);
    TouchedRecords(c, st, st1, i, p);
    TouchedLinks(st, st1, i, p);
    TouchedStreams(st, st1, i, p);
    TouchedEndpoints(st, st1, i, p);
    TouchedBills(c, st, st1, i, p);
  }

  /** The two ends of a live session, spelled out. */
  ghost predicate Ends(c: Config, st: Pool, i: int, p: int) {
    && Sized(c, st) && Has(st, i) && Has(st, p) && i != p
    && Paired(st, i) && Paired(st, p) && st.relays[i].peer == p && st.relays[p].peer == i
    && RecordOk(c, st, i) && RecordOk(c, st, p)
    && LinkOk(st, i) && LinkOk(st, p) && StreamOk(st, i) && StreamOk(st, p)
    && var e, m := st.relays[i].ep, st.relays[p].ep;
    && 0 <= e < |st.eps| && 0 <= m < |st.eps| && m == Mate(e) && e == Mate(m)
    && EndpointOk(st, e) && EndpointOk(st, m)
  }

  lemma EndsOf(c: Config, st: Pool, i: int)
    requires Inv(c, st) && Paired(st, i)
    ensures Ends(c, st, i, st.relays[i].peer)
  {
    var p := st.relays[i].peer;
    assert LinkOk(st, i) && RecordOk(c, st, i) && StreamOk(st, i);
    assert LinkOk(st, p) && RecordOk(c, st, p) && StreamOk(st, p);
    assert EndpointOk(st, st.relays[i].ep) && EndpointOk(st, st.relays[p].ep);
  }

  /** A change of cursors, masks and logs that keeps the two ends in order keeps the invariant. */
  lemma EndsInv(c: Config, st: Pool, st1: Pool, i: int, p: int)
    requires Inv(c, st) && Ends(c, st, i, p) && Touched(st, st1, i, p) && Ends(c, st1, i, p)
    ensures Inv(c, st1)
  {
    TouchedInv(c, st, st1, i, p);
  }

  /** Resetting the events field, which nothing else depends on. */
  lemma EventsKeep(c: Config, st: Pool, i: int)
    requires Inv(c, st) && Paired(st, i)
    ensures Inv(c, Set(st, i, st.relays[i].(events := NOTHING)))
  {
    EndsOf(c, st, i);
    EndsInv(c, st, Set(st, i, st.relays[i].(events := NOTHING)), i, st.relays[i].peer);
  }

  /** Each record by itself and each direction of the flow, after bytes moved. */
  ghost predicate FlowsAgain(c: Config, st: Pool, st1: Pool, i: int, p: int)
    requires Ends(c, st, i, p) && Touched(st, st1, i, p)
  {
    var e, m := st1.eps[st.relays[i].ep], st1.eps[st.relays[p].ep];
    && SelfOk(c, st1.relays[i]) && SelfOk(c, st1.relays[p])
    && Flow(st1.relays[i], e, m) && Flow(st1.relays[p], m, e)
    && (!e.started ==> e.delivered == st.eps[st.relays[i].ep].delivered)
    && (!m.started ==> m.delivered == st.eps[st.relays[p].ep].delivered)
  }

  lemma FlowPrefix(c: Config, r: Relay, e: Endpoint, m: Endpoint)
    requires SelfOk(c, r) && Flow(r, e, m)
    ensures m.delivered <= e.read && (!r.status.Active? ==> e.read == [])
  {
  }

  /** The two ends are in order again when each record and each direction of the flow is. */
  lemma EndsAgain(c: Config, st: Pool, st1: Pool, i: int, p: int)
    requires Ends(c, st, i, p) && Touched(st, st1, i, p)
    ensures FlowsAgain(c, st, st1, i, p) ==> Ends(c, st1, i, p)
  {
    hide Window, Flow, SelfOk;
    if FlowsAgain(c, st, st1, i, p) {
      var e, m := st.relays[i].ep, st.relays[p].ep;
      FlowPrefix(c, st1.relays[i], st1.eps[e], st1.eps[m]);
      FlowPrefix(c, st1.relays[p], st1.eps[m], st1.eps[e]);
      TouchedLive(st, st1, i, p, e);
      TouchedLive(st, st1, i, p, m);
      assert EndpointOk(st1, e) by { assert EndpointOk(st, e); }
      assert EndpointOk(st1, m) by { assert EndpointOk(st, m); }
    }
  }

  lemma Splice(s: seq<byte>, x2: nat, x1: nat, b: seq<byte>)
    requires x2 <= x1 && x1 + |b| <= |s|
    ensures (s[..x1] + b + s[x1 + |b|..])[x2..x1 + |b|] == s[x2..x1] + b
  {
  }

  lemma FilledOk(c: Config, r: Relay, b: seq<byte>, e: Endpoint, m: Endpoint)
    requires SelfOk(c, r) && r.status.Active? && Flow(r, e, m)
    requires b != [] && r.x1 + |b| <= |r.buf|
    ensures SelfOk(c, Filled(r, b))
    ensures Flow(Filled(r, b), e.(read := e.read + b), m)
  {
    Splice(r.buf, r.x2, r.x1, b);
  }

  /** Two different records in a session, playing mated endpoints. */
  ghost predicate Placed(st: Pool, i: int, p: int) {
    && Has(st, i) && Has(st, p) && Paired(st, i) && Paired(st, p) && i != p
    && var e, m := st.relays[i].ep, st.relays[p].ep;
    && 0 <= e < |st.eps| && 0 <= m < |st.eps| && m == Mate(e) && e != m
  }

  lemma EndsPlaced(c: Config, st: Pool, i: int, p: int)
    requires Ends(c, st, i, p)
    ensures Placed(st, i, p) && SelfOk(c, st.relays[i]) && SelfOk(c, st.relays[p])
    ensures Mate(st.relays[p].ep) == st.relays[i].ep
    ensures Flow(st.relays[i], st.eps[st.relays[i].ep], st.eps[st.relays[p].ep])
    ensures Flow(st.relays[p], st.eps[st.relays[p].ep], st.eps[st.relays[i].ep])
    ensures st.eps[st.relays[i].ep].started == st.relays[i].status.Active?
    ensures st.eps[st.relays[p].ep].started == st.relays[p].status.Active?
  {
  }

  /** What a read changes: the bytes taken enter the buffer and the log. */
  lemma ReadShape(st: Pool, i: int, p: int, rd: ReadResult)
    requires Placed(st, i, p) && 0 <= st.relays[i].x1 <= |st.relays[i].buf|
    ensures Read(st, i, rd).Ok?
    ensures var r := st.relays[i];
            var st1 := Read(st, i, rd).value.0;
            st1 == st ||
              (rd.Got? && r.x1 < |r.buf| &&
               var b := rd.bytes[..Min(|rd.bytes|, |r.buf| - r.x1)];
               && b != [] && Touched(st, st1, i, p)
               && st1.relays[i] == Filled(r, b) && st1.relays[p] == st.relays[p]
               && st1.eps[r.ep] == st.eps[r.ep].(read := st.eps[r.ep].read + b)
               && st1.eps[st.relays[p].ep] == st.eps[st.relays[p].ep])
  {
  }

  lemma ReadEnds(c: Config, st: Pool, i: int, p: int, rd: ReadResult)
    requires Ends(c, st, i, p) && st.relays[i].status.Active?
    ensures Read(st, i, rd).Ok?
    ensures var st1 := Read(st, i, rd).value.0;
            st1 == st || (Touched(st, st1, i, p) && Ends(c, st1, i, p))
  {
    hide Read, Filled, Window, RecordOk, LinkOk, StreamOk, EndpointOk;
    EndsPlaced(c, st, i, p);
    ReadShape(st, i, p, rd);
    var st1 := Read(st, i, rd).value.0;
    if st1 != st {
      var r := st.relays[i];
      var b := rd.bytes[..Min(|rd.bytes|, |r.buf| - r.x1)];
      FilledOk(c, r, b, st.eps[r.ep], st.eps[Mate(r.ep)]);
      EndsAgain(c, st, st1, i, p);
    }
  }

  /** Two records in one session, and how they are after bytes moved. */
  ghost predicate Mates(st: Pool, i: int, p: int) {
    Paired(st, i) && Paired(st, p) && i != p && st.relays[i].peer == p && st.relays[p].peer == i
  }

  ghost predicate StillMates(st: Pool, st1: Pool, i: int, p: int) {
    && Mates(st, i, p) && Mates(st1, i, p)
    && st1.relays[i].status == st.relays[i].status && st1.relays[p].status == st.relays[p].status
    && st1.relays[p].ev == st.relays[p].ev
  }

  lemma MatesOf(c: Config, st: Pool, i: int)
    requires Inv(c, st) && Paired(st, i)
    ensures Mates(st, i, st.relays[i].peer)
    ensures st.relays[st.relays[i].peer].ev == st.relays[st.relays[i].peer].status.Active?
    ensures 0 <= st.relays[i].x2 <= st.relays[i].x1
    ensures st.relays[i].status.Active? ==> st.relays[i].s >= 0
  {
    assert LinkOk(st, i) && RecordOk(c, st, st.relays[i].peer) && RecordOk(c, st, i);
  }

  lemma ReadKeeps(c: Config, st: Pool, i: int, rd: ReadResult)
    requires Inv(c, st) && Has(st, i) && st.relays[i].status.Active?
    ensures Read(st, i, rd).Ok? && Inv(c, Read(st, i, rd).value.0)
    ensures StillMates(st, Read(st, i, rd).value.0, i, st.relays[i].peer)
  {
    EndsOf(c, st, i);
    var p := st.relays[i].peer;
    ReadEnds(c, st, i, p, rd);
    if Read(st, i, rd).value.0 != st {
      EndsInv(c, st, Read(st, i, rd).value.0, i, p);
    }
  }

  /** No error other than EAGAIN. */
  predicate Clean(w: WriteResult) {
    w.Again? || w.Wrote?
  }

  lemma Halves(s: seq<byte>, x2: nat, x1: nat, n: nat)
    requires x2 + n <= x1 <= |s|
    ensures s[x2..x1] == s[x2..x1][..n] + s[x2 + n..x1]
  {
  }

  lemma AdvancedWindow(c: Config, r: Relay, n: nat)
    requires SelfOk(c, r) && n <= |Window(r)|
    ensures Window(Advance(r, n)) == Window(r)[n..]
  {
  }

  lemma AdvancedSelf(c: Config, r: Relay, n: nat)
    requires SelfOk(c, r) && (r.status.Active? || n == 0) && n <= |Window(r)|
    ensures SelfOk(c, Advance(r, n))
  {
  }

  lemma AdvancedOk(c: Config, r: Relay, n: nat, e: Endpoint, m: Endpoint)
    requires SelfOk(c, r) && (r.status.Active? || n == 0) && Flow(r, e, m)
    requires n <= |Window(r)|
    ensures SelfOk(c, Advance(r, n))
    ensures Flow(Advance(r, n), e, m.(delivered := m.delivered + Window(r)[..n]))
  {
    AdvancedSelf(c, r, n);
    AdvancedWindow(c, r, n);
    hide SelfOk, Window;
    var b := Window(r);
    Halves(b, 0, |b|, n);
    assert b[0..|b|] == b && m.delivered + (b[..n] + b[n..]) == (m.delivered + b[..n]) + b[n..];
  }

  lemma DisarmedEnds(c: Config, st: Pool, i: int, p: int)
    requires Ends(c, st, i, p) && st.relays[p].ev
    ensures Touched(st, Disarmed(st, i, p), i, p) && Ends(c, Disarmed(st, i, p), i, p)
  {
    EndsAgain(c, st, Disarmed(st, i, p), i, p);
  }

  lemma WrittenEnds(c: Config, st: Pool, i: int, p: int, w: WriteResult)
    requires Ends(c, st, i, p) && st.relays[p].ev && st.relays[i].x1 > 0
    requires c.repaired || Clean(w)
    ensures var st1 := Written(c, st, i, p, w).0;
            Touched(st, st1, i, p) && Ends(c, st1, i, p)
  {
    hide Written, Advance, Window, RecordOk, LinkOk, StreamOk, EndpointOk;
    EndsPlaced(c, st, i, p);
    var st1 := Written(c, st, i, p, w).0;
    var r := st.relays[i];
    var n := if w.Wrote? then Min(w.n, |Window(r)|) else 0;
    AdvancedOk(c, r, n, st.eps[r.ep], st.eps[Mate(r.ep)]);
    WrittenShape(c, st, i, p, w, n);
    ArmedOk(c, st.relays[p]);
    EndsAgain(c, st, st1, i, p);
  }

  lemma ArmedOk(c: Config, q: Relay)
    requires SelfOk(c, q) && q.ev
    ensures SelfOk(c, Arm(q)) && Window(Arm(q)) == Window(q)
  {
  }

  /** The two records after n bytes went out, and whether EPOLLOUT was set for the second. */
  ghost predicate Moved(st: Pool, st1: Pool, i: int, p: int, n: nat)
    requires Placed(st, i, p) && n <= |Window(st.relays[i])|
  {
    var r, q := st.relays[i], st.relays[p];
    && Touched(st, st1, i, p)
    && st1.relays[i] == Advance(r, n)
    && (st1.relays[p] == q || st1.relays[p] == Arm(q))
    && st1.eps[r.ep] == st.eps[r.ep]
    && st1.eps[q.ep] == st.eps[q.ep].(delivered := st.eps[q.ep].delivered + Window(r)[..n])
  }

  lemma WroteMoves(c: Config, st: Pool, i: int, p: int, k: nat)
    requires Placed(st, i, p)
    ensures Moved(st, Written(c, st, i, p, Wrote(k)).0, i, p, Min(k, |Window(st.relays[i])|))
  {
    hide Window, Paired, Mate, Decimal;
  }

  /** Setting EPOLLOUT for the second record moves no byte. */
  lemma ArmedMoves(st: Pool, i: int, p: int)
    requires Placed(st, i, p) && st.relays[i].x2 < st.relays[i].x1
    ensures Moved(st, Set(st, p, Arm(st.relays[p])), i, p, 0)
  {
    hide Window, Paired, Mate, Decimal;
    var r, q := st.relays[i], st.relays[p];
    assert Window(r)[..0] == [] && st.eps[q.ep].delivered + [] == st.eps[q.ep].delivered;
    assert Advance(r, 0) == r;
  }

  lemma FailedMoves(c: Config, st: Pool, i: int, p: int, w: WriteResult)
    requires Placed(st, i, p) && !w.Wrote? && (c.repaired || Clean(w)) && st.relays[i].x2 < st.relays[i].x1
    ensures Moved(st, Written(c, st, i, p, w).0, i, p, 0)
  {
    hide Moved, Paired;
    ArmedMoves(st, i, p);
    assert Advance(st.relays[i], 0) == st.relays[i];
    assert Set(st, i, st.relays[i]) == st;
  }

  /** What a write changes: n bytes leave the buffer and reach the peer's socket. */
  lemma WrittenShape(c: Config, st: Pool, i: int, p: int, w: WriteResult, n: nat)
    requires Placed(st, i, p) && (c.repaired || Clean(w)) && st.relays[i].x2 < st.relays[i].x1
    requires n == if w.Wrote? then Min(w.n, |Window(st.relays[i])|) else 0
    ensures Moved(st, Written(c, st, i, p, w).0, i, p, n)
  {
    hide Moved, Written, Window;
    if w.Wrote? {
      WroteMoves(c, st, i, p, w.n);
    } else {
      FailedMoves(c, st, i, p, w);
    }
  }

  lemma TouchedTwice(st: Pool, st1: Pool, st2: Pool, i: int, p: int)
    requires Touched(st, st1, i, p) && Touched(st1, st2, i, p)
    ensures Touched(st, st2, i, p)
  {
  }

  lemma FlushEnds(c: Config, st: Pool, i: int, p: int, w: WriteResult)
    requires Ends(c, st, i, p)
    requires c.repaired || Clean(w) || st.relays[i].x1 == 0 || !st.relays[p].ev
    ensures Flush(c, st, i, w).Ok?
    ensures var st1 := Flush(c, st, i, w).value.0;
            st1 == st || (Touched(st, st1, i, p) && Ends(c, st1, i, p))
  {
    if st.relays[p].ev {
      var st1 := Disarmed(st, i, p);
      DisarmedEnds(c, st, i, p);
      if st1.relays[i].x1 > 0 {
        WrittenEnds(c, st1, i, p, w);
        TouchedTwice(st, st1, Written(c, st1, i, p, w).0, i, p);
      }
    }
  }

  lemma FlushKeeps(c: Config, st: Pool, i: int, w: WriteResult)
    requires Inv(c, st) && Has(st, i)
    requires Mates(st, i, st.relays[i].peer)
    requires c.repaired || Clean(w) || st.relays[i].x1 == 0 || !st.relays[st.relays[i].peer].ev
    ensures Flush(c, st, i, w).Ok? && Inv(c, Flush(c, st, i, w).value.0)
    ensures StillMates(st, Flush(c, st, i, w).value.0, i, st.relays[i].peer)
  {
    EndsOf(c, st, i);
    var p := st.relays[i].peer;
    FlushEnds(c, st, i, p, w);
    if Flush(c, st, i, w).value.0 != st {
      EndsInv(c, st, Flush(c, st, i, w).value.0, i, p);
    }
  }

  // ---------------------------------------------------------------- shutting

  /** Relay i was shut: only its record, its entries and its bill are new. */
  ghost predicate Gone(st: Pool, st1: Pool, i: int) {
    && Paired(st, i) && |st1.relays| == |st.relays| && |st1.shown| == |st.shown| && i < |st.shown|
    && st1.relays[i].status.Idle?
    && (forall j {:trigger st1.relays[j]} :: Has(st, j) && j != i ==> st1.relays[j] == st.relays[j])
    && (forall j {:trigger st1.shown[j]} :: 0 <= j < |st.shown| && j != i ==> st1.shown[j] == st.shown[j])
    && (forall j {:trigger j in st1.cache} :: j != i ==> (j in st1.cache <==> j in st.cache))
    && st1.waiting == st.waiting - {Decimal(i)}
    && st1.eps == st.eps
    && st1.bills == st.bills + (if st.relays[i].status.Active? then [BillOf(st.relays[i])] else [])
  }

  lemma GonePaired(st: Pool, st1: Pool, i: int, j: int)
    requires Gone(st, st1, i)
    ensures Paired(st1, j) == (Paired(st, j) && j != i)
    ensures Stranded(st1, j) == Stranded(st, j)
  {
    if Decimal(j) == Decimal(i) {
      DecimalInjective(j, i);
    }
  }

  lemma GoneLinks(st: Pool, st1: Pool, i: int, h: int)
    requires Gone(st, st1, i) && Links(st, h)
    requires h == -1 || h == i
    requires h == i ==> Has(st, st.relays[i].peer) && !Paired(st, st.relays[i].peer)
    ensures Links(st1, if h == i then -1 else st.relays[i].peer)
  {
    forall j | 0 <= j < |st1.relays| && (h == i || j != st.relays[i].peer) ensures LinkOk(st1, j) {
      if j != i {
        assert LinkOk(st, j);
        GonePaired(st, st1, i, j);
        GonePaired(st, st1, i, st.relays[j].peer);
      }
    }
  }

  lemma GoneStreams(st: Pool, st1: Pool, i: int)
    requires Gone(st, st1, i) && Streams(st)
    ensures Streams(st1)
  {
    forall j | 0 <= j < |st1.relays| ensures StreamOk(st1, j) {
      assert StreamOk(st, j);
      GonePaired(st, st1, i, j);
    }
  }

  lemma GoneBilled(st: Pool, st1: Pool, i: int, f: int)
    requires Gone(st, st1, i)
    ensures Billed(st1, f) == (Billed(st, f) || (st.relays[i].status.Active? && f == st.relays[i].ep))
  {
    if Billed(st, f) {
      var k :| 0 <= k < |st.bills| && st.bills[k].ep == f;
      assert st1.bills[k].ep == f;
    }
    if st.relays[i].status.Active? && f == st.relays[i].ep {
      assert st1.bills[|st.bills|].ep == f;
    }
  }

  lemma GoneEndpoints(st: Pool, st1: Pool, i: int)
    requires Gone(st, st1, i) && Endpoints(st) && StreamOk(st, i)
    ensures Endpoints(st1)
  {
    forall f | 0 <= f < |st1.eps| ensures EndpointOk(st1, f) {
      assert EndpointOk(st, f);
      GoneBilled(st, st1, i, f);
    }
  }

  lemma GoneBills(c: Config, st: Pool, st1: Pool, i: int)
    requires Gone(st, st1, i) && Bills(st) && Records(c, st) && Streams(st) && Endpoints(st)
    ensures Bills(st1)
  {
    InUse(c, st, i);
    assert StreamOk(st, i);
    forall k | 0 <= k < |st1.bills| ensures BillOk(st1, k) {
      if k < |st.bills| {
        assert BillOk(st, k);
      }
    }
  }

  lemma GoneTables(c: Config, st: Pool, st1: Pool, i: int)
    requires Gone(st, st1, i) && Sized(c, st) && TableOk(st) && StrandOk(st)
    ensures Sized(c, st1) && TableOk(st1) && StrandOk(st1)
  {
    forall j ensures Stranded(st1, j) == Stranded(st, j) {
      GonePaired(st, st1, i, j);
    }
  }

  /** What shutting an end of a session does to the records. */
  lemma ShutGone(c: Config, st: Pool, i: int)
    requires Sized(c, st) && TableOk(st) && Records(c, st)
    requires Paired(st, i) && (c.repaired || st.relays[i].status.Active?)
    ensures Shut(c, st, i).Ok? && Gone(st, Shut(c, st, i).value, i)
  {
    assert RecordOk(c, st, i);
    if Decimal(i) in st.waiting {
      DecimalInjective(i, st.waiting[Decimal(i)]);
    }
    assert Shut(c, st, i).value.waiting == st.waiting - {Decimal(i)};
  }

  lemma ShutRecords(c: Config, st: Pool, i: int)
    requires Sized(c, st) && CacheOk(st) && Records(c, st) && Paired(st, i)
    requires Shut(c, st, i).Ok? && Gone(st, Shut(c, st, i).value, i)
    ensures Records(c, Shut(c, st, i).value) && CacheOk(Shut(c, st, i).value)
  {
    assert RecordOk(c, st, i);
    var st1 := Shut(c, st, i).value;
    forall j | 0 <= j < |st1.relays| ensures RecordOk(c, st1, j) {
      assert RecordOk(c, st, j);
    }
  }

  /** Shutting one end of a session makes a hole where its peer is; shutting the peer closes
      the hole. */
  lemma ShutKeeps(c: Config, st: Pool, i: int, h: int)
    requires InvBut(c, st, h) && Paired(st, i) && (c.repaired || st.relays[i].status.Active?)
    requires h == -1 || (h == i && Has(st, st.relays[i].peer) && !Paired(st, st.relays[i].peer))
    ensures Shut(c, st, i).Ok? && Gone(st, Shut(c, st, i).value, i)
    ensures InvBut(c, Shut(c, st, i).value, if h == i then -1 else st.relays[i].peer)
  {
    assert StreamOk(st, i);
    hide Shut, Gone, Records, Streams, Endpoints, Bills, Links, TableOk, CacheOk, StrandOk, Sized;
    ShutGone(c, st, i);
    ShutRecords(c, st, i);
    var st1 := Shut(c, st, i).value;
    GoneLinks(st, st1, i, h);
    GoneStreams(st, st1, i);
    GoneEndpoints(st, st1, i);
    GoneBills(c, st, st1, i);
    GoneTables(c, st, st1, i);
  }

  /** Relay i and its peer p are back in the pool and nothing else moved. */
  ghost predicate BothGone(st: Pool, st1: Pool, i: int, p: int) {
    && Paired(st, i) && Paired(st, p) && |st1.relays| == |st.relays|
    && st1.relays[i].status.Idle? && st1.relays[p].status.Idle?
    && (forall j {:trigger st1.relays[j]} :: Has(st, j) && j != i && j != p ==> st1.relays[j] == st.relays[j])
    && st1.waiting == st.waiting - {Decimal(i), Decimal(p)}
    && st1.eps == st.eps
  }

  /** Shutting a relay and then its peer keeps the invariant.  As the code is written this
      takes both ends to be connected. */
  lemma TeardownKeeps(c: Config, st: Pool, i: int)
    requires Inv(c, st) && Paired(st, i)
    requires c.repaired || (Mates(st, i, st.relays[i].peer) &&
                            st.relays[i].status.Active? && st.relays[st.relays[i].peer].status.Active?)
    ensures Teardown(c, st, i).Ok? && Inv(c, Teardown(c, st, i).value)
    ensures Has(st, st.relays[i].peer)
    ensures BothGone(st, Teardown(c, st, i).value, i, st.relays[i].peer)
  {
    assert LinkOk(st, i);
    hide InvBut, Shut;
    var p := st.relays[i].peer;
    ShutKeeps(c, st, i, -1);
    var st1 := Shut(c, st, i).value;
    GonePaired(st, st1, i, p);
    GonePaired(st, st1, i, i);
    assert st1.relays[p] == st.relays[p];
    ShutKeeps(c, st1, p, p);
  }

  /** In the repaired engine shutting an idle pair does nothing. */
  lemma TeardownIdle(c: Config, st: Pool, i: int)
    requires c.repaired && Has(st, i) && st.relays[i].status.Idle?
    requires Has(st, st.relays[i].peer) && st.relays[st.relays[i].peer].status.Idle?
    ensures Teardown(c, st, i) == Ok(st)
  {
  }
}
