/** What a whole run adds up to: histories only grow, and every byte read is delivered, buffered
    or written off. */
module RelayLedger {
  import opened Prelude
  import opened Relay
  import opened RelayInv
  import opened RelayReserve
  import opened RelayRuns

  // ---------------------------------------------------------------- histories

  /** Later logs extend earlier ones. */
  ghost predicate Grows(st: Pool, st1: Pool) {
    && |st.eps| <= |st1.eps| && st.bills <= st1.bills
    && forall e {:trigger st1.eps[e]} :: 0 <= e < |st.eps| ==>
         && st1.eps[e].sid == st.eps[e].sid
         && (st.eps[e].started ==> st1.eps[e].started)
         && st.eps[e].read <= st1.eps[e].read
         && st.eps[e].delivered <= st1.eps[e].delivered
  }

  lemma GrowsTwice(st: Pool, st1: Pool, st2: Pool)
    requires Grows(st, st1) && Grows(st1, st2)
    ensures Grows(st, st2)
  {
    forall e | 0 <= e < |st.eps|
      ensures st2.eps[e].sid == st.eps[e].sid && (st.eps[e].started ==> st2.eps[e].started)
      ensures st.eps[e].read <= st2.eps[e].read && st.eps[e].delivered <= st2.eps[e].delivered {
      assert st1.eps[e].sid == st.eps[e].sid;
    }
  }

  lemma FlushGrows(c: Config, st: Pool, i: int, w: WriteResult)
    requires Has(st, i) && Flush(c, st, i, w).Ok?
    ensures Grows(st, Flush(c, st, i, w).value.0)
  {
  }

  lemma TeardownGrows(c: Config, st: Pool, i: int)
    requires Has(st, i) && Teardown(c, st, i).Ok?
    ensures Grows(st, Teardown(c, st, i).value)
  {
  }

  lemma AfterReadGrows(c: Config, st: Pool, i: int, fatal: bool, w: WriteResult, w2: WriteResult)
    requires Has(st, i) && AfterRead(c, st, i, fatal, w, w2).Ok?
    ensures Grows(st, AfterRead(c, st, i, fatal, w, w2).value)
  {
    var p := st.relays[i].peer;
    if fatal || (Has(st, p) && st.relays[p].status.Active?) {
      FlushGrows(c, st, i, w);
      var (st2, cc) := Flush(c, st, i, w).value;
      if fatal {
        TeardownGrows(c, st2, i);
        GrowsTwice(st, st2, Teardown(c, st2, i).value);
      } else if cc < 0 && w.WriteFail? {
        FlushGrows(c, st2, p, w2);
        var st3 := Flush(c, st2, p, w2).value.0;
        TeardownGrows(c, st3, i);
        GrowsTwice(st, st2, st3);
        GrowsTwice(st, st3, Teardown(c, st3, i).value);
      }
    }
  }

  lemma {:induction false} ShutAllGrows(c: Config, st: Pool, u: seq<nat>)
    requires ShutAll(c, st, u).Ok?
    ensures Grows(st, ShutAll(c, st, u).value)
    decreases |u|
  {
    if u != [] {
      var i := u[|u| - 1];
      var st1 := if c.repaired then Teardown(c, st, i).value else Shut(c, st, i).value;
      if c.repaired {
        TeardownGrows(c, st, i);
      }
      ShutAllGrows(c, st1, u[..|u| - 1]);
      GrowsTwice(st, st1, ShutAll(c, st1, u[..|u| - 1]).value);
    }
  }

  /** No event takes back a byte, a start or a bill, whichever way the code is read. */
  lemma StepGrows(c: Config, st: Pool, e: Event)
    requires Step(c, st, e).Ok?
    ensures Grows(st, Step(c, st, e).value)
  {
    hide AfterRead, Flush, Teardown, ShutAll;
    if Possible(st, e) {
      match e
      case EvReadable(i, rd, w, w2) =>
        if st.relays[i].s >= 0 {
          var (st1, fatal) := ReadPart(st, i, rd).value;
          AfterReadGrows(c, st1, i, fatal, w, w2);
          GrowsTwice(st, st1, AfterRead(c, st1, i, fatal, w, w2).value);
        }
      case EvWritable(i, w) => FlushGrows(c, st, st.relays[i].peer, w);
      case EvHangup(i) => TeardownGrows(c, st, i);
      case EvFindIdle(now, walk) => ShutAllGrows(c, st, Expired(st, walk, now));
      case _ =>
    }
  }

  // ---------------------------------------------------------------- conservation

  function Sum<T>(s: seq<T>, f: T -> int): int {
    if s == [] then 0 else Sum(s[..|s| - 1], f) + f(s[|s| - 1])
  }

  lemma {:induction false} SumSet<T>(s: seq<T>, f: T -> int, i: nat, v: T)
    requires i < |s|
    ensures Sum(s[i := v], f) == Sum(s, f) - f(s[i]) + f(v)
  {
    var t := s[i := v];
    if i == |s| - 1 {
      assert t[..|t| - 1] == s[..|s| - 1];
    } else {
      assert t[..|t| - 1] == s[..|s| - 1][i := v];
      SumSet(s[..|s| - 1], f, i, v);
    }
  }

  lemma SumAppend<T>(s: seq<T>, f: T -> int, v: T)
    ensures Sum(s + [v], f) == Sum(s, f) + f(v)
  {
    assert (s + [v])[..|s|] == s;
  }

  function ReadSize(e: Endpoint): int { |e.read| }
  function DeliveredSize(e: Endpoint): int { |e.delivered| }
  function WindowSize(r: Relay): int { |Window(r)| }
  function LostSize(b: Bill): int { |b.lost| }

  function TotalRead(st: Pool): int { Sum(st.eps, ReadSize) }
  function TotalDelivered(st: Pool): int { Sum(st.eps, DeliveredSize) }
  function TotalBuffered(st: Pool): int { Sum(st.relays, WindowSize) }
  function TotalLost(st: Pool): int { Sum(st.bills, LostSize) }

  /** Bytes read less the bytes accounted for. */
  function Balance(st: Pool): int {
    TotalRead(st) - TotalDelivered(st) - TotalBuffered(st) - TotalLost(st)
  }

  lemma SetBuffered(st: Pool, i: nat, r: Relay)
    requires Has(st, i)
    ensures TotalBuffered(Set(st, i, r)) == TotalBuffered(st) - |Window(st.relays[i])| + |Window(r)|
  {
    SumSet(st.relays, WindowSize, i, r);
  }

  lemma FilledBalance(c: Config, st: Pool, i: int, b: seq<byte>)
    requires Has(st, i) && SelfOk(c, st.relays[i]) && 0 <= st.relays[i].ep < |st.eps|
    requires st.relays[i].x1 + |b| <= |st.relays[i].buf|
    ensures Balance(Set(st, i, Filled(st.relays[i], b)).(eps := LogRead(st.eps, st.relays[i].ep, b))) == Balance(st)
  {
    var r := st.relays[i];
    var e := st.eps[r.ep];
    SetBuffered(st, i, Filled(r, b));
    SumSet(st.eps, ReadSize, r.ep, e.(read := e.read + b));
    SumSet(st.eps, DeliveredSize, r.ep, e.(read := e.read + b));
    assert |Window(Filled(r, b))| == |Window(r)| + |b|;
  }

  /** The bytes that a read takes; none when there is nothing to read or no room. */
  function BytesRead(r: Relay, rd: ReadResult): seq<byte> {
    if rd.Got? && 0 <= r.x1 < |r.buf| then rd.bytes[..Min(|rd.bytes|, |r.buf| - r.x1)] else []
  }

  lemma ReadOutcome(st: Pool, i: int, rd: ReadResult)
    requires Has(st, i) && 0 <= st.relays[i].x1 <= |st.relays[i].buf|
    ensures Read(st, i, rd).Ok?
    ensures var st1, b := Read(st, i, rd).value.0, BytesRead(st.relays[i], rd);
            && st.relays[i].x1 + |b| <= |st.relays[i].buf|
            && st1 == if b == [] then st
                      else Set(st, i, Filled(st.relays[i], b)).(eps := LogRead(st.eps, st.relays[i].ep, b))
  {
    hide Filled, LogRead;
  }

  lemma ReadBalance(c: Config, st: Pool, i: int, rd: ReadResult)
    requires Inv(c, st) && Has(st, i) && st.relays[i].status.Active?
    ensures ReadPart(st, i, rd).Ok? && Balance(ReadPart(st, i, rd).value.0) == Balance(st)
  {
    assert RecordOk(c, st, i) && StreamOk(st, i);
    hide Inv, RecordOk, StreamOk, Read, Filled, LogRead, Window, Balance, BytesRead;
    var st0 := Set(st, i, st.relays[i].(events := NOTHING));
    QuietBalance(st, i);
    ReadOutcome(st0, i, rd);
    FilledBalance(c, st0, i, BytesRead(st0.relays[i], rd));
  }

  lemma QuietBalance(st: Pool, i: int)
    requires Has(st, i)
    ensures Balance(Set(st, i, st.relays[i].(events := NOTHING))) == Balance(st)
  {
    SetBuffered(st, i, st.relays[i].(events := NOTHING));
    assert Window(st.relays[i].(events := NOTHING)) == Window(st.relays[i]);
  }

  lemma WrittenBalance(c: Config, st: Pool, i: int, p: int, w: WriteResult)
    requires Has(st, i) && Has(st, p) && i != p && (c.repaired || Clean(w))
    requires SelfOk(c, st.relays[i]) && st.relays[i].x1 > 0 && 0 <= st.relays[p].ep < |st.eps|
    ensures Balance(Written(c, st, i, p, w).0) == Balance(st)
  {
    var r, q := st.relays[i], st.relays[p];
    var b := if w.Wrote? then Window(r)[..Min(w.n, |Window(r)|)] else [];
    var r1 := if w.Again? then r else Advance(r, |b|);
    var e := st.eps[q.ep];
    SetBuffered(st, i, r1);
    SetBuffered(Set(st, i, r1), p, Arm(q));
    SetBuffered(st, p, Arm(q));
    SumSet(st.eps, ReadSize, q.ep, e.(delivered := e.delivered + b));
    SumSet(st.eps, DeliveredSize, q.ep, e.(delivered := e.delivered + b));
  }

  lemma DisarmedBalance(st: Pool, i: int, p: int)
    requires Has(st, i) && Has(st, p) && i != p
    ensures Balance(Disarmed(st, i, p)) == Balance(st)
  {
    hide Window;
    var q := Disarm(st.relays[p]);
    SetBuffered(st, p, q);
    SetBuffered(Set(st, p, q), i, Disarmed(st, i, p).relays[i]);
    SameWindow(st.relays[p], q);
    SameWindow(st.relays[i], Disarmed(st, i, p).relays[i]);
  }

  lemma SameWindow(r: Relay, r1: Relay)
    requires r1.buf == r.buf && r1.x1 == r.x1 && r1.x2 == r.x2
    ensures Window(r1) == Window(r)
  {
  }

  lemma FlushBalance(c: Config, st: Pool, i: int, w: WriteResult)
    requires Inv(c, st) && Has(st, i) && Mates(st, i, st.relays[i].peer)
    requires c.repaired || FlushSafe(st, i, w)
    ensures Flush(c, st, i, w).Ok? && Balance(Flush(c, st, i, w).value.0) == Balance(st)
  {
    FlushKeeps(c, st, i, w);
    var p := st.relays[i].peer;
    assert RecordOk(c, st, i) && StreamOk(st, p);
    hide Inv, Written, Window, Balance;
    DisarmedBalance(st, i, p);
    if st.relays[p].ev && st.relays[i].x1 > 0 {
      WrittenBalance(c, Disarmed(st, i, p), i, p, w);
    }
  }

  /** As written, a flush accounts for every byte exactly when it is safe: a write that fails
      moves the cursor, and with it the count of what is buffered. */
  lemma FlushBalanceExact(c: Config, st: Pool, i: int, w: WriteResult)
    requires Inv(c, st) && Paired(st, i) && !c.repaired
    ensures Flush(c, st, i, w).Ok?
    ensures Balance(Flush(c, st, i, w).value.0) == Balance(st) <==> FlushSafe(st, i, w)
  {
    MatesOf(c, st, i);
    if FlushSafe(st, i, w) {
      FlushBalance(c, st, i, w);
    } else {
      var p := st.relays[i].peer;
      assert RecordOk(c, st, i) && RecordOk(c, st, p);
      var st1 := Disarmed(st, i, p);
      var r := st1.relays[i];
      SetBuffered(st, p, Disarm(st.relays[p]));
      SetBuffered(Set(st, p, Disarm(st.relays[p])), i, r);
      SetBuffered(st1, i, Advance(r, -1));
      var st2 := Set(st1, i, Advance(r, -1));
      SetBuffered(st2, p, Arm(st2.relays[p]));
    }
  }

  lemma ShutBalance(c: Config, st: Pool, i: int)
    requires Has(st, i) && Shut(c, st, i).Ok?
    ensures Balance(Shut(c, st, i).value) == Balance(st)
  {
    var r := st.relays[i];
    var st1 := Shut(c, st, i).value;
    if st1.bills == st.bills {
      SetBuffered(st, i, r.(status := Idle));
      assert Window(r.(status := Idle)) == Window(r);
    } else {
      SetBuffered(st, i, Closed(r));
      SumAppend(st.bills, LostSize, BillOf(r));
      assert Window(Closed(r)) == [];
    }
  }

  lemma TeardownBalance(c: Config, st: Pool, i: int)
    requires Has(st, i) && Teardown(c, st, i).Ok?
    ensures Balance(Teardown(c, st, i).value) == Balance(st)
  {
    ShutBalance(c, st, i);
    ShutBalance(c, Shut(c, st, i).value, st.relays[i].peer);
  }

  lemma AfterReadBalance(c: Config, st: Pool, i: int, fatal: bool, w: WriteResult, w2: WriteResult)
    requires Inv(c, st) && Has(st, i) && Mates(st, i, st.relays[i].peer) && st.relays[i].status.Active?
    requires c.repaired || (FlushSafe(st, i, w) && (fatal ==> TeardownSafe(st, i)))
    requires AfterRead(c, st, i, fatal, w, w2).Ok?
    ensures Balance(AfterRead(c, st, i, fatal, w, w2).value) == Balance(st)
  {
    var p := st.relays[i].peer;
    FlushKeeps(c, st, i, w);
    FlushBalance(c, st, i, w);
    var (st2, cc) := Flush(c, st, i, w).value;
    if fatal {
      TeardownBalance(c, st2, i);
    } else if st.relays[p].status.Active? && cc < 0 && w.WriteFail? {
      FlushBalance(c, st2, p, w2);
      TeardownBalance(c, Flush(c, st2, p, w2).value.0, i);
    }
  }

  lemma {:induction false} ShutAllBalance(c: Config, st: Pool, u: seq<nat>)
    requires ShutAll(c, st, u).Ok?
    ensures Balance(ShutAll(c, st, u).value) == Balance(st)
    decreases |u|
  {
    if u != [] {
      var i := u[|u| - 1];
      var st1 := if c.repaired then Teardown(c, st, i).value else Shut(c, st, i).value;
      if c.repaired {
        TeardownBalance(c, st, i);
      } else {
        ShutBalance(c, st, i);
      }
      ShutAllBalance(c, st1, u[..|u| - 1]);
    }
  }

  lemma OpenedSums(st: Pool, a: nat, b: nat)
    ensures Sum(Opened(st.eps, a, b), ReadSize) == TotalRead(st)
    ensures Sum(Opened(st.eps, a, b), DeliveredSize) == TotalDelivered(st)
  {
    var ea, eb := Endpoint(a, [], [], false), Endpoint(b, [], [], false);
    assert Opened(st.eps, a, b) == (st.eps + [ea]) + [eb];
    SumAppend(st.eps, ReadSize, ea);
    SumAppend(st.eps + [ea], ReadSize, eb);
    SumAppend(st.eps, DeliveredSize, ea);
    SumAppend(st.eps + [ea], DeliveredSize, eb);
  }

  lemma JoinedBalance(c: Config, st: Pool, st1: Pool, a: nat, b: nat)
    requires Records(c, st) && Joined(c, st, st1, a, b)
    ensures Balance(st1) == Balance(st)
  {
    assert RecordOk(c, st, a) && RecordOk(c, st, b);
    OpenedSums(st, a, b);
    SetBuffered(st, a, st1.relays[a]);
    SetBuffered(Set(st, a, st1.relays[a]), b, st1.relays[b]);
    assert st1.relays == st.relays[a := st1.relays[a]][b := st1.relays[b]];
    assert Window(st1.relays[a]) == [] && Window(st1.relays[b]) == [];
  }

  lemma GetPeerBalance(c: Config, st: Pool, now: int)
    requires Inv(c, st)
    ensures GetPeer(c, st, now).Ok? && Balance(GetPeer(c, st, now).value.0) == Balance(st)
  {
    GetPeerVerdict(c, st, now);
    var (st1, answer) := GetPeer(c, st, now).value;
    if answer.Some? {
      JoinedBalance(c, st, st1, answer.value.0, answer.value.1);
    } else if st1 != st {
      NextIdleBound(st, 0);
      var a := st.cache[NextIdle(st, 0)];
      assert RecordOk(c, st, a);
      SetBuffered(st, a, st1.relays[a]);
    }
  }

  lemma StartBalance(c: Config, st: Pool, sid: int, sock: int)
    requires Inv(c, st) && sock >= 0
    ensures Start(st, sid, sock).Ok? && Balance(Start(st, sid, sock).value.0) == Balance(st)
  {
    StartVerdict(c, st, sid, sock);
    var (st1, answer) := Start(st, sid, sock).value;
    if answer.Some? {
      var e := st.relays[sid].ep;
      assert StreamOk(st, sid);
      SetBuffered(st, sid, st1.relays[sid]);
      SumSet(st.eps, ReadSize, e, st1.eps[e]);
      SumSet(st.eps, DeliveredSize, e, st1.eps[e]);
    }
  }

  lemma StepBalance(c: Config, st: Pool, e: Event)
    requires Inv(c, st) && Safe(c, st, e) && Step(c, st, e).Ok?
    ensures Balance(Step(c, st, e).value) == Balance(st)
  {
    if Possible(st, e) {
      match e
      case EvGetPeer(now) => GetPeerBalance(c, st, now);
      case EvStart(sid, sock) => StartBalance(c, st, sid, sock);
      case EvReadable(i, rd, w, w2) =>
        MatesOf(c, st, i);
        ReadPartKeeps(c, st, i, rd);
        ReadBalance(c, st, i, rd);
        var (st1, fatal) := ReadPart(st, i, rd).value;
        AfterReadBalance(c, st1, i, fatal, w, w2);
      case EvWritable(i, w) =>
        MatesOf(c, st, i);
        FlushBalance(c, st, st.relays[i].peer, w);
      case EvHangup(i) => TeardownBalance(c, st, i);
      case EvFindIdle(now, walk) => ShutAllBalance(c, st, Expired(st, walk, now));
    }
  }

  lemma {:induction false} FreshBuffered(c: Config, n: nat)
    ensures Sum(seq(n, _ => Fresh(c)), WindowSize) == 0
  {
    var s := seq(n, _ => Fresh(c));
    if n > 0 {
      FreshBuffered(c, n - 1);
      assert s[..n - 1] == seq(n - 1, _ => Fresh(c));
      assert Window(s[n - 1]) == [];
    }
  }

  /** Over any safe run: bytes read from all sockets = bytes delivered to all sockets + bytes now
      in buffers + bytes written off in bills. */
  lemma {:induction false} Conservation(c: Config, evs: seq<Event>)
    requires SafeRun(c, evs)
    ensures Run(c, evs).Ok?
    ensures var st := Run(c, evs).value;
            TotalRead(st) == TotalDelivered(st) + TotalBuffered(st) + TotalLost(st)
    decreases |evs|
  {
    RunKeeps(c, evs);
    if evs == [] {
      FreshBuffered(c, c.maxrelay);
    } else {
      var before := evs[..|evs| - 1];
      RunKeeps(c, before);
      Conservation(c, before);
      StepBalance(c, Run(c, before).value, evs[|evs| - 1]);
    }
  }
}
