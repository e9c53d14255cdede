/** No lost wakeups: between two connected ends, the receiving end is registered for EPOLLOUT
    exactly when the sending end's buffer holds bytes that a flush left over. */
module RelayWakeup {
  import opened Prelude
  import opened Relay
  import opened RelayInv
  import opened RelayReserve
  import opened RelayRuns

  /** From r to its peer q. */
  ghost predicate Wakeup(r: Relay, q: Relay) {
    && (q.status.Active? ==> (q.bits.wr <==> r.flushed && r.x1 > 0))
    && (r.flushed ==> q.status.Active? && r.status.Active?)
  }

  ghost predicate WakeOk(st: Pool, i: int) {
    Paired(st, i) ==> Has(st, st.relays[i].peer) && Wakeup(st.relays[i], st.relays[st.relays[i].peer])
  }

  /** Every direction but the one from h; -1 excepts none. */
  ghost predicate Wakes(st: Pool, h: int) {
    forall i {:trigger WakeOk(st, i)} :: 0 <= i < |st.relays| && i != h ==> WakeOk(st, i)
  }

  /** Only the records i and p changed, and they stayed each other's peers. */
  lemma OthersWake(c: Config, st: Pool, st1: Pool, i: int, p: int, h: int)
    requires Inv(c, st) && StillMates(st, st1, i, p) && Wakes(st, h) && (h == -1 || h == i)
    requires |st1.relays| == |st.relays| && st1.waiting == st.waiting
    requires forall j {:trigger st1.relays[j]} :: Has(st, j) && j != i && j != p ==> st1.relays[j] == st.relays[j]
    requires WakeOk(st1, p)
    ensures Wakes(st1, i)
  {
    forall j | 0 <= j < |st1.relays| && j != i && j != p ensures WakeOk(st1, j) {
      assert WakeOk(st, j) && LinkOk(st, j);
    }
  }

  lemma ReadWakes(c: Config, st: Pool, i: int, rd: ReadResult)
    requires Inv(c, st) && Wakes(st, -1) && Has(st, i) && st.relays[i].status.Active?
    ensures ReadPart(st, i, rd).Ok? && Wakes(ReadPart(st, i, rd).value.0, i)
    ensures var st1 := ReadPart(st, i, rd).value.0;
            && Has(st1, st1.relays[i].peer)
            && (!st1.relays[st1.relays[i].peer].status.Active? ==> WakeOk(st1, i))
  {
    ReadPartKeeps(c, st, i, rd);
    MatesOf(c, st, i);
    assert WakeOk(st, i) && WakeOk(st, st.relays[i].peer);
    OthersWake(c, st, ReadPart(st, i, rd).value.0, i, st.relays[i].peer, -1);
  }

  lemma FlushOthers(c: Config, st: Pool, i: int, w: WriteResult)
    requires Has(st, i) && Flush(c, st, i, w).Ok?
    ensures var st1 := Flush(c, st, i, w).value.0;
            && |st1.relays| == |st.relays| && st1.waiting == st.waiting
            && forall j {:trigger st1.relays[j]} :: Has(st, j) && j != i && j != st.relays[i].peer ==>
                 st1.relays[j] == st.relays[j]
  {
    hide Window, LogDelivered;
  }

  /** Both directions between i and its peer, once i is flushed. */
  lemma FlushWakesEnds(c: Config, st: Pool, i: int, w: WriteResult)
    requires Inv(c, st) && Has(st, i) && Mates(st, i, st.relays[i].peer)
    requires WakeOk(st, st.relays[i].peer) && (st.relays[st.relays[i].peer].status.Active? || WakeOk(st, i))
    requires c.repaired || Clean(w) || st.relays[i].x1 == 0 || !st.relays[st.relays[i].peer].ev
    ensures Flush(c, st, i, w).Ok?
    ensures WakeOk(Flush(c, st, i, w).value.0, i) && WakeOk(Flush(c, st, i, w).value.0, st.relays[i].peer)
    ensures st.relays[i].status.Active? && st.relays[st.relays[i].peer].status.Active? ==>
              Flush(c, st, i, w).value.0.relays[i].flushed
  {
    FlushKeeps(c, st, i, w);
    MatesOf(c, st, i);
    var st1 := Flush(c, st, i, w).value.0;
    assert RecordOk(c, st1, i) && RecordOk(c, st, i);
    hide Inv, LogDelivered;
  }

  lemma FlushWakes(c: Config, st: Pool, i: int, w: WriteResult)
    requires Inv(c, st) && Has(st, i) && Mates(st, i, st.relays[i].peer) && Wakes(st, i)
    requires st.relays[st.relays[i].peer].status.Active? || WakeOk(st, i)
    requires c.repaired || Clean(w) || st.relays[i].x1 == 0 || !st.relays[st.relays[i].peer].ev
    ensures Flush(c, st, i, w).Ok? && Wakes(Flush(c, st, i, w).value.0, -1)
    ensures st.relays[i].status.Active? && st.relays[st.relays[i].peer].status.Active? ==>
              Flush(c, st, i, w).value.0.relays[i].flushed
  {
    hide Inv, Flush, Wakeup;
    var p := st.relays[i].peer;
    assert WakeOk(st, p);
    FlushKeeps(c, st, i, w);
    FlushWakesEnds(c, st, i, w);
    FlushOthers(c, st, i, w);
    OthersWake(c, st, Flush(c, st, i, w).value.0, i, p, i);
  }

  lemma TeardownWakes(c: Config, st: Pool, i: int)
    requires Inv(c, st) && Paired(st, i) && Wakes(st, -1) && (c.repaired || TeardownSafe(st, i))
    ensures Teardown(c, st, i).Ok? && Wakes(Teardown(c, st, i).value, -1)
  {
    SessionEnds(c, st, i);
    var st1 := Teardown(c, st, i).value;
    forall j | 0 <= j < |st1.relays| ensures WakeOk(st1, j) {
      assert WakeOk(st, j);
      if Paired(st1, j) {
        MatesOf(c, st, j);
        assert Paired(st1, st.relays[j].peer) by { MatesOf(c, st1, j); }
      }
    }
  }

  lemma AfterReadWakes(c: Config, st: Pool, i: int, fatal: bool, w: WriteResult, w2: WriteResult)
    requires Inv(c, st) && Has(st, i) && Mates(st, i, st.relays[i].peer) && st.relays[i].status.Active?
    requires Wakes(st, i) && (c.repaired || (FlushSafe(st, i, w) && (fatal ==> TeardownSafe(st, i))))
    requires st.relays[st.relays[i].peer].status.Active? || WakeOk(st, i)
    ensures AfterRead(c, st, i, fatal, w, w2).Ok? && Wakes(AfterRead(c, st, i, fatal, w, w2).value, -1)
  {
    var p := st.relays[i].peer;
    FlushKeeps(c, st, i, w);
    FlushWakes(c, st, i, w);
    var (st2, cc) := Flush(c, st, i, w).value;
    if fatal {
      TeardownWakes(c, st2, i);
    } else if st.relays[p].status.Active? && cc < 0 && w.WriteFail? {
      FlushKeeps(c, st2, p, w2);
      FlushWakes(c, st2, p, w2);
      TeardownWakes(c, Flush(c, st2, p, w2).value.0, i);
    }
  }

  lemma {:induction false} ShutAllWakes(c: Config, st: Pool, u: seq<nat>)
    requires Inv(c, st) && Wakes(st, -1) && c.repaired
    requires forall i :: i in u ==> Paired(st, i) || Out(st, i)
    ensures ShutAll(c, st, u).Ok? && Wakes(ShutAll(c, st, u).value, -1)
    decreases |u|
  {
    if u != [] {
      var i, v := u[|u| - 1], u[..|u| - 1];
      assert u == v + [i];
      TeardownEnds(c, st, i);
      if Paired(st, i) {
        TeardownWakes(c, st, i);
      }
      var st1 := Teardown(c, st, i).value;
      forall k | k in v ensures Paired(st1, k) || Out(st1, k) {
        assert Paired(st, k) || Out(st, k);
        if Paired(st, k) && Paired(st, i) {
          MatesOf(c, st, k);
          MatesOf(c, st, i);
        }
      }
      ShutAllWakes(c, st1, v);
    }
  }

  lemma GetPeerWakes(c: Config, st: Pool, now: int)
    requires Inv(c, st) && Wakes(st, -1)
    ensures GetPeer(c, st, now).Ok? && Wakes(GetPeer(c, st, now).value.0, -1)
  {
    GetPeerVerdict(c, st, now);
    var (st1, answer) := GetPeer(c, st, now).value;
    if answer.None? && st1 != st {
      NextIdleBound(st, 0);
      NotFiled(c, st, st.cache[NextIdle(st, 0)]);
    }
    forall j | 0 <= j < |st1.relays| ensures WakeOk(st1, j) {
      assert WakeOk(st, j) && LinkOk(st, j);
      if answer.Some? {
        JoinedPaired(c, st, st1, answer.value.0, answer.value.1, j);
      }
    }
  }

  /** The second end to connect is not registered for EPOLLOUT, whatever the first end has
      buffered; so the first end's direction is in order exactly when that is nothing. */
  lemma StartWakes(c: Config, st: Pool, sid: int, sock: int)
    requires Inv(c, st) && Wakes(st, -1) && sock >= 0
    ensures Start(st, sid, sock).Ok? && Wakes(Start(st, sid, sock).value.0, -1)
    ensures var (st1, answer) := Start(st, sid, sock).value;
            answer.Some? ==>
              && Has(st1, sid) && Has(st1, st1.relays[sid].peer)
              && var p := st1.relays[sid].peer;
              && st1.relays[p] == st.relays[p] && st1.relays[p].peer == sid
              && (st1.relays[p].status.Active? ==>
                   && !st1.relays[p].flushed && !st1.relays[sid].reg.wr
                   && (InOrder(st1, p) <==> Window(st.relays[p]) == [])
                   && (Stuck(st1, p) <==> Window(st.relays[p]) != []))
  {
    StartVerdict(c, st, sid, sock);
    var (st1, answer) := Start(st, sid, sock).value;
    if answer.Some? {
      MatesOf(c, st, sid);
      MatesOf(c, st1, sid);
      assert WakeOk(st, sid) && WakeOk(st, st.relays[sid].peer);
      forall j | 0 <= j < |st1.relays| ensures WakeOk(st1, j) {
        assert WakeOk(st, j) && LinkOk(st, j);
        StartedPaired(c, st, st1, sid, j);
      }
      assert RecordOk(c, st1, st1.relays[sid].peer);
    }
  }

  /** EPOLLOUT is registered for the receiver of i's bytes exactly when there are any. */
  predicate InOrder(st: Pool, i: int)
    requires Has(st, i) && Has(st, st.relays[i].peer)
  {
    st.relays[st.relays[i].peer].reg.wr <==> Window(st.relays[i]) != []
  }

  lemma StepWakes(c: Config, st: Pool, e: Event)
    requires Inv(c, st) && Wakes(st, -1) && Safe(c, st, e)
    ensures Step(c, st, e).Ok? && Wakes(Step(c, st, e).value, -1)
  {
    hide Inv, Wakeup, Flush, Teardown, AfterRead, Read, Shut;
    if Possible(st, e) {
      match e
      case EvGetPeer(now) => GetPeerWakes(c, st, now);
      case EvStart(sid, sock) => StartWakes(c, st, sid, sock);
      case EvReadable(i, rd, w, w2) =>
        MatesOf(c, st, i);
        ReadPartKeeps(c, st, i, rd);
        ReadWakes(c, st, i, rd);
        var (st1, fatal) := ReadPart(st, i, rd).value;
        AfterReadWakes(c, st1, i, fatal, w, w2);
      case EvWritable(i, w) =>
        MatesOf(c, st, i);
        assert WakeOk(st, st.relays[i].peer);
        FlushWakes(c, st, st.relays[i].peer, w);
      case EvHangup(i) => MatesOf(c, st, i); TeardownWakes(c, st, i);
      case EvFindIdle(now, walk) =>
        if c.repaired {
          WalkMembers(c, st, walk, now);
          ShutAllWakes(c, st, Expired(st, walk, now));
        } else {
          InvBasic(c, st);
          SweepIdles(c, st, now, walk);
        }
    }
  }

  lemma {:induction false} RunWakes(c: Config, evs: seq<Event>)
    requires SafeRun(c, evs)
    ensures Run(c, evs).Ok? && Inv(c, Run(c, evs).value) && Wakes(Run(c, evs).value, -1)
    decreases |evs|
  {
    hide Step, Safe;
    RunKeeps(c, evs);
    if evs != [] {
      var before := evs[..|evs| - 1];
      RunWakes(c, before);
      StepWakes(c, Run(c, before).value, evs[|evs| - 1]);
    }
  }

  /** In a safe run, a direction that has been flushed with both ends connected is in order for as
      long as the session lasts: EPOLLOUT is registered for the receiving end exactly when
      the sender's buffer holds undelivered bytes. */
  lemma NoLostWakeup(c: Config, evs: seq<Event>, i: int)
    requires SafeRun(c, evs) && Run(c, evs).Ok?
    requires Paired(Run(c, evs).value, i) && Run(c, evs).value.relays[i].flushed
    ensures var st := Run(c, evs).value;
            var r := st.relays[i];
            && Has(st, r.peer) && st.relays[r.peer].peer == i
            && st.relays[r.peer].reg == st.relays[r.peer].bits
            && (st.relays[r.peer].reg.wr <==> Window(r) != [])
  {
    RunWakes(c, evs);
    var st := Run(c, evs).value;
    MatesOf(c, st, i);
    assert WakeOk(st, i) && RecordOk(c, st, i) && RecordOk(c, st, st.relays[i].peer);
  }

  lemma FlushFlushed(c: Config, st: Pool, j: int, w: WriteResult, i: int)
    requires Has(st, j) && Has(st, i) && st.relays[i].flushed && st.relays[i].status.Active?
    requires Flush(c, st, j, w).Ok?
    ensures var st1 := Flush(c, st, j, w).value.0;
            Has(st1, i) && st1.relays[i].flushed && st1.relays[i].status.Active?
  {
  }

  lemma TeardownFlushed(c: Config, st: Pool, j: int, i: int)
    requires Inv(c, st) && Paired(st, j) && (c.repaired || TeardownSafe(st, j))
    requires Has(st, i) && st.relays[i].flushed
    ensures Teardown(c, st, j).Ok?
    ensures var st1 := Teardown(c, st, j).value;
            Has(st1, i) && (Paired(st1, i) ==> st1.relays[i].flushed)
  {
    SessionEnds(c, st, j);
  }

  lemma AfterReadFlushed(c: Config, st: Pool, j: int, fatal: bool, w: WriteResult, w2: WriteResult, i: int)
    requires Inv(c, st) && Has(st, j) && Mates(st, j, st.relays[j].peer) && st.relays[j].status.Active?
    requires c.repaired || (FlushSafe(st, j, w) && (fatal ==> TeardownSafe(st, j)))
    requires Has(st, i) && st.relays[i].flushed && st.relays[i].status.Active?
    ensures AfterRead(c, st, j, fatal, w, w2).Ok?
    ensures var st1 := AfterRead(c, st, j, fatal, w, w2).value;
            Has(st1, i) && (Paired(st1, i) ==> st1.relays[i].flushed)
  {
    var p := st.relays[j].peer;
    if fatal || st.relays[p].status.Active? {
      FlushKeeps(c, st, j, w);
      FlushFlushed(c, st, j, w, i);
      var (st2, cc) := Flush(c, st, j, w).value;
      if fatal {
        TeardownFlushed(c, st2, j, i);
      } else if cc < 0 && w.WriteFail? {
        FlushKeeps(c, st2, p, w2);
        FlushFlushed(c, st2, p, w2, i);
        TeardownFlushed(c, Flush(c, st2, p, w2).value.0, j, i);
      }
    }
  }

  lemma ReadableFlushed(c: Config, st: Pool, j: nat, rd: ReadResult, w: WriteResult, w2: WriteResult, i: int)
    requires Inv(c, st) && Has(st, j) && st.relays[j].status.Active?
    requires c.repaired || ReadableSafe(st, j, rd, w)
    requires Has(st, i) && st.relays[i].flushed && st.relays[i].status.Active?
    ensures Readable(c, st, j, rd, w, w2).Ok?
    ensures var st1 := Readable(c, st, j, rd, w, w2).value;
            Has(st1, i) && (Paired(st1, i) ==> st1.relays[i].flushed)
  {
    MatesOf(c, st, j);
    ReadPartKeeps(c, st, j, rd);
    var (st1, fatal) := ReadPart(st, j, rd).value;
    AfterReadFlushed(c, st1, j, fatal, w, w2, i);
  }

  lemma ReservedFlushed(c: Config, st: Pool, now: int, i: int)
    requires Inv(c, st) && Paired(st, i) && st.relays[i].flushed
    ensures GetPeer(c, st, now).Ok?
    ensures var st1 := GetPeer(c, st, now).value.0;
            Has(st1, i) && st1.relays[i].flushed
  {
    GetPeerVerdict(c, st, now);
    NextIdleBound(st, 0);
  }

  /** Once flushed, a direction stays flushed until its session ends. */
  lemma FlushedStays(c: Config, st: Pool, e: Event, i: int)
    requires Inv(c, st) && Wakes(st, -1) && Safe(c, st, e)
    requires Paired(st, i) && st.relays[i].flushed
    ensures Step(c, st, e).Ok?
    ensures var st1 := Step(c, st, e).value;
            Has(st1, i) && (Paired(st1, i) ==> st1.relays[i].flushed)
  {
    assert WakeOk(st, i);
    if Possible(st, e) {
      match e
      case EvGetPeer(now) => ReservedFlushed(c, st, now, i);
      case EvStart(sid, sock) => StartVerdict(c, st, sid, sock);
      case EvReadable(j, rd, w, w2) => ReadableFlushed(c, st, j, rd, w, w2, i);
      case EvWritable(j, w) =>
        MatesOf(c, st, j);
        FlushKeeps(c, st, st.relays[j].peer, w);
        FlushFlushed(c, st, st.relays[j].peer, w, i);
      case EvHangup(j) => MatesOf(c, st, j); TeardownFlushed(c, st, j, i);
      case EvFindIdle(now, walk) =>
        if c.repaired {
          FindIdleVerdict(c, st, now, walk);
        } else {
          InvBasic(c, st);
          SweepIdles(c, st, now, walk);
        }
    }
  }

  /** An EPOLLIN event on i flushes its direction, unless it ends the session. */
  lemma ReadableFlushes(c: Config, st: Pool, i: nat, rd: ReadResult, w: WriteResult, w2: WriteResult)
    requires Inv(c, st) && Wakes(st, -1)
    requires Has(st, i) && st.relays[i].status.Active? && (c.repaired || ReadableSafe(st, i, rd, w))
    requires Has(st, st.relays[i].peer) && st.relays[st.relays[i].peer].status.Active?
    ensures Readable(c, st, i, rd, w, w2).Ok?
    ensures var st1 := Readable(c, st, i, rd, w, w2).value;
            Has(st1, i) && (Paired(st1, i) ==> st1.relays[i].flushed)
  {
    MatesOf(c, st, i);
    ReadPartKeeps(c, st, i, rd);
    var (st1, fatal) := ReadPart(st, i, rd).value;
    ReadWakes(c, st, i, rd);
    FlushKeeps(c, st1, i, w);
    FlushWakes(c, st1, i, w);
    var (st2, cc) := Flush(c, st1, i, w).value;
    if fatal {
      SessionEnds(c, st2, i);
    } else if cc < 0 && w.WriteFail? {
      FlushKeeps(c, st2, st.relays[i].peer, w2);
      SessionEnds(c, Flush(c, st2, st.relays[i].peer, w2).value.0, i);
    }
  }

  // ---------------------------------------------------------------- bytes left waiting

  /** Bytes are buffered between two connected ends, and epoll will not report that they can
      be written. */
  predicate Stuck(st: Pool, i: int) {
    && Has(st, i) && Has(st, st.relays[i].peer) && st.relays[i].peer != i
    && st.relays[i].status.Active? && st.relays[st.relays[i].peer].status.Active?
    && st.relays[st.relays[i].peer].peer == i
    && Window(st.relays[i]) != [] && !st.relays[i].flushed
    && !st.relays[st.relays[i].peer].reg.wr
  }

  /** Between two connected ends of a safe run, bytes wait without EPOLLOUT exactly when their
      direction was never flushed with both ends connected. */
  lemma StuckExactly(c: Config, evs: seq<Event>, i: int)
    requires SafeRun(c, evs) && Run(c, evs).Ok?
    requires var st := Run(c, evs).value;
             && Paired(st, i) && st.relays[i].status.Active? && Has(st, st.relays[i].peer)
             && st.relays[st.relays[i].peer].status.Active? && Window(st.relays[i]) != []
    ensures var st := Run(c, evs).value;
            && (Stuck(st, i) <==> !st.relays[i].flushed)
            && (Stuck(st, i) <==> !InOrder(st, i))
  {
    RunWakes(c, evs);
    var st := Run(c, evs).value;
    MatesOf(c, st, i);
    assert WakeOk(st, i) && RecordOk(c, st, i) && RecordOk(c, st, st.relays[i].peer);
  }

  /** The event reads from i, or writes to i's peer, and so may flush i. */
  predicate Relieves(st: Pool, i: int, e: Event)
    requires Has(st, i)
  {
    match e
    case EvReadable(j, _, _, _) => j == i
    case EvWritable(j, _) => j == st.relays[i].peer
    case _ => false
  }

  /** The records of i's session are as they were, but for what i's peer does on its own. */
  ghost predicate Waits(st: Pool, st1: Pool, i: int)
    requires Has(st, i)
  {
    && Has(st1, i) && st1.relays[i].buf == st.relays[i].buf
    && st1.relays[i].x1 == st.relays[i].x1 && st1.relays[i].x2 == st.relays[i].x2 && Stuck(st1, i)
  }

  /** Record k is as it was, and the table has no entry that was not there. */
  ghost predicate Untouched(st: Pool, st1: Pool, k: int) {
    && Has(st, k) && Has(st1, k) && st1.relays[k] == st.relays[k]
    && st1.waiting.Keys <= st.waiting.Keys
  }

  lemma FlushLeaves(c: Config, st: Pool, j: int, w: WriteResult, k: int)
    requires Has(st, j) && Has(st, k) && Flush(c, st, j, w).Ok? && k != j && k != st.relays[j].peer
    ensures Untouched(st, Flush(c, st, j, w).value.0, k)
  {
  }

  /** A flush of the peer p leaves i's bytes where they are and p's registration as it is. */
  lemma PeerFlushWaits(c: Config, st: Pool, p: int, w: WriteResult)
    requires Has(st, p) && Stuck(st, st.relays[p].peer) && Flush(c, st, p, w).Ok?
    requires st.relays[st.relays[p].peer].peer == p
    ensures Waits(st, Flush(c, st, p, w).value.0, st.relays[p].peer)
  {
    hide LogDelivered;
  }

  /** A flush that is safe as written does not fail with bytes in the buffer. */
  lemma FailedFlush(c: Config, st: Pool, i: int, w: WriteResult)
    requires Has(st, i) && Flush(c, st, i, w).Ok? && (c.repaired || FlushSafe(st, i, w))
    ensures Flush(c, st, i, w).value.1 < 0 && w.WriteFail? ==> c.repaired
  {
  }

  /** What follows a read of j leaves the records of other sessions alone. */
  lemma AfterReadLeaves(c: Config, st: Pool, j: int, fatal: bool, w: WriteResult, w2: WriteResult, k: int)
    requires Inv(c, st) && Has(st, j) && Mates(st, j, st.relays[j].peer) && st.relays[j].status.Active?
    requires Has(st, k) && k != j && k != st.relays[j].peer
    requires c.repaired || (FlushSafe(st, j, w) && (fatal ==> TeardownSafe(st, j)))
    ensures AfterRead(c, st, j, fatal, w, w2).Ok? && Untouched(st, AfterRead(c, st, j, fatal, w, w2).value, k)
  {
    hide Flush, Teardown, Inv;
    AfterReadKeeps(c, st, j, fatal, w, w2);
    var q := st.relays[j].peer;
    if fatal || st.relays[q].status.Active? {
      FlushKeeps(c, st, j, w);
      FlushLeaves(c, st, j, w, k);
      FailedFlush(c, st, j, w);
      var (st2, cc) := Flush(c, st, j, w).value;
      if fatal {
        TeardownKeeps(c, st2, j);
      } else if cc < 0 && w.WriteFail? {
        FlushKeeps(c, st2, q, w2);
        FlushLeaves(c, st2, q, w2, k);
        TeardownKeeps(c, Flush(c, st2, q, w2).value.0, j);
      }
    }
  }

  /** The events of another session. */
  lemma OtherReadable(c: Config, st: Pool, i: int, j: nat, rd: ReadResult, w: WriteResult, w2: WriteResult)
    requires Inv(c, st) && Stuck(st, i) && Has(st, j) && st.relays[j].status.Active?
    requires j != i && j != st.relays[i].peer && (c.repaired || ReadableSafe(st, j, rd, w))
    ensures Readable(c, st, j, rd, w, w2).Ok? && Waits(st, Readable(c, st, j, rd, w, w2).value, i)
  {
    hide AfterRead, Inv;
    var p := st.relays[i].peer;
    MatesOf(c, st, i);
    MatesOf(c, st, j);
    ReadPartKeeps(c, st, j, rd);
    var (st1, fatal) := ReadPart(st, j, rd).value;
    assert st1.relays[i] == st.relays[i] && st1.relays[p] == st.relays[p];
    AfterReadLeaves(c, st1, j, fatal, w, w2, i);
    AfterReadLeaves(c, st1, j, fatal, w, w2, p);
  }

  /** EPOLLIN on the peer p of a stuck end i. */
  lemma PeerReadable(c: Config, st: Pool, i: int, p: nat, rd: ReadResult, w: WriteResult, w2: WriteResult)
    requires Inv(c, st) && Stuck(st, i) && p == st.relays[i].peer && (c.repaired || ReadableSafe(st, p, rd, w))
    ensures Readable(c, st, p, rd, w, w2).Ok?
    ensures var st1 := Readable(c, st, p, rd, w, w2).value;
            !Paired(st1, i) || Waits(st, st1, i)
  {
    hide Flush, Inv;
    MatesOf(c, st, i);
    MatesOf(c, st, p);
    ReadPartKeeps(c, st, p, rd);
    var (st1, fatal) := ReadPart(st, p, rd).value;
    assert st1.relays[i] == st.relays[i] && st1.relays[p].peer == i && st1.relays[p].reg == st.relays[p].reg;
    AfterReadKeeps(c, st1, p, fatal, w, w2);
    FlushKeeps(c, st1, p, w);
    PeerFlushWaits(c, st1, p, w);
    FailedFlush(c, st1, p, w);
    var (st2, cc) := Flush(c, st1, p, w).value;
    if fatal {
      SessionEnds(c, st2, p);
    } else if cc < 0 && w.WriteFail? {
      FlushKeeps(c, st2, i, w2);
      SessionEnds(c, Flush(c, st2, i, w2).value.0, p);
    }
  }

  lemma OtherWritable(c: Config, st: Pool, i: int, j: nat, w: WriteResult)
    requires Inv(c, st) && Stuck(st, i) && Has(st, j) && st.relays[j].status.Active?
    requires j != st.relays[i].peer && (c.repaired || FlushSafe(st, st.relays[j].peer, w))
    ensures Writable(c, st, j, w).Ok? && Waits(st, Writable(c, st, j, w).value, i)
  {
    hide Flush;
    var p, q := st.relays[i].peer, st.relays[j].peer;
    MatesOf(c, st, i);
    MatesOf(c, st, j);
    FlushKeeps(c, st, q, w);
    if j == i {
      PeerFlushWaits(c, st, p, w);
    } else {
      FlushLeaves(c, st, q, w, i);
      FlushLeaves(c, st, q, w, p);
    }
  }

  lemma OtherHangup(c: Config, st: Pool, i: int, j: nat)
    requires Inv(c, st) && Stuck(st, i) && Has(st, j) && st.relays[j].status.Active?
    requires c.repaired || TeardownSafe(st, j)
    ensures Teardown(c, st, j).Ok?
    ensures !Paired(Teardown(c, st, j).value, i) || Waits(st, Teardown(c, st, j).value, i)
  {
    MatesOf(c, st, i);
    MatesOf(c, st, j);
    SessionEnds(c, st, j);
    TeardownKeeps(c, st, j);
  }

  /** Bytes that are stuck stay stuck: after every event that neither reads from their end nor
      writes to its peer, they wait as before, or their session has ended.  The write that is
      left out is an EPOLLOUT report that nobody asked epoll for. */
  lemma StuckStays(c: Config, st: Pool, e: Event, i: int)
    requires Inv(c, st) && Stuck(st, i) && Safe(c, st, e) && !Relieves(st, i, e)
    ensures Step(c, st, e).Ok?
    ensures !Paired(Step(c, st, e).value, i) || Waits(st, Step(c, st, e).value, i)
  {
    hide Inv, Readable, Writable, Teardown, FindIdle, Benign;
    if Possible(st, e) {
      MatesOf(c, st, i);
      match e
      case EvGetPeer(now) =>
        GetPeerVerdict(c, st, now);
        NextIdleBound(st, 0);
      case EvStart(sid, sock) => StartVerdict(c, st, sid, sock);
      case EvReadable(j, rd, w, w2) =>
        SafeParts(c, st, e);
        if j == st.relays[i].peer {
          PeerReadable(c, st, i, j, rd, w, w2);
        } else {
          OtherReadable(c, st, i, j, rd, w, w2);
        }
      case EvWritable(j, w) => SafeParts(c, st, e); OtherWritable(c, st, i, j, w);
      case EvHangup(j) => SafeParts(c, st, e); OtherHangup(c, st, i, j);
      case EvFindIdle(now, walk) =>
        if c.repaired {
          FindIdleVerdict(c, st, now, walk);
          var st1 := FindIdle(c, st, now, walk).value;
          if Paired(st1, i) {
            MatesOf(c, st1, i);
          }
        } else {
          InvBasic(c, st);
          SweepIdles(c, st, now, walk);
        }
    }
  }

  lemma SafeParts(c: Config, st: Pool, e: Event)
    requires Safe(c, st, e) && Possible(st, e)
    ensures e.EvReadable? ==> c.repaired || ReadableSafe(st, e.i, e.rd, e.w)
    ensures e.EvWritable? ==> c.repaired || FlushSafe(st, st.relays[e.i].peer, e.w)
    ensures e.EvHangup? ==> c.repaired || TeardownSafe(st, e.i)
  {
  }
}
