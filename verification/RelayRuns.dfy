/** Every event of the repaired engine keeps the invariant, and so does every event of the code
    as written that steers clear of its slips; so every run of such events does. */
module RelayRuns {
  import opened Prelude
  import opened Relay
  import opened RelayInv
  import opened RelayReserve

  // Whether a flush of i, and a teardown of i, do what they should in the code as written.

  predicate FlushSafe(st: Pool, i: int, w: WriteResult) {
    Has(st, i) && Has(st, st.relays[i].peer) &&
    (Clean(w) || st.relays[i].x1 == 0 || !st.relays[st.relays[i].peer].ev)
  }

  predicate TeardownSafe(st: Pool, i: int) {
    Has(st, i) && Has(st, st.relays[i].peer) &&
    st.relays[i].status.Active? && st.relays[st.relays[i].peer].status.Active?
  }

  /** A flush followed by tearing the session down. */
  lemma FlushAndTear(c: Config, st: Pool, i: int, j: int, w: WriteResult)
    requires Inv(c, st) && Has(st, i) && Mates(st, i, st.relays[i].peer)
    requires j == i || j == st.relays[i].peer
    requires st.relays[j].status.Active?
    requires c.repaired || (FlushSafe(st, j, w) && TeardownSafe(st, i))
    ensures var f := Flush(c, st, j, w);
            f.Ok? && Has(f.value.0, i) && Teardown(c, f.value.0, i).Ok? && Inv(c, Teardown(c, f.value.0, i).value)
  {
    FlushKeeps(c, st, j, w);
    TeardownKeeps(c, Flush(c, st, j, w).value.0, i);
  }

  lemma AfterReadKeeps(c: Config, st: Pool, i: int, fatal: bool, w: WriteResult, w2: WriteResult)
    requires Inv(c, st) && Has(st, i) && Mates(st, i, st.relays[i].peer) && st.relays[i].status.Active?
    requires c.repaired || (FlushSafe(st, i, w) && (fatal ==> TeardownSafe(st, i)))
    ensures AfterRead(c, st, i, fatal, w, w2).Ok? && Inv(c, AfterRead(c, st, i, fatal, w, w2).value)
  {
    var p := st.relays[i].peer;
    if fatal {
      FlushAndTear(c, st, i, i, w);
    } else if st.relays[p].status.Active? {
      FlushKeeps(c, st, i, w);
      var (st2, cc) := Flush(c, st, i, w).value;
      if cc < 0 && w.WriteFail? {
        FlushAndTear(c, st2, i, p, w2);
      }
    }
  }

  /** The state after the read of an EPOLLIN event, and whether the read was fatal. */
  function ReadPart(st: Pool, i: int, rd: ReadResult): Result<(Pool, bool)>
    requires Has(st, i)
  {
    Read(Set(st, i, st.relays[i].(events := NOTHING)), i, rd)
  }

  lemma ReadPartKeeps(c: Config, st: Pool, i: int, rd: ReadResult)
    requires Inv(c, st) && Has(st, i) && st.relays[i].status.Active?
    ensures ReadPart(st, i, rd).Ok? && Inv(c, ReadPart(st, i, rd).value.0)
    ensures StillMates(st, ReadPart(st, i, rd).value.0, i, st.relays[i].peer)
  {
    MatesOf(c, st, i);
    EventsKeep(c, st, i);
    ReadKeeps(c, Set(st, i, st.relays[i].(events := NOTHING)), i, rd);
  }

  lemma ReadableKeeps(c: Config, st: Pool, i: nat, rd: ReadResult, w: WriteResult, w2: WriteResult)
    requires Inv(c, st) && Has(st, i) && st.relays[i].status.Active?
    requires c.repaired || ReadableSafe(st, i, rd, w)
    ensures Readable(c, st, i, rd, w, w2).Ok? && Inv(c, Readable(c, st, i, rd, w, w2).value)
  {
    MatesOf(c, st, i);
    ReadPartKeeps(c, st, i, rd);
    var (st1, fatal) := ReadPart(st, i, rd).value;
    AfterReadKeeps(c, st1, i, fatal, w, w2);
  }

  predicate ReadableSafe(st: Pool, i: nat, rd: ReadResult, w: WriteResult)
    requires Has(st, i)
  {
    ReadPart(st, i, rd).Ok? &&
    var (st1, fatal) := ReadPart(st, i, rd).value;
    FlushSafe(st1, i, w) && (fatal ==> TeardownSafe(st1, i))
  }

  lemma WritableKeeps(c: Config, st: Pool, i: nat, w: WriteResult)
    requires Inv(c, st) && Has(st, i) && st.relays[i].status.Active?
    requires c.repaired || FlushSafe(st, st.relays[i].peer, w)
    ensures Writable(c, st, i, w).Ok? && Inv(c, Writable(c, st, i, w).value)
  {
    MatesOf(c, st, i);
    FlushKeeps(c, st, st.relays[i].peer, w);
  }

  // ---------------------------------------------------------------- expiry

  /** A record is out of its session: it is idle, and so is its last peer. */
  ghost predicate Out(st: Pool, i: int) {
    && Has(st, i) && st.relays[i].status.Idle?
    && Has(st, st.relays[i].peer) && st.relays[st.relays[i].peer].status.Idle?
  }

  /** st1 is st without the sessions of the records in u. */
  ghost predicate Ended(st: Pool, st1: Pool, u: seq<nat>) {
    && |st1.relays| == |st.relays|
    && (forall j {:trigger Paired(st1, j)} :: Has(st, j) ==>
          (Paired(st1, j) <==> Paired(st, j) && j !in u && st.relays[j].peer !in u))
    && (forall j {:trigger Paired(st1, j)} :: Paired(st1, j) ==> st1.relays[j] == st.relays[j])
    && (forall j {:trigger Out(st1, j)} :: j in u || Out(st, j) ==> Out(st1, j))
  }

  lemma BothGonePaired(c: Config, st: Pool, st1: Pool, i: int, j: int)
    requires Inv(c, st) && Paired(st, i) && BothGone(st, st1, i, st.relays[i].peer) && Has(st, j)
    ensures Paired(st1, j) <==> Paired(st, j) && j != i && st.relays[j].peer != i
  {
    var p := st.relays[i].peer;
    assert LinkOk(st, j) && LinkOk(st, i);
    if Decimal(j) == Decimal(i) { DecimalInjective(j, i); }
    if Decimal(j) == Decimal(p) { DecimalInjective(j, p); }
  }

  /** Shutting both ends of a session ends just that session. */
  lemma SessionEnds(c: Config, st: Pool, i: nat)
    requires Inv(c, st) && Paired(st, i) && (c.repaired || TeardownSafe(st, i))
    ensures Teardown(c, st, i).Ok? && Inv(c, Teardown(c, st, i).value)
    ensures Ended(st, Teardown(c, st, i).value, [i])
  {
    hide Inv;
    MatesOf(c, st, i);
    TeardownKeeps(c, st, i);
    var st1 := Teardown(c, st, i).value;
    forall j | Has(st, j)
      ensures Paired(st1, j) <==> Paired(st, j) && j != i && st.relays[j].peer != i {
      BothGonePaired(c, st, st1, i, j);
    }
    forall j | j == i || Out(st, j) ensures Out(st1, j) {}
  }

  lemma TeardownEnds(c: Config, st: Pool, i: nat)
    requires Inv(c, st) && c.repaired && (Paired(st, i) || Out(st, i))
    ensures Teardown(c, st, i).Ok? && Inv(c, Teardown(c, st, i).value)
    ensures Paired(st, i) ==> Ended(st, Teardown(c, st, i).value, [i])
    ensures Out(st, i) ==> Teardown(c, st, i).value == st
  {
    if Paired(st, i) {
      SessionEnds(c, st, i);
    } else {
      TeardownIdle(c, st, i);
    }
  }

  lemma {:induction false} ShutAllEnds(c: Config, st: Pool, u: seq<nat>)
    requires Inv(c, st) && c.repaired
    requires forall i :: i in u ==> Paired(st, i) || Out(st, i)
    ensures ShutAll(c, st, u).Ok? && Inv(c, ShutAll(c, st, u).value)
    ensures Survivors(st, ShutAll(c, st, u).value, u)
    decreases |u|
  {
    if u != [] {
      var i, v := u[|u| - 1], u[..|u| - 1];
      assert u == v + [i];
      TeardownEnds(c, st, i);
      var st1 := Teardown(c, st, i).value;
      forall k | k in v ensures Paired(st1, k) || Out(st1, k) {
        assert Paired(st, k) || Out(st, k);
        if Paired(st, k) && Paired(st, i) {
          MatesOf(c, st, k);
          MatesOf(c, st, i);
        }
      }
      ShutAllEnds(c, st1, v);
      OneMoreEnded(c, st, st1, ShutAll(c, st1, v).value, i, v);
    }
  }

  lemma OneMoreEnded(c: Config, st: Pool, st1: Pool, st2: Pool, i: nat, v: seq<nat>)
    requires Inv(c, st) && ((st1 == st && Out(st, i)) || (Paired(st, i) && Ended(st, st1, [i])))
    requires Survivors(st1, st2, v)
    ensures Survivors(st, st2, v + [i])
  {
    var u := v + [i];
    forall j | Has(st, j)
      ensures Paired(st2, j) <==> Paired(st, j) && j !in u && st.relays[j].peer !in u {
      assert Paired(st1, j) ==> Paired(st, j) && st1.relays[j] == st.relays[j];
      if Paired(st, j) {
        MatesOf(c, st, j);
        assert Paired(st1, j) <==> j != i && st.relays[j].peer != i;
        assert j in u <==> j in v || j == i;
        assert st.relays[j].peer in u <==> st.relays[j].peer in v || st.relays[j].peer == i;
      }
    }
  }

  /** Exactly the sessions with neither half in u are left, and they are untouched. */
  ghost predicate Survivors(st: Pool, st1: Pool, u: seq<nat>) {
    && |st1.relays| == |st.relays|
    && (forall j {:trigger Paired(st1, j)} :: Has(st, j) ==>
          (Paired(st1, j) <==> Paired(st, j) && j !in u && st.relays[j].peer !in u))
    && (forall j {:trigger Paired(st1, j)} :: Paired(st1, j) ==> st1.relays[j] == st.relays[j])
  }

  lemma {:induction false} ExpiredMembers(st: Pool, walk: seq<nat>, now: int)
    ensures forall i :: i in Expired(st, walk, now) <==> i in walk && Has(st, i) && now >= st.relays[i].ttidl
  {
    if walk != [] {
      ExpiredMembers(st, walk[1..], now);
      assert walk == [walk[0]] + walk[1..];
    }
  }

  /** Half of a session that is still waiting past its time. */
  predicate Overdue(st: Pool, i: int, now: int) {
    Has(st, i) && st.relays[i].status.Waiting? && Decimal(i) in st.waiting && now >= st.relays[i].ttidl
  }

  lemma WalkMembers(c: Config, st: Pool, walk: seq<nat>, now: int)
    requires Inv(c, st) && IsWalk(st, walk)
    ensures forall i :: i in Expired(st, walk, now) <==> i >= 0 && Overdue(st, i, now)
  {
    ExpiredMembers(st, walk, now);
    forall i: nat ensures i in walk <==> Has(st, i) && st.relays[i].status.Waiting? && Decimal(i) in st.waiting {
      if i in walk {
        var k :| k in st.waiting && st.waiting[k] == i;
      } else if Has(st, i) && Decimal(i) in st.waiting {
        assert st.waiting[Decimal(i)] in st.waiting.Values;
        DecimalInjective(i, st.waiting[Decimal(i)]);
      }
    }
  }

  /** niofindidle mended: exactly the sessions with an overdue half are ended, both ends of
      them, in whatever order the table is walked. */
  lemma FindIdleVerdict(c: Config, st: Pool, now: int, walk: seq<nat>)
    requires Inv(c, st) && IsWalk(st, walk) && c.repaired
    ensures FindIdle(c, st, now, walk).Ok? && Inv(c, FindIdle(c, st, now, walk).value)
    ensures var st1 := FindIdle(c, st, now, walk).value;
            && (forall i :: Has(st, i) ==>
                  (Paired(st1, i) <==>
                     Paired(st, i) && !Overdue(st, i, now) && !Overdue(st, st.relays[i].peer, now)))
            && (forall i :: Paired(st1, i) ==> st1.relays[i] == st.relays[i])
            && (forall i :: !Overdue(st1, i, now))
  {
    var u := Expired(st, walk, now);
    WalkMembers(c, st, walk, now);
    ShutAllEnds(c, st, u);
    var st1 := FindIdle(c, st, now, walk).value;
    assert Survivors(st, st1, u);
    forall i | Has(st, i)
      ensures Paired(st1, i) <==>
              Paired(st, i) && !Overdue(st, i, now) && !Overdue(st, st.relays[i].peer, now) {
      if Paired(st, i) {
        MatesOf(c, st, i);
      }
    }
  }

  lemma {:induction false} ShutNone(c: Config, st: Pool, u: seq<nat>)
    requires !c.repaired && forall i :: i in u ==> Has(st, i) && st.relays[i].s < 0
    ensures ShutAll(c, st, u) == Ok(st)
    decreases |u|
  {
    if u != [] {
      assert u[|u| - 1] in u;
      assert forall i :: i in u[..|u| - 1] ==> i in u;
      ShutNone(c, st, u[..|u| - 1]);
    }
  }

  /** The pool by itself: only a connected record has a socket; the table files waiting
      records, each under its own sid; the cache holds every record that is not connected,
      once, and no other; and relayarray shows exactly the connected ones.  This much holds in
      every state of the code as written, also when Inv is lost (RelayPool.AnyRun). */
  ghost predicate Basic(c: Config, st: Pool) {
    && |st.relays| == c.maxrelay == |st.shown| && TableOk(st) && CacheOk(st)
    && forall i {:trigger st.relays[i]} :: Has(st, i) ==> BasicRecord(st, i)
  }

  ghost predicate BasicRecord(st: Pool, i: int)
    requires Has(st, i) && |st.shown| == |st.relays|
  {
    && (st.relays[i].status.Active? <==> st.relays[i].s >= 0)
    && (i in st.cache <==> !st.relays[i].status.Active?)
    && (st.shown[i] <==> st.relays[i].status.Active?)
  }

  lemma InvBasic(c: Config, st: Pool)
    requires Inv(c, st)
    ensures Basic(c, st)
  {
    forall i | Has(st, i) ensures BasicRecord(st, i) {
      assert RecordOk(c, st, i);
    }
  }

  /** The sweep as written finds only relays that it then leaves alone. */
  lemma SweepIdles(c: Config, st: Pool, now: int, walk: seq<nat>)
    requires Basic(c, st) && IsWalk(st, walk) && !c.repaired
    ensures FindIdle(c, st, now, walk) == Ok(st)
  {
    ExpiredMembers(st, walk, now);
    forall i | i in Expired(st, walk, now) ensures Has(st, i) && st.relays[i].s < 0 {
      var k :| k in st.waiting && st.waiting[k] == i;
      assert BasicRecord(st, i);
    }
    ShutNone(c, st, Expired(st, walk, now));
  }

  // ---------------------------------------------------------------- runs

  /** In the code as written, the event steers clear of the slips: no flush whose write fails
      with bytes in the buffer, no teardown with one end still waiting. */
  ghost predicate Benign(st: Pool, e: Event) {
    Possible(st, e) ==>
      match e
      case EvReadable(i, rd, w, _) => ReadableSafe(st, i, rd, w)
      case EvWritable(i, w) => FlushSafe(st, st.relays[i].peer, w)
      case EvHangup(i) => TeardownSafe(st, i)
      case _ => true
  }

  ghost predicate Safe(c: Config, st: Pool, e: Event) {
    c.repaired || Benign(st, e)
  }

  lemma StepKeeps(c: Config, st: Pool, e: Event)
    requires Inv(c, st) && Safe(c, st, e)
    ensures Step(c, st, e).Ok? && Inv(c, Step(c, st, e).value)
  {
    if Possible(st, e) {
      match e
      case EvGetPeer(now) => GetPeerVerdict(c, st, now);
      case EvStart(sid, sock) => StartVerdict(c, st, sid, sock);
      case EvReadable(i, rd, w, w2) => ReadableKeeps(c, st, i, rd, w, w2);
      case EvWritable(i, w) => WritableKeeps(c, st, i, w);
      case EvHangup(i) => MatesOf(c, st, i); TeardownKeeps(c, st, i);
      case EvFindIdle(now, walk) =>
        if c.repaired {
          FindIdleVerdict(c, st, now, walk);
        } else {
          InvBasic(c, st);
          SweepIdles(c, st, now, walk);
        }
    }
  }

  /** Every event of the run is safe in the state it comes in. */
  ghost predicate SafeRun(c: Config, evs: seq<Event>)
    decreases |evs|
  {
    evs == [] ||
    (var before := evs[..|evs| - 1];
     SafeRun(c, before) && Run(c, before).Ok? && Safe(c, Run(c, before).value, evs[|evs| - 1]))
  }

  /** No safe run fails an assert or leaves the invariant. */
  lemma {:induction false} RunKeeps(c: Config, evs: seq<Event>)
    requires SafeRun(c, evs)
    ensures Run(c, evs).Ok? && Inv(c, Run(c, evs).value)
    decreases |evs|
  {
    hide Step, Safe;
    if evs == [] {
      InitInv(c);
    } else {
      RunKeeps(c, evs[..|evs| - 1]);
      StepKeeps(c, Run(c, evs[..|evs| - 1]).value, evs[|evs| - 1]);
    }
  }

  /** Every run of the repaired engine is safe. */
  lemma {:induction false} RepairedRuns(c: Config, evs: seq<Event>)
    requires c.repaired
    ensures SafeRun(c, evs) && Run(c, evs).Ok? && Inv(c, Run(c, evs).value)
    decreases |evs|
  {
    hide Step;
    if evs != [] {
      RepairedRuns(c, evs[..|evs| - 1]);
    }
    RunKeeps(c, evs);
  }
}
