/** A record that niogetpeer reserved without a peer (src/lib/nio2.c:372-383) is lost to the
    pool: nothing ever connects it, shuts it or reserves it again. */
module RelayStranded {
  import opened Prelude
  import opened Relay
  import opened RelayInv
  import opened RelayReserve
  import opened RelayRuns
  import opened RelayWakeup

  lemma ReadableUntouched(c: Config, st: Pool, j: nat, rd: ReadResult, w: WriteResult, w2: WriteResult, k: int)
    requires Inv(c, st) && Has(st, j) && st.relays[j].status.Active? && Stranded(st, k)
    requires c.repaired || ReadableSafe(st, j, rd, w)
    ensures Readable(c, st, j, rd, w, w2).Ok? && Untouched(st, Readable(c, st, j, rd, w, w2).value, k)
  {
    hide AfterRead, Inv;
    MatesOf(c, st, j);
    ReadPartKeeps(c, st, j, rd);
    var (st1, fatal) := ReadPart(st, j, rd).value;
    assert Untouched(st, st1, k);
    AfterReadLeaves(c, st1, j, fatal, w, w2, k);
  }

  lemma WritableUntouched(c: Config, st: Pool, j: nat, w: WriteResult, k: int)
    requires Inv(c, st) && Has(st, j) && st.relays[j].status.Active? && Stranded(st, k)
    requires c.repaired || FlushSafe(st, st.relays[j].peer, w)
    ensures Writable(c, st, j, w).Ok? && Untouched(st, Writable(c, st, j, w).value, k)
  {
    hide Flush, Inv;
    MatesOf(c, st, j);
    FlushKeeps(c, st, st.relays[j].peer, w);
    FlushLeaves(c, st, st.relays[j].peer, w, k);
  }

  lemma {:induction false} SweepUntouched(c: Config, st: Pool, u: seq<nat>, k: int)
    requires Inv(c, st) && c.repaired && Stranded(st, k)
    requires forall i :: i in u ==> Paired(st, i) || Out(st, i)
    ensures ShutAll(c, st, u).Ok? && Stranded(ShutAll(c, st, u).value, k)
    decreases |u|
  {
    hide Inv;
    if u != [] {
      var i, v := u[|u| - 1], u[..|u| - 1];
      assert u == v + [i];
      TeardownEnds(c, st, i);
      var st1 := Teardown(c, st, i).value;
      if Paired(st, i) {
        MatesOf(c, st, i);
        TeardownKeeps(c, st, i);
        assert Untouched(st, st1, k);
      }
      forall j | j in v ensures Paired(st1, j) || Out(st1, j) {
        assert Paired(st, j) || Out(st, j);
        if Paired(st, j) && Paired(st, i) {
          MatesOf(c, st, j);
        }
      }
      SweepUntouched(c, st1, v, k);
    }
  }

  lemma GetPeerStranded(c: Config, st: Pool, now: int, k: int)
    requires Inv(c, st) && Stranded(st, k)
    ensures GetPeer(c, st, now).Ok? && Stranded(GetPeer(c, st, now).value.0, k)
  {
    hide Inv;
    GetPeerVerdict(c, st, now);
    NextIdleBound(st, 0);
    var (st1, answer) := GetPeer(c, st, now).value;
    if answer.Some? {
      JoinedPaired(c, st, st1, answer.value.0, answer.value.1, k);
    }
  }

  /** One safe event. */
  lemma StrandedStays(c: Config, st: Pool, e: Event, k: int)
    requires Inv(c, st) && Safe(c, st, e) && Stranded(st, k)
    ensures Step(c, st, e).Ok? && Stranded(Step(c, st, e).value, k)
  {
    hide GetPeer, Readable, Writable, Teardown, FindIdle, Benign, Inv;
    if Possible(st, e) {
      SafeParts(c, st, e);
      match e
      case EvGetPeer(now) => GetPeerStranded(c, st, now, k);
      case EvStart(sid, sock) =>
        StartVerdict(c, st, sid, sock);
        var (st1, answer) := Start(st, sid, sock).value;
        if answer.Some? {
          StartedPaired(c, st, st1, sid, k);
        }
      case EvReadable(j, rd, w, w2) => ReadableUntouched(c, st, j, rd, w, w2, k);
      case EvWritable(j, w) => WritableUntouched(c, st, j, w, k);
      case EvHangup(j) =>
        MatesOf(c, st, j);
        TeardownKeeps(c, st, j);
        assert Untouched(st, Teardown(c, st, j).value, k);
      case EvFindIdle(now, walk) => FindIdleStranded(c, st, now, walk, k);
    }
  }

  lemma FindIdleStranded(c: Config, st: Pool, now: int, walk: seq<nat>, k: int)
    requires Inv(c, st) && IsWalk(st, walk) && Stranded(st, k)
    ensures FindIdle(c, st, now, walk).Ok? && Stranded(FindIdle(c, st, now, walk).value, k)
  {
    hide Inv, ShutAll;
    if c.repaired {
      WalkMembers(c, st, walk, now);
      SweepUntouched(c, st, Expired(st, walk, now), k);
    } else {
      InvBasic(c, st);
      SweepIdles(c, st, now, walk);
    }
  }

  /** In a safe run, a record once stranded is stranded ever after. */
  lemma {:induction false} StrandedForGood(c: Config, evs: seq<Event>, n: nat, k: int)
    requires SafeRun(c, evs) && n <= |evs|
    requires Run(c, evs[..n]).Ok? && Stranded(Run(c, evs[..n]).value, k)
    ensures Run(c, evs).Ok? && Stranded(Run(c, evs).value, k)
    decreases |evs|
  {
    hide Step, Safe, Inv;
    if n == |evs| {
      assert evs[..n] == evs;
    } else {
      var before := evs[..|evs| - 1];
      assert before[..n] == evs[..n];
      StrandedForGood(c, before, n, k);
      RunKeeps(c, before);
      StrandedStays(c, Run(c, before).value, evs[|evs| - 1], k);
    }
  }
}
