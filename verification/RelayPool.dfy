/** The pool in any run that does not crash, in either reading of the code.  The slips of the
    code as written lose bytes and sessions, but never a record: the cache, the table and
    relayarray agree with the records all the same. */
module RelayPool {
  import opened Prelude
  import opened Relay
  import opened RelayInv
  import opened RelayCount
  import opened RelayReserve
  import opened RelayRuns

  // ---------------------------------------------------------------- one event

  /** Bytes moved, or will: status, socket, table, cache and array are as they were. */
  ghost predicate SameRoles(st: Pool, st1: Pool) {
    && |st1.relays| == |st.relays| && st1.waiting == st.waiting
    && st1.cache == st.cache && st1.shown == st.shown
    && forall j {:trigger st1.relays[j]} :: Has(st, j) ==>
         st1.relays[j].status == st.relays[j].status && st1.relays[j].s == st.relays[j].s
  }

  lemma RolesBasic(c: Config, st: Pool, st1: Pool)
    requires Basic(c, st) && SameRoles(st, st1)
    ensures Basic(c, st1)
  {
    forall j | Has(st1, j) ensures BasicRecord(st1, j) {
      assert BasicRecord(st, j);
    }
  }

  lemma WrittenRoles(c: Config, st: Pool, i: int, p: int, w: WriteResult)
    requires Has(st, i) && Has(st, p)
    ensures SameRoles(st, Written(c, st, i, p, w).0)
  {
    hide Window, LogDelivered;
  }

  lemma FlushBasic(c: Config, st: Pool, i: int, w: WriteResult)
    requires Basic(c, st) && Has(st, i) && Flush(c, st, i, w).Ok?
    ensures Basic(c, Flush(c, st, i, w).value.0)
  {
    hide Basic, Written;
    var p := st.relays[i].peer;
    if st.relays[p].ev {
      var st1 := Disarmed(st, i, p);
      RolesBasic(c, st, st1);
      WrittenRoles(c, st1, i, p, w);
      RolesBasic(c, st1, Written(c, st1, i, p, w).0);
    }
  }

  lemma ShutBasic(c: Config, st: Pool, i: int)
    requires Basic(c, st) && Has(st, i) && !c.repaired && Shut(c, st, i).Ok?
    ensures Basic(c, Shut(c, st, i).value)
  {
    var st1 := Shut(c, st, i).value;
    assert BasicRecord(st, i);
    forall j | Has(st1, j) ensures BasicRecord(st1, j) {
      assert BasicRecord(st, j);
    }
  }

  lemma TeardownBasic(c: Config, st: Pool, i: int)
    requires Basic(c, st) && Has(st, i) && !c.repaired && Teardown(c, st, i).Ok?
    ensures Basic(c, Teardown(c, st, i).value)
  {
    hide Basic, Shut;
    ShutBasic(c, st, i);
    ShutBasic(c, Shut(c, st, i).value, st.relays[i].peer);
  }

  lemma ReadBasic(c: Config, st: Pool, i: int, rd: ReadResult)
    requires Basic(c, st) && Has(st, i) && ReadPart(st, i, rd).Ok?
    ensures Basic(c, ReadPart(st, i, rd).value.0)
  {
    hide Basic;
    RolesBasic(c, st, ReadPart(st, i, rd).value.0);
  }

  lemma AfterReadBasic(c: Config, st: Pool, i: int, fatal: bool, w: WriteResult, w2: WriteResult)
    requires Basic(c, st) && Has(st, i) && !c.repaired && AfterRead(c, st, i, fatal, w, w2).Ok?
    ensures Basic(c, AfterRead(c, st, i, fatal, w, w2).value)
  {
    hide Basic, Flush, Teardown;
    var p := st.relays[i].peer;
    if fatal || (Has(st, p) && st.relays[p].status.Active?) {
      FlushBasic(c, st, i, w);
      var (st2, cc) := Flush(c, st, i, w).value;
      if fatal {
        TeardownBasic(c, st2, i);
      } else if cc < 0 && w.WriteFail? {
        FlushBasic(c, st2, p, w2);
        TeardownBasic(c, Flush(c, st2, p, w2).value.0, i);
      }
    }
  }

  /** Records may have been reserved: no socket, cache or array entry changed. */
  ghost predicate Reserves(st: Pool, st1: Pool) {
    && |st1.relays| == |st.relays| && st1.cache == st.cache && st1.shown == st.shown
    && forall j {:trigger st1.relays[j]} :: Has(st, j) ==>
         && st1.relays[j].s == st.relays[j].s
         && (st1.relays[j].status.Active? <==> st.relays[j].status.Active?)
  }

  lemma ReservesBasic(c: Config, st: Pool, st1: Pool)
    requires Basic(c, st) && Reserves(st, st1) && TableOk(st1)
    ensures Basic(c, st1)
  {
    forall j | Has(st1, j) ensures BasicRecord(st1, j) {
      assert BasicRecord(st, j);
    }
  }

  lemma GetPeerReserves(c: Config, st: Pool, now: int)
    requires TableOk(st) && GetPeer(c, st, now).Ok?
    ensures Reserves(st, GetPeer(c, st, now).value.0) && TableOk(GetPeer(c, st, now).value.0)
  {
    hide NextIdle;
    NextIdleBound(st, 0);
    var i := NextIdle(st, 0);
    if i < |st.cache| {
      var a := st.cache[i];
      var st1 := Set(st, a, Reserve(st.relays[a], c.ttidl));
      NextIdleBound(st1, i + 1);
    }
  }

  lemma GetPeerBasic(c: Config, st: Pool, now: int)
    requires Basic(c, st) && GetPeer(c, st, now).Ok?
    ensures Basic(c, GetPeer(c, st, now).value.0)
  {
    hide GetPeer;
    GetPeerReserves(c, st, now);
    ReservesBasic(c, st, GetPeer(c, st, now).value.0);
  }

  lemma StartBasic(c: Config, st: Pool, sid: int, sock: int)
    requires Basic(c, st) && sock >= 0 && Start(st, sid, sock).Ok?
    ensures Basic(c, Start(st, sid, sock).value.0)
  {
    var key := Decimal(sid);
    if key in st.waiting {
      var i := st.waiting[key];
      DropDistinct(st.cache, i);
      var st1 := Start(st, sid, sock).value.0;
      forall j | Has(st1, j) ensures BasicRecord(st1, j) {
        assert BasicRecord(st, j);
      }
      forall k | k in st1.waiting ensures k == Decimal(st1.waiting[k]) && st1.relays[st1.waiting[k]].status.Waiting? {
        assert k in st.waiting && k != key;
      }
    }
  }

  lemma StepBasic(c: Config, st: Pool, e: Event)
    requires Basic(c, st) && !c.repaired && Step(c, st, e).Ok?
    ensures Basic(c, Step(c, st, e).value)
  {
    hide Basic, GetPeer, Start, Teardown, Flush, AfterRead, ReadPart, FindIdle;
    if Possible(st, e) {
      match e
      case EvGetPeer(now) => GetPeerBasic(c, st, now);
      case EvStart(sid, sock) => StartBasic(c, st, sid, sock);
      case EvReadable(i, rd, w, w2) =>
        if st.relays[i].s >= 0 {
          ReadableParts(c, st, i, rd, w, w2);
          ReadBasic(c, st, i, rd);
          var (st1, fatal) := ReadPart(st, i, rd).value;
          AfterReadBasic(c, st1, i, fatal, w, w2);
        }
      case EvWritable(i, w) => FlushBasic(c, st, st.relays[i].peer, w);
      case EvHangup(i) => TeardownBasic(c, st, i);
      case EvFindIdle(now, walk) => SweepIdles(c, st, now, walk);
    }
  }

  lemma ReadableParts(c: Config, st: Pool, i: int, rd: ReadResult, w: WriteResult, w2: WriteResult)
    requires Has(st, i) && st.relays[i].s >= 0 && Readable(c, st, i, rd, w, w2).Ok?
    ensures ReadPart(st, i, rd).Ok?
    ensures var (st1, fatal) := ReadPart(st, i, rd).value;
            Has(st1, i) && Readable(c, st, i, rd, w, w2) == AfterRead(c, st1, i, fatal, w, w2)
  {
    hide AfterRead;
  }

  /** Every run that does not crash. */
  lemma {:induction false} AnyRun(c: Config, evs: seq<Event>)
    requires Run(c, evs).Ok?
    ensures Basic(c, Run(c, evs).value)
    decreases |evs|
  {
    hide Step, Basic, Inv;
    if c.repaired {
      RepairedRuns(c, evs);
      InvBasic(c, Run(c, evs).value);
    } else if evs == [] {
      InitInv(c);
      InvBasic(c, Init(c));
    } else {
      AnyRun(c, evs[..|evs| - 1]);
      StepBasic(c, Run(c, evs[..|evs| - 1]).value, evs[|evs| - 1]);
    }
  }

  // ---------------------------------------------------------------- what that means

  ghost function ActiveSet(st: Pool): set<int> {
    set i | 0 <= i < |st.relays| && st.relays[i].status.Active?
  }

  ghost function Elements(s: seq<nat>): set<int> {
    set i: int | i in s
  }

  lemma {:induction false} DistinctSize(s: seq<nat>)
    requires Distinct(s)
    ensures |Elements(s)| == |s|
  {
    if s != [] {
      var t := s[..|s| - 1];
      DistinctSize(t);
      assert s == t + [s[|s| - 1]];
      assert Elements(s) == Elements(t) + {s[|s| - 1]};
      assert s[|s| - 1] !in t;
    } else {
      assert Elements(s) == {};
    }
  }

  /** Every record is in the cache once or connected, and relayarray shows the connected ones. */
  ghost predicate Partition(c: Config, st: Pool) {
    && Distinct(st.cache) && |st.relays| == c.maxrelay && |st.shown| == c.maxrelay
    && (forall i :: 0 <= i < c.maxrelay ==>
          && (i in st.cache <==> !st.relays[i].status.Active?)
          && (st.shown[i] <==> st.relays[i].status.Active?))
    && |st.cache| + |ActiveSet(st)| == c.maxrelay
  }

  lemma BasicPartition(c: Config, st: Pool)
    requires Basic(c, st)
    ensures Partition(c, st)
  {
    forall i | 0 <= i < c.maxrelay
      ensures (i in st.cache <==> !st.relays[i].status.Active?) && (st.shown[i] <==> st.relays[i].status.Active?) {
      assert BasicRecord(st, i);
    }
    DistinctSize(st.cache);
    BelowSize(c.maxrelay);
    assert Below(c.maxrelay) == Elements(st.cache) + ActiveSet(st);
    assert Elements(st.cache) !! ActiveSet(st);
  }

  /** The pool is partitioned after any run: the cache holds every idle and waiting record once
      and no connected one, its length and the connected records make up the pool, and
      relayarray shows exactly the connected ones.  RelayEngine.Engine.PoolOnHeap says it of
      the pointers. */
  lemma PoolPartition(c: Config, evs: seq<Event>)
    requires Run(c, evs).Ok?
    ensures Partition(c, Run(c, evs).value)
  {
    AnyRun(c, evs);
    BasicPartition(c, Run(c, evs).value);
  }

  /** After any run the table files exactly the waiting halves of sessions, each under the text
      of its own sid, and each still in the cache. */
  lemma WaitingTable(c: Config, evs: seq<Event>, key: string)
    requires Run(c, evs).Ok?
    ensures var st := Run(c, evs).value;
            && (key in st.waiting ==>
                  var i := st.waiting[key];
                  Has(st, i) && key == Decimal(i) && st.relays[i].status.Waiting? && i in st.cache)
            && (forall i :: Paired(st, i) && st.relays[i].status.Waiting? ==>
                  Decimal(i) in st.waiting && st.waiting[Decimal(i)] == i)
  {
    AnyRun(c, evs);
    var st := Run(c, evs).value;
    hide Run;
    if key in st.waiting {
      assert BasicRecord(st, st.waiting[key]);
    }
    forall i | Paired(st, i) && st.relays[i].status.Waiting?
      ensures Decimal(i) in st.waiting && st.waiting[Decimal(i)] == i {
      DecimalInjective(i, st.waiting[Decimal(i)]);
    }
  }

  /** niofindidle as written never does anything, after any run that does not crash, however
      many halves of sessions it has left behind: no overdue session is ever ended. */
  lemma FindIdleAsWritten(c: Config, evs: seq<Event>, now: int, walk: seq<nat>)
    requires !c.repaired && Run(c, evs).Ok? && IsWalk(Run(c, evs).value, walk)
    ensures FindIdle(c, Run(c, evs).value, now, walk) == Run(c, evs)
  {
    AnyRun(c, evs);
    SweepIdles(c, Run(c, evs).value, now, walk);
  }
}
