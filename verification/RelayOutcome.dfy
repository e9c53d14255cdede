/** What one event does to the session it is about, told by what read(2) and write(2) answer:
    which bytes go where, when the session ends, who is billed for what. */
module RelayOutcome {
  import opened Prelude
  import opened Relay
  import opened RelayInv
  import opened RelayCount
  import opened RelayReserve
  import opened RelayRuns
  import opened RelayWakeup
  import opened RelayLedger

  /** Between i and p: got was read from i's socket, the first n bytes of what i then held were
      written to p's socket, and the first m bytes of what p held to i's; the records and
      endpoints of other sessions are as they were. */
  ghost predicate Logged(st: Pool, st1: Pool, i: int, p: int, got: seq<byte>, n: nat, m: nat)
    requires Placed(st, i, p)
    requires n <= |Window(st.relays[i]) + got| && m <= |Window(st.relays[p])|
  {
    var e, f := st.relays[i].ep, st.relays[p].ep;
    && |st1.relays| == |st.relays| && |st1.eps| == |st.eps|
    && st1.eps[e].read == st.eps[e].read + got
    && st1.eps[e].delivered == st.eps[e].delivered + Window(st.relays[p])[..m]
    && st1.eps[f].read == st.eps[f].read
    && st1.eps[f].delivered == st.eps[f].delivered + (Window(st.relays[i]) + got)[..n]
    && (forall j {:trigger st1.relays[j]} :: Has(st, j) && j != i && j != p ==> st1.relays[j] == st.relays[j])
    && (forall g {:trigger st1.eps[g]} :: 0 <= g < |st.eps| && g != e && g != f ==> st1.eps[g] == st.eps[g])
  }

  /** The same with the session still open: what was not written is still buffered. */
  ghost predicate Through(st: Pool, st1: Pool, i: int, p: int, got: seq<byte>, n: nat, m: nat)
    requires Placed(st, i, p)
    requires n <= |Window(st.relays[i]) + got| && m <= |Window(st.relays[p])|
  {
    var r, q := st.relays[i], st.relays[p];
    && Logged(st, st1, i, p, got, n, m) && Placed(st1, i, p)
    && SameEnd(r, st1.relays[i]) && st1.relays[i].ttidl == r.ttidl
    && SameEnd(q, st1.relays[p]) && st1.relays[p].ttidl == q.ttidl
    && Window(st1.relays[i]) == (Window(r) + got)[n..] && Window(st1.relays[p]) == Window(q)[m..]
    && st1.cache == st.cache && st1.waiting == st.waiting && st1.bills == st.bills
  }

  /** How many bytes of b a write to q takes. */
  function Taken(q: Relay, b: seq<byte>, w: WriteResult): (n: nat)
    ensures n <= |b|
  {
    if q.status.Active? && w.Wrote? then Min(w.n, |b|) else 0
  }

  // ---------------------------------------------------------------- one flush

  lemma PlacedMates(c: Config, st: Pool, i: int)
    requires Inv(c, st) && Paired(st, i)
    ensures Placed(st, i, st.relays[i].peer) && Mates(st, i, st.relays[i].peer)
    ensures SelfOk(c, st.relays[i]) && SelfOk(c, st.relays[st.relays[i].peer])
  {
    EndsOf(c, st, i);
    EndsPlaced(c, st, i, st.relays[i].peer);
  }

  lemma DisarmedThrough(st: Pool, i: int, p: int)
    requires Placed(st, i, p)
    ensures Through(st, Disarmed(st, i, p), i, p, [], 0, 0)
  {
    var r, q := st.relays[i], st.relays[p];
    SameWindow(r, Disarmed(st, i, p).relays[i]);
    SameWindow(q, Disarmed(st, i, p).relays[p]);
    hide Window;
    assert Window(r) + [] == Window(r);
  }

  lemma WrittenThrough(c: Config, st: Pool, i: int, p: int, w: WriteResult, n: nat)
    requires Placed(st, i, p) && SelfOk(c, st.relays[i]) && st.relays[i].x1 > 0
    requires c.repaired || Clean(w)
    requires n == if w.Wrote? then Min(w.n, |Window(st.relays[i])|) else 0
    ensures Through(st, Written(c, st, i, p, w).0, i, p, [], n, 0)
  {
    var r, q := st.relays[i], st.relays[p];
    WrittenShape(c, st, i, p, w, n);
    AdvancedWindow(c, r, n);
    hide Window, Written;
    SameWindow(q, Arm(q));
    assert Window(r) + [] == Window(r) && Window(q)[..0] == [];
  }

  lemma NothingThrough(st: Pool, i: int, p: int)
    requires Placed(st, i, p)
    ensures Through(st, st, i, p, [], 0, 0)
  {
    hide Window;
    var r, q := Window(st.relays[i]), Window(st.relays[p]);
    assert r + [] == r;
    assert q[..0] == [];
  }

  /** A read, then a flush of the same end. */
  lemma ThenFlushed(st: Pool, st1: Pool, st2: Pool, i: int, p: int, got: seq<byte>, n: nat)
    requires Placed(st, i, p) && Through(st, st1, i, p, got, 0, 0)
    requires n <= |Window(st1.relays[i])| && Through(st1, st2, i, p, [], n, 0)
    ensures Window(st1.relays[i]) == Window(st.relays[i]) + got
    ensures Through(st, st2, i, p, got, n, 0)
  {
    hide Window, Paired;
    var b := Window(st.relays[i]) + got;
    assert b[0..] == b && b + [] == b;
    var q := Window(st.relays[p]);
    assert q[0..] == q && q[..0] == [];
  }

  lemma FlushThrough(c: Config, st: Pool, i: int, p: int, w: WriteResult)
    requires Placed(st, i, p) && st.relays[i].peer == p && SelfOk(c, st.relays[i]) && SelfOk(c, st.relays[p])
    requires c.repaired || Clean(w) || st.relays[i].x1 == 0 || !st.relays[p].ev
    ensures Flush(c, st, i, w).Ok?
    ensures Through(st, Flush(c, st, i, w).value.0, i, p, [], Taken(st.relays[p], Window(st.relays[i]), w), 0)
  {
    hide Through, Written;
    if st.relays[p].ev {
      var st1 := Disarmed(st, i, p);
      DisarmedThrough(st, i, p);
      SameWindow(st.relays[i], st1.relays[i]);
      if st1.relays[i].x1 > 0 {
        var n := Taken(st.relays[p], Window(st.relays[i]), w);
        hide Window;
        DisarmedPlaced(st, i, p);
        WrittenThrough(c, st1, i, p, w, n);
        ThenFlushed(st, st1, Written(c, st1, i, p, w).0, i, p, [], n);
      }
    } else {
      NothingThrough(st, i, p);
    }
  }

  lemma DisarmedPlaced(st: Pool, i: int, p: int)
    requires Placed(st, i, p)
    ensures Placed(Disarmed(st, i, p), i, p)
  {
  }

  /** nioflush2peer between any two ends of a session: to a connected peer it writes what is
      buffered, as much as the socket takes, and answers with that count; nothing else moves.
      -1 says that there were bytes and the write failed. */
  lemma FlushOutcome(c: Config, st: Pool, i: int, w: WriteResult)
    requires Inv(c, st) && Paired(st, i) && (c.repaired || FlushSafe(st, i, w))
    ensures Placed(st, i, st.relays[i].peer) && Flush(c, st, i, w).Ok?
    ensures var (st1, cc) := Flush(c, st, i, w).value;
            var p := st.relays[i].peer;
            var b := Window(st.relays[i]);
            && Through(st, st1, i, p, [], Taken(st.relays[p], b, w), 0)
            && cc == if !st.relays[p].status.Active? || b == [] then 0
                     else if w.Wrote? then Taken(st.relays[p], b, w) else -1
  {
    PlacedMates(c, st, i);
    hide Inv, Through, Mates;
    FlushThrough(c, st, i, st.relays[i].peer, w);
  }

  // ---------------------------------------------------------------- the read

  /** read(2) is called, and comes back with end of file or an errno that is not a retry. */
  predicate ReadsEnd(r: Relay, rd: ReadResult) {
    r.x1 < |r.buf| && (rd.ReadFail? || rd == Got([]))
  }

  lemma FilledWindow(c: Config, r: Relay, b: seq<byte>)
    requires SelfOk(c, r) && r.x1 + |b| <= |r.buf|
    ensures Window(Filled(r, b)) == Window(r) + b
  {
    Splice(r.buf, r.x2, r.x1, b);
  }

  lemma FilledThrough(c: Config, st: Pool, i: int, p: int, b: seq<byte>)
    requires Placed(st, i, p) && SelfOk(c, st.relays[i])
    requires st.relays[i].x1 + |b| <= |st.relays[i].buf|
    ensures Through(st, Set(st, i, Filled(st.relays[i], b)).(eps := LogRead(st.eps, st.relays[i].ep, b)), i, p, b, 0, 0)
  {
    var r, q := st.relays[i], st.relays[p];
    FilledWindow(c, r, b);
    hide Window;
    assert Window(q)[..0] == [] && Window(q)[0..] == Window(q);
    assert st.eps[r.ep].delivered + [] == st.eps[r.ep].delivered;
    assert st.eps[q.ep].delivered + [] == st.eps[q.ep].delivered;
  }

  /** Through does not see the events field. */
  lemma QuietThrough(st: Pool, st1: Pool, i: int, p: int, got: seq<byte>)
    requires Placed(st, i, p) && Placed(Set(st, i, st.relays[i].(events := NOTHING)), i, p)
    requires Through(Set(st, i, st.relays[i].(events := NOTHING)), st1, i, p, got, 0, 0)
    ensures Through(st, st1, i, p, got, 0, 0)
  {
    SameWindow(st.relays[i], st.relays[i].(events := NOTHING));
    hide Window;
  }

  /** The read takes what it is given room for, and is final exactly at end of file or on a
      hard error; with a full buffer there is no read, and so no end. */
  lemma ReadPartOutcome(c: Config, st: Pool, i: int, rd: ReadResult)
    requires Inv(c, st) && Has(st, i) && st.relays[i].status.Active?
    ensures Placed(st, i, st.relays[i].peer) && ReadPart(st, i, rd).Ok?
    ensures var (st1, fatal) := ReadPart(st, i, rd).value;
            && Through(st, st1, i, st.relays[i].peer, BytesRead(st.relays[i], rd), 0, 0)
            && (fatal <==> ReadsEnd(st.relays[i], rd))
  {
    PlacedMates(c, st, i);
    var r, p := st.relays[i], st.relays[i].peer;
    var st0 := Set(st, i, r.(events := NOTHING));
    var b := BytesRead(r, rd);
    ReadOutcome(st0, i, rd);
    var st1 := Read(st0, i, rd).value.0;
    assert Through(st0, st1, i, p, b, 0, 0) by {
      hide Through, Read;
      if b == [] {
        NothingThrough(st0, i, p);
      } else {
        FilledThrough(c, st0, i, p, b);
      }
    }
    hide Through;
    QuietThrough(st, st1, i, p, b);
  }

  /** Then a flush of the other end too. */
  lemma ThenAnswered(st: Pool, st1: Pool, st2: Pool, i: int, p: int, got: seq<byte>, n: nat, m: nat)
    requires Placed(st, i, p) && n <= |Window(st.relays[i]) + got|
    requires Through(st, st1, i, p, got, n, 0) && Placed(st1, p, i)
    requires m <= |Window(st1.relays[p])| && Through(st1, st2, p, i, [], m, 0)
    ensures Window(st1.relays[p]) == Window(st.relays[p])
    ensures Placed(st2, i, p) ==> Through(st, st2, i, p, got, n, m)
  {
    hide Window, Paired;
    var b := (Window(st.relays[i]) + got)[n..];
    assert b[0..] == b && b[..0] == [];
    var q := Window(st.relays[p]);
    assert q[0..] == q && q + [] == q;
  }

  // ---------------------------------------------------------------- the end of a session

  /** Both ends are back in the pool: i is billed and, if it was connected, so is p after it;
      the records that were out of the cache return to it in that order. */
  ghost predicate Over(st: Pool, st1: Pool, i: int, p: int)
    requires Has(st, i) && Has(st, p)
  {
    var both := st.relays[p].status.Active?;
    && BothGone(st, st1, i, p)
    && st1.bills == st.bills + [BillOf(st.relays[i])] + (if both then [BillOf(st.relays[p])] else [])
    && i >= 0 && p >= 0
    && st1.cache == st.cache + [i] + (if both then [p] else [])
  }

  lemma TeardownOver(c: Config, st: Pool, i: int)
    requires Inv(c, st) && Has(st, i) && st.relays[i].status.Active? && (c.repaired || TeardownSafe(st, i))
    ensures Teardown(c, st, i).Ok? && Has(st, st.relays[i].peer)
    ensures Over(st, Teardown(c, st, i).value, i, st.relays[i].peer)
  {
    MatesOf(c, st, i);
    TeardownKeeps(c, st, i);
    var p := st.relays[i].peer;
    assert RecordOk(c, st, i) && RecordOk(c, st, p);
    hide Inv, BothGone, Window;
  }

  /** The same with the session over: both ends are back in the pool, i is billed and, if it
      was connected, p after it, each for what was left in its buffer; they return to the cache
      in that order. */
  ghost predicate Finished(st: Pool, st1: Pool, i: int, p: int, got: seq<byte>, n: nat, m: nat)
    requires Placed(st, i, p)
    requires n <= |Window(st.relays[i]) + got| && m <= |Window(st.relays[p])|
  {
    var r, q, k := st.relays[i], st.relays[p], |st.bills|;
    var both := q.status.Active?;
    && Logged(st, st1, i, p, got, n, m)
    && st1.relays[i].status.Idle? && st1.relays[p].status.Idle?
    && st1.waiting == st.waiting - {Decimal(i), Decimal(p)}
    && st.bills <= st1.bills && |st1.bills| == k + (if both then 2 else 1)
    && st1.bills[k].ep == r.ep && st1.bills[k].lost == (Window(r) + got)[n..]
    && (both ==> st1.bills[k + 1].ep == q.ep && st1.bills[k + 1].lost == Window(q)[m..])
    && i >= 0 && p >= 0 && st1.cache == st.cache + [i] + (if both then [p] else [])
  }

  lemma ThenOver(st: Pool, st1: Pool, st2: Pool, i: int, p: int, got: seq<byte>, n: nat, m: nat)
    requires Placed(st, i, p) && n <= |Window(st.relays[i]) + got| && m <= |Window(st.relays[p])|
    requires Through(st, st1, i, p, got, n, m) && Over(st1, st2, i, p)
    ensures Finished(st, st2, i, p, got, n, m)
  {
    hide Window, Paired;
  }

  lemma ThroughEnds(st: Pool, st1: Pool, i: int, p: int, got: seq<byte>, n: nat, m: nat)
    requires Placed(st, i, p) && n <= |Window(st.relays[i]) + got| && m <= |Window(st.relays[p])|
    requires Through(st, st1, i, p, got, n, m)
    ensures Placed(st1, i, p) && Has(st1, i) && Has(st1, p)
    ensures st1.relays[i].status == st.relays[i].status && st1.relays[i].peer == st.relays[i].peer
    ensures st1.relays[p].status == st.relays[p].status && st1.relays[p].peer == st.relays[p].peer
    ensures Window(st1.relays[i]) == (Window(st.relays[i]) + got)[n..]
    ensures Window(st1.relays[p]) == Window(st.relays[p])[m..]
  {
    hide Window;
  }

  lemma PlacedHas(st: Pool, i: int, p: int)
    requires Placed(st, i, p)
    ensures Has(st, i) && Has(st, p)
  {
  }

  lemma PairedMates(st: Pool, i: int, p: int)
    requires Mates(st, i, p)
    ensures Paired(st, i) && Paired(st, p) && Has(st, i) && Has(st, p)
  {
  }

  // ---------------------------------------------------------------- whole events

  /** A write of b to q fails, and not only for now. */
  predicate WriteFails(q: Relay, b: seq<byte>, w: WriteResult) {
    q.status.Active? && b != [] && w.WriteFail?
  }

  /** The rest of an EPOLLIN event, after the read took got. */
  lemma AfterReadOutcome(c: Config, st: Pool, st1: Pool, i: int, fatal: bool, got: seq<byte>,
                         w: WriteResult, w2: WriteResult)
    requires Inv(c, st1) && Has(st1, i) && Mates(st1, i, st1.relays[i].peer) && st1.relays[i].status.Active?
    requires c.repaired || (FlushSafe(st1, i, w) && (fatal ==> TeardownSafe(st1, i)))
    requires Placed(st, i, st1.relays[i].peer) && Through(st, st1, i, st1.relays[i].peer, got, 0, 0)
    ensures AfterRead(c, st1, i, fatal, w, w2).Ok?
    ensures var p := st1.relays[i].peer;
            var r, q := st.relays[i], st.relays[p];
            var b := Window(r) + got;
            var n := Taken(q, b, w);
            var st2 := AfterRead(c, st1, i, fatal, w, w2).value;
            if fatal then Finished(st, st2, i, p, got, n, 0)
            else if WriteFails(q, b, w) then Finished(st, st2, i, p, got, n, Taken(r, Window(q), w2))
            else Through(st, st2, i, p, got, n, 0)
  {
    hide Inv, Flush, Teardown, Through, Finished, Window, Over, Placed, Paired;
    PlacedHas(st, i, st1.relays[i].peer);
    var p := st1.relays[i].peer;
    var r, q := st.relays[i], st.relays[p];
    var b := Window(r) + got;
    ThroughEnds(st, st1, i, p, got, 0, 0);
    if fatal || q.status.Active? {
      var n := Taken(q, b, w);
      PairedMates(st1, i, p);
      FlushKeeps(c, st1, i, w);
      FlushOutcome(c, st1, i, w);
      var (st2, cc) := Flush(c, st1, i, w).value;
      ThenFlushed(st, st1, st2, i, p, got, n);
      ThroughEnds(st, st2, i, p, got, n, 0);
      if fatal {
        TeardownOver(c, st2, i);
        ThenOver(st, st2, Teardown(c, st2, i).value, i, p, got, n, 0);
      } else if WriteFails(q, b, w) {
        FailedFlush(c, st1, i, w);
        FlushFailedTwice(c, st, st2, i, p, got, n, w2);
      }
    }
  }

  /** The flush of the other end, and the teardown, that a failed write brings on. */
  lemma FlushFailedTwice(c: Config, st: Pool, st2: Pool, i: int, p: int, got: seq<byte>, n: nat, w2: WriteResult)
    requires c.repaired && Inv(c, st2) && Mates(st2, i, p)
    requires Placed(st, i, p) && n <= |Window(st.relays[i]) + got| && Through(st, st2, i, p, got, n, 0)
    requires st2.relays[i].status.Active?
    ensures var f := Flush(c, st2, p, w2);
            && f.Ok? && Has(f.value.0, i) && Teardown(c, f.value.0, i).Ok?
            && Finished(st, Teardown(c, f.value.0, i).value, i, p, got, n,
                        Taken(st.relays[i], Window(st.relays[p]), w2))
  {
    hide Inv, Flush, Teardown, Through, Finished, Window, Over;
    var m := Taken(st.relays[i], Window(st.relays[p]), w2);
    ThroughEnds(st, st2, i, p, got, n, 0);
    FlushKeeps(c, st2, p, w2);
    FlushOutcome(c, st2, p, w2);
    var st3 := Flush(c, st2, p, w2).value.0;
    PlacedMates(c, st3, i);
    ThenAnswered(st, st2, st3, i, p, got, n, m);
    TeardownOver(c, st3, i);
    ThenOver(st, st3, Teardown(c, st3, i).value, i, p, got, n, m);
  }

  /** EPOLLIN on i, whole.  What is read joins what i has buffered; if the peer is connected,
      what its socket takes of that goes out, at end of file and on a hard error too.  The session
      ends exactly when the read is final or the write fails for good.  In the second case what
      the peer has buffered is offered to i before both are shut. */
  lemma ReadableVerdict(c: Config, st: Pool, i: nat, rd: ReadResult, w: WriteResult, w2: WriteResult)
    requires Inv(c, st) && Has(st, i) && st.relays[i].status.Active?
    requires c.repaired || ReadableSafe(st, i, rd, w)
    ensures Placed(st, i, st.relays[i].peer) && Readable(c, st, i, rd, w, w2).Ok?
    ensures var p := st.relays[i].peer;
            var r, q := st.relays[i], st.relays[p];
            var b := Window(r) + BytesRead(r, rd);
            var n := Taken(q, b, w);
            var st1 := Readable(c, st, i, rd, w, w2).value;
            && (ReadsEnd(r, rd) ==> Finished(st, st1, i, p, BytesRead(r, rd), n, 0))
            && (!ReadsEnd(r, rd) && WriteFails(q, b, w) ==>
                  Finished(st, st1, i, p, BytesRead(r, rd), n, Taken(r, Window(q), w2)))
            && (!ReadsEnd(r, rd) && !WriteFails(q, b, w) ==> Through(st, st1, i, p, BytesRead(r, rd), n, 0))
            && (st1.relays[i].status.Idle? <==> ReadsEnd(r, rd) || WriteFails(q, b, w))
            && (st1.relays[p].status.Idle? <==> ReadsEnd(r, rd) || WriteFails(q, b, w))
  {
    hide Inv, AfterRead, Through, Window, Read, Placed, BytesRead, FlushSafe, TeardownSafe;
    MatesOf(c, st, i);
    ReadPartKeeps(c, st, i, rd);
    ReadPartOutcome(c, st, i, rd);
    var (st1, fatal) := ReadPart(st, i, rd).value;
    var got := BytesRead(st.relays[i], rd);
    AfterReadOutcome(c, st, st1, i, fatal, got, w, w2);
    var st2 := Readable(c, st, i, rd, w, w2).value;
    var p := st.relays[i].peer;
    var b := Window(st.relays[i]) + got;
    var n := Taken(st.relays[p], b, w);
    if !ReadsEnd(st.relays[i], rd) && !WriteFails(st.relays[p], b, w) {
      ThroughEnds(st, st2, i, p, got, n, 0);
      MatesOf(c, st, i);
    }
  }

  /** EPOLLOUT on i: what the peer has buffered goes out, as much as i's socket takes, and
      EPOLLOUT stays registered exactly when some is left. */
  lemma WritableVerdict(c: Config, st: Pool, i: nat, w: WriteResult)
    requires Inv(c, st) && Wakes(st, -1) && Has(st, i) && st.relays[i].status.Active?
    requires c.repaired || FlushSafe(st, st.relays[i].peer, w)
    ensures Has(st, st.relays[i].peer) && Placed(st, st.relays[i].peer, i) && Writable(c, st, i, w).Ok?
    ensures var p := st.relays[i].peer;
            var st1 := Writable(c, st, i, w).value;
            && Through(st, st1, p, i, [], Taken(st.relays[i], Window(st.relays[p]), w), 0)
            && (st1.relays[i].reg.wr <==> Window(st1.relays[p]) != [])
  {
    MatesOf(c, st, i);
    var p := st.relays[i].peer;
    FlushOutcome(c, st, p, w);
    FlushKeeps(c, st, p, w);
    assert WakeOk(st, p);
    FlushWakes(c, st, p, w);
    var st1 := Writable(c, st, i, w).value;
    assert WakeOk(st1, p) && RecordOk(c, st1, p) && RecordOk(c, st1, i);
  }

  // ---------------------------------------------------------------- deadlines

  lemma SameSize(c: Config, st: Pool, st1: Pool)
    requires Inv(c, st) && Inv(c, st1)
    ensures |st1.relays| == |st.relays|
  {
  }

  /** niogetpeer makes no session but with two new endpoints. */
  lemma ReservedBefore(c: Config, st: Pool, now: int, i: int)
    requires Inv(c, st)
    ensures GetPeer(c, st, now).Ok?
    ensures var st1 := GetPeer(c, st, now).value.0;
            Paired(st1, i) && st1.relays[i].ep < |st.eps| ==> Paired(st, i) && st1.relays[i] == st.relays[i]
  {
    GetPeerVerdict(c, st, now);
    var (st1, answer) := GetPeer(c, st, now).value;
    if answer.Some? {
      JoinedPaired(c, st, st1, answer.value.0, answer.value.1, i);
    } else if st1 != st {
      NextIdleBound(st, 0);
      NotFiled(c, st, st.cache[NextIdle(st, 0)]);
    }
  }

  /** After any safe event, a session that is there was there before, or was made by the event
      itself; and the deadlines of its two ends are what they were. */
  lemma SessionBefore(c: Config, st: Pool, e: Event, i: int)
    requires Inv(c, st) && Safe(c, st, e)
    ensures Step(c, st, e).Ok?
    ensures var st1 := Step(c, st, e).value;
            Paired(st1, i) && st1.relays[i].ep < |st.eps| ==>
              && Paired(st, i) && st.relays[i].ep == st1.relays[i].ep
              && st1.relays[i].peer == st.relays[i].peer && st1.relays[i].ttidl == st.relays[i].ttidl
  {
    hide Inv, Readable, Flush, Teardown, FindIdle, Benign, Window;
    if Possible(st, e) {
      match e
      case EvGetPeer(now) => ReservedBefore(c, st, now, i);
      case EvStart(sid, sock) => StartVerdict(c, st, sid, sock);
      case EvReadable(j, rd, w, w2) =>
        SafeParts(c, st, e);
        ReadableVerdict(c, st, j, rd, w, w2);
      case EvWritable(j, w) =>
        SafeParts(c, st, e);
        MatesOf(c, st, j);
        FlushOutcome(c, st, st.relays[j].peer, w);
      case EvHangup(j) =>
        SafeParts(c, st, e);
        TeardownOver(c, st, j);
      case EvFindIdle(now, walk) =>
        if c.repaired {
          FindIdleVerdict(c, st, now, walk);
          SameSize(c, st, FindIdle(c, st, now, walk).value);
        } else {
          InvBasic(c, st);
          SweepIdles(c, st, now, walk);
        }
    }
  }

  /** If record i still plays endpoint e, its peer and its deadline are these. */
  ghost predicate Due(st: Pool, i: nat, e: int, p: nat, deadline: int) {
    && 0 <= e < |st.eps|
    && (Paired(st, i) && st.relays[i].ep == e ==> st.relays[i].peer == p && st.relays[i].ttidl == deadline)
  }

  /** The run before, then niogetpeer at the time now, then the run more. */
  function Reserving(before: seq<Event>, now: int, more: seq<Event>): seq<Event> {
    before + [EvGetPeer(now)] + more
  }

  /** A pair reserved at the time now keeps its deadline for as long as its session lives,
      whatever happens meanwhile. */
  lemma {:induction false} DeadlineKept(c: Config, before: seq<Event>, now: int, more: seq<Event>, a: nat, b: nat)
    requires SafeRun(c, Reserving(before, now, more)) && SafeRun(c, before) && Run(c, before).Ok?
    requires GetPeer(c, Run(c, before).value, now).Ok?
    requires GetPeer(c, Run(c, before).value, now).value.1 == Some((a, b))
    ensures Run(c, Reserving(before, now, more)).Ok?
    ensures var e := |Run(c, before).value.eps|;
            var st := Run(c, Reserving(before, now, more)).value;
            Due(st, a, e, b, now + c.ttidl) && Due(st, b, e + 1, a, now + c.ttidl)
    decreases |more|
  {
    hide Step, Safe, GetPeer;
    var evs := Reserving(before, now, more);
    RunKeeps(c, evs);
    if more == [] {
      assert evs == before + [EvGetPeer(now)] && evs[..|evs| - 1] == before;
      RunKeeps(c, before);
      GetPeerVerdict(c, Run(c, before).value, now);
      ReserveStep(c, Run(c, before).value, now);
    } else {
      var init := more[..|more| - 1];
      assert evs[..|evs| - 1] == Reserving(before, now, init);
      DeadlineKept(c, before, now, init, a, b);
      RunKeeps(c, Reserving(before, now, init));
      var st := Run(c, Reserving(before, now, init)).value;
      SessionBefore(c, st, evs[|evs| - 1], a);
      SessionBefore(c, st, evs[|evs| - 1], b);
      StepGrows(c, st, evs[|evs| - 1]);
    }
  }

  lemma ReserveStep(c: Config, st: Pool, now: int)
    requires GetPeer(c, st, now).Ok?
    ensures Step(c, st, EvGetPeer(now)) == Ok(GetPeer(c, st, now).value.0)
  {
  }

  /** niofindidle mended, on a pair reserved at the time now, any safe run later: it ends the
      session, both ends, exactly when an end is still waiting ttidl seconds after now. */
  lemma ExpiresOnTime(c: Config, before: seq<Event>, now: int, more: seq<Event>, a: nat, b: nat,
                      t: int, walk: seq<nat>)
    requires c.repaired && Run(c, before).Ok? && Run(c, Reserving(before, now, more)).Ok?
    requires GetPeer(c, Run(c, before).value, now).Ok?
    requires GetPeer(c, Run(c, before).value, now).value.1 == Some((a, b))
    requires var st := Run(c, Reserving(before, now, more)).value;
             Paired(st, a) && st.relays[a].ep == |Run(c, before).value.eps| && IsWalk(st, walk)
    ensures var st := Run(c, Reserving(before, now, more)).value;
            && Has(st, b) && FindIdle(c, st, t, walk).Ok?
            && var st1 := FindIdle(c, st, t, walk).value;
            && (Paired(st1, a) <==> Paired(st1, b))
            && (Paired(st1, a) <==> (st.relays[a].status.Active? && st.relays[b].status.Active?) || t < now + c.ttidl)
  {
    hide GetPeer, FindIdle;
    RepairedRuns(c, before);
    RepairedRuns(c, Reserving(before, now, more));
    DeadlineKept(c, before, now, more, a, b);
    var st := Run(c, Reserving(before, now, more)).value;
    assert LinkOk(st, a) && LinkOk(st, b);
    FindIdleVerdict(c, st, t, walk);
  }

  // ---------------------------------------------------------------- which records are taken

  predicate IdleAt(st: Pool, k: nat) {
    k < |st.cache| && Has(st, st.cache[k]) && st.relays[st.cache[k]].status.Idle?
  }

  /** a and b stand at ka and kb in the cache, and no other idle record stands before kb. */
  ghost predicate FirstIdle(st: Pool, ka: nat, kb: nat, a: nat, b: nat) {
    && ka < kb < |st.cache| && st.cache[ka] == a && st.cache[kb] == b
    && IdleAt(st, ka) && IdleAt(st, kb)
    && forall k: nat {:trigger st.cache[k]} :: k < kb && k != ka ==> !IdleAt(st, k)
  }

  /** niogetpeer takes the two idle records that come first in the cache, in that order; and
      when it strands one, it does not add the time to its deadline. */
  lemma TakesFirstIdle(c: Config, st: Pool, now: int)
    requires Inv(c, st)
    ensures GetPeer(c, st, now).Ok?
    ensures var (st1, answer) := GetPeer(c, st, now).value;
            && (answer.Some? ==> exists ka: nat, kb: nat :: FirstIdle(st, ka, kb, answer.value.0, answer.value.1))
            && (forall i :: Stranded(st1, i) && !Stranded(st, i) ==> st1.relays[i].ttidl == c.ttidl)
  {
    GetPeerVerdict(c, st, now);
    NextIdleBound(st, 0);
    var (st1, answer) := GetPeer(c, st, now).value;
    var ka := NextIdle(st, 0);
    if ka < |st.cache| {
      var a := st.cache[ka];
      var st0 := Set(st, a, Reserve(st.relays[a], c.ttidl));
      NextIdleBound(st0, ka + 1);
      if answer.Some? {
        var kb := NextIdle(st0, ka + 1);
        forall k: nat | k < kb && k != ka ensures !IdleAt(st, k) {
          assert st.cache[k] != a;
        }
        assert FirstIdle(st, ka, kb, a, st.cache[kb]);
      }
    }
    if answer.Some? {
      forall i | Stranded(st1, i) ensures Stranded(st, i) {
        JoinedPaired(c, st, st1, answer.value.0, answer.value.1, i);
      }
    }
  }

  /** st1 is st with the records i and p idle again, at the end of the cache. */
  ghost predicate Rejoined(st: Pool, st1: Pool, i: nat, p: nat) {
    && |st1.relays| == |st.relays| && st1.cache == st.cache + [i, p]
    && i !in IdleSet(st) && p !in IdleSet(st)
    && IdleSet(st1) == IdleSet(st) + {i, p}
    && forall x: int :: x in IdleSet(st) ==> x >= 0 && x in st.cache
  }

  lemma OldIdlesFirst(st: Pool, st1: Pool, i: nat, p: nat, ka: nat, kb: nat, a: nat, b: nat)
    requires Rejoined(st, st1, i, p) && |IdleSet(st)| >= 2 && FirstIdle(st1, ka, kb, a, b)
    ensures kb < |st.cache|
  {
    if kb >= |st.cache| {
      forall x | x in IdleSet(st) ensures x == a {
        var k: nat :| k < |st.cache| && st.cache[k] == x;
        assert st1.cache[k] == x && x in IdleSet(st1);
        assert IdleAt(st1, k);
      }
      AtMostOne(IdleSet(st));
    }
  }

  lemma OverRejoined(c: Config, st: Pool, st1: Pool, i: nat, p: nat)
    requires Inv(c, st) && Has(st, i) && Has(st, p) && Over(st, st1, i, p)
    requires st.relays[i].status.Active? && st.relays[p].status.Active?
    ensures Rejoined(st, st1, i, p) && i !in st.cache && p !in st.cache
  {
    forall x | x in IdleSet(st) ensures x in st.cache {
      assert RecordOk(c, st, x);
    }
    assert RecordOk(c, st, i) && RecordOk(c, st, p);
    hide Inv;
    forall x ensures x in IdleSet(st1) <==> x in IdleSet(st) || x == i || x == p {}
  }

  lemma MoreIdles(s: set<int>, t: set<int>)
    requires s <= t
    ensures |s| <= |t|
  {
    assert t == s + (t - s);
  }

  lemma SomePair(c: Config, st: Pool, now: int)
    requires Inv(c, st) && |IdleSet(st)| >= 2 && GetPeer(c, st, now).Ok?
    ensures GetPeer(c, st, now).value.1.Some?
  {
    SearchCounts(c, st, now);
  }

  /** A finished pair goes to the end of the queue: while two other records are idle, it is
      not the pair that niogetpeer answers with. */
  lemma ReusedLast(c: Config, st: Pool, i: int, now: int)
    requires Inv(c, st) && TeardownSafe(st, i) && |IdleSet(st)| >= 2
    ensures Teardown(c, st, i).Ok?
    ensures var st1 := Teardown(c, st, i).value;
            && GetPeer(c, st1, now).Ok? && GetPeer(c, st1, now).value.1.Some?
            && var (a, b) := GetPeer(c, st1, now).value.1.value;
            a in IdleSet(st) && b in IdleSet(st)
  {
    hide Inv, Teardown, GetPeer, Over, BothGone;
    MatesOf(c, st, i);
    TeardownKeeps(c, st, i);
    TeardownOver(c, st, i);
    var p := st.relays[i].peer;
    var st1 := Teardown(c, st, i).value;
    OverRejoined(c, st, st1, i, p);
    assert IdleSet(st) <= IdleSet(st1);
    MoreIdles(IdleSet(st), IdleSet(st1));
    GetPeerVerdict(c, st1, now);
    SomePair(c, st1, now);
    TakesFirstIdle(c, st1, now);
    var (a, b) := GetPeer(c, st1, now).value.1.value;
    var ka: nat, kb: nat :| FirstIdle(st1, ka, kb, a, b);
    OldIdlesFirst(st, st1, i, p, ka, kb, a, b);
    assert st.cache[ka] == a && st.cache[kb] == b;
    assert a in IdleSet(st1) && b in IdleSet(st1);
  }
}
