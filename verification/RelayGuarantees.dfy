/** What any run of the repaired engine guarantees, and any run of the code as written that is
    made of benign events, in the terms of its state. */
module RelayGuarantees {
  import opened Prelude
  import opened Relay
  import opened RelayInv
  import opened RelayCount
  import opened RelayReserve
  import opened RelayRuns

  /** Some safe run ends in this state. */
  ghost predicate Reachable(c: Config, st: Pool) {
    exists evs :: SafeRun(c, evs) && Run(c, evs) == Ok(st)
  }

  /** For the repaired engine that is any run. */
  lemma RepairedReachable(c: Config, st: Pool)
    requires c.repaired
    ensures Reachable(c, st) <==> exists evs :: Run(c, evs) == Ok(st)
  {
    if evs :| Run(c, evs) == Ok(st) {
      RepairedRuns(c, evs);
    }
  }

  lemma ReachableInv(c: Config, st: Pool)
    requires Reachable(c, st)
    ensures Inv(c, st)
  {
    var evs :| SafeRun(c, evs) && Run(c, evs) == Ok(st);
    RunKeeps(c, evs);
  }

  // ---------------------------------------------------------------- what is promised

  /** A record in a session has a peer, not itself, whose peer it is. */
  ghost predicate PeersMutual(st: Pool, i: int) {
    Paired(st, i) ==>
      var p := st.relays[i].peer;
      p != i && Paired(st, p) && st.relays[p].peer == i
  }

  /** What was delivered as endpoint e is a prefix of what was read as its mate; while e's
      session lives, what was read as e and not delivered at the mate is what is buffered. */
  ghost predicate Isolated(st: Pool, e: int) {
    0 <= e < |st.eps| ==>
      && 0 <= Mate(e) < |st.eps| && Mate(Mate(e)) == e && Has(st, st.eps[e].sid)
      && st.eps[e].delivered <= st.eps[Mate(e)].read
      && (Paired(st, st.eps[e].sid) && st.relays[st.eps[e].sid].ep == e ==>
            var i := st.eps[e].sid;
            var p := st.relays[i].peer;
            && Paired(st, p) && st.relays[p].ep == Mate(e)
            && st.eps[e].read == st.eps[Mate(e)].delivered + Window(st.relays[i]))
  }

  /** A bill counts the bytes read from its connection and those delivered to the peer, and
      their difference is what was dropped. */
  ghost predicate BillTrue(st: Pool, k: int) {
    0 <= k < |st.bills| ==>
      var b := st.bills[k];
      && 0 <= b.ep < |st.eps| && 0 <= Mate(b.ep) < |st.eps|
      && b.rbytes == |st.eps[b.ep].read| && b.wbytes == |st.eps[Mate(b.ep)].delivered|
      && b.rbytes - b.wbytes == |b.lost|
      && st.eps[b.ep].read == st.eps[Mate(b.ep)].delivered + b.lost
  }

  /** What a user of the relay is promised: sessions have two ends, bytes stay in their
      session, in order, and bills are true. */
  ghost predicate Promised(st: Pool) {
    && (forall i {:trigger PeersMutual(st, i)} :: PeersMutual(st, i))
    && (forall e {:trigger Isolated(st, e)} :: Isolated(st, e))
    && (forall k {:trigger BillTrue(st, k)} :: BillTrue(st, k))
  }

  lemma IsolatedOf(c: Config, st: Pool, e: int)
    requires Inv(c, st)
    ensures Isolated(st, e)
  {
    if 0 <= e < |st.eps| {
      assert EndpointOk(st, e);
      var i := st.eps[e].sid;
      assert StreamOk(st, i) && LinkOk(st, i);
    }
  }

  lemma InvPromised(c: Config, st: Pool)
    requires Inv(c, st)
    ensures Promised(st)
  {
    hide Isolated;
    forall i ensures PeersMutual(st, i) {
      if Paired(st, i) {
        MatesOf(c, st, i);
      }
    }
    forall e ensures Isolated(st, e) {
      IsolatedOf(c, st, e);
    }
    forall k ensures BillTrue(st, k) {
      assert 0 <= k < |st.bills| ==> BillOk(st, k);
    }
  }

  // ---------------------------------------------------------------- in every safe run

  /** Peers are mutual and never oneself; with a pool of even size every record that is not
      idle has one, so their number is even. */
  lemma MutualPeers(c: Config, st: Pool, i: int)
    requires Reachable(c, st)
    ensures && PeersMutual(st, i)
            && (Has(st, i) && c.maxrelay % 2 == 0 ==> (st.relays[i].status.Idle? <==> !Paired(st, i)))
            && |PairedSet(st)| % 2 == 0
  {
    hide Reachable;
    ReachableInv(c, st);
    Census(c, st);
    assert Stranded(st, i) ==> i in StrandedSet(st);
    if Paired(st, i) {
      MatesOf(c, st, i);
    }
  }

  /** niogetpeer after any run: two records or none, none exactly when maxrelay/2 sessions
      exist; it reserves a record without a peer exactly when it finds only one idle, which
      cannot happen in a pool of even size. */
  lemma TwoOrNone(c: Config, st: Pool, now: int)
    requires Reachable(c, st)
    ensures GetPeer(c, st, now).Ok?
    ensures var (st1, answer) := GetPeer(c, st, now).value;
            && (answer.None? <==> Sessions(st) == c.maxrelay / 2)
            && (answer.None? && c.maxrelay % 2 == 0 ==> st1 == st)
            && (answer.Some? ==>
                 var (a, b) := answer.value;
                 && Has(st, a) && Has(st, b) && a != b
                 && st.relays[a].status.Idle? && st.relays[b].status.Idle?
                 && Paired(st1, a) && Paired(st1, b)
                 && st1.relays[a].peer == b && st1.relays[b].peer == a
                 && st1.relays[b].ep == Mate(st1.relays[a].ep)
                 && st1.relays[a].ttidl == st1.relays[b].ttidl == now + c.ttidl)
            && ((exists i :: Stranded(st1, i) && !Stranded(st, i)) <==> |IdleSet(st)| == 1)
  {
    hide Reachable;
    ReachableInv(c, st);
    GetPeerVerdict(c, st, now);
    var (st1, answer) := GetPeer(c, st, now).value;
    if answer.Some? {
      JoinedPaired(c, st, st1, answer.value.0, answer.value.1, answer.value.0);
      JoinedPaired(c, st, st1, answer.value.0, answer.value.1, answer.value.1);
    }
  }

  /** Session isolation with record reuse: whatever was ever delivered as one end of a session
      is a prefix of what was read as the other end of the same session.  While the session
      lives the missing rest is exactly what is buffered. */
  lemma SessionIsolation(c: Config, st: Pool, e: int)
    requires Reachable(c, st)
    ensures Isolated(st, e)
  {
    hide Reachable;
    ReachableInv(c, st);
    IsolatedOf(c, st, e);
  }

  /** Each connection is billed once, when it is shut and not before; the bill's counts are
      the bytes read from it and the bytes delivered to its peer, and their difference is
      what was dropped. */
  lemma BilledOnce(c: Config, st: Pool, e: int)
    requires Reachable(c, st)
    ensures 0 <= e < |st.eps| ==>
              && (Billed(st, e) <==> st.eps[e].started && !Live(st, e))
              && (forall j, k :: 0 <= j < k < |st.bills| && st.bills[j].ep == e ==> st.bills[k].ep != e)
              && (forall k :: 0 <= k < |st.bills| && st.bills[k].ep == e ==> BillTrue(st, k))
  {
    hide Reachable;
    ReachableInv(c, st);
    if 0 <= e < |st.eps| {
      assert EndpointOk(st, e);
      if Live(st, e) {
        assert StreamOk(st, st.eps[e].sid);
      }
      forall j, k | 0 <= j < k < |st.bills| && st.bills[j].ep == e ensures st.bills[k].ep != e {
        assert BillOk(st, k);
      }
      forall k | 0 <= k < |st.bills| && st.bills[k].ep == e ensures BillTrue(st, k) {
        assert BillOk(st, k);
      }
    }
  }
}
