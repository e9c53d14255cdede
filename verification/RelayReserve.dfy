/** niogetpeer and niostartrelay: how records enter a session. */
module RelayReserve {
  import opened Prelude
  import opened Relay
  import opened RelayInv
  import opened RelayCount

  /** Two idle records became the two ends of a new session. */
  ghost predicate Joined(c: Config, st: Pool, st1: Pool, a: nat, b: nat) {
    && Has(st, a) && Has(st, b) && a != b && st.relays[a].status.Idle? && st.relays[b].status.Idle?
    && |st1.relays| == |st.relays|
    && (forall j {:trigger st1.relays[j]} :: Has(st, j) && j != a && j != b ==> st1.relays[j] == st.relays[j])
    && st1.relays[a].status.Waiting? && st1.relays[b].status.Waiting?
    && st1.relays[a].peer == b && st1.relays[b].peer == a
    && !st1.relays[a].flushed && !st1.relays[b].flushed
    && st1.relays[a].ep == |st.eps| && st1.relays[b].ep == |st.eps| + 1
    && st1.waiting == st.waiting[Decimal(a) := a][Decimal(b) := b]
    && st1.eps == Opened(st.eps, a, b)
    && st1.cache == st.cache && st1.shown == st.shown && st1.bills == st.bills
    && SelfOk(c, st1.relays[a]) && SelfOk(c, st1.relays[b])
  }

  lemma JoinedPaired(c: Config, st: Pool, st1: Pool, a: nat, b: nat, j: int)
    requires Joined(c, st, st1, a, b)
    ensures Paired(st1, j) == (Paired(st, j) || j == a || j == b)
    ensures j != a && j != b ==> Stranded(st1, j) == Stranded(st, j)
    ensures j == a || j == b ==> !Stranded(st1, j)
  {
    if Decimal(j) == Decimal(a) { DecimalInjective(j, a); }
    if Decimal(j) == Decimal(b) { DecimalInjective(j, b); }
  }

  lemma JoinedLinks(c: Config, st: Pool, st1: Pool, a: nat, b: nat)
    requires Links(st, -1) && Joined(c, st, st1, a, b) && |st.eps| % 2 == 0
    ensures Links(st1, -1)
  {
    forall j | 0 <= j < |st1.relays| ensures LinkOk(st1, j) {
      JoinedPaired(c, st, st1, a, b, j);
      JoinedPaired(c, st, st1, a, b, st1.relays[j].peer);
      if j != a && j != b {
        assert LinkOk(st, j);
      }
    }
  }

  lemma JoinedStreams(c: Config, st: Pool, st1: Pool, a: nat, b: nat)
    requires Streams(st) && Joined(c, st, st1, a, b) && |st.eps| % 2 == 0
    ensures Streams(st1)
  {
    forall j | 0 <= j < |st1.relays| ensures StreamOk(st1, j) {
      JoinedPaired(c, st, st1, a, b, j);
      if j != a && j != b {
        assert StreamOk(st, j);
      } else {
        assert Window(st1.relays[j]) == [];
      }
    }
  }

  lemma JoinedEndpoints(c: Config, st: Pool, st1: Pool, a: nat, b: nat)
    requires Endpoints(st) && Bills(st) && Joined(c, st, st1, a, b) && |st.eps| % 2 == 0
    ensures Endpoints(st1)
  {
    forall f | 0 <= f < |st1.eps| ensures EndpointOk(st1, f) {
      if f < |st.eps| {
        assert EndpointOk(st, f);
      } else {
        forall k | 0 <= k < |st.bills| ensures st.bills[k].ep != f {
          assert BillOk(st, k);
        }
      }
    }
  }

  lemma JoinedBills(c: Config, st: Pool, st1: Pool, a: nat, b: nat)
    requires Bills(st) && Joined(c, st, st1, a, b)
    ensures Bills(st1)
  {
    forall k | 0 <= k < |st1.bills| ensures BillOk(st1, k) {
      assert BillOk(st, k);
    }
  }

  lemma JoinedTables(c: Config, st: Pool, st1: Pool, a: nat, b: nat)
    requires TableOk(st) && StrandOk(st) && Joined(c, st, st1, a, b)
    ensures TableOk(st1) && StrandOk(st1)
  {
    forall j ensures Stranded(st1, j) ==> Stranded(st, j) {
      JoinedPaired(c, st, st1, a, b, j);
    }
    forall k | k in st1.waiting
      ensures Has(st1, st1.waiting[k]) && k == Decimal(st1.waiting[k]) && st1.relays[st1.waiting[k]].status.Waiting? {
      assert k == Decimal(a) || k == Decimal(b) || k in st.waiting;
    }
  }

  lemma JoinedRecords(c: Config, st: Pool, st1: Pool, a: nat, b: nat)
    requires Records(c, st) && Joined(c, st, st1, a, b)
    ensures Records(c, st1)
  {
    forall j | 0 <= j < |st1.relays| ensures RecordOk(c, st1, j) {
      assert RecordOk(c, st, j);
    }
  }

  lemma JoinedInv(c: Config, st: Pool, st1: Pool, a: nat, b: nat)
    requires Inv(c, st) && Joined(c, st, st1, a, b)
    ensures Inv(c, st1)
  {
    JoinedRecords(c, st, st1, a, b);
    JoinedLinks(c, st, st1, a, b);
    JoinedStreams(c, st, st1, a, b);
    JoinedEndpoints(c, st, st1, a, b);
    JoinedBills(c, st, st1, a, b);
    JoinedTables(c, st, st1, a, b);
  }

  /** A table entry for a record means that the record is waiting. */
  lemma NotFiled(c: Config, st: Pool, a: int)
    requires TableOk(st) && Has(st, a) && !st.relays[a].status.Waiting?
    ensures Decimal(a) !in st.waiting
  {
    if Decimal(a) in st.waiting {
      DecimalInjective(a, st.waiting[Decimal(a)]);
    }
  }

  /** One record is reserved alone. */
  lemma StrandKeeps(c: Config, st: Pool, a: nat)
    requires Inv(c, st) && Has(st, a) && st.relays[a].status.Idle?
    requires |IdleSet(st)| == 1
    ensures Inv(c, Set(st, a, Reserve(st.relays[a], c.ttidl)))
    ensures Stranded(Set(st, a, Reserve(st.relays[a], c.ttidl)), a)
  {
    Census(c, st);
    NotFiled(c, st, a);
    var st1 := Set(st, a, Reserve(st.relays[a], c.ttidl));
    forall j ensures Paired(st1, j) == Paired(st, j) && (j != a ==> Stranded(st1, j) == Stranded(st, j)) {}
    assert StrandedSet(st) == {};
    forall j | Stranded(st1, j) ensures j == a {
      assert j != a ==> j in StrandedSet(st);
    }
    forall j | 0 <= j < |st1.relays| ensures RecordOk(c, st1, j) {
      assert RecordOk(c, st, j);
    }
    forall j | 0 <= j < |st1.relays| ensures LinkOk(st1, j) {
      assert LinkOk(st, j);
    }
    forall j | 0 <= j < |st1.relays| ensures StreamOk(st1, j) {
      assert StreamOk(st, j);
    }
    StrandRest(c, st, st1, a);
  }

  lemma StrandRest(c: Config, st: Pool, st1: Pool, a: nat)
    requires Has(st, a) && st.relays[a].status.Idle? && Endpoints(st) && Bills(st)
    requires st1 == Set(st, a, Reserve(st.relays[a], c.ttidl))
    ensures Endpoints(st1) && Bills(st1)
  {
    forall f | 0 <= f < |st1.eps| ensures EndpointOk(st1, f) {
      assert EndpointOk(st, f);
    }
    forall k | 0 <= k < |st1.bills| ensures BillOk(st1, k) {
      assert BillOk(st, k);
    }
  }

  /** niogetpeer in any state the engine can be in.  It answers with two records that were
      idle and are now each other's peers, both due ttidl seconds from now, or with none; none
      exactly when half the pool, rounded down, is already in sessions.  It strands a record exactly when it finds one
      idle record and no second, which takes a pool of odd size. */
  lemma GetPeerVerdict(c: Config, st: Pool, now: int)
    requires Inv(c, st)
    ensures GetPeer(c, st, now).Ok? && Inv(c, GetPeer(c, st, now).value.0)
    ensures var (st1, answer) := GetPeer(c, st, now).value;
            && (answer.None? <==> Sessions(st) == c.maxrelay / 2)
            && (answer.Some? ==>
                  var (a, b) := answer.value;
                  && Joined(c, st, st1, a, b)
                  && st1.relays[a].ttidl == st1.relays[b].ttidl == now + c.ttidl)
            && ((exists i :: Stranded(st1, i) && !Stranded(st, i)) <==> |IdleSet(st)| == 1)
            && (answer.None? && |IdleSet(st)| != 1 ==> st1 == st)
            && (|IdleSet(st)| == 1 ==> answer.None? && c.maxrelay % 2 == 1)
  {
    SearchCounts(c, st, now);
    Census(c, st);
    var i := NextIdle(st, 0);
    if i < |st.cache| {
      var a := st.cache[i];
      NotFiled(c, st, a);
      assert RecordOk(c, st, a);
      var st1 := Set(st, a, Reserve(st.relays[a], c.ttidl));
      var j := NextIdle(st1, i + 1);
      if j == |st.cache| {
        StrandKeeps(c, st, a);
        assert Stranded(st1, a) && !Stranded(st, a);
      } else {
        var b := st.cache[j];
        NotFiled(c, st, b);
        assert RecordOk(c, st, b);
        var st2 := Paired2(c, st, a, b, now);
        assert Joined(c, st, st2, a, b);
        JoinedInv(c, st, st2, a, b);
        forall k ensures Stranded(st2, k) ==> Stranded(st, k) {
          JoinedPaired(c, st, st2, a, b, k);
        }
      }
    }
  }

  /** Record i, which was waiting under key, is connected. */
  ghost predicate Started(c: Config, st: Pool, st1: Pool, i: nat) {
    && Has(st, i) && st.relays[i].status.Waiting? && Decimal(i) in st.waiting
    && |st1.relays| == |st.relays| && |st1.shown| == |st.shown| && i < |st.shown|
    && (forall j {:trigger st1.relays[j]} :: Has(st, j) && j != i ==> st1.relays[j] == st.relays[j])
    && (forall j {:trigger st1.shown[j]} :: 0 <= j < |st.shown| && j != i ==> st1.shown[j] == st.shown[j])
    && st1.shown[i] && st1.relays[i].status.Active? && st1.relays[i].s >= 0
    && (forall j {:trigger j in st1.cache} :: j in st1.cache <==> j in st.cache && j != i)
    && st1.waiting == st.waiting - {Decimal(i)}
    && st1.bills == st.bills
    && 0 <= st.relays[i].ep < |st.eps|
    && st1.eps == st.eps[st.relays[i].ep := st.eps[st.relays[i].ep].(started := true)]
    && st1.relays[i].peer == st.relays[i].peer && st1.relays[i].ep == st.relays[i].ep
    && st1.relays[i].buf == st.relays[i].buf
    && st1.relays[i].x1 == st.relays[i].x1 && st1.relays[i].x2 == st.relays[i].x2
    && st1.relays[i].rbytes == st.relays[i].rbytes && st1.relays[i].wbytes == st.relays[i].wbytes
    && st1.relays[i].ttidl == st.relays[i].ttidl
    && SelfOk(c, st1.relays[i])
  }

  lemma StartedPaired(c: Config, st: Pool, st1: Pool, i: nat, j: int)
    requires Started(c, st, st1, i)
    ensures Paired(st1, j) == Paired(st, j) && Stranded(st1, j) == Stranded(st, j)
  {
    if Decimal(j) == Decimal(i) { DecimalInjective(j, i); }
  }

  lemma StartedLinks(c: Config, st: Pool, st1: Pool, i: nat)
    requires Links(st, -1) && Started(c, st, st1, i)
    ensures Links(st1, -1)
  {
    forall j | 0 <= j < |st1.relays| ensures LinkOk(st1, j) {
      assert LinkOk(st, j);
      StartedPaired(c, st, st1, i, j);
      StartedPaired(c, st, st1, i, st1.relays[j].peer);
    }
  }

  lemma StartedStreams(c: Config, st: Pool, st1: Pool, i: nat)
    requires Streams(st) && Started(c, st, st1, i)
    ensures Streams(st1)
  {
    assert StreamOk(st, i);
    forall j | 0 <= j < |st1.relays| ensures StreamOk(st1, j) {
      assert StreamOk(st, j);
      StartedPaired(c, st, st1, i, j);
      assert Window(st1.relays[j]) == Window(st.relays[j]);
    }
  }

  lemma StartedEndpoints(c: Config, st: Pool, st1: Pool, i: nat)
    requires Endpoints(st) && Streams(st) && Started(c, st, st1, i)
    ensures Endpoints(st1)
  {
    assert StreamOk(st, i);
    forall f | 0 <= f < |st1.eps| ensures EndpointOk(st1, f) {
      assert EndpointOk(st, f);
    }
  }

  lemma StartedBills(c: Config, st: Pool, st1: Pool, i: nat)
    requires Bills(st) && Started(c, st, st1, i)
    ensures Bills(st1)
  {
    forall k | 0 <= k < |st1.bills| ensures BillOk(st1, k) {
      assert BillOk(st, k);
    }
  }

  lemma StartedTables(c: Config, st: Pool, st1: Pool, i: nat)
    requires Sized(c, st) && TableOk(st) && StrandOk(st) && Started(c, st, st1, i)
    ensures Sized(c, st1) && TableOk(st1) && StrandOk(st1)
  {
    forall j ensures Stranded(st1, j) == Stranded(st, j) {
      StartedPaired(c, st, st1, i, j);
    }
  }

  lemma StartedRecords(c: Config, st: Pool, st1: Pool, i: nat)
    requires Records(c, st) && Started(c, st, st1, i)
    ensures Records(c, st1)
  {
    forall j | 0 <= j < |st1.relays| ensures RecordOk(c, st1, j) {
      assert RecordOk(c, st, j);
    }
  }

  lemma {:induction false} DropDistinct(s: seq<nat>, x: nat)
    requires Distinct(s)
    ensures Distinct(Drop(s, x))
    ensures x !in s ==> Drop(s, x) == s
  {
    if s != [] {
      DropDistinct(s[1..], x);
      assert s[0] !in s[1..];
    }
  }

  /** niostartrelay: the assert on the status of the table entry never fails, and a
      connection is refused exactly when no relay waits under its sid. */
  lemma StartVerdict(c: Config, st: Pool, sid: int, sock: int)
    requires Inv(c, st) && sock >= 0
    ensures Start(st, sid, sock).Ok? && Inv(c, Start(st, sid, sock).value.0)
    ensures var (st1, answer) := Start(st, sid, sock).value;
            && (answer.Some? <==> Has(st, sid) && st.relays[sid].status.Waiting? && !Stranded(st, sid))
            && (answer.Some? ==> answer.value == sid && Started(c, st, st1, sid) && st1.relays[sid].s == sock)
            && (answer.None? ==> st1 == st)
  {
    var key := Decimal(sid);
    if key in st.waiting {
      var i := st.waiting[key];
      DecimalInjective(sid, i);
      assert RecordOk(c, st, i) && LinkOk(st, i) && StreamOk(st, i);
      DropDistinct(st.cache, i);
      var st1 := Start(st, sid, sock).value.0;
      assert st1.cache == Drop(st.cache, i);
      assert Started(c, st, st1, i);
      StartedRecords(c, st, st1, i);
      StartedLinks(c, st, st1, i);
      StartedStreams(c, st, st1, i);
      StartedEndpoints(c, st, st1, i);
      StartedBills(c, st, st1, i);
      StartedTables(c, st, st1, i);
    }
  }
}
