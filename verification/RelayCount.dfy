/** Counting the records of the pool by what they are doing. */
module RelayCount {
  import opened Prelude
  import opened Relay
  import opened RelayInv

  ghost function PairedSet(st: Pool): set<int> {
    set i | 0 <= i < |st.relays| && Paired(st, i)
  }

  ghost function IdleSet(st: Pool): set<int> {
    set i | 0 <= i < |st.relays| && st.relays[i].status.Idle?
  }

  ghost function StrandedSet(st: Pool): set<int> {
    set i | 0 <= i < |st.relays| && Stranded(st, i)
  }

  /** The number of sessions reserved or running. */
  ghost function Sessions(st: Pool): int {
    |PairedSet(st)| / 2
  }

  /** A set that some map without fixed points reflects onto itself has an even number of
      elements. */
  lemma {:induction false} EvenByInvolution<T>(s: set<T>, f: T -> T)
    requires forall i {:trigger f(i)} :: i in s ==> f(i) in s && f(i) != i && f(f(i)) == i
    ensures |s| % 2 == 0
    decreases |s|
  {
    if i :| i in s {
      var t := s - {i, f(i)};
      assert |{i, f(i)}| == 2 && {i, f(i)} <= s;
      assert s == t + {i, f(i)};
      forall j | j in t ensures f(j) in t && f(j) != j && f(f(j)) == j {
        assert f(f(j)) == j;
        assert f(f(i)) == i;
      }
      EvenByInvolution(t, f);
    } else {
      assert s == {};
    }
  }

  ghost function Below(n: nat): set<int> {
    if n == 0 then {} else Below(n - 1) + {n - 1}
  }

  lemma {:induction false} BelowSize(n: nat)
    ensures |Below(n)| == n && forall i :: i in Below(n) <==> 0 <= i < n
  {
    if n > 0 {
      BelowSize(n - 1);
    }
  }

  /** Peers are mutual, so the records in sessions come in twos. */
  lemma PairedEven(c: Config, st: Pool)
    requires Inv(c, st)
    ensures |PairedSet(st)| % 2 == 0
  {
    var f := i => if 0 <= i < |st.relays| then st.relays[i].peer else -1;
    forall i | i in PairedSet(st) ensures f(i) in PairedSet(st) && f(i) != i && f(f(i)) == i {
      assert LinkOk(st, i);
    }
    EvenByInvolution(PairedSet(st), f);
  }

  lemma AtMostOne<T>(s: set<T>)
    requires forall i, j :: i in s && j in s ==> i == j
    ensures |s| <= 1
  {
    if i :| i in s {
      assert forall x :: x in s ==> x == i;
      assert s == {i};
    } else {
      assert s == {};
    }
  }

  lemma EveryRecord(c: Config, st: Pool)
    requires Inv(c, st)
    ensures Below(c.maxrelay) == PairedSet(st) + IdleSet(st) + StrandedSet(st)
    ensures PairedSet(st) !! IdleSet(st) !! StrandedSet(st)
  {
    BelowSize(c.maxrelay);
  }

  lemma Census(c: Config, st: Pool)
    requires Inv(c, st)
    ensures |PairedSet(st)| + |IdleSet(st)| + |StrandedSet(st)| == c.maxrelay
    ensures |PairedSet(st)| % 2 == 0
    ensures |StrandedSet(st)| <= 1
    ensures StrandedSet(st) != {} ==> |StrandedSet(st)| == 1 && c.maxrelay % 2 == 1
  {
    PairedEven(c, st);
    BelowSize(c.maxrelay);
    EveryRecord(c, st);
    AtMostOne(StrandedSet(st));
    if i :| i in StrandedSet(st) {
      assert Stranded(st, i);
    }
  }

  /** A set with at least two elements has room for two different ones. */
  lemma AtLeastTwo(s: set<int>, a: int, b: int)
    requires a in s && b in s && a != b
    ensures |s| >= 2
  {
    assert {a, b} <= s && |{a, b}| == 2;
    assert s == {a, b} + (s - {a, b});
  }

  /** The three outcomes of the search through the cache, told by the number of idle records. */
  lemma SearchCounts(c: Config, st: Pool, now: int)
    requires Inv(c, st)
    ensures var i := NextIdle(st, 0);
            && 0 <= i <= |st.cache|
            && (i == |st.cache| <==> |IdleSet(st)| == 0)
            && (i < |st.cache| ==>
                  var a := st.cache[i];
                  && Has(st, a) && st.relays[a].status.Idle?
                  && var st1 := Set(st, a, Reserve(st.relays[a], c.ttidl));
                  var j := NextIdle(st1, i + 1);
                  && i < j <= |st.cache|
                  && (j == |st.cache| <==> |IdleSet(st)| == 1)
                  && (j < |st.cache| ==> var b := st.cache[j];
                                         b != a && Has(st, b) && st.relays[b].status.Idle?))
  {
    NextIdleBound(st, 0);
    var i := NextIdle(st, 0);
    if i == |st.cache| {
      forall x | 0 <= x < |st.relays| ensures !st.relays[x].status.Idle? {
        assert RecordOk(c, st, x);
        assert x in st.cache ==> exists k :: 0 <= k < |st.cache| && st.cache[k] == x;
      }
      assert IdleSet(st) == {};
    } else {
      var a := st.cache[i];
      assert a in IdleSet(st);
      var st1 := Set(st, a, Reserve(st.relays[a], c.ttidl));
      NextIdleBound(st1, i + 1);
      var j := NextIdle(st1, i + 1);
      if j == |st.cache| {
        forall x | x in IdleSet(st) ensures x == a {
          assert RecordOk(c, st, x);
          var k :| 0 <= k < |st.cache| && st.cache[k] == x;
        }
        assert IdleSet(st) == {a};
      } else {
        AtLeastTwo(IdleSet(st), a, st.cache[j]);
      }
    }
  }
}
