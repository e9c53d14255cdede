/** Two short runs in which the code as written breaks its promise to the bytes, and one in
    which either reading leaves bytes waiting. */
module RelayExamples {
  import opened Prelude
  import opened Relay
  import RelayInv
  import RelayWakeup

  /** The run evs passes through the states sts. */
  ghost predicate Passes(c: Config, evs: seq<Event>, sts: seq<Pool>) {
    && |sts| == |evs| + 1 && Init(c) == sts[0]
    && forall k {:trigger sts[k]} :: 0 <= k < |evs| ==> Step(c, sts[k], evs[k]) == Ok(sts[k + 1])
  }

  lemma {:induction false} RunPasses(c: Config, evs: seq<Event>, sts: seq<Pool>)
    requires Passes(c, evs, sts)
    ensures Run(c, evs) == Ok(sts[|evs|])
  {
    if evs != [] {
      RunPasses(c, evs[..|evs| - 1], sts[..|sts| - 1]);
      assert sts[|evs| - 1] == sts[..|sts| - 1][|evs| - 1];
    }
  }

  lemma SmallDecimals()
    ensures Decimal(0) == "0" && Decimal(1) == "1" && Decimal(2) == "2"
  {
  }

  function Resting(buf: seq<byte>, peer: int, ep: int): Relay {
    Relay(Idle, -1, false, NOTHING, NOTHING, NOTHING, peer, buf, 0, 0, 0, 0, 0, ep, false)
  }

  function Reserved(buf: seq<byte>, peer: int, ep: int): Relay {
    Resting(buf, peer, ep).(status := Waiting)
  }

  function Open(s: int, buf: seq<byte>, peer: int, ep: int): Relay {
    Relay(Active, s, true, READ, READ, READ, peer, buf, 0, 0, 0, 0, 0, ep, false)
  }

  // ---------------------------------------------------------------- crossed sessions

  /** Three records of one byte each, as written. */
  const THREE := Config(3, 1, 0, false)

  function Pool3(a: Relay, b: Relay, d: Relay, cache: seq<nat>, waiting: map<string, nat>, shown: seq<bool>,
                 eps: seq<Endpoint>, bills: seq<Bill>): Pool {
    Pool([a, b, d], cache, waiting, shown, eps, bills)
  }

  const T0 := Pool3(Resting([0], -1, -1), Resting([0], -1, -1), Resting([0], -1, -1),
                    [0, 1, 2], map[], [false, false, false], [], [])

  const T1 := Pool3(Reserved([0], 1, 0), Reserved([0], 0, 1), Resting([0], -1, -1),
                    [0, 1, 2], map["0" := 0, "1" := 1], [false, false, false],
                    [Endpoint(0, [], [], false), Endpoint(1, [], [], false)], [])

  const T2 := Pool3(Open(7, [0], 1, 0), Reserved([0], 0, 1), Resting([0], -1, -1),
                    [1, 2], map["1" := 1], [true, false, false],
                    [Endpoint(0, [], [], true), Endpoint(1, [], [], false)], [])

  /** The peer of a relay that hung up before its peer connected stays reserved and filed. */
  const T3 := Pool3(Resting([0], 1, 0).(events := READ), Reserved([0], 0, 1), Resting([0], -1, -1),
                    [1, 2, 0], map["1" := 1], [false, false, false],
                    [Endpoint(0, [], [], true), Endpoint(1, [], [], false)], [Bill(0, 0, 0, [])])

  const T4 := Pool3(Reserved([0], 2, 3).(events := READ), Reserved([0], 0, 1), Reserved([0], 0, 2),
                    [1, 2, 0], map["1" := 1, "2" := 2, "0" := 0], [false, false, false],
                    [Endpoint(0, [], [], true), Endpoint(1, [], [], false),
                     Endpoint(2, [], [], false), Endpoint(0, [], [], false)], [Bill(0, 0, 0, [])])

  const T5 := Pool3(Reserved([0], 2, 3).(events := READ), Open(8, [0], 0, 1), Reserved([0], 0, 2),
                    [2, 0], map["2" := 2, "0" := 0], [false, true, false],
                    [Endpoint(0, [], [], true), Endpoint(1, [], [], true),
                     Endpoint(2, [], [], false), Endpoint(0, [], [], false)], [Bill(0, 0, 0, [])])

  const T6 := Pool3(Open(9, [0], 2, 3), Open(8, [0], 0, 1), Reserved([0], 0, 2),
                    [2], map["2" := 2], [true, true, false],
                    [Endpoint(0, [], [], true), Endpoint(1, [], [], true),
                     Endpoint(2, [], [], false), Endpoint(0, [], [], true)], [Bill(0, 0, 0, [])])

  const T7 := Pool3(Open(9, [0], 2, 3),
                    Open(8, [42], 0, 1).(events := NOTHING, rbytes := 1, wbytes := 1, flushed := true),
                    Reserved([0], 0, 2),
                    [2], map["2" := 2], [true, true, false],
                    [Endpoint(0, [], [], true), Endpoint(1, [42], [], true),
                     Endpoint(2, [], [], false), Endpoint(0, [], [42], true)], [Bill(0, 0, 0, [])])

  lemma Start0()
    ensures Init(THREE) == T0
  {
    var i := Init(THREE);
    assert Fresh(THREE).buf == [0];
    assert i.relays == T0.relays;
    assert i.cache == T0.cache;
    assert i.shown == T0.shown;
  }

  lemma Step1()
    ensures Step(THREE, T0, EvGetPeer(0)) == Ok(T1)
  {
    SmallDecimals();
    var st1 := Set(T0, 0, Reserve(T0.relays[0], 0));
    assert NextIdle(T0, 0) == 0;
    assert NextIdle(st1, 1) == 1;
    var p := Paired2(THREE, T0, 0, 1, 0);
    assert p.relays == T1.relays;
    assert p.eps == T1.eps;
    assert p.waiting == T1.waiting;
  }

  lemma Step2()
    ensures Step(THREE, T1, EvStart(0, 7)) == Ok(T2)
  {
    SmallDecimals();
    assert Drop([0, 1, 2], 0) == [1, 2];
    var p := Start(T1, 0, 7).value.0;
    assert p.relays == T2.relays;
    assert p.waiting == T2.waiting;
    assert p.eps == T2.eps;
    assert p.shown == T2.shown;
  }

  lemma Step3()
    ensures Step(THREE, T2, EvHangup(0)) == Ok(T3)
  {
    assert BillOf(T2.relays[0]) == Bill(0, 0, 0, []);
    var p := Shut(THREE, T2, 0).value;
    assert p.relays == T3.relays;
    assert p.shown == T3.shown;
    assert p == T3;
  }

  lemma Step4()
    ensures Step(THREE, T3, EvGetPeer(0)) == Ok(T4)
  {
    SmallDecimals();
    var st1 := Set(T3, 2, Reserve(T3.relays[2], 0));
    assert NextIdle(T3, 0) == NextIdle(T3, 1) == 1;
    assert NextIdle(st1, 2) == 2;
    var p := Paired2(THREE, T3, 2, 0, 0);
    assert p.relays == T4.relays;
    assert p.eps == T4.eps;
    assert p.waiting == T4.waiting;
  }

  lemma Step5()
    ensures Step(THREE, T4, EvStart(1, 8)) == Ok(T5)
  {
    SmallDecimals();
    assert Drop([1, 2, 0], 1) == [2, 0];
    var p := Start(T4, 1, 8).value.0;
    assert p.relays == T5.relays;
    assert p.waiting == T5.waiting;
    assert p.eps == T5.eps;
    assert p.shown == T5.shown;
  }

  lemma Step6()
    ensures Step(THREE, T5, EvStart(0, 9)) == Ok(T6)
  {
    SmallDecimals();
    assert Drop([2, 0], 0) == [2];
    var p := Start(T5, 0, 9).value.0;
    assert p.relays == T6.relays;
    assert p.waiting == T6.waiting;
    assert p.eps == T6.eps;
    assert p.shown == T6.shown;
  }

  const CROSSING := EvReadable(1, Got([42]), Wrote(1), Again)

  /** T6 once the byte is read. */
  const T6READ := Pool3(Open(9, [0], 2, 3), Open(8, [42], 0, 1).(events := NOTHING, x1 := 1, rbytes := 1),
                        Reserved([0], 0, 2), [2], map["2" := 2], [true, true, false],
                        [Endpoint(0, [], [], true), Endpoint(1, [42], [], true),
                         Endpoint(2, [], [], false), Endpoint(0, [], [], true)], [Bill(0, 0, 0, [])])

  lemma CrossingRead()
    ensures Read(Set(T6, 1, T6.relays[1].(events := NOTHING)), 1, Got([42])) == Ok((T6READ, false))
  {
    var st0 := Set(T6, 1, T6.relays[1].(events := NOTHING));
    assert [42][..1] == [42 as byte];
    assert Filled(st0.relays[1], [42]).buf == [42];
    var st1 := Read(st0, 1, Got([42])).value.0;
    assert [] + [42] == [42 as byte];
    assert st1.eps == T6.eps[1 := Endpoint(1, [42], [], true)];
    assert st1.eps == T6READ.eps;
    assert st1.relays == T6READ.relays;
  }

  lemma CrossingFlush()
    ensures Flush(THREE, T6READ, 1, Wrote(1)) == Ok((T7, 1))
  {
    assert Disarmed(T6READ, 1, 0).relays[1].buf[0..1] == [42];
    assert Window(Disarmed(T6READ, 1, 0).relays[1]) == [42];
    assert [42][..1] == [42 as byte] && [] + [42] == [42 as byte];
    var st2 := Flush(THREE, T6READ, 1, Wrote(1)).value.0;
    assert st2.eps == T6READ.eps[3 := Endpoint(0, [], [42], true)];
    assert st2.eps == T7.eps;
    assert st2.relays == T7.relays;
  }

  lemma Step7()
    ensures Step(THREE, T6, CROSSING) == Ok(T7)
  {
    hide Flush, Read;
    CrossingRead();
    CrossingFlush();
  }

  const CROSSED := [EvGetPeer(0), EvStart(0, 7), EvHangup(0), EvGetPeer(0), EvStart(1, 8), EvStart(0, 9), CROSSING]

  /** As written: a relay hangs up before its peer connects, its record is reused, and then
      the peer does connect.  A byte read in the old session is delivered in the new one,
      whose other end has not sent anything. */
  lemma CrossedSessions()
    ensures Run(THREE, CROSSED) == Ok(T7)
    ensures T7.eps[3].delivered == [42] && T7.eps[Mate(3)].read == []
  {
    hide Step;
    Start0();
    Step1();
    Step2();
    Step3();
    Step4();
    Step5();
    Step6();
    Step7();
    var states := [T0, T1, T2, T3, T4, T5, T6, T7];
    forall k | 0 <= k < 7 ensures Step(THREE, states[k], CROSSED[k]) == Ok(states[k + 1]) {
      assert k == 0 || k == 1 || k == 2 || k == 3 || k == 4 || k == 5 || k == 6;
    }
    RunPasses(THREE, CROSSED, states);
  }

  // ---------------------------------------------------------------- a byte sent twice

  /** Two records of two bytes each. */
  function Two(repaired: bool): Config {
    Config(2, 2, 0, repaired)
  }

  const TWO := Two(false)

  const U0 := Pool([Resting([0, 0], -1, -1), Resting([0, 0], -1, -1)],
                   [0, 1], map[], [false, false], [], [])

  const U1 := Pool([Reserved([0, 0], 1, 0), Reserved([0, 0], 0, 1)],
                   [0, 1], map["0" := 0, "1" := 1], [false, false],
                   [Endpoint(0, [], [], false), Endpoint(1, [], [], false)], [])

  const U2 := Pool([Open(7, [0, 0], 1, 0), Reserved([0, 0], 0, 1)],
                   [1], map["1" := 1], [true, false],
                   [Endpoint(0, [], [], true), Endpoint(1, [], [], false)], [])

  const U3 := Pool([Open(7, [0, 0], 1, 0), Open(8, [0, 0], 0, 1)],
                   [], map[], [true, true],
                   [Endpoint(0, [], [], true), Endpoint(1, [], [], true)], [])

  function Sender(x1: int, x2: int, wbytes: int): Relay {
    Open(7, [5, 6], 1, 0).(events := NOTHING, x1 := x1, x2 := x2, rbytes := 2, wbytes := wbytes, flushed := true)
  }

  function Both(sender: Relay, receiver: Relay, delivered: seq<byte>): Pool {
    Pool([sender, receiver], [], map[], [true, true],
         [Endpoint(0, [5, 6], [], true), Endpoint(1, [], delivered, true)], [])
  }

  const U4 := Both(Sender(2, 1, 1), Arm(Open(8, [0, 0], 0, 1)), [5])
  const U5 := Both(Sender(2, 0, 0), Arm(Open(8, [0, 0], 0, 1)), [5])
  const U6 := Both(Sender(0, 0, 2), Open(8, [0, 0], 0, 1), [5, 5, 6])

  lemma BothReserved(repaired: bool)
    ensures Init(Two(repaired)) == U0
    ensures Step(Two(repaired), U0, EvGetPeer(0)) == Ok(U1)
  {
    SmallDecimals();
    var i := Init(Two(repaired));
    assert Fresh(Two(repaired)).buf == [0, 0];
    assert i.relays == U0.relays;
    assert i.cache == U0.cache;
    assert i.shown == U0.shown;
    var st1 := Set(U0, 0, Reserve(U0.relays[0], 0));
    assert NextIdle(U0, 0) == 0;
    assert NextIdle(st1, 1) == 1;
    var p := Paired2(Two(repaired), U0, 0, 1, 0);
    assert p.relays == U1.relays;
    assert p.eps == U1.eps;
    assert p.waiting == U1.waiting;
  }

  lemma Connect0(repaired: bool)
    ensures Step(Two(repaired), U1, EvStart(0, 7)) == Ok(U2)
  {
    SmallDecimals();
    assert Drop([0, 1], 0) == [1];
    var p := Start(U1, 0, 7).value.0;
    assert p.relays == U2.relays;
    assert p.waiting == U2.waiting;
    assert p.eps == U2.eps;
    assert p.shown == U2.shown;
  }

  lemma Connect1()
    ensures Step(TWO, U2, EvStart(1, 8)) == Ok(U3)
  {
    SmallDecimals();
    assert Drop([1], 1) == [];
    var p := Start(U2, 1, 8).value.0;
    assert p.relays == U3.relays;
    assert p.waiting == U3.waiting;
    assert p.eps == U3.eps;
    assert p.shown == U3.shown;
  }

  const PARTIAL := EvReadable(0, Got([5, 6]), Wrote(1), Again)

  /** U3 once the two bytes are read. */
  const U3READ := Both(Open(7, [5, 6], 1, 0).(events := NOTHING, x1 := 2, rbytes := 2), Open(8, [0, 0], 0, 1), [])

  lemma PartialRead()
    ensures Read(Set(U3, 0, U3.relays[0].(events := NOTHING)), 0, Got([5, 6])) == Ok((U3READ, false))
  {
    var st0 := Set(U3, 0, U3.relays[0].(events := NOTHING));
    assert [5, 6][..2] == [5 as byte, 6];
    assert Filled(st0.relays[0], [5, 6]).buf == [5, 6];
    var st1 := Read(st0, 0, Got([5, 6])).value.0;
    assert st1.eps == U3READ.eps;
    assert st1.relays == U3READ.relays;
  }

  const U3READY := Both(Sender(2, 0, 0), Open(8, [0, 0], 0, 1), [])

  lemma PartialDisarm()
    ensures Disarmed(U3READ, 0, 1) == U3READY
  {
    assert Disarmed(U3READ, 0, 1).relays == U3READY.relays;
  }

  lemma PartialAdvance()
    ensures Written(TWO, U3READY, 0, 1, Wrote(1)) == (U4, 1)
  {
    assert Window(U3READY.relays[0]) == [5, 6];
    assert [] + [5, 6][..1] == [5 as byte];
    var st2 := Written(TWO, U3READY, 0, 1, Wrote(1)).0;
    assert st2.eps == U4.eps;
    assert st2.relays == U4.relays;
  }

  /** A flush with bytes to write is the disarming and the write. */
  lemma FlushParts(c: Config, st: Pool, i: int, w: WriteResult)
    requires Has(st, i) && Has(st, st.relays[i].peer) && st.relays[i].peer != i
    requires st.relays[st.relays[i].peer].ev && 0 <= st.relays[i].x2 < st.relays[i].x1 <= |st.relays[i].buf|
    ensures Flush(c, st, i, w) == Ok(Written(c, Disarmed(st, i, st.relays[i].peer), i, st.relays[i].peer, w))
  {
    hide Written;
  }

  lemma PartialWrite()
    ensures Step(TWO, U3, PARTIAL) == Ok(U4)
  {
    hide Flush, Read, Disarmed, Written;
    PartialRead();
    FlushParts(TWO, U3READ, 0, Wrote(1));
    PartialDisarm();
    PartialAdvance();
  }

  lemma InterruptedWrite()
    ensures Step(TWO, U4, EvWritable(1, Interrupted)) == Ok(U5)
  {
    var st2 := Flush(TWO, U4, 0, Interrupted).value.0;
    assert st2.relays == U5.relays;
  }

  lemma LastWrite()
    ensures Step(TWO, U5, EvWritable(1, Wrote(2))) == Ok(U6)
  {
    assert Window(Disarmed(U5, 0, 1).relays[0]) == [5, 6];
    assert [5, 6][..2] == [5 as byte, 6];
    assert [5] + [5, 6] == [5 as byte, 5, 6];
    var st2 := Flush(TWO, U5, 0, Wrote(2)).value.0;
    assert st2.eps == U6.eps;
    assert st2.relays == U6.relays;
  }

  const REPEATED := [EvGetPeer(0), EvStart(0, 7), EvStart(1, 8), PARTIAL,
                     EvWritable(1, Interrupted), EvWritable(1, Wrote(2))]

  /** As written: after a partial write an interrupted one moves the cursor back, and a byte
      goes out twice. */
  lemma ByteSentTwice()
    ensures Run(TWO, REPEATED) == Ok(U6)
    ensures U6.eps[1].delivered == [5, 5, 6] && U6.eps[Mate(1)].read == [5, 6]
  {
    hide Step;
    BothReserved(false);
    Connect0(false);
    Connect1();
    PartialWrite();
    InterruptedWrite();
    LastWrite();
    var states := [U0, U1, U2, U3, U4, U5, U6];
    forall k | 0 <= k < 6 ensures Step(TWO, states[k], REPEATED[k]) == Ok(states[k + 1]) {
      assert k == 0 || k == 1 || k == 2 || k == 3 || k == 4 || k == 5;
    }
    RunPasses(TWO, REPEATED, states);
  }

  // ---------------------------------------------------------------- a byte that waits

  const EARLY := EvReadable(0, Got([9]), Again, Again)

  function Early(receiver: Relay, cache: seq<nat>, waiting: map<string, nat>, second: bool): Pool {
    Pool([Open(7, [9, 0], 1, 0).(events := NOTHING, x1 := 1, rbytes := 1), receiver], cache, waiting, [true, second],
         [Endpoint(0, [9], [], true), Endpoint(1, [], [], second)], [])
  }

  const V3 := Early(Reserved([0, 0], 0, 1), [1], map["1" := 1], false)
  const V4 := Early(Open(8, [0, 0], 0, 1), [], map[], true)

  lemma EarlyRead(repaired: bool)
    ensures Step(Two(repaired), U2, EARLY) == Ok(V3)
  {
    var st0 := Set(U2, 0, U2.relays[0].(events := NOTHING));
    assert [9][..1] == [9 as byte];
    assert Filled(st0.relays[0], [9]).buf == [9, 0];
    var st1 := Read(st0, 0, Got([9])).value.0;
    assert [] + [9] == [9 as byte];
    assert st1.eps == U2.eps[0 := Endpoint(0, [9], [], true)];
    assert st1.eps == V3.eps;
    assert st1.relays == V3.relays;
  }

  lemma LateConnect(repaired: bool)
    ensures Step(Two(repaired), V3, EvStart(1, 8)) == Ok(V4)
  {
    SmallDecimals();
    assert Drop([1], 1) == [];
    var p := Start(V3, 1, 8).value.0;
    assert p.relays == V4.relays;
    assert p.waiting == V4.waiting;
    assert p.eps == V4.eps;
    assert p.shown == V4.shown;
  }

  const WAITING := [EvGetPeer(0), EvStart(0, 7), EARLY, EvStart(1, 8)]

  /** In either reading: a byte read before the second end connects stays in the buffer when it
      does, and nothing is registered that would get it out. */
  lemma ByteWaits(repaired: bool)
    ensures Run(Two(repaired), WAITING) == Ok(V4)
    ensures RelayWakeup.Stuck(V4, 0) && Window(V4.relays[0]) == [9] && !V4.relays[1].reg.wr
  {
    hide Step;
    BothReserved(repaired);
    Connect0(repaired);
    EarlyRead(repaired);
    LateConnect(repaired);
    var states := [U0, U1, U2, V3, V4];
    forall k | 0 <= k < 4 ensures Step(Two(repaired), states[k], WAITING[k]) == Ok(states[k + 1]) {
      assert k == 0 || k == 1 || k == 2 || k == 3;
    }
    RunPasses(Two(repaired), WAITING, states);
    assert [9, 0][0..1] == [9 as byte];
  }

  // ---------------------------------------------------------------- a record lost

  /** One record alone, in either reading. */
  lemma RecordStranded(repaired: bool)
    ensures var c := Config(1, 1, 0, repaired);
            Run(c, [EvGetPeer(0)]).Ok? && RelayInv.Stranded(Run(c, [EvGetPeer(0)]).value, 0)
  {
    var c := Config(1, 1, 0, repaired);
    var st := Init(c);
    assert [EvGetPeer(0)][..0] == [];
    assert Run(c, []) == Ok(st);
    assert NextIdle(st, 0) == 0;
    var st1 := Set(st, 0, Reserve(st.relays[0], 0));
    assert NextIdle(st1, 1) == 1;
    assert GetPeer(c, st, 0) == Ok((st1, None));
  }
}
