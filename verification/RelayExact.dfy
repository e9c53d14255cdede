/** Exactly when the engine as it is written keeps its promises.

    From a state in order, one event of the code as written leaves every promise kept, and
    the state in order, if and only if the event does not run into one of the two slips that
    can do harm: a flush whose write fails with an error other than EAGAIN, and a teardown
    with one end still waiting. */
module RelayExact {
  import opened Prelude
  import opened Relay
  import opened RelayInv
  import opened RelayRuns
  import opened RelayGuarantees

  // ---------------------------------------------------------------- the first slip

  /** The count of bytes written is not the number of bytes delivered. */
  ghost predicate Miscounted(st: Pool, i: int) {
    && Has(st, i) && st.relays[i].status.Active?
    && 0 <= Mate(st.relays[i].ep) < |st.eps|
    && st.relays[i].wbytes != |st.eps[Mate(st.relays[i].ep)].delivered|
  }

  /** A write that fails with bytes in the buffer: what is buffered is no longer what was read
      and not delivered, and the count of bytes written is off. */
  lemma UnsafeFlush(c: Config, st: Pool, i: int, w: WriteResult)
    requires Inv(c, st) && Paired(st, i) && !c.repaired && !FlushSafe(st, i, w)
    ensures Flush(c, st, i, w).Ok? && Miscounted(Flush(c, st, i, w).value.0, i)
    ensures !Isolated(Flush(c, st, i, w).value.0, st.relays[i].ep)
    ensures var st1 := Flush(c, st, i, w).value.0;
            && |st1.relays| == |st.relays| && st1.relays[i].peer == st.relays[i].peer
            && st1.relays[i].ep == st.relays[i].ep && st1.relays[i].s >= 0
            && st1.relays[st.relays[i].peer].peer == i && st1.relays[st.relays[i].peer].ep == Mate(st.relays[i].ep)
  {
    MatesOf(c, st, i);
    assert StreamOk(st, i) && RecordOk(c, st, i) && LinkOk(st, i);
    hide Inv;
    var st1 := Flush(c, st, i, w).value.0;
    assert st1.eps == st.eps && st1.relays[i].x1 == st.relays[i].x1 && st1.relays[i].x2 == st.relays[i].x2 - 1;
    assert |Window(st1.relays[i])| != |Window(st.relays[i])|;
  }

  /** A bill that disagrees with the bytes delivered stays in the books. */
  lemma MiscountedTeardown(c: Config, st: Pool, i: int)
    requires Miscounted(st, i) && !c.repaired && st.relays[i].s >= 0
    requires Has(st, st.relays[i].peer) && st.relays[i].peer != i
    ensures Teardown(c, st, i).Ok? ==> !BillTrue(Teardown(c, st, i).value, |st.bills|)
  {
    if Teardown(c, st, i).Ok? {
      var st1 := Teardown(c, st, i).value;
      assert st1.bills[|st.bills|] == BillOf(st.relays[i]);
    }
  }

  /** The flush in the other direction does not repair the count. */
  lemma MiscountedFlush(c: Config, st: Pool, i: int, p: int, w: WriteResult)
    requires Miscounted(st, i) && Has(st, p) && p != i
    requires st.relays[p].peer == i && st.relays[p].ep == Mate(st.relays[i].ep)
    requires Flush(c, st, p, w).Ok?
    ensures var st1 := Flush(c, st, p, w).value.0;
            && Miscounted(st1, i) && |st1.relays| == |st.relays| && st1.relays[i].peer == st.relays[i].peer
            && st1.relays[i].s == st.relays[i].s
  {
  }

  // ---------------------------------------------------------------- the second slip

  lemma HalfTeardown(c: Config, st: Pool, i: int)
    requires Inv(c, st) && Paired(st, i) && st.relays[i].status.Active? && !c.repaired && !TeardownSafe(st, i)
    ensures Teardown(c, st, i).Ok? ==> !PeersMutual(Teardown(c, st, i).value, st.relays[i].peer)
  {
    MatesOf(c, st, i);
    var p := st.relays[i].peer;
    assert RecordOk(c, st, p);
    ShutKeeps(c, st, i, -1);
    var st1 := Shut(c, st, i).value;
    GonePaired(st, st1, i, p);
    GonePaired(st, st1, i, i);
    assert st1.relays[p] == st.relays[p];
  }

  // ---------------------------------------------------------------- the verdict

  lemma UnsafeAfterRead(c: Config, st: Pool, i: int, fatal: bool, w: WriteResult, w2: WriteResult)
    requires Inv(c, st) && Paired(st, i) && st.relays[i].status.Active? && !c.repaired
    requires !(FlushSafe(st, i, w) && (fatal ==> TeardownSafe(st, i)))
    ensures AfterRead(c, st, i, fatal, w, w2).Ok? ==> !Promised(AfterRead(c, st, i, fatal, w, w2).value)
  {
    MatesOf(c, st, i);
    var p := st.relays[i].peer;
    if FlushSafe(st, i, w) {
      FlushKeeps(c, st, i, w);
      HalfTeardown(c, Flush(c, st, i, w).value.0, i);
    } else {
      UnsafeFlush(c, st, i, w);
      var st2 := Flush(c, st, i, w).value.0;
      if fatal {
        MiscountedTeardown(c, st2, i);
      } else if w.WriteFail? {
        var f := Flush(c, st2, p, w2);
        if f.Ok? {
          MiscountedFlush(c, st2, i, p, w2);
          MiscountedTeardown(c, f.value.0, i);
        }
      }
    }
  }

  lemma HarmfulBreaks(c: Config, st: Pool, e: Event)
    requires Inv(c, st) && !c.repaired && !Benign(st, e)
    ensures Step(c, st, e).Ok? ==> !Promised(Step(c, st, e).value)
  {
    match e
    case EvReadable(i, rd, w, w2) =>
      ReadPartKeeps(c, st, i, rd);
      var (st1, fatal) := ReadPart(st, i, rd).value;
      MatesOf(c, st, i);
      UnsafeAfterRead(c, st1, i, fatal, w, w2);
    case EvWritable(i, w) =>
      MatesOf(c, st, i);
      var p := st.relays[i].peer;
      UnsafeFlush(c, st, p, w);
    case EvHangup(i) =>
      HalfTeardown(c, st, i);
    case _ =>
  }

  /** One event, for the code as written: no crash and every promise kept, if and only if the
      event is benign; and then the whole invariant holds again. */
  lemma AsWrittenExact(c: Config, st: Pool, e: Event)
    requires Inv(c, st) && !c.repaired
    ensures Step(c, st, e).Ok? && Promised(Step(c, st, e).value) <==> Benign(st, e)
    ensures Step(c, st, e).Ok? && Inv(c, Step(c, st, e).value) <==> Benign(st, e)
  {
    hide Step, Benign, Inv, Promised;
    if Benign(st, e) {
      StepKeeps(c, st, e);
      InvPromised(c, Step(c, st, e).value);
    } else {
      HarmfulBreaks(c, st, e);
      if Step(c, st, e).Ok? && Inv(c, Step(c, st, e).value) {
        InvPromised(c, Step(c, st, e).value);
      }
    }
  }

  /** The run gets through, and every promise is kept in the end. */
  ghost predicate Sound(c: Config, evs: seq<Event>) {
    Run(c, evs).Ok? && Promised(Run(c, evs).value)
  }

  /** The code as written keeps its promises in every prefix of a run exactly when the run is
      safe, that is, made of benign events. */
  lemma {:induction false} AsWrittenRuns(c: Config, evs: seq<Event>)
    requires !c.repaired
    ensures SafeRun(c, evs) <==> forall n {:trigger evs[..n]} :: 0 <= n <= |evs| ==> Sound(c, evs[..n])
    decreases |evs|
  {
    hide Step, Benign, Inv, Promised;
    if evs == [] {
      InitInv(c);
      InvPromised(c, Init(c));
      assert evs[..0] == evs;
    } else {
      var before := evs[..|evs| - 1];
      AsWrittenRuns(c, before);
      assert forall n :: 0 <= n < |evs| ==> evs[..n] == before[..n];
      assert before[..|before|] == before && evs[..|evs|] == evs;
      if SafeRun(c, before) {
        RunKeeps(c, before);
        AsWrittenExact(c, Run(c, before).value, evs[|evs| - 1]);
      }
    }
  }
}
