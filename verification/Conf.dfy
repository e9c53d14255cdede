/** The configuration callbacks of src/daemon/conf.c and the queues they build up, from the
    text of a configuration file to the number of machines a queue may ask for. */
module Conf {
  import opened Prelude
  import opened IniText
  import opened Grant
  import Parser = IniParser
  import Printed = IniRoundTrip

  function LowerChar(c: char): char {
    if 'A' <= c <= 'Z' then c + 32 as char else c
  }

  function Lower(s: string): (t: string)
    ensures |t| == |s|
  {
    seq(|s|, i requires 0 <= i < |s| => LowerChar(s[i]))
  }

  /** strcasecmp yields 0. */
  predicate Same(s: string, t: string) {
    Lower(s) == Lower(t)
  }

  predicate Contains(s: string, word: string) {
    word <= s || (s != [] && Contains(s[1..], word))
  }

  /** sscanf "%*s%s": the second word, when there is one. */
  function SecondWord(s: string): Option<string> {
    var t := s[Spaces(s)..];
    var u := t[WordLength(t)..];
    var v := u[Spaces(u)..];
    if t == [] || v == [] then None else Some(v[..WordLength(v)])
  }

  // ---------------------------------------------------------------- one callback

  datatype Kind = Vms | Containers | Cloud

  datatype QueueData = QueueData(name: string, kind: Kind, nameSpace: Option<string>, factor0: int, factor1: int)

  /** calloc and the name. */
  function NewQueue(name: string): QueueData {
    QueueData(name, Vms, None, 0, 0)
  }

  function KindOf(val: string): Kind {
    if Same(val, "vm") then Vms
    else if Same(val, "container") then Containers
    else if Same(val, "cloud") then Cloud
    else Vms
  }

  /** sscanf "%d %d": a number that is not there leaves its factor as it was. */
  function Factors(val: string, factor0: int, factor1: int): (int, int) {
    match ScanInt(val)
    case None => (factor0, factor1)
    case Some((a, used)) =>
      match ScanInt(val[used..])
      case None => (a, factor1)
      case Some((b, _)) => (a, b)
  }

  function Configured(q: QueueData, key: string, val: string): QueueData {
    var q1 := if Same(key, "type") then q.(kind := KindOf(val)) else q;
    var q2 := if Same(key, "name_space") then q1.(nameSpace := Some(val)) else q1;
    if Same(key, "borrow_factor") then
      var (a, b) := Factors(val, q.factor0, q.factor1);
      q2.(factor0 := a, factor1 := b)
    else q2
  }

  /** What a callback is for. */
  datatype Effect = Elsewhere | Refused | ToQueue(name: string, key: string, val: string)

  /** leftover is what the name buffer holds before sscanf: a section without a second word
      leaves it there. */
  function EffectOf(call: Call, leftover: string): Effect {
    if Same(call.section, "resbd") then
      if Same(call.name, "host") || Same(call.name, "port") then Elsewhere else Refused
    else if Same(call.section, "params") then Elsewhere
    else if Contains(call.section, "queue") then
      var name := match SecondWord(call.section) case Some(w) => w case None => leftover;
      ToQueue(name, call.name, call.value)
    else Elsewhere
  }

  // ---------------------------------------------------------------- the queue list

  /** Where a name first stands, ignoring case, or the length. */
  function Position(ns: seq<string>, name: string): (i: nat)
    ensures i <= |ns| && (i < |ns| ==> Same(name, ns[i]))
    ensures forall j {:trigger ns[j]} :: 0 <= j < i ==> !Same(name, ns[j])
  {
    if ns == [] || Same(name, ns[0]) then 0
    else
      assert forall j {:trigger ns[j]} :: 1 <= j < |ns| ==> ns[j] == ns[1..][j - 1];
      1 + Position(ns[1..], name)
  }

  lemma {:induction false} PositionIs(ns: seq<string>, name: string, i: nat)
    requires i <= |ns| && (i < |ns| ==> Same(name, ns[i]))
    requires forall j {:trigger ns[j]} :: 0 <= j < i ==> !Same(name, ns[j])
    ensures Position(ns, name) == i
  {
    hide Same;
    if i > 0 {
      assert forall j {:trigger ns[1..][j]} :: 0 <= j < |ns| - 1 ==> ns[1..][j] == ns[j + 1];
      PositionIs(ns[1..], name, i - 1);
    }
  }

  function Names(qs: seq<QueueData>): (ns: seq<string>)
    ensures |ns| == |qs| && forall i :: 0 <= i < |qs| ==> ns[i] == qs[i].name
  {
    seq(|qs|, i requires 0 <= i < |qs| => qs[i].name)
  }

  function IndexOf(qs: seq<QueueData>, name: string): nat {
    Position(Names(qs), name)
  }

  /** The list once the queue of that name has been looked up, and made if need be. */
  function WithQueue(qs: seq<QueueData>, name: string): (rs: seq<QueueData>)
    ensures IndexOf(qs, name) < |rs|
    ensures Names(rs) == if IndexOf(qs, name) < |qs| then Names(qs) else Names(qs) + [name]
  {
    assert Names(qs + [NewQueue(name)]) == Names(qs) + [name];
    if IndexOf(qs, name) < |qs| then qs else qs + [NewQueue(name)]
  }

  function AfterEffect(qs: seq<QueueData>, e: Effect): seq<QueueData> {
    match e
    case ToQueue(name, key, val) =>
      var i := IndexOf(qs, name);
      var rs := WithQueue(qs, name);
      rs[i := Configured(rs[i], key, val)]
    case _ => qs
  }

  /** The queues after a run of callbacks. */
  function AfterAll(es: seq<Effect>): seq<QueueData> {
    if es == [] then [] else AfterEffect(AfterAll(es[..|es| - 1]), es[|es| - 1])
  }

  // ---------------------------------------------------------------- as objects

  /** struct queue. */
  class Queue {
    const name: string
    var kind: Kind
    var nameSpace: Option<string>
    var factor0: int
    var factor1: int

    constructor (name: string)
      ensures Data() == NewQueue(name)
    {
      this.name, kind, nameSpace, factor0, factor1 := name, Vms, None, 0, 0;
    }

    function Data(): QueueData
      reads this
    {
      QueueData(name, kind, nameSpace, factor0, factor1)
    }

    /** The assignments of init_queue. */
    method Set(key: string, val: string)
      modifies this
      ensures Data() == Configured(old(Data()), key, val)
    {
      if Same(key, "type") {
        kind := if Same(val, "vm") then Vms else Containers;
      }
      if Same(key, "name_space") {
        nameSpace := Some(val);
      }
      if Same(key, "borrow_factor") {
        var first := ScanInt(val);
        if first.Some? {
          factor0 := first.value.0;
          var second := ScanInt(val[first.value.1..]);
          if second.Some? {
            factor1 := second.value.0;
          }
        }
      }
      if Same(key, "type") {
        if Same(val, "vm") {
          kind := Vms;
        } else if Same(val, "container") {
          kind := Containers;
        } else if Same(val, "cloud") {
          kind := Cloud;
        } else {
          kind := Vms;
        }
      }
    }
  }

  function Datas(qs: seq<Queue>): (ds: seq<QueueData>)
    reads qs
    ensures |ds| == |qs| && forall i :: 0 <= i < |qs| ==> ds[i] == qs[i].Data()
  {
    if qs == [] then [] else [qs[0].Data()] + Datas(qs[1..])
  }

  /** The daemon's list of queues. */
  class Table {
    var queues: seq<Queue>

    constructor ()
      ensures queues == []
    {
      queues := [];
    }

    /** get_queue_by_name. */
    method GetQueueByName(name: string) returns (q: Queue)
      requires Distinct(queues)
      modifies this
      ensures Distinct(queues) && Datas(queues) == WithQueue(old(Datas(queues)), name)
      ensures var i := IndexOf(old(Datas(queues)), name);
              && q == queues[i]
              && (if i < old(|queues|) then queues == old(queues) else queues == old(queues) + [q] && fresh(q))
    {
      hide Same, Position, Datas;
      ghost var ds := Datas(queues);
      for i := 0 to |queues|
        invariant forall j {:trigger Names(ds)[j]} :: 0 <= j < i ==> !Same(name, Names(ds)[j])
      {
        if Same(name, queues[i].name) {
          PositionIs(Names(ds), name, i);
          return queues[i];
        }
      }
      PositionIs(Names(ds), name, |ds|);
      q := new Queue(name);
      queues := queues + [q];
      assert forall i :: 0 <= i < |ds| ==> Datas(queues)[i] == queues[i].Data() == ds[i];
      assert Datas(queues) == ds + [NewQueue(name)];
    }

    /** handler, for the sections that name queues: 1 is success. */
    method Handle(call: Call, leftover: string) returns (rc: int)
      requires Distinct(queues)
      modifies this, queues
      ensures Distinct(queues) && old(queues) <= queues
      ensures forall i {:trigger queues[i]} :: old(|queues|) <= i < |queues| ==> fresh(queues[i])
      ensures Datas(queues) == AfterEffect(old(Datas(queues)), EffectOf(call, leftover))
      ensures rc == if EffectOf(call, leftover).Refused? then 0 else 1
    {
      hide Same, IndexOf, Datas, Configured, Contains, SecondWord;
      if Same(call.section, "resbd") {
        return if Same(call.name, "host") || Same(call.name, "port") then 1 else 0;
      }
      if Same(call.section, "params") {
        return 1;
      }
      if Contains(call.section, "queue") {
        var word := SecondWord(call.section);
        var qname := if word.Some? then word.value else leftover;
        ghost var i := IndexOf(Datas(queues), qname);
        var q := GetQueueByName(qname);
        ghost var ds := Datas(queues);
        q.Set(call.name, call.value);
        assert forall j :: 0 <= j < |queues| && j != i ==> queues[j].Data() == ds[j];
        assert Datas(queues) == ds[i := Configured(ds[i], call.name, call.value)];
      }
      return 1;
    }

    /** read_config.  The parser's section buffer and the name buffer of the callbacks start
        with what the stack holds.  Only a file that cannot be opened is reported.  The parser's
        error number is dropped, so 0 is returned for every file that opens, and means that it
        was read whole exactly when every line is well-formed and accepted.  The callbacks'
        answers do not depend on the queues, so they are run here on the parser's calls, in
        order, once these are known. */
    method ReadConfig(file: Option<string>, section: array<char>, ghost section0: string, leftover: seq<Call> -> string)
      returns (rc: int, calls: seq<Call>, ghost error: nat)
      requires queues == [] && section.Length == MAX_SECTION && Parser.Str(section, 0, section0)
      modifies this, section
      ensures rc == if file.Some? then 0 else -1
      ensures file.None? ==> calls == []
      ensures file.Some? ==> (error, calls) == ParseFrom(file.value, 0, section0, [], Accepts)
      ensures file.Some? ==> (error == 0 <==> AllGood(Lines(file.value), section0, Accepts))
      ensures file.Some? && error == 0 ==> calls == Meaning(Lines(file.value), section0)
      ensures Distinct(queues) && Datas(queues) == AfterAll(Effects(calls, leftover))
    {
      calls, error := [], 0;
      if file.None? {
        return -1, [], 0;
      }
      var number: nat;
      number, calls := Parser.IniParseFile(file.value, section, section0, Accepts);
      error := number;
      WholeFile(file.value, section0, Accepts);
      CallbacksRun(calls, leftover);
      return 0, calls, error;
    }

    method CallbacksRun(calls: seq<Call>, leftover: seq<Call> -> string)
      requires queues == []
      modifies this
      ensures Distinct(queues) && Datas(queues) == AfterAll(Effects(calls, leftover))
    {
      for i := 0 to |calls|
        invariant Distinct(queues) && fresh(set q | q in queues)
        invariant Datas(queues) == AfterAll(Effects(calls[..i], leftover))
      {
        EffectsStep(calls, i, leftover);
        var _ := Handle(calls[i], leftover(calls[..i]));
      }
      assert calls[..|calls|] == calls;
    }
  }

  /** A file whose first line is malformed: 0 is returned for it, and the setting on its second
      line is never seen. */
  lemma SilentError(section0: string)
    ensures ParseFrom("x\na=b\n", 0, section0, [], Accepts) == (1, [])
  {
    hide ParseFrom, ParseLine, CString;
    var file := "x\na=b\n";
    ParseStep(file, 0, section0, [], Accepts);
    ShortChunk(file);
    assert file[..2] == "x\n";
    BadLine();
    assert [] + CallsOf(Malformed, section0) == [];
  }

  lemma ShortChunk(file: string)
    requires |file| > 2 && file[0] == 'x' && file[1] == '\n'
    ensures ChunkLength(file, INI_MAX_LINE - 1) == 2 && CString(file[..2]) == file[..2]
  {
    assert file[1..][0] == '\n' && file[..2][1..][0] == '\n' && file[..2][1..][1..] == "";
  }

  lemma BadLine()
    ensures ParseLine("x\n") == Malformed
  {
    assert "x\n"[..1] == "x" && "x"[1..] == "";
    assert RStrip("x") == "x" && RStrip("x\n") == "x" && LStrip("x") == "x";
    assert Find("x", '=', false) == 1 && Find("x", ':', false) == 1;
  }

  /** What the handler answers the parser; it does not depend on the calls before. */
  predicate Accepts(before: seq<Call>, call: Call) {
    !EffectOf(call, "").Refused?
  }

  /** The effects of the parser's calls, when leftover tells what the name buffer holds. */
  function Effects(calls: seq<Call>, leftover: seq<Call> -> string): (es: seq<Effect>)
    ensures |es| == |calls|
  {
    if calls == [] then []
    else
      var before := calls[..|calls| - 1];
      Effects(before, leftover) + [EffectOf(calls[|calls| - 1], leftover(before))]
  }

  lemma EffectsStep(calls: seq<Call>, i: nat, leftover: seq<Call> -> string)
    requires i < |calls|
    ensures AfterAll(Effects(calls[..i + 1], leftover)) ==
            AfterEffect(AfterAll(Effects(calls[..i], leftover)), EffectOf(calls[i], leftover(calls[..i])))
  {
    hide AfterEffect, EffectOf;
    var es := Effects(calls[..i], leftover);
    assert calls[..i + 1][..i] == calls[..i];
    assert Effects(calls[..i + 1], leftover) == es + [EffectOf(calls[i], leftover(calls[..i]))];
    assert (es + [EffectOf(calls[i], leftover(calls[..i]))])[..|es|] == es;
  }

  // ---------------------------------------------------------------- what the list looks like

  ghost predicate Tidy(ns: seq<string>) {
    forall i, j :: 0 <= i < j < |ns| ==> !Same(ns[i], ns[j])
  }

  /** The names the queue callbacks gave, in order. */
  function Asked(es: seq<Effect>): seq<string> {
    if es == [] then []
    else Asked(es[..|es| - 1]) + (if es[|es| - 1].ToQueue? then [es[|es| - 1].name] else [])
  }

  function LowerSet(ns: seq<string>): set<string> {
    set n | n in ns :: Lower(n)
  }

  lemma NamesAfterEffect(qs: seq<QueueData>, e: Effect)
    ensures Names(AfterEffect(qs, e)) ==
            if e.ToQueue? && Position(Names(qs), e.name) == |qs| then Names(qs) + [e.name] else Names(qs)
  {
    if e.ToQueue? {
      var i, rs := IndexOf(qs, e.name), WithQueue(qs, e.name);
      assert Names(rs[i := Configured(rs[i], e.key, e.val)]) == Names(rs);
    }
  }

  /** Each name of ms is in ns, and spelled as where it first appears there. */
  ghost predicate Spelled(ns: seq<string>, ms: seq<string>) {
    forall i {:trigger ms[i]} :: 0 <= i < |ms| ==> Position(ns, ms[i]) < |ns| && ns[Position(ns, ms[i])] == ms[i]
  }

  /** The names of ms stand in the order of their first appearance in ns. */
  ghost predicate Ordered(ns: seq<string>, ms: seq<string>) {
    forall i, j {:trigger ms[i], ms[j]} :: 0 <= i < j < |ms| ==> Position(ns, ms[i]) < Position(ns, ms[j])
  }

  ghost predicate Covered(ns: seq<string>, ms: seq<string>) {
    forall k {:trigger ns[k]} :: 0 <= k < |ns| ==> Position(ms, ns[k]) < |ms|
  }

  /** The names in the list are the first appearances of the names asked for: spelled as they
      first appeared, in the order they first appeared, each once, and none missing. */
  ghost predicate FirstAppearances(ns: seq<string>, ms: seq<string>) {
    Tidy(ms) && Spelled(ns, ms) && Ordered(ns, ms) && Covered(ns, ms)
  }

  lemma PositionGrows(ns: seq<string>, n: string, name: string)
    ensures Position(ns + [n], name) ==
            if Position(ns, name) < |ns| || Same(name, n) then Position(ns, name) else |ns| + 1
  {
    hide Same, Position;
    var i := Position(ns, name);
    var all := ns + [n];
    assert forall j {:trigger all[j]} :: 0 <= j < |ns| ==> all[j] == ns[j];
    PositionIs(all, name, if i < |ns| || Same(name, n) then i else |ns| + 1);
  }

  /** One more name asked for leaves the first appearance of a name that was there. */
  lemma PositionStays(ns: seq<string>, ms: seq<string>, n: string, i: nat)
    requires Spelled(ns, ms) && i < |ms|
    ensures Position(ns + [n], ms[i]) == Position(ns, ms[i]) < |ns|
    ensures (ns + [n])[Position(ns, ms[i])] == ms[i]
  {
    hide Same, Position;
    PositionGrows(ns, n, ms[i]);
  }

  lemma SpelledStays(ns: seq<string>, ms: seq<string>, n: string)
    requires Spelled(ns, ms)
    ensures Spelled(ns + [n], ms)
  {
    hide Same, Position;
    forall i | 0 <= i < |ms|
      ensures Position(ns + [n], ms[i]) < |ns| + 1 && (ns + [n])[Position(ns + [n], ms[i])] == ms[i] {
      PositionStays(ns, ms, n, i);
    }
  }

  lemma OrderedStays(ns: seq<string>, ms: seq<string>, n: string)
    requires Spelled(ns, ms) && Ordered(ns, ms)
    ensures Ordered(ns + [n], ms)
  {
    hide Same, Position, Spelled;
    forall i, j | 0 <= i < j < |ms| ensures Position(ns + [n], ms[i]) < Position(ns + [n], ms[j]) {
      PositionStays(ns, ms, n, i);
      PositionStays(ns, ms, n, j);
    }
  }

  lemma CoveredStays(ns: seq<string>, ms: seq<string>, n: string)
    requires Covered(ns, ms) && Position(ms, n) < |ms|
    ensures Covered(ns + [n], ms)
  {
    hide Same, Position;
  }

  /** A name asked for again changes no list of first appearances. */
  lemma AskedAgain(ns: seq<string>, ms: seq<string>, n: string)
    requires FirstAppearances(ns, ms) && Position(ms, n) < |ms|
    ensures FirstAppearances(ns + [n], ms)
  {
    hide Position, Tidy, Spelled, Ordered, Covered;
    SpelledStays(ns, ms, n);
    OrderedStays(ns, ms, n);
    CoveredStays(ns, ms, n);
  }

  /** A name asked for is in the list. */
  lemma InBoth(ns: seq<string>, ms: seq<string>, n: string)
    requires Covered(ns, ms) && Position(ns, n) < |ns|
    ensures Position(ms, n) < |ms|
  {
    hide Position;
    var k := Position(ns, n);
    var i := Position(ms, ns[k]);
    assert Same(n, ns[k]) && Same(ns[k], ms[i]);
  }

  lemma TidySnoc(ms: seq<string>, n: string)
    requires Tidy(ms) && Position(ms, n) == |ms|
    ensures Tidy(ms + [n])
  {
    hide Position;
    forall i | 0 <= i < |ms| ensures !Same(ms[i], n) {
      assert !Same(n, ms[i]);
    }
  }

  /** A name asked for the first time appears last. */
  lemma NewAppearsLast(ns: seq<string>, n: string)
    requires Position(ns, n) == |ns|
    ensures Position(ns + [n], n) == |ns|
  {
    hide Position, Same;
    SelfSame(n);
    PositionGrows(ns, n, n);
  }

  lemma SpelledSnoc(ns: seq<string>, ms: seq<string>, n: string)
    requires Spelled(ns, ms) && Position(ns, n) == |ns|
    ensures Spelled(ns + [n], ms + [n])
  {
    hide Same, Position;
    NewAppearsLast(ns, n);
    SpelledStays(ns, ms, n);
  }

  lemma OrderedSnoc(ns: seq<string>, ms: seq<string>, n: string)
    requires Spelled(ns, ms) && Ordered(ns, ms) && Position(ns, n) == |ns|
    ensures Ordered(ns + [n], ms + [n])
  {
    hide Same, Position, Spelled, Ordered;
    NewAppearsLast(ns, n);
    OrderedStays(ns, ms, n);
    forall i | 0 <= i < |ms| ensures Position(ns + [n], ms[i]) < |ns| {
      PositionStays(ns, ms, n, i);
    }
    LastOrdered(ns + [n], ms, n);
  }

  lemma LastOrdered(ns: seq<string>, ms: seq<string>, n: string)
    requires Ordered(ns, ms)
    requires forall i {:trigger ms[i]} :: 0 <= i < |ms| ==> Position(ns, ms[i]) < Position(ns, n)
    ensures Ordered(ns, ms + [n])
  {
    hide Same, Position;
  }

  lemma CoveredSnoc(ns: seq<string>, ms: seq<string>, n: string)
    requires Covered(ns, ms) && Position(ms, n) == |ms|
    ensures Covered(ns + [n], ms + [n])
  {
    hide Same, Position;
    NewAppearsLast(ms, n);
    forall k | 0 <= k < |ns| ensures Position(ms + [n], ns[k]) < |ms| + 1 {
      PositionGrows(ms, n, ns[k]);
    }
  }

  lemma AskedFirst(ns: seq<string>, ms: seq<string>, n: string)
    requires FirstAppearances(ns, ms) && Position(ms, n) == |ms|
    ensures FirstAppearances(ns + [n], ms + [n])
  {
    hide Position, Tidy, Spelled, Ordered, Covered, Same;
    if Position(ns, n) < |ns| {
      InBoth(ns, ms, n);
    }
    TidySnoc(ms, n);
    SpelledSnoc(ns, ms, n);
    OrderedSnoc(ns, ms, n);
    CoveredSnoc(ns, ms, n);
  }

  lemma SelfSame(n: string)
    ensures Same(n, n)
  {
  }

  /** Whatever callbacks come, the queue list never holds two names equal but for case, and
      its names are the first appearances of the names asked for. */
  lemma {:induction false} QueueNames(es: seq<Effect>)
    ensures FirstAppearances(Asked(es), Names(AfterAll(es)))
  {
    hide FirstAppearances, Position, AfterEffect;
    if es == [] {
      NoNames();
    } else {
      var before, e := es[..|es| - 1], es[|es| - 1];
      QueueNames(before);
      var qs, ns := AfterAll(before), Asked(before);
      NamesAfterEffect(qs, e);
      if e.ToQueue? {
        if Position(Names(qs), e.name) == |qs| {
          AskedFirst(ns, Names(qs), e.name);
        } else {
          AskedAgain(ns, Names(qs), e.name);
        }
      } else {
        assert Asked(es) == ns;
      }
    }
  }

  lemma NoNames()
    ensures FirstAppearances([], Names([]))
  {
  }

  lemma {:induction false} TidyCount(ms: seq<string>)
    requires Tidy(ms)
    ensures |LowerSet(ms)| == |ms|
  {
    if ms != [] {
      var k := |ms| - 1;
      TidyCount(ms[..k]);
      assert LowerSet(ms) == LowerSet(ms[..k]) + {Lower(ms[k])};
      assert Lower(ms[k]) !in LowerSet(ms[..k]);
    }
  }

  lemma LowerSubset(ns: seq<string>, ms: seq<string>)
    requires forall k {:trigger ns[k]} :: 0 <= k < |ns| ==> Position(ms, ns[k]) < |ms|
    ensures LowerSet(ns) <= LowerSet(ms)
  {
    hide Position, Lower;
    forall n | n in ns ensures Lower(n) in LowerSet(ms) {
      var k :| 0 <= k < |ns| && ns[k] == n;
      assert ms[Position(ms, ns[k])] in ms;
    }
  }

  /** There are as many queues as names that differ by more than case. */
  lemma QueueCount(es: seq<Effect>)
    ensures |AfterAll(es)| == |LowerSet(Asked(es))|
  {
    hide Position, AfterAll, Asked, Tidy, LowerSet;
    QueueNames(es);
    var ns, ms := Asked(es), Names(AfterAll(es));
    TidyCount(ms);
    LowerSubset(ns, ms);
    LowerSubset(ms, ns);
    assert LowerSet(ns) == LowerSet(ms);
  }

  // ---------------------------------------------------------------- each queue on its own

  predicate For(e: Effect, name: string) {
    e.ToQueue? && Same(e.name, name)
  }

  /** What the callbacks for one name alone make of its queue. */
  function Own(es: seq<Effect>, name: string): Option<QueueData> {
    if es == [] then None
    else
      var before, e := Own(es[..|es| - 1], name), es[|es| - 1];
      if !For(e, name) then before
      else Some(Configured(if before.Some? then before.value else NewQueue(e.name), e.key, e.val))
  }

  function Lookup(qs: seq<QueueData>, name: string): Option<QueueData> {
    var i := IndexOf(qs, name);
    if i < |qs| then Some(qs[i]) else None
  }

  lemma SamePosition(ns: seq<string>, n: string, name: string)
    requires Same(n, name)
    ensures Position(ns, n) == Position(ns, name)
  {
    PositionIs(ns, name, Position(ns, n));
  }

  lemma LookupAfter(qs: seq<QueueData>, e: Effect, name: string)
    ensures For(e, name) ==>
              var q := if Lookup(qs, name).Some? then Lookup(qs, name).value else NewQueue(e.name);
              Lookup(AfterEffect(qs, e), name) == Some(Configured(q, e.key, e.val))
    ensures !For(e, name) ==> Lookup(AfterEffect(qs, e), name) == Lookup(qs, name)
  {
    hide Position, Configured;
    if e.ToQueue? {
      var ns := Names(qs);
      NamesAfterEffect(qs, e);
      PositionGrows(ns, e.name, name);
      if For(e, name) {
        SamePosition(ns, e.name, name);
      } else {
        OthersApart(ns, e.name, name);
      }
    }
  }

  lemma OthersApart(ns: seq<string>, n: string, name: string)
    requires !Same(n, name)
    ensures Position(ns, n) < |ns| ==> Position(ns, n) != Position(ns, name)
  {
    hide Position;
  }

  /** A queue is what its own callbacks made of it, in order: those for other queues, and
      other sections, leave it alone. */
  lemma {:induction false} OwnSettings(es: seq<Effect>, name: string)
    ensures Lookup(AfterAll(es), name) == Own(es, name)
  {
    hide Lookup, Configured, AfterEffect, Same;
    if es == [] {
      NoQueue(name);
    } else {
      OwnSettings(es[..|es| - 1], name);
      LookupAfter(AfterAll(es[..|es| - 1]), es[|es| - 1], name);
    }
  }

  lemma NoQueue(name: string)
    ensures Lookup([], name) == None
  {
  }

  // ---------------------------------------------------------------- from the printed file on

  /** A configuration printed in any decoration, without a comment after an empty value, and
      read back: nothing is refused, nothing is lost, and each queue is what its own settings
      made of it. */
  lemma ConfigRead(items: seq<Printed.Item>, section0: string, leftover: seq<Call> -> string, name: string)
    requires forall i :: 0 <= i < |items| ==> Printed.ItemOk(items[i])
    requires forall i {:trigger items[i]} :: 0 <= i < |items| ==> Printed.Kept(items[i])
    requires forall c :: c in Printed.Settings(items, section0) ==> !EffectOf(c, "").Refused?
    ensures var (error, calls) := ParseFrom(Printed.Print(items), 0, section0, [], Accepts);
            && error == 0 && calls == Printed.Settings(items, section0)
            && Lookup(AfterAll(Effects(calls, leftover)), name) ==
               Own(Effects(Printed.Settings(items, section0), leftover), name)
  {
    hide EffectOf, ParseFrom, Lookup, Own, AfterAll, Printed.ItemOk, Printed.Kept;
    var calls := Printed.Settings(items, section0);
    assert Accepted(calls, 0, |calls|, Accepts) by {
      forall i | 0 <= i < |calls| ensures Accepts(calls[..i], calls[i]) {
        assert calls[i] in calls;
      }
    }
    Printed.IniRoundTrip(items, section0, Accepts);
    OwnSettings(Effects(calls, leftover), name);
  }

  /** White space, then the rest of the text. */
  lemma AfterGap(gap: string, rest: string)
    requires Printed.AllSpace(gap) && (rest == [] || !IsSpace(rest[0]))
    ensures Spaces(gap + rest) == |gap| && (gap + rest)[Spaces(gap + rest)..] == rest
  {
    GapBefore(gap, rest);
  }

  /** A word, then the rest of the text. */
  lemma AfterWord(w: string, rest: string)
    requires IsName(w) && (rest == [] || IsSpace(rest[0]))
    ensures WordLength(w + rest) == |w| && (w + rest)[..|w|] == w && (w + rest)[|w|..] == rest
    ensures w + rest != [] && !IsSpace((w + rest)[0])
  {
    WordThen(w, rest);
    assert w[0] in w;
  }

  /** White space or nothing. */
  predicate Ends(rest: string) {
    rest == [] || IsSpace(rest[0])
  }

  /** A section names its queue by its second word, whatever white space stands around it and
      whatever words follow. */
  lemma SecondOfSection(lead: string, w1: string, gap: string, w2: string, rest: string)
    requires Printed.AllSpace(lead) && IsName(w1) && IsName(w2) && gap != [] && Printed.AllSpace(gap) && Ends(rest)
    ensures SecondWord(lead + (w1 + (gap + (w2 + rest)))) == Some(w2)
  {
    AfterWord(w2, rest);
    AfterGap(gap, w2 + rest);
    assert (gap + (w2 + rest))[0] in gap;
    AfterWord(w1, gap + (w2 + rest));
    AfterGap(lead, w1 + (gap + (w2 + rest)));
    hide Spaces, WordLength, IsName;
  }

  /** A section of one word, or of none, names no queue. */
  lemma NoSecondWord(lead: string, w1: string, gap: string)
    requires Printed.AllSpace(lead) && Printed.AllSpace(gap) && (IsName(w1) || (w1 == [] && gap == []))
    ensures SecondWord(lead + (w1 + gap)) == None
  {
    AfterGap(gap, []);
    assert gap + [] == gap;
    if gap != [] {
      assert gap[0] in gap;
    }
    if w1 == [] {
      assert lead + (w1 + gap) == lead + [];
      AfterGap(lead, []);
    } else {
      AfterWord(w1, gap);
      AfterGap(lead, w1 + gap);
    }
    hide Spaces, WordLength, IsName;
  }

  lemma {:induction false} GapBefore(gap: string, rest: string)
    requires Printed.AllSpace(gap) && (rest == [] || !IsSpace(rest[0]))
    ensures Spaces(gap + rest) == |gap|
  {
    if gap == [] {
      assert gap + rest == rest;
    } else {
      assert (gap + rest)[1..] == gap[1..] + rest;
      GapBefore(gap[1..], rest);
    }
  }

  // ---------------------------------------------------------------- the borrow factors

  predicate Sign(s: string) {
    s == "+" || s == "-"
  }

  /** What may stand between two numbers for "%d %d" to read both. */
  predicate Separates(sep: string) {
    var k := Spaces(sep);
    k == |sep| || Sign(sep[k..])
  }

  lemma {:induction false} SpacesThen(sep: string, rest: string)
    requires rest != [] && !IsSpace(rest[0])
    ensures Spaces(sep + rest) == Spaces(sep)
  {
    if sep == [] {
      assert sep + rest == rest;
    } else if IsSpace(sep[0]) {
      assert (sep + rest)[1..] == sep[1..] + rest;
      SpacesThen(sep[1..], rest);
    }
  }

  /** What %d makes of a text whose white space is k long. */
  lemma ScanAt(s: string, k: nat, sign: nat)
    requires k == Spaces(s) < |s|
    requires sign == if s[k] == '-' || s[k] == '+' then 1 else 0
    ensures ScanInt(s).Some? <==> DigitCount(s[k + sign..]) > 0
    ensures ScanInt(s).Some? ==>
              var v: int := Value(s[k + sign..][..DigitCount(s[k + sign..])]);
              ScanInt(s).value.0 == if s[k] == '-' then -v else v
  {
    hide DigitCount, Value, Spaces;
    var t := s[k..];
    assert t[sign..] == s[k + sign..];
  }

  lemma WholeNumber(b: nat)
    ensures var d := Decimal(b);
            d != [] && IsDigit(d[0]) && !IsSpace(d[0]) && DigitCount(d) == |d| && d[..|d|] == d && Value(d) == b
  {
    hide DigitCount, Value, Digits;
    DigitsValue(b);
    var d := Digits(b);
    assert d + [] == d && d[..|d|] == d;
    assert IsDigit(d[0]) by { assert d[0] in d; }
    DigitsThen(d, []);
  }

  lemma SecondNumber(sep: string, b: nat)
    requires forall i :: 0 <= i < |sep| ==> !IsDigit(sep[i])
    ensures ScanInt(sep + Decimal(b)).Some? <==> Separates(sep)
    ensures Separates(sep) ==>
              ScanInt(sep + Decimal(b)).value.0 == if sep != [] && sep[|sep| - 1] == '-' then 0 - b else b
  {
    hide DigitCount, Value, Decimal, ScanInt, Spaces;
    WholeNumber(b);
    var d := Decimal(b);
    SpacesThen(sep, d);
    var k, s := Spaces(sep), sep + d;
    var sign := if s[k] == '-' || s[k] == '+' then 1 else 0;
    ScanAt(s, k, sign);
    var u := s[k + sign..];
    if k == |sep| {
      assert u == d;
      if sep != [] {
        LastSpace(sep);
      }
    } else {
      assert s[k] == sep[k] == sep[k..][0];
      if sign == 1 && k + 1 == |sep| {
        assert u == d && sep[k..] == [sep[k]];
      } else {
        assert u[0] == sep[k + sign];
        NoDigits(u);
      }
    }
  }

  lemma NoDigits(s: string)
    requires s == [] || !IsDigit(s[0])
    ensures DigitCount(s) == 0
  {
  }

  lemma {:induction false} LastSpace(sep: string)
    requires Spaces(sep) == |sep| > 0
    ensures IsSpace(sep[|sep| - 1])
  {
    if |sep| > 1 {
      LastSpace(sep[1..]);
    }
  }

  /** A borrow_factor of two numbers with something between them: the first is always read,
      the second exactly when only white space, and perhaps a sign, separates them. */
  lemma TwoFactors(a: nat, sep: string, b: nat, factor0: int, factor1: int)
    requires sep != [] && forall i :: 0 <= i < |sep| ==> !IsDigit(sep[i])
    ensures Factors(Decimal(a) + sep + Decimal(b), factor0, factor1) ==
            (a, if !Separates(sep) then factor1 else if sep[|sep| - 1] == '-' then 0 - b else b)
  {
    hide ScanInt, Separates;
    var rest := sep + Decimal(b);
    assert Decimal(a) + sep + Decimal(b) == Decimal(a) + rest;
    assert rest[0] == sep[0];
    ScanCount(a, rest);
    assert (Decimal(a) + rest)[|Decimal(a)|..] == rest;
    SecondNumber(sep, b);
  }

  /** conf/resdb.conf:19,24 write the factors with a comma.  A queue configured so, and given
      no other factors, never asks for a machine, however many jobs are pending; written with
      a blank it asks for b machines per a jobs. */
  lemma CommaNeverAsks(q: QueueData, a: nat, b: nat, pending: nat, held: nat)
    requires q.factor1 == 0 && a > 0
    ensures var q1 := Configured(q, "borrow_factor", Decimal(a) + "," + Decimal(b));
            q1.factor0 == a && NumMachines(pending, q1.factor0, q1.factor1, held) == Some(0)
    ensures var q2 := Configured(q, "borrow_factor", Decimal(a) + " " + Decimal(b));
            NumMachines(pending, q2.factor0, q2.factor1, held) == Some(Max(0, (pending / a) * b - held))
  {
    hide Decimal, Factors;
    TwoFactors(a, ",", b, q.factor0, q.factor1);
    TwoFactors(a, " ", b, q.factor0, q.factor1);
    SeparatorFacts();
    FactorKey(q, Decimal(a) + "," + Decimal(b));
    FactorKey(q, Decimal(a) + " " + Decimal(b));
    var n := pending / a;
    assert n * 0 == 0 && n * b >= 0 && (n == 0 ==> n * b == 0);
  }

  lemma SeparatorFacts()
    ensures !Separates(",") && Separates(" ")
  {
    assert ","[0..] == ",";
    assert " "[1..] == "";
  }

  lemma FactorKey(q: QueueData, val: string)
    ensures var q1 := Configured(q, "borrow_factor", val);
            (q1.factor0, q1.factor1) == Factors(val, q.factor0, q.factor1)
  {
    hide Factors;
    assert Same("borrow_factor", "borrow_factor");
  }

  /** The first number of the last borrow_factor given for that name that has one. */
  function LastFactor(es: seq<Effect>, name: string): Option<int> {
    if es == [] then None
    else
      var e := es[|es| - 1];
      if For(e, name) && Same(e.key, "borrow_factor") && ScanInt(e.val).Some? then Some(ScanInt(e.val).value.0)
      else LastFactor(es[..|es| - 1], name)
  }

  /** The broker divides by the first factor.  The number of machines of a queue is defined
      exactly when its callbacks gave it a factor and the last one given is not zero: a
      section without the key, with a value that is no number, or with 0, makes it divide by
      zero. */
  lemma FactorDecides(es: seq<Effect>, name: string, pending: int, held: nat)
    requires Lookup(AfterAll(es), name).Some?
    ensures var q := Lookup(AfterAll(es), name).value;
            NumMachines(pending, q.factor0, q.factor1, held).Some? <==>
            LastFactor(es, name).Some? && LastFactor(es, name).value != 0
  {
    hide Same, Lookup, AfterAll, LastFactor, Own;
    OwnSettings(es, name);
    OwnFactor(es, name);
  }

  /** A queue whose section says only what it is for. */
  lemma NoFactor(pending: int, held: nat)
    ensures var qs := AfterAll([ToQueue("q", "type", "vm")]);
            |qs| == 1 && NumMachines(pending, qs[0].factor0, qs[0].factor1, held) == None
  {
    var e := ToQueue("q", "type", "vm");
    assert [e][..0] == [];
    assert AfterAll([e]) == AfterEffect([], e);
    hide Same, KindOf, ScanInt;
    assert !Same("type", "borrow_factor") by { OtherKey(); }
  }

  lemma OtherKey()
    ensures !Same("type", "borrow_factor")
  {
    assert |Lower("type")| != |Lower("borrow_factor")|;
  }

  lemma {:induction false} OwnFactor(es: seq<Effect>, name: string)
    ensures Own(es, name).Some? ==>
              Own(es, name).value.factor0 == (if LastFactor(es, name).Some? then LastFactor(es, name).value else 0)
    ensures Own(es, name).None? ==> LastFactor(es, name).None?
  {
    hide Same, ScanInt;
    if es != [] {
      OwnFactor(es[..|es| - 1], name);
    }
  }

  // ---------------------------------------------------------------- a queue from its settings

  /** A lower-case letter and its capital, or the same character twice. */
  predicate SameLetter(c: char, d: char) {
    || c == d
    || ('A' <= c <= 'Z' && d as int - c as int == 'a' as int - 'A' as int)
    || ('A' <= d <= 'Z' && c as int - d as int == 'a' as int - 'A' as int)
  }

  /** Names and keys are compared letter by letter, without regard to case. */
  lemma SameIff(s: string, t: string)
    ensures Same(s, t) <==> |s| == |t| && forall i :: 0 <= i < |s| ==> SameLetter(s[i], t[i])
  {
    if |s| == |t| && forall i :: 0 <= i < |s| ==> SameLetter(s[i], t[i]) {
      assert Lower(s) == Lower(t);
    } else if Same(s, t) {
      forall i | 0 <= i < |s| ensures SameLetter(s[i], t[i]) {
        assert Lower(s)[i] == Lower(t)[i];
      }
    }
  }

  /** A word without capitals is its own lower case. */
  lemma LowerWord(s: string)
    requires forall i :: 0 <= i < |s| ==> !('A' <= s[i] <= 'Z')
    ensures Lower(s) == s
  {
  }

  /** The machine type that a text names, if it is spelled in lower case. */
  function KindNamed(text: string): Kind {
    match text
    case "container" => Containers
    case "cloud" => Cloud
    case _ => Vms
  }

  /** The type of a queue is the one its value names in any case; every other value means
      virtual machines. */
  lemma KindVerdict(val: string)
    ensures KindOf(val) == KindNamed(Lower(val))
  {
    LowerWord("vm");
    LowerWord("container");
    LowerWord("cloud");
  }

  /** The value of the last callback for that name with that key. */
  function LastValue(es: seq<Effect>, name: string, key: string): Option<string> {
    if es == [] then None
    else
      var e := es[|es| - 1];
      if For(e, name) && Same(e.key, key) then Some(e.val) else LastValue(es[..|es| - 1], name, key)
  }

  /** The second number of the last borrow_factor given for that name that has two. */
  function LastSecond(es: seq<Effect>, name: string): Option<int> {
    if es == [] then None
    else
      var e := es[|es| - 1];
      if For(e, name) && Same(e.key, "borrow_factor") && SecondInt(e.val).Some? then SecondInt(e.val)
      else LastSecond(es[..|es| - 1], name)
  }

  function SecondInt(val: string): Option<int> {
    match ScanInt(val)
    case None => None
    case Some((_, used)) =>
      match ScanInt(val[used..])
      case None => None
      case Some((b, _)) => Some(b)
  }

  /** How the name was spelled when it was first asked for. */
  function FirstSpelling(es: seq<Effect>, name: string): Option<string> {
    if es == [] then None
    else
      var before, e := FirstSpelling(es[..|es| - 1], name), es[|es| - 1];
      if before.Some? then before else if For(e, name) then Some(e.name) else None
  }

  function Or<T>(x: Option<T>, y: T): T {
    if x.Some? then x.value else y
  }

  function Settled(es: seq<Effect>, name: string): Option<QueueData> {
    match FirstSpelling(es, name)
    case None => None
    case Some(spelling) =>
      Some(QueueData(spelling, KindNamed(Lower(Or(LastValue(es, name, "type"), "vm"))),
                     LastValue(es, name, "name_space"), Or(LastFactor(es, name), 0), Or(LastSecond(es, name), 0)))
  }

  /** A queue exists exactly when its name was asked for, and each of its fields follows the
      last callback for that field alone: the type is the one last named, the name space the
      value last given, each factor the number last given in its place; what was never given
      is as calloc left it. */
  lemma QueueVerdict(es: seq<Effect>, name: string)
    ensures Lookup(AfterAll(es), name) == Settled(es, name)
  {
    hide Lookup, AfterAll, Settled, Own;
    OwnSettings(es, name);
    OwnSettled(es, name);
  }

  /** One callback sets the field its key names, and no other. */
  lemma OneSetting(q: QueueData, key: string, val: string)
    ensures Configured(q, key, val) == QueueData(
              q.name,
              if Same(key, "type") then KindNamed(Lower(val)) else q.kind,
              if Same(key, "name_space") then Some(val) else q.nameSpace,
              if Same(key, "borrow_factor") && ScanInt(val).Some? then ScanInt(val).value.0 else q.factor0,
              if Same(key, "borrow_factor") && SecondInt(val).Some? then SecondInt(val).value else q.factor1)
  {
    hide Same, ScanInt, KindNamed, KindOf;
    KindVerdict(val);
  }

  lemma {:induction false} OwnSettled(es: seq<Effect>, name: string)
    ensures Own(es, name) == Settled(es, name)
  {
    hide KindNamed, ScanInt, Same, Configured, SecondInt, Lower;
    if es != [] {
      var before, e := es[..|es| - 1], es[|es| - 1];
      OwnSettled(before, name);
      if FirstSpelling(before, name).None? {
        NothingAsked(before, name);
        VmNamed();
      }
      if For(e, name) {
        OneSetting(Or(Own(before, name), NewQueue(e.name)), e.key, e.val);
      }
    }
  }

  lemma VmNamed()
    ensures KindNamed(Lower("vm")) == Vms
  {
    LowerWord("vm");
  }

  lemma {:induction false} NothingAsked(es: seq<Effect>, name: string)
    requires FirstSpelling(es, name).None?
    ensures LastValue(es, name, "type").None? && LastValue(es, name, "name_space").None?
    ensures LastFactor(es, name).None? && LastSecond(es, name).None?
  {
    if es != [] {
      NothingAsked(es[..|es| - 1], name);
    }
  }

  // ---------------------------------------------------------------- which callback does what

  predicate Stands(s: string, word: string, i: nat) {
    i + |word| <= |s| && s[i..i + |word|] == word
  }

  /** strstr: the word stands somewhere in the text. */
  lemma {:induction false} ContainsIff(s: string, word: string)
    ensures Contains(s, word) <==> exists i: nat :: Stands(s, word, i)
  {
    if word <= s {
      assert Stands(s, word, 0);
    } else if s != [] {
      ContainsIff(s[1..], word);
      if i: nat :| Stands(s[1..], word, i) {
        assert s[1..][i..i + |word|] == s[i + 1..i + 1 + |word|];
        assert Stands(s, word, i + 1);
      }
      if i: nat :| Stands(s, word, i) {
        assert i > 0 && s[1..][i - 1..i - 1 + |word|] == s[i..i + |word|];
        assert Stands(s[1..], word, i - 1);
      }
    }
  }

  /** Every callback.  Only an unknown key of the broker's own section is refused; a queue is
      set by every callback of a section that has "queue" in it, in lower case, and that is not
      one of the two fixed sections, with the key and the value that came. */
  lemma EffectVerdict(call: Call, leftover: string)
    ensures var e, section, key := EffectOf(call, leftover), Lower(call.section), Lower(call.name);
            && (e.Refused? <==> section == "resbd" && key != "host" && key != "port")
            && (e.ToQueue? <==>
                 section != "resbd" && section != "params" && exists i: nat :: Stands(call.section, "queue", i))
            && (e.ToQueue? ==>
                 && e.key == call.name && e.val == call.value
                 && e.name == Or(SecondWord(call.section), leftover))
  {
    LowerWord("resbd");
    LowerWord("params");
    LowerWord("host");
    LowerWord("port");
    ContainsIff(call.section, "queue");
    hide Lower, Contains, SecondWord, Stands;
  }
}
