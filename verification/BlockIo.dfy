/** Blocking reads and writes of src/lib/nio.c and the messages exchanged with them: a header
    of fixed size, then as many bytes as it announces. */
module BlockIo {
  import opened Prelude

  /** One answer of the kernel to read(2) or write(2): at most this many bytes, EINTR, or
      another error.  When a plan of answers runs out everything asked for is transferred. */
  datatype Io = Count(n: nat) | Intr | Fail

  predicate NoFail(plan: seq<Io>) {
    forall i :: 0 <= i < |plan| ==> !plan[i].Fail?
  }

  function Next(plan: seq<Io>, want: nat): Io {
    if plan == [] then Count(want) else plan[0]
  }

  function Later(plan: seq<Io>): seq<Io> {
    if plan == [] then [] else plan[1..]
  }

  // ---------------------------------------------------------------- nio_readblock

  /** A read yields at least one byte unless the stream is at its end. */
  function Taken(n: nat, want: nat, left: nat): nat {
    Min(Min(Max(n, 1), want), left)
  }

  /** The bytes read, or None for -1, and the plan that is left. */
  function ReadBlock(data: seq<byte>, want: nat, plan: seq<Io>): (r: (Option<seq<byte>>, seq<Io>))
    ensures r.0.Some? ==> |r.0.value| == want <= |data|
    decreases |plan|, want
  {
    if want == 0 then (Some([]), plan)
    else match Next(plan, want)
      case Intr => ReadBlock(data, want, plan[1..])
      case Fail => (None, plan[1..])
      case Count(n) =>
        var k := Taken(n, want, |data|);
        if k == 0 then (None, Later(plan))
        else
          var (r, p) := ReadBlock(data[k..], want - k, Later(plan));
          (if r.Some? then Some(data[..k] + r.value) else None, p)
  }

  /** Any short reads and interruptions later: the first `want` bytes of the stream, or -1 when
      there are not that many. */
  lemma {:induction false} ReadBlockWhole(data: seq<byte>, want: nat, plan: seq<Io>)
    requires NoFail(plan)
    ensures ReadBlock(data, want, plan).0 == (if want <= |data| then Some(data[..want]) else None)
    ensures NoFail(ReadBlock(data, want, plan).1)
    decreases |plan|, want
  {
    if want > 0 {
      var io := Next(plan, want);
      if io.Intr? {
        ReadBlockWhole(data, want, plan[1..]);
      } else {
        var k := Taken(io.n, want, |data|);
        if k > 0 {
          ReadBlockWhole(data[k..], want - k, Later(plan));
          assert want <= |data| ==> data[..want] == data[..k] + data[k..][..want - k];
        }
      }
    }
  }

  /** The bytes that the answers before the first error bring, each read at least one. */
  function Brought(plan: seq<Io>): nat {
    if plan == [] || plan[0].Fail? then 0
    else (if plan[0].Count? then Max(plan[0].n, 1) else 0) + Brought(plan[1..])
  }

  /** Whatever the kernel answers, errors included: the first `want` bytes of the stream when
      it has them and they come before the first error, and -1 otherwise. */
  lemma {:induction false} ReadBlockVerdict(data: seq<byte>, want: nat, plan: seq<Io>)
    ensures ReadBlock(data, want, plan).0 ==
            if want <= |data| && (NoFail(plan) || Brought(plan) >= want) then Some(data[..want]) else None
    decreases |plan|, want
  {
    if NoFail(plan) {
      ReadBlockWhole(data, want, plan);
    } else if want > 0 && !plan[0].Fail? {
      assert plan == [plan[0]] + plan[1..];
      assert !NoFail(plan[1..]);
      if plan[0].Intr? {
        ReadBlockVerdict(data, want, plan[1..]);
      } else {
        var k := Taken(plan[0].n, want, |data|);
        if k > 0 {
          ReadBlockVerdict(data[k..], want - k, plan[1..]);
          assert want <= |data| ==> data[..want] == data[..k] + data[k..][..want - k];
        }
      }
    }
  }

  lemma ReadStep(data: seq<byte>, want: nat, plan: seq<Io>)
    requires want > 0
    ensures ReadBlock(data, want, plan) ==
            match Next(plan, want)
            case Intr => ReadBlock(data, want, plan[1..])
            case Fail => (None, plan[1..])
            case Count(n) =>
              var k := Taken(n, want, |data|);
              if k == 0 then (None, Later(plan))
              else
                var (r, p) := ReadBlock(data[k..], want - k, Later(plan));
                (if r.Some? then Some(data[..k] + r.value) else None, p)
  {
  }

  lemma NothingToRead(data: seq<byte>, plan: seq<Io>)
    ensures ReadBlock(data, 0, plan) == (Some([]), plan)
  {
  }

  /** The loop of nio_readblock, which moves the buffer pointer along. */
  method NioReadBlock(buf: array<byte>, data: seq<byte>, plan: seq<Io>) returns (ok: bool, planLeft: seq<Io>)
    modifies buf
    ensures ok <==> ReadBlock(data, buf.Length, plan).0.Some?
    ensures ok ==> Some(buf[..]) == ReadBlock(data, buf.Length, plan).0
    ensures planLeft == ReadBlock(data, buf.Length, plan).1
  {
    hide ReadBlock;
    var off: nat, left: nat := 0, buf.Length;
    var d := data;
    planLeft := plan;
    ghost var all := ReadBlock(data, buf.Length, plan).0;
    assert all.Some? ==> buf[..0] + all.value == all.value;
    while left > 0
      invariant off + left == buf.Length
      invariant var (r, p) := ReadBlock(d, left, planLeft);
                ReadBlock(data, buf.Length, plan) == (if r.Some? then Some(buf[..off] + r.value) else None, p)
      decreases |planLeft|, left
    {
      ReadStep(d, left, planLeft);
      var io := Next(planLeft, left);
      match io {
        case Intr =>
          planLeft := planLeft[1..];
        case Fail =>
          return false, planLeft[1..];
        case Count(n) =>
          var c := Taken(n, left, |d|);
          if c == 0 {
            return false, Later(planLeft);
          }
          ghost var before := buf[..off];
          ghost var (r, p) := ReadBlock(d[c..], left - c, Later(planLeft));
          forall j | 0 <= j < c {
            buf[off + j] := d[j];
          }
          assert buf[..off + c] == before + d[..c];
          assert r.Some? ==> before + (d[..c] + r.value) == (before + d[..c]) + r.value;
          d := d[c..];
          off := off + c;
          left := left - c;
          planLeft := Later(planLeft);
      }
    }
    NothingToRead(d, planLeft);
    assert buf[..off] + [] == buf[..];
    return true, planLeft;
  }

  // ---------------------------------------------------------------- nio_writeblock

  /** What came of a block write; sent is what went out on the wire.  Overrun: more bytes went
      out than the block has, and the unsigned count of the rest wrapped around. */
  datatype Outcome = Sent(sent: seq<byte>) | Failed(sent: seq<byte>) | Overrun(sent: seq<byte>)

  function Prepend(b: seq<byte>, o: Outcome): Outcome {
    match o
    case Sent(s) => Sent(b + s)
    case Failed(s) => Failed(b + s)
    case Overrun(s) => Overrun(b + s)
  }

  /** mem is the memory from the current position on, size the length of the block, left what
      is still to be sent.  As written every write(2) is asked for size bytes; mended, for the
      bytes that are left. */
  function WriteBlock(mem: seq<byte>, size: nat, left: nat, plan: seq<Io>, repaired: bool): Outcome
    requires left <= |mem| && left <= size
    decreases |plan|, left
  {
    if left == 0 then Sent([])
    else
      var want := if repaired then left else size;
      match Next(plan, want)
      case Intr => WriteBlock(mem, size, left, plan[1..], repaired)
      case Fail => Failed([])
      case Count(n) =>
        var c := Min(n, want);
        if c > left then Overrun(mem[..Min(c, |mem|)])
        else if plan == [] then Sent(mem[..c])
        else Prepend(mem[..c], WriteBlock(mem[c..], size, left - c, plan[1..], repaired))
  }

  /** Mended, under any short writes and interruptions, exactly the block goes out. */
  lemma {:induction false} WriteBlockWhole(mem: seq<byte>, size: nat, left: nat, plan: seq<Io>)
    requires left <= |mem| && left <= size && NoFail(plan)
    ensures WriteBlock(mem, size, left, plan, true) == Sent(mem[..left])
    decreases |plan|, left
  {
    if left > 0 && plan != [] {
      var c := if plan[0].Count? then Min(plan[0].n, left) else 0;
      WriteBlockWhole(mem[c..], size, left - c, plan[1..]);
      assert mem[..left] == mem[..c] + mem[c..][..left - c];
      assert mem[0..] == mem;
    }
  }

  /** The bytes that the answers before the first error take. */
  function Took(plan: seq<Io>): nat {
    if plan == [] || plan[0].Fail? then 0
    else (if plan[0].Count? then plan[0].n else 0) + Took(plan[1..])
  }

  /** Mended, whatever the kernel answers: the block goes out unless an error comes first, and
      then just the bytes taken before it did. */
  lemma {:induction false} WriteBlockVerdict(mem: seq<byte>, size: nat, left: nat, plan: seq<Io>)
    requires left <= |mem| && left <= size
    ensures WriteBlock(mem, size, left, plan, true) ==
            if NoFail(plan) || Took(plan) >= left then Sent(mem[..left]) else Failed(mem[..Took(plan)])
    decreases |plan|, left
  {
    if NoFail(plan) {
      WriteBlockWhole(mem, size, left, plan);
    } else if left > 0 && !plan[0].Fail? {
      assert plan == [plan[0]] + plan[1..];
      assert !NoFail(plan[1..]);
      var c := if plan[0].Count? then Min(plan[0].n, left) else 0;
      WriteBlockVerdict(mem[c..], size, left - c, plan[1..]);
      assert mem[..left] == mem[..c] + mem[c..][..left - c];
      assert mem[0..] == mem;
      assert Took(plan) < left ==> mem[..Took(plan)] == mem[..c] + mem[c..][..Took(plan[1..])];
    }
  }

  /** The bytes transferred by a plan when every call is asked for `want`. */
  function Total(plan: seq<Io>, want: nat): nat {
    if plan == [] then 0
    else (if plan[0].Count? then Min(plan[0].n, want) else 0) + Total(plan[1..], want)
  }

  /** Some beginning of the plan transfers exactly `left` bytes without an error. */
  ghost predicate AddsUp(plan: seq<Io>, size: nat, left: nat) {
    exists j {:trigger plan[..j]} :: 0 <= j <= |plan| && NoFail(plan[..j]) && Total(plan[..j], size) == left
  }

  lemma AddsUpStep(plan: seq<Io>, size: nat, left: nat)
    requires plan != [] && left > 0 && !plan[0].Fail?
    ensures var c := if plan[0].Count? then Min(plan[0].n, size) else 0;
            AddsUp(plan, size, left) <==> c <= left && AddsUp(plan[1..], size, left - c)
  {
    var c := if plan[0].Count? then Min(plan[0].n, size) else 0;
    if AddsUp(plan, size, left) {
      var j :| 0 <= j <= |plan| && NoFail(plan[..j]) && Total(plan[..j], size) == left;
      assert plan[..j][1..] == plan[1..][..j - 1];
    }
    if c <= left && AddsUp(plan[1..], size, left - c) {
      var j :| 0 <= j <= |plan| - 1 && NoFail(plan[1..][..j]) && Total(plan[1..][..j], size) == left - c;
      assert plan[..j + 1] == [plan[0]] + plan[1..][..j];
      assert plan[..j + 1][1..] == plan[1..][..j];
    }
  }

  /** As written, the block goes out as it should exactly when the counts that the kernel
      answers add up to its length on the way, or it is all still to be sent when the plan is
      used up. */
  lemma {:induction false} WriteBlockAsWritten(mem: seq<byte>, size: nat, left: nat, plan: seq<Io>)
    requires left <= |mem| && left <= size
    ensures WriteBlock(mem, size, left, plan, false) == Sent(mem[..left]) <==>
            AddsUp(plan, size, left) || (left == size && NoFail(plan) && Total(plan, size) == 0)
    decreases |plan|, left
  {
    if left == 0 {
      assert NoFail(plan[..0]) && Total(plan[..0], size) == 0;
    } else if plan == [] {
      assert Total(plan[..0], size) == 0;
    } else if plan[0].Fail? {
      forall j | 0 < j <= |plan| ensures !NoFail(plan[..j]) {
        assert plan[..j][0].Fail?;
      }
    } else {
      AddsUpStep(plan, size, left);
      var c := if plan[0].Count? then Min(plan[0].n, size) else 0;
      assert plan == [plan[0]] + plan[1..];
      assert NoFail(plan) <==> NoFail(plan[1..]);
      if c <= left {
        WriteBlockAsWritten(mem[c..], size, left - c, plan[1..]);
        assert mem[..left] == mem[..c] + mem[c..][..left - c];
        assert mem[c..][..left - c] == mem[..left][c..];
      }
    }
  }

  /** What ends a write as it is after j answers, when t bytes of the block are out: an error, a
      count past the end of the block, or the next call once the plan is used up. */
  predicate Fate(mem: seq<byte>, size: nat, left: nat, plan: seq<Io>, j: nat, t: nat, o: Outcome)
    requires j <= |plan| && t <= |mem|
  {
    && (j < |plan| && plan[j].Fail? ==> o == Failed(mem[..t]))
    && (j < |plan| && plan[j].Count? && t + Min(plan[j].n, size) > left ==>
          o == Overrun(mem[..Min(t + Min(plan[j].n, size), |mem|)]))
    && (j == |plan| && t + size > left ==> o == Overrun(mem[..Min(t + size, |mem|)]))
  }

  lemma FateLater(mem: seq<byte>, size: nat, left: nat, plan: seq<Io>, j: nat, t: nat, c: nat, o: Outcome)
    requires 0 < j <= |plan| && c <= t <= |mem| && c <= left
    requires Fate(mem[c..], size, left - c, plan[1..], j - 1, t - c, o)
    ensures Fate(mem, size, left, plan, j, t, Prepend(mem[..c], o))
  {
    SliceTwice(mem, c, t);
    var n := if j == |plan| then size else if plan[j].Count? then Min(plan[j].n, size) else 0;
    SliceTwice(mem, c, Min(t + n, |mem|));
    assert j < |plan| ==> plan[1..][j - 1] == plan[j];
  }

  lemma SliceTwice(mem: seq<byte>, c: nat, k: nat)
    requires c <= k <= |mem|
    ensures mem[..k] == mem[..c] + mem[c..][..k - c]
  {
  }

  lemma PlanCut(plan: seq<Io>, j: nat)
    requires 0 < j <= |plan|
    ensures plan[..j][0] == plan[0] && plan[..j][1..] == plan[1..][..j - 1]
    ensures NoFail(plan[..j]) ==> !plan[0].Fail? && NoFail(plan[1..][..j - 1])
  {
    var later := plan[1..][..j - 1];
    if NoFail(plan[..j]) {
      forall i | 0 <= i < |later| ensures !later[i].Fail? {
        assert later[i] == plan[..j][i + 1];
      }
    }
  }

  lemma FateOnce(mem: seq<byte>, size: nat, left: nat, plan: seq<Io>)
    requires 0 < left <= |mem| && left <= size
    ensures Fate(mem, size, left, plan, 0, 0, WriteBlock(mem, size, left, plan, false)) ||
            (plan == [] && left == size)
  {
  }

  /** As written, when the counts do not add up: after the first j answers some of the block is
      still to be sent, and then an error ends it, or a count past its end overruns it, as
      does the next call when the plan is used up after a short write. */
  lemma {:induction false} WriteBlockFate(mem: seq<byte>, size: nat, left: nat, plan: seq<Io>, j: nat)
    requires left <= |mem| && left <= size && j <= |plan|
    requires NoFail(plan[..j]) && Total(plan[..j], size) < left
    requires j == |plan| ==> Total(plan[..j], size) + size > left
    ensures Fate(mem, size, left, plan, j, Total(plan[..j], size), WriteBlock(mem, size, left, plan, false))
    decreases j
  {
    hide Fate, WriteBlock;
    if j == 0 {
      FateOnce(mem, size, left, plan);
      assert Total(plan[..0], size) == 0;
    } else {
      var c := if plan[0].Count? then Min(plan[0].n, size) else 0;
      PlanCut(plan, j);
      WriteStep(mem, size, left, plan, false);
      assert mem[0..] == mem;
      WriteBlockFate(mem[c..], size, left - c, plan[1..], j - 1);
      var o := WriteBlock(mem[c..], size, left - c, plan[1..], false);
      FateLater(mem, size, left, plan, j, Total(plan[..j], size), c, o);
      assert Prepend([], o) == o;
    }
  }

  /** The shortest way to see it: a two-byte block of which the kernel takes one byte first.
      The second write(2) sends a byte that does not belong to the block. */
  lemma OverrunExample(a: byte, b: byte, beyond: byte)
    ensures WriteBlock([a, b, beyond], 2, 2, [Count(1)], false) == Overrun([a, b, beyond])
    ensures WriteBlock([a, b, beyond], 2, 2, [Count(1)], true) == Sent([a, b])
  {
    var mem := [a, b, beyond];
    assert mem[1..] == [b, beyond] && mem[..1] == [a];
    assert WriteBlock([b, beyond], 2, 1, [], false) == Overrun([b, beyond]);
    assert WriteBlock([b, beyond], 2, 1, [], true) == Sent([b]);
    assert [a] + [b, beyond] == mem && [a] + [b] == [a, b];
  }

  lemma WriteStep(mem: seq<byte>, size: nat, left: nat, plan: seq<Io>, repaired: bool)
    requires 0 < left <= |mem| && left <= size
    ensures WriteBlock(mem, size, left, plan, repaired) ==
            var want := if repaired then left else size;
            match Next(plan, want)
            case Intr => WriteBlock(mem, size, left, plan[1..], repaired)
            case Fail => Failed([])
            case Count(n) =>
              var c := Min(n, want);
              if c > left then Overrun(mem[..Min(c, |mem|)])
              else if plan == [] then Sent(mem[..c])
              else Prepend(mem[..c], WriteBlock(mem[c..], size, left - c, plan[1..], repaired))
  {
  }

  lemma NothingToWrite(mem: seq<byte>, size: nat, plan: seq<Io>, repaired: bool)
    ensures WriteBlock(mem, size, 0, plan, repaired) == Sent([])
  {
  }

  /** The loop of nio_writeblock on the block at the start of mem. */
  method NioWriteBlock(mem: seq<byte>, size: nat, plan: seq<Io>, repaired: bool) returns (o: Outcome)
    requires size <= |mem|
    ensures o == WriteBlock(mem, size, size, plan, repaired)
  {
    hide WriteBlock;
    var off, left := 0, size;
    var p := plan;
    var sent: seq<byte> := [];
    assert Prepend([], WriteBlock(mem, size, size, plan, repaired)) == WriteBlock(mem, size, size, plan, repaired);
    while left > 0
      invariant 0 <= left <= size && off + left == size && sent == mem[..off]
      invariant Prepend(sent, WriteBlock(mem[off..], size, left, p, repaired)) ==
                WriteBlock(mem, size, size, plan, repaired)
      decreases |p|, left
    {
      WriteStep(mem[off..], size, left, p, repaired);
      var want := if repaired then left else size;
      match Next(p, want) {
        case Intr =>
          p := p[1..];
        case Fail =>
          return Failed(sent);
        case Count(n) =>
          var c := Min(n, want);
          ghost var rest := mem[off..];
          if c > left {
            return Overrun(sent + mem[off..][..Min(c, |mem| - off)]);
          }
          assert rest[c..] == mem[off + c..] && mem[..off + c] == mem[..off] + rest[..c];
          ghost var o1 := WriteBlock(rest[c..], size, left - c, Later(p), repaired);
          NothingToWrite(rest[c..], size, Later(p), repaired);
          assert rest[..c] + [] == rest[..c];
          PrependTwice(sent, rest[..c], o1);
          sent := sent + mem[off..][..c];
          off := off + c;
          left := left - c;
          p := Later(p);
      }
    }
    NothingToWrite(mem[off..], size, p, repaired);
    return Sent(sent);
  }

  lemma PrependTwice(a: seq<byte>, b: seq<byte>, o: Outcome)
    ensures Prepend(a, Prepend(b, o)) == Prepend(a + b, o)
  {
    assert a + (b + o.sent) == (a + b) + o.sent;
  }
}
