/** The singly linked list of src/lib/link.c, on the heap.

    A list is its head cell.  The cells after the head are given by a ghost sequence s; each
    operation is proved against an operation on the sequence of values the cells hold. */
module LinkedList {
  import opened Prelude

  /** What a void pointer holds. */
  type Address = nat

  const NULL: Address := 0

  class Link {
    var num: int
    var ptr: Address
    var next: Link?

    constructor ()
      ensures num == 0 && ptr == NULL && next == null
    {
      num, ptr, next := 0, NULL, null;
    }
  }

  ghost function Cells(h: Link, s: seq<Link>): (c: seq<Link>)
    ensures |c| == |s| + 1
  {
    [h] + s
  }

  /** From h the next pointers visit s in order and end there; no cell occurs twice. */
  ghost predicate Linked(h: Link, s: seq<Link>)
    reads h, s
  {
    && h !in s
    && Distinct(s)
    && forall i {:trigger Cells(h, s)[i]} :: 0 <= i <= |s| ==> Cells(h, s)[i].next == if i < |s| then s[i] else null
  }

  ghost predicate Chain(h: Link, s: seq<Link>)
    reads h, s
  {
    Linked(h, s) && h.num == |s|
  }

  lemma NextIs(h: Link, s: seq<Link>, k: nat)
    requires Linked(h, s) && k <= |s|
    ensures Cells(h, s)[k].next == if k < |s| then s[k] else null
    ensures h !in s && Distinct(s)
  {
    assert Cells(h, s)[k] == Cells(h, s)[k];
  }

  /** All links at once, as a fact about the heap at this point. */
  lemma AllNext(h: Link, s: seq<Link>)
    requires Linked(h, s)
    ensures h !in s && Distinct(s)
    ensures forall i {:trigger Cells(h, s)[i]} :: 0 <= i <= |s| ==>
              Cells(h, s)[i].next == if i < |s| then s[i] else null
  {
  }

  ghost function Values(s: seq<Link>): (xs: seq<Address>)
    reads s
    ensures |xs| == |s| && forall i :: 0 <= i < |s| ==> xs[i] == s[i].ptr
  {
    if s == [] then [] else [s[0].ptr] + Values(s[1..])
  }

  lemma ValuesAre(s: seq<Link>, xs: seq<Address>)
    requires |xs| == |s| && forall i :: 0 <= i < |s| ==> s[i].ptr == xs[i]
    ensures Values(s) == xs
  {
    hide Values;
  }

  lemma ValuesAdded(s: seq<Link>, el: Link)
    ensures Values(s + [el]) == Values(s) + [el.ptr]
  {
    hide Values;
    ValuesAre(s + [el], Values(s) + [el.ptr]);
  }

  method LinkMake() returns (h: Link)
    ensures fresh(h) && Chain(h, [])
  {
    h := new Link();
  }

  /** A new cell between the head and the rest. */
  lemma Prepended(h: Link, el: Link, s: seq<Link>)
    requires h !in s && Distinct(s) && el !in s && el != h
    requires h.next == el && el.next == if s == [] then null else s[0]
    requires forall i {:trigger Cells(h, s)[i]} :: 1 <= i <= |s| ==>
               Cells(h, s)[i].next == if i < |s| then s[i] else null
    ensures Linked(h, [el] + s)
  {
    var t := [el] + s;
    forall i | 0 <= i <= |t| ensures Cells(h, t)[i].next == if i < |t| then t[i] else null {
      if i > 1 {
        assert Cells(h, t)[i] == Cells(h, s)[i - 1];
      }
    }
  }

  method LinkPush(h: Link?, val: Address, ghost s: seq<Link>) returns (rc: int, ghost t: seq<Link>)
    requires h != null ==> Chain(h, s)
    modifies h
    ensures h == null ==> rc == -1
    ensures h != null ==> rc == 0 && Chain(h, t) && Values(t) == [val] + old(Values(s))
    ensures h != null ==> |t| > 0 && fresh(t[0]) && t[1..] == s
  {
    hide Values;
    t := s;
    if h == null {
      return -1, s;
    }
    var el := new Link();
    el.ptr := val;
    assert Cells(h, s)[0].next == if 0 < |s| then s[0] else null;
    el.next := h.next;
    h.next := el;
    h.num := h.num + 1;
    t := [el] + s;
    forall i | 1 <= i <= |s| ensures Cells(h, s)[i].next == if i < |s| then s[i] else null {
      assert old(Cells(h, s)[i].next == if i < |s| then s[i] else null);
    }
    Prepended(h, el, s);
    ghost var xs := [val] + old(Values(s));
    forall i | 0 <= i < |t| ensures Values(t)[i] == xs[i] {
      assert Values(t)[i] == t[i].ptr;
    }
    return 0, t;
  }

  method LinkPop(h: Link?, ghost s: seq<Link>) returns (v: Address)
    requires h != null ==> Linked(h, s)
    modifies h
    ensures h == null || s == [] ==> v == NULL
    ensures h != null && s == [] ==> Linked(h, s) && h.num == old(h.num)
    ensures h != null && s != [] ==> v == old(Values(s))[0] && Linked(h, s[1..]) && h.num == old(h.num) - 1
    ensures h != null && s != [] ==> Values(s[1..]) == old(Values(s))[1..]
  {
    if h == null {
      return NULL;
    }
    hide Values;
    assert Cells(h, s)[0].next == if 0 < |s| then s[0] else null;
    if h.next != null {
      var p := h.next;
      h.next := p.next;
      v := p.ptr;
      h.num := h.num - 1;
      forall i | 0 <= i <= |s[1..]| ensures Cells(h, s[1..])[i].next == if i < |s[1..]| then s[1..][i] else null {
        assert old(Cells(h, s)[i + 1].next == if i + 1 < |s| then s[i + 1] else null);
      }
      return v;
    }
    return NULL;
  }

  /** A new cell after the last. */
  lemma Appended(h: Link, s: seq<Link>, el: Link)
    requires h !in s && Distinct(s) && el !in s && el != h
    requires Cells(h, s)[|s|].next == el && el.next == null
    requires forall i {:trigger Cells(h, s)[i]} :: 0 <= i < |s| ==> Cells(h, s)[i].next == s[i]
    ensures Linked(h, s + [el])
  {
    var t := s + [el];
    forall i | 0 <= i <= |t| ensures Cells(h, t)[i].next == if i < |t| then t[i] else null {
      if i <= |s| {
        assert Cells(h, t)[i] == Cells(h, s)[i];
      }
    }
  }

  /** Walks to the end of the list. */
  method LastCell(h: Link, ghost s: seq<Link>) returns (p: Link)
    requires Linked(h, s)
    ensures p == Cells(h, s)[|s|]
  {
    hide Linked;
    p := h;
    ghost var k := 0;
    NextIs(h, s, 0);
    while p.next != null
      invariant k <= |s| && p == Cells(h, s)[k] && p.next == if k < |s| then s[k] else null
      decreases |s| - k
    {
      p := p.next;
      k := k + 1;
      NextIs(h, s, k);
    }
  }

  /** Makes p2 the cell after p, the last one. */
  method Attach(h: Link, p: Link, p2: Link, ghost s: seq<Link>)
    requires Chain(h, s) && p == Cells(h, s)[|s|] && p2 !in s && p2 != h
    modifies h, p, p2
    ensures Chain(h, s + [p2]) && p2.ptr == old(p2.ptr)
    ensures forall i :: 0 <= i < |s| ==> s[i].ptr == old(s[i].ptr)
  {
    AllNext(h, s);
    p2.next := p.next;
    p.next := p2;
    h.num := h.num + 1;
    forall i | 0 <= i < |s| ensures Cells(h, s)[i].next == s[i] {
      assert Cells(h, s)[i] != p;
    }
    Appended(h, s, p2);
  }

  method LinkEnque(h: Link?, val: Address, ghost s: seq<Link>) returns (rc: int, ghost t: seq<Link>)
    requires h != null ==> Chain(h, s)
    modifies if h == null then {} else {h, Cells(h, s)[|s|]}
    ensures h == null ==> rc == -1
    ensures h != null ==> rc == 0 && Chain(h, t) && Values(t) == old(Values(s)) + [val]
    ensures h != null ==> |t| == |s| + 1 && fresh(t[|s|]) && t[..|s|] == s
  {
    t := s;
    if h == null {
      return -1, s;
    }
    hide Values, Linked;
    var p := LastCell(h, s);
    var p2 := new Link();
    p2.ptr := val;
    NextIs(h, s, 0);
    assert p2 !in s && p2 != h;
    Attach(h, p, p2, s);
    t := s + [p2];
    ValuesAre(s, old(Values(s)));
    ValuesAdded(s, p2);
    return 0, t;
  }

  /** Walks with two pointers to the last cell and the one before it. */
  method LastTwo(h: Link, ghost s: seq<Link>) returns (p2: Link, p: Link)
    requires Linked(h, s) && s != []
    ensures p2 == Cells(h, s)[|s| - 1] && p == s[|s| - 1] && p.next == null
  {
    hide Linked;
    NextIs(h, s, 0);
    p2, p := h, h.next;
    ghost var k := 0;
    NextIs(h, s, 1);
    while p.next != null
      invariant k < |s| && p2 == Cells(h, s)[k] && p == s[k]
      invariant p.next == if k + 1 < |s| then s[k + 1] else null
      decreases |s| - k
    {
      p2 := p;
      p := p.next;
      k := k + 1;
      NextIs(h, s, k + 1);
    }
  }

  /** Without the last cell. */
  lemma Shortened(h: Link, s: seq<Link>)
    requires s != [] && h !in s && Distinct(s)
    requires Cells(h, s)[|s| - 1].next == null
    requires forall i {:trigger Cells(h, s)[i]} :: 0 <= i < |s| - 1 ==> Cells(h, s)[i].next == s[i]
    ensures Linked(h, s[..|s| - 1])
  {
    var t := s[..|s| - 1];
    forall i | 0 <= i <= |t| ensures Cells(h, t)[i].next == if i < |t| then t[i] else null {
      assert Cells(h, t)[i] == Cells(h, s)[i];
    }
  }

  /** Makes p2, the cell before the last, the last. */
  method CutLast(h: Link, p2: Link, p: Link, ghost s: seq<Link>)
    requires Chain(h, s) && s != [] && p2 == Cells(h, s)[|s| - 1] && p == s[|s| - 1] && p.next == null
    modifies h, p2
    ensures Chain(h, s[..|s| - 1])
    ensures forall i :: 0 <= i < |s| ==> s[i].ptr == old(s[i].ptr)
  {
    AllNext(h, s);
    p2.next := p.next;
    h.num := h.num - 1;
    forall i | 0 <= i < |s| - 1 ensures Cells(h, s)[i].next == s[i] {
      assert Cells(h, s)[i] != p2;
    }
    Shortened(h, s);
  }

  /** Takes out the last cell. */
  method LinkDeque(h: Link?, ghost s: seq<Link>) returns (v: Address)
    requires h != null ==> Chain(h, s)
    modifies if h == null || s == [] then {} else {h, Cells(h, s)[|s| - 1]}
    ensures h == null || s == [] ==> v == NULL
    ensures h != null && s != [] ==> v == old(Values(s)[|s| - 1]) && Chain(h, s[..|s| - 1])
    ensures h != null && s != [] ==> Values(s[..|s| - 1]) == old(Values(s))[..|s| - 1]
  {
    if h == null {
      return NULL;
    }
    hide Values, Linked;
    NextIs(h, s, 0);
    if h.next == null {
      return NULL;
    }
    ghost var xs := Values(s);
    var p2, p := LastTwo(h, s);
    v := p.ptr;
    CutLast(h, p2, p, s);
    ValuesAre(s[..|s| - 1], xs[..|s| - 1]);
  }

  /** Where x first stands, or the length. */
  function IndexOf(xs: seq<Address>, x: Address): (k: nat)
    ensures k <= |xs| && x !in xs[..k] && (k < |xs| ==> xs[k] == x)
  {
    if xs == [] || xs[0] == x then 0
    else
      var k := 1 + IndexOf(xs[1..], x);
      assert xs[..k] == [xs[0]] + xs[1..][..k - 1];
      k
  }

  lemma {:induction false} IndexOfUnique(xs: seq<Address>, x: Address, k: nat)
    requires k <= |xs| && x !in xs[..k] && (k < |xs| ==> xs[k] == x)
    ensures IndexOf(xs, x) == k
  {
    if k > 0 {
      assert xs[..k][0] == xs[0] && xs[..k][1..] == xs[1..][..k - 1];
      IndexOfUnique(xs[1..], x, k - 1);
    }
  }

  method LinkFind(h: Link, val: Address, ghost s: seq<Link>) returns (v: Address)
    requires Chain(h, s)
    ensures v == if val in Values(s) then val else NULL
  {
    assert Cells(h, s)[0].next == if 0 < |s| then s[0] else null;
    var p := h.next;
    ghost var k := 0;
    while p != null
      invariant k <= |s| && p == (if k < |s| then s[k] else null)
      invariant val !in Values(s)[..k]
      decreases |s| - k
    {
      if p.ptr == val {
        return p.ptr;
      }
      assert Cells(h, s)[k + 1].next == if k + 1 < |s| then s[k + 1] else null;
      p := p.next;
      k := k + 1;
    }
    return NULL;
  }

  /** The cell before the k-th points past it. */
  lemma Bypassed(h: Link, s: seq<Link>, k: nat)
    requires h !in s && Distinct(s) && k < |s|
    requires forall i {:trigger Cells(h, s)[i]} :: 0 <= i <= |s| && i != k ==>
               Cells(h, s)[i].next == if i < |s| then s[i] else null
    requires Cells(h, s)[k].next == if k + 1 < |s| then s[k + 1] else null
    ensures Linked(h, Without(s, k))
  {
    var u := Without(s, k);
    forall i | 0 <= i <= |u| ensures Cells(h, u)[i].next == if i < |u| then u[i] else null {
      assert Cells(h, u)[i] == Cells(h, s)[if i <= k then i else i + 1];
    }
  }

  /** Takes out the k-th cell, which p is; t is the one before. */
  method Unlink(h: Link, t: Link, p: Link, ghost s: seq<Link>, ghost k: nat)
    requires Chain(h, s) && k < |s| && t == Cells(h, s)[k] && p == s[k]
    modifies h, t
    ensures Chain(h, Without(s, k))
    ensures Values(Without(s, k)) == Without(old(Values(s)), k)
  {
    hide Values;
    assert Cells(h, s)[k + 1].next == if k + 1 < |s| then s[k + 1] else null;
    t.next := p.next;
    h.num := h.num - 1;
    forall i | 0 <= i <= |s| && i != k ensures Cells(h, s)[i].next == if i < |s| then s[i] else null {
      assert old(Cells(h, s)[i].next == if i < |s| then s[i] else null);
      assert Cells(h, s)[i] != t;
    }
    Bypassed(h, s, k);
    ghost var u, xs := Without(s, k), old(Values(s));
    forall i | 0 <= i < |u| ensures Values(u)[i] == Without(xs, k)[i] {
      assert Values(u)[i] == u[i].ptr;
    }
  }

  /** Takes out the first cell that holds val. */
  method LinkRm(h: Link, val: Address, ghost s: seq<Link>) returns (v: Address)
    requires Chain(h, s)
    modifies if val in Values(s) then {h, Cells(h, s)[IndexOf(Values(s), val)]} else {}
    ensures val !in old(Values(s)) ==> v == NULL
    ensures val in old(Values(s)) ==>
              var k := IndexOf(old(Values(s)), val);
              && k < |s| && v == val && Chain(h, Without(s, k))
              && Values(Without(s, k)) == Without(old(Values(s)), k)
  {
    hide Values, IndexOf;
    assert Cells(h, s)[0].next == if 0 < |s| then s[0] else null;
    var t, p := h, h.next;
    ghost var k := 0;
    while p != null
      invariant k <= |s| && t == Cells(h, s)[k] && p == (if k < |s| then s[k] else null)
      invariant val !in Values(s)[..k]
      decreases |s| - k
    {
      assert Cells(h, s)[k + 1].next == if k + 1 < |s| then s[k + 1] else null;
      if p.ptr == val {
        IndexOfUnique(Values(s), val, k);
        v := p.ptr;
        Unlink(h, t, p, s, k);
        return v;
      }
      t := p;
      p := p.next;
      k := k + 1;
    }
    assert Values(s)[..k] == Values(s);
    return NULL;
  }

  /** The number of cells link_free releases before it meets a NULL value or the end. */
  function Released(xs: seq<Address>): nat {
    var k := IndexOf(xs, NULL);
    if k < |xs| then k + 1 else k
  }

  /** The head's count is no link. */
  method Renumber(h: Link, ghost s: seq<Link>)
    requires Linked(h, s)
    modifies h
    ensures Linked(h, s) && h.num == old(h.num) - 1 && Values(s) == old(Values(s))
  {
    hide Values;
    h.num := h.num - 1;
    forall i | 0 <= i <= |s| ensures Cells(h, s)[i].next == if i < |s| then s[i] else null {
      assert old(Cells(h, s)[i].next == if i < |s| then s[i] else null);
    }
    assert forall i :: 0 <= i < |s| ==> Values(s)[i] == s[i].ptr == old(Values(s))[i];
  }

  /** Pops until a pop yields NULL, counting each popped value a second time. */
  method LinkFree(h: Link?, ghost s: seq<Link>) returns (count: nat)
    requires h != null ==> Chain(h, s)
    modifies h
    ensures h == null ==> count == 0
    ensures h != null ==> count == IndexOf(old(Values(s)), NULL)
    ensures h != null ==> Linked(h, s[Released(old(Values(s)))..])
    ensures h != null ==> h.num == |s| - Released(old(Values(s))) - count
  {
    count := 0;
    if h == null {
      return;
    }
    hide Values, Linked, IndexOf;
    ghost var xs := Values(s);
    ghost var k, rest := if s == [] then 0 else 1, if s == [] then s else s[1..];
    var v := LinkPop(h, s);
    while v != NULL
      invariant count <= k <= |s| && k <= count + 1 && (k <= count ==> k == |s| && v == NULL)
      invariant k == count + 1 ==> v == xs[count]
      invariant forall i :: 0 <= i < count ==> xs[i] != NULL
      invariant rest == s[k..] && Linked(h, rest) && Values(rest) == xs[k..]
      invariant h.num == |s| - k - count
      decreases |s| - count
    {
      Renumber(h, rest);
      count := count + 1;
      v := LinkPop(h, rest);
      k, rest := if rest == [] then k else k + 1, if rest == [] then rest else rest[1..];
    }
    IndexOfUnique(xs, NULL, count);
  }

  /** link_free releases every cell exactly when no NULL value stands before the last one. */
  lemma FreesAll(xs: seq<Address>)
    ensures Released(xs) == |xs| <==> forall i :: 0 <= i < |xs| - 1 ==> xs[i] != NULL
  {
    var k := IndexOf(xs, NULL);
    forall i | 0 <= i < k ensures xs[i] != NULL {
      assert xs[i] in xs[..k];
    }
  }

  /** Of two cells, the first holding NULL, the second is not released. */
  lemma CellLeft()
    ensures Released([NULL, 5]) == 1
  {
  }

  // ---------------------------------------------------------------- any mix of operations

  datatype Op = Push(value: Address) | Enque(value: Address) | Pop | Deque | Find(value: Address) | Rm(value: Address)

  /** The values after an operation, and what it returns. */
  function Apply(op: Op, xs: seq<Address>): (seq<Address>, Address) {
    match op
    case Push(v) => ([v] + xs, 0)
    case Enque(v) => (xs + [v], 0)
    case Pop => if xs == [] then (xs, NULL) else (xs[1..], xs[0])
    case Deque => if xs == [] then (xs, NULL) else (xs[..|xs| - 1], xs[|xs| - 1])
    case Find(v) => (xs, if v in xs then v else NULL)
    case Rm(v) => if v in xs then (Without(xs, IndexOf(xs, v)), v) else (xs, NULL)
  }

  function After(ops: seq<Op>, xs: seq<Address>): seq<Address> {
    if ops == [] then xs else After(ops[1..], Apply(ops[0], xs).0)
  }

  function Results(ops: seq<Op>, xs: seq<Address>): seq<Address> {
    if ops == [] then [] else [Apply(ops[0], xs).1] + Results(ops[1..], Apply(ops[0], xs).0)
  }

  lemma OpFirst(op: Op, ops: seq<Op>, xs: seq<Address>)
    ensures After([op] + ops, xs) == After(ops, Apply(op, xs).0)
    ensures Results([op] + ops, xs) == [Apply(op, xs).1] + Results(ops, Apply(op, xs).0)
  {
    assert ([op] + ops)[1..] == ops;
  }

  method Perform(h: Link, op: Op, ghost s: seq<Link>) returns (r: Address, ghost t: seq<Link>)
    requires Chain(h, s)
    modifies h, s
    ensures Chain(h, t) && (Values(t), r) == Apply(op, old(Values(s)))
    ensures forall k {:trigger t[k]} :: 0 <= k < |t| ==> t[k] in s || fresh(t[k])
  {
    hide Values, Linked, IndexOf;
    t := s;
    match op {
      case Push(v) =>
        var rc: int;
        rc, t := LinkPush(h, v, s);
        r := rc;
      case Enque(v) =>
        var rc: int;
        rc, t := LinkEnque(h, v, s);
        r := rc;
      case Pop =>
        r := LinkPop(h, s);
        t := if s == [] then s else s[1..];
      case Deque =>
        r := LinkDeque(h, s);
        t := if s == [] then s else s[..|s| - 1];
      case Find(v) =>
        r := LinkFind(h, v, s);
      case Rm(v) =>
        r := LinkRm(h, v, s);
        t := if v in old(Values(s)) then Without(s, IndexOf(old(Values(s)), v)) else s;
    }
  }

  /** The list on the heap, under any operations in any order, behaves as the sequence. */
  method PerformAll(h: Link, ops: seq<Op>, ghost s: seq<Link>) returns (results: seq<Address>, ghost t: seq<Link>)
    requires Chain(h, s)
    modifies h, s
    ensures Chain(h, t) && Values(t) == After(ops, old(Values(s))) && h.num == |After(ops, old(Values(s)))|
    ensures results == Results(ops, old(Values(s)))
  {
    results, t := [], s;
    assert ops[0..] == ops;
    for i := 0 to |ops|
      invariant Chain(h, t) && forall k {:trigger t[k]} :: 0 <= k < |t| ==> t[k] in s || fresh(t[k])
      invariant After(ops[i..], Values(t)) == After(ops, old(Values(s)))
      invariant results + Results(ops[i..], Values(t)) == Results(ops, old(Values(s)))
    {
      ghost var xs := Values(t);
      var r: Address;
      r, t := Perform(h, ops[i], t);
      assert ops[i..][1..] == ops[i + 1..];
      assert results + ([r] + Results(ops[i + 1..], Values(t))) == (results + [r]) + Results(ops[i + 1..], Values(t));
      results := results + [r];
    }
    assert ops[|ops|..] == [];
  }

  /** What is removed is one occurrence, the first; the others stay, in order. */
  lemma RmFirstOnly(xs: seq<Address>, v: Address)
    requires v in xs
    ensures var ys := Apply(Rm(v), xs).0;
            && multiset(ys) == multiset(xs) - multiset{v}
            && exists k :: 0 <= k < |xs| && xs[k] == v && v !in xs[..k] && ys == xs[..k] + xs[k + 1..]
  {
    var k := IndexOf(xs, v);
    hide IndexOf;
    assert xs[..|xs|] == xs;
    assert xs == (xs[..k] + [v]) + xs[k + 1..];
    assert multiset(xs) == multiset(xs[..k]) + multiset{v} + multiset(xs[k + 1..]);
  }

  // ---------------------------------------------------------------- first in, first out

  function Pushes(xs: seq<Address>): seq<Op> {
    if xs == [] then [] else [Push(xs[0])] + Pushes(xs[1..])
  }

  function Deques(n: nat): seq<Op> {
    if n == 0 then [] else [Deque] + Deques(n - 1)
  }

  function Enques(xs: seq<Address>): seq<Op> {
    if xs == [] then [] else [Enque(xs[0])] + Enques(xs[1..])
  }

  function Pops(n: nat): seq<Op> {
    if n == 0 then [] else [Pop] + Pops(n - 1)
  }

  function Reversed(xs: seq<Address>): (ys: seq<Address>)
    ensures |ys| == |xs|
  {
    if xs == [] then [] else Reversed(xs[1..]) + [xs[0]]
  }

  lemma {:induction false} AfterPushes(xs: seq<Address>, ys: seq<Address>)
    ensures After(Pushes(xs), ys) == Reversed(xs) + ys
  {
    hide After;
    if xs == [] {
      NoOps(ys);
    } else {
      OpFirst(Push(xs[0]), Pushes(xs[1..]), ys);
      AfterPushes(xs[1..], [xs[0]] + ys);
      assert Reversed(xs[1..]) + ([xs[0]] + ys) == (Reversed(xs[1..]) + [xs[0]]) + ys;
    }
  }

  lemma NoOps(xs: seq<Address>)
    ensures After([], xs) == xs && Results([], xs) == []
  {
  }

  lemma {:induction false} DequesBack(xs: seq<Address>, ys: seq<Address>)
    ensures Results(Deques(|xs|), ys + Reversed(xs)) == xs && After(Deques(|xs|), ys + Reversed(xs)) == ys
  {
    hide After, Results;
    if xs == [] {
      NoOps(ys + []);
      assert ys + [] == ys;
    } else {
      var zs, rest := ys + Reversed(xs), ys + Reversed(xs[1..]);
      OpFirst(Deque, Deques(|xs| - 1), zs);
      assert zs == rest + [xs[0]];
      assert zs[..|zs| - 1] == rest && zs[|zs| - 1] == xs[0];
      DequesBack(xs[1..], ys);
    }
  }

  /** Pushed and then dequeued, values come out in the order they went in. */
  lemma PushDequeFifo(xs: seq<Address>)
    ensures Results(Deques(|xs|), After(Pushes(xs), [])) == xs
    ensures After(Deques(|xs|), After(Pushes(xs), [])) == []
  {
    AfterPushes(xs, []);
    assert Reversed(xs) + [] == [] + Reversed(xs);
    DequesBack(xs, []);
  }

  lemma {:induction false} AfterEnques(xs: seq<Address>, ys: seq<Address>)
    ensures After(Enques(xs), ys) == ys + xs
  {
    hide After;
    if xs == [] {
      NoOps(ys);
      assert ys + [] == ys;
    } else {
      OpFirst(Enque(xs[0]), Enques(xs[1..]), ys);
      AfterEnques(xs[1..], ys + [xs[0]]);
      assert (ys + [xs[0]]) + xs[1..] == ys + xs;
    }
  }

  lemma {:induction false} PopsBack(xs: seq<Address>, ys: seq<Address>)
    ensures Results(Pops(|xs|), xs + ys) == xs && After(Pops(|xs|), xs + ys) == ys
  {
    hide After, Results;
    if xs == [] {
      NoOps(xs + ys);
      assert xs + ys == ys;
    } else {
      OpFirst(Pop, Pops(|xs| - 1), xs + ys);
      assert (xs + ys)[1..] == xs[1..] + ys && (xs + ys)[0] == xs[0];
      PopsBack(xs[1..], ys);
    }
  }

  /** Enqueued and then popped: the same order; pushed and then popped: the reverse. */
  lemma EnquePopFifo(xs: seq<Address>)
    ensures Results(Pops(|xs|), After(Enques(xs), [])) == xs
    ensures Results(Pops(|xs|), After(Pushes(xs), [])) == Reversed(xs)
  {
    AfterEnques(xs, []);
    assert [] + xs == xs + [];
    PopsBack(xs, []);
    AfterPushes(xs, []);
    PopsBack(Reversed(xs), []);
  }

  // ---------------------------------------------------------------- the server that is asked

  /** The choice of a server in get_server_resources, whose loop leaves after its first turn:
      None is a server pointer that was never set. */
  method PickServer(servers: Link, ghost s: seq<Link>) returns (server: Option<Address>)
    requires Chain(servers, s)
    ensures server.Some? <==> servers.num != 0
    ensures server.Some? ==> server.value == Values(s)[0]
  {
    assert Cells(servers, s)[0].next == if 0 < |s| then s[0] else null;
    server := None;
    var l := servers.next;
    if l != null {
      server := Some(l.ptr);
    }
  }
}
