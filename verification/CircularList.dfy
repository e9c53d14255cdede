/** The intrusive circular doubly linked list of src/lib/list.c.

    A list is its head node.  The nodes in order after the head are given by a ghost
    sequence s, and Ring(h, s) says the pointers spell out exactly that sequence. */
module CircularList {
  import opened Prelude

  /** struct list_.  Every queued structure of the daemon starts with these fields, and the
      code casts between the two; here id names the structure a node is the start of. */
  class Node {
    var forw: Node?
    var back: Node?
    var num: int
    const id: nat

    constructor (id: nat)
      ensures this.id == id && forw == null && back == null && num == 0
    {
      forw, back, num, this.id := null, null, 0, id;
    }
  }

  ghost function Cycle(h: Node, s: seq<Node>): (c: seq<Node>)
    ensures |c| == |s| + 2
  {
    [h] + s + [h]
  }

  /** b follows a. */
  ghost predicate Joined(a: Node, b: Node)
    reads a, b
  {
    a.forw == b && b.back == a
  }

  /** From h the forw pointers visit s in order and come back to h, the back pointers visit
      it in reverse, no node occurs twice, and h counts the nodes. */
  ghost predicate Ring(h: Node, s: seq<Node>)
    reads h, s
  {
    && h.num == |s|
    && h !in s
    && Distinct(s)
    && forall i {:trigger Cycle(h, s)[i]} :: 0 <= i <= |s| ==> Joined(Cycle(h, s)[i], Cycle(h, s)[i + 1])
  }

  /** On the way round only the head is met twice. */
  lemma CycleDistinct(h: Node, s: seq<Node>, i: nat, j: nat)
    requires h !in s && Distinct(s)
    requires i < j <= |s| + 1 && (i > 0 || j <= |s|)
    ensures Cycle(h, s)[i] != Cycle(h, s)[j]
  {
    assert i > 0 ==> Cycle(h, s)[i] == s[i - 1];
    assert j <= |s| ==> Cycle(h, s)[j] == s[j - 1];
  }

  method ListMake() returns (h: Node)
    ensures fresh(h) && Ring(h, [])
  {
    h := new Node(0);
    h.forw, h.back := h, h;
  }

  /** Puts e2 just before e, which is the k-th node, or the head when k is |s|. */
  method ListInsert(h: Node, e: Node, e2: Node, ghost s: seq<Node>, ghost k: nat) returns (num: int)
    requires Ring(h, s) && e2 != h && e2 !in s
    requires k <= |s| && e == Cycle(h, s)[k + 1]
    modifies h, e, e.back, e2
    ensures Ring(h, s[..k] + [e2] + s[k..])
    ensures num == |s| + 1
  {
    ghost var c := Cycle(h, s);
    assert Joined(c[k], c[k + 1]);
    e.back.forw := e2;
    e2.back := e.back;
    e.back := e2;
    e2.forw := e;
    h.num := h.num + 1;
    num := h.num;
    ghost var t := s[..k] + [e2] + s[k..];
    ghost var d := Cycle(h, t);
    forall i | 0 <= i <= |t| ensures Joined(d[i], d[i + 1]) {
      if i < k {
        assert d[i] == c[i] && d[i + 1] == c[i + 1];
        assert old(Joined(c[i], c[i + 1]));
      } else if i > k + 1 {
        assert d[i] == c[i - 1] && d[i + 1] == c[i];
        assert old(Joined(c[i - 1], c[i]));
      }
    }
  }

  method ListEnque(h: Node, e2: Node, ghost s: seq<Node>)
    requires Ring(h, s) && e2 != h && e2 !in s
    modifies h, h.back, e2
    ensures Ring(h, s + [e2])
  {
    assert Joined(Cycle(h, s)[|s|], h);
    var _ := ListInsert(h, h, e2, s, |s|);
    assert s[..|s|] + [e2] + s[|s|..] == s + [e2];
  }

  method ListPush(h: Node, e2: Node, ghost s: seq<Node>)
    requires Ring(h, s) && e2 != h && e2 !in s
    modifies h, h.forw, e2
    ensures Ring(h, [e2] + s)
  {
    assert Joined(Cycle(h, s)[0], Cycle(h, s)[1]);
    var _ := ListInsert(h, h.forw, e2, s, 0);
    assert s[..0] + [e2] + s[0..] == [e2] + s;
  }

  /** The pointers spell out s, except that the k-th node's neighbours point at each other. */
  ghost predicate Bypassed(h: Node, s: seq<Node>, k: nat)
    requires k < |s|
    reads h, s
  {
    var c := Cycle(h, s);
    && Joined(c[k], c[k + 2])
    && (forall i {:trigger c[i].forw} :: 0 <= i <= |s| && i != k ==> c[i].forw == c[i + 1])
    && (forall i {:trigger c[i].back} :: 1 <= i <= |s| + 1 && i != k + 2 ==> c[i].back == c[i - 1])
  }

  lemma BypassedRing(h: Node, s: seq<Node>, k: nat)
    requires h !in s && Distinct(s) && k < |s| && h.num == |s| - 1 && Bypassed(h, s, k)
    ensures Ring(h, Without(s, k))
  {
    var c, t := Cycle(h, s), Without(s, k);
    var d := Cycle(h, t);
    forall i | 0 <= i <= |t| ensures Joined(d[i], d[i + 1]) {
      if i < k {
        assert d[i] == c[i] && d[i + 1] == c[i + 1];
      } else if i > k {
        assert d[i] == c[i + 1] && d[i + 1] == c[i + 2];
      }
    }
  }

  /** Makes the neighbours of e, the k-th node, point at each other. */
  method Bypass(h: Node, e: Node, ghost s: seq<Node>, ghost k: nat)
    requires Ring(h, s) && k < |s| && e == s[k]
    modifies h, e.back, e.forw
    ensures h.num == |s| - 1 && Bypassed(h, s, k) && e.forw == old(e.forw)
  {
    ghost var c := Cycle(h, s);
    assert Joined(c[k], c[k + 1]) && Joined(c[k + 1], c[k + 2]);
    e.back.forw := e.forw;
    e.forw.back := e.back;
    h.num := h.num - 1;
    forall i | 0 <= i <= |s| && i != k ensures c[i].forw == c[i + 1] {
      assert old(Joined(c[i], c[i + 1]));
      CycleDistinct(h, s, Min(i, k), Max(i, k));
    }
    forall i | 1 <= i <= |s| + 1 && i != k + 2 ensures c[i].back == c[i - 1] {
      assert old(Joined(c[i - 1], c[i]));
      CycleDistinct(h, s, Min(i, k + 2), Max(i, k + 2));
    }
  }

  /** Unlinks e, the k-th node.  An empty list is left alone and yields null.  The pointers of
      the node that was taken out are stale. */
  method ListRm(h: Node, e: Node, ghost s: seq<Node>, ghost k: nat) returns (r: Node?)
    requires Ring(h, s)
    requires s != [] ==> k < |s| && e == s[k]
    modifies h, e.back, e.forw
    ensures s == [] ==> r == null && Ring(h, [])
    ensures s != [] ==> r == e && Ring(h, Without(s, k)) && e.forw == old(e.forw)
  {
    if h.num == 0 {
      return null;
    }
    Bypass(h, e, s, k);
    BypassedRing(h, s, k);
    return e;
  }

  /** Takes the first node out, or yields null when there is none. */
  method ListDeque(h: Node, ghost s: seq<Node>) returns (e: Node?)
    requires Ring(h, s)
    modifies {h} + (if |s| > 1 then {s[1]} else {})
    ensures s == [] ==> e == null && Ring(h, [])
    ensures s != [] ==> e == s[0] && Ring(h, s[1..])
  {
    assert Joined(Cycle(h, s)[0], Cycle(h, s)[1]);
    if h.forw == h {
      assert h.back == h by { assert Joined(Cycle(h, s)[|s|], h); }
      return null;
    }
    assert |s| > 1 ==> Joined(Cycle(h, s)[1], Cycle(h, s)[2]);
    assert |s| == 1 ==> Joined(Cycle(h, s)[1], h);
    e := ListRm(h, h.forw, s, 0);
    assert Without(s, 0) == s[1..];
  }

  method ListPop(h: Node, ghost s: seq<Node>) returns (e: Node?)
    requires Ring(h, s)
    modifies {h} + (if |s| > 1 then {s[1]} else {})
    ensures s == [] ==> e == null && Ring(h, [])
    ensures s != [] ==> e == s[0] && Ring(h, s[1..])
  {
    e := ListDeque(h, s);
  }

  /** Empties the list; released is what the release function was called on, in order: every
      node, once. */
  method ListFree(h: Node, ghost s: seq<Node>) returns (released: seq<Node>)
    requires Ring(h, s)
    modifies h, s
    ensures released == s && Distinct(released)
    ensures Ring(h, [])
  {
    released := [];
    var l := ListPop(h, s);
    while l != null
      invariant released <= s
      invariant if l == null then released == s else |released| < |s| && l == s[|released|]
      invariant Ring(h, if l == null then [] else s[|released| + 1..])
      decreases |s| - |released|
    {
      released := released + [l];
      ghost var rest := s[|released|..];
      assert |rest| > 1 ==> rest[1] == s[|released| + 1];
      l := ListPop(h, rest);
      assert rest != [] ==> rest[1..] == s[|released| + 1..];
    }
  }

  // ---------------------------------------------------------------- two lists

  /** Two lists that have no node in common. */
  ghost predicate Apart(h: Node, s: seq<Node>, g: Node, t: seq<Node>) {
    h != g && h !in t && g !in s && forall n :: n in s ==> n !in t
  }

  lemma NeighboursIn(h: Node, s: seq<Node>, k: nat)
    requires Ring(h, s) && 1 <= k <= |s| + 1
    ensures Cycle(h, s)[k].back == Cycle(h, s)[k - 1]
    ensures Cycle(h, s)[k - 1].forw == Cycle(h, s)[k]
    ensures k <= |s| ==> Cycle(h, s)[k].forw == Cycle(h, s)[k + 1]
  {
    assert Joined(Cycle(h, s)[k - 1], Cycle(h, s)[k]);
    assert k <= |s| ==> Joined(Cycle(h, s)[k], Cycle(h, s)[k + 1]);
  }

  lemma ApartNode(h: Node, s: seq<Node>, g: Node, t: seq<Node>, k: nat)
    requires Apart(h, s, g, t) && k <= |s| + 1
    ensures Cycle(h, s)[k] != g && Cycle(h, s)[k] !in t
  {
    if 1 <= k <= |s| {
      assert Cycle(h, s)[k] == s[k - 1];
    }
  }

  /** Inserting into one list leaves any other alone. */
  method InsertBeside(h: Node, e: Node, e2: Node, ghost s: seq<Node>, ghost k: nat, g: Node, ghost t: seq<Node>)
    requires Ring(h, s) && Ring(g, t) && Apart(h, s, g, t)
    requires e2 != h && e2 !in s && e2 != g && e2 !in t
    requires k <= |s| && e == Cycle(h, s)[k + 1]
    modifies h, s, e2
    ensures Ring(h, s[..k] + [e2] + s[k..]) && Ring(g, t)
    ensures Apart(h, s[..k] + [e2] + s[k..], g, t)
  {
    NeighboursIn(h, s, k + 1);
    ApartNode(h, s, g, t, k);
    ApartNode(h, s, g, t, k + 1);
    assert Cycle(h, s)[k] == h || Cycle(h, s)[k] in s;
    assert Cycle(h, s)[k + 1] == h || Cycle(h, s)[k + 1] in s;
    var _ := ListInsert(h, e, e2, s, k);
  }

  /** So does taking a node out. */
  method RmBeside(h: Node, e: Node, ghost s: seq<Node>, ghost k: nat, g: Node, ghost t: seq<Node>)
    requires Ring(h, s) && Ring(g, t) && Apart(h, s, g, t) && k < |s| && e == s[k]
    modifies h, s
    ensures Ring(h, Without(s, k)) && Ring(g, t) && Apart(h, Without(s, k), g, t)
  {
    NeighboursIn(h, s, k + 1);
    ApartNode(h, s, g, t, k);
    ApartNode(h, s, g, t, k + 2);
    assert Cycle(h, s)[k + 1] == e;
    assert Cycle(h, s)[k] == h || Cycle(h, s)[k] in s;
    assert Cycle(h, s)[k + 2] == h || Cycle(h, s)[k + 2] in s;
    var _ := ListRm(h, e, s, k);
  }

  /** Which list a pointer structure spells out is never in doubt. */
  lemma {:induction false} RingUnique(h: Node, s: seq<Node>, t: seq<Node>, n: nat)
    requires Ring(h, s) && Ring(h, t) && n <= |s|
    ensures |s| == |t| && s[..n] == t[..n]
  {
    if n > 0 {
      RingUnique(h, s, t, n - 1);
      assert Joined(Cycle(h, s)[n - 1], Cycle(h, s)[n]);
      assert Joined(Cycle(h, t)[n - 1], Cycle(h, t)[n]);
      assert Cycle(h, s)[n - 1] == Cycle(h, t)[n - 1];
    }
  }
}
