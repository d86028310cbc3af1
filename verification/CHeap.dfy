/** The C heap as the list code uses it: nodes obtained from malloc, released by free, and
    readable or writable only in between.  Heap is a ghost ledger; erasing it and its
    arguments leaves the pointer program. */
module CHeap {
  import opened Seqs

  class Node {
    var data: int
    var next: Node?
    // Which fields have been stored since malloc; reading any other field is undefined in C.
    ghost var dataSet: bool
    ghost var nextSet: bool

    /** Leaves both fields with arbitrary contents. */
    constructor ()
      ensures !dataSet && !nextSet
    {
      dataSet, nextSet := false, false;
    }

    function Data(ghost m: Heap): int
      requires this in m.live && dataSet
      reads this, m
    {
      data
    }

    function Next(ghost m: Heap): Node?
      requires this in m.live && nextSet
      reads this, m
    {
      next
    }

    method SetData(ghost m: Heap, x: int)
      requires this in m.live
      modifies this`data, this`dataSet
      ensures data == x && dataSet
    {
      data, dataSet := x, true;
    }

    method SetNext(ghost m: Heap, n: Node?)
      requires this in m.live
      modifies this`next, this`nextSet
      ensures next == n && nextSet
    {
      next, nextSet := n, true;
    }
  }

  class Heap {
    ghost var live: set<Node>   // obtained from malloc and not yet freed
    ghost var freed: set<Node>

    ghost predicate Valid()
      reads this
    {
      live !! freed
    }
  }

  method Malloc(ghost m: Heap) returns (n: Node)
    requires m.Valid()
    modifies m
    ensures m.Valid() && fresh(n) && !n.dataSet && !n.nextSet
    ensures n !in old(m.live) && n !in old(m.freed)
    ensures m.live == old(m.live) + {n} && m.freed == old(m.freed)
  {
    n := new Node();
    m.live := m.live + {n};
  }

  /** Freeing a node twice, or one that malloc never returned, is excluded by the caller. */
  method Free(ghost m: Heap, n: Node)
    requires m.Valid() && n in m.live
    modifies m
    ensures m.Valid()
    ensures m.live == old(m.live) - {n} && m.freed == old(m.freed) + {n}
  {
    m.live := m.live - {n};
    m.freed := m.freed + {n};
  }

  // ----- Chains of nodes -----

  /** The first node of s, or q when there is none. */
  ghost function Head(s: seq<Node>, q: Node?): Node? {
    if s == [] then q else s[0]
  }

  /** Following next through the nodes of s, in order, leads to q. */
  ghost predicate Segment(s: seq<Node>, q: Node?)
    reads s`next, s`nextSet
  {
    s == [] || (s[0].nextSet && s[0].next == Head(s[1..], q) && Segment(s[1..], q))
  }

  lemma {:induction false} SegmentSplit(a: seq<Node>, b: seq<Node>, q: Node?)
    ensures Segment(a + b, q) <==> Segment(a, Head(b, q)) && Segment(b, q)
  {
    if a == [] {
      assert a + b == b;
    } else {
      SegmentSplit(a[1..], b, q);
      assert (a + b)[1..] == a[1..] + b;
    }
  }

  /** What a traversal sees at node i. */
  lemma SegmentAt(s: seq<Node>, q: Node?, i: nat)
    requires i < |s| && Segment(s, q)
    ensures s[i].nextSet && s[i].next == if i + 1 < |s| then s[i + 1] else q
    ensures Segment(s[..i], s[i]) && Segment(s[i + 1..], q)
  {
    assert s == s[..i] + ([s[i]] + s[i + 1..]);
    SegmentSplit(s[..i], [s[i]] + s[i + 1..], q);
    SegmentSplit([s[i]], s[i + 1..], q);
  }

  lemma SegmentLinks(s: seq<Node>, q: Node?)
    requires Segment(s, q)
    ensures forall i {:trigger s[i]} :: 0 <= i < |s| ==> s[i].nextSet
    ensures forall i {:trigger s[i].next} :: 0 <= i < |s| ==> s[i].next == if i + 1 < |s| then s[i + 1] else q
  {
    forall i | 0 <= i < |s|
      ensures s[i].nextSet && s[i].next == if i + 1 < |s| then s[i + 1] else q
    {
      SegmentAt(s, q, i);
    }
  }

  ghost predicate Alive(m: Heap, s: seq<Node>)
    reads m
  {
    forall n :: n in s ==> n in m.live
  }

  /** A finite acyclic chain of live nodes ended by NULL. */
  ghost predicate Chain(m: Heap, s: seq<Node>)
    reads m, s`next, s`nextSet
  {
    Segment(s, null) && Distinct(s) && Alive(m, s)
  }

  ghost function NodeSet(s: seq<Node>): set<Node> {
    set n | n in s
  }

  ghost predicate HasData(s: seq<Node>)
    reads s`dataSet
  {
    forall n :: n in s ==> n.dataSet
  }

  ghost function Values(s: seq<Node>): (v: seq<int>)
    reads s`data
    ensures |v| == |s|
    ensures forall i {:trigger v[i]} {:trigger s[i].data} :: 0 <= i < |s| ==> v[i] == s[i].data
  {
    if s == [] then [] else Values(s[..|s| - 1]) + [s[|s| - 1].data]
  }

  lemma {:induction false} ValuesOfInsert(s: seq<Node>, v: seq<int>, j: nat, n: Node)
    requires j <= |s| == |v| && Values(s) == v && HasData(s) && n.dataSet
    ensures Values(InsertAt(s, j, n)) == InsertAt(v, j, n.data) && HasData(InsertAt(s, j, n))
  {
  }

  lemma {:induction false} ValuesOfRemove(s: seq<Node>, v: seq<int>, j: nat)
    requires j < |s| == |v| && Values(s) == v && HasData(s)
    ensures Values(RemoveAt(s, j)) == RemoveAt(v, j) && HasData(RemoveAt(s, j))
  {
  }

  /** A list with a header H, which holds no value, followed by the nodes s. */
  ghost predicate HeaderList(m: Heap, H: Node, s: seq<Node>)
    reads m, H, s
  {
    Chain(m, [H] + s) && HasData(s)
  }

  lemma ChainNil(m: Heap)
    ensures Chain(m, [])
  {
  }

  /** The first node of a chain, and the chain behind it. */
  lemma ChainTail(m: Heap, s: seq<Node>)
    requires s != [] && Chain(m, s)
    ensures s[0] in m.live && s[0].nextSet && s[0].next == Head(s[1..], null)
    ensures s[0] !in s[1..] && Chain(m, s[1..])
  {
  }

  lemma ChainCons(m: Heap, n: Node, s: seq<Node>)
    requires Chain(m, s)
    requires n !in s && n in m.live && n.nextSet && n.next == Head(s, null)
    ensures Chain(m, [n] + s)
  {
    assert ([n] + s)[1..] == s;
  }

  // ----- Splices -----

  /** Node j of a list with a header, which is node 0. */
  ghost function NodeNo(H: Node, s: seq<Node>, j: nat): Node
    requires j <= |s|
  {
    if j == 0 then H else s[j - 1]
  }

  /** What a traversal finds at node j of a header list: the node, and the chain on either side
      of it.  The node is in neither part, so storing to it leaves both as they are. */
  lemma NodeAt(m: Heap, H: Node, s: seq<Node>, j: nat)
      returns (a: seq<Node>, p: Node, b: seq<Node>)
    requires j <= |s| && HeaderList(m, H, s)
    ensures [H] + s == a + [p] + b && |a| == j && p == NodeNo(H, s, j) && b == s[j..]
    ensures p in m.live && p.nextSet && p.next == Head(b, null) && p !in a && p !in b
    ensures Segment(a, p) && Segment(b, null)
    ensures Distinct([H] + s) && Alive(m, [H] + s)
  {
    var c := [H] + s;
    a, p, b := c[..j], c[j], s[j..];
    assert c == a + [p] + b;
    SegmentSplit(a, [p] + b, null);
    assert c == a + ([p] + b);
    assert ([p] + b)[1..] == b;
    DistinctSplit(a, p, b);
  }

  lemma JoinAt(a: seq<Node>, p: Node, b: seq<Node>)
    requires Segment(a, p) && p.nextSet && p.next == Head(b, null) && Segment(b, null)
    ensures Segment(a + [p] + b, null)
  {
    assert ([p] + b)[1..] == b;
    SegmentSplit(a, [p] + b, null);
    assert a + [p] + b == a + ([p] + b);
  }

  lemma InsertedSpine(H: Node, s: seq<Node>, a: seq<Node>, p: Node, b: seq<Node>, n: Node)
    requires [H] + s == a + [p] + b
    ensures [H] + InsertAt(s, |a|, n) == a + [p] + ([n] + b)
    ensures [H] + InsertAt(s, |a|, n) == (a + [p]) + [n] + b
  {
    var c := [H] + s;
    assert s == c[1..];
    assert [H] + InsertAt(s, |a|, n) == c[..|a| + 1] + [n] + c[|a| + 1..];
    assert c[..|a| + 1] == a + [p] && c[|a| + 1..] == b;
  }

  lemma RemovedSpine(H: Node, s: seq<Node>, a: seq<Node>, p: Node, d: Node, b: seq<Node>)
    requires [H] + s == a + [p] + ([d] + b)
    ensures |a| < |s| && s[|a|] == d
    ensures [H] + RemoveAt(s, |a|) == a + [p] + b
    ensures [H] + s == (a + [p]) + [d] + b
  {
    var c := [H] + s;
    assert s == c[1..];
    assert c[|a| + 1] == d;
    assert [H] + RemoveAt(s, |a|) == c[..|a| + 1] + c[|a| + 2..];
    assert c[..|a| + 1] == a + [p] && c[|a| + 2..] == b;
  }

  /** Once n is linked behind p, the list is s with n inserted after p. */
  lemma Inserted(m: Heap, H: Node, s: seq<Node>, a: seq<Node>, p: Node, b: seq<Node>, n: Node)
    requires [H] + s == a + [p] + b && Distinct([H] + s) && Alive(m, [H] + s)
    requires Segment(a, p) && p.nextSet && p.next == n
    requires n.nextSet && n.next == Head(b, null) && Segment(b, null)
    requires n !in [H] + s && n in m.live
    ensures Chain(m, [H] + InsertAt(s, |a|, n))
  {
    InsertedSpine(H, s, a, p, b, n);
    JoinAt([], n, b);
    assert [] + [n] + b == [n] + b;
    JoinAt(a, p, [n] + b);
    DistinctJoin(a + [p], n, b);
  }

  /** Once p is linked past d, the list is s without d. */
  lemma Removed(m: Heap, H: Node, s: seq<Node>, a: seq<Node>, p: Node, d: Node, b: seq<Node>)
    requires [H] + s == a + [p] + ([d] + b) && Distinct([H] + s)
    requires forall x :: x in [H] + s && x != d ==> x in m.live
    requires Segment(a, p) && p.nextSet && p.next == Head(b, null) && Segment(b, null)
    ensures |a| < |s| && d == s[|a|] && Chain(m, [H] + RemoveAt(s, |a|))
  {
    RemovedSpine(H, s, a, p, d, b);
    JoinAt(a, p, b);
    DistinctSplit(a + [p], d, b);
    assert a + [p] + b == (a + [p]) + b;
  }
}
