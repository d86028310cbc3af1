/** The three ways the program builds a list from its input: numbers up to the sentinel 99. */
module Builders {
  import opened CHeap
  import opened LinkList
  import opened Seqs

  const SENTINEL := 99

  /** The numbers before the first sentinel. */
  function BeforeSentinel(input: seq<int>): (v: seq<int>)
    requires SENTINEL in input
    ensures |v| < |input| && v == input[..|v|] && 99 !in v && input[|v|] == 99
  {
    input[..FirstIndex(input, SENTINEL)]
  }

  lemma ReadOn(input: seq<int>, k: nat)
    requires SENTINEL in input && k <= |BeforeSentinel(input)|
    ensures k < |input|
    ensures input[k] == SENTINEL <==> k == |BeforeSentinel(input)|
    ensures input[k] != SENTINEL ==> BeforeSentinel(input)[..k + 1] == BeforeSentinel(input)[..k] + [input[k]]
    ensures BeforeSentinel(input)[..0] == []
    ensures BeforeSentinel(input)[..|BeforeSentinel(input)|] == BeforeSentinel(input)
  {
  }

  /** A chain under construction: its nodes before R are linked up to R, whose own next field
      has not been stored yet (or still holds what the last append must overwrite). */
  ghost predicate Growing(m: Heap, pre: seq<Node>, R: Node)
    reads m, pre`next, pre`nextSet
  {
    Segment(pre, R) && Distinct(pre + [R]) && R !in pre && Alive(m, pre + [R])
  }

  lemma StartGrowing(m: Heap, R: Node)
    requires R in m.live
    ensures Growing(m, [], R) && NodeSet([]) == {} && Values([]) == []
  {
  }

  /** What storing to R, or to anything new, leaves as it is. */
  lemma Parts(m: Heap, pre: seq<Node>, R: Node)
    requires Growing(m, pre, R)
    ensures Segment(pre, R) && Distinct(pre + [R]) && R !in pre && Alive(m, pre + [R]) && R in m.live
  {
    assert R in pre + [R];
  }

  lemma Nothing(m: Heap)
    ensures Chain(m, []) && NodeSet([]) == {} && Values([]) == []
  {
  }

  lemma Grow(m: Heap, pre: seq<Node>, R: Node, n: Node)
    requires Segment(pre, R) && Distinct(pre + [R]) && Alive(m, pre + [R])
    requires R.nextSet && R.next == n && n !in pre + [R] && n in m.live
    ensures Growing(m, pre + [R], n)
  {
    SegmentSplit(pre, [R], n);
  }

  lemma Close(m: Heap, pre: seq<Node>, R: Node)
    requires Segment(pre, R) && Distinct(pre + [R]) && Alive(m, pre + [R])
    requires R.nextSet && R.next == null
    ensures Chain(m, pre + [R])
  {
    SegmentSplit(pre, [R], null);
  }

  lemma ValuesSnoc(s: seq<Node>, n: Node)
    requires HasData(s) && n.dataSet
    ensures Values(s + [n]) == Values(s) + [n.data] && HasData(s + [n])
  {
    assert (s + [n])[..|s|] == s;
  }

  lemma ValuesCons(n: Node, s: seq<Node>)
    requires HasData(s) && n.dataSet
    ensures Values([n] + s) == [n.data] + Values(s) && HasData([n] + s)
  {
    assert forall i :: 0 <= i < |s| + 1 ==> Values([n] + s)[i] == ([n.data] + Values(s))[i];
  }

  lemma InNodeSet(s: seq<Node>)
    ensures forall n :: n in s <==> n in NodeSet(s)
  {
  }

  lemma NodeSetSnoc(s: seq<Node>, n: Node)
    ensures NodeSet(s + [n]) == NodeSet(s) + {n} && NodeSet([n] + s) == NodeSet(s) + {n}
  {
  }

  /** The two stores of the loop body of the builder with a header: a new node behind R, whose
      own next field stays unset, and its number. */
  method Append(ghost m: Heap, R: Node, x: int, ghost pre: seq<Node>) returns (n: Node)
    requires m.Valid() && Growing(m, pre, R)
    modifies m, R`next, R`nextSet
    ensures m.Valid() && fresh(n) && n !in pre + [R] && Growing(m, pre + [R], n)
    ensures n.data == x && n.dataSet && !n.nextSet
    ensures m.live == old(m.live) + {n} && m.freed == old(m.freed)
  {
    hide Segment, Distinct;
    assert R in pre + [R];
    n := Malloc(m);
    R.SetNext(m, n);
    R.Next(m).SetData(m, x);
    Grow(m, pre, R, n);
  }

  /** Header and list are the chain under construction. */
  ghost predicate Spine(L: Node, s: seq<Node>, pre: seq<Node>, R: Node) {
    [L] + s == pre + [R]
  }

  lemma SpineStarts(L: Node)
    ensures Spine(L, [], [], L)
  {
  }

  lemma SpineGrows(L: Node, s: seq<Node>, pre: seq<Node>, R: Node, n: Node)
    requires Spine(L, s, pre, R)
    ensures Spine(L, s + [n], pre + [R], n)
    ensures n !in pre + [R] ==> n !in s
  {
    assert [L] + (s + [n]) == [L] + s + [n];
    assert forall x :: x in s ==> x in [L] + s;
  }

  lemma SpineEnds(m: Heap, L: Node, s: seq<Node>, pre: seq<Node>, R: Node)
    requires Segment(pre, R) && Distinct(pre + [R]) && Alive(m, pre + [R])
    requires Spine(L, s, pre, R) && R.nextSet && R.next == null && HasData(s)
    ensures HeaderList(m, L, s)
  {
    Close(m, pre, R);
  }

  /** A header, then one node per number, appended in input order. */
  method CreateWithHeader(ghost m: Heap, input: seq<int>) returns (L: Node, used: nat, ghost s: seq<Node>)
    requires m.Valid() && SENTINEL in input
    modifies m
    ensures m.Valid() && HeaderList(m, L, s) && fresh({L} + NodeSet(s))
    ensures Values(s) == BeforeSentinel(input) && used == |s| + 1
    ensures |s| < |input| && Values(s) == input[..|s|] && 99 !in input[..|s|] && input[|s|] == 99
    ensures m.live == old(m.live) + {L} + NodeSet(s) && m.freed == old(m.freed)
  {
    hide BeforeSentinel, Segment, Distinct, Values, NodeSet, FirstIndex, Spine, Growing, HeaderList;
    L := Malloc(m);
    L.SetNext(m, null);
    var R := L;
    ghost var pre: seq<Node> := [];
    s := [];
    StartGrowing(m, L);
    assert Spine(L, s, pre, R) by {
      SpineStarts(L);
    }
    ReadOn(input, 0);
    var x := input[0];
    used := 1;
    while x != SENTINEL
      invariant m.Valid() && Spine(L, s, pre, R) && Growing(m, pre, R)
      invariant fresh({L} + NodeSet(s)) && fresh(R) && HasData(s)
      invariant m.live == old(m.live) + {L} + NodeSet(s) && m.freed == old(m.freed)
      invariant used == |s| + 1 <= |BeforeSentinel(input)| + 1 && used <= |input| && x == input[|s|]
      invariant Values(s) == BeforeSentinel(input)[..|s|]
      decreases |input| - used
    {
      ghost var k := |s|;
      ReadOn(input, k);
      var n := Append(m, R, x, pre);
      SpineGrows(L, s, pre, R, n);
      ValuesSnoc(s, n);
      NodeSetSnoc(s, n);
      pre, s := pre + [R], s + [n];
      R := n;
      assert |s| == k + 1 && Values(s) == BeforeSentinel(input)[..k + 1];
      ReadOn(input, k + 1);
      x := input[used];
      used := used + 1;
    }
    Parts(m, pre, R);
    R.SetNext(m, null);
    SpineEnds(m, L, s, pre, R);
    ReadOn(input, |s|);
  }

  /** A chain without a header under construction: L is its first node and R its last one, both
      NULL while there is none. */
  ghost predicate Headless(m: Heap, L: Node?, R: Node?, s: seq<Node>)
    reads m, s`next, s`nextSet
  {
    && L == Head(s, null)
    && (R == null <==> s == [])
    && (R != null ==> R == s[|s| - 1] && Growing(m, s[..|s| - 1], R))
  }

  lemma HeadlessNone(m: Heap)
    ensures Headless(m, null, null, [])
  {
  }

  lemma HeadlessSnoc(m: Heap, L: Node, s: seq<Node>, n: Node)
    requires Growing(m, s, n) && L == Head(s, n)
    ensures Headless(m, L, n, s + [n])
  {
    assert (s + [n])[..|s|] == s;
  }

  lemma HeadlessParts(m: Heap, L: Node?, R: Node?, s: seq<Node>)
    requires Headless(m, L, R, s)
    ensures R == null <==> s == []
    ensures L == Head(s, null)
    ensures R != null ==>
              && |s| > 0 && R in s && s == s[..|s| - 1] + [R] && Segment(s[..|s| - 1], R)
              && R !in s[..|s| - 1] && Distinct(s) && Alive(m, s)
  {
  }

  /** The loop body of the builder without a header. */
  method AppendHeadless(ghost m: Heap, L: Node?, R: Node?, x: int, ghost s: seq<Node>) returns (L': Node, n: Node)
    requires m.Valid() && Headless(m, L, R, s)
    modifies m, (set n | n in s)`next, (set n | n in s)`nextSet
    ensures m.Valid() && fresh(n) && Headless(m, L', n, s + [n])
    ensures n.data == x && n.dataSet && !n.nextSet
    ensures m.live == old(m.live) + {n} && m.freed == old(m.freed)
  {
    hide Segment, Distinct, Growing, Headless;
    HeadlessParts(m, L, R, s);
    n := Malloc(m);
    n.SetData(m, x);
    if L == null {
      L' := n;
      StartGrowing(m, n);
    } else {
      L' := L;
      R.SetNext(m, n);
      Grow(m, s[..|s| - 1], R, n);
    }
    HeadlessSnoc(m, L', s, n);
  }

  /** The final store of the builder without a header. */
  method CloseHeadless(ghost m: Heap, L: Node?, R: Node?, ghost s: seq<Node>)
    requires m.Valid() && Headless(m, L, R, s)
    modifies (set n | n in s)`next, (set n | n in s)`nextSet
    ensures L == Head(s, null) && Chain(m, s)
  {
    hide Segment, Distinct, Growing, Headless;
    HeadlessParts(m, L, R, s);
    if R != null {
      R.SetNext(m, null);
      Close(m, s[..|s| - 1], R);
    } else {
      Nothing(m);
    }
  }

  /** One node per number, appended in input order, and no header: NULL for no numbers. */
  method CreateByAppending(ghost m: Heap, input: seq<int>) returns (L: Node?, used: nat, ghost s: seq<Node>)
    requires m.Valid() && SENTINEL in input
    modifies m
    ensures m.Valid() && L == Head(s, null) && Chain(m, s) && HasData(s) && fresh(NodeSet(s))
    ensures Values(s) == BeforeSentinel(input) && used == |s| + 1
    ensures |s| < |input| && Values(s) == input[..|s|] && 99 !in input[..|s|] && input[|s|] == 99
    ensures m.live == old(m.live) + NodeSet(s) && m.freed == old(m.freed)
  {
    hide BeforeSentinel, Segment, Distinct, Values, NodeSet, FirstIndex, Headless, Chain;
    L := null;
    var R: Node? := null;
    s := [];
    Nothing(m);
    HeadlessNone(m);
    ReadOn(input, 0);
    var x := input[0];
    used := 1;
    while x != SENTINEL
      invariant m.Valid() && Headless(m, L, R, s)
      invariant fresh(NodeSet(s)) && HasData(s)
      invariant m.live == old(m.live) + NodeSet(s) && m.freed == old(m.freed)
      invariant used == |s| + 1 <= |BeforeSentinel(input)| + 1 && used <= |input| && x == input[|s|]
      invariant Values(s) == BeforeSentinel(input)[..|s|]
      decreases |input| - used
    {
      ghost var k := |s|;
      ReadOn(input, k);
      InNodeSet(s);
      L, R := AppendHeadless(m, L, R, x, s);
      ValuesSnoc(s, R);
      NodeSetSnoc(s, R);
      s := s + [R];
      ReadOn(input, k + 1);
      x := input[used];
      used := used + 1;
    }
    InNodeSet(s);
    CloseHeadless(m, L, R, s);
    ReadOn(input, |s|);
  }

  /** The loop body of the pushing builder. */
  method Push(ghost m: Heap, L: Node?, x: int, ghost s: seq<Node>) returns (n: Node)
    requires m.Valid() && L == Head(s, null) && Chain(m, s)
    modifies m
    ensures m.Valid() && fresh(n) && Chain(m, [n] + s)
    ensures n.data == x && n.dataSet
    ensures m.live == old(m.live) + {n} && m.freed == old(m.freed)
  {
    hide Segment, Distinct;
    n := Malloc(m);
    n.SetData(m, x);
    n.SetNext(m, L);
    ChainCons(m, n, s);
  }

  /** One node per number, each pushed in front, and no header. */
  method CreateByPushing(ghost m: Heap, input: seq<int>) returns (L: Node?, used: nat, ghost s: seq<Node>)
    requires m.Valid() && SENTINEL in input
    modifies m
    ensures m.Valid() && L == Head(s, null) && Chain(m, s) && HasData(s) && fresh(NodeSet(s))
    ensures Values(s) == Rev(BeforeSentinel(input)) && used == |s| + 1
    ensures |s| < |input| && 99 !in input[..|s|] && input[|s|] == 99
    ensures forall k :: 0 <= k < |s| ==> s[k].data == input[|s| - 1 - k]
    ensures m.live == old(m.live) + NodeSet(s) && m.freed == old(m.freed)
  {
    hide BeforeSentinel, Segment, Distinct, Values, NodeSet, FirstIndex, Chain;
    L := null;
    s := [];
    Nothing(m);
    ReadOn(input, 0);
    var x := input[0];
    used := 1;
    while x != SENTINEL
      invariant m.Valid() && L == Head(s, null) && Chain(m, s)
      invariant fresh(NodeSet(s)) && HasData(s)
      invariant m.live == old(m.live) + NodeSet(s) && m.freed == old(m.freed)
      invariant used == |s| + 1 <= |BeforeSentinel(input)| + 1 && used <= |input| && x == input[|s|]
      invariant Values(s) == Rev(BeforeSentinel(input)[..|s|])
      decreases |input| - used
    {
      ghost var k := |s|;
      ReadOn(input, k);
      L := Push(m, L, x, s);
      ValuesCons(L, s);
      NodeSetSnoc(s, L);
      s := [L] + s;
      assert BeforeSentinel(input)[..k + 1][..k] == BeforeSentinel(input)[..k];
      ReadOn(input, k + 1);
      x := input[used];
      used := used + 1;
    }
    ReadOn(input, |s|);
    forall k: nat | k < |s|
      ensures s[k].data == input[|s| - 1 - k]
    {
      RevAt(BeforeSentinel(input), k);
      assert Values(s)[k] == s[k].data;
    }
  }
}
