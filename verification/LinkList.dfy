/** Search, positional edits, reversal and destruction of the linked list. */
module LinkList {
  import opened CHeap
  import opened Seqs

  // ----- Search and length -----

  /** The node at index i, where the node given has index 0; NULL outside the chain. */
  method Get(ghost m: Heap, L: Node, i: int, ghost c: seq<Node>) returns (r: Node?)
    requires c != [] && c[0] == L && Chain(m, c)
    ensures r == if 0 <= i < |c| then c[i] else null
  {
    SegmentLinks(c, null);
    var p := L;
    var j := 0;
    while p.Next(m) != null && j < i
      invariant 0 <= j < |c| && c[j] == p
      invariant j == 0 || j <= i
      decreases |c| - j
    {
      p := p.Next(m);
      j := j + 1;
    }
    if j == i {
      return p;
    } else {
      return null;
    }
  }

  /** The first node holding x, from the given node on; NULL exactly when there is none. */
  method Locate(ghost m: Heap, L: Node?, x: int, ghost c: seq<Node>) returns (r: Node?)
    requires L == Head(c, null) && Chain(m, c) && HasData(c)
    ensures r == null <==> x !in Values(c)
    ensures r != null ==> r == c[FirstIndex(Values(c), x)]
  {
    SegmentLinks(c, null);
    var p := L;
    ghost var k := 0;
    while p != null && p.Data(m) != x
      invariant 0 <= k <= |c| && p == Head(c[k..], null)
      invariant forall i :: 0 <= i < k ==> Values(c)[i] != x
      decreases |c| - k
    {
      p := p.Next(m);
      k := k + 1;
    }
    return p;
  }

  /** Counts the given node too. */
  method Length2(ghost m: Heap, L: Node?, ghost c: seq<Node>) returns (j: int)
    requires L == Head(c, null) && Chain(m, c)
    ensures j == |c|
  {
    SegmentLinks(c, null);
    var p := L;
    j := 0;
    if p == null {
      return j;
    }
    j := 1;
    while p.Next(m) != null
      invariant 1 <= j <= |c| && p == c[j - 1]
      decreases |c| - j
    {
      p := p.Next(m);
      j := j + 1;
    }
  }

  /** Does not count the given node. */
  method Length1(ghost m: Heap, L: Node, ghost c: seq<Node>) returns (j: int)
    requires c != [] && c[0] == L && Chain(m, c)
    ensures j == |c| - 1
  {
    SegmentLinks(c, null);
    var p := L;
    j := 0;
    while p.Next(m) != null
      invariant 0 <= j < |c| && p == c[j]
      decreases |c| - j
    {
      p := p.Next(m);
      j := j + 1;
    }
  }

  /** One line per node, in order: its number, from 1, and its data. */
  method Scan(ghost m: Heap, L: Node, ghost s: seq<Node>) returns (out: seq<(int, int)>)
    requires HeaderList(m, L, s)
    ensures |out| == |s| && forall k :: 0 <= k < |s| ==> out[k] == (k + 1, s[k].data)
  {
    ghost var c := [L] + s;
    assert c[0] == L;
    SegmentLinks(c, null);
    var p := L.Next(m);
    var i := 1;
    out := [];
    while p != null
      invariant 1 <= i <= |c| && p == Head(c[i..], null)
      invariant |out| == i - 1 && forall k :: 0 <= k < i - 1 ==> out[k] == (k + 1, s[k].data)
      decreases |c| - i
    {
      assert p == c[i] && s[i - 1] == p;
      out := out + [(i, p.Data(m))];
      p := p.Next(m);
      i := i + 1;
    }
  }

  // ----- Positional edits -----

  /** The statements of the success branch of Insert: link a new node behind p, which is node j
      of the list when H is node 0. */
  method Link(ghost m: Heap, ghost H: Node, p: Node, x: int, ghost s: seq<Node>, ghost j: nat) returns (n: Node)
    requires m.Valid() && HeaderList(m, H, s)
    requires j <= |s| && p == NodeNo(H, s, j)
    modifies m, p`next, p`nextSet
    ensures m.Valid() && fresh(n) && HeaderList(m, H, InsertAt(s, j, n))
    ensures Values(InsertAt(s, j, n)) == InsertAt(old(Values(s)), j, x)
    ensures m.live == old(m.live) + {n} && m.freed == old(m.freed)
  {
    hide Chain, Segment, Distinct, Values, InsertAt;
    ghost var a, q, b := NodeAt(m, H, s, j);
    n := Malloc(m);
    n.SetData(m, x);
    n.SetNext(m, p.Next(m));
    p.SetNext(m, n);
    Inserted(m, H, s, a, p, b, n);
    ValuesOfInsert(s, Values(s), j, n);
  }

  /** Succeeds exactly for positions 1..n+1 and links one new node there; every other node
      keeps its identity and value, and only the predecessor's pointer changes. */
  method Insert(ghost m: Heap, L: Node, i: int, x: int, ghost s: seq<Node>)
    returns (r: int, ghost t: seq<Node>)
    requires m.Valid() && HeaderList(m, L, s)
    modifies m, L`next, L`nextSet, (set n | n in s)`next, (set n | n in s)`nextSet
    ensures m.Valid() && HeaderList(m, L, t) && m.freed == old(m.freed)
    ensures r == if 1 <= i <= |s| + 1 then 0 else -1
    ensures r == 0 ==>
              && |t| == |s| + 1 && fresh(t[i - 1])
              && t == InsertAt(s, i - 1, t[i - 1])
              && m.live == old(m.live) + {t[i - 1]}
              && Values(t) == InsertAt(old(Values(s)), i - 1, x)
    ensures r == 0 ==> forall n :: (n == L || n in s) && n != NodeNo(L, s, i - 1) ==> unchanged(n)
    ensures r != 0 ==> t == s && unchanged(m, L) && unchanged(set n | n in s)
  {
    hide Segment, Distinct, Values, InsertAt, HasData;
    t := s;
    var p := Get(m, L, i - 1, [L] + s);
    if p == null {
      return -1, s;
    } else {
      var n := Link(m, L, p, x, s, i - 1);
      t := InsertAt(s, i - 1, n);
      r := 0;
    }
  }

  /** The three statements that Delete and the purge share: unlink the node behind q, which is
      node j of the list when H is node 0, and free it. */
  method Unlink(ghost m: Heap, ghost H: Node, q: Node, ghost s: seq<Node>, ghost j: nat)
    requires m.Valid() && HeaderList(m, H, s)
    requires j < |s| && q == NodeNo(H, s, j)
    modifies m, q`next, q`nextSet
    ensures m.Valid() && HeaderList(m, H, RemoveAt(s, j))
    ensures Values(RemoveAt(s, j)) == RemoveAt(old(Values(s)), j)
    ensures m.live == old(m.live) - {s[j]} && m.freed == old(m.freed) + {s[j]}
  {
    hide Chain, Segment, Distinct, Values, RemoveAt;
    ghost var a, p, c := NodeAt(m, H, s, j);
    var r := q.Next(m);
    ghost var a', d, b := NodeAt(m, H, s, j + 1);
    assert c == [d] + b && d == r == s[j];
    q.SetNext(m, r.Next(m));
    Free(m, r);
    Removed(m, H, s, a, q, r, b);
    ValuesOfRemove(s, Values(s), j);
  }

  /** Succeeds exactly for positions 1..n and frees the node there; every other node keeps its
      identity and value, and only the predecessor's pointer changes. */
  method Delete(ghost m: Heap, L: Node, i: int, ghost s: seq<Node>)
    returns (r: int, ghost t: seq<Node>)
    requires m.Valid() && HeaderList(m, L, s)
    modifies m, L`next, L`nextSet, (set n | n in s)`next, (set n | n in s)`nextSet
    ensures m.Valid() && HeaderList(m, L, t)
    ensures r == if 1 <= i <= |s| then 0 else -1
    ensures r == 0 ==>
              && t == RemoveAt(s, i - 1)
              && m.live == old(m.live) - {s[i - 1]}
              && m.freed == old(m.freed) + {s[i - 1]}
              && Values(t) == RemoveAt(old(Values(s)), i - 1)
    ensures r == 0 ==> forall n :: (n == L || n in s) && n != NodeNo(L, s, i - 1) ==> unchanged(n)
    ensures r != 0 ==> t == s && unchanged(m, L) && unchanged(set n | n in s)
  {
    hide Chain, Segment, Distinct, Values, RemoveAt;
    t := s;
    var p := Get(m, L, i - 1, [L] + s);
    if p != null {
      ghost var a, q, b := NodeAt(m, L, s, i - 1);
    }
    if p == null || p.Next(m) == null {
      return -1, s;
    } else {
      Unlink(m, L, p, s, i - 1);
      t := RemoveAt(s, i - 1);
      r := 0;
    }
  }

  // ----- Reversal -----

  lemma RevNil<T>(s: seq<T>)
    ensures Rev(s) == Rev(s) + [] && Rev<T>([]) == []
  {
  }

  lemma RevHead<T>(todo: seq<T>, done: seq<T>)
    requires todo != []
    ensures Rev(todo) + done == Rev(todo[1..]) + ([todo[0]] + done)
  {
    RevConcat([todo[0]], todo[1..]);
    assert todo == [todo[0]] + todo[1..];
    assert Rev([todo[0]]) == [todo[0]];
  }

  lemma {:induction false} RevValues(s: seq<Node>)
    ensures Values(Rev(s)) == Rev(Values(s))
    ensures HasData(s) ==> HasData(Rev(s))
  {
    forall k: nat | k < |s|
      ensures Values(Rev(s))[k] == Rev(Values(s))[k] && Rev(s)[k] == s[|s| - 1 - k]
    {
      RevAt(s, k);
      RevAt(Values(s), k);
    }
  }

  /** Relinks the same nodes in exactly the opposite order; the heap ledger and every value
      are left alone. */
  method Reverse(ghost m: Heap, H: Node, ghost s: seq<Node>)
    requires HeaderList(m, H, s)
    modifies H`next, H`nextSet, (set n | n in s)`next, (set n | n in s)`nextSet
    ensures HeaderList(m, H, Rev(s))
    ensures Values(Rev(s)) == Rev(old(Values(s)))
  {
    hide Chain, Values, Rev;
    ChainTail(m, [H] + s);
    assert ([H] + s)[1..] == s;
    var p := H.Next(m);
    H.SetNext(m, null);
    ghost var done: seq<Node>, todo: seq<Node> := [], s;
    RevNil(s);
    ChainNil(m);
    while p != null
      invariant p == Head(todo, null) && H.nextSet && H.next == Head(done, null)
      invariant Chain(m, todo) && Chain(m, done)
      invariant forall n :: n in todo ==> n in s && n !in done
      invariant forall n :: n in done ==> n in s
      invariant Rev(s) == Rev(todo) + done
      decreases |todo|
    {
      var q := p;
      ChainTail(m, todo);
      p := p.Next(m);
      q.SetNext(m, H.Next(m));
      H.SetNext(m, q);
      ChainCons(m, q, done);
      RevHead(todo, done);
      done, todo := [q] + done, todo[1..];
    }
    assert [] + done == done;
    RevValues(s);
    ChainCons(m, H, done);
  }

  /** Frees every node of the chain, header included. */
  method Destroy(ghost m: Heap, L: Node?, ghost c: seq<Node>)
    requires m.Valid() && L == Head(c, null) && Chain(m, c)
    modifies m
    ensures m.Valid()
    ensures m.live == old(m.live) - NodeSet(c) && m.freed == old(m.freed) + NodeSet(c)
  {
    SegmentLinks(c, null);
    var l := L;
    var p: Node? := null;
    ghost var k := 0;
    while l != null
      invariant 0 <= k <= |c| && l == Head(c[k..], null)
      invariant m.Valid() && Alive(m, c[k..])
      invariant m.live == old(m.live) - NodeSet(c[..k])
      invariant m.freed == old(m.freed) + NodeSet(c[..k])
      decreases |c| - k
    {
      p := l;
      l := l.Next(m);
      Free(m, p);
      k := k + 1;
    }
    assert c[..k] == c;
  }
}
