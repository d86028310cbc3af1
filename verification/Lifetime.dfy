/** Whole lives of a list: any sequence of edits between building and destroying it, the main
    program as one instance, and laws that span several operations. */
module Lifetime {
  import Builders
  import opened CHeap
  import opened LinkList
  import opened Purging
  import opened Seqs

  // ----- The abstract list -----

  datatype Op = OpInsert(i: int, x: int) | OpDelete(i: int) | OpReverse | OpPurge

  /** What one operation does to the values, and the code it returns (0 for the void ones). */
  function Apply(v: seq<int>, op: Op): (seq<int>, int) {
    match op
    case OpInsert(i, x) => if 1 <= i <= |v| + 1 then (InsertAt(v, i - 1, x), 0) else (v, -1)
    case OpDelete(i) => if 1 <= i <= |v| then (RemoveAt(v, i - 1), 0) else (v, -1)
    case OpReverse => (Rev(v), 0)
    case OpPurge => (Dedup(v), 0)
  }

  function ApplyAll(v: seq<int>, ops: seq<Op>): (seq<int>, seq<int>) {
    if ops == [] then (v, [])
    else
      var (w, codes) := ApplyAll(v, ops[..|ops| - 1]);
      var (w', code) := Apply(w, ops[|ops| - 1]);
      (w', codes + [code])
  }

  /** What one operation does to the nodes s holding the values v, made being the node an
      insertion creates. */
  function Place<T>(s: seq<T>, v: seq<int>, op: Op, made: T): (t: seq<T>)
    requires |s| == |v|
    ensures |t| == |Apply(v, op).0|
  {
    match op
    case OpInsert(i, x) => if 1 <= i <= |s| + 1 then InsertAt(s, i - 1, made) else s
    case OpDelete(i) => if 1 <= i <= |s| then RemoveAt(s, i - 1) else s
    case OpReverse => Rev(s)
    case OpPurge => FirstsLength(s, v); Firsts(s, v)
  }

  lemma FirstsLength<T>(s: seq<T>, v: seq<int>)
    requires |s| == |v|
    ensures |Firsts(s, v)| == |Dedup(v)|
  {
    FirstsIsSelection(s, v);
    FirstsIsSelection(v, v);
  }

  function PlaceAll<T>(s: seq<T>, v: seq<int>, ops: seq<Op>, made: seq<T>): (t: seq<T>)
    requires |s| == |v| && |made| == |ops|
    ensures |t| == |ApplyAll(v, ops).0|
  {
    if ops == [] then s
    else
      var k := |ops| - 1;
      Place(PlaceAll(s, v, ops[..k], made[..k]), ApplyAll(v, ops[..k]).0, ops[k], made[k])
  }

  /** The nodes the operations made: those of the insertions that succeeded. */
  ghost function Created(op: Op, code: int, made: Node): set<Node> {
    if op.OpInsert? && code == 0 then {made} else {}
  }

  ghost function AllCreated(ops: seq<Op>, codes: seq<int>, made: seq<Node>): set<Node>
    requires |ops| == |codes| == |made|
  {
    if ops == [] then {}
    else
      var k := |ops| - 1;
      AllCreated(ops[..k], codes[..k], made[..k]) + Created(ops[k], codes[k], made[k])
  }

  // ----- What a trace means -----

  /** A trace of one operation: where an insertion and a deletion happen and with what code, that a
      reversal turns positions round, and that a purge keeps the positions of first occurrences. */
  lemma {:induction false} OneOperation<T>(s: seq<T>, v: seq<int>, op: Op, made: T) returns (kept: seq<nat>)
    requires |s| == |v|
    ensures var (w, codes) := ApplyAll(v, [op]);
            var t := PlaceAll(s, v, [op], [made]);
            match op
            case OpInsert(i, x) =>
              if 1 <= i <= |s| + 1
              then codes == [0] && w == v[..i - 1] + [x] + v[i - 1..] && t == s[..i - 1] + [made] + s[i - 1..]
              else codes == [-1] && w == v && t == s
            case OpDelete(i) =>
              if 1 <= i <= |s|
              then codes == [0] && w == v[..i - 1] + v[i..] && t == s[..i - 1] + s[i..]
              else codes == [-1] && w == v && t == s
            case OpReverse =>
              && codes == [0] && |w| == |t| == |s|
              && forall k :: 0 <= k < |s| ==> w[k] == v[|s| - 1 - k] && t[k] == s[|s| - 1 - k]
            case OpPurge =>
              && codes == [0] && |w| == |t| == |kept|
              && (forall i, j :: 0 <= i < j < |kept| ==> kept[i] < kept[j])
              && (forall p: nat :: p in kept <==> p < |v| && v[p] !in v[..p])
              && forall j :: 0 <= j < |kept| ==> kept[j] < |v| && w[j] == v[kept[j]] && t[j] == s[kept[j]]
  {
    kept := Kept(v);
    assert ApplyAll(v, []) == (v, []) && [op][..0] == [] && [made][..0] == [];
    assert ApplyAll(v, [op]) == (Apply(v, op).0, [] + [Apply(v, op).1]);
    assert PlaceAll(s, v, [op], [made]) == Place(s, v, op, made);
    match op
    case OpInsert(_, _) =>
    case OpDelete(_) =>
    case OpReverse =>
      forall k: nat | k < |s|
        ensures Rev(v)[k] == v[|s| - 1 - k] && Rev(s)[k] == s[|s| - 1 - k]
      {
        RevAt(v, k);
        RevAt(s, k);
      }
    case OpPurge =>
      FirstsIsSelection(s, v);
      FirstsIsSelection(v, v);
  }

  /** A trace does what its first part and then its second part do. */
  lemma {:induction false} TraceSplits<T>(s: seq<T>, v: seq<int>, a: seq<Op>, b: seq<Op>, made: seq<T>, more: seq<T>)
    requires |s| == |v| && |made| == |a| && |more| == |b|
    ensures ApplyAll(v, a + b).0 == ApplyAll(ApplyAll(v, a).0, b).0
    ensures ApplyAll(v, a + b).1 == ApplyAll(v, a).1 + ApplyAll(ApplyAll(v, a).0, b).1
    ensures PlaceAll(s, v, a + b, made + more) == PlaceAll(PlaceAll(s, v, a, made), ApplyAll(v, a).0, b, more)
    decreases |b|
  {
    hide Apply, Place;
    if b == [] {
      assert a + b == a && made + more == made;
    } else {
      var k := |b| - 1;
      TraceSplits(s, v, a, b[..k], made, more[..k]);
      assert (a + b)[..|a| + k] == a + b[..k] && (made + more)[..|a| + k] == made + more[..k];
    }
  }

  /** How many insertions, or deletions, were answered with 0. */
  function Successes(ops: seq<Op>, codes: seq<int>, inserting: bool): nat
    requires |ops| == |codes|
  {
    if ops == [] then 0
    else
      var k := |ops| - 1;
      Successes(ops[..k], codes[..k], inserting) + if Answered(ops[k], codes[k], inserting) then 1 else 0
  }

  predicate Answered(op: Op, code: int, inserting: bool) {
    code == 0 && if inserting then op.OpInsert? else op.OpDelete?
  }

  lemma ApplyTells(v: seq<int>, op: Op)
    ensures var (w, code) := Apply(v, op);
            && (code == 0 || (code == -1 && !op.OpReverse? && !op.OpPurge?))
            && (var n := |v| + (if Answered(op, code, true) then 1 else 0)
                         - (if Answered(op, code, false) then 1 else 0);
                |w| <= n && (op != OpPurge ==> |w| == n))
  {
  }

  lemma SuccessesNext(ops: seq<Op>, codes: seq<int>, op: Op, code: int, inserting: bool)
    requires |ops| == |codes|
    ensures Successes(ops + [op], codes + [code], inserting)
         == Successes(ops, codes, inserting) + if Answered(op, code, inserting) then 1 else 0
  {
    assert (ops + [op])[..|ops|] == ops && (codes + [code])[..|ops|] == codes;
  }

  /** The codes account for the length: every insertion answered 0 added one value and every
      deletion answered 0 took one away, all other answers to them are -1, and only a purge can
      take away more. */
  lemma {:induction false} CodesTell(v: seq<int>, ops: seq<Op>)
    ensures var (w, codes) := ApplyAll(v, ops);
            && |codes| == |ops|
            && (forall k :: 0 <= k < |ops| ==>
                  codes[k] == 0 || (codes[k] == -1 && (ops[k].OpInsert? || ops[k].OpDelete?)))
            && |w| + Successes(ops, codes, false) <= |v| + Successes(ops, codes, true)
            && (OpPurge !in ops ==> |w| + Successes(ops, codes, false) == |v| + Successes(ops, codes, true))
  {
    if ops == [] {
    } else {
      var k := |ops| - 1;
      var (w, codes) := ApplyAll(v, ops[..k]);
      CodesTell(v, ops[..k]);
      assert ops == ops[..k] + [ops[k]];
      assert ApplyAll(v, ops) == (Apply(w, ops[k]).0, codes + [Apply(w, ops[k]).1]);
      hide Apply, ApplyAll, Answered, Successes;
      ApplyTells(w, ops[k]);
      SuccessesNext(ops[..k], codes, ops[k], Apply(w, ops[k]).1, true);
      SuccessesNext(ops[..k], codes, ops[k], Apply(w, ops[k]).1, false);
    }
  }

  lemma ApplyTwo(v: seq<int>, o1: Op, o2: Op)
    ensures ApplyAll(v, [o1, o2]) ==
            var a := Apply(v, o1); var b := Apply(a.0, o2); (b.0, [a.1, b.1])
  {
    assert [o1, o2][..1] == [o1] && [o1][..0] == [];
    assert ApplyAll(v, []) == (v, []);
    assert [] + [Apply(v, o1).1] + [Apply(Apply(v, o1).0, o2).1] == [Apply(v, o1).1, Apply(Apply(v, o1).0, o2).1];
    assert ApplyAll(v, [o1]) == (Apply(v, o1).0, [] + [Apply(v, o1).1]);
  }

  lemma PlaceTwo<T>(s: seq<T>, v: seq<int>, o1: Op, o2: Op, made: seq<T>)
    requires |s| == |v| && |made| == 2
    ensures PlaceAll(s, v, [o1, o2], made) == Place(Place(s, v, o1, made[0]), Apply(v, o1).0, o2, made[1])
  {
    hide Place, Apply;
    assert [o1, o2][..1] == [o1] && [o1][..0] == [];
    assert made[..1] == [made[0]] && [made[0]][..0] == [];
    assert ApplyAll(v, []) == (v, []);
    assert PlaceAll(s, v, [o1], [made[0]]) == Place(s, v, o1, made[0]);
  }

  /** Inserting at i and deleting at i restores every list, nodes and values, for every integer i. */
  lemma {:induction false} InsertDeleteRestores<T>(s: seq<T>, v: seq<int>, i: int, x: int, made: seq<T>)
    requires |s| == |v| && |made| == 2
    ensures ApplyAll(v, [OpInsert(i, x), OpDelete(i)]).0 == v
    ensures PlaceAll(s, v, [OpInsert(i, x), OpDelete(i)], made) == s
  {
    ApplyTwo(v, OpInsert(i, x), OpDelete(i));
    PlaceTwo(s, v, OpInsert(i, x), OpDelete(i), made);
  }

  lemma ReplaceAt<T>(s: seq<T>, j: nat, x: T)
    requires j < |s|
    ensures InsertAt(RemoveAt(s, j), j, x) == s[j := x]
  {
  }

  /** Deleting at i and inserting x at i puts a new node in the place of the old one, and restores
      the values exactly when x is what was there, or i is out of range for the insertion too. */
  lemma {:induction false} DeleteInsertRestores<T>(s: seq<T>, v: seq<int>, i: int, x: int, made: seq<T>)
    requires |s| == |v| && |made| == 2
    ensures ApplyAll(v, [OpDelete(i), OpInsert(i, x)]).0 == v
       <==> i != |v| + 1 && (1 <= i <= |v| ==> x == v[i - 1])
    ensures PlaceAll(s, v, [OpDelete(i), OpInsert(i, x)], made) ==
            if 1 <= i <= |s| then s[i - 1 := made[1]] else if i == |s| + 1 then s + [made[1]] else s
  {
    ApplyTwo(v, OpDelete(i), OpInsert(i, x));
    PlaceTwo(s, v, OpDelete(i), OpInsert(i, x), made);
    if 1 <= i <= |v| {
      hide InsertAt, RemoveAt;
      ReplaceAt(v, i - 1, x);
      ReplaceAt(s, i - 1, made[1]);
      assert v[i - 1 := x] == v <==> v[i - 1] == x;
    }
  }

  /** A purge absorbs the insertion of a value behind an equal one. */
  lemma {:induction false} PurgeAbsorbsInsert(v: seq<int>, i: int, x: int)
    requires 1 <= i <= |v| + 1 && x in v[..i - 1]
    ensures ApplyAll(v, [OpInsert(i, x), OpPurge]).0 == Dedup(v)
  {
    ApplyTwo(v, OpInsert(i, x), OpPurge);
    DedupAbsorbsInsertion(v, i - 1, x);
  }

  /** A purge absorbs the deletion of any occurrence but the first. */
  lemma {:induction false} PurgeAbsorbsDelete(v: seq<int>, i: int)
    requires 1 <= i <= |v| && v[i - 1] in v[..i - 1]
    ensures ApplyAll(v, [OpDelete(i), OpPurge]).0 == Dedup(v)
  {
    ApplyTwo(v, OpDelete(i), OpPurge);
    FirstsAbsorbsRemoval(v, v, i - 1);
  }

  // ----- The pointer program simulates it -----

  /** For every sequence of operations the linked list goes through the abstract one's values
      and codes, node by node: the spine is the original nodes and the nodes the insertions made,
      moved as the operations say.  A node leaves the list exactly by being freed, no value is
      overwritten, and no other live node is touched. */
  method Run(ghost m: Heap, H: Node, ops: seq<Op>, ghost s: seq<Node>)
    returns (codes: seq<int>, ghost t: seq<Node>, ghost made: seq<Node>)
    requires m.Valid() && HeaderList(m, H, s)
    modifies m, H`next, H`nextSet, (set n | n in s)`next, (set n | n in s)`nextSet
    ensures m.Valid() && HeaderList(m, H, t)
    ensures (Values(t), codes) == ApplyAll(old(Values(s)), ops)
    ensures |codes| == |made| == |ops| && t == PlaceAll(s, old(Values(s)), ops, made)
    ensures OpPurge !in ops ==> |t| + Successes(ops, codes, false) == |s| + Successes(ops, codes, true)
    ensures fresh(AllCreated(ops, codes, made)) && NodeSet(t) <= NodeSet(s) + AllCreated(ops, codes, made)
    ensures m.live == old(m.live) - NodeSet(s) + NodeSet(t)
    ensures m.freed == old(m.freed) + (NodeSet(s) + AllCreated(ops, codes, made) - NodeSet(t))
  {
    hide Chain, Values, Segment, Distinct, HeaderList, HasData, Apply, ApplyAll, Place, PlaceAll, NodeSet, Created,
         AllCreated;
    t, codes, made := s, [], [];
    HeaderNodes(m, H, s);
    ghost var v, live, freed := Values(s), m.live, m.freed;
    Unchanged(s, v);
    InNodeSet(s);
    for k := 0 to |ops|
      invariant m.Valid() && HeaderList(m, H, t) && |codes| == |made| == k
      invariant (Values(t), codes) == ApplyAll(v, ops[..k])
      invariant t == PlaceAll(s, v, ops[..k], made)
      invariant fresh(AllCreated(ops[..k], codes, made))
      invariant NodeSet(t) <= NodeSet(s) + AllCreated(ops[..k], codes, made)
      invariant m.live == live - NodeSet(s) + NodeSet(t)
      invariant m.freed == freed + (NodeSet(s) + AllCreated(ops[..k], codes, made) - NodeSet(t))
    {
      ghost var t', all := t, AllCreated(ops[..k], codes, made);
      InNodeSet(t);
      var code;
      ghost var n;
      code, t, n := Step(m, H, ops[k], t);
      ApplyNext(s, v, ops, k, codes, code, made, n);
      Account(freed, NodeSet(s) + all, NodeSet(t'), NodeSet(t), Created(ops[k], code, n));
      codes, made := codes + [code], made + [n];
    }
    assert ops[..|ops|] == ops;
    CodesTell(v, ops);
  }

  lemma InNodeSet(s: seq<Node>)
    ensures forall n :: n in s <==> n in NodeSet(s)
  {
  }

  /** Before any operation. */
  lemma Unchanged(s: seq<Node>, v: seq<int>)
    requires |s| == |v|
    ensures ApplyAll(v, []) == (v, []) && PlaceAll(s, v, [], []) == s && AllCreated([], [], []) == {}
  {
  }

  /** One operation takes the list from the nodes t to t', creating c: of all the nodes the list
      ever had, those not in it have been freed. */
  lemma Account(freed: set<Node>, all: set<Node>, t: set<Node>, t': set<Node>, c: set<Node>)
    requires t <= all && t' <= t + c && c <= t' && all !! c
    ensures freed + (all - t) + (t - t') == freed + (all + c - t')
  {
  }

  lemma ApplyNext(s: seq<Node>, v: seq<int>, ops: seq<Op>, k: nat, codes: seq<int>, code: int, made: seq<Node>, n: Node)
    requires k < |ops| && |s| == |v| && |codes| == |made| == k
    ensures var w, cs := ApplyAll(v, ops[..k]).0, ApplyAll(v, ops[..k]).1;
            ApplyAll(v, ops[..k + 1]) == (Apply(w, ops[k]).0, cs + [Apply(w, ops[k]).1])
    ensures PlaceAll(s, v, ops[..k + 1], made + [n])
         == Place(PlaceAll(s, v, ops[..k], made), ApplyAll(v, ops[..k]).0, ops[k], n)
    ensures AllCreated(ops[..k + 1], codes + [code], made + [n])
         == AllCreated(ops[..k], codes, made) + Created(ops[k], code, n)
  {
    hide Apply, Place, Created;
    assert ops[..k + 1][..k] == ops[..k];
    assert (made + [n])[..k] == made && (codes + [code])[..k] == codes;
  }

  method Step(ghost m: Heap, H: Node, op: Op, ghost s: seq<Node>)
    returns (code: int, ghost t: seq<Node>, ghost made: Node)
    requires m.Valid() && HeaderList(m, H, s)
    modifies m, H`next, H`nextSet, (set n | n in s)`next, (set n | n in s)`nextSet
    ensures m.Valid() && HeaderList(m, H, t)
    ensures (Values(t), code) == Apply(old(Values(s)), op)
    ensures t == Place(s, old(Values(s)), op, made)
    ensures match op
            case OpInsert(i, _) => code == if 1 <= i <= |s| + 1 then 0 else -1
            case OpDelete(i) => code == if 1 <= i <= |s| then 0 else -1
            case _ => code == 0
    ensures fresh(Created(op, code, made))
    ensures Created(op, code, made) <= NodeSet(t) <= NodeSet(s) + Created(op, code, made)
    ensures m.live == old(m.live) - NodeSet(s) + NodeSet(t)
    ensures m.freed == old(m.freed) + (NodeSet(s) - NodeSet(t))
  {
    hide Chain, Values, Segment, Distinct, HeaderList, HasData, NodeSet, InsertAt, RemoveAt, Rev, Firsts;
    HeaderNodes(m, H, s);
    made := H;
    match op
    case OpInsert(i, x) =>
      code, t := Insert(m, H, i, x, s);
      if code == 0 {
        made := t[i - 1];
        InsertedNodes(s, i - 1, made);
      }
    case OpDelete(i) =>
      code, t := Delete(m, H, i, s);
      if code == 0 {
        NodesAfterRemove(H, s, i - 1);
        InNodeSet(s);
      }
    case OpReverse =>
      Reverse(m, H, s);
      t, code := Rev(s), 0;
      ReversedNodes(s);
    case OpPurge =>
      ghost var comparisons;
      t, comparisons := Purge(m, H, s);
      code := 0;
      FirstsNodes(s, old(Values(s)));
  }

  lemma HeaderNodes(m: Heap, H: Node, s: seq<Node>)
    requires HeaderList(m, H, s)
    ensures NodeSet(s) <= m.live && Distinct([H] + s) && H in m.live && H !in s
  {
    ChainTail(m, [H] + s);
    assert ([H] + s)[1..] == s;
  }

  lemma InsertedNodes(s: seq<Node>, j: nat, n: Node)
    requires j <= |s|
    ensures NodeSet(InsertAt(s, j, n)) == NodeSet(s) + {n}
  {
    assert s == s[..j] + s[j..];
  }

  lemma ReversedNodes(s: seq<Node>)
    ensures NodeSet(Rev(s)) == NodeSet(s) && forall n :: n in Rev(s) <==> n in s
  {
    forall n
      ensures n in Rev(s) <==> n in s
    {
      RevMembers(s, n);
    }
    assert NodeSet(Rev(s)) <= NodeSet(s) && NodeSet(s) <= NodeSet(Rev(s));
  }

  lemma FirstsNodes(s: seq<Node>, v: seq<int>)
    requires |s| == |v|
    ensures NodeSet(Firsts(s, v)) <= NodeSet(s) && forall n :: n in Firsts(s, v) ==> n in s
  {
    FirstsIsSelection(s, v);
  }

  /** Build, edit in any way, list, destroy: what is printed is the abstract result, and in the
      end the heap holds exactly the nodes it held before. */
  method Live(ghost m: Heap, input: seq<int>, ops: seq<Op>) returns (codes: seq<int>, out: seq<(int, int)>)
    requires m.Valid() && Builders.SENTINEL in input
    modifies m
    ensures m.Valid() && m.live == old(m.live)
    ensures ApplyAll(Builders.BeforeSentinel(input), ops).1 == codes
    ensures var w := ApplyAll(Builders.BeforeSentinel(input), ops).0;
            |out| == |w| && forall k :: 0 <= k < |w| ==> out[k] == (k + 1, w[k])
    ensures old(m.freed) <= m.freed && forall n :: n in m.freed - old(m.freed) ==> fresh(n)
  {
    hide Chain, Values, Segment, Distinct, HeaderList, HasData, ApplyAll, PlaceAll;
    var L, used;
    ghost var s, t;
    L, used, s := Builders.CreateWithHeader(m, input);
    HeaderNodes(m, L, s);
    ghost var made;
    codes, t, made := Run(m, L, ops, s);
    out := Scan(m, L, t);
    HeaderNodes(m, L, t);
    ListChain(m, L, t);
    Destroy(m, L, [L] + t);
  }

  lemma ListChain(m: Heap, H: Node, s: seq<Node>)
    requires HeaderList(m, H, s)
    ensures Head([H] + s, null) == H && Chain(m, [H] + s) && NodeSet([H] + s) == {H} + NodeSet(s)
  {
  }

  /** The main program: what it prints, the comparisons of its purge, and an empty heap at the end. */
  method Program(ghost m: Heap, input: seq<int>)
    returns (before: seq<(int, int)>, after: seq<(int, int)>, ghost comparisons: nat)
    requires m.Valid() && Builders.SENTINEL in input
    modifies m
    ensures m.Valid() && m.live == old(m.live)
    ensures |before| < |input| && 99 !in input[..|before|] && input[|before|] == 99
    ensures forall k :: 0 <= k < |before| ==> before[k] == (k + 1, input[k])
    ensures var w := Dedup(input[..|before|]);
            |after| == |w| && forall k :: 0 <= k < |w| ==> after[k] == (k + 1, w[k])
    ensures comparisons == Work(input[..|before|])
  {
    hide Chain, Values, Segment, Distinct, HeaderList, HasData, Firsts, Work;
    var L, used;
    ghost var s, t;
    L, used, s := Builders.CreateWithHeader(m, input);
    before := Scan(m, L, s);
    HeaderNodes(m, L, s);
    ghost var v := Values(s);
    t, comparisons := Purge(m, L, s);
    FirstsNodes(s, v);
    after := Scan(m, L, t);
    ListChain(m, L, t);
    Destroy(m, L, [L] + t);
  }

  // ----- Laws across operations -----

  /** Search, index and length agree: Get is NULL exactly outside 0..Length1, Length2 counts one
      more, and Locate finds the node Get gives for the least index that holds x. */
  method SearchAgrees(ghost m: Heap, L: Node, x: int, k: int, ghost c: seq<Node>)
    returns (found: Node?, at: Node?, n1: int, n2: int)
    requires c != [] && c[0] == L && Chain(m, c) && HasData(c)
    ensures n1 == |c| - 1 && n2 == n1 + 1
    ensures at != null <==> 0 <= k <= n1
    ensures found == null <==> x !in Values(c)
    ensures at != null ==> (found == at <==> at.data == x && forall i :: 0 <= i < k ==> Values(c)[i] != x)
  {
    hide Segment, Values;
    n1 := Length1(m, L, c);
    n2 := Length2(m, L, c);
    at := Get(m, L, k, c);
    found := Locate(m, L, x, c);
  }

  /** Reversing twice restores the very nodes, in their order. */
  method ReverseTwice(ghost m: Heap, H: Node, ghost s: seq<Node>)
    requires HeaderList(m, H, s)
    modifies H`next, H`nextSet, (set n | n in s)`next, (set n | n in s)`nextSet
    ensures HeaderList(m, H, s) && Values(s) == old(Values(s))
  {
    hide Chain, Values, Segment, Distinct, HeaderList, HasData, Rev;
    ReversedNodes(s);
    Reverse(m, H, s);
    Reverse(m, H, Rev(s));
    RevRev(s);
  }

  /** Inserting at i and deleting at i again restores the very nodes, their order and their values,
      for every integer i; what the insertion made, if anything, has been freed. */
  method InsertThenDelete(ghost m: Heap, H: Node, i: int, x: int, ghost s: seq<Node>) returns (ghost made: set<Node>)
    requires m.Valid() && HeaderList(m, H, s)
    modifies m, H`next, H`nextSet, (set n | n in s)`next, (set n | n in s)`nextSet
    ensures m.Valid() && HeaderList(m, H, s) && Values(s) == old(Values(s))
    ensures fresh(made) && |made| == if 1 <= i <= |s| + 1 then 1 else 0
    ensures m.live == old(m.live) && m.freed == old(m.freed) + made
  {
    hide Chain, Values, Segment, Distinct, HeaderList, HasData, InsertAt, RemoveAt;
    var code;
    ghost var t, t';
    code, t := Insert(m, H, i, x, s);
    made := if code == 0 then {t[i - 1]} else {};
    if code == 0 {
      RemoveInserted(s, i - 1, t[i - 1]);
      RemoveInserted(old(Values(s)), i - 1, x);
    }
    code, t' := Delete(m, H, i, t);
  }

  lemma RemoveInserted<T>(s: seq<T>, j: nat, x: T)
    requires j <= |s|
    ensures RemoveAt(InsertAt(s, j, x), j) == s
    ensures forall n :: n in InsertAt(s, j, x) ==> n in s || n == x
  {
  }

  /** Reverse, purge, reverse leaves exactly the node of the last occurrence of each value. */
  method KeepLast(ghost m: Heap, H: Node, ghost s: seq<Node>) returns (ghost t: seq<Node>)
    requires m.Valid() && HeaderList(m, H, s)
    modifies m, H`next, H`nextSet, (set n | n in s)`next, (set n | n in s)`nextSet
    ensures m.Valid() && HeaderList(m, H, t)
    ensures t == Lasts(s, old(Values(s))) && Values(t) == Lasts(old(Values(s)), old(Values(s)))
    ensures m.live == old(m.live) - (NodeSet(s) - NodeSet(t))
    ensures m.freed == old(m.freed) + (NodeSet(s) - NodeSet(t))
  {
    hide Chain, Values, Segment, Distinct, HeaderList, HasData, Firsts, Lasts;
    ghost var v := Values(s);
    ReversedNodes(s);
    Reverse(m, H, s);
    ghost var kept, comparisons := Purge(m, H, Rev(s));
    FirstsNodes(Rev(s), Rev(v));
    ReversedNodes(kept);
    Reverse(m, H, kept);
    t := Rev(kept);
    RevFirstsRev(s, v);
    RevFirstsRev(v, v);
  }

  /** The builder with a header, followed by a reversal. */
  method CreateReversed(ghost m: Heap, input: seq<int>) returns (L: Node, ghost s: seq<Node>)
    requires m.Valid() && Builders.SENTINEL in input
    modifies m
    ensures m.Valid() && HeaderList(m, L, s) && fresh({L} + NodeSet(s))
    ensures Values(s) == Rev(Builders.BeforeSentinel(input))
    ensures m.live == old(m.live) + {L} + NodeSet(s) && m.freed == old(m.freed)
  {
    hide Chain, Values, Segment, Distinct, HeaderList, HasData, Rev;
    var used;
    ghost var t;
    L, used, t := Builders.CreateWithHeader(m, input);
    ReversedNodes(t);
    Reverse(m, L, t);
    s := Rev(t);
  }

  /** From the same input the three builders hold the same numbers, the pushing one reversed,
      and reversing the list with a header gives the pushing one's numbers. */
  method BuildersAgree(ghost m: Heap, input: seq<int>)
    returns (L1: Node?, L2: Node?, L3: Node, ghost s1: seq<Node>, ghost s2: seq<Node>, ghost s3: seq<Node>)
    requires m.Valid() && Builders.SENTINEL in input
    modifies m
    ensures m.Valid() && Chain(m, s1) && Chain(m, s2) && HeaderList(m, L3, s3)
    ensures L1 == Head(s1, null) && L2 == Head(s2, null)
    ensures Values(s2) == Builders.BeforeSentinel(input)
    ensures Values(s1) == Rev(Values(s2)) && Values(s3) == Values(s1)
  {
    hide Values, Segment, Distinct, Rev, HasData, HeaderList;
    var u1, u2;
    L1, u1, s1 := Builders.CreateByPushing(m, input);
    L2, u2, s2 := Builders.CreateByAppending(m, input);
    L3, s3 := CreateReversed(m, input);
  }
}
