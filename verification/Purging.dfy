/** In-place removal of duplicates, with the number of data comparisons it makes. */
module Purging {
  import opened CHeap
  import opened LinkList
  import opened Seqs

  // ----- What the nested loops keep, on the spine and its values -----

  /** No value at a position below k occurs again later. */
  ghost predicate Settled(c: seq<int>, k: nat) {
    forall i, l :: 0 <= i < k && i < l < |c| ==> c[i] != c[l]
  }

  /** The loops stand at cur[k] (outer) and cur[j] (inner) after count comparisons: removing
      first occurrences only is still what remains to be done, and every comparison made so far
      is accounted for, those of removed nodes by the work they took with them. */
  ghost predicate Progress(s: seq<Node>, v: seq<int>, cur: seq<Node>, c: seq<int>, k: nat, j: nat, count: nat) {
    && |s| == |v| && |cur| == |c| && k <= j
    && Firsts(cur, c) == Firsts(s, v) && Dedup(c) == Dedup(v)
    && Settled(c, k)
    && (forall i :: k < i <= j && i < |c| ==> c[i] != c[k])
    && count + Work(c) == Work(v) + Passes(|c|, k) + (j - k)
  }

  lemma Start(s: seq<Node>, v: seq<int>)
    requires |s| == |v|
    ensures Progress(s, v, s, v, 0, 0, 0)
  {
  }

  lemma SettledRank(c: seq<int>, k: nat)
    requires k < |c| && Settled(c, k)
    ensures FirstIndex(Dedup(c), c[k]) == k
  {
    var a := c[..k + 1];
    assert a[k] == c[k];
    assert Distinct(a);
    FirstsOfDistinct(a, a);
    FirstsPrefix(c, k + 1);
    RankInPrefix(a, Dedup(c), k);
  }

  lemma RankInPrefix(a: seq<int>, d: seq<int>, k: nat)
    requires k < |a| <= |d| && d[..|a|] == a && Distinct(a)
    ensures FirstIndex(d, a[k]) == k
  {
    FirstIndexUnique(a, k);
    FirstIndexPrefix(a, d[|a|..], a[k]);
    assert d == a + d[|a|..];
  }

  lemma {:induction false} FirstsPrefix(c: seq<int>, k: nat)
    requires k <= |c|
    ensures |Dedup(c[..k])| <= |Dedup(c)| && Dedup(c)[..|Dedup(c[..k])|] == Dedup(c[..k])
    decreases |c| - k
  {
    if k < |c| {
      FirstsPrefix(c, k + 1);
      assert c[..k + 1][..k] == c[..k];
    } else {
      assert c[..k] == c;
    }
  }

  /** A different value behind q: the inner loop moves on after one comparison. */
  lemma Keep(s: seq<Node>, v: seq<int>, cur: seq<Node>, c: seq<int>, k: nat, j: nat, count: nat)
    requires Progress(s, v, cur, c, k, j, count) && j + 1 < |c| && c[j + 1] != c[k]
    ensures Progress(s, v, cur, c, k, j + 1, count + 1)
  {
  }

  /** An equal value behind q: removing it changes neither the final result nor the account. */
  lemma Drop(s: seq<Node>, v: seq<int>, cur: seq<Node>, c: seq<int>, k: nat, j: nat, count: nat)
    requires Progress(s, v, cur, c, k, j, count) && j + 1 < |c| && c[j + 1] == c[k]
    ensures Progress(s, v, RemoveAt(cur, j + 1), RemoveAt(c, j + 1), k, j, count + 1)
  {
    hide Firsts, Work, FirstIndex;
    var c' := RemoveAt(c, j + 1);
    assert c[..j + 1][k] == c[j + 1];
    FirstsAbsorbsRemoval(cur, c, j + 1);
    FirstsAbsorbsRemoval(c, c, j + 1);
    WorkOfRemoval(c, j + 1);
    SettledRank(c, k);
    PassesOfFewer(|c|, k);
    assert forall i :: 0 <= i < |c'| ==> c'[i] == if i <= j then c[i] else c[i + 1];
  }

  /** At the end of the inner loop position k is settled as well. */
  lemma Advance(s: seq<Node>, v: seq<int>, cur: seq<Node>, c: seq<int>, k: nat, j: nat, count: nat)
    requires Progress(s, v, cur, c, k, j, count) && j + 1 == |c|
    ensures Progress(s, v, cur, c, k + 1, k + 1, count)
  {
  }

  lemma SettledAll(c: seq<int>, k: nat)
    requires Settled(c, k) && |c| - 1 <= k
    ensures Distinct(c)
  {
  }

  lemma LastPass(n: nat, k: nat)
    requires n - 1 <= k <= n
    ensures Passes(n, k) == Tri(n)
  {
    AllPasses(n);
    if k < n {
      assert Passes(n, n) == Passes(n, k);
    }
  }

  /** At the end of the outer loop only first occurrences are left, for exactly their work. */
  lemma Finish(s: seq<Node>, v: seq<int>, cur: seq<Node>, c: seq<int>, k: nat, count: nat)
    requires Progress(s, v, cur, c, k, k, count) && |c| - 1 <= k <= |c|
    ensures cur == Firsts(s, v) && Dedup(v) == c && count == Work(v)
  {
    hide Firsts, Work, Tri, Passes, Settled, Distinct;
    SettledAll(c, k);
    FirstsOfDistinct(cur, c);
    FirstsOfDistinct(c, c);
    WorkOfDistinct(c);
    LastPass(|c|, k);
  }

  // ----- The pointer program -----

  /** What the pointer program reads in the header and in the node s[j]. */
  lemma Look(m: Heap, H: Node, s: seq<Node>, j: nat)
    requires HeaderList(m, H, s)
    ensures H in m.live && H.nextSet && H.next == if s == [] then null else s[0]
    ensures j < |s| ==>
              && s[j] in m.live && s[j] in s
              && s[j].nextSet && s[j].next == (if j + 1 < |s| then s[j + 1] else null)
              && s[j].dataSet && Values(s)[j] == s[j].data
  {
    var a, p, b := NodeAt(m, H, s, 0);
    if j < |s| {
      var a', p', b' := NodeAt(m, H, s, j + 1);
    }
  }

  lemma NodesAfterRemove(H: Node, s: seq<Node>, j: nat)
    requires j < |s| && Distinct([H] + s)
    ensures s[j] in s && NodeSet(RemoveAt(s, j)) == NodeSet(s) - {s[j]}
    ensures forall i :: 0 <= i < j ==> RemoveAt(s, j)[i] == s[i]
  {
    assert [H] + s == ([H] + s[..j]) + [s[j]] + s[j + 1..];
    DistinctSplit([H] + s[..j], s[j], s[j + 1..]);
    assert s == s[..j] + [s[j]] + s[j + 1..];
  }

  /** Of the nodes s, live before, exactly those not in t have been freed. */
  ghost predicate Ledger(m: Heap, s: seq<Node>, t: seq<Node>, live: set<Node>, freed: set<Node>)
    reads m
  {
    && m.Valid() && NodeSet(t) <= NodeSet(s)
    && m.live == live - (NodeSet(s) - NodeSet(t))
    && m.freed == freed + (NodeSet(s) - NodeSet(t))
  }

  lemma LedgerStart(m: Heap, s: seq<Node>)
    requires m.Valid()
    ensures Ledger(m, s, s, m.live, m.freed)
  {
  }

  lemma LedgerOpen(m: Heap, H: Node, s: seq<Node>, t: seq<Node>, live: set<Node>, freed: set<Node>)
    requires Ledger(m, s, t, live, freed) && HeaderList(m, H, t)
    ensures m.Valid() && NodeSet(t) <= NodeSet(s) && (forall n :: n in t ==> n in s) && Distinct([H] + t)
    ensures m.live == live - (NodeSet(s) - NodeSet(t))
    ensures m.freed == freed + (NodeSet(s) - NodeSet(t))
  {
    assert forall n :: n in t ==> n in NodeSet(t);
  }

  lemma LedgerStep(m: Heap, H: Node, s: seq<Node>, t: seq<Node>, j: nat,
      live: set<Node>, freed: set<Node>)
    requires j < |t| && Distinct([H] + t)
    requires m.Valid() && NodeSet(t) <= NodeSet(s)
    requires m.live == live - (NodeSet(s) - NodeSet(t)) - {t[j]}
    requires m.freed == freed + (NodeSet(s) - NodeSet(t)) + {t[j]}
    ensures Ledger(m, s, RemoveAt(t, j), live, freed)
    ensures forall i :: 0 <= i < j ==> RemoveAt(t, j)[i] == t[i]
  {
    NodesAfterRemove(H, t, j);
  }

  /** Leaves exactly the nodes that hold the first occurrence of their value, in their order;
      frees exactly the others; changes no value; and makes Work(v) comparisons. */
  method Purge(ghost m: Heap, H: Node, ghost s: seq<Node>)
    returns (ghost t: seq<Node>, ghost comparisons: nat)
    requires m.Valid() && HeaderList(m, H, s)
    modifies m, H`next, H`nextSet, (set n | n in s)`next, (set n | n in s)`nextSet
    ensures m.Valid() && HeaderList(m, H, t)
    ensures t == Firsts(s, old(Values(s))) && Values(t) == Dedup(old(Values(s)))
    ensures m.live == old(m.live) - (NodeSet(s) - NodeSet(t))
    ensures m.freed == old(m.freed) + (NodeSet(s) - NodeSet(t))
    ensures comparisons == Work(old(Values(s)))
  {
    hide Chain, Segment, Distinct, Values, RemoveAt, HeaderList, HasData, NodeSet;
    hide Firsts, Work, Passes, Progress, Ledger;
    ghost var v, live, freed := Values(s), m.live, m.freed;
    Start(s, v);
    LedgerStart(m, s);
    Look(m, H, s, 0);
    t, comparisons := s, 0;
    var p := H.Next(m);
    ghost var k := 0;
    while p != null && p.Next(m) != null
      invariant HeaderList(m, H, t) && Ledger(m, s, t, live, freed)
      invariant k <= |t| && p == if k < |t| then t[k] else null
      invariant p != null ==> p in m.live && p.nextSet && p.next == if k + 1 < |t| then t[k + 1] else null
      invariant Progress(s, v, t, Values(t), k, k, comparisons)
      decreases |t| - k
    {
      var q := p;
      ghost var j, n := k, |t|;
      while q.Next(m) != null
        invariant HeaderList(m, H, t) && Ledger(m, s, t, live, freed)
        invariant k <= j < |t| <= n && p == t[k] && q == t[j]
        invariant q in m.live && q.nextSet && q.next == if j + 1 < |t| then t[j + 1] else null
        invariant Progress(s, v, t, Values(t), k, j, comparisons)
        decreases |t| - j
      {
        Look(m, H, t, k);
        Look(m, H, t, j + 1);
        if q.Next(m).Data(m) == p.Data(m) {
          Drop(s, v, t, Values(t), k, j, comparisons);
          LedgerOpen(m, H, s, t, live, freed);
          Unlink(m, H, q, t, j + 1);
          LedgerStep(m, H, s, t, j + 1, live, freed);
          t := RemoveAt(t, j + 1);
        } else {
          Keep(s, v, t, Values(t), k, j, comparisons);
          q := q.Next(m);
          j := j + 1;
        }
        comparisons := comparisons + 1;
        Look(m, H, t, j);
      }
      Advance(s, v, t, Values(t), k, j, comparisons);
      Look(m, H, t, k);
      p := p.Next(m);
      k := k + 1;
      Look(m, H, t, k);
    }
    Finish(s, v, t, Values(t), k, comparisons);
    LedgerOpen(m, H, s, t, live, freed);
  }
}
