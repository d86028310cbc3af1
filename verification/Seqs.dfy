/** Sequence functions that the linked list refines, and the laws of duplicate removal:
    what purging keeps, what it absorbs, and how many comparisons it takes. */
module Seqs {

  // ----- Reversal -----

  function Rev<T>(s: seq<T>): (r: seq<T>)
    ensures |r| == |s|
  {
    if s == [] then [] else [s[|s| - 1]] + Rev(s[..|s| - 1])
  }

  lemma {:induction false} RevAt<T>(s: seq<T>, k: nat)
    requires k < |s|
    ensures Rev(s)[k] == s[|s| - 1 - k]
  {
    if k == 0 {
    } else {
      RevAt(s[..|s| - 1], k - 1);
    }
  }

  lemma {:induction false} RevMembers<T>(s: seq<T>, x: T)
    ensures x in Rev(s) <==> x in s
  {
    if s == [] {
    } else {
      RevMembers(s[..|s| - 1], x);
      assert s == s[..|s| - 1] + [s[|s| - 1]];
    }
  }

  lemma {:induction false} RevConcat<T>(a: seq<T>, b: seq<T>)
    ensures Rev(a + b) == Rev(b) + Rev(a)
  {
    if b == [] {
      assert a + b == a;
    } else {
      RevConcat(a, b[..|b| - 1]);
      assert (a + b)[..|a + b| - 1] == a + b[..|b| - 1];
    }
  }

  /** Reversing twice restores the sequence. */
  lemma RevRev<T>(s: seq<T>)
    ensures Rev(Rev(s)) == s
  {
    forall k: nat | k < |s|
      ensures Rev(Rev(s))[k] == s[k]
    {
      RevAt(Rev(s), k);
      RevAt(s, |s| - 1 - k);
    }
  }

  // ----- Positional edits -----

  function RemoveAt<T>(s: seq<T>, j: nat): (r: seq<T>)
    requires j < |s|
    ensures |r| == |s| - 1
  {
    s[..j] + s[j + 1..]
  }

  function InsertAt<T>(s: seq<T>, j: nat, x: T): (r: seq<T>)
    requires j <= |s|
    ensures |r| == |s| + 1 && r[j] == x
  {
    s[..j] + [x] + s[j..]
  }

  predicate Distinct<T(==)>(s: seq<T>) {
    forall i, j :: 0 <= i < j < |s| ==> s[i] != s[j]
  }

  lemma DistinctSplit<T>(a: seq<T>, p: T, b: seq<T>)
    requires Distinct(a + [p] + b)
    ensures p !in a && p !in b && Distinct(a + b) && Distinct(a) && Distinct(b)
    ensures forall x :: x in a ==> x !in b
  {
    var s := a + [p] + b;
    assert s[|a|] == p;
    assert forall i :: 0 <= i < |a| ==> s[i] == a[i];
    assert forall i :: 0 <= i < |b| ==> s[|a| + 1 + i] == b[i];
  }

  lemma DistinctJoin<T>(a: seq<T>, p: T, b: seq<T>)
    requires Distinct(a + b) && p !in a && p !in b
    ensures Distinct(a + [p] + b)
  {
    var s, t := a + [p] + b, a + b;
    assert forall i :: 0 <= i < |a| ==> s[i] == t[i] == a[i];
    assert forall i :: |a| < i < |s| ==> s[i] == t[i - 1] == b[i - 1 - |a|];
  }

  /** The least index of x, or the length when x is absent. */
  function FirstIndex(v: seq<int>, x: int): (k: nat)
    ensures k <= |v|
    ensures k < |v| <==> x in v
    ensures k < |v| ==> v[k] == x
    ensures forall m :: 0 <= m < k ==> v[m] != x
  {
    if v == [] then 0
    else if v[0] == x then 0
    else assert v == [v[0]] + v[1..]; 1 + FirstIndex(v[1..], x)
  }

  // ----- Keeping first occurrences -----

  /** The elements of xs at the positions where v holds a value not seen earlier in v.
      With xs the nodes of a list and v their values these are the nodes a purge keeps;
      with xs == v they are the values it keeps. */
  function Firsts<T>(xs: seq<T>, v: seq<int>): (r: seq<T>)
    requires |xs| == |v|
    ensures |r| <= |xs|
  {
    if v == [] then []
    else
      var n := |v| - 1;
      Firsts(xs[..n], v[..n]) + if v[n] in v[..n] then [] else [xs[n]]
  }

  function Dedup(v: seq<int>): seq<int> {
    Firsts(v, v)
  }

  function Indices(n: nat): seq<nat> {
    seq(n, i requires 0 <= i => i)
  }

  /** The kept positions, in order. */
  function Kept(v: seq<int>): seq<nat> {
    Firsts(Indices(|v|), v)
  }

  lemma FirstsInit<T>(xs: seq<T>, v: seq<int>, n: nat)
    requires |xs| == |v| == n + 1
    ensures Firsts(xs, v) == Firsts(xs[..n], v[..n]) + if v[n] in v[..n] then [] else [xs[n]]
  {
  }

  lemma KeptInit(v: seq<int>, n: nat)
    requires |v| == n + 1
    ensures Kept(v) == Kept(v[..n]) + if v[n] in v[..n] then [] else [n]
  {
    hide Firsts;
    FirstsInit(Indices(n + 1), v, n);
    assert Indices(n + 1)[..n] == Indices(n);
  }

  lemma {:induction false} KeptMember(v: seq<int>, p: nat)
    ensures p in Kept(v) <==> p < |v| && v[p] !in v[..p]
  {
    if v == [] {
    } else {
      var n := |v| - 1;
      KeptInit(v, n);
      KeptMember(v[..n], p);
      hide Kept;
      assert p < n ==> v[..n][..p] == v[..p];
    }
  }

  lemma {:induction false} KeptIncreases(v: seq<int>)
    ensures forall i, j :: 0 <= i < j < |Kept(v)| ==> Kept(v)[i] < Kept(v)[j]
    ensures forall j :: 0 <= j < |Kept(v)| ==> Kept(v)[j] < |v|
  {
    if v == [] {
    } else {
      KeptInit(v, |v| - 1);
      KeptIncreases(v[..|v| - 1]);
      hide Kept;
    }
  }

  lemma {:induction false} FirstsSelects<T>(xs: seq<T>, v: seq<int>)
    requires |xs| == |v|
    ensures |Firsts(xs, v)| == |Kept(v)|
    ensures forall j :: 0 <= j < |Kept(v)| ==> Kept(v)[j] < |v| && Firsts(xs, v)[j] == xs[Kept(v)[j]]
  {
    if v == [] {
    } else {
      var n := |v| - 1;
      KeptInit(v, n);
      FirstsInit(xs, v, n);
      FirstsSelects(xs[..n], v[..n]);
      KeptIncreases(v);
      KeptIncreases(v[..n]);
      hide Kept, Firsts;
    }
  }

  /** Reference reading of Firsts: the kept positions increase, they are exactly those of the
      first occurrences, and Firsts picks the elements of xs there. */
  lemma FirstsIsSelection<T>(xs: seq<T>, v: seq<int>)
    requires |xs| == |v|
    ensures |Firsts(xs, v)| == |Kept(v)|
    ensures forall i, j :: 0 <= i < j < |Kept(v)| ==> Kept(v)[i] < Kept(v)[j]
    ensures forall p: nat :: p in Kept(v) <==> p < |v| && v[p] !in v[..p]
    ensures forall j :: 0 <= j < |Kept(v)| ==> Kept(v)[j] < |v| && Firsts(xs, v)[j] == xs[Kept(v)[j]]
  {
    hide Firsts, Kept;
    FirstsSelects(xs, v);
    KeptIncreases(v);
    forall p: nat
      ensures p in Kept(v) <==> p < |v| && v[p] !in v[..p]
    {
      KeptMember(v, p);
    }
  }

  lemma {:induction false} DedupMembers(v: seq<int>, x: int)
    ensures x in Dedup(v) <==> x in v
  {
    if v == [] {
    } else {
      var n := |v| - 1;
      DedupMembers(v[..n], x);
      DedupMembers(v[..n], v[n]);
      assert v == v[..n] + [v[n]];
    }
  }

  lemma {:induction false} DedupDistinct(v: seq<int>)
    ensures Distinct(Dedup(v))
  {
    if v == [] {
    } else {
      var n := |v| - 1;
      DedupDistinct(v[..n]);
      DedupMembers(v[..n], v[n]);
    }
  }

  lemma {:induction false} FirstsOfDistinct<T>(xs: seq<T>, v: seq<int>)
    requires |xs| == |v| && Distinct(v)
    ensures Firsts(xs, v) == xs
  {
    if v == [] {
    } else {
      FirstsOfDistinct(xs[..|v| - 1], v[..|v| - 1]);
    }
  }

  /** A second purge changes nothing. */
  lemma DedupIdempotent(v: seq<int>)
    ensures Dedup(Dedup(v)) == Dedup(v)
  {
    DedupDistinct(v);
    FirstsOfDistinct(Dedup(v), Dedup(v));
  }

  lemma RemoveAtMembers(v: seq<int>, j: nat, x: int)
    requires j < |v| && v[j] in v[..j]
    ensures x in RemoveAt(v, j) <==> x in v
  {
    assert v == v[..j] + [v[j]] + v[j + 1..];
  }

  lemma RemoveAtInit<T>(s: seq<T>, j: nat)
    requires j < |s| - 1
    ensures RemoveAt(s, j)[..|s| - 2] == RemoveAt(s[..|s| - 1], j)
    ensures RemoveAt(s, j)[|s| - 2] == s[|s| - 1]
  {
  }

  /** Deleting an occurrence that has an earlier equal one is absorbed by a purge. */
  lemma {:induction false} FirstsAbsorbsRemoval<T>(xs: seq<T>, v: seq<int>, j: nat)
    requires |xs| == |v| && j < |v| && v[j] in v[..j]
    ensures Firsts(RemoveAt(xs, j), RemoveAt(v, j)) == Firsts(xs, v)
  {
    hide Firsts;
    var n := |v| - 1;
    FirstsInit(xs, v, n);
    if j == n {
      assert RemoveAt(xs, j) == xs[..n] && RemoveAt(v, j) == v[..n];
    } else {
      assert v[..n][..j] == v[..j];
      FirstsAbsorbsRemoval(xs[..n], v[..n], j);
      RemoveAtInit(xs, j);
      RemoveAtInit(v, j);
      RemoveAtMembers(v[..n], j, v[n]);
      FirstsInit(RemoveAt(xs, j), RemoveAt(v, j), n - 1);
    }
  }

  /** Inserting x anywhere after an x is absorbed by a purge. */
  lemma DedupAbsorbsInsertion(v: seq<int>, i: nat, x: int)
    requires i <= |v| && x in v[..i]
    ensures Dedup(InsertAt(v, i, x)) == Dedup(v)
  {
    var w := InsertAt(v, i, x);
    assert w[..i] == v[..i];
    assert RemoveAt(w, i) == v;
    FirstsAbsorbsRemoval(w, w, i);
  }

  // ----- Keeping last occurrences -----

  /** The elements of xs at the positions where v holds a value that does not recur later. */
  function Lasts<T>(xs: seq<T>, v: seq<int>): (r: seq<T>)
    requires |xs| == |v|
  {
    if v == [] then []
    else (if v[0] in v[1..] then [] else [xs[0]]) + Lasts(xs[1..], v[1..])
  }

  /** Reverse, purge, reverse keeps exactly the last occurrences, in their original order. */
  lemma {:induction false} RevFirstsRev<T>(xs: seq<T>, v: seq<int>)
    requires |xs| == |v|
    ensures Rev(Firsts(Rev(xs), Rev(v))) == Lasts(xs, v)
  {
    if v == [] {
    } else {
      var xs', v' := xs[1..], v[1..];
      RevFirstsRev(xs', v');
      RevConcat([xs[0]], xs');
      RevConcat([v[0]], v');
      assert xs == [xs[0]] + xs' && v == [v[0]] + v';
      assert Rev([xs[0]]) == [xs[0]] && Rev([v[0]]) == [v[0]];
      RevMembers(v', v[0]);
      var tail := if v[0] in v' then [] else [xs[0]];
      assert Rev(xs)[..|v'|] == Rev(xs') && Rev(v)[..|v'|] == Rev(v');
      assert Firsts(Rev(xs), Rev(v)) == Firsts(Rev(xs'), Rev(v')) + tail;
      RevConcat(Firsts(Rev(xs'), Rev(v')), tail);
      assert Rev(tail) == tail;
    }
  }

  // ----- Comparisons made by a purge -----

  /** 0 + 1 + ... + (n-1). */
  function Tri(n: nat): nat {
    if n == 0 then 0 else Tri(n - 1) + n - 1
  }

  lemma {:induction false} TriClosed(n: nat)
    ensures 2 * Tri(n) == n * (n - 1)
  {
    if n == 0 {
    } else {
      TriClosed(n - 1);
    }
  }

  /** The comparisons of the first k passes over n nodes when none is removed. */
  function Passes(n: int, k: nat): int {
    if k == 0 then 0 else Passes(n, k - 1) + n - k
  }

  lemma {:induction false} PassesOfFewer(n: int, k: nat)
    ensures Passes(n - 1, k) == Passes(n, k) - k
  {
    if k == 0 {
    } else {
      PassesOfFewer(n, k - 1);
    }
  }

  lemma {:induction false} AllPasses(n: nat)
    ensures Passes(n, n) == Tri(n)
  {
    if n == 0 {
    } else {
      AllPasses(n - 1);
      PassesOfFewer(n, n - 1);
    }
  }

  lemma {:induction false} PassesClosed(n: int, k: nat)
    ensures 2 * Passes(n, k) == 2 * k * n - k * (k + 1)
  {
    if k == 0 {
    } else {
      PassesClosed(n, k - 1);
      assert 2 * k * n == 2 * (k - 1) * n + 2 * n;
    }
  }

  /** How often the last element of v is compared as the candidate for removal: once for each
      distinct value that comes before its own in first-occurrence order, and once more, the
      comparison that removes it, when its value occurred before. */
  function Charge(v: seq<int>): nat
    requires v != []
  {
    var n := |v| - 1;
    FirstIndex(Dedup(v), v[n]) + if v[n] in v[..n] then 1 else 0
  }

  /** The charges of all elements. */
  function Work(v: seq<int>): nat {
    if v == [] then 0 else Work(v[..|v| - 1]) + Charge(v)
  }

  lemma FirstIndexUnique(d: seq<int>, k: nat)
    requires Distinct(d) && k < |d|
    ensures FirstIndex(d, d[k]) == k
  {
  }

  lemma FirstIndexPrefix(a: seq<int>, b: seq<int>, x: int)
    requires x in a
    ensures FirstIndex(a + b, x) == FirstIndex(a, x)
  {
    var i := FirstIndex(a, x);
    assert (a + b)[i] == x;
    assert forall m :: 0 <= m < i ==> (a + b)[m] == a[m];
  }

  lemma DedupExtends(v: seq<int>)
    requires v != []
    ensures Dedup(v) == Dedup(v[..|v| - 1]) + if v[|v| - 1] in v[..|v| - 1] then [] else [v[|v| - 1]]
  {
  }

  lemma ChargeOfRemoval(v: seq<int>, j: nat)
    requires j < |v| - 1 && v[j] in v[..j]
    ensures RemoveAt(v, j) != [] && Charge(RemoveAt(v, j)) == Charge(v)
    ensures Work(RemoveAt(v, j)) == Work(RemoveAt(v[..|v| - 1], j)) + Charge(v)
  {
    hide Firsts, FirstIndex;
    RemoveAtInit(v, j);
    assert v[..|v| - 1][..j] == v[..j];
    RemoveAtMembers(v[..|v| - 1], j, v[|v| - 1]);
    FirstsAbsorbsRemoval(v, v, j);
  }

  /** Dropping a repeated element saves exactly its own charge. */
  lemma {:induction false} WorkOfRemoval(v: seq<int>, j: nat)
    requires j < |v| && v[j] in v[..j]
    ensures Work(v) == Work(RemoveAt(v, j)) + FirstIndex(Dedup(v), v[j]) + 1
  {
    var n := |v| - 1;
    if j == n {
      assert RemoveAt(v, j) == v[..n];
    } else {
      assert v[..n][..j] == v[..j];
      WorkOfRemoval(v[..n], j);
      ChargeOfRemoval(v, j);
      DedupMembers(v[..n], v[j]);
      DedupExtends(v);
      FirstIndexPrefix(Dedup(v[..n]), Dedup(v)[|Dedup(v[..n])|..], v[j]);
    }
  }

  lemma {:induction false} WorkOfDistinct(v: seq<int>)
    requires Distinct(v)
    ensures Work(v) == Tri(|v|)
  {
    if v == [] {
    } else {
      WorkOfDistinct(v[..|v| - 1]);
      FirstsOfDistinct(v, v);
      FirstIndexUnique(v, |v| - 1);
    }
  }

  lemma ChargeBounds(v: seq<int>)
    requires v != []
    ensures var k := |Dedup(v[..|v| - 1])|;
            if v[|v| - 1] in v[..|v| - 1] then |Dedup(v)| == k && 1 <= Charge(v) <= k
            else |Dedup(v)| == k + 1 && Charge(v) == k
  {
    var n := |v| - 1;
    DedupExtends(v);
    DedupMembers(v[..n], v[n]);
    if v[n] !in v[..n] {
      DedupDistinct(v);
      FirstIndexUnique(Dedup(v), |Dedup(v[..n])|);
    }
  }

  /** With n elements and k distinct values a purge takes between k(k-1)/2 + (n-k) and
      k*n - k(k+1)/2 comparisons. */
  lemma {:induction false} WorkBounds(v: seq<int>)
    ensures Tri(|Dedup(v)|) + |v| - |Dedup(v)| <= Work(v) <= Passes(|v|, |Dedup(v)|)
  {
    if v == [] {
    } else {
      var n := |v| - 1;
      WorkBounds(v[..n]);
      ChargeBounds(v);
      PassesOfFewer(|v|, |Dedup(v[..n])|);
    }
  }

  /** The same bounds in closed form, and the exact count when all values are distinct. */
  lemma ComparisonBounds(v: seq<int>)
    ensures var n, k := |v|, |Dedup(v)|;
      && k * (k - 1) + 2 * (n - k) <= 2 * Work(v) <= 2 * k * n - k * (k + 1)
      && (Distinct(v) ==> 2 * Work(v) == n * (n - 1))
  {
    var n, k := |v|, |Dedup(v)|;
    WorkBounds(v);
    TriClosed(k);
    TriClosed(n);
    PassesClosed(n, k);
    if Distinct(v) {
      WorkOfDistinct(v);
    }
  }

  /** Distinct values first, and then only copies of the last of them. */
  ghost predicate OnlyLastRepeats(v: seq<int>, k: nat) {
    && k <= |v| && Distinct(v[..k]) && (v != [] ==> k > 0)
    && forall i :: k <= i < |v| ==> v[i] == v[k - 1]
  }

  lemma {:induction false} OnlyLastRepeatsDedup(v: seq<int>, k: nat)
    requires OnlyLastRepeats(v, k)
    ensures Dedup(v) == v[..k]
  {
    if |v| == k {
      assert v[..k] == v;
      FirstsOfDistinct(v, v);
    } else {
      var n := |v| - 1;
      assert v[..n][..k] == v[..k];
      OnlyLastRepeatsDedup(v[..n], k);
      assert v[n] == v[..n][k - 1];
      DedupExtends(v);
    }
  }

  /** The upper bound is met exactly when only the last distinct value is ever repeated. */
  lemma {:induction false} WorkMaximal(v: seq<int>)
    ensures Work(v) == Passes(|v|, |Dedup(v)|) <==> OnlyLastRepeats(v, |Dedup(v)|)
  {
    if v == [] {
    } else {
      hide Firsts, OnlyLastRepeats, Charge;
      var n := |v| - 1;
      var w, k := v[..n], |Dedup(v[..n])|;
      WorkMaximal(w);
      WorkBounds(w);
      ChargeBounds(v);
      PassesOfFewer(|v|, k);
      if v[n] in w {
        RepeatStep(v);
      } else {
        NewStep(v);
      }
    }
  }

  lemma LastRank(d: seq<int>, x: int)
    requires Distinct(d) && x in d
    ensures FirstIndex(d, x) == |d| - 1 <==> x == d[|d| - 1]
  {
    if x == d[|d| - 1] {
      FirstIndexUnique(d, |d| - 1);
    }
  }

  lemma OnlyLastRepeatsSnoc(w: seq<int>, k: nat, x: int)
    requires 0 < k <= |w|
    ensures OnlyLastRepeats(w + [x], k) <==> OnlyLastRepeats(w, k) && x == w[k - 1]
  {
    assert (w + [x])[..k] == w[..k];
    if OnlyLastRepeats(w + [x], k) {
      assert (w + [x])[|w|] == x;
      assert forall i :: 0 <= i < |w| ==> w[i] == (w + [x])[i];
    }
  }

  lemma RepeatStep(v: seq<int>)
    requires v != [] && v[|v| - 1] in v[..|v| - 1]
    ensures var w := v[..|v| - 1];
            OnlyLastRepeats(v, |Dedup(w)|) <==> OnlyLastRepeats(w, |Dedup(w)|) && Charge(v) == |Dedup(w)|
  {
    hide Firsts, OnlyLastRepeats, FirstIndex;
    var n := |v| - 1;
    var w, x := v[..n], v[n];
    var d := Dedup(w);
    DedupExtends(v);
    DedupMembers(w, x);
    DedupDistinct(w);
    assert v == w + [x] && |d| <= |w|;
    OnlyLastRepeatsSnoc(w, |d|, x);
    LastRank(d, x);
    if OnlyLastRepeats(w, |d|) {
      OnlyLastRepeatsDedup(w, |d|);
      assert d[|d| - 1] == w[|d| - 1];
    }
  }

  lemma NewStep(v: seq<int>)
    requires v != [] && v[|v| - 1] !in v[..|v| - 1]
    ensures var w := v[..|v| - 1]; var k := |Dedup(w)|;
            OnlyLastRepeats(v, k + 1) <==> OnlyLastRepeats(w, k) && k == |w|
  {
    var n := |v| - 1;
    var w := v[..n];
    var k := |Dedup(w)|;
    if k == n {
      assert v[..n + 1] == v;
    } else {
      assert v[k] in w;
    }
  }
}
