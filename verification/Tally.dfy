/** Sums of a weight over the members of a sequence. */
module Tally {
  function Sum<T>(s: seq<T>, w: T -> int): int {
    if s == [] then 0 else Sum(s[..|s| - 1], w) + w(s[|s| - 1])
  }

  /** Changing one member changes the sum by the difference of its weights. */
  lemma {:induction false} SumUpdate<T>(s: seq<T>, w: T -> int, i: nat, x: T)
    requires i < |s|
    ensures Sum(s[i := x], w) == Sum(s, w) - w(s[i]) + w(x)
  {
    var n := |s| - 1;
    if i == n {
      assert s[i := x][..n] == s[..n];
    } else {
      SumUpdate(s[..n], w, i, x);
      assert s[i := x][..n] == s[..n][i := x];
    }
  }

  /** Bounds on each weight bound the sum; the sum of natural weights is zero only if all are. */
  lemma {:induction false} SumBounds<T>(s: seq<T>, w: T -> int, hi: nat)
    requires forall i :: 0 <= i < |s| ==> 0 <= w(s[i]) <= hi
    ensures 0 <= Sum(s, w) <= hi * |s|
    ensures Sum(s, w) == 0 <==> forall i :: 0 <= i < |s| ==> w(s[i]) == 0
  {
    if s == [] {
    } else {
      var n := |s| - 1;
      SumBounds(s[..n], w, hi);
      assert hi * |s| == hi * n + hi;
    }
  }

  lemma {:induction false} SumCompare<T, U>(s: seq<T>, v: T -> int, t: seq<U>, w: U -> int)
    requires |s| == |t| && forall i :: 0 <= i < |s| ==> v(s[i]) <= w(t[i])
    ensures Sum(s, v) <= Sum(t, w)
  {
    if s == [] {
    } else {
      SumCompare(s[..|s| - 1], v, t[..|t| - 1], w);
    }
  }

  lemma {:induction false} SumSame<T, U>(s: seq<T>, v: T -> int, t: seq<U>, w: U -> int)
    requires |s| == |t| && forall i :: 0 <= i < |s| ==> v(s[i]) == w(t[i])
    ensures Sum(s, v) == Sum(t, w)
  {
    if s == [] {
    } else {
      SumSame(s[..|s| - 1], v, t[..|t| - 1], w);
    }
  }
}
