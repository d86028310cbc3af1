/** Any number of callers repeating the P;V body of the program's loop on one semaphore, in any
    interleaving. */
module SemRounds {
  import opened Semaphore
  import opened Tally

  /** A caller outside its body, with so many rounds left to do, or between its P and its V. */
  datatype Caller = Outside(left: nat) | Between(left: nat)

  datatype State = State(val: nat, callers: seq<Caller>, okP: nat, okV: nat, failP: nat, failV: nat)

  ghost function Init(val: nat, rounds: seq<nat>): State {
    State(val, seq(|rounds|, i requires 0 <= i < |rounds| => Outside(rounds[i])), 0, 0, 0, 0)
  }

  predicate Enabled(s: State, t: nat) {
    t < |s.callers| && s.callers[t] != Outside(0)
  }

  /** The next call of caller t.  Its result is ignored, as in the program. */
  function Step(max: nat, s: State, t: nat): State
    requires Enabled(s, t)
  {
    match s.callers[t]
    case Outside(left) =>
      var ok := Succeeds(max, s.val, P_OP);
      s.(val := Semop(max, s.val, P_OP), callers := s.callers[t := Between(left - 1)],
      okP := s.okP + if ok then 1 else 0, failP := s.failP + if ok then 0 else 1)
    case Between(left) =>
      var ok := Succeeds(max, s.val, V_OP);
      s.(val := Semop(max, s.val, V_OP), callers := s.callers[t := Outside(left)],
      okV := s.okV + if ok then 1 else 0, failV := s.failV + if ok then 0 else 1)
  }

  /** The calls run in the order of the schedule. */
  ghost predicate Runs(max: nat, s: State, sched: seq<nat>, s': State)
    decreases |sched|
  {
    if sched == [] then s' == s
    else Enabled(s, sched[0]) && Runs(max, Step(max, s, sched[0]), sched[1..], s')
  }

  ghost predicate Finished(s: State) {
    forall t :: 0 <= t < |s.callers| ==> s.callers[t] == Outside(0)
  }

  // ----- Counting callers -----

  function Inside(c: Caller): int {
    if c.Between? then 1 else 0
  }

  /** A caller that is between its calls, or still has rounds to do. */
  function Active(c: Caller): int {
    if c == Outside(0) then 0 else 1
  }

  /** The calls a caller still has to make. */
  function Remaining(c: Caller): int {
    match c
    case Outside(left) => 2 * left
    case Between(left) => 2 * left + 1
  }

  function HasRounds(r: nat): int {
    if r > 0 then 1 else 0
  }

  function Itself(r: nat): int {
    r
  }

  function Twice(r: nat): int {
    2 * r
  }

  // ----- Conservation, without any assumption -----

  /** Successful calls account for the value; a failed P or V is what separates a caller's pair. */
  ghost predicate Conserved(max: nat, v: nat, total: int, s: State) {
    && s.val <= max
    && s.val + s.okV == v + s.okP
    && s.okP + s.failP == s.okV + s.failV + Sum(s.callers, Inside)
    && s.okP + s.failP + s.okV + s.failV + Sum(s.callers, Remaining) == total
  }

  lemma StepConserves(max: nat, v: nat, total: int, s: State, t: nat)
    requires Conserved(max, v, total, s) && Enabled(s, t)
    ensures Conserved(max, v, total, Step(max, s, t))
  {
    var c' := Step(max, s, t).callers[t];
    SumUpdate(s.callers, Inside, t, c');
    SumUpdate(s.callers, Remaining, t, c');
  }

  lemma InitSums(v: nat, rounds: seq<nat>)
    ensures var cs := Init(v, rounds).callers;
      && Sum(cs, Inside) == 0 && Sum(cs, Active) == Sum(rounds, HasRounds)
      && Sum(cs, Remaining) == 2 * Sum(rounds, Itself)
  {
    var cs := Init(v, rounds).callers;
    SumBounds(cs, Inside, 1);
    SumSame(cs, Active, rounds, HasRounds);
    SumSame(cs, Remaining, rounds, Twice);
    Doubled(rounds);
  }

  lemma {:induction false} Doubled(rounds: seq<nat>)
    ensures Sum(rounds, Twice) == 2 * Sum(rounds, Itself)
  {
    if rounds == [] {
    } else {
      Doubled(rounds[..|rounds| - 1]);
    }
  }

  lemma {:induction false} RunConserves(max: nat, v: nat, total: int, s: State, sched: seq<nat>, s': State)
    requires Conserved(max, v, total, s) && Runs(max, s, sched, s')
    ensures Conserved(max, v, total, s')
    decreases |sched|
  {
    if sched == [] {
    } else {
      StepConserves(max, v, total, s, sched[0]);
      RunConserves(max, v, total, Step(max, s, sched[0]), sched[1..], s');
    }
  }

  /** In every run from every initial value: the value stays within its bounds and is the initial
      one plus successful Ps minus successful Vs; every scheduled call has been made; and once
      all callers have finished, which they do after exactly two calls per round, the value is
      off by exactly the failures. */
  lemma Conservation(max: nat, v: nat, rounds: seq<nat>, sched: seq<nat>, s: State)
    requires v <= max && Runs(max, Init(v, rounds), sched, s)
    ensures 0 <= s.val <= max && s.val == v + s.okP - s.okV
    ensures |sched| == s.okP + s.failP + s.okV + s.failV <= 2 * Sum(rounds, Itself)
    ensures Finished(s) <==> |sched| == 2 * Sum(rounds, Itself)
    ensures Finished(s) ==> s.val == v - s.failP + s.failV
  {
    var total := 2 * Sum(rounds, Itself);
    InitSums(v, rounds);
    RunConserves(max, v, total, Init(v, rounds), sched, s);
    CallsCounted(max, Init(v, rounds), sched, s);
    ZeroWeights(s.callers);
  }

  lemma {:induction false} CallsCounted(max: nat, s: State, sched: seq<nat>, s': State)
    requires Runs(max, s, sched, s')
    ensures s'.okP + s'.failP + s'.okV + s'.failV == s.okP + s.failP + s.okV + s.failV + |sched|
    decreases |sched|
  {
    if sched == [] {
    } else {
      CallsCounted(max, Step(max, s, sched[0]), sched[1..], s');
    }
  }

  lemma {:induction false} ZeroWeights(cs: seq<Caller>)
    ensures Sum(cs, Remaining) >= 0
    ensures Sum(cs, Remaining) == 0 <==> forall t :: 0 <= t < |cs| ==> cs[t] == Outside(0)
    ensures Sum(cs, Remaining) == 0 ==> Sum(cs, Inside) == 0
  {
    if cs == [] {
    } else {
      ZeroWeights(cs[..|cs| - 1]);
    }
  }

  // ----- Every interleaving, and what the kernel makes of it -----

  /** The calls done so far tell where every caller is. */
  ghost predicate Told(rounds: seq<nat>, done: seq<nat>, s: State) {
    && |s.callers| == |rounds| && (forall t :: t in done ==> t < |rounds|)
    && forall t :: 0 <= t < |rounds| ==> ToldAt(multiset(done)[t], rounds[t], s.callers[t])
  }

  predicate ToldAt(calls: nat, r: nat, c: Caller) {
    match c
    case Outside(left) => calls + 2 * left == 2 * r
    case Between(left) => calls + 2 * left + 1 == 2 * r
  }

  lemma TellsStep(max: nat, rounds: seq<nat>, done: seq<nat>, s: State, t: nat)
    requires Told(rounds, done, s) && Enabled(s, t)
    ensures Told(rounds, done + [t], Step(max, s, t))
  {
    assert multiset(done + [t]) == multiset(done) + multiset{t};
  }

  lemma {:induction false} TellsRun(max: nat, rounds: seq<nat>, done: seq<nat>, s: State, sched: seq<nat>, s': State)
    requires Told(rounds, done, s) && Runs(max, s, sched, s')
    ensures Told(rounds, done + sched, s')
    decreases |sched|
  {
    if sched == [] {
      assert done + sched == done;
    } else {
      TellsStep(max, rounds, done, s, sched[0]);
      assert done + sched == (done + [sched[0]]) + sched[1..];
      TellsRun(max, rounds, done + [sched[0]], Step(max, s, sched[0]), sched[1..], s');
    }
  }

  lemma InitTold(v: nat, rounds: seq<nat>)
    ensures Told(rounds, [], Init(v, rounds))
  {
  }

  lemma {:induction false} RunsAppend(max: nat, s: State, a: seq<nat>, mid: State, b: seq<nat>, s': State)
    requires Runs(max, s, a, mid) && Runs(max, mid, b, s')
    ensures Runs(max, s, a + b, s')
    decreases |a|
  {
    if a == [] {
      assert a + b == b;
    } else {
      RunsAppend(max, Step(max, s, a[0]), a[1..], mid, b, s');
      assert (a + b)[1..] == a[1..] + b;
    }
  }

  /** Only callers with at most two calls for each of their rounds. */
  predicate Fits(rounds: seq<nat>, sched: seq<nat>) {
    forall t :: t in sched ==> t < |rounds| && multiset(sched)[t] <= 2 * rounds[t]
  }

  ghost predicate CanRun(max: nat, v: nat, rounds: seq<nat>, sched: seq<nat>) {
    exists s :: Runs(max, Init(v, rounds), sched, s)
  }

  lemma ToldFits(rounds: seq<nat>, done: seq<nat>, s: State)
    requires Told(rounds, done, s)
    ensures Fits(rounds, done)
  {
    forall t | t in done
      ensures t < |rounds| && multiset(done)[t] <= 2 * rounds[t]
    {
      assert ToldAt(multiset(done)[t], rounds[t], s.callers[t]);
    }
  }

  /** A schedule runs exactly when no caller has more than two calls per round in it: no
      interleaving is left out. */
  lemma EveryInterleaving(max: nat, v: nat, rounds: seq<nat>, sched: seq<nat>)
    ensures CanRun(max, v, rounds, sched) <==> Fits(rounds, sched)
  {
    hide Told, Init, Fits;
    if Fits(rounds, sched) {
      var s := RunOf(max, v, rounds, sched);
    } else if CanRun(max, v, rounds, sched) {
      var s :| Runs(max, Init(v, rounds), sched, s);
      InitTold(v, rounds);
      TellsRun(max, rounds, [], Init(v, rounds), sched, s);
      assert [] + sched == sched;
      ToldFits(rounds, sched, s);
      assert false;
    }
  }

  lemma {:induction false} RunOf(max: nat, v: nat, rounds: seq<nat>, sched: seq<nat>) returns (s: State)
    requires Fits(rounds, sched)
    ensures Runs(max, Init(v, rounds), sched, s) && Told(rounds, sched, s)
  {
    InitTold(v, rounds);
    if sched == [] {
      s := Init(v, rounds);
    } else {
      var before, t := sched[..|sched| - 1], sched[|sched| - 1];
      assert sched == before + [t];
      assert multiset(sched) == multiset(before) + multiset{t};
      assert t in sched && forall u :: u in before ==> u in sched;
      var mid := RunOf(max, v, rounds, before);
      assert ToldAt(multiset(before)[t], rounds[t], mid.callers[t]);
      s := Step(max, mid, t);
      TellsStep(max, rounds, before, mid, t);
      assert Runs(max, s, [t][1..], s);
      RunsAppend(max, Init(v, rounds), before, mid, [t], s);
    }
  }

  /** The calls of the wrappers that a schedule stands for: each caller makes a P and a V in turn. */
  function CallsOf(sched: seq<nat>): (calls: seq<Call>)
    ensures |calls| == |sched|
  {
    seq(|sched|, k requires 0 <= k < |sched| =>
      if multiset(sched[..k])[sched[k]] % 2 == 0 then P(SEMID) else V(SEMID))
  }

  ghost predicate Served(max: nat, v: nat, sched: seq<nat>, k: nat, s: State)
    requires k <= |sched|
  {
    var calls, start := CallsOf(sched), Sem(true, v);
    && After(max, start, calls, k) == Sem(true, s.val)
    && s.okP == Successes(calls, Replies(max, start, calls), P(SEMID), 0, k)
    && s.okV == Successes(calls, Replies(max, start, calls), V(SEMID), 0, k)
  }

  function CallOf(c: Caller): Call {
    if c.Outside? then P(SEMID) else V(SEMID)
  }

  lemma SameCall(max: nat, s: State, t: nat)
    requires Enabled(s, t)
    ensures var (sem, reply) := Apply(max, Sem(true, s.val), CallOf(s.callers[t]));
            var s' := Step(max, s, t);
            && sem == Sem(true, s'.val)
            && s'.okP == s.okP + (if s.callers[t].Outside? && reply == Returned(0) then 1 else 0)
            && s'.okV == s.okV + (if s.callers[t].Between? && reply == Returned(0) then 1 else 0)
  {
  }

  lemma CallsAgree(rounds: seq<nat>, sched: seq<nat>, k: nat, s: State)
    requires k < |sched| && Told(rounds, sched[..k], s) && Enabled(s, sched[k])
    ensures CallsOf(sched)[k] == CallOf(s.callers[sched[k]])
  {
    assert ToldAt(multiset(sched[..k])[sched[k]], rounds[sched[k]], s.callers[sched[k]]);
  }

  lemma ServedStep(max: nat, v: nat, sched: seq<nat>, k: nat, s: State)
    requires k < |sched| && Enabled(s, sched[k]) && Served(max, v, sched, k, s)
    requires CallsOf(sched)[k] == CallOf(s.callers[sched[k]])
    ensures Served(max, v, sched, k + 1, Step(max, s, sched[k]))
  {
    hide Apply, Step, CallsOf;
    SameCall(max, s, sched[k]);
  }

  lemma {:induction false} ServedRun(max: nat, v: nat, rounds: seq<nat>, sched: seq<nat>, k: nat, s: State, s': State)
    requires k <= |sched| && Told(rounds, sched[..k], s) && Served(max, v, sched, k, s)
    requires Runs(max, s, sched[k..], s')
    ensures Served(max, v, sched, |sched|, s')
    decreases |sched| - k
  {
    hide Served, Told, Step, Enabled;
    if k == |sched| {
    } else {
      assert sched[k..][0] == sched[k] && sched[k..][1..] == sched[k + 1..];
      assert Runs(max, Step(max, s, sched[k]), sched[k + 1..], s');
      assert sched[..k + 1] == sched[..k] + [sched[k]];
      hide *;
      TellsStep(max, rounds, sched[..k], s, sched[k]);
      CallsAgree(rounds, sched, k, s);
      ServedStep(max, v, sched, k, s);
      ServedRun(max, v, rounds, sched, k + 1, Step(max, s, sched[k]), s');
    }
  }

  /** In every interleaving the value, and the numbers of successful calls, are those of the
      kernel that serves the callers' calls in that order. */
  lemma ServedByKernel(max: nat, v: nat, rounds: seq<nat>, sched: seq<nat>, s: State)
    requires Runs(max, Init(v, rounds), sched, s)
    ensures var calls, start := CallsOf(sched), Sem(true, v);
            var replies := Replies(max, start, calls);
            && After(max, start, calls, |sched|) == Sem(true, s.val)
            && s.okP == Successes(calls, replies, P(SEMID), 0, |sched|)
            && s.okV == Successes(calls, replies, V(SEMID), 0, |sched|)
  {
    InitTold(v, rounds);
    assert sched[..0] == [] && sched[0..] == sched;
    ServedRun(max, v, rounds, sched, 0, Init(v, rounds), s);
  }

  // ----- Balanced use: no call ever fails exactly when there is room for every caller -----

  /** With room for all active callers no call has failed, and the value is the initial one plus
      the callers between their two calls. */
  ghost predicate Balanced(v: nat, s: State) {
    s.failP == 0 && s.failV == 0 && s.val == v + Sum(s.callers, Inside)
  }

  lemma StepBalanced(max: nat, v: nat, s: State, t: nat)
    requires Balanced(v, s) && v + Sum(s.callers, Active) <= max && Enabled(s, t)
    ensures Balanced(v, Step(max, s, t))
    ensures Sum(Step(max, s, t).callers, Active) <= Sum(s.callers, Active)
  {
    var c' := Step(max, s, t).callers[t];
    SumUpdate(s.callers, Inside, t, c');
    SumUpdate(s.callers, Active, t, c');
    SumUpdate(s.callers, Inside, t, Between(0));
    SumCompare(s.callers[t := Between(0)], Inside, s.callers, Active);
    SumBounds(s.callers, Inside, 1);
    if s.callers[t].Between? {
      SumUpdate(s.callers, Inside, t, Outside(0));
      SumBounds(s.callers[t := Outside(0)], Inside, 1);
    }
  }

  lemma {:induction false} RunBalanced(max: nat, v: nat, s: State, sched: seq<nat>, s': State)
    requires Balanced(v, s) && v + Sum(s.callers, Active) <= max && Runs(max, s, sched, s')
    ensures Balanced(v, s')
    decreases |sched|
  {
    if sched == [] {
    } else {
      StepBalanced(max, v, s, sched[0]);
      RunBalanced(max, v, Step(max, s, sched[0]), sched[1..], s');
    }
  }

  /** The schedule in which each of the first k callers that has a round makes its P. */
  ghost function AllP(rounds: seq<nat>, k: nat): (sched: seq<nat>)
    requires k <= |rounds|
  {
    if k == 0 then [] else AllP(rounds, k - 1) + if rounds[k - 1] > 0 then [k - 1] else []
  }

  /** When all first k callers have made their P, those beyond the maximum have failed. */
  lemma {:induction false} AllPRuns(max: nat, v: nat, rounds: seq<nat>, k: nat) returns (s: State)
    requires v <= max && k <= |rounds|
    ensures Runs(max, Init(v, rounds), AllP(rounds, k), s)
    ensures |s.callers| == |rounds| && forall t :: k <= t < |rounds| ==> s.callers[t] == Outside(rounds[t])
    ensures s.val <= max && s.failV == 0
    ensures s.val + s.failP == v + Sum(rounds[..k], HasRounds)
  {
    if k == 0 {
      s := Init(v, rounds);
    } else {
      var r := AllPRuns(max, v, rounds, k - 1);
      assert rounds[..k][..k - 1] == rounds[..k - 1];
      if rounds[k - 1] > 0 {
        s := Step(max, r, k - 1);
        assert Runs(max, s, [k - 1][1..], s);
        assert Runs(max, r, [k - 1], s);
        RunsAppend(max, Init(v, rounds), AllP(rounds, k - 1), r, [k - 1], s);
      } else {
        s := r;
        assert AllP(rounds, k - 1) + [] == AllP(rounds, k - 1);
      }
    }
  }

  ghost predicate NoCallEverFails(max: nat, v: nat, rounds: seq<nat>) {
    forall sched, s :: Runs(max, Init(v, rounds), sched, s) ==> s.failP == 0 && s.failV == 0
  }

  /** No call fails in any interleaving exactly when the initial value leaves room for every
      caller that has a round to do; then the value at every moment is the initial one plus the
      callers between their calls, and it is the initial one when all have finished. */
  lemma BalancedRounds(max: nat, v: nat, rounds: seq<nat>)
    requires v <= max
    ensures NoCallEverFails(max, v, rounds) <==> v + Sum(rounds, HasRounds) <= max
    ensures v + Sum(rounds, HasRounds) <= max ==>
              forall sched, s :: Runs(max, Init(v, rounds), sched, s) ==>
                && s.val == v + Sum(s.callers, Inside)
                && (Finished(s) ==> s.val == v)
  {
    InitSums(v, rounds);
    if v + Sum(rounds, HasRounds) <= max {
      forall sched, s | Runs(max, Init(v, rounds), sched, s)
        ensures Balanced(v, s) && (Finished(s) ==> s.val == v)
      {
        RunBalanced(max, v, Init(v, rounds), sched, s);
        ZeroWeights(s.callers);
      }
    } else {
      var s := AllPRuns(max, v, rounds, |rounds|);
      assert rounds[..|rounds|] == rounds;
      assert s.failP > 0;
    }
  }

  /** After a balanced run one further V takes one off a positive value. */
  lemma OneMoreV(max: nat, v: nat, rounds: seq<nat>, sched: seq<nat>, s: State)
    requires v + Sum(rounds, HasRounds) <= max && v <= max
    requires Runs(max, Init(v, rounds), sched, s) && Finished(s)
    ensures Semop(max, s.val, V_OP) == if v >= 1 then v - 1 else v
  {
    BalancedRounds(max, v, rounds);
  }
}
