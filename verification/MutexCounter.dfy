/** Producers and consumers that update a shared counter under a mutex until a flag stops them,
    with ++ and -- split into a load and a store. */
module MutexCounter {
  import opened Tally

  /** Threads 0..producers-1 produce, the others consume. */
  datatype Config = Config(producers: nat, consumers: nat) {
    function Threads(): nat {
      producers + consumers
    }

    /** What one update of thread t adds to the counter. */
    function Delta(t: nat): int {
      if t < producers then 1 else -1
    }

    /** Consumers are joined first. */
    function JoinTarget(k: nat): nat
      requires k < Threads()
    {
      if k < consumers then producers + k else k - consumers
    }
  }

  /** The next thing a thread does; AtStore carries the loaded value and AtPrint the value the
      print loaded. */
  datatype Pc =
    | Unborn
    | AtWhile
    | AtLock
    | AtLoad
    | AtStore(reg: int)
    | AtPrintLoad
    | AtPrint(shown: int)
    | AtUnlock
    | Exited

  datatype MainPc = Creating(k: nat) | Joining(k: nat) | Destroyed

  datatype Owner = Free | HeldBy(t: nat)

  /** One printed line: who printed, and the sum shown. */
  datatype Line = Line(t: nat, sum: int)

  /** stores is the history of completed updates, in order. */
  datatype State = State(
    main: MainPc, running: bool, owner: Owner, buffer: int, pcs: seq<Pc>, stores: seq<nat>, log: seq<Line>)

  datatype Actor = Main | Thread(t: nat)

  ghost function Init(c: Config): State {
    State(Creating(0), true, Free, 0, seq(c.Threads(), i => Unborn), [], [])
  }

  predicate ThreadEnabled(s: State, t: nat) {
    && t < |s.pcs|
    && match s.pcs[t]
       case Unborn => false
       case Exited => false
       case AtLock => s.owner == Free
       case _ => true
  }

  predicate Enabled(c: Config, s: State, a: Actor) {
    match a
    case Thread(t) => ThreadEnabled(s, t)
    case Main =>
      match s.main
      case Creating(k) => |s.pcs| == c.Threads()
      case Joining(k) =>
        k < c.Threads() ==> c.JoinTarget(k) < |s.pcs| && s.pcs[c.JoinTarget(k)] == Exited
      case Destroyed => false
  }

  function ThreadStep(c: Config, s: State, t: nat): State
    requires ThreadEnabled(s, t)
  {
    match s.pcs[t]
    case AtWhile => s.(pcs := s.pcs[t := if s.running then AtLock else Exited])
    case AtLock => s.(pcs := s.pcs[t := AtLoad], owner := HeldBy(t))
    case AtLoad => s.(pcs := s.pcs[t := AtStore(s.buffer)])
    case AtStore(reg) => s.(pcs := s.pcs[t := AtPrintLoad], buffer := reg + c.Delta(t), stores := s.stores + [t])
    case AtPrintLoad => s.(pcs := s.pcs[t := AtPrint(s.buffer)])
    case AtPrint(shown) => s.(pcs := s.pcs[t := AtUnlock], log := s.log + [Line(t, shown)])
    case AtUnlock => s.(pcs := s.pcs[t := AtWhile], owner := Free)
  }

  /** Creates the threads in order, stops them, joins them all, destroys the mutex. */
  function MainStep(c: Config, s: State): State
    requires Enabled(c, s, Main)
  {
    match s.main
    case Creating(k) =>
      if k < c.Threads() then s.(pcs := s.pcs[k := AtWhile], main := Creating(k + 1))
      else s.(running := false, main := Joining(0))
    case Joining(k) => s.(main := if k < c.Threads() then Joining(k + 1) else Destroyed)
  }

  function Step(c: Config, s: State, a: Actor): State
    requires Enabled(c, s, a)
  {
    match a
    case Main => MainStep(c, s)
    case Thread(t) => ThreadStep(c, s, t)
  }

  ghost predicate Runs(c: Config, s: State, sched: seq<Actor>, s': State)
    decreases |sched|
  {
    if sched == [] then s' == s
    else Enabled(c, s, sched[0]) && Runs(c, Step(c, s, sched[0]), sched[1..], s')
  }

  // ----- The invariant -----

  /** Between lock and unlock. */
  predicate Inside(pc: Pc) {
    pc.AtLoad? || pc.AtStore? || pc.AtPrintLoad? || pc.AtPrint? || pc.AtUnlock?
  }

  /** Updates by producers minus updates by consumers. */
  function Net(c: Config, stores: seq<nat>): int {
    if stores == [] then 0 else Net(c, stores[..|stores| - 1]) + c.Delta(stores[|stores| - 1])
  }

  /** Line k is printed by the thread of update k and shows the net number of updates so far. */
  ghost predicate LogMatches(c: Config, log: seq<Line>, stores: seq<nat>) {
    |log| <= |stores| && forall k :: 0 <= k < |log| ==> log[k] == Line(stores[k], Net(c, stores[..k + 1]))
  }

  /** The owner has updated the counter and not yet printed. */
  predicate Unprinted(pc: Pc) {
    pc.AtPrintLoad? || pc.AtPrint?
  }

  ghost predicate Lifecycle(c: Config, s: State) {
    && |s.pcs| == c.Threads()
    && (s.running <==> s.main.Creating?)
    && (s.main.Creating? ==> s.main.k <= c.Threads())
    && (s.main.Joining? ==> s.main.k <= c.Threads())
    && (forall t :: 0 <= t < |s.pcs| ==> (s.pcs[t] == Unborn <==> s.main.Creating? && s.main.k <= t))
    && (s.running ==> forall t :: 0 <= t < |s.pcs| ==> s.pcs[t] != Exited)
    && (s.main.Joining? ==> forall j :: 0 <= j < s.main.k ==> s.pcs[c.JoinTarget(j)] == Exited)
    && (s.main.Destroyed? ==> forall t :: 0 <= t < |s.pcs| ==> s.pcs[t] == Exited)
  }

  ghost predicate Exclusion(s: State) {
    && (forall t :: 0 <= t < |s.pcs| ==> (Inside(s.pcs[t]) <==> s.owner == HeldBy(t)))
    && (s.owner.HeldBy? ==> s.owner.t < |s.pcs|)
  }

  ghost predicate Counted(c: Config, s: State) {
    && s.buffer == Net(c, s.stores)
    && (forall k :: 0 <= k < |s.stores| ==> s.stores[k] < c.Threads())
    && (forall t :: 0 <= t < |s.pcs| && s.pcs[t].AtStore? ==> s.pcs[t].reg == s.buffer)
    && (forall t :: 0 <= t < |s.pcs| && s.pcs[t].AtPrint? ==> s.pcs[t].shown == s.buffer)
    && LogMatches(c, s.log, s.stores)
    && (if s.owner.HeldBy? && s.owner.t < |s.pcs| && Unprinted(s.pcs[s.owner.t])
        then |s.stores| == |s.log| + 1 && s.stores[|s.log|] == s.owner.t
        else |s.stores| == |s.log|)
  }

  ghost predicate Inv(c: Config, s: State) {
    Lifecycle(c, s) && Exclusion(s) && Counted(c, s)
  }

  lemma AllJoined(c: Config, s: State)
    requires |s.pcs| == c.Threads()
    requires forall j :: 0 <= j < c.Threads() ==> s.pcs[c.JoinTarget(j)] == Exited
    ensures forall t :: 0 <= t < |s.pcs| ==> s.pcs[t] == Exited
  {
    forall t | 0 <= t < |s.pcs|
      ensures s.pcs[t] == Exited
    {
      var j := if t < c.producers then t + c.consumers else t - c.producers;
      assert c.JoinTarget(j) == t;
    }
  }

  lemma StepLifecycle(c: Config, s: State, a: Actor)
    requires Lifecycle(c, s) && Enabled(c, s, a)
    ensures Lifecycle(c, Step(c, s, a))
  {
    if s.main.Joining? && s.main.k == c.Threads() {
      AllJoined(c, s);
    }
  }

  lemma StepExclusion(c: Config, s: State, a: Actor)
    requires Lifecycle(c, s) && Exclusion(s) && Enabled(c, s, a)
    ensures Exclusion(Step(c, s, a))
  {
  }

  lemma LogAfterStore(c: Config, log: seq<Line>, stores: seq<nat>, t: nat)
    requires LogMatches(c, log, stores)
    ensures LogMatches(c, log, stores + [t]) && Net(c, stores + [t]) == Net(c, stores) + c.Delta(t)
  {
    assert (stores + [t])[..|stores|] == stores;
    forall k | 0 <= k < |log|
      ensures log[k] == Line((stores + [t])[k], Net(c, (stores + [t])[..k + 1]))
    {
      assert (stores + [t])[..k + 1] == stores[..k + 1];
    }
  }

  lemma LogAfterPrint(c: Config, log: seq<Line>, stores: seq<nat>, line: Line)
    requires LogMatches(c, log, stores) && |stores| == |log| + 1
    requires line == Line(stores[|log|], Net(c, stores))
    ensures LogMatches(c, log + [line], stores)
  {
    assert stores[..|log| + 1] == stores;
  }

  lemma CountedByMain(c: Config, s: State)
    requires Inv(c, s) && Enabled(c, s, Main)
    ensures Counted(c, MainStep(c, s))
  {
    hide LogMatches, Net;
  }

  lemma CountedByStore(c: Config, s: State, t: nat)
    requires Inv(c, s) && ThreadEnabled(s, t) && s.pcs[t].AtStore?
    ensures Counted(c, ThreadStep(c, s, t))
  {
    hide LogMatches, Net;
    LogAfterStore(c, s.log, s.stores, t);
  }

  lemma CountedByPrint(c: Config, s: State, t: nat)
    requires Inv(c, s) && ThreadEnabled(s, t) && s.pcs[t].AtPrint?
    ensures Counted(c, ThreadStep(c, s, t))
  {
    hide LogMatches, Net;
    LogAfterPrint(c, s.log, s.stores, Line(t, s.pcs[t].shown));
  }

  lemma CountedByOther(c: Config, s: State, t: nat)
    requires Inv(c, s) && ThreadEnabled(s, t) && !s.pcs[t].AtStore? && !s.pcs[t].AtPrint?
    ensures Counted(c, ThreadStep(c, s, t))
  {
    hide LogMatches, Net;
  }

  lemma StepCounted(c: Config, s: State, a: Actor)
    requires Inv(c, s) && Enabled(c, s, a)
    ensures Counted(c, Step(c, s, a))
  {
    hide Counted, ThreadStep, MainStep;
    match a
    case Main => CountedByMain(c, s);
    case Thread(t) =>
      if s.pcs[t].AtStore? {
        CountedByStore(c, s, t);
      } else if s.pcs[t].AtPrint? {
        CountedByPrint(c, s, t);
      } else {
        CountedByOther(c, s, t);
      }
  }

  lemma {:induction false} RunKeepsInv(c: Config, s: State, sched: seq<Actor>, s': State)
    requires Inv(c, s) && Runs(c, s, sched, s')
    ensures Inv(c, s')
    decreases |sched|
  {
    if sched == [] {
    } else {
      StepLifecycle(c, s, sched[0]);
      StepExclusion(c, s, sched[0]);
      StepCounted(c, s, sched[0]);
      RunKeepsInv(c, Step(c, s, sched[0]), sched[1..], s');
    }
  }

  /** Some interleaving from the start leads to s. */
  ghost predicate Reachable(c: Config, s: State) {
    exists sched :: Runs(c, Init(c), sched, s)
  }

  lemma ReachableInv(c: Config, s: State)
    requires Reachable(c, s)
    ensures Inv(c, s)
  {
    var sched :| Runs(c, Init(c), sched, s);
    RunKeepsInv(c, Init(c), sched, s);
  }

  // ----- No lost update -----

  /** How many entries of a history, or of the lines printed, are by producers. */
  function Produced(c: Config, h: seq<nat>): nat {
    if h == [] then 0 else Produced(c, h[..|h| - 1]) + if h[|h| - 1] < c.producers then 1 else 0
  }

  lemma {:induction false} NetCounts(c: Config, h: seq<nat>)
    ensures Produced(c, h) <= |h| && Net(c, h) == Produced(c, h) - (|h| - Produced(c, h))
  {
    if h == [] {
    } else {
      NetCounts(c, h[..|h| - 1]);
    }
  }

  /** In every reachable state, for any number of producers and consumers: at most one thread is between
      lock and unlock, and then it holds the mutex; the counter is at every moment the completed
      producer updates minus the completed consumer updates, although loads and stores of
      different threads interleave; and while the mutex is free every update has been printed. */
  lemma NoLostUpdate(c: Config, s: State)
    requires Reachable(c, s)
    ensures forall t, u :: 0 <= t < |s.pcs| && 0 <= u < |s.pcs| && Inside(s.pcs[t]) && Inside(s.pcs[u]) ==> t == u
    ensures forall t :: 0 <= t < |s.pcs| ==> (Inside(s.pcs[t]) <==> s.owner == HeldBy(t))
    ensures s.buffer == Produced(c, s.stores) - (|s.stores| - Produced(c, s.stores))
    ensures s.owner == Free ==> |s.log| == |s.stores|
  {
    ReachableInv(c, s);
    NetCounts(c, s.stores);
  }

  function Printers(log: seq<Line>): (h: seq<nat>)
    ensures |h| == |log| && forall k :: 0 <= k < |log| ==> h[k] == log[k].t
  {
    seq(|log|, k requires 0 <= k < |log| => log[k].t)
  }

  /** The k-th printed sum is the producer lines minus the consumer lines among the first k, so
      each line differs from the one before by one, up for a producer and down for a consumer. */
  lemma LogConsistent(c: Config, s: State, k: nat)
    requires Reachable(c, s) && k < |s.log|
    ensures var h := Printers(s.log)[..k + 1]; s.log[k].sum == Produced(c, h) - (k + 1 - Produced(c, h))
    ensures s.log[k].sum == (if k == 0 then 0 else s.log[k - 1].sum) + c.Delta(s.log[k].t)
  {
    ReachableInv(c, s);
    var h := s.stores[..k + 1];
    assert h == Printers(s.log)[..k + 1];
    NetCounts(c, h);
    assert h[..k] == s.stores[..k];
    assert s.log[k] == Line(s.stores[k], Net(c, h));
    if k > 0 {
      assert s.log[k - 1].sum == Net(c, s.stores[..k - 1 + 1]);
    }
  }

  // ----- Shutdown -----

  /** In every reachable state some actor can move, until the mutex has been destroyed. */
  lemma DeadlockFree(c: Config, s: State)
    requires Reachable(c, s)
    ensures s.main == Destroyed <==> forall a :: !Enabled(c, s, a)
  {
    ReachableInv(c, s);
    var a := Mover(c, s);
  }

  lemma Mover(c: Config, s: State) returns (a: Actor)
    requires Inv(c, s)
    ensures s.main != Destroyed ==> Enabled(c, s, a)
    ensures s.main == Destroyed ==> forall b :: !Enabled(c, s, b)
  {
    a := Main;
    if s.main.Joining? && s.main.k < c.Threads() {
      var t := c.JoinTarget(s.main.k);
      if s.pcs[t] != Exited {
        a := Thread(if s.pcs[t] == AtLock && s.owner.HeldBy? then s.owner.t else t);
      }
    }
  }

  /** When main comes to destroy the mutex, and from then on, nobody holds it or will lock it. */
  lemma FreeWhenDestroyed(c: Config, s: State)
    requires Reachable(c, s) && (s.main == Joining(c.Threads()) || s.main == Destroyed)
    ensures s.owner == Free && forall t :: 0 <= t < |s.pcs| ==> s.pcs[t] == Exited
    ensures |s.log| == |s.stores| && (s.log != [] ==> s.buffer == s.log[|s.log| - 1].sum)
  {
    ReachableInv(c, s);
    if s.main.Joining? {
      AllJoined(c, s);
    }
    if s.log != [] {
      assert s.stores[..|s.log| - 1 + 1] == s.stores;
    }
  }

  /** The steps a thread still takes once the flag is down. */
  function Left(pc: Pc): int {
    match pc
    case Unborn => 0
    case Exited => 0
    case AtWhile => 1
    case AtUnlock => 2
    case AtPrint(_) => 3
    case AtPrintLoad => 4
    case AtStore(_) => 5
    case AtLoad => 6
    case AtLock => 7
  }

  function Measure(c: Config, s: State): int {
    Sum(s.pcs, Left) +
    match s.main
    case Creating(k) => c.Threads() + 2
    case Joining(k) => c.Threads() + 1 - k
    case Destroyed => 0
  }

  /** Whether a thread still makes an update once the flag is down. */
  function Owed(pc: Pc): int {
    if pc.AtLock? || pc.AtLoad? || pc.AtStore? then 1 else 0
  }

  /** What that update will add to the counter, if thread t still makes one. */
  function Due(c: Config, pc: Pc, t: nat): int {
    if Owed(pc) == 1 then c.Delta(t) else 0
  }

  /** The net effect on the counter of the updates still to come. */
  function OwedNet(c: Config, pcs: seq<Pc>): int {
    if pcs == [] then 0 else OwedNet(c, pcs[..|pcs| - 1]) + Due(c, pcs[|pcs| - 1], |pcs| - 1)
  }

  lemma {:induction false} OwedNetUpdate(c: Config, pcs: seq<Pc>, t: nat, pc: Pc)
    requires t < |pcs|
    ensures OwedNet(c, pcs[t := pc]) == OwedNet(c, pcs) + Due(c, pc, t) - Due(c, pcs[t], t)
  {
    var n := |pcs| - 1;
    if t == n {
      assert pcs[t := pc][..n] == pcs[..n];
    } else {
      OwedNetUpdate(c, pcs[..n], t, pc);
      assert pcs[t := pc][..n] == pcs[..n][t := pc];
    }
  }

  lemma {:induction false} OwedNetZero(c: Config, pcs: seq<Pc>)
    requires forall t :: 0 <= t < |pcs| ==> pcs[t] == Exited
    ensures OwedNet(c, pcs) == 0
  {
    if pcs == [] {
    } else {
      OwedNetZero(c, pcs[..|pcs| - 1]);
    }
  }

  lemma StoppedMeasure(c: Config, s: State, a: Actor)
    requires Lifecycle(c, s) && !s.running && Enabled(c, s, a)
    ensures !Step(c, s, a).running && Measure(c, Step(c, s, a)) == Measure(c, s) - 1
  {
    if a.Thread? {
      SumUpdate(s.pcs, Left, a.t, Step(c, s, a).pcs[a.t]);
    }
  }

  lemma StoppedBuffer(c: Config, s: State, a: Actor)
    requires Inv(c, s) && !s.running && Enabled(c, s, a)
    ensures Step(c, s, a).buffer + OwedNet(c, Step(c, s, a).pcs) == s.buffer + OwedNet(c, s.pcs)
  {
    if a.Thread? {
      OwedNetUpdate(c, s.pcs, a.t, Step(c, s, a).pcs[a.t]);
    }
  }

  lemma StoppedStores(c: Config, s: State, a: Actor, t: nat)
    requires Lifecycle(c, s) && !s.running && Enabled(c, s, a) && t < |s.pcs|
    ensures var s' := Step(c, s, a);
      && |s'.pcs| == |s.pcs|
      && multiset(s'.stores)[t] + Owed(s'.pcs[t]) == multiset(s.stores)[t] + Owed(s.pcs[t])
  {
  }

  /** Once the flag is down every step, of whichever actor, uses up one unit of the measure, and
      what is done and what is owed are traded one for one. */
  lemma StoppedStep(c: Config, s: State, a: Actor)
    requires Inv(c, s) && !s.running && Enabled(c, s, a)
    ensures var s' := Step(c, s, a);
      && !s'.running && |s'.pcs| == |s.pcs| && Measure(c, s') == Measure(c, s) - 1
      && s'.buffer + OwedNet(c, s'.pcs) == s.buffer + OwedNet(c, s.pcs)
      && (forall t :: 0 <= t < |s.pcs| ==>
            multiset(s'.stores)[t] + Owed(s'.pcs[t]) == multiset(s.stores)[t] + Owed(s.pcs[t]))
  {
    hide Measure, OwedNet, Owed, Counted, Exclusion;
    StoppedMeasure(c, s, a);
    StoppedBuffer(c, s, a);
    forall t: nat | t < |s.pcs|
      ensures multiset(Step(c, s, a).stores)[t] + Owed(Step(c, s, a).pcs[t]) == multiset(s.stores)[t] + Owed(s.pcs[t])
    {
      StoppedStores(c, s, a, t);
    }
  }

  lemma {:induction false} StoppedRun(c: Config, s: State, sched: seq<Actor>, s': State)
    requires Inv(c, s) && !s.running && Runs(c, s, sched, s')
    ensures !s'.running && |s'.pcs| == |s.pcs| && Measure(c, s') == Measure(c, s) - |sched|
    ensures s'.buffer + OwedNet(c, s'.pcs) == s.buffer + OwedNet(c, s.pcs)
    ensures forall t :: 0 <= t < |s.pcs| ==>
              multiset(s'.stores)[t] + Owed(s'.pcs[t]) == multiset(s.stores)[t] + Owed(s.pcs[t])
    decreases |sched|
  {
    if sched == [] {
    } else {
      StoppedStep(c, s, sched[0]);
      RunKeepsInv(c, s, [sched[0]], Step(c, s, sched[0]));
      StoppedRun(c, Step(c, s, sched[0]), sched[1..], s');
    }
  }

  lemma MeasureBounds(c: Config, s: State)
    requires Inv(c, s) && !s.running
    ensures 0 <= Measure(c, s) <= 8 * c.Threads() + 1
    ensures Measure(c, s) == 0 <==> s.main == Destroyed
  {
    SumBounds(s.pcs, Left, 7);
  }

  /** After the flag has gone down each thread makes at most one more update, every run is finite,
      and all runs to the end are equally long, at most 8n + 1 steps for n threads. */
  lemma Shutdown(c: Config, s: State, sched: seq<Actor>, s': State)
    requires Reachable(c, s) && !s.running && Runs(c, s, sched, s')
    ensures forall t :: 0 <= t < |s.pcs| ==> multiset(s'.stores)[t] - multiset(s.stores)[t] <= Owed(s.pcs[t]) <= 1
    ensures |sched| <= Measure(c, s) <= 8 * c.Threads() + 1
    ensures |sched| == Measure(c, s) <==> s'.main == Destroyed
  {
    ReachableInv(c, s);
    StoppedRun(c, s, sched, s');
    RunKeepsInv(c, s, sched, s');
    MeasureBounds(c, s);
    MeasureBounds(c, s');
  }

  /** The final counter, and how often each thread has updated it, are settled by the state in
      which the flag goes down; no interleaving of the rest can change them. */
  lemma OutcomeSettledAtStop(c: Config, s: State, sched: seq<Actor>, s': State)
    requires Reachable(c, s) && !s.running && Runs(c, s, sched, s') && s'.main == Destroyed
    ensures s'.buffer == s.buffer + OwedNet(c, s.pcs)
    ensures forall t :: 0 <= t < |s.pcs| ==> multiset(s'.stores)[t] == multiset(s.stores)[t] + Owed(s.pcs[t])
  {
    ReachableInv(c, s);
    StoppedRun(c, s, sched, s');
    RunKeepsInv(c, s, sched, s');
    OwedNetZero(c, s'.pcs);
  }

  /** From every reachable state the program can still finish. */
  lemma {:induction false} CanFinish(c: Config, s: State) returns (sched: seq<Actor>, s': State)
    requires Inv(c, s)
    ensures Runs(c, s, sched, s') && s'.main == Destroyed
    decreases if s.main.Creating? then c.Threads() + 1 - s.main.k else 0, Measure(c, s)
  {
    if s.main == Destroyed {
      sched, s' := [], s;
    } else {
      var a := Main;
      if !s.running {
        a := Mover(c, s);
      }
      var r := Step(c, s, a);
      assert Runs(c, r, [a][1..], r);
      RunKeepsInv(c, s, [a], r);
      if !s.running {
        StoppedStep(c, s, a);
        MeasureBounds(c, r);
      }
      var rest;
      rest, s' := CanFinish(c, r);
      sched := [a] + rest;
      assert sched[1..] == rest;
    }
  }

  // ----- The outputs the program can have -----

  lemma {:induction false} RunsAppend(c: Config, s: State, a: seq<Actor>, mid: State, b: seq<Actor>, s': State)
    requires Runs(c, s, a, mid) && Runs(c, mid, b, s')
    ensures Runs(c, s, a + b, s')
    decreases |a|
  {
    if a == [] {
      assert a + b == b;
    } else {
      RunsAppend(c, Step(c, s, a[0]), a[1..], mid, b, s');
      assert (a + b)[1..] == a[1..] + b;
    }
  }

  lemma RunsSnoc(c: Config, s: State, sched: seq<Actor>, mid: State, a: Actor)
    requires Runs(c, s, sched, mid) && Enabled(c, mid, a)
    ensures Runs(c, s, sched + [a], Step(c, mid, a))
  {
    assert [a][1..] == [];
    assert Runs(c, Step(c, mid, a), [a][1..], Step(c, mid, a));
    RunsAppend(c, s, sched, mid, [a], Step(c, mid, a));
  }

  /** After the first k threads have been created and before any has moved. */
  ghost function Born(c: Config, k: nat): State {
    Init(c).(main := Creating(k), pcs := seq(c.Threads(), i => if i < k then AtWhile else Unborn))
  }

  lemma {:induction false} AllBorn(c: Config, k: nat) returns (sched: seq<Actor>)
    requires k <= c.Threads()
    ensures Runs(c, Init(c), sched, Born(c, k))
  {
    if k == 0 {
      sched := [];
      assert Born(c, 0).pcs == Init(c).pcs;
    } else {
      var before := AllBorn(c, k - 1);
      RunsSnoc(c, Init(c), before, Born(c, k - 1), Main);
      assert MainStep(c, Born(c, k - 1)).pcs == Born(c, k).pcs;
      sched := before + [Main];
    }
  }

  /** All threads are running and about to test the flag. */
  ghost predicate Idle(c: Config, s: State) {
    && s.main == Creating(c.Threads()) && s.running && s.owner == Free && |s.pcs| == c.Threads()
    && forall t :: 0 <= t < |s.pcs| ==> s.pcs[t] == AtWhile
  }

  /** One pass of the loop of thread t. */
  lemma OnePass(c: Config, s: State, t: nat) returns (sched: seq<Actor>, s': State)
    requires Idle(c, s) && t < c.Threads()
    ensures Runs(c, s, sched, s') && Idle(c, s')
    ensures s'.stores == s.stores + [t] && s'.log == s.log + [Line(t, s.buffer + c.Delta(t))]
  {
    sched, s' := [], s;
    for k := 0 to 7
      invariant Runs(c, s, sched, s') && s' == MidPass(c, s, t, k)
    {
      RunsSnoc(c, s, sched, s', Thread(t));
      PassStep(c, s, t, k);
      sched, s' := sched + [Thread(t)], ThreadStep(c, s', t);
    }
  }

  /** Thread t has done k steps of its pass alone. */
  ghost function MidPass(c: Config, s: State, t: nat, k: nat): State
    requires t < |s.pcs|
  {
    var sum := s.buffer + c.Delta(t);
    s.(
    pcs := s.pcs[t := match k
                      case 1 => AtLock
                      case 2 => AtLoad
                      case 3 => AtStore(s.buffer)
                      case 4 => AtPrintLoad
                      case 5 => AtPrint(sum)
                      case 6 => AtUnlock
                      case _ => AtWhile],
    owner := if 2 <= k <= 6 then HeldBy(t) else Free,
    buffer := if k >= 4 then sum else s.buffer,
    stores := if k >= 4 then s.stores + [t] else s.stores,
    log := if k >= 6 then s.log + [Line(t, sum)] else s.log)
  }

  lemma PassStep(c: Config, s: State, t: nat, k: nat)
    requires Idle(c, s) && t < c.Threads() && k < 7
    ensures ThreadEnabled(MidPass(c, s, t, k), t)
    ensures ThreadStep(c, MidPass(c, s, t, k), t) == MidPass(c, s, t, k + 1)
  {
    assert ThreadStep(c, MidPass(c, s, t, k), t).pcs == MidPass(c, s, t, k + 1).pcs;
  }

  /** Every order of updates, by any of the threads and of any length, is the history of some run. */
  lemma {:induction false} EveryHistory(c: Config, h: seq<nat>) returns (sched: seq<Actor>, s: State)
    requires forall k :: 0 <= k < |h| ==> h[k] < c.Threads()
    ensures Runs(c, Init(c), sched, s) && Idle(c, s)
    ensures s.running && s.owner == Free && s.stores == h && Printers(s.log) == h
  {
    if h == [] {
      sched := AllBorn(c, c.Threads());
      s := Born(c, c.Threads());
    } else {
      var n := |h| - 1;
      var before, mid := EveryHistory(c, h[..n]);
      var pass;
      pass, s := OnePass(c, mid, h[n]);
      RunsAppend(c, Init(c), before, mid, pass, s);
      sched := before + pass;
      assert h == h[..n] + [h[n]];
      assert Printers(s.log) == Printers(mid.log) + [h[n]];
    }
  }

  /** The flag is down and nobody has anything left to do but see that. */
  ghost predicate Winding(s: State) {
    !s.running && !s.main.Creating? && forall t :: 0 <= t < |s.pcs| ==> s.pcs[t] == AtWhile || s.pcs[t] == Exited
  }

  lemma {:induction false} WindsDown(c: Config, s: State, sched: seq<Actor>, s': State)
    requires Winding(s) && Runs(c, s, sched, s')
    ensures s'.log == s.log
    decreases |sched|
  {
    if sched == [] {
    } else {
      WindsDown(c, Step(c, s, sched[0]), sched[1..], s');
    }
  }

  /** Some complete run prints exactly these lines. */
  ghost predicate CanPrint(c: Config, log: seq<Line>) {
    exists sched, s :: Runs(c, Init(c), sched, s) && s.main == Destroyed && s.log == log
  }

  lemma FinishesQuietly(c: Config, sched: seq<Actor>, s: State)
    requires Runs(c, Init(c), sched, s) && Idle(c, s)
    ensures CanPrint(c, s.log)
  {
    RunsSnoc(c, Init(c), sched, s, Main);
    var stopped := MainStep(c, s);
    assert Reachable(c, stopped);
    ReachableInv(c, stopped);
    var rest, s' := CanFinish(c, stopped);
    WindsDown(c, stopped, rest, s');
    RunsAppend(c, Init(c), sched + [Main], stopped, rest, s');
  }

  predicate SteadyLine(c: Config, log: seq<Line>, k: nat)
    requires k < |log|
  {
    && log[k].t < c.Threads()
    && log[k].sum == (if k == 0 then 0 else log[k - 1].sum) + if log[k].t < c.producers then 1 else -1
  }

  /** Each line is by one of the threads and differs from the one before by one, up for a
      producer and down for a consumer. */
  ghost predicate Steady(c: Config, log: seq<Line>) {
    forall k :: 0 <= k < |log| ==> SteadyLine(c, log, k)
  }

  lemma ReachableSteady(c: Config, s: State)
    requires Reachable(c, s)
    ensures Steady(c, s.log)
  {
    ReachableInv(c, s);
    forall k: nat | k < |s.log|
      ensures SteadyLine(c, s.log, k)
    {
      LogConsistent(c, s, k);
      assert s.log[k].t == s.stores[k];
    }
  }

  /** Who prints, in order, settles what is printed. */
  lemma {:induction false} SteadyAt(c: Config, a: seq<Line>, b: seq<Line>, k: nat)
    requires Steady(c, a) && Steady(c, b) && Printers(a) == Printers(b) && k < |a|
    ensures k < |b| && a[k] == b[k]
  {
    assert |a| == |Printers(a)| == |b| && a[k].t == Printers(a)[k] == b[k].t;
    assert SteadyLine(c, a, k) && SteadyLine(c, b, k);
    if k == 0 {
    } else {
      SteadyAt(c, a, b, k - 1);
    }
  }

  /** The lines that complete runs can print are exactly the steady ones. */
  lemma PossibleOutputs(c: Config, log: seq<Line>)
    ensures CanPrint(c, log) <==> Steady(c, log)
  {
    if CanPrint(c, log) {
      var sched, s :| Runs(c, Init(c), sched, s) && s.main == Destroyed && s.log == log;
      ReachableSteady(c, s);
    } else if Steady(c, log) {
      var h := Printers(log);
      assert forall k :: 0 <= k < |h| ==> SteadyLine(c, log, k) && h[k] == log[k].t;
      var sched, s := EveryHistory(c, h);
      assert Reachable(c, s);
      ReachableSteady(c, s);
      forall k: nat | k < |log|
        ensures k < |s.log| && log[k] == s.log[k]
      {
        SteadyAt(c, log, s.log, k);
      }
      assert |log| == |Printers(s.log)| == |s.log|;
      FinishesQuietly(c, sched, s);
    }
  }

  // ----- Who waits for whom -----

  /** A thread that has been created and has not exited waits only to lock, and only while some
      thread is between lock and unlock. */
  lemma WaitsOnlyForMutex(c: Config, s: State, t: nat)
    requires Reachable(c, s) && t < |s.pcs|
    ensures Enabled(c, s, Thread(t)) <==>
            && s.pcs[t] != Unborn && s.pcs[t] != Exited
            && (s.pcs[t] == AtLock ==> forall u :: 0 <= u < |s.pcs| ==> !Inside(s.pcs[u]))
  {
    ReachableInv(c, s);
    if s.owner.HeldBy? {
      assert Inside(s.pcs[s.owner.t]);
    }
  }

  /** Main creates the threads in order; none exits before all are created and the flag is down;
      then main waits for the consumers and after them for the producers, each in order. */
  lemma MainInOrder(c: Config, s: State)
    requires Reachable(c, s)
    ensures |s.pcs| == c.producers + c.consumers && (s.running <==> s.main.Creating?)
    ensures forall t :: 0 <= t < |s.pcs| ==>
              && (s.pcs[t] == Unborn <==> s.main.Creating? && s.main.k <= t)
              && (s.running ==> s.pcs[t] != Exited)
    ensures s.main.Joining? ==>
              forall t :: 0 <= t < |s.pcs| ==>
                (if t < c.producers then c.consumers + t < s.main.k else t - c.producers < s.main.k) ==>
                  s.pcs[t] == Exited
    ensures Enabled(c, s, Main) <==>
            match s.main
            case Creating(k) => true
            case Joining(k) =>
              if k < c.consumers then s.pcs[c.producers + k] == Exited
              else k < c.consumers + c.producers ==> s.pcs[k - c.consumers] == Exited
            case Destroyed => false
  {
    ReachableInv(c, s);
    if s.main.Joining? {
      forall t | 0 <= t < |s.pcs| &&
        (if t < c.producers then c.consumers + t < s.main.k else t - c.producers < s.main.k)
        ensures s.pcs[t] == Exited
      {
        var j := if t < c.producers then c.consumers + t else t - c.producers;
        assert c.JoinTarget(j) == t;
      }
    }
  }
}
