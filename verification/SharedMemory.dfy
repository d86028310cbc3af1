/** One process publishes a message in shared memory and announces it through a semaphore; the
    other tries the semaphore once and prints the memory as a string, whatever the outcome. */
module SharedMemory {
  import opened Semaphore

  type Byte = b: int | 0 <= b < 256

  const NUL: Byte := 0

  /** The system maximum of the semaphore and the NUL-terminated message. */
  datatype Config = Config(max: nat, msg: seq<Byte>) {
    predicate Valid() {
      NUL !in msg
    }

    function Bytes(): seq<Byte> {
      msg + [NUL]
    }
  }

  /** The parent has the bytes at these indices still to store, or has made its P. */
  datatype Parent = Copying(todo: set<nat>) | Posted

  /** got records whether the child's V succeeded; it has read i bytes so far.  Overrun is a read
      beyond the segment, where the program's behaviour is undefined. */
  datatype Child = Trying | Reading(got: bool, i: nat) | Printed(got: bool) | Overrun(got: bool)

  datatype State = State(shm: seq<Byte>, sem: nat, parent: Parent, child: Child, out: seq<Byte>)

  /** memcpy stores the bytes one at a time and promises no order; the child reads one at a time. */
  datatype Action = Store(i: nat) | Post | Try | Read

  function Below(n: nat): (r: set<nat>)
    ensures forall i: nat :: i in r <==> i < n
  {
    if n == 0 then {} else Below(n - 1) + {n - 1}
  }

  /** After CreateSem(key, 0) and fork, with arbitrary contents in the segment. */
  ghost function Init(c: Config, shm: seq<Byte>): State {
    State(shm, 0, Copying(Below(|c.Bytes()|)), Trying, [])
  }

  predicate Enabled(c: Config, s: State, a: Action) {
    match a
    case Store(i) => s.parent.Copying? && i in s.parent.todo && i < |c.Bytes()| <= |s.shm|
    case Post => s.parent == Copying({})
    case Try => s.child.Trying?
    case Read => s.child.Reading?
  }

  function Step(c: Config, s: State, a: Action): State
    requires Enabled(c, s, a)
  {
    match a
    case Store(i) => s.(shm := s.shm[i := c.Bytes()[i]], parent := Copying(s.parent.todo - {i}))
    case Post => s.(sem := Semop(c.max, s.sem, P_OP), parent := Posted)
    case Try => s.(sem := Semop(c.max, s.sem, V_OP), child := Reading(Succeeds(c.max, s.sem, V_OP), 0))
    case Read =>
      var Reading(got, i) := s.child;
      if i >= |s.shm| then s.(child := Overrun(got))
      else if s.shm[i] == NUL then s.(child := Printed(got))
      else s.(child := Reading(got, i + 1), out := s.out + [s.shm[i]])
  }

  ghost predicate Runs(c: Config, s: State, sched: seq<Action>, s': State)
    decreases |sched|
  {
    if sched == [] then s' == s
    else Enabled(c, s, sched[0]) && Runs(c, Step(c, s, sched[0]), sched[1..], s')
  }

  ghost predicate Got(s: State) {
    !s.child.Trying? && s.child.got
  }

  // ----- Safety of the publication -----

  ghost predicate Inv(c: Config, s: State) {
    && |c.Bytes()| <= |s.shm|
    && (forall i :: 0 <= i < |c.Bytes()| && (s.parent.Copying? ==> i !in s.parent.todo) ==> s.shm[i] == c.Bytes()[i])
    && (s.parent.Copying? ==> s.sem == 0 && !Got(s))
    && (Got(s) && s.child.Reading? ==> s.child.i <= |c.msg| && s.out == c.msg[..s.child.i])
    && (Got(s) ==> !s.child.Overrun?)
    && (Got(s) && s.child.Printed? ==> s.out == c.msg)
    && (s.child.Trying? ==> s.out == [])
    && (s.parent.Posted? ==> s.sem + (if Got(s) then 1 else 0) == if c.max >= 1 then 1 else 0)
  }

  lemma StepKeepsInv(c: Config, s: State, a: Action)
    requires c.Valid() && Inv(c, s) && Enabled(c, s, a)
    ensures Inv(c, Step(c, s, a))
  {
    if a.Read? && Got(s) {
      var i := s.child.i;
      assert s.shm[i] == c.Bytes()[i];
      if i < |c.msg| {
        assert c.msg[i] in c.msg;
        assert c.msg[..i + 1] == c.msg[..i] + [c.msg[i]];
      } else {
        assert c.msg[..i] == c.msg;
      }
    }
  }

  lemma {:induction false} RunKeepsInv(c: Config, s: State, sched: seq<Action>, s': State)
    requires c.Valid() && Inv(c, s) && Runs(c, s, sched, s')
    ensures Inv(c, s')
    decreases |sched|
  {
    if sched == [] {
    } else {
      StepKeepsInv(c, s, sched[0]);
      RunKeepsInv(c, Step(c, s, sched[0]), sched[1..], s');
    }
  }

  /** In every interleaving, from any earlier contents: a child whose V succeeded prints exactly
      the message, has printed a prefix of it at every earlier moment, and never reads beyond
      the segment. */
  lemma Publication(c: Config, shm: seq<Byte>, sched: seq<Action>, s: State)
    requires c.Valid() && |c.Bytes()| <= |shm| && Runs(c, Init(c, shm), sched, s) && Got(s)
    ensures !s.child.Overrun? && s.out <= c.msg
    ensures s.child.Printed? ==> s.out == c.msg
  {
    RunKeepsInv(c, Init(c, shm), sched, s);
  }

  // ----- When the V succeeds -----

  ghost predicate Before(sched: seq<Action>, a: Action, b: Action) {
    exists i, j :: 0 <= i < j < |sched| && sched[i] == a && sched[j] == b
  }

  /** Each process does its one semaphore call at most once. */
  lemma {:induction false} CalledOnce(c: Config, s: State, sched: seq<Action>, s': State)
    requires Runs(c, s, sched, s')
    ensures s.parent.Posted? ==> Post !in sched
    ensures !s.child.Trying? ==> Try !in sched && (Got(s') <==> Got(s))
    decreases |sched|
  {
    if sched == [] {
    } else {
      CalledOnce(c, Step(c, s, sched[0]), sched[1..], s');
    }
  }

  lemma BeforeCons(a: Action, rest: seq<Action>)
    ensures Before([a] + rest, Post, Try) <==> Before(rest, Post, Try) || (a == Post && Try in rest)
  {
    var sched := [a] + rest;
    if Before(rest, Post, Try) {
      var i, j :| 0 <= i < j < |rest| && rest[i] == Post && rest[j] == Try;
      assert sched[i + 1] == Post && sched[j + 1] == Try;
    }
    if a == Post && Try in rest {
      var j :| 0 <= j < |rest| && rest[j] == Try;
      assert sched[0] == Post && sched[j + 1] == Try;
    }
    if Before(sched, Post, Try) {
      var i, j :| 0 <= i < j < |sched| && sched[i] == Post && sched[j] == Try;
      assert rest[j - 1] == Try;
      assert i > 0 ==> rest[i - 1] == Post;
    }
  }

  lemma {:induction false} GotRun(c: Config, s: State, sched: seq<Action>, s': State)
    requires c.Valid() && Inv(c, s) && Runs(c, s, sched, s') && s.child.Trying?
    ensures Got(s') <==> c.max >= 1 && ((s.parent.Posted? && Try in sched) || Before(sched, Post, Try))
    decreases |sched|
  {
    if sched == [] {
    } else {
      hide Before;
      var a, rest := sched[0], sched[1..];
      var r := Step(c, s, a);
      StepKeepsInv(c, s, a);
      CalledOnce(c, r, rest, s');
      assert sched == [a] + rest;
      BeforeCons(a, rest);
      BeforeNeedsTry(rest);
      if r.child.Trying? {
        GotRun(c, r, rest, s');
      }
    }
  }

  lemma BeforeNeedsTry(sched: seq<Action>)
    ensures Before(sched, Post, Try) ==> Post in sched && Try in sched
  {
  }

  /** The child's V succeeds exactly when the parent's P came first (and the system lets a
      semaphore be 1 at all). */
  lemma GotExactly(c: Config, shm: seq<Byte>, sched: seq<Action>, s: State)
    requires c.Valid() && |c.Bytes()| <= |shm| && Runs(c, Init(c, shm), sched, s)
    ensures Got(s) <==> c.max >= 1 && Before(sched, Post, Try)
  {
    GotRun(c, Init(c, shm), sched, s);
  }

  // ----- Both processes come to an end -----

  function Measure(c: Config, s: State): int {
    (match s.parent
     case Copying(todo) => |todo| + 1
     case Posted => 0)
    +
    (match s.child
     case Trying => |s.shm| + 3
     case Reading(got, i) => if i <= |s.shm| then |s.shm| + 1 - i else 1
     case _ => 0)
  }

  ghost predicate Ended(s: State) {
    s.parent.Posted? && (s.child.Printed? || s.child.Overrun?)
  }

  /** No interleaving goes on for ever, and as long as not both have ended one of them can move. */
  lemma {:induction false} Terminates(c: Config, s: State, sched: seq<Action>, s': State)
    requires c.Valid() && Inv(c, s) && (s.parent.Copying? ==> s.parent.todo <= Below(|c.Bytes()|))
    requires Runs(c, s, sched, s')
    ensures |sched| + Measure(c, s') <= Measure(c, s) && Measure(c, s') >= 0
    ensures Ended(s') <==> forall a :: !Enabled(c, s', a)
    decreases |sched|
  {
    if sched != [] {
      var r := Step(c, s, sched[0]);
      StepKeepsInv(c, s, sched[0]);
      assert r.parent.Copying? ==> r.parent.todo <= s.parent.todo;
      Terminates(c, r, sched[1..], s');
    } else if s.parent.Copying? && s.parent.todo != {} {
      var i :| i in s.parent.todo;
      assert Enabled(c, s, Store(i));
    } else {
      assert Enabled(c, s, Post) <==> s.parent.Copying?;
      assert Enabled(c, s, Try) || Enabled(c, s, Read) <==> !s.child.Printed? && !s.child.Overrun?;
    }
  }

  // ----- Exactly when the message is printed -----

  function Reads(h: seq<Action>): nat {
    if h == [] then 0 else Reads(h[..|h| - 1]) + if h[|h| - 1] == Read then 1 else 0
  }

  /** Every byte of the message, its NUL included, is stored before the child reads it: the read
      with the same number as the byte comes after the byte's store. */
  ghost predicate InTime(c: Config, sched: seq<Action>) {
    forall p :: 0 <= p < |sched| ==> TimelyAt(c, sched, p)
  }

  ghost predicate TimelyAt(c: Config, sched: seq<Action>, p: nat)
    requires p < |sched|
  {
    sched[p] == Read && Reads(sched[..p]) <= |c.msg| ==> Store(Reads(sched[..p])) in sched[..p]
  }

  /** The child has printed nothing but the message so far, and all of it if it is done. */
  ghost predicate Right(c: Config, s: State) {
    !s.child.Overrun? && s.out <= c.msg && (s.child.Printed? ==> s.out == c.msg)
  }

  /** Whatever the segment held before, every moment of the schedule is right. */
  ghost predicate AlwaysRight(c: Config, size: nat, sched: seq<Action>) {
    forall shm: seq<Byte>, k, s ::
      |shm| == size && 0 <= k <= |sched| && Runs(c, Init(c, shm), sched[..k], s) ==> Right(c, s)
  }

  /** The number of bytes read so far. */
  function Position(s: State): nat {
    if s.child.Reading? then s.child.i else 0
  }

  /** What the actions done so far say about the state, as long as they were in time. */
  ghost predicate Follows(c: Config, done: seq<Action>, s: State) {
    && |c.Bytes()| <= |s.shm|
    && (forall k: nat :: k < |c.Bytes()| ==>
          (Store(k) in done <==> s.parent.Posted? || k !in s.parent.todo)
          && (Store(k) in done ==> s.shm[k] == c.Bytes()[k]))
    && (s.child.Trying? ==> Reads(done) == 0 && s.out == [])
    && (s.child.Reading? ==> s.child.i == Reads(done) <= |c.msg| && s.out == c.msg[..s.child.i])
    && Right(c, s)
  }

  lemma ReadsSnoc(h: seq<Action>, a: Action)
    ensures Reads(h + [a]) == Reads(h) + if a == Read then 1 else 0
  {
    assert (h + [a])[..|h|] == h;
  }

  lemma FollowsStep(c: Config, done: seq<Action>, s: State, a: Action)
    requires c.Valid() && Follows(c, done, s) && Enabled(c, s, a)
    requires a == Read && Reads(done) <= |c.msg| ==> Store(Reads(done)) in done
    ensures Follows(c, done + [a], Step(c, s, a))
  {
    hide Reads;
    ReadsSnoc(done, a);
    if a.Read? {
      var i := s.child.i;
      assert s.shm[i] == c.Bytes()[i];
      if i < |c.msg| {
        assert c.msg[i] in c.msg;
        assert c.msg[..i + 1] == c.msg[..i] + [c.msg[i]];
      } else {
        assert c.msg[..i] == c.msg;
      }
    }
  }

  lemma {:induction false} FollowsRun(c: Config, done: seq<Action>, s: State, sched: seq<Action>, s': State)
    requires c.Valid() && Follows(c, done, s) && Runs(c, s, sched, s') && InTime(c, done + sched)
    ensures Follows(c, done + sched, s')
    decreases |sched|
  {
    if sched == [] {
      assert done + sched == done;
    } else {
      hide Follows;
      var all := done + sched;
      assert TimelyAt(c, all, |done|) && all[|done|] == sched[0] && all[..|done|] == done;
      FollowsStep(c, done, s, sched[0]);
      assert all == (done + [sched[0]]) + sched[1..];
      FollowsRun(c, done + [sched[0]], Step(c, s, sched[0]), sched[1..], s');
    }
  }

  lemma InTimeFollows(c: Config, shm: seq<Byte>, sched: seq<Action>, s: State)
    requires c.Valid() && |c.Bytes()| <= |shm| && Runs(c, Init(c, shm), sched, s) && InTime(c, sched)
    ensures Follows(c, sched, s)
  {
    assert [] + sched == sched;
    FollowsRun(c, [], Init(c, shm), sched, s);
  }

  lemma InTimePrefix(c: Config, sched: seq<Action>, k: nat)
    requires k <= |sched| && InTime(c, sched)
    ensures InTime(c, sched[..k])
  {
    forall p | 0 <= p < k
      ensures TimelyAt(c, sched[..k], p)
    {
      assert TimelyAt(c, sched, p) && sched[..k][..p] == sched[..p];
    }
  }

  lemma {:induction false} RunsPrefix(c: Config, s: State, sched: seq<Action>, k: nat, s': State) returns (mid: State)
    requires k <= |sched| && Runs(c, s, sched, s')
    ensures Runs(c, s, sched[..k], mid) && Runs(c, mid, sched[k..], s')
    decreases |sched|
  {
    if k == 0 {
      mid := s;
      assert sched[0..] == sched;
    } else {
      mid := RunsPrefix(c, Step(c, s, sched[0]), sched[1..], k - 1, s');
      assert sched[..k][1..] == sched[1..][..k - 1] && sched[1..][k - 1..] == sched[k..];
    }
  }

  lemma {:induction false} RunsSnoc(c: Config, s: State, sched: seq<Action>, mid: State, a: Action)
    requires Runs(c, s, sched, mid) && Enabled(c, mid, a)
    ensures Runs(c, s, sched + [a], Step(c, mid, a))
    decreases |sched|
  {
    if sched == [] {
      assert ([] + [a])[1..] == [];
    } else {
      RunsSnoc(c, Step(c, s, sched[0]), sched[1..], mid, a);
      assert (sched + [a])[1..] == sched[1..] + [a];
    }
  }

  /** The segment with one byte replaced. */
  function Poked(s: State, k: nat, x: Byte): State
    requires k < |s.shm|
  {
    s.(shm := s.shm[k := x])
  }

  lemma {:induction false} ReadsCons(a: Action, h: seq<Action>)
    ensures Reads([a] + h) == Reads(h) + if a == Read then 1 else 0
  {
    if h == [] {
    } else {
      ReadsCons(a, h[..|h| - 1]);
      assert ([a] + h)[..|h|] == [a] + h[..|h| - 1];
    }
  }

  /** A byte that is neither stored nor read makes no difference to a run. */
  lemma {:induction false} Lockstep(c: Config, s: State, sched: seq<Action>, s': State, k: nat, x: Byte)
    requires k < |s.shm| && Runs(c, s, sched, s') && Store(k) !in sched && Position(s) + Reads(sched) <= k
    ensures |s'.shm| == |s.shm| && Runs(c, Poked(s, k, x), sched, Poked(s', k, x))
    decreases |sched|
  {
    if sched == [] {
    } else {
      var a, rest := sched[0], sched[1..];
      assert sched == [a] + rest;
      ReadsCons(a, rest);
      LockstepOne(c, s, a, k, x);
      if Step(c, s, a).child.Printed? || Step(c, s, a).child.Overrun? {
        NoMoreReads(c, Step(c, s, a), rest, s');
      }
      Lockstep(c, Step(c, s, a), rest, s', k, x);
    }
  }

  lemma LockstepOne(c: Config, s: State, a: Action, k: nat, x: Byte)
    requires k < |s.shm| && Enabled(c, s, a) && a != Store(k) && (a == Read ==> Position(s) < k)
    ensures |Step(c, s, a).shm| == |s.shm|
    ensures Enabled(c, Poked(s, k, x), a) && Step(c, Poked(s, k, x), a) == Poked(Step(c, s, a), k, x)
    ensures Position(Step(c, s, a)) <= Position(s) + if a == Read then 1 else 0
  {
    if a.Store? {
      var i := a.i;
      assert s.shm[k := x][i := c.Bytes()[i]] == s.shm[i := c.Bytes()[i]][k := x];
    }
  }

  lemma {:induction false} NoMoreReads(c: Config, s: State, sched: seq<Action>, s': State)
    requires Runs(c, s, sched, s') && (s.child.Printed? || s.child.Overrun?)
    ensures Reads(sched) == 0
    decreases |sched|
  {
    if sched == [] {
    } else {
      NoMoreReads(c, Step(c, s, sched[0]), sched[1..], s');
      assert sched == [sched[0]] + sched[1..];
      ReadsCons(sched[0], sched[1..]);
    }
  }

  /** The first read that is not in time. */
  lemma FirstLate(c: Config, sched: seq<Action>) returns (p: nat)
    requires !InTime(c, sched)
    ensures p < |sched| && !TimelyAt(c, sched, p) && InTime(c, sched[..p])
  {
    p := 0;
    while p < |sched| && TimelyAt(c, sched, p)
      invariant p <= |sched| && InTime(c, sched[..p])
    {
      InTimeSnoc(c, sched, p);
      p := p + 1;
    }
    assert sched[..|sched|] == sched;
  }

  lemma InTimeSnoc(c: Config, sched: seq<Action>, p: nat)
    requires p < |sched| && InTime(c, sched[..p]) && TimelyAt(c, sched, p)
    ensures InTime(c, sched[..p + 1])
  {
    var longer := sched[..p + 1];
    forall q | 0 <= q < |longer|
      ensures TimelyAt(c, longer, q)
    {
      assert longer[..q] == sched[..q];
      if q < p {
        assert TimelyAt(c, sched[..p], q) && sched[..p][..q] == sched[..q];
      }
    }
  }

  /** One read that is not in time is enough: for some earlier contents it goes wrong there. */
  lemma LateReadGoesWrong(c: Config, shm: seq<Byte>, sched: seq<Action>, s: State)
      returns (shm': seq<Byte>, k: nat, s': State)
    requires c.Valid() && |c.Bytes()| <= |shm| && Runs(c, Init(c, shm), sched, s) && !InTime(c, sched)
    ensures |shm'| == |shm| && k <= |sched| && Runs(c, Init(c, shm'), sched[..k], s') && !Right(c, s')
  {
    var p := FirstLate(c, sched);
    var done := sched[..p];
    var mid := RunsPrefix(c, Init(c, shm), sched, p, s);
    InTimeFollows(c, shm, done, mid);
    assert Enabled(c, mid, Read) by {
      assert sched[p..][0] == Read;
    }
    var i := Reads(done);
    var x: Byte := if i < |c.msg| then NUL else 1;
    shm' := shm[i := x];
    Lockstep(c, Init(c, shm), done, mid, i, x);
    RunsSnoc(c, Init(c, shm'), done, Poked(mid, i, x), Read);
    k, s' := p + 1, Step(c, Poked(mid, i, x), Read);
    assert sched[..k] == done + [Read];
    assert mid.out == c.msg[..i];
  }

  /** The exact condition for the message: a schedule prints nothing but the message, and all of
      it, whatever the segment held before, if and only if every byte is stored before it is
      read.  Whether the child's V succeeds does not come into it. */
  lemma PrintsMessageExactly(c: Config, shm: seq<Byte>, sched: seq<Action>, s: State)
    requires c.Valid() && |c.Bytes()| <= |shm| && Runs(c, Init(c, shm), sched, s)
    ensures InTime(c, sched) <==> AlwaysRight(c, |shm|, sched)
    ensures InTime(c, sched) ==> !s.child.Overrun? && s.out <= c.msg && (s.child.Printed? ==> s.out == c.msg)
  {
    if InTime(c, sched) {
      InTimeFollows(c, shm, sched, s);
      forall shm': seq<Byte>, k, r |
        |shm'| == |shm| && 0 <= k <= |sched| && Runs(c, Init(c, shm'), sched[..k], r)
        ensures Right(c, r)
      {
        InTimePrefix(c, sched, k);
        InTimeFollows(c, shm', sched[..k], r);
      }
    } else {
      var shm', k, r := LateReadGoesWrong(c, shm, sched, s);
    }
  }

  // ----- What every run does, message or not -----

  /** The byte that the read at position p finds: the message's if it was stored by then, and
      otherwise what the segment held before. */
  function Found(c: Config, shm: seq<Byte>, sched: seq<Action>, p: nat): Byte
    requires p < |sched| && Reads(sched[..p]) < |shm|
  {
    var i := Reads(sched[..p]);
    if i <= |c.msg| && Store(i) in sched[..p] then c.Bytes()[i] else shm[i]
  }

  /** What a read at position p makes of the output. */
  ghost predicate ReadShows(c: Config, shm: seq<Byte>, sched: seq<Action>, p: nat, s: State)
    requires p < |sched|
  {
    sched[p] == Read ==>
      var i := Reads(sched[..p]);
      if i >= |shm| then s.child.Overrun? && |s.out| == i
      else if Found(c, shm, sched, p) == NUL then s.child.Printed? && |s.out| == i
      else i < |s.out| && s.out[i] == Found(c, shm, sched, p)
  }

  ghost predicate AllShown(c: Config, shm: seq<Byte>, sched: seq<Action>, s: State) {
    forall p :: 0 <= p < |sched| ==> ReadShows(c, shm, sched, p, s)
  }

  /** The state as the actions done so far tell it. */
  ghost predicate Tells(c: Config, shm: seq<Byte>, done: seq<Action>, s: State) {
    && |c.Bytes()| <= |s.shm| == |shm|
    && (forall k: nat :: k < |shm| ==>
          s.shm[k] == if k <= |c.msg| && Store(k) in done then c.Bytes()[k] else shm[k])
    && (s.parent.Posted? <==> Post in done)
    && (forall k: nat :: k < |c.Bytes()| ==>
          (Store(k) in done <==> s.parent.Posted? || k !in s.parent.todo))
    && (s.parent.Copying? ==> forall k: nat :: k in s.parent.todo ==> k < |c.Bytes()|)
    && (s.child.Trying? <==> Try !in done)
    && (s.child.Trying? ==> Reads(done) == 0 && s.out == [])
    && (s.child.Reading? ==> s.child.i == Reads(done) == |s.out|)
  }

  lemma TellsStep(c: Config, shm: seq<Byte>, done: seq<Action>, s: State, a: Action)
    requires Tells(c, shm, done, s) && Enabled(c, s, a)
    ensures Tells(c, shm, done + [a], Step(c, s, a))
  {
    hide Reads;
    ReadsSnoc(done, a);
  }

  lemma ShownStep(c: Config, shm: seq<Byte>, done: seq<Action>, s: State, a: Action)
    requires Tells(c, shm, done, s) && AllShown(c, shm, done, s) && Enabled(c, s, a)
    ensures AllShown(c, shm, done + [a], Step(c, s, a))
  {
    hide Reads;
    var next := done + [a];
    assert next[..|done|] == done;
    forall p | 0 <= p < |next|
      ensures ReadShows(c, shm, next, p, Step(c, s, a))
    {
      if p < |done| {
        assert ReadShows(c, shm, done, p, s) && next[..p] == done[..p];
      }
    }
  }

  lemma {:induction false} TellsRun(c: Config, shm: seq<Byte>, done: seq<Action>, s: State,
      sched: seq<Action>, s': State)
    requires Tells(c, shm, done, s) && AllShown(c, shm, done, s) && Runs(c, s, sched, s')
    ensures Tells(c, shm, done + sched, s') && AllShown(c, shm, done + sched, s')
    decreases |sched|
  {
    if sched == [] {
      assert done + sched == done;
    } else {
      hide Tells, AllShown;
      TellsStep(c, shm, done, s, sched[0]);
      ShownStep(c, shm, done, s, sched[0]);
      assert done + sched == (done + [sched[0]]) + sched[1..];
      TellsRun(c, shm, done + [sched[0]], Step(c, s, sched[0]), sched[1..], s');
    }
  }

  /** The exact output of every run.  Each read shows the byte stored there by then, or else what
      the segment held before; a NUL ends the output, and a read beyond the segment is an overrun.
      There is nothing else in the output. */
  lemma OutputOfEveryRun(c: Config, shm: seq<Byte>, sched: seq<Action>, s: State)
    requires |c.Bytes()| <= |shm| && Runs(c, Init(c, shm), sched, s)
    ensures forall p :: 0 <= p < |sched| && sched[p] == Read ==>
              var i := Reads(sched[..p]);
              if i >= |shm| then s.child.Overrun? && |s.out| == i
              else
                var b := if i <= |c.msg| && Store(i) in sched[..p] then (c.msg + [NUL])[i] else shm[i];
                if b == 0 then s.child.Printed? && |s.out| == i else i < |s.out| && s.out[i] == b
    ensures !s.child.Printed? && !s.child.Overrun? ==> |s.out| == Reads(sched)
  {
    hide Reads;
    NothingDone(c, shm);
    assert [] + sched == sched;
    TellsRun(c, shm, [], Init(c, shm), sched, s);
    forall p | 0 <= p < |sched| && sched[p] == Read
      ensures ReadShows(c, shm, sched, p, s)
    {
    }
  }

  lemma NothingDone(c: Config, shm: seq<Byte>)
    requires |c.Bytes()| <= |shm|
    ensures Tells(c, shm, [], Init(c, shm)) && AllShown(c, shm, [], Init(c, shm))
  {
  }

  /** No interleaving is left out: in every run the parent can store any byte it has not stored
      yet, post as soon as all are stored, and the child can try at any time and then read until
      it has ended; each of these but the reads happens once. */
  lemma EveryInterleaving(c: Config, shm: seq<Byte>, sched: seq<Action>, s: State, a: Action)
    requires |c.Bytes()| <= |shm| && Runs(c, Init(c, shm), sched, s)
    ensures Enabled(c, s, a) <==>
            match a
            case Store(i) => i <= |c.msg| && Store(i) !in sched
            case Post => Post !in sched && forall i: nat :: i <= |c.msg| ==> Store(i) in sched
            case Try => Try !in sched
            case Read => Try in sched && !s.child.Printed? && !s.child.Overrun?
  {
    hide Reads;
    NothingDone(c, shm);
    assert [] + sched == sched;
    TellsRun(c, shm, [], Init(c, shm), sched, s);
    if a.Post? && s.parent.Copying? && s.parent.todo != {} {
      var i :| i in s.parent.todo;
      assert Store(i) !in sched;
    }
  }

  // ----- How the semaphore relates to that condition -----

  lemma {:induction false} StoresDone(c: Config, s: State, sched: seq<Action>, s': State, k: nat)
    requires Runs(c, s, sched, s') && s.parent.Copying? && k in s.parent.todo
    requires s'.parent.Copying? ==> k !in s'.parent.todo
    ensures Store(k) in sched
    decreases |sched|
  {
    if sched == [] {
    } else if sched[0] != Store(k) {
      StoresDone(c, Step(c, s, sched[0]), sched[1..], s', k);
      assert sched == [sched[0]] + sched[1..];
    }
  }

  /** A successful V is enough: every read comes after it, so after the P and all stores. */
  lemma SuccessIsInTime(c: Config, shm: seq<Byte>, sched: seq<Action>, s: State)
    requires c.Valid() && |c.Bytes()| <= |shm| && Runs(c, Init(c, shm), sched, s) && Got(s)
    ensures InTime(c, sched)
  {
    forall p | 0 <= p < |sched|
      ensures TimelyAt(c, sched, p)
    {
      if sched[p] == Read && Reads(sched[..p]) <= |c.msg| {
        var mid := RunsPrefix(c, Init(c, shm), sched, p, s);
        assert sched[p..][0] == Read && Enabled(c, mid, Read);
        CalledOnce(c, mid, sched[p..], s);
        RunKeepsInv(c, Init(c, shm), sched[..p], mid);
        StoresDone(c, Init(c, shm), sched[..p], mid, Reads(sched[..p]));
      }
    }
  }

  lemma {:induction false} StoreRest(c: Config, s: State, k: nat) returns (sched: seq<Action>, s': State)
    requires k <= |c.Bytes()| <= |s.shm| && s.parent.Copying?
    requires forall i: nat :: i in s.parent.todo <==> k <= i < |c.Bytes()|
    requires s.shm[..k] == c.Bytes()[..k]
    ensures Runs(c, s, sched, s') && s' == s.(shm := s'.shm, parent := Copying({}))
    ensures |s'.shm| == |s.shm| && s'.shm[..|c.Bytes()|] == c.Bytes()
    decreases |c.Bytes()| - k
  {
    if k == |c.Bytes()| {
      sched, s' := [], s;
      assert c.Bytes()[..k] == c.Bytes();
    } else {
      var r := Step(c, s, Store(k));
      assert r.shm[..k + 1] == s.shm[..k] + [c.Bytes()[k]];
      var rest;
      rest, s' := StoreRest(c, r, k + 1);
      sched := [Store(k)] + rest;
      assert sched[1..] == rest;
    }
  }

  lemma {:induction false} ReadRest(c: Config, s: State, i: nat) returns (sched: seq<Action>, s': State)
    requires c.Valid() && i <= |c.msg| && |c.Bytes()| <= |s.shm| && s.shm[..|c.Bytes()|] == c.Bytes()
    requires s.child == Reading(false, i) && s.out == c.msg[..i]
    ensures Runs(c, s, sched, s') && s'.child == Printed(false) && s'.out == c.msg
    decreases |c.msg| - i
  {
    var r := Step(c, s, Read);
    assert s.shm[i] == s.shm[..|c.Bytes()|][i] == c.Bytes()[i];
    if i == |c.msg| {
      sched, s' := [Read], r;
      assert c.msg[..i] == c.msg;
      assert sched[1..] == [];
    } else {
      assert c.msg[i] in c.msg && c.msg[..i + 1] == c.msg[..i] + [c.msg[i]];
      var rest;
      rest, s' := ReadRest(c, r, i + 1);
      sched := [Read] + rest;
      assert sched[1..] == rest;
    }
  }

  /** It is not needed: for every message and contents the child, trying between the stores and
      the P, fails its V and prints the message all the same. */
  lemma PrintedWithoutV(c: Config, shm: seq<Byte>) returns (sched: seq<Action>, s: State)
    requires c.Valid() && |c.Bytes()| <= |shm|
    ensures Runs(c, Init(c, shm), sched, s) && !Got(s) && s.child.Printed? && s.out == c.msg
  {
    var stores, s1 := StoreRest(c, Init(c, shm), 0);
    var s2 := Step(c, s1, Try);
    RunsSnoc(c, Init(c, shm), stores, s1, Try);
    var readings, s3 := ReadRest(c, s2, 0);
    RunsAppend(c, Init(c, shm), stores + [Try], s2, readings, s3);
    sched, s := stores + [Try] + readings, s3;
  }

  lemma {:induction false} RunsAppend(c: Config, s: State, a: seq<Action>, mid: State, b: seq<Action>, s': State)
    requires Runs(c, s, a, mid) && Runs(c, mid, b, s')
    ensures Runs(c, s, a + b, s')
    decreases |a|
  {
    if a == [] {
      assert a + b == b;
    } else {
      RunsAppend(c, Step(c, s, a[0]), a[1..], mid, b, s');
      assert (a + b)[1..] == a[1..] + b;
    }
  }

  /** Nor does the failure of the V rule anything out: for every message and segment there are
      contents and an interleaving in which it fails and the child, which does not look at its
      result, prints something else. */
  lemma UnguardedRead(c: Config, size: nat) returns (shm: seq<Byte>, sched: seq<Action>, s: State)
    requires c.Valid() && |c.Bytes()| <= size
    ensures |shm| == size && Runs(c, Init(c, shm), sched, s) && !Got(s)
    ensures s.child.Overrun? || (s.child.Printed? && s.out != c.msg)
  {
    if c.msg == [] {
      shm := seq(size, i requires 0 <= i < size => if i == 0 then 1 else 0);
      sched := [Try, Read, Read];
      var s1 := Step(c, Init(c, shm), Try);
      var s2 := Step(c, s1, Read);
      s := Step(c, s2, Read);
      assert sched[1..] == [Read, Read] && [Read, Read][1..] == [Read] && [Read][1..] == [];
      assert Runs(c, s2, [Read], s);
      assert Runs(c, s1, [Read, Read], s);
    } else {
      shm := seq(size, i requires 0 <= i < size => 0);
      sched := [Try, Read];
      var s1 := Step(c, Init(c, shm), Try);
      s := Step(c, s1, Read);
      assert sched[1..] == [Read] && [Read][1..] == [];
      assert Runs(c, s1, [Read], s);
    }
  }
}
