/** The semaphore wrappers over semop and semctl, and their use by one program. */
module Semaphore {

  /** Whether semop with IPC_NOWAIT succeeds on a semaphore of value val (POSIX.1-2017 System
      Interfaces, semop): a positive operation fails with ERANGE beyond the system maximum, and a
      negative one with EAGAIN below zero.  The program makes no operation of zero. */
  predicate Succeeds(max: nat, val: nat, op: int)
    requires op != 0
  {
    if op > 0 then val + op <= max else val + op >= 0
  }

  /** A failing call changes nothing. */
  function Semop(max: nat, val: nat, op: int): nat
    requires op != 0
  {
    if Succeeds(max, val, op) then val + op else val
  }

  /** The P of this program adds one, and its V subtracts one. */
  const P_OP := 1
  const V_OP := -1

  /** One pass of the loop body. */
  function Round(max: nat, val: nat): nat {
    Semop(max, Semop(max, val, P_OP), V_OP)
  }

  function Rounds(max: nat, val: nat, n: nat): nat {
    if n == 0 then val else Round(max, Rounds(max, val, n - 1))
  }

  /** Any number of rounds restores the value exactly if there is room for one more. */
  lemma {:induction false} RoundsRestore(max: nat, val: nat, n: nat)
    requires val <= max
    ensures Rounds(max, val, n) == val <==> val < max || max == 0 || n == 0
    ensures Rounds(max, val, n) == if val == max && max > 0 && n > 0 then max - 1 else val
  {
    if n == 0 {
    } else {
      RoundsRestore(max, val, n - 1);
    }
  }

  // ----- Histories of calls on one semaphore set -----

  /** The identifier of the set; every other one is unknown to the kernel. */
  const SEMID := 0

  datatype Sem = Sem(present: bool, val: nat)

  /** The wrappers of the program.  Create also says whether semget fails, and what value the
      system gives to a new set before one is stored. */
  datatype Call =
    | Create(semgetFails: bool, value: int, initial: nat)
    | SetValue(semid: int, value: int)
    | P(semid: int)
    | V(semid: int)
    | GetValue(semid: int)
    | Destroy(semid: int)

  /** SetValueSem and DestroySem return nothing. */
  datatype Reply = Nothing | Returned(r: int)

  predicate Known(s: Sem, semid: int) {
    s.present && semid == SEMID
  }

  /** One call on the set: semctl with SETVAL refuses a value outside 0..max with ERANGE. */
  function Apply(max: nat, s: Sem, call: Call): (Sem, Reply) {
    match call
    case Create(fails, value, initial) =>
      if fails then (s, Returned(-1))
      else (Sem(true, if 0 <= value <= max then value else if s.present then s.val else initial), Returned(SEMID))
    case SetValue(id, value) =>
      (if Known(s, id) && 0 <= value <= max then s.(val := value) else s, Nothing)
    case P(id) => ApplySemop(max, s, id, P_OP)
    case V(id) => ApplySemop(max, s, id, V_OP)
    case GetValue(id) => (s, Returned(if Known(s, id) then s.val else -1))
    case Destroy(id) => (if id == SEMID then s.(present := false) else s, Nothing)
  }

  function ApplySemop(max: nat, s: Sem, semid: int, op: int): (Sem, Reply)
    requires op != 0
  {
    if Known(s, semid) && Succeeds(max, s.val, op)
    then (s.(val := Semop(max, s.val, op)), Returned(0))
    else (s, Returned(-1))
  }

  function After(max: nat, s: Sem, calls: seq<Call>, n: nat): Sem
    requires n <= |calls|
  {
    if n == 0 then s else Apply(max, After(max, s, calls, n - 1), calls[n - 1]).0
  }

  function Replies(max: nat, s: Sem, calls: seq<Call>): seq<Reply> {
    seq(|calls|, k requires 0 <= k < |calls| => Apply(max, After(max, s, calls, k), calls[k]).1)
  }

  /** A new set starts within the range. */
  predicate InRange(max: nat, calls: seq<Call>) {
    forall k :: 0 <= k < |calls| && calls[k].Create? ==> calls[k].initial <= max
  }

  // ----- What the calls and replies say by themselves, without the state of the kernel -----

  ghost predicate Survives(was: bool, calls: seq<Call>, j: nat, n: nat)
    requires j <= n <= |calls|
  {
    && (if j == 0 then was else calls[j - 1].Create? && !calls[j - 1].semgetFails)
    && forall i :: j <= i < n ==> calls[i] != Destroy(SEMID)
  }

  /** The set exists after n calls: created by one of them, or there before, and not removed since. */
  ghost predicate Present(was: bool, calls: seq<Call>, n: nat)
    requires n <= |calls|
  {
    exists j: nat | j <= n :: Survives(was, calls, j, n)
  }

  /** Whether a call stores a value, given whether the set exists. */
  predicate Storing(max: nat, present: bool, call: Call) {
    match call
    case Create(fails, value, _) => !fails && (0 <= value <= max || !present)
    case SetValue(id, value) => id == SEMID && 0 <= value <= max && present
    case _ => false
  }

  ghost predicate Stores(max: nat, was: bool, calls: seq<Call>, k: nat)
    requires k < |calls|
  {
    Storing(max, Present(was, calls, k), calls[k])
  }

  function Stored(max: nat, call: Call): int
    requires call.Create? || call.SetValue?
  {
    if call.Create? && !(0 <= call.value <= max) then call.initial else call.value
  }

  /** The number of calls up to and with the last one that stored a value. */
  ghost function LastStore(max: nat, was: bool, calls: seq<Call>, n: nat): (j: nat)
    requires n <= |calls|
    ensures j <= n && (j > 0 ==> Stores(max, was, calls, j - 1))
    ensures forall k :: j <= k < n ==> !Stores(max, was, calls, k)
  {
    if n == 0 || Stores(max, was, calls, n - 1) then n else LastStore(max, was, calls, n - 1)
  }

  /** How often this call returned 0 from position j on, before position n. */
  function Successes(calls: seq<Call>, replies: seq<Reply>, call: Call, j: nat, n: nat): nat
    requires j <= n <= |calls| == |replies|
  {
    if j == n then 0
    else Successes(calls, replies, call, j, n - 1)
         + if calls[n - 1] == call && replies[n - 1] == Returned(0) then 1 else 0
  }

  /** The value last stored, plus the successful Ps since, minus the successful Vs since. */
  ghost function Account(max: nat, s: Sem, calls: seq<Call>, replies: seq<Reply>, n: nat): int
    requires n <= |calls| == |replies|
  {
    var j := LastStore(max, s.present, calls, n);
    (if j == 0 then s.val else Stored(max, calls[j - 1]))
    + Successes(calls, replies, P(SEMID), j, n) - Successes(calls, replies, V(SEMID), j, n)
  }

  lemma PresentFirst(was: bool, calls: seq<Call>)
    ensures Present(was, calls, 0) <==> was
  {
    assert Survives(was, calls, 0, 0) <==> was;
  }

  lemma PresentNext(was: bool, calls: seq<Call>, n: nat)
    requires n < |calls|
    ensures Present(was, calls, n + 1) <==>
            (calls[n].Create? && !calls[n].semgetFails) || (Present(was, calls, n) && calls[n] != Destroy(SEMID))
  {
    if calls[n].Create? && !calls[n].semgetFails {
      assert Survives(was, calls, n + 1, n + 1);
    } else if Present(was, calls, n) && calls[n] != Destroy(SEMID) {
      var j: nat :| j <= n && Survives(was, calls, j, n);
      assert Survives(was, calls, j, n + 1);
    } else if Present(was, calls, n + 1) {
      var j: nat :| j <= n + 1 && Survives(was, calls, j, n + 1);
      assert Survives(was, calls, j, n);
    }
  }

  lemma AccountNext(max: nat, s: Sem, calls: seq<Call>, replies: seq<Reply>, n: nat)
    requires n < |calls| == |replies|
    ensures Account(max, s, calls, replies, n + 1) ==
            if Stores(max, s.present, calls, n) then Stored(max, calls[n])
            else Account(max, s, calls, replies, n)
                 + (if calls[n] == P(SEMID) && replies[n] == Returned(0) then 1 else 0)
                 - (if calls[n] == V(SEMID) && replies[n] == Returned(0) then 1 else 0)
  {
    hide Stores, Stored;
  }

  lemma ApplyTells(max: nat, s: Sem, call: Call)
    requires s.val <= max && (call.Create? ==> call.initial <= max)
    ensures var (t, reply) := Apply(max, s, call);
            && t.val <= max
            && t.val == if Storing(max, s.present, call) then Stored(max, call)
                        else s.val + (if call == P(SEMID) && reply == Returned(0) then 1 else 0)
                             - (if call == V(SEMID) && reply == Returned(0) then 1 else 0)
  {
  }

  lemma {:induction false} PresenceTold(max: nat, s: Sem, calls: seq<Call>, n: nat)
    requires n <= |calls|
    ensures After(max, s, calls, n).present <==> Present(s.present, calls, n)
  {
    if n == 0 {
      PresentFirst(s.present, calls);
    } else {
      hide Present;
      PresenceTold(max, s, calls, n - 1);
      PresentNext(s.present, calls, n - 1);
    }
  }

  lemma HistoryStarts(max: nat, s: Sem, calls: seq<Call>)
    ensures After(max, s, calls, 0).val == Account(max, s, calls, Replies(max, s, calls), 0) == s.val
  {
  }

  lemma HistoryStep(max: nat, s: Sem, calls: seq<Call>, n: nat)
    requires n < |calls| && InRange(max, calls)
    requires After(max, s, calls, n).present <==> Present(s.present, calls, n)
    requires After(max, s, calls, n).val == Account(max, s, calls, Replies(max, s, calls), n) <= max
    ensures After(max, s, calls, n + 1).val == Account(max, s, calls, Replies(max, s, calls), n + 1) <= max
  {
    hide Apply, Account, Present, Storing, Stored;
    ApplyTells(max, After(max, s, calls, n), calls[n]);
    AccountNext(max, s, calls, Replies(max, s, calls), n);
  }

  /** After any calls, the set exists and has its value as the history says, within 0..max. */
  lemma {:induction false} HistoryTells(max: nat, s: Sem, calls: seq<Call>, n: nat)
    requires s.val <= max && InRange(max, calls) && n <= |calls|
    ensures After(max, s, calls, n).present <==> Present(s.present, calls, n)
    ensures After(max, s, calls, n).val == Account(max, s, calls, Replies(max, s, calls), n) <= max
  {
    hide *;
    PresenceTold(max, s, calls, n);
    if n == 0 {
      HistoryStarts(max, s, calls);
    } else {
      HistoryTells(max, s, calls, n - 1);
      HistoryStep(max, s, calls, n - 1);
    }
  }

  /** Every reply follows from the calls and replies before it: a call on a set that is absent by
      then, or by another identifier, fails; the others fail exactly when the account says so.
      Neither a call that returns -1 nor one on an absent set changes anything. */
  lemma RepliesExplained(max: nat, s: Sem, calls: seq<Call>, k: nat)
    requires s.val <= max && InRange(max, calls) && k < |calls|
    ensures var replies := Replies(max, s, calls);
            var account := Account(max, s, calls, replies, k);
            var present := Present(s.present, calls, k);
            replies[k] ==
              match calls[k]
              case Create(fails, _, _) => Returned(if fails then -1 else SEMID)
              case P(id) => Returned(if id == SEMID && present && account < max then 0 else -1)
              case V(id) => Returned(if id == SEMID && present && account > 0 then 0 else -1)
              case GetValue(id) => Returned(if id == SEMID && present then account else -1)
              case _ => Nothing
    ensures Replies(max, s, calls)[k] == Returned(-1)
            || (!calls[k].Create? && !(calls[k].semid == SEMID && Present(s.present, calls, k))) ==>
              After(max, s, calls, k + 1) == After(max, s, calls, k)
  {
    HistoryTells(max, s, calls, k);
  }

  /** The lines the program prints. */
  datatype Message = KeyFailed | CreateFailed | SemValue(value: int)

  /** One semaphore set, known to all processes by its key. */
  class Kernel {
    const max: nat            // system maximum of a semaphore value
    var present: bool
    var val: nat
    ghost var trace: seq<Call>  // the calls of the wrappers so far

    ghost predicate Valid()
      reads this
    {
      val <= max
    }

    function Now(): Sem
      reads this
    {
      Sem(present, val)
    }

    constructor (max: nat, present: bool, val: nat)
      requires val <= max
      ensures Valid() && this.max == max && this.present == present && this.val == val && trace == []
    {
      this.max, this.present, this.val, trace := max, present, val, [];
    }

    method SemopCall(semid: int, op: int) returns (r: int)
      requires Valid() && op != 0
      modifies `val
      ensures Valid()
      ensures r == if Known(Now(), semid) && Succeeds(max, old(val), op) then 0 else -1
      ensures val == if r == 0 then old(val) + op else old(val)
    {
      if !Known(Now(), semid) || !Succeeds(max, val, op) {
        return -1;
      }
      val := val + op;
      return 0;
    }

    /** semctl with SETVAL. */
    method SetVal(semid: int, value: int)
      requires Valid()
      modifies `val
      ensures Valid()
      ensures val == if Known(Now(), semid) && 0 <= value <= max then value else old(val)
    {
      if Known(Now(), semid) && 0 <= value <= max {
        val := value;
      }
    }

    method SetValueSem(semid: int, value: int)
      requires Valid()
      modifies `val, `trace
      ensures Valid() && trace == old(trace) + [SetValue(semid, value)]
      ensures val == if Known(Now(), semid) && 0 <= value <= max then value else old(val)
    {
      trace := trace + [SetValue(semid, value)];
      SetVal(semid, value);
    }

    method GetValueSem(semid: int) returns (r: int)
      modifies `trace
      ensures trace == old(trace) + [GetValue(semid)]
      ensures r == if Known(Now(), semid) then val else -1
    {
      trace := trace + [GetValue(semid)];
      return if Known(Now(), semid) then val else -1;
    }

    /** Creates the set, or opens the existing one, unless semget fails; the outcome of storing
        the initial value is not looked at. */
    method CreateSem(semgetFails: bool, value: int, initial: nat) returns (semid: int, printed: seq<Message>)
      requires Valid() && initial <= max
      modifies this
      ensures Valid()
      ensures trace == old(trace) + [Create(semgetFails, value, initial)]
      ensures semgetFails ==> semid == -1 && printed == [CreateFailed] && Now() == old(Now())
      ensures !semgetFails ==> semid == SEMID && printed == [] && present
      ensures !semgetFails ==>
                val == if 0 <= value <= max then value else if old(present) then old(val) else initial
    {
      trace := trace + [Create(semgetFails, value, initial)];
      if semgetFails {
        return -1, [CreateFailed];
      }
      if !present {
        present, val := true, initial;
      }
      SetVal(SEMID, value);
      return SEMID, [];
    }

    method SemP(semid: int) returns (r: int)
      requires Valid()
      modifies `val, `trace
      ensures Valid() && trace == old(trace) + [P(semid)]
      ensures r == if Known(Now(), semid) && old(val) < max then 0 else -1
      ensures val == old(val) + if r == 0 then 1 else 0
    {
      trace := trace + [P(semid)];
      r := SemopCall(semid, P_OP);
    }

    method SemV(semid: int) returns (r: int)
      requires Valid()
      modifies `val, `trace
      ensures Valid() && trace == old(trace) + [V(semid)]
      ensures r == if Known(Now(), semid) && old(val) > 0 then 0 else -1
      ensures val == old(val) - if r == 0 then 1 else 0
    {
      trace := trace + [V(semid)];
      r := SemopCall(semid, V_OP);
    }

    method DestroySem(semid: int)
      modifies `present, `trace
      ensures trace == old(trace) + [Destroy(semid)]
      ensures present == (old(present) && semid != SEMID)
    {
      trace := trace + [Destroy(semid)];
      if semid == SEMID {
        present := false;
      }
    }

    method Serve(call: Call) returns (reply: Reply)
      requires Valid() && InRange(max, [call])
      modifies this
      ensures Valid() && trace == old(trace) + [call]
      ensures (Now(), reply) == Apply(max, old(Now()), call)
    {
      assert [call][0] == call;
      reply := Nothing;
      match call {
        case Create(fails, value, initial) =>
          var semid, _ := CreateSem(fails, value, initial);
          reply := Returned(semid);
        case SetValue(id, value) => SetValueSem(id, value);
        case P(id) =>
          var r := SemP(id);
          reply := Returned(r);
        case V(id) =>
          var r := SemV(id);
          reply := Returned(r);
        case GetValue(id) =>
          var r := GetValueSem(id);
          reply := Returned(r);
        case Destroy(id) => DestroySem(id);
      }
    }

    /** Any sequence of calls: the replies and the state are those of the history, and so as
        HistoryTells and RepliesExplained say. */
    method ServeAll(calls: seq<Call>) returns (replies: seq<Reply>)
      requires Valid() && InRange(max, calls)
      modifies this
      ensures Valid() && trace == old(trace) + calls
      ensures replies == Replies(max, old(Now()), calls)
      ensures present <==> Present(old(present), calls, |calls|)
      ensures val == Account(max, old(Now()), calls, replies, |calls|)
    {
      ghost var s := Now();
      replies := [];
      for k := 0 to |calls|
        invariant Valid() && Now() == After(max, s, calls, k)
        invariant trace == old(trace) + calls[..k]
        invariant replies == Replies(max, s, calls)[..k]
      {
        var reply := Serve(calls[k]);
        replies := replies + [reply];
      }
      HistoryTells(max, s, calls, |calls|);
    }

    /** The loop of the main program; the results of the calls are not looked at. */
    method FourRounds(semid: int)
      requires Valid()
      modifies `val, `trace
      ensures Valid()
      ensures val == if Known(Now(), semid) then Rounds(max, old(val), 4) else old(val)
      ensures trace == old(trace) + [P(semid), V(semid), P(semid), V(semid), P(semid), V(semid), P(semid), V(semid)]
    {
      ghost var pair := [P(semid), V(semid)];
      for i := 0 to 4
        invariant Valid()
        invariant val == if Known(Now(), semid) then Rounds(max, old(val), i) else old(val)
        invariant trace == old(trace) + (pair + pair + pair + pair)[..2 * i]
      {
        var r := SemP(semid);
        r := SemV(semid);
      }
    }

    /** The main program: create with 100, four rounds of P and V, one more V, print, remove. */
    method Program(ftokFails: bool, semgetFails: bool, initial: nat) returns (status: int, printed: seq<Message>)
      requires Valid() && initial <= max
      modifies this
      ensures Valid()
      ensures ftokFails ==> status == -1 && printed == [KeyFailed] && unchanged(this)
      ensures !ftokFails ==> status == 0
      ensures !ftokFails ==>
                var id := if semgetFails then -1 else SEMID;
                trace == old(trace) + [Create(semgetFails, 100, initial),
                                       P(id), V(id), P(id), V(id), P(id), V(id), P(id), V(id),
                                       V(id), GetValue(id), Destroy(id)]
      ensures !ftokFails && semgetFails ==> printed == [CreateFailed, SemValue(-1)] && Now() == old(Now())
      ensures !ftokFails && !semgetFails ==>
                var start := if 100 <= max then 100 else if old(present) then old(val) else initial;
                var taken := if start == max then 2 else 1;
                !present && printed == [SemValue(if start >= taken then start - taken else 0)]
      ensures !ftokFails && !semgetFails ==> (printed == [SemValue(99)] <==> max > 100)
    {
      if ftokFails {
        return -1, [KeyFailed];
      }
      var semid;
      semid, printed := CreateSem(semgetFails, 100, initial);
      ghost var start := val;
      FourRounds(semid);
      RoundsRestore(max, start, 4);
      var r := SemV(semid);
      var value := GetValueSem(semid);
      printed := printed + [SemValue(value)];
      DestroySem(semid);
      status := 0;
    }
  }
}
