/** The reference count (refcount_c11.c:37-65, refcount_lock.c:29-51): compare-and-swap loops of any number of threads,
    step by step, against the same operations under a lock. */
module Refcount {
  import opened Wrappers

  /** CRYPTO_REFCOUNT_MAX */
  const MAX: nat := 0xffff_ffff

  /** CRYPTO_refcount_inc and CRYPTO_refcount_dec_and_test_zero, with what they answer: for an increment nothing, for a
      decrement whether the count is now zero, or that the process is aborted. */
  datatype Op = Inc | Dec

  datatype Answer = Nothing | NotZero | Zero | Abort

  // ----- under the lock -----

  /** The count and the answer after an operation under the lock. */
  function Locked(c: nat, op: Op): (nat, Answer) {
    match op
    case Inc => (if c < MAX then c + 1 else c, Nothing)
    case Dec =>
      if c == 0 then (0, Abort)
      else
        var c' := if c < MAX then c - 1 else c;
        (c', if c' == 0 then Zero else NotZero)
  }

  /** The form of refcount_lock.c. */
  class LockedCount {
    var count: nat

    constructor (c: nat)
      ensures count == c
    {
      count := c;
    }

    method IncUnderLock()
      modifies this
      ensures count == Locked(old(count), Inc).0
    {
      if count < MAX {
        count := count + 1;
      }
    }

    /** None stands for abort(). */
    method DecAndTestZero() returns (zero: Option<bool>)
      modifies this
      ensures count == Locked(old(count), Dec).0
      ensures match Locked(old(count), Dec).1
              case Abort => zero == None
              case a => zero == Some(a == Zero)
    {
      if count == 0 {
        return None;
      }
      if count < MAX {
        count := count - 1;
      }
      zero := Some(count == 0);
    }
  }

  // ----- without a lock -----

  /** Where a thread is: outside; called but nothing read yet; with an expected value in hand; or with the answer
      fixed and about to return it. */
  datatype Local = Outside | Called(op: Op) | Expecting(op: Op, expected: nat) | Decided(op: Op, answer: Answer)

  /** What is observed of a run: calls, the moments at which operations take effect, and returns. */
  datatype Event =
    | Call(i: nat, op: Op)
    | Effect(i: nat, op: Op, answer: Answer)
    | Return(i: nat, op: Op, answer: Answer)

  datatype Shared = Shared(count: nat, threads: seq<Local>, events: seq<Event>)

  /** One step of thread i.  In Begin a thread calls an operation; otherwise it does its next atomic access or returns.
      `spurious` makes a compare-and-swap fail for no reason. */
  datatype Move = Begin(i: nat, op: Op) | Go(i: nat, spurious: bool)

  /** The values that end a loop without a swap. */
  predicate Terminal(op: Op, v: nat) { v == MAX || (op == Dec && v == 0) }

  /** A thread has read v: the loop ends on a terminal value, and that read is the moment of effect. */
  function HasRead(s: Shared, i: nat, op: Op, v: nat): Shared
    requires i < |s.threads|
  {
    if Terminal(op, v) then
      var a := if op == Inc then Nothing else if v == 0 then Abort else NotZero;
      Decide(s, i, op, a)
    else s.(threads := s.threads[i := Expecting(op, v)])
  }

  function Decide(s: Shared, i: nat, op: Op, a: Answer): Shared
    requires i < |s.threads|
  {
    s.(threads := s.threads[i := Decided(op, a)], events := s.events + [Effect(i, op, a)])
  }

  /** atomic_compare_exchange_weak: on success the new value is in place, on failure the actual one is read. */
  function Swap(s: Shared, i: nat, op: Op, expected: nat, spurious: bool): Shared
    requires i < |s.threads|
  {
    if s.count == expected && !spurious then
      var v := if op == Inc then expected + 1 else if expected > 0 then expected - 1 else 0;
      Decide(s.(count := v), i, op, if op == Inc then Nothing else if v == 0 then Zero else NotZero)
    else HasRead(s, i, op, s.count)
  }

  function Step(s: Shared, m: Move): Shared {
    if m.i >= |s.threads| then s
    else match s.threads[m.i]
      case Outside =>
        if m.Begin? then s.(threads := s.threads[m.i := Called(m.op)], events := s.events + [Call(m.i, m.op)]) else s
      case Called(op) => if m.Go? then HasRead(s, m.i, op, s.count) else s
      case Expecting(op, expected) => if m.Go? then Swap(s, m.i, op, expected, m.spurious) else s
      case Decided(op, a) =>
        if m.Go? && a != Abort then s.(threads := s.threads[m.i := Outside], events := s.events + [Return(m.i, op, a)])
        else s
  }

  function Run(s: Shared, ms: seq<Move>): Shared
    decreases |ms|
  {
    if ms == [] then s else Run(Step(s, ms[0]), ms[1..])
  }

  function Begun(c: nat, threads: nat): Shared { Shared(c, seq(threads, _ => Outside), []) }

  // ----- linearisation -----

  /** The operations of a run, in the order in which they take effect, done one after another under the lock: None if
      the lock would have given some other answer. */
  function Replay(c: nat, events: seq<Event>): Option<nat> {
    if events == [] then Some(c)
    else
      var e := events[|events|-1];
      match Replay(c, events[..|events|-1])
      case None => None
      case Some(c') =>
        if !e.Effect? then Some(c')
        else if Locked(c', e.op).1 == e.answer then Some(Locked(c', e.op).0)
        else None
  }

  /** What a thread is doing, going by the events alone: it calls, its operation takes effect once, and it returns the
      answer.  None if it does anything else. */
  datatype Phase = Idle | Pending(op: Op) | Effected(op: Op, answer: Answer)

  function PhaseOf(events: seq<Event>, i: nat): Option<Phase> {
    if events == [] then Some(Idle)
    else
      var e := events[|events|-1];
      match PhaseOf(events[..|events|-1], i)
      case None => None
      case Some(p) =>
        if e.i != i then Some(p)
        else match e
          case Call(_, op) => if p == Idle then Some(Pending(op)) else None
          case Effect(_, op, a) => if p == Pending(op) then Some(Effected(op, a)) else None
          case Return(_, op, a) => if p == Effected(op, a) then Some(Idle) else None
  }

  function PhaseFor(l: Local): Phase {
    match l
    case Outside => Idle
    case Called(op) => Pending(op)
    case Expecting(op, _) => Pending(op)
    case Decided(op, a) => Effected(op, a)
  }

  /** The run so far is one of the locked operations, each within the bounds of its call. */
  ghost predicate Linearised(c0: nat, s: Shared) {
    && Replay(c0, s.events) == Some(s.count)
    && s.count <= MAX
    && forall i :: 0 <= i < |s.threads| ==> ThreadOk(s, i)
  }

  ghost predicate ThreadOk(s: Shared, i: nat)
    requires i < |s.threads|
  {
    && PhaseOf(s.events, i) == Some(PhaseFor(s.threads[i]))
    && (s.threads[i].Expecting? ==> s.threads[i].expected < MAX && !Terminal(s.threads[i].op, s.threads[i].expected))
  }

  lemma Snoc(c: nat, events: seq<Event>, e: Event, i: nat)
    ensures Replay(c, events + [e]) == (match Replay(c, events)
                                        case None => None
                                        case Some(c') =>
                                          if !e.Effect? then Some(c')
                                          else if Locked(c', e.op).1 == e.answer then Some(Locked(c', e.op).0)
                                          else None)
    ensures e.i != i ==> PhaseOf(events + [e], i) == PhaseOf(events, i)
    ensures PhaseOf(events, e.i) == Some(Idle) && e.Call? ==> PhaseOf(events + [e], e.i) == Some(Pending(e.op))
    ensures e.Effect? && PhaseOf(events, e.i) == Some(Pending(e.op)) ==>
              PhaseOf(events + [e], e.i) == Some(Effected(e.op, e.answer))
    ensures e.Return? && PhaseOf(events, e.i) == Some(Effected(e.op, e.answer)) ==>
              PhaseOf(events + [e], e.i) == Some(Idle)
  {
    assert (events + [e])[..|events|] == events;
  }

  /** An event of thread j that fits what it is doing. */
  lemma Extends(c0: nat, s: Shared, s': Shared, j: nat, e: Event)
    requires Linearised(c0, s) && j < |s.threads| && e.i == j
    requires s'.events == s.events + [e] && |s'.threads| == |s.threads| && s'.threads == s.threads[j := s'.threads[j]]
    requires match e
             case Call(_, op) => s.threads[j] == Outside && s'.threads[j] == Called(op)
             case Effect(_, op, a) => PhaseFor(s.threads[j]) == Pending(op) && s'.threads[j] == Decided(op, a)
             case Return(_, op, a) => s.threads[j] == Decided(op, a) && s'.threads[j] == Outside
    requires if e.Effect? then Locked(s.count, e.op) == (s'.count, e.answer) else s'.count == s.count
    ensures Linearised(c0, s')
  {
    Snoc(c0, s.events, e, j);
    forall i | 0 <= i < |s'.threads| ensures ThreadOk(s', i) {
      assert ThreadOk(s, i);
      Snoc(c0, s.events, e, i);
    }
  }

  lemma ReadKeeps(c0: nat, s: Shared, i: nat, op: Op)
    requires Linearised(c0, s) && i < |s.threads| && PhaseFor(s.threads[i]) == Pending(op)
    ensures Linearised(c0, HasRead(s, i, op, s.count))
  {
    var s' := HasRead(s, i, op, s.count);
    if Terminal(op, s.count) {
      Extends(c0, s, s', i, s'.events[|s.events|]);
    } else {
      forall k | 0 <= k < |s'.threads| ensures ThreadOk(s', k) { assert ThreadOk(s, k); }
    }
  }

  lemma SwapKeeps(c0: nat, s: Shared, i: nat, op: Op, expected: nat, spurious: bool)
    requires Linearised(c0, s) && i < |s.threads| && s.threads[i] == Expecting(op, expected)
    ensures Linearised(c0, Swap(s, i, op, expected, spurious))
  {
    if s.count == expected && !spurious {
      assert ThreadOk(s, i);
      var s' := Swap(s, i, op, expected, spurious);
      Extends(c0, s, s', i, s'.events[|s.events|]);
    } else {
      ReadKeeps(c0, s, i, op);
    }
  }

  lemma StepKeeps(c0: nat, s: Shared, m: Move)
    requires Linearised(c0, s)
    ensures Linearised(c0, Step(s, m))
  {
    if m.i < |s.threads| {
      var s', i := Step(s, m), m.i;
      match s.threads[i]
      case Outside => if m.Begin? { Extends(c0, s, s', i, Call(i, m.op)); }
      case Called(op) => if m.Go? { ReadKeeps(c0, s, i, op); }
      case Expecting(op, expected) => if m.Go? { SwapKeeps(c0, s, i, op, expected, m.spurious); }
      case Decided(op, a) => if m.Go? && a != Abort { Extends(c0, s, s', i, Return(i, op, a)); }
    }
  }

  lemma {:induction false} RunKeeps(c0: nat, s: Shared, ms: seq<Move>)
    requires Linearised(c0, s)
    ensures Linearised(c0, Run(s, ms))
    decreases |ms|
  {
    if ms != [] {
      StepKeeps(c0, s, ms[0]);
      RunKeeps(c0, Step(s, ms[0]), ms[1..]);
    }
  }

  /** Under any interleaving of any number of threads, spurious failures included, every operation takes effect in one
      step between its call and its return, and the effects are those of the locked operations in that order. */
  lemma LockFreeRefinesLocked(c0: nat, threads: nat, ms: seq<Move>)
    requires c0 <= MAX
    ensures var s := Run(Begun(c0, threads), ms);
            && Replay(c0, s.events) == Some(s.count)
            && forall i :: 0 <= i < |s.threads| ==> PhaseOf(s.events, i).Some?
  {
    assert Linearised(c0, Begun(c0, threads));
    RunKeeps(c0, Begun(c0, threads), ms);
    var s := Run(Begun(c0, threads), ms);
    forall i | 0 <= i < |s.threads| ensures PhaseOf(s.events, i).Some? { assert ThreadOk(s, i); }
  }

  // ----- what that means for counting -----

  /** How many operations of a kind have taken effect. */
  function Count(events: seq<Event>, op: Op): nat {
    if events == [] then 0
    else Count(events[..|events|-1], op) + if events[|events|-1].Effect? && events[|events|-1].op == op then 1 else 0
  }

  /** How many decrements have reported zero. */
  function Zeros(events: seq<Event>): nat {
    if events == [] then 0
    else Zeros(events[..|events|-1])
         + if events[|events|-1].Effect? && events[|events|-1].answer == Zero then 1 else 0
  }

  predicate Aborted(events: seq<Event>) {
    events != []
    && (Aborted(events[..|events|-1]) || (events[|events|-1].Effect? && events[|events|-1].answer == Abort))
  }

  /** References are only taken and given back while there is one. */
  predicate Live(c0: nat, events: seq<Event>) {
    events == []
    || (var n := |events| - 1;
        Live(c0, events[..n]) && (events[n].Effect? ==> Count(events[..n], Dec) < c0 + Count(events[..n], Inc)))
  }

  /** Once the count is saturated it stays so. */
  lemma {:induction false} SaturationSticks(c0: nat, events: seq<Event>, more: seq<Event>)
    requires Replay(c0, events) == Some(MAX) && Replay(c0, events + more).Some?
    ensures Replay(c0, events + more) == Some(MAX)
    decreases |more|
  {
    if more == [] {
      assert events + more == events;
    } else {
      var n := |more| - 1;
      assert (events + more)[..|events| + n] == events + more[..n];
      SaturationSticks(c0, events, more[..n]);
    }
  }

  /** Where references are used properly, the count is the number of references or saturated; nothing aborts; and
      zero is reported exactly when the last reference goes, once, and never if the count saturated. */
  lemma {:induction false} CountsReferences(c0: nat, events: seq<Event>)
    requires 1 <= c0 <= MAX && Live(c0, events) && Replay(c0, events).Some?
    ensures Count(events, Dec) <= c0 + Count(events, Inc) && !Aborted(events)
    ensures var c := Replay(c0, events).value;
            c == MAX || (c < MAX && c == c0 + Count(events, Inc) - Count(events, Dec))
    ensures Zeros(events) == if Replay(c0, events) == Some(0) then 1 else 0
  {
    if events != [] {
      CountsReferences(c0, events[..|events|-1]);
    }
  }

  /** The count under balanced use by any number of threads: no abort, and exactly one decrement reports zero if all
      references are gone and the count never saturated, none otherwise. */
  lemma BalancedUse(c0: nat, threads: nat, ms: seq<Move>)
    requires var s := Run(Begun(c0, threads), ms); 1 <= c0 <= MAX && Live(c0, s.events)
    ensures var s := Run(Begun(c0, threads), ms);
            && !Aborted(s.events)
            && Zeros(s.events) == (if s.count == 0 then 1 else 0)
            && (s.count == MAX || s.count == c0 + Count(s.events, Inc) - Count(s.events, Dec))
  {
    LockFreeRefinesLocked(c0, threads, ms);
    CountsReferences(c0, Run(Begun(c0, threads), ms).events);
  }
}
