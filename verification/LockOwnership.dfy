/**
 * The ownership mark that debug builds keep beside a mutex: Lock
 * (base/synchronization/lock.h and lock.cc), its POSIX mutex, and
 * ConditionVariable::Wait. Any number of threads, one atomic step at a time.
 */
module LockOwnership {
  type Thread = nat

  // ThreadRefType(), and a mutex that nobody holds.
  const NOBODY: int := -1

  /** Where a thread is in its calls. */
  datatype Phase =
    | Outside      // between calls, without the lock
    | Locking      // Acquire: in pthread_mutex_lock
    | Trying       // Try: before pthread_mutex_trylock
    | Marking      // has the mutex, before CheckUnheldAndMark
    | Inside       // between calls, with the lock
    | Releasing    // Release: before CheckHeldAndUnmark
    | Unlocking    // Release: before pthread_mutex_unlock
    | WaitCalled   // Wait: before CheckHeldAndUnmark
    | Blocking     // Wait: before pthread_cond_wait
    | Waiting      // in pthread_cond_wait, not signalled yet
    | Woken        // in pthread_cond_wait, getting the mutex back
  {
    predicate HasMutex() {
      Marking? || Inside? || Releasing? || Unlocking? || WaitCalled? || Blocking?
    }

    predicate IsMarked() {
      Inside? || Releasing? || WaitCalled?
    }

    predicate BetweenCalls() {
      Outside? || Inside?
    }
  }

  /** The mutex, the mark, and whether any DCHECK has failed. */
  datatype State = State(holder: int, owner: int, phases: seq<Phase>, failed: bool) {
    function At(t: Thread, phase: Phase): State
      requires t < |phases|
    {
      this.(phases := phases[t := phase])
    }

    function Checked(condition: bool): State {
      this.(failed := failed || !condition)
    }
  }

  ghost predicate Init(s: State) {
    && s.holder == NOBODY && s.owner == NOBODY && !s.failed
    && forall t :: 0 <= t < |s.phases| ==> s.phases[t] == Outside
  }

  // CheckUnheldAndMark and CheckHeldAndUnmark.
  function Mark(s: State, t: Thread): State {
    s.Checked(s.owner == NOBODY).(owner := t)
  }

  function Unmark(s: State, t: Thread): State {
    s.Checked(s.owner == t).(owner := NOBODY)
  }

  // pthread_mutex_unlock and the first half of pthread_cond_wait. The mutex
  // checks for errors, and it is one to give up a mutex of another thread.
  function Unlock(s: State, t: Thread): State {
    s.Checked(s.holder == t).(holder := if s.holder == t then NOBODY else s.holder)
  }

  // AssertAcquired, called by t.
  predicate AssertAcquired(s: State, t: Thread) {
    s.owner == t
  }

  /**
   * The next step of thread t. It acquires, or tries to, only without the lock,
   * and releases or waits only with it.
   */
  ghost predicate Step(s: State, s': State, t: Thread) {
    && t < |s.phases|
    && match s.phases[t]
       case Outside => s' == s.At(t, Locking) || s' == s.At(t, Trying)
       case Locking =>
         // Locking the mutex twice is an error; otherwise the thread gets it once it is free.
         if s.holder == t then s' == s.Checked(false).At(t, Marking)
         else s.holder == NOBODY && s' == s.(holder := t).At(t, Marking)
       case Trying =>
         if s.holder == NOBODY then s' == s.(holder := t).At(t, Marking) else s' == s.At(t, Outside)
       case Marking => s' == Mark(s, t).At(t, Inside)
       case Inside => s' == s.At(t, Releasing) || s' == s.At(t, WaitCalled)
       case Releasing => s' == Unmark(s, t).At(t, Unlocking)
       case Unlocking => s' == Unlock(s, t).At(t, Outside)
       case WaitCalled => s' == Unmark(s, t).At(t, Blocking)
       case Blocking => s' == Unlock(s, t).At(t, Waiting)
       case Waiting => false
       case Woken => s.holder == NOBODY && s' == s.(holder := t).At(t, Marking)
  }

  // Signal wakes some waiting threads, Broadcast all of them, and a thread can
  // also wake up for no reason.
  ghost predicate Wake(s: State, s': State, woken: set<Thread>) {
    && (forall t | t in woken :: t < |s.phases| && s.phases[t] == Waiting)
    && s' == s.(phases := seq(|s.phases|, t requires 0 <= t < |s.phases| => if t in woken then Woken else s.phases[t]))
  }

  ghost predicate Next(s: State, s': State) {
    || (exists t: Thread :: Step(s, s', t))
    || (exists woken: set<Thread> :: Wake(s, s', woken))
  }

  // ---------------------------------------------------------------------------
  // What every step keeps.

  ghost predicate MutexAgrees(s: State) {
    && NOBODY <= s.holder < |s.phases|
    && forall t :: 0 <= t < |s.phases| ==> (s.phases[t].HasMutex() <==> s.holder == t)
  }

  ghost predicate MarkAgrees(s: State) {
    && NOBODY <= s.owner < |s.phases|
    && forall t :: 0 <= t < |s.phases| ==> (s.phases[t].IsMarked() <==> s.owner == t)
  }

  ghost predicate Inv(s: State) {
    MutexAgrees(s) && MarkAgrees(s) && !s.failed
  }

  // Only the holder is ever marked.
  lemma {:induction false} MarkedHolds(s: State)
    requires Inv(s)
    ensures s.owner == NOBODY || s.owner == s.holder
    ensures s.holder == NOBODY || s.phases[s.holder].HasMutex()
  {
    if s.owner != NOBODY {
      assert s.phases[s.owner].IsMarked();
    }
  }

  lemma {:induction false} StepInv(s: State, s': State, t: Thread)
    requires Inv(s) && Step(s, s', t)
    ensures Inv(s') && |s'.phases| == |s.phases|
  {
    MarkedHolds(s);
    assert s.phases[t].HasMutex() <==> s.holder == t;
    assert s.phases[t].IsMarked() <==> s.owner == t;
  }

  lemma {:induction false} WakeInv(s: State, s': State, woken: set<Thread>)
    requires Inv(s) && Wake(s, s', woken)
    ensures Inv(s') && |s'.phases| == |s.phases|
  {
  }

  ghost predicate Run(run: seq<State>) {
    && run != [] && Init(run[0])
    && forall i :: 0 <= i < |run| - 1 ==> Next(run[i], run[i + 1])
  }

  lemma {:induction false} RunInv(run: seq<State>, i: nat)
    requires Run(run) && i < |run|
    ensures Inv(run[i]) && |run[i].phases| == |run[0].phases|
  {
    if i > 0 {
      RunInv(run, i - 1);
      var s, s' := run[i - 1], run[i];
      assert Next(s, s');
      if t: Thread :| Step(s, s', t) {
        StepInv(s, s', t);
      } else {
        var woken: set<Thread> :| Wake(s, s', woken);
        WakeInv(s, s', woken);
      }
    }
  }

  /** In no run does any DCHECK fail. */
  lemma {:induction false} NoCheckFails(run: seq<State>)
    requires Run(run)
    ensures !run[|run| - 1].failed
  {
    RunInv(run, |run| - 1);
  }

  /** Between two calls of a thread AssertAcquired passes exactly if it holds the mutex. */
  lemma {:induction false} AssertAcquiredExact(run: seq<State>, i: nat, t: Thread)
    requires Run(run) && i < |run| && t < |run[i].phases| && run[i].phases[t].BetweenCalls()
    ensures AssertAcquired(run[i], t) <==> run[i].holder == t
    ensures AssertAcquired(run[i], t) <==> run[i].phases[t] == Inside
  {
    RunInv(run, i);
  }

  /**
   * The checks do catch what is wrong: the mark is refused to a thread that has it
   * already, and a thread without the lock fails both checks of a release.
   */
  lemma {:induction false} UndisciplinedFails(run: seq<State>, i: nat, t: Thread)
    requires Run(run) && i < |run| && t < |run[i].phases| && run[i].phases[t].BetweenCalls()
    ensures run[i].phases[t] == Inside <==> Mark(run[i], t).failed && !Unmark(run[i], t).failed
    ensures run[i].phases[t] == Outside <==> Unmark(run[i], t).failed
    ensures run[i].phases[t] == Outside <==> Unlock(run[i], t).failed
  {
    RunInv(run, i);
  }

  /** Two threads are never inside together. */
  lemma {:induction false} MutualExclusion(run: seq<State>, i: nat, t: Thread, u: Thread)
    requires Run(run) && i < |run| && t < |run[i].phases| && u < |run[i].phases|
    requires run[i].phases[t].HasMutex() && run[i].phases[u].HasMutex()
    ensures t == u
  {
    RunInv(run, i);
  }

  /** The destructor's check: when no thread is inside or in a call, there is no mark. */
  lemma {:induction false} NoMarkLeft(run: seq<State>, i: nat)
    requires Run(run) && i < |run|
    requires forall t | 0 <= t < |run[i].phases| :: run[i].phases[t] == Outside
    ensures run[i].owner == NOBODY && run[i].holder == NOBODY
  {
    RunInv(run, i);
    MarkedHolds(run[i]);
  }

  // ---------------------------------------------------------------------------
  // Nothing gets stuck but threads that wait for a signal.

  ghost predicate CanStep(s: State, t: Thread) {
    exists s' :: Step(s, s', t)
  }

  // A state that t can go to, if it can go on at all.
  function Successor(s: State, t: Thread): State
    requires t < |s.phases|
  {
    match s.phases[t]
    case Outside => s.At(t, Locking)
    case Trying => if s.holder == NOBODY then s.(holder := t).At(t, Marking) else s.At(t, Outside)
    case Marking => Mark(s, t).At(t, Inside)
    case Inside => s.At(t, Releasing)
    case Releasing => Unmark(s, t).At(t, Unlocking)
    case Unlocking => Unlock(s, t).At(t, Outside)
    case WaitCalled => Unmark(s, t).At(t, Blocking)
    case Blocking => Unlock(s, t).At(t, Waiting)
    case _ => s.(holder := t).At(t, Marking)
  }

  /** Any waiting threads can be woken, and nobody else is. */
  lemma {:induction false} WakeExact(s: State, woken: set<Thread>)
    ensures (exists s' :: Wake(s, s', woken)) <==> forall t | t in woken :: t < |s.phases| && s.phases[t] == Waiting
    ensures forall s' | Wake(s, s', woken) ::
              && s'.holder == s.holder && s'.owner == s.owner && s'.failed == s.failed && |s'.phases| == |s.phases|
              && forall t | 0 <= t < |s.phases| :: s'.phases[t] == if t in woken then Woken else s.phases[t]
  {
    if forall t | t in woken :: t < |s.phases| && s.phases[t] == Waiting {
      var phases := seq(|s.phases|, t requires 0 <= t < |s.phases| => if t in woken then Woken else s.phases[t]);
      assert Wake(s, s.(phases := phases), woken);
    }
  }

  /** Some thread can go on, unless every one of them waits for a signal. */
  lemma {:induction false} NeverStuck(run: seq<State>, i: nat, t: Thread)
    requires Run(run) && i < |run| && t < |run[i].phases| && run[i].phases[t] != Waiting
    ensures exists u: Thread :: CanStep(run[i], u)
  {
    RunInv(run, i);
    var s := run[i];
    MarkedHolds(s);
    var u: Thread := if s.holder == NOBODY then t else s.holder;
    assert Step(s, Successor(s, u), u);
    assert CanStep(s, u);
  }

  // ---------------------------------------------------------------------------
  // AutoLock and AutoUnlock: the scopes of one thread keep the discipline.

  datatype Call = Acquire | AssertHeld | Release | Wait

  datatype Block =
    | Nothing
    | WaitFor
    | Sequence(first: Block, second: Block)
    | AutoLock(body: Block)
    | AutoUnlock(body: Block)

  // The calls that constructors and destructors make.
  function Calls(b: Block): seq<Call> {
    match b
    case Nothing => []
    case WaitFor => [Wait]
    case Sequence(first, second) => Calls(first) + Calls(second)
    case AutoLock(body) => [Acquire] + Calls(body) + [AssertHeld, Release]
    case AutoUnlock(body) => [AssertHeld, Release] + Calls(body) + [Acquire]
  }

  // Locks are not nested in locks, and waits and unlocks are inside locks.
  predicate WellScoped(b: Block, held: bool) {
    match b
    case Nothing => true
    case WaitFor => held
    case Sequence(first, second) => WellScoped(first, held) && WellScoped(second, held)
    case AutoLock(body) => !held && WellScoped(body, true)
    case AutoUnlock(body) => held && WellScoped(body, false)
  }

  // Does a thread that makes these calls hold the lock afterwards? Undisciplined
  // calls have no answer.
  datatype Holding = Undisciplined | Ends(held: bool)

  function After(calls: seq<Call>, held: bool): Holding {
    if calls == [] then Ends(held)
    else match calls[0]
      case Acquire => if held then Undisciplined else After(calls[1..], true)
      case AssertHeld => if held then After(calls[1..], held) else Undisciplined
      case Release => if held then After(calls[1..], false) else Undisciplined
      case Wait => if held then After(calls[1..], held) else Undisciplined
  }

  lemma {:induction false} AfterBoth(a: seq<Call>, b: seq<Call>, held: bool)
    ensures After(a + b, held) ==
            match After(a, held) { case Undisciplined => Undisciplined case Ends(h) => After(b, h) }
  {
    if a == [] {
      assert a + b == b;
    } else {
      assert (a + b)[0] == a[0] && (a + b)[1..] == a[1..] + b;
      AfterBoth(a[1..], b, if a[0] == Acquire then true else if a[0] == Release then false else held);
    }
  }

  /** Well-scoped code is disciplined, and leaves the lock as it found it. */
  lemma {:induction false} ScopesDisciplined(b: Block, held: bool)
    ensures WellScoped(b, held) <==> After(Calls(b), held) != Undisciplined
    ensures WellScoped(b, held) ==> After(Calls(b), held) == Ends(held)
  {
    match b
    case Nothing =>
    case WaitFor =>
      assert [Wait][1..] == [];
    case Sequence(first, second) =>
      ScopesDisciplined(first, held);
      ScopesDisciplined(second, held);
      AfterBoth(Calls(first), Calls(second), held);
    case AutoLock(body) =>
      ScopesDisciplined(body, true);
      Ending([Acquire], Calls(body), [AssertHeld, Release], held);
    case AutoUnlock(body) =>
      ScopesDisciplined(body, false);
      Ending([AssertHeld, Release], Calls(body), [Acquire], held);
  }

  lemma {:induction false} Ending(a: seq<Call>, b: seq<Call>, c: seq<Call>, held: bool)
    requires (a == [Acquire] && c == [AssertHeld, Release]) || (a == [AssertHeld, Release] && c == [Acquire])
    ensures After(a + b + c, held) ==
            if held == (a == [Acquire]) then Undisciplined
            else match After(b, !held) {
                   case Undisciplined => Undisciplined
                   case Ends(h) => if h == !held then Ends(held) else Undisciplined
                 }
  {
    AfterBoth(a + b, c, held);
    AfterBoth(a, b, held);
    assert [AssertHeld, Release][1..] == [Release] && [Release][1..] == [] && [Acquire][1..] == [];
  }

  // ---------------------------------------------------------------------------
  // The class. Its methods are the steps above, taken by one thread.

  // Thread t takes n steps.
  ghost predicate Steps(s: State, s': State, t: Thread, n: nat)
    decreases n
  {
    if n == 0 then s' == s else exists m :: Step(s, m, t) && Steps(m, s', t, n - 1)
  }

  lemma {:induction false} OneStep(s: State, s': State, t: Thread)
    requires Step(s, s', t)
    ensures Steps(s, s', t, 1)
  {
    assert Steps(s', s', t, 0);
  }

  lemma {:induction false} OneMore(s: State, s': State, s'': State, t: Thread, n: nat)
    requires Steps(s, s', t, n) && Step(s', s'', t)
    ensures Steps(s, s'', t, n + 1)
    decreases n
  {
    if n == 0 {
      OneStep(s, s'', t);
    } else {
      var m :| Step(s, m, t) && Steps(m, s', t, n - 1);
      OneMore(m, s', s'', t, n - 1);
    }
  }

  class Lock {
    var owningThread: int
    var mutexHolder: int
    // What all threads that use the lock are doing.
    ghost var machine: State

    ghost predicate Valid()
      reads this
    {
      Inv(machine) && machine.owner == owningThread && machine.holder == mutexHolder
    }

    constructor (ghost threads: nat)
      ensures Valid() && Init(machine) && |machine.phases| == threads
    {
      owningThread, mutexHolder := NOBODY, NOBODY;
      machine := State(NOBODY, NOBODY, seq(threads, _ => Outside), false);
    }

    // The thread that calls it goes on in its call.
    ghost method Advance(self: Thread, next: State)
      requires Inv(machine) && Step(machine, next, self)
      modifies this`machine
      ensures machine == next && Inv(machine)
    {
      StepInv(machine, next, self);
      machine := next;
    }

    method CheckHeldAndUnmark(self: Thread)
      requires Valid() && self < |machine.phases|
      requires machine.phases[self] == Releasing || machine.phases[self] == WaitCalled
      modifies this
      ensures Valid() && Step(old(machine), machine, self) && mutexHolder == old(mutexHolder) == self
      ensures machine.phases ==
              old(machine.phases)[self := if old(machine).phases[self] == Releasing then Unlocking else Blocking]
    {
      assert owningThread == self;
      owningThread := NOBODY;
      Advance(self, Unmark(machine, self).At(self, if machine.phases[self] == Releasing then Unlocking else Blocking));
    }

    method CheckUnheldAndMark(self: Thread)
      requires Valid() && self < |machine.phases| && machine.phases[self] == Marking
      modifies this
      ensures Valid() && Step(old(machine), machine, self) && mutexHolder == old(mutexHolder) == self
      ensures machine.phases == old(machine.phases)[self := Inside]
    {
      MarkedHolds(machine);
      assert owningThread == NOBODY;
      owningThread := self;
      Advance(self, Mark(machine, self).At(self, Inside));
    }

    // From when the mutex is free; until then pthread_mutex_lock does not return.
    method Acquire(self: Thread)
      requires Valid() && self < |machine.phases| && machine.phases[self] == Outside && mutexHolder == NOBODY
      modifies this
      ensures Valid() && Steps(old(machine), machine, self, 3)
      ensures machine.phases == old(machine.phases)[self := Inside] && mutexHolder == self
    {
      ghost var start := machine;
      Advance(self, machine.At(self, Locking));
      OneStep(start, machine, self);
      ghost var locking := machine;
      mutexHolder := self;
      Advance(self, machine.(holder := self).At(self, Marking));
      OneMore(start, locking, machine, self, 1);
      ghost var marking := machine;
      CheckUnheldAndMark(self);
      OneMore(start, marking, machine, self, 2);
    }

    method Release(self: Thread)
      requires Valid() && self < |machine.phases| && machine.phases[self] == Inside
      modifies this
      ensures Valid() && Steps(old(machine), machine, self, 3)
      ensures machine.phases == old(machine.phases)[self := Outside] && mutexHolder == NOBODY
    {
      ghost var start := machine;
      Advance(self, machine.At(self, Releasing));
      OneStep(start, machine, self);
      ghost var releasing := machine;
      CheckHeldAndUnmark(self);
      OneMore(start, releasing, machine, self, 1);
      ghost var unlocking := machine;
      mutexHolder := NOBODY;
      Advance(self, Unlock(machine, self).At(self, Outside));
      OneMore(start, unlocking, machine, self, 2);
    }

    method Try(self: Thread) returns (rv: bool)
      requires Valid() && self < |machine.phases| && machine.phases[self] == Outside
      modifies this
      ensures Valid() && Steps(old(machine), machine, self, if rv then 3 else 2)
      ensures rv <==> old(mutexHolder) == NOBODY
      ensures mutexHolder == if rv then self else old(mutexHolder)
      ensures machine.phases == old(machine.phases)[self := if rv then Inside else Outside]
    {
      ghost var start := machine;
      Advance(self, machine.At(self, Trying));
      OneStep(start, machine, self);
      ghost var trying := machine;
      rv := mutexHolder == NOBODY;
      if rv {
        mutexHolder := self;
        Advance(self, machine.(holder := self).At(self, Marking));
        OneMore(start, trying, machine, self, 1);
        ghost var marking := machine;
        CheckUnheldAndMark(self);
        OneMore(start, marking, machine, self, 2);
      } else {
        Advance(self, machine.At(self, Outside));
        OneMore(start, trying, machine, self, 1);
      }
    }

    // The part of Wait before it blocks, and the part after it has the mutex back.
    method BeginWait(self: Thread)
      requires Valid() && self < |machine.phases| && machine.phases[self] == Inside
      modifies this
      ensures Valid() && Steps(old(machine), machine, self, 3)
      ensures machine.phases == old(machine.phases)[self := Waiting] && mutexHolder == NOBODY
    {
      ghost var start := machine;
      Advance(self, machine.At(self, WaitCalled));
      OneStep(start, machine, self);
      ghost var called := machine;
      CheckHeldAndUnmark(self);
      OneMore(start, called, machine, self, 1);
      ghost var blocking := machine;
      mutexHolder := NOBODY;
      Advance(self, Unlock(machine, self).At(self, Waiting));
      OneMore(start, blocking, machine, self, 2);
    }

    method EndWait(self: Thread)
      requires Valid() && self < |machine.phases| && machine.phases[self] == Woken && mutexHolder == NOBODY
      modifies this
      ensures Valid() && Steps(old(machine), machine, self, 2)
      ensures machine.phases == old(machine.phases)[self := Inside] && mutexHolder == self
    {
      ghost var start := machine;
      mutexHolder := self;
      Advance(self, machine.(holder := self).At(self, Marking));
      OneStep(start, machine, self);
      ghost var marking := machine;
      CheckUnheldAndMark(self);
      OneMore(start, marking, machine, self, 1);
    }
  }
}
