/**
 * The race to install the one native key in ConstructTlsVector,
 * base/threading/thread_local_storage.cc: any number of threads, one atomic
 * step at a time, in any order.
 */
module TlsKeyInstall {
  type Key = int
  type Thread = nat

  // The value of the global variable that stands for "no key yet". The operating
  // system may still hand it out as a key.
  const OUT_OF_INDEXES: Key := 0x7FFF_FFFF

  /** What a thread does next. */
  datatype Phase =
    | Start                          // load the global key
    | Allocate                       // it was unset: ask for a key
    | AllocateAgain(spare: Key)      // got the reserved value: ask for another
    | FreeSpare(spare: Key, key: Key)
    | Install(key: Key)              // compare-and-swap it into the global
    | FreeLoser(key: Key)            // another thread was first
    | Reload                         // load the winner's key
    | Done(key: Key)
  {
    // The keys that only this thread knows of.
    function Held(): set<Key> {
      match this
      case AllocateAgain(spare) => {spare}
      case FreeSpare(spare, key) => {spare, key}
      case Install(key) => {key}
      case FreeLoser(key) => {key}
      case _ => {}
    }

    // An upper bound for the steps the thread still takes.
    function StepsLeft(): nat {
      match this
      case Start => 7
      case Allocate => 6
      case AllocateAgain(_) => 5
      case FreeSpare(_, _) => 4
      case Install(_) => 3
      case FreeLoser(_) => 2
      case Reload => 1
      case Done(_) => 0
    }
  }

  /**
   * The global key, the keys the operating system has handed out and not taken
   * back, and how often each key was handed out and taken back so far.
   */
  datatype State = State(
    global: Key,
    live: set<Key>,
    phases: seq<Phase>,
    handedOut: multiset<Key>,
    takenBack: multiset<Key>)
  {
    function At(t: Thread, phase: Phase): State
      requires t < |phases|
    {
      this.(phases := phases[t := phase])
    }

    function Allocated(key: Key): State {
      this.(live := live + {key}, handedOut := handedOut + multiset{key})
    }

    function Freed(key: Key): State {
      this.(live := live - {key}, takenBack := takenBack + multiset{key})
    }
  }

  ghost predicate Init(s: State) {
    && s.global == OUT_OF_INDEXES && s.live == {}
    && (forall t :: 0 <= t < |s.phases| ==> s.phases[t] == Start)
    && s.handedOut == multiset{} && s.takenBack == multiset{}
  }

  // A key the operating system can hand out: any that is not in use, freed ones
  // and the reserved value included.
  ghost predicate CanAllocate(s: State, key: Key) {
    key !in s.live
  }

  ghost predicate Step(s: State, s': State, t: Thread) {
    && t < |s.phases|
    && match s.phases[t]
       case Start =>
         s' == s.At(t, if s.global == OUT_OF_INDEXES then Allocate else Done(s.global))
       case Allocate =>
         exists key :: CanAllocate(s, key) &&
           s' == s.Allocated(key).At(t, if key == OUT_OF_INDEXES then AllocateAgain(key) else Install(key))
       case AllocateAgain(spare) =>
         exists key :: CanAllocate(s, key) && s' == s.Allocated(key).At(t, FreeSpare(spare, key))
       case FreeSpare(spare, key) =>
         s' == s.Freed(spare).At(t, Install(key))
       case Install(key) =>
         if s.global == OUT_OF_INDEXES then s' == s.(global := key).At(t, Done(key))
         else s' == s.At(t, FreeLoser(key))
       case FreeLoser(key) =>
         s' == s.Freed(key).At(t, Reload)
       case Reload =>
         s' == s.At(t, Done(s.global))
       case Done(_) => false
  }

  // The key that has been installed, as a set.
  function Installed(s: State): set<Key> {
    if s.global == OUT_OF_INDEXES then {} else {s.global}
  }

  // What a phase says about the keys, given the global key.
  predicate PhaseOk(phase: Phase, global: Key) {
    match phase
    case Start => true
    case Allocate => true
    case AllocateAgain(spare) => spare == OUT_OF_INDEXES
    case FreeSpare(spare, key) => spare == OUT_OF_INDEXES && key != OUT_OF_INDEXES
    case Install(key) => key != OUT_OF_INDEXES
    case FreeLoser(key) => key != OUT_OF_INDEXES && global != OUT_OF_INDEXES
    case Reload => global != OUT_OF_INDEXES
    case Done(key) => key == global && global != OUT_OF_INDEXES
  }

  // The keys in use that are not the installed one.
  function Pool(s: State): set<Key> {
    s.live - Installed(s)
  }

  // Every key in use is the installed one or belongs to exactly one thread.
  ghost predicate OneOwner(s: State) {
    && Installed(s) <= s.live
    && (forall t :: 0 <= t < |s.phases| ==> s.phases[t].Held() <= Pool(s))
    && (forall t, u :: 0 <= t < u < |s.phases| ==> s.phases[t].Held() !! s.phases[u].Held())
    && (forall k :: k in Pool(s) ==> Owned(s.phases, k))
  }

  ghost predicate Owned(phases: seq<Phase>, k: Key) {
    exists t :: 0 <= t < |phases| && k in phases[t].Held()
  }

  // Each key was taken back as often as it was handed out, once less if in use.
  ghost predicate Balanced(s: State) {
    forall k :: s.handedOut[k] == s.takenBack[k] + if k in s.live then 1 else 0
  }

  ghost predicate Inv(s: State) {
    && (forall t :: 0 <= t < |s.phases| ==> PhaseOk(s.phases[t], s.global))
    && OneOwner(s)
    && Balanced(s)
  }

  lemma {:induction false} InitInv(s: State)
    requires Init(s)
    ensures Inv(s)
  {
  }

  // One thread changes what it holds: to fresh keys, or by giving keys up.
  lemma {:induction false} OwnersAfter(s: State, s': State, t: Thread)
    requires OneOwner(s) && t < |s.phases| == |s'.phases| && s'.phases == s.phases[t := s'.phases[t]]
    requires Installed(s') <= s'.live
    requires s'.phases[t].Held() <= s.phases[t].Held() + (Pool(s') - s.live)
    requires Installed(s) <= Installed(s') && Installed(s') <= Installed(s) + s.phases[t].Held()
    requires Pool(s') == Pool(s) - s.phases[t].Held() + s'.phases[t].Held()
    ensures OneOwner(s')
  {
    forall k | k in Pool(s') ensures Owned(s'.phases, k) {
      if k in s'.phases[t].Held() {
      } else {
        var u :| 0 <= u < |s.phases| && k in s.phases[u].Held();
        assert s'.phases[u] == s.phases[u];
      }
    }
  }

  lemma {:induction false} AllocatingOwners(s: State, s': State, t: Thread)
    requires Inv(s) && Step(s, s', t) && (s.phases[t].Allocate? || s.phases[t].AllocateAgain?)
    ensures OneOwner(s')
  {
    assert s.phases[t].Held() <= Pool(s) && PhaseOk(s.phases[t], s.global);
    OwnersAfter(s, s', t);
  }

  lemma {:induction false} FreeingOwners(s: State, s': State, t: Thread)
    requires Inv(s) && Step(s, s', t) && (s.phases[t].FreeSpare? || s.phases[t].FreeLoser?)
    ensures OneOwner(s')
  {
    assert s.phases[t].Held() <= Pool(s) && PhaseOk(s.phases[t], s.global);
    OwnersAfter(s, s', t);
  }

  lemma {:induction false} InstallingOwners(s: State, s': State, t: Thread)
    requires Inv(s) && Step(s, s', t) && s.phases[t].Install?
    ensures OneOwner(s')
  {
    assert s.phases[t].Held() <= Pool(s) && PhaseOk(s.phases[t], s.global);
    OwnersAfter(s, s', t);
  }

  lemma {:induction false} LoadingOwners(s: State, s': State, t: Thread)
    requires Inv(s) && Step(s, s', t) && (s.phases[t].Start? || s.phases[t].Reload?)
    ensures OneOwner(s')
  {
    OwnersAfter(s, s', t);
  }

  lemma {:induction false} StepOwners(s: State, s': State, t: Thread)
    requires Inv(s) && Step(s, s', t)
    ensures OneOwner(s')
  {
    match s.phases[t]
    case Start => LoadingOwners(s, s', t);
    case Allocate => AllocatingOwners(s, s', t);
    case AllocateAgain(_) => AllocatingOwners(s, s', t);
    case FreeSpare(_, _) => FreeingOwners(s, s', t);
    case Install(_) => InstallingOwners(s, s', t);
    case FreeLoser(_) => FreeingOwners(s, s', t);
    case Reload => LoadingOwners(s, s', t);
    case Done(_) =>
  }

  lemma {:induction false} StepPhases(s: State, s': State, t: Thread)
    requires Inv(s) && Step(s, s', t)
    ensures forall u :: 0 <= u < |s'.phases| ==> PhaseOk(s'.phases[u], s'.global)
    ensures |s'.phases| == |s.phases|
    ensures s.global != OUT_OF_INDEXES ==> s'.global == s.global
  {
  }

  lemma {:induction false} StepBalanced(s: State, s': State, t: Thread)
    requires Inv(s) && Step(s, s', t)
    ensures Balanced(s')
  {
  }

  // The one key that is installed is not taken back.
  lemma {:induction false} StepKeeps(s: State, s': State, t: Thread)
    requires Inv(s) && Step(s, s', t) && s.global != OUT_OF_INDEXES
    ensures s'.global == s.global && s'.takenBack[s.global] == s.takenBack[s.global]
  {
  }

  // ---------------------------------------------------------------------------
  // Whole runs.

  ghost predicate Next(s: State, s': State) {
    exists t: Thread :: Step(s, s', t)
  }

  ghost predicate Run(run: seq<State>) {
    && run != [] && Init(run[0])
    && forall i :: 0 <= i < |run| - 1 ==> Next(run[i], run[i + 1])
  }

  lemma {:induction false} RunInv(run: seq<State>, i: nat)
    requires Run(run) && i < |run|
    ensures Inv(run[i]) && |run[i].phases| == |run[0].phases|
  {
    if i == 0 {
      InitInv(run[0]);
    } else {
      RunInv(run, i - 1);
      assert Next(run[i - 1], run[i - 1 + 1]);
      var t: Thread :| Step(run[i - 1], run[i], t);
      StepPhases(run[i - 1], run[i], t);
      StepOwners(run[i - 1], run[i], t);
      StepBalanced(run[i - 1], run[i], t);
    }
  }

  /** Once a key is installed it stays installed, in use, and is never freed. */
  lemma {:induction false} InstalledForGood(run: seq<State>, i: nat, j: nat)
    requires Run(run) && i <= j < |run| && run[i].global != OUT_OF_INDEXES
    ensures var key := run[i].global;
            && run[j].global == key && key in run[j].live
            && run[j].takenBack[key] == run[i].takenBack[key]
    decreases j
  {
    RunInv(run, j);
    if i < j {
      InstalledForGood(run, i, j - 1);
      RunInv(run, j - 1);
      assert Next(run[j - 1], run[j - 1 + 1]);
      var t: Thread :| Step(run[j - 1], run[j], t);
      StepKeeps(run[j - 1], run[j], t);
    }
  }

  /**
   * All threads that have left the key selection, whenever they did, hold the
   * same key: not the reserved value, and still in use.
   */
  lemma {:induction false} SameKey(run: seq<State>, i: nat, t: Thread, j: nat, u: Thread)
    requires Run(run) && i < |run| && j < |run|
    requires t < |run[i].phases| && run[i].phases[t].Done?
    requires u < |run[j].phases| && run[j].phases[u].Done?
    ensures run[i].phases[t] == run[j].phases[u]
    ensures run[i].phases[t].key != OUT_OF_INDEXES
    ensures run[i].phases[t].key in run[i].live
  {
    RunInv(run, i);
    RunInv(run, j);
    InstalledForGood(run, if i <= j then i else j, if i <= j then j else i);
  }

  /**
   * A key about to be freed is in use, is not the installed key, and no other
   * thread holds it: no key is freed twice or behind another thread's back.
   */
  lemma {:induction false} FreesOwnKeyOnly(run: seq<State>, i: nat, t: Thread, key: Key)
    requires Run(run) && i < |run| && t < |run[i].phases|
    requires var p := run[i].phases[t];
             (p.FreeLoser? && key == p.key) || (p.FreeSpare? && key == p.spare)
    ensures key in run[i].live
    ensures run[i].global != OUT_OF_INDEXES ==> key != run[i].global
    ensures forall u: Thread :: u < |run[i].phases| && u != t ==> key !in run[i].phases[u].Held()
  {
    RunInv(run, i);
    var s := run[i];
    assert key in s.phases[t].Held() && s.phases[t].Held() <= Pool(s);
    forall u: Thread | u < |s.phases| && u != t ensures key !in s.phases[u].Held() {
      assert s.phases[if u < t then u else t].Held() !! s.phases[if u < t then t else u].Held();
    }
  }

  /**
   * When all threads are through, the installed key is the only one in use, and
   * every other key was taken back exactly as often as it was handed out, even
   * if the operating system hands out freed keys again.
   */
  lemma {:induction false} OneKeyRemains(run: seq<State>, i: nat)
    requires Run(run) && i < |run| && run[i].phases != []
    requires forall t :: 0 <= t < |run[i].phases| ==> run[i].phases[t].Done?
    ensures run[i].global != OUT_OF_INDEXES
    ensures run[i].live == {run[i].global}
    ensures run[i].handedOut == run[i].takenBack + multiset{run[i].global}
  {
    RunInv(run, i);
    var s := run[i];
    assert s.phases[0].Done?;
    forall k | k in s.live ensures k in Installed(s) {
      assert !Owned(s.phases, k);
      assert k !in Pool(s);
    }
    assert s.live == Installed(s);
    forall k ensures s.handedOut[k] == (s.takenBack + multiset{s.global})[k] {
      assert k in s.live <==> k == s.global;
    }
  }

  function TotalLeft(phases: seq<Phase>): nat {
    if phases == [] then 0 else phases[0].StepsLeft() + TotalLeft(phases[1..])
  }

  lemma {:induction false} TotalLeftUpdate(phases: seq<Phase>, t: nat, phase: Phase)
    requires t < |phases|
    ensures TotalLeft(phases[t := phase]) == TotalLeft(phases) - phases[t].StepsLeft() + phase.StepsLeft()
  {
    var after := phases[t := phase];
    if t == 0 {
      assert after[1..] == phases[1..];
    } else {
      assert after[1..] == phases[1..][t - 1 := phase];
      TotalLeftUpdate(phases[1..], t - 1, phase);
    }
  }

  lemma {:induction false} TotalLeftStart(phases: seq<Phase>)
    requires forall t :: 0 <= t < |phases| ==> phases[t] == Start
    ensures TotalLeft(phases) == 7 * |phases|
  {
    if phases != [] {
      TotalLeftStart(phases[1..]);
    }
  }

  lemma {:induction false} StepUsesUp(s: State, s': State, t: Thread)
    requires Step(s, s', t)
    ensures TotalLeft(s'.phases) < TotalLeft(s.phases)
  {
    TotalLeftUpdate(s.phases, t, s'.phases[t]);
  }

  /** No thread waits for another: together they take at most seven steps each. */
  lemma {:induction false} BoundedSteps(run: seq<State>, i: nat)
    requires Run(run) && i < |run|
    ensures i + TotalLeft(run[i].phases) <= 7 * |run[0].phases|
  {
    if i == 0 {
      TotalLeftStart(run[0].phases);
    } else {
      BoundedSteps(run, i - 1);
      assert Next(run[i - 1], run[i - 1 + 1]);
      var t: Thread :| Step(run[i - 1], run[i], t);
      StepUsesUp(run[i - 1], run[i], t);
    }
  }

  lemma {:induction false} FreshKey(s: State) returns (key: Key)
    ensures CanAllocate(s, key)
  {
    key := KeyAbove(s.live);
  }

  lemma {:induction false} KeyAbove(keys: set<Key>) returns (key: Key)
    ensures forall k :: k in keys ==> k < key
  {
    key := 0;
    if k :| k in keys {
      var above := KeyAbove(keys - {k});
      key := if above > k then above else k + 1;
      assert keys == keys - {k} + {k};
    }
  }

  /** A thread that is not through can always take a step. */
  lemma {:induction false} NeverStuck(s: State, t: Thread)
    requires t < |s.phases| && !s.phases[t].Done?
    ensures exists s' :: Step(s, s', t)
  {
    var key := FreshKey(s);
    var s' :=
      match s.phases[t]
      case Start => s.At(t, if s.global == OUT_OF_INDEXES then Allocate else Done(s.global))
      case Allocate => s.Allocated(key).At(t, if key == OUT_OF_INDEXES then AllocateAgain(key) else Install(key))
      case AllocateAgain(spare) => s.Allocated(key).At(t, FreeSpare(spare, key))
      case FreeSpare(spare, k) => s.Freed(spare).At(t, Install(k))
      case Install(k) => if s.global == OUT_OF_INDEXES then s.(global := k).At(t, Done(k)) else s.At(t, FreeLoser(k))
      case FreeLoser(k) => s.Freed(k).At(t, Reload)
      case Reload => s.At(t, Done(s.global));
    assert Step(s, s', t);
  }

  /** A thread that comes when a key is installed takes that key in one step, and no other. */
  lemma {:induction false} LateThread(s: State, s': State, t: Thread)
    requires Step(s, s', t) && s.phases[t] == Start
    ensures s.global != OUT_OF_INDEXES ==> s' == s.(phases := s.phases[t := Done(s.global)])
  {
  }

  /** The first thread to install its key keeps it; a later one gives its own back and takes the installed one. */
  lemma {:induction false} FirstWins(s: State, s': State, t: Thread)
    requires Step(s, s', t) && s.phases[t].Install?
    ensures s.global == OUT_OF_INDEXES ==> s'.global == s.phases[t].key && s'.phases[t] == Done(s.phases[t].key)
    ensures s.global != OUT_OF_INDEXES ==> s'.global == s.global && s'.phases[t] == FreeLoser(s.phases[t].key)
    ensures s'.live == s.live
  {
  }
}
