/**
 * Slots and per-thread tables of base/threading/thread_local_storage.cc over
 * whole runs: any number of threads and slot objects, one step at a time, in
 * any order, including slot operations made while a table is being allocated.
 */
module TlsSlots {
  type Thread = nat
  type Object = nat
  type Value = int
  type Destructor = int

  const NULL: Value := 0
  const NO_DESTRUCTOR: Destructor := 0
  const STORAGE_SIZE := 256

  /** A thread's table: none, on the stack during allocation, or on the heap. */
  datatype Table = NoTable | Temporary(values: seq<Value>) | Final(values: seq<Value>)

  /** A StaticSlot: unused or freed, given an index, or ready for use. */
  datatype Slot = Unset | Numbered(index: nat) | Ready(index: nat)

  datatype State = State(lastUsed: nat, destructors: seq<Destructor>, tables: seq<Table>, slots: seq<Slot>)

  datatype Action =
    | BeginTable(t: Thread)                            // the zeroed table on the stack
    | EndTable(t: Thread)                              // its copy on the heap
    | Number(t: Thread, o: Object)                     // Initialize: atomic increment
    | StoreDestructor(o: Object, d: Destructor)        // Initialize: the rest
    | Free(o: Object)
    | Set(t: Thread, o: Object, index: nat, value: Value)
    | ClearSlot(t: Thread, index: nat)                 // thread exit: before a destructor call
    | Exit(t: Thread)                                  // thread exit: the table is dropped

  function Zeros(n: nat): (s: seq<Value>)
    ensures |s| == n && forall i :: 0 <= i < n ==> s[i] == NULL
  {
    seq(n, _ => NULL)
  }

  predicate Init(s: State) {
    && s.lastUsed == 0
    && |s.destructors| == STORAGE_SIZE && (forall i :: 0 <= i < STORAGE_SIZE ==> s.destructors[i] == NO_DESTRUCTOR)
    && (forall t :: 0 <= t < |s.tables| ==> s.tables[t] == NoTable)
    && (forall o :: 0 <= o < |s.slots| ==> s.slots[o] == Unset)
  }

  function Written(table: Table, index: nat, value: Value): Table
    requires !table.NoTable? && index < |table.values|
  {
    table.(values := table.values[index := value])
  }

  predicate HasTable(s: State, t: Thread) {
    t < |s.tables| && !s.tables[t].NoTable? && |s.tables[t].values| == STORAGE_SIZE
  }

  predicate Step(s: State, a: Action, s': State)
    requires |s.destructors| == STORAGE_SIZE
  {
    match a
    case BeginTable(t) =>
      t < |s.tables| && s.tables[t].NoTable? &&
      s' == s.(tables := s.tables[t := Temporary(Zeros(STORAGE_SIZE))])
    case EndTable(t) =>
      t < |s.tables| && s.tables[t].Temporary? &&
      s' == s.(tables := s.tables[t := Final(s.tables[t].values)])
    case Number(t, o) =>
      HasTable(s, t) && o < |s.slots| && s.slots[o].Unset? &&
      s.lastUsed + 1 < STORAGE_SIZE &&
      s' == s.(lastUsed := s.lastUsed + 1, slots := s.slots[o := Numbered(s.lastUsed + 1)])
    case StoreDestructor(o, d) =>
      o < |s.slots| && s.slots[o].Numbered? && s.slots[o].index < STORAGE_SIZE &&
      s' == s.(destructors := s.destructors[s.slots[o].index := d], slots := s.slots[o := Ready(s.slots[o].index)])
    case Free(o) =>
      o < |s.slots| && s.slots[o].Ready? && s.slots[o].index < STORAGE_SIZE &&
      s' == s.(destructors := s.destructors[s.slots[o].index := NO_DESTRUCTOR], slots := s.slots[o := Unset])
    case Set(t, o, index, value) =>
      HasTable(s, t) && o < |s.slots| && s.slots[o] == Ready(index) && index < STORAGE_SIZE &&
      s' == s.(tables := s.tables[t := Written(s.tables[t], index, value)])
    case ClearSlot(t, index) =>
      HasTable(s, t) && index < STORAGE_SIZE && s.destructors[index] != NO_DESTRUCTOR &&
      s' == s.(tables := s.tables[t := Written(s.tables[t], index, NULL)])
    case Exit(t) =>
      HasTable(s, t) && s' == s.(tables := s.tables[t := NoTable])
  }

  // What Get finds at an index: a thread without a table gets a zeroed one first.
  function Read(s: State, t: Thread, index: nat): Value
    requires t < |s.tables| && (s.tables[t].NoTable? || index < |s.tables[t].values|)
  {
    if s.tables[t].NoTable? then NULL else s.tables[t].values[index]
  }

  predicate IndexOk(s: State, slot: Slot) {
    slot.Unset? || 1 <= slot.index <= s.lastUsed
  }

  predicate Inv(s: State) {
    && |s.destructors| == STORAGE_SIZE && s.lastUsed < STORAGE_SIZE
    && (forall t :: 0 <= t < |s.tables| ==> s.tables[t].NoTable? || |s.tables[t].values| == STORAGE_SIZE)
    && (forall o :: 0 <= o < |s.slots| ==> IndexOk(s, s.slots[o]))
    && (forall o, p :: 0 <= o < p < |s.slots| ==>
          s.slots[o].Unset? || s.slots[p].Unset? || s.slots[o].index != s.slots[p].index)
    && (forall i :: s.lastUsed < i < STORAGE_SIZE ==> s.destructors[i] == NO_DESTRUCTOR)
    && (forall t, i :: 0 <= t < |s.tables| && s.lastUsed < i < STORAGE_SIZE ==> Read(s, t, i) == NULL)
  }

  lemma {:induction false} StepInv(s: State, a: Action, s': State)
    requires Inv(s) && Step(s, a, s')
    ensures Inv(s')
    ensures s.lastUsed <= s'.lastUsed && |s'.tables| == |s.tables| && |s'.slots| == |s.slots|
  {
    forall t, i | 0 <= t < |s'.tables| && s'.lastUsed < i < STORAGE_SIZE ensures Read(s', t, i) == NULL {
      assert Read(s, t, i) == NULL;
    }
  }

  // ---------------------------------------------------------------------------
  // Whole runs: actions[i] leads from run[i] to run[i + 1].

  predicate Run(run: seq<State>, actions: seq<Action>) {
    && |run| == |actions| + 1 && Init(run[0])
    && (forall i :: 0 <= i < |run| ==> |run[i].destructors| == STORAGE_SIZE)
    && (forall i :: 0 <= i < |actions| ==> Step(run[i], actions[i], run[i + 1]))
  }

  lemma {:induction false} RunInv(run: seq<State>, actions: seq<Action>, n: nat)
    requires Run(run, actions) && n < |run|
    ensures Inv(run[n]) && |run[n].tables| == |run[0].tables| && |run[n].slots| == |run[0].slots|
  {
    if n > 0 {
      RunInv(run, actions, n - 1);
      StepInv(run[n - 1], actions[n - 1], run[n - 1 + 1]);
    } else {
      forall t, i | 0 <= t < |run[0].tables| && 0 < i < STORAGE_SIZE ensures Read(run[0], t, i) == NULL {}
    }
  }

  lemma {:induction false} MarkOnlyGrows(run: seq<State>, actions: seq<Action>, m: nat, n: nat)
    requires Run(run, actions) && m <= n < |run|
    ensures run[m].lastUsed <= run[n].lastUsed
    decreases n
  {
    if m < n {
      MarkOnlyGrows(run, actions, m, n - 1);
      RunInv(run, actions, n - 1);
      StepInv(run[n - 1], actions[n - 1], run[n - 1 + 1]);
    }
  }

  // The index that the n-th action, a Number action, gave to its slot object.
  function NumberGiven(run: seq<State>, actions: seq<Action>, n: nat): nat
    requires Run(run, actions) && n < |actions| && actions[n].Number?
  {
    run[n + 1].lastUsed
  }

  /**
   * Any two Initialize calls in a run get different indices between 1 and 255,
   * also if the earlier slot has been freed in between.
   */
  lemma {:induction false} IndicesNeverReused(run: seq<State>, actions: seq<Action>, m: nat, n: nat)
    requires Run(run, actions) && m < n < |actions| && actions[m].Number? && actions[n].Number?
    ensures 1 <= NumberGiven(run, actions, m) < NumberGiven(run, actions, n) <= 255
    ensures run[m + 1].slots[actions[m].o] == Numbered(NumberGiven(run, actions, m))
  {
    MarkOnlyGrows(run, actions, m + 1, n);
  }

  /**
   * What a thread last wrote at an index, by looking back from the n-th action:
   * NULL if it never did, or not since its table was dropped.
   */
  function LastWritten(actions: seq<Action>, n: nat, t: Thread, index: nat): Value
    requires n <= |actions|
  {
    if n == 0 then NULL
    else
      match actions[n - 1]
      case Set(u, _, i, value) => if u == t && i == index then value else LastWritten(actions, n - 1, t, index)
      case ClearSlot(u, i) => if u == t && i == index then NULL else LastWritten(actions, n - 1, t, index)
      case Exit(u) => if u == t then NULL else LastWritten(actions, n - 1, t, index)
      case _ => LastWritten(actions, n - 1, t, index)
  }

  /**
   * Get returns what the thread itself last set, whoever does what in between:
   * writes of other threads are not seen, and writes made while the table was on
   * the stack survive the copy to the heap.
   */
  lemma {:induction false} GetReturnsLastSet(run: seq<State>, actions: seq<Action>, n: nat, t: Thread, index: nat)
    requires Run(run, actions) && n < |run| && t < |run[0].tables| && index < STORAGE_SIZE
    ensures t < |run[n].tables| && (run[n].tables[t].NoTable? || |run[n].tables[t].values| == STORAGE_SIZE)
    ensures Read(run[n], t, index) == LastWritten(actions, n, t, index)
  {
    RunInv(run, actions, n);
    if n > 0 {
      RunInv(run, actions, n - 1);
      GetReturnsLastSet(run, actions, n - 1, t, index);
      assert Step(run[n - 1], actions[n - 1], run[n - 1 + 1]);
    }
  }

  // The thread sets the index with one of the actions m to n.
  predicate SetsBetween(actions: seq<Action>, m: nat, n: nat, t: Thread, index: nat) {
    exists i :: m <= i < n <= |actions| && actions[i].Set? && actions[i].t == t && actions[i].index == index
  }

  /**
   * A new slot reads as NULL on every thread until that thread sets it: its
   * index has never been written before.
   */
  lemma {:induction false} NewSlotReadsNull(run: seq<State>, actions: seq<Action>, m: nat, n: nat, t: Thread)
    requires Run(run, actions) && m < n <= |actions| && actions[m].Number? && t < |run[0].tables|
    requires !SetsBetween(actions, m, n, t, NumberGiven(run, actions, m))
    ensures var index := NumberGiven(run, actions, m);
            index < STORAGE_SIZE &&
            t < |run[n].tables| && (run[n].tables[t].NoTable? || |run[n].tables[t].values| == STORAGE_SIZE) &&
            Read(run[n], t, index) == NULL
    decreases n
  {
    var index := NumberGiven(run, actions, m);
    RunInv(run, actions, m);
    RunInv(run, actions, m + 1);
    RunInv(run, actions, n);
    if n == m + 1 {
      assert Read(run[m], t, index) == NULL;
    } else {
      assert !SetsBetween(actions, m, n - 1, t, index);
      NewSlotReadsNull(run, actions, m, n - 1, t);
      RunInv(run, actions, n - 1);
      assert Step(run[n - 1], actions[n - 1], run[n - 1 + 1]);
    }
  }

  /** The thread-exit scan down from the high-water mark sees every destructor. */
  lemma {:induction false} DestructorsBelowMark(run: seq<State>, actions: seq<Action>, n: nat, index: nat)
    requires Run(run, actions) && n < |run| && index < STORAGE_SIZE
    requires run[n].destructors[index] != NO_DESTRUCTOR
    ensures index <= run[n].lastUsed
  {
    RunInv(run, actions, n);
  }

  // ---------------------------------------------------------------------------
  // Slots, mark and destructors, from the history of the actions alone.

  function Numbers(actions: seq<Action>, n: nat): nat
    requires n <= |actions|
  {
    if n == 0 then 0 else Numbers(actions, n - 1) + if actions[n - 1].Number? then 1 else 0
  }

  // The index that the slot object has: the one it was given last, or 0.
  function IndexOf(actions: seq<Action>, n: nat, o: Object): nat
    requires n <= |actions|
  {
    if n == 0 then 0
    else
      match actions[n - 1]
      case Number(_, p) => if p == o then Numbers(actions, n) else IndexOf(actions, n - 1, o)
      case Free(p) => if p == o then 0 else IndexOf(actions, n - 1, o)
      case _ => IndexOf(actions, n - 1, o)
  }

  predicate IsReady(actions: seq<Action>, n: nat, o: Object)
    requires n <= |actions|
  {
    n > 0 &&
    match actions[n - 1]
    case Number(_, p) => p != o && IsReady(actions, n - 1, o)
    case StoreDestructor(p, _) => p == o || IsReady(actions, n - 1, o)
    case Free(p) => p != o && IsReady(actions, n - 1, o)
    case _ => IsReady(actions, n - 1, o)
  }

  // The destructor that the index was given last, or 0 if its slot was freed since.
  function LastDestructor(actions: seq<Action>, n: nat, index: nat): Destructor
    requires n <= |actions|
  {
    if n == 0 then 0
    else
      match actions[n - 1]
      case StoreDestructor(o, d) =>
        if IndexOf(actions, n - 1, o) == index then d else LastDestructor(actions, n - 1, index)
      case Free(o) =>
        if IndexOf(actions, n - 1, o) == index then 0 else LastDestructor(actions, n - 1, index)
      case _ => LastDestructor(actions, n - 1, index)
  }

  /** The mark counts the Initialize calls, and each slot object has the state it was left in. */
  lemma {:induction false} SlotsFromHistory(run: seq<State>, actions: seq<Action>, n: nat, o: Object)
    requires Run(run, actions) && n < |run| && o < |run[0].slots|
    ensures run[n].lastUsed == Numbers(actions, n) && |run[n].slots| == |run[0].slots|
    ensures var i := IndexOf(actions, n, o);
            run[n].slots[o] == if i == 0 then Unset else if IsReady(actions, n, o) then Ready(i) else Numbered(i)
  {
    if n > 0 {
      SlotsFromHistory(run, actions, n - 1, o);
      RunInv(run, actions, n - 1);
      assert Step(run[n - 1], actions[n - 1], run[n - 1 + 1]);
    }
  }

  lemma {:induction false} StepDestructors(s: State, a: Action, s': State)
    requires Inv(s) && Step(s, a, s')
    ensures a.StoreDestructor? || a.Free? ==>
              && a.o < |s.slots| && !s.slots[a.o].Unset? && 1 <= s.slots[a.o].index <= 255
              && s'.destructors == s.destructors[s.slots[a.o].index := if a.Free? then 0 else a.d]
    ensures !a.StoreDestructor? && !a.Free? ==> s'.destructors == s.destructors
  {
  }

  lemma {:induction false} NextDestructor(actions: seq<Action>, n: nat, before: seq<Destructor>, after: seq<Destructor>,
                                          index: nat)
    requires 0 < n <= |actions| && index < |before| == |after|
    requires var a := actions[n - 1];
             if a.StoreDestructor? || a.Free? then
               && IndexOf(actions, n - 1, a.o) < |before|
               && after == before[IndexOf(actions, n - 1, a.o) := if a.Free? then 0 else a.d]
             else after == before
    requires before[index] == LastDestructor(actions, n - 1, index)
    ensures after[index] == LastDestructor(actions, n, index)
  {
  }

  lemma {:induction false} DestructorStep(s: State, s': State, actions: seq<Action>, n: nat, index: nat)
    requires 0 < n <= |actions| && Inv(s) && Step(s, actions[n - 1], s') && 1 <= index <= 255
    requires actions[n - 1].StoreDestructor? || actions[n - 1].Free? ==>
               var o := actions[n - 1].o;
               o < |s.slots| && !s.slots[o].Unset? && s.slots[o].index == IndexOf(actions, n - 1, o)
    requires s.destructors[index] == LastDestructor(actions, n - 1, index)
    ensures |s'.destructors| == STORAGE_SIZE && s'.destructors[index] == LastDestructor(actions, n, index)
  {
    StepDestructors(s, actions[n - 1], s');
    NextDestructor(actions, n, s.destructors, s'.destructors, index);
  }

  lemma {:induction false} RunStep(run: seq<State>, actions: seq<Action>, n: nat)
    requires Run(run, actions) && 0 < n < |run|
    ensures Inv(run[n - 1]) && Step(run[n - 1], actions[n - 1], run[n]) && |run[n - 1].slots| == |run[0].slots|
    ensures var a, s := actions[n - 1], run[n - 1];
            a.StoreDestructor? || a.Free? ==> a.o < |s.slots| && !s.slots[a.o].Unset?
  {
    RunInv(run, actions, n - 1);
    assert Step(run[n - 1], actions[n - 1], run[n - 1 + 1]);
  }

  // The index of the slot object that the n-th action stores a destructor for, or frees.
  lemma {:induction false} IndexAtStep(run: seq<State>, actions: seq<Action>, n: nat)
    requires Run(run, actions) && 0 < n < |run|
    ensures var a, s := actions[n - 1], run[n - 1];
            a.StoreDestructor? || a.Free? ==>
              a.o < |s.slots| && !s.slots[a.o].Unset? && s.slots[a.o].index == IndexOf(actions, n - 1, a.o)
  {
    RunStep(run, actions, n);
    var a := actions[n - 1];
    if a.StoreDestructor? || a.Free? {
      SlotsFromHistory(run, actions, n - 1, a.o);
    }
  }

  /**
   * An index has the destructor that Initialize stored for it last, and none once
   * its slot is freed: threads that exit later will not free its data.
   */
  lemma {:induction false} DestructorsFromHistory(run: seq<State>, actions: seq<Action>, n: nat, index: nat)
    requires Run(run, actions) && n < |run| && 1 <= index <= 255
    ensures run[n].destructors[index] == LastDestructor(actions, n, index)
  {
    if n > 0 {
      DestructorsFromHistory(run, actions, n - 1, index);
      RunStep(run, actions, n);
      IndexAtStep(run, actions, n);
      DestructorStep(run[n - 1], run[n], actions, n, index);
    }
  }

  // What a thread has done about its table.
  datatype TableKind = None | OnStack | OnHeap

  function KindOf(actions: seq<Action>, n: nat, t: Thread): TableKind
    requires n <= |actions|
  {
    if n == 0 then None
    else
      match actions[n - 1]
      case BeginTable(u) => if u == t then OnStack else KindOf(actions, n - 1, t)
      case EndTable(u) => if u == t then OnHeap else KindOf(actions, n - 1, t)
      case Exit(u) => if u == t then None else KindOf(actions, n - 1, t)
      case _ => KindOf(actions, n - 1, t)
  }

  /** A thread has the table that it made last, until it exits. */
  lemma {:induction false} TablesFromHistory(run: seq<State>, actions: seq<Action>, n: nat, t: Thread)
    requires Run(run, actions) && n < |run| && t < |run[0].tables|
    ensures |run[n].tables| == |run[0].tables|
    ensures match KindOf(actions, n, t)
            case None => run[n].tables[t].NoTable?
            case OnStack => run[n].tables[t].Temporary?
            case OnHeap => run[n].tables[t].Final?
  {
    if n > 0 {
      TablesFromHistory(run, actions, n - 1, t);
      assert Step(run[n - 1], actions[n - 1], run[n - 1 + 1]);
    }
  }

  // What an action needs.
  predicate Enabled(s: State, a: Action)
    requires |s.destructors| == STORAGE_SIZE
  {
    match a
    case BeginTable(t) => t < |s.tables| && s.tables[t] == NoTable
    case EndTable(t) => t < |s.tables| && s.tables[t].Temporary?
    case Number(t, o) =>
      t < |s.tables| && s.tables[t] != NoTable && o < |s.slots| && s.slots[o] == Unset && s.lastUsed < 255
    case StoreDestructor(o, _) => o < |s.slots| && s.slots[o].Numbered?
    case Free(o) => o < |s.slots| && s.slots[o].Ready?
    case Set(t, o, i, _) => t < |s.tables| && s.tables[t] != NoTable && o < |s.slots| && s.slots[o] == Ready(i)
    case ClearSlot(t, i) => t < |s.tables| && s.tables[t] != NoTable && i <= 255 && s.destructors[i] != 0
    case Exit(t) => t < |s.tables| && s.tables[t] != NoTable
  }

  // The state an action leads to.
  function Successor(s: State, a: Action): State
    requires Inv(s) && Enabled(s, a)
  {
    match a
    case BeginTable(t) => s.(tables := s.tables[t := Temporary(Zeros(STORAGE_SIZE))])
    case EndTable(t) => s.(tables := s.tables[t := Final(s.tables[t].values)])
    case Number(t, o) => s.(lastUsed := s.lastUsed + 1, slots := s.slots[o := Numbered(s.lastUsed + 1)])
    case StoreDestructor(o, d) =>
      s.(destructors := s.destructors[s.slots[o].index := d], slots := s.slots[o := Ready(s.slots[o].index)])
    case Free(o) => s.(destructors := s.destructors[s.slots[o].index := 0], slots := s.slots[o := Unset])
    case Set(t, o, i, v) => s.(tables := s.tables[t := Written(s.tables[t], i, v)])
    case ClearSlot(t, i) => s.(tables := s.tables[t := Written(s.tables[t], i, 0)])
    case Exit(t) => s.(tables := s.tables[t := NoTable])
  }

  /** Nothing else is needed: 255 slots can be initialized, and each used, freed and left behind. */
  lemma {:induction false} StepIffEnabled(run: seq<State>, actions: seq<Action>, n: nat, a: Action)
    requires Run(run, actions) && n < |run|
    ensures (exists s' :: Step(run[n], a, s')) <==> Enabled(run[n], a)
  {
    RunInv(run, actions, n);
    if Enabled(run[n], a) {
      assert Step(run[n], a, Successor(run[n], a));
    }
  }
}
