/**
 * The destructor loop that runs when a thread ends: OnThreadExitInternal in
 * base/threading/thread_local_storage.cc. User destructors are arbitrary code
 * that may set slots again, allocate slots and free slots.
 */
module TlsThreadExit {
  type Value = int
  type Destructor = int

  const NULL: Value := 0
  const NO_DESTRUCTOR: Destructor := 0
  const STORAGE_SIZE := 256
  const MAX_ITERATIONS := STORAGE_SIZE

  /** The ending thread's table, and the process-wide destructors and high-water mark. */
  datatype Snapshot = Snapshot(table: seq<Value>, destructors: seq<Destructor>, lastUsed: nat)

  // A slot gets its destructor only after the high-water mark has reached it.
  predicate IsWorld(w: Snapshot) {
    && |w.table| == STORAGE_SIZE && |w.destructors| == STORAGE_SIZE && w.lastUsed < STORAGE_SIZE
    && forall slot :: w.lastUsed < slot < STORAGE_SIZE ==> w.destructors[slot] == NO_DESTRUCTOR
  }

  type World = w: Snapshot | IsWorld(w)
    witness Snapshot(seq(STORAGE_SIZE, _ => NULL), seq(STORAGE_SIZE, _ => NO_DESTRUCTOR), 0)

  // What the world is after the n-th destructor call, on a value, in a world.
  type Effect = (nat, Destructor, Value, World) -> World

  // The slot has both a value and a destructor.
  predicate Live(w: World, slot: nat) {
    1 <= slot < STORAGE_SIZE && w.table[slot] != NULL && w.destructors[slot] != NO_DESTRUCTOR
  }

  function Cleared(w: World, slot: nat): World
    requires slot < STORAGE_SIZE
  {
    w.(table := w.table[slot := NULL])
  }

  // A destructor call: the world before the slot was cleared, and the slot.
  datatype Call = Call(before: World, slot: nat)

  /** One pass over the slots, from the given one down to slot 1. */
  function Scan(e: Effect, w: World, slot: nat, calls: seq<Call>): (r: (World, seq<Call>))
    requires slot < STORAGE_SIZE
    ensures calls <= r.1
    ensures r.1 == calls ==> r.0 == w
    decreases slot
  {
    if slot == 0 then (w, calls)
    else if w.table[slot] == NULL || w.destructors[slot] == NO_DESTRUCTOR then
      Scan(e, w, slot - 1, calls)
    else
      var w' := e(|calls|, w.destructors[slot], w.table[slot], Cleared(w, slot));
      Scan(e, w', slot - 1, calls + [Call(w, slot)])
  }

  datatype Outcome = Returned(world: World, calls: seq<Call>, passes: nat) | CheckFailed(calls: seq<Call>)

  /** Passes until one of them calls no destructor, while attempts remain. */
  function Exit(e: Effect, w: World, remaining: nat, calls: seq<Call>, passes: nat): Outcome
    requires remaining > 0
    decreases remaining
  {
    var r := Scan(e, w, w.lastUsed, calls);
    if remaining == 1 then CheckFailed(r.1)
    else if r.1 == calls then Returned(r.0, r.1, passes + 1)
    else Exit(e, r.0, remaining - 1, r.1, passes + 1)
  }

  lemma {:induction false} QuietScan(e: Effect, w: World, slot: nat, calls: seq<Call>)
    requires slot < STORAGE_SIZE && Scan(e, w, slot, calls).1 == calls
    ensures forall j: nat :: j <= slot ==> !Live(w, j)
    decreases slot
  {
    if slot > 0 {
      QuietScan(e, w, slot - 1, calls);
    }
  }

  /** After a normal return no slot up to the high-water mark has a value and a destructor. */
  lemma {:induction false} NothingLeft(e: Effect, w: World, remaining: nat, calls: seq<Call>, passes: nat)
    requires remaining > 0 && Exit(e, w, remaining, calls, passes).Returned?
    ensures var end := Exit(e, w, remaining, calls, passes).world;
            forall slot: nat :: slot <= end.lastUsed ==> !Live(end, slot)
    decreases remaining
  {
    var r := Scan(e, w, w.lastUsed, calls);
    if r.1 == calls {
      QuietScan(e, w, w.lastUsed, calls);
    } else {
      NothingLeft(e, r.0, remaining - 1, r.1, passes + 1);
    }
  }

  /** Fewer passes than attempts are made: at most 255 of the 256. */
  lemma {:induction false} PassesBounded(e: Effect, w: World, remaining: nat, calls: seq<Call>, passes: nat)
    requires remaining > 0 && Exit(e, w, remaining, calls, passes).Returned?
    ensures passes < Exit(e, w, remaining, calls, passes).passes < passes + remaining
    decreases remaining
  {
    var r := Scan(e, w, w.lastUsed, calls);
    if r.1 != calls {
      PassesBounded(e, r.0, remaining - 1, r.1, passes + 1);
    }
  }

  // A call that was justified: the slot had a value and a destructor.
  predicate Justified(call: Call) {
    && 1 <= call.slot < STORAGE_SIZE
    && call.before.table[call.slot] != NULL
    && call.before.destructors[call.slot] != NO_DESTRUCTOR
  }

  // The world that the call left behind, as the n-th one.
  function After(e: Effect, n: nat, call: Call): World
    requires Justified(call)
  {
    e(n, call.before.destructors[call.slot], call.before.table[call.slot], Cleared(call.before, call.slot))
  }

  /**
   * The calls lead from the start to the end: each is justified, each starts in
   * the world that the one before it left, with its own slot cleared first.
   */
  predicate History(e: Effect, start: World, calls: seq<Call>, end: World)
    decreases |calls|
  {
    if calls == [] then end == start
    else
      var n := |calls| - 1;
      Justified(calls[n]) && end == After(e, n, calls[n]) && History(e, start, calls[..n], calls[n].before)
  }

  lemma {:induction false} OneMoreCall(e: Effect, start: World, calls: seq<Call>, call: Call)
    requires Justified(call) && History(e, start, calls, call.before)
    ensures History(e, start, calls + [call], After(e, |calls|, call))
  {
    assert (calls + [call])[..|calls|] == calls;
  }

  lemma {:induction false} ScanHistory(e: Effect, start: World, w: World, slot: nat, calls: seq<Call>)
    requires slot < STORAGE_SIZE && History(e, start, calls, w)
    ensures var r := Scan(e, w, slot, calls); History(e, start, r.1, r.0)
    decreases slot
  {
    if slot > 0 {
      if w.table[slot] == NULL || w.destructors[slot] == NO_DESTRUCTOR {
        ScanHistory(e, start, w, slot - 1, calls);
      } else {
        var call := Call(w, slot);
        OneMoreCall(e, start, calls, call);
        ScanHistory(e, start, After(e, |calls|, call), slot - 1, calls + [call]);
      }
    }
  }

  /**
   * Every destructor was called with the non-null value of a slot that had been
   * cleared, and nothing but destructors changed the world.
   */
  lemma {:induction false} ExitHistory(e: Effect, start: World, w: World, remaining: nat, calls: seq<Call>, passes: nat)
    returns (end: World)
    requires remaining > 0 && History(e, start, calls, w)
    ensures var r := Exit(e, w, remaining, calls, passes);
            History(e, start, r.calls, end) && (r.Returned? ==> end == r.world)
    decreases remaining
  {
    var r := Scan(e, w, w.lastUsed, calls);
    ScanHistory(e, start, w, w.lastUsed, calls);
    end := r.0;
    if remaining > 1 && r.1 != calls {
      end := ExitHistory(e, start, r.0, remaining - 1, r.1, passes + 1);
    }
  }

  // ---------------------------------------------------------------------------
  // No destructor is lost, and none does more than its own effect.

  /**
   * What happens between two calls, spelled out: one slot of the table becomes 0,
   * and the destructor of that slot gets the value that was there.
   */
  lemma {:induction false} CallsSpelled(e: Effect, start: World, calls: seq<Call>, end: World, k: nat)
    requires History(e, start, calls, end) && k < |calls|
    ensures var b, slot := calls[k].before, calls[k].slot;
            && 1 <= slot <= 255 && b.table[slot] != 0 && b.destructors[slot] != 0
            && (if k + 1 < |calls| then calls[k + 1].before else end)
               == e(k, b.destructors[slot], b.table[slot], b.(table := b.table[slot := 0]))
    ensures calls[0].before == start
    decreases |calls|
  {
    var n := |calls| - 1;
    if k < n {
      CallsSpelled(e, start, calls[..n], calls[n].before, k);
    } else if n > 0 {
      CallsSpelled(e, start, calls[..n], calls[n].before, 0);
    }
  }

  /** The same for the calls of a whole exit. */
  lemma {:induction false} ExitSpelled(e: Effect, w: World, k: nat)
    requires k < |Exit(e, w, MAX_ITERATIONS, [], 0).calls|
    ensures var r := Exit(e, w, MAX_ITERATIONS, [], 0);
            var b, slot := r.calls[k].before, r.calls[k].slot;
            && 1 <= slot <= 255 && b.table[slot] != 0 && b.destructors[slot] != 0
            && (k + 1 < |r.calls| || r.Returned? ==>
                (if k + 1 < |r.calls| then r.calls[k + 1].before else r.world)
                == e(k, b.destructors[slot], b.table[slot], b.(table := b.table[slot := 0])))
    ensures Exit(e, w, MAX_ITERATIONS, [], 0).calls[0].before == w
  {
    var end := ExitHistory(e, w, w, MAX_ITERATIONS, [], 0);
    CallsSpelled(e, w, Exit(e, w, MAX_ITERATIONS, [], 0).calls, end, k);
  }

  // The k-th call is for slot j, or changed its value or its destructor.
  ghost predicate Concerns(e: Effect, call: Call, k: nat, j: nat)
    requires j <= 255 && 1 <= call.slot <= 255
  {
    var b, i := call.before, call.slot;
    i == j ||
    var after := e(k, b.destructors[i], b.table[i], b.(table := b.table[i := 0]));
    after.table[j] != b.table[j] || after.destructors[j] != b.destructors[j]
  }

  /**
   * A slot with a value and a destructor, not visited yet, is called later in the
   * pass, unless the effect of a call before that changed the one or the other.
   */
  lemma {:induction false} NotLost(e: Effect, w: World, slot: nat, calls: seq<Call>, j: nat) returns (k: nat)
    requires 1 <= j <= slot <= 255 && w.table[j] != 0 && w.destructors[j] != 0
    ensures var all := Scan(e, w, slot, calls).1;
            |calls| <= k < |all| && j <= all[k].slot <= slot && Concerns(e, all[k], k, j)
    decreases slot
  {
    if w.table[slot] == NULL || w.destructors[slot] == NO_DESTRUCTOR {
      k := NotLost(e, w, slot - 1, calls, j);
    } else {
      var w' := e(|calls|, w.destructors[slot], w.table[slot], Cleared(w, slot));
      var all := Scan(e, w, slot, calls).1;
      assert all == Scan(e, w', slot - 1, calls + [Call(w, slot)]).1;
      assert all[|calls|] == Call(w, slot);
      k := |calls|;
      if slot != j && w'.table[j] == w.table[j] && w'.destructors[j] == w.destructors[j] {
        k := NotLost(e, w', slot - 1, calls + [Call(w, slot)], j);
      }
    }
  }

  // Destructors that leave the world as they find it.
  ghost predicate Inert(e: Effect) {
    forall n: nat, d: Destructor, value: Value, w: World :: e(n, d, value, w) == w
  }

  lemma {:induction false} InertScan(e: Effect, w: World, slot: nat, calls: seq<Call>)
    requires Inert(e) && slot <= 255
    ensures var end := Scan(e, w, slot, calls).0;
            && end.destructors == w.destructors && end.lastUsed == w.lastUsed
            && forall j | 0 <= j <= 255 ::
                 end.table[j] == if 1 <= j <= slot && w.table[j] != 0 && w.destructors[j] != 0 then 0 else w.table[j]
    decreases slot
  {
    if slot > 0 {
      if w.table[slot] == NULL || w.destructors[slot] == NO_DESTRUCTOR {
        InertScan(e, w, slot - 1, calls);
      } else {
        InertScan(e, Cleared(w, slot), slot - 1, calls + [Call(w, slot)]);
      }
    }
  }

  // Call number k is for a slot up to `slot` that has a value and a destructor in
  // w, with these.
  ghost predicate CalledFor(w: World, slot: nat, call: Call) {
    && 1 <= call.slot <= slot && call.slot <= 255
    && w.table[call.slot] != 0 && w.destructors[call.slot] != 0
    && call.before.table[call.slot] == w.table[call.slot]
    && call.before.destructors[call.slot] == w.destructors[call.slot]
  }

  // From call number n on: such calls only, downwards.
  ghost predicate CallsDown(w: World, slot: nat, calls: seq<Call>, n: nat) {
    && (forall k | n <= k < |calls| :: CalledFor(w, slot, calls[k]))
    && (forall k, l | n <= k < l < |calls| :: calls[k].slot > calls[l].slot)
  }

  lemma {:induction false} OneMoreDown(w: World, w': World, slot: nat, calls: seq<Call>, n: nat)
    requires 1 <= slot <= 255 && w' == w.(table := w.table[slot := 0])
    requires w.table[slot] != 0 && w.destructors[slot] != 0
    requires n < |calls| && calls[n] == Call(w, slot) && CallsDown(w', slot - 1, calls, n + 1)
    ensures CallsDown(w, slot, calls, n)
  {
    forall k | n <= k < |calls| ensures CalledFor(w, slot, calls[k]) {
      assert k > n ==> CalledFor(w', slot - 1, calls[k]);
    }
    forall k, l | n <= k < l < |calls| ensures calls[k].slot > calls[l].slot {
      assert CalledFor(w', slot - 1, calls[l]);
    }
  }

  lemma {:induction false} InertCalls(e: Effect, w: World, slot: nat, calls: seq<Call>)
    requires Inert(e) && slot <= 255
    ensures CallsDown(w, slot, Scan(e, w, slot, calls).1, |calls|)
    decreases slot
  {
    if slot > 0 {
      var all := Scan(e, w, slot, calls).1;
      if w.table[slot] == NULL || w.destructors[slot] == NO_DESTRUCTOR {
        InertCalls(e, w, slot - 1, calls);
        assert CallsDown(w, slot - 1, all, |calls|);
      } else {
        var more, w' := calls + [Call(w, slot)], Cleared(w, slot);
        InertCalls(e, w', slot - 1, more);
        assert all == Scan(e, w', slot - 1, more).1;
        assert all[|calls|] == more[|calls|];
        OneMoreDown(w, w', slot, all, |calls|);
      }
    }
  }

  /**
   * If destructors do nothing, exactly the slots with a value and a destructor are
   * called, each once and from the mark downwards, and exactly they are 0 at the end.
   */
  lemma {:induction false} InertExit(e: Effect, w: World)
    requires Inert(e)
    ensures var r := Exit(e, w, MAX_ITERATIONS, [], 0);
            && r.Returned? && r.passes == (if r.calls == [] then 1 else 2)
            && CallsDown(w, w.lastUsed, r.calls, 0)
            && (forall j | 1 <= j <= 255 && w.table[j] != 0 && w.destructors[j] != 0 ::
                  exists k | 0 <= k < |r.calls| :: r.calls[k].slot == j)
            && r.world.destructors == w.destructors && r.world.lastUsed == w.lastUsed
            && forall j | 0 <= j <= 255 ::
                 r.world.table[j] ==
                   if 1 <= j && w.table[j] != 0 && w.destructors[j] != 0 then 0 else w.table[j]
  {
    var first := Scan(e, w, w.lastUsed, []);
    InertScan(e, w, w.lastUsed, []);
    InertCalls(e, w, w.lastUsed, []);
    DeadScan(e, first.0, first.0.lastUsed, first.1);
    if first.1 != [] {
      assert Exit(e, w, MAX_ITERATIONS, [], 0) == Exit(e, first.0, MAX_ITERATIONS - 1, first.1, 1);
    }
    forall j | 1 <= j <= 255 && w.table[j] != 0 && w.destructors[j] != 0
      ensures exists k | 0 <= k < |first.1| :: first.1[k].slot == j
    {
      var k := NotLost(e, w, w.lastUsed, [], j);
      assert first.1[k].slot == j;
    }
  }

  // Each of the next passes calls a destructor.
  predicate BusyFor(e: Effect, w: World, calls: seq<Call>, passes: nat)
    decreases passes
  {
    passes == 0 ||
    var r := Scan(e, w, w.lastUsed, calls);
    r.1 != calls && BusyFor(e, r.0, r.1, passes - 1)
  }

  /** The CHECK fails exactly when all passes but the last allowed one find work. */
  lemma {:induction false} CheckFailsIff(e: Effect, w: World, remaining: nat, calls: seq<Call>, passes: nat)
    requires remaining > 0
    ensures Exit(e, w, remaining, calls, passes).CheckFailed? <==> BusyFor(e, w, calls, remaining - 1)
    decreases remaining
  {
    var r := Scan(e, w, w.lastUsed, calls);
    if remaining > 1 && r.1 != calls {
      CheckFailsIff(e, r.0, remaining - 1, r.1, passes + 1);
    }
  }

  // ---------------------------------------------------------------------------
  // Other threads at work meanwhile.

  // What they have done by the n-th visit of a slot: removed destructors, and added
  // some for new slots, in which the ending thread has no value.
  type Interference = (nat, World) -> World

  ghost predicate Foreign(others: Interference) {
    forall n: nat, w: World ::
      && others(n, w).table == w.table && w.lastUsed <= others(n, w).lastUsed
      && forall j :: 0 <= j < STORAGE_SIZE ==>
           || others(n, w).destructors[j] == w.destructors[j]
           || others(n, w).destructors[j] == NO_DESTRUCTOR
           || w.table[j] == NULL
  }

  datatype Pass = Pass(world: World, calls: seq<Call>, visits: nat)

  // Scan, with the other threads at work before each visit.
  function ScanAmid(e: Effect, others: Interference, w: World, slot: nat, calls: seq<Call>, visits: nat): (p: Pass)
    requires slot < STORAGE_SIZE
    ensures calls <= p.calls
    decreases slot
  {
    if slot == 0 then Pass(w, calls, visits)
    else
      var v := others(visits, w);
      if v.table[slot] == NULL || v.destructors[slot] == NO_DESTRUCTOR then
        ScanAmid(e, others, v, slot - 1, calls, visits + 1)
      else
        var w' := e(|calls|, v.destructors[slot], v.table[slot], Cleared(v, slot));
        ScanAmid(e, others, w', slot - 1, calls + [Call(v, slot)], visits + 1)
  }

  // Exit, likewise.
  function ExitAmid(e: Effect, others: Interference, w: World, remaining: nat, calls: seq<Call>, visits: nat,
                    passes: nat): Outcome
    requires remaining > 0
    decreases remaining
  {
    var p := ScanAmid(e, others, w, w.lastUsed, calls, visits);
    if remaining == 1 then CheckFailed(p.calls)
    else if p.calls == calls then Returned(p.world, p.calls, passes + 1)
    else ExitAmid(e, others, p.world, remaining - 1, p.calls, p.visits, passes + 1)
  }

  /** If they stay idle, everything is as before. */
  lemma {:induction false} IdleScan(e: Effect, others: Interference, w: World, slot: nat, calls: seq<Call>, visits: nat)
    requires slot <= 255 && forall n: nat, v: World :: others(n, v) == v
    ensures var p := ScanAmid(e, others, w, slot, calls, visits); (p.world, p.calls) == Scan(e, w, slot, calls)
    decreases slot
  {
    if slot > 0 {
      if w.table[slot] == NULL || w.destructors[slot] == NO_DESTRUCTOR {
        IdleScan(e, others, w, slot - 1, calls, visits + 1);
      } else {
        var w' := e(|calls|, w.destructors[slot], w.table[slot], Cleared(w, slot));
        IdleScan(e, others, w', slot - 1, calls + [Call(w, slot)], visits + 1);
      }
    }
  }

  lemma {:induction false} IdleExit(e: Effect, others: Interference, w: World, remaining: nat, calls: seq<Call>,
                                    visits: nat, passes: nat)
    requires remaining > 0 && forall n: nat, v: World :: others(n, v) == v
    ensures ExitAmid(e, others, w, remaining, calls, visits, passes) == Exit(e, w, remaining, calls, passes)
    decreases remaining
  {
    var p := ScanAmid(e, others, w, w.lastUsed, calls, visits);
    IdleScan(e, others, w, w.lastUsed, calls, visits);
    if remaining > 1 && p.calls != calls {
      IdleExit(e, others, p.world, remaining - 1, p.calls, p.visits, passes + 1);
    }
  }

  lemma {:induction false} QuietScanAmid(e: Effect, others: Interference, w: World, slot: nat, calls: seq<Call>,
                                         visits: nat)
    requires slot < STORAGE_SIZE && Foreign(others) && ScanAmid(e, others, w, slot, calls, visits).calls == calls
    requires forall j: nat :: slot < j ==> !Live(w, j)
    ensures forall j: nat :: !Live(ScanAmid(e, others, w, slot, calls, visits).world, j)
    decreases slot
  {
    if slot > 0 {
      var v := others(visits, w);
      forall j: nat | slot - 1 < j ensures !Live(v, j) {
        assert !Live(w, j) || j == slot;
      }
      QuietScanAmid(e, others, v, slot - 1, calls, visits + 1);
    }
  }

  /** After a normal return no slot at all has a value and a destructor, whatever the other threads do. */
  lemma {:induction false} NothingLeftAmid(e: Effect, others: Interference, w: World, remaining: nat, calls: seq<Call>,
                                            visits: nat, passes: nat)
    requires remaining > 0 && Foreign(others) && ExitAmid(e, others, w, remaining, calls, visits, passes).Returned?
    ensures var r := ExitAmid(e, others, w, remaining, calls, visits, passes);
            r.passes < passes + remaining && forall slot: nat :: !Live(r.world, slot)
    decreases remaining
  {
    var p := ScanAmid(e, others, w, w.lastUsed, calls, visits);
    if p.calls == calls {
      QuietScanAmid(e, others, w, w.lastUsed, calls, visits);
    } else {
      NothingLeftAmid(e, others, p.world, remaining - 1, p.calls, p.visits, passes + 1);
    }
  }

  // A destructor brings to life only slots of a lower rank than its own slot.
  ghost predicate Ranked(e: Effect, rank: nat -> nat) {
    forall n: nat, w: World, slot: nat, value: Value, j: nat ::
      (1 <= slot < STORAGE_SIZE && w.table[slot] == NULL &&
       Live(e(n, w.destructors[slot], value, w), j) && !Live(w, j)) ==> rank(j) < rank(slot)
  }

  // Live slots have a rank below bound.
  ghost predicate LiveBelow(w: World, rank: nat -> nat, bound: nat) {
    forall j: nat :: Live(w, j) ==> rank(j) < bound
  }

  // Also, live slots that the pass has gone past have a rank below bound - 1.
  ghost predicate LiveDuring(w: World, rank: nat -> nat, slot: nat, bound: nat) {
    LiveBelow(w, rank, bound) && forall j: nat :: slot < j && Live(w, j) ==> rank(j) + 1 < bound
  }

  lemma {:induction false} ScanLowers(e: Effect, rank: nat -> nat, w: World, slot: nat, calls: seq<Call>, bound: nat)
    requires Ranked(e, rank) && slot < STORAGE_SIZE && LiveDuring(w, rank, slot, bound + 1)
    ensures LiveBelow(Scan(e, w, slot, calls).0, rank, bound)
    decreases slot
  {
    if slot > 0 {
      if w.table[slot] == NULL || w.destructors[slot] == NO_DESTRUCTOR {
        ScanLowers(e, rank, w, slot - 1, calls, bound);
      } else {
        var clear := Cleared(w, slot);
        var w' := e(|calls|, w.destructors[slot], w.table[slot], clear);
        forall j: nat | Live(w', j) ensures rank(j) < bound + 1 && (slot - 1 < j ==> rank(j) + 1 < bound + 1) {
          assert Live(clear, j) ==> Live(w, j) && j != slot;
          assert Live(w, slot) && clear.destructors == w.destructors;
        }
        ScanLowers(e, rank, w', slot - 1, calls + [Call(w, slot)], bound);
      }
    }
  }

  lemma {:induction false} DeadScan(e: Effect, w: World, slot: nat, calls: seq<Call>)
    requires slot <= w.lastUsed && forall j: nat :: !Live(w, j)
    ensures Scan(e, w, slot, calls) == (w, calls)
  {
    if slot > 0 {
      assert !Live(w, slot);
      DeadScan(e, w, slot - 1, calls);
    }
  }

  /**
   * If destructors only set slots of a lower rank, with ranks below bound, the
   * loop is done after bound + 1 passes, given one more attempt than that.
   */
  lemma {:induction false} RankedFinishes(e: Effect, rank: nat -> nat, w: World, remaining: nat, calls: seq<Call>,
                                          passes: nat, bound: nat)
    requires Ranked(e, rank) && LiveBelow(w, rank, bound) && remaining >= bound + 2
    ensures var r := Exit(e, w, remaining, calls, passes); r.Returned? && r.passes <= passes + bound + 1
    decreases bound
  {
    if bound == 0 {
      DeadScan(e, w, w.lastUsed, calls);
    } else {
      var r := Scan(e, w, w.lastUsed, calls);
      ScanLowers(e, rank, w, w.lastUsed, calls, bound - 1);
      if r.1 != calls {
        RankedFinishes(e, rank, r.0, remaining - 1, r.1, passes + 1, bound - 1);
      }
    }
  }

  /** With ranks 0 to 253 the loop of the source finishes, within 255 passes. */
  lemma {:induction false} RanksUpTo253Finish(e: Effect, rank: nat -> nat, w: World)
    requires Ranked(e, rank) && forall j: nat :: Live(w, j) ==> rank(j) <= 253
    ensures var r := Exit(e, w, MAX_ITERATIONS, [], 0); r.Returned? && r.passes <= 255
  {
    RankedFinishes(e, rank, w, MAX_ITERATIONS, [], 0, 254);
  }

  // One more rank is too many: each destructor sets the next higher slot, which
  // the pass has already gone past, so every pass calls one destructor.

  // Slot i has destructor i.
  function Numbered(): seq<Destructor> {
    seq(STORAGE_SIZE, i => i)
  }

  function SetNext(n: nat, d: Destructor, value: Value, w: World): World {
    if w.destructors == Numbered() && 1 <= d < STORAGE_SIZE - 1 then w.(table := w.table[d + 1 := value]) else w
  }

  function SlotRank(slot: nat): nat {
    if 1 <= slot < STORAGE_SIZE then STORAGE_SIZE - 1 - slot else 0
  }

  // All slots have a destructor, and only one has a value.
  function OnlySlot(slot: nat): World {
    Snapshot(seq(STORAGE_SIZE, i => if i == slot then 1 else NULL), Numbered(), STORAGE_SIZE - 1)
  }

  lemma {:induction false} SkipSlots(e: Effect, w: World, from: nat, to: nat, calls: seq<Call>)
    requires to <= from < STORAGE_SIZE && forall j :: to < j <= from ==> w.table[j] == NULL
    ensures Scan(e, w, from, calls) == Scan(e, w, to, calls)
    decreases from
  {
    if to < from {
      SkipSlots(e, w, from - 1, to, calls);
    }
  }

  lemma {:induction false} OnePassMovesOn(slot: nat, calls: seq<Call>)
    requires 1 <= slot < STORAGE_SIZE - 1
    ensures Scan(SetNext, OnlySlot(slot), STORAGE_SIZE - 1, calls)
            == (OnlySlot(slot + 1), calls + [Call(OnlySlot(slot), slot)])
  {
    var w, w' := OnlySlot(slot), OnlySlot(slot + 1);
    SkipSlots(SetNext, w, STORAGE_SIZE - 1, slot, calls);
    assert SetNext(|calls|, slot, 1, Cleared(w, slot)).table == w'.table;
    SkipSlots(SetNext, w', slot - 1, 0, calls + [Call(w, slot)]);
  }

  lemma {:induction false} LastPassStillBusy(calls: seq<Call>)
    ensures Scan(SetNext, OnlySlot(STORAGE_SIZE - 1), STORAGE_SIZE - 1, calls).1 != calls
  {
  }

  lemma {:induction false} ChainBusy(slot: nat, calls: seq<Call>)
    requires 1 <= slot < STORAGE_SIZE
    ensures BusyFor(SetNext, OnlySlot(slot), calls, STORAGE_SIZE - slot)
    decreases STORAGE_SIZE - slot
  {
    if slot < STORAGE_SIZE - 1 {
      OnePassMovesOn(slot, calls);
      ChainBusy(slot + 1, calls + [Call(OnlySlot(slot), slot)]);
    } else {
      LastPassStillBusy(calls);
    }
  }

  lemma {:induction false} SetNextRanked()
    ensures Ranked(SetNext, SlotRank)
  {
  }

  /** The bound is tight: with ranks 0 to 254 the CHECK can fail. */
  lemma {:induction false} RanksUpTo254Fail()
    ensures Ranked(SetNext, SlotRank) && forall j: nat :: SlotRank(j) <= 254
    ensures Exit(SetNext, OnlySlot(1), MAX_ITERATIONS, [], 0).CheckFailed?
  {
    SetNextRanked();
    ChainBusy(1, []);
    CheckFailsIff(SetNext, OnlySlot(1), MAX_ITERATIONS, [], 0);
  }

  // ---------------------------------------------------------------------------
  // The loop as it runs.

  /** The process-wide state, and the ending thread's value of the native key. */
  class ExitingThread {
    const destructors: array<Destructor>
    var lastUsed: nat
    var native: array?<Value>

    constructor (destructors: array<Destructor>, lastUsed: nat)
      ensures this.destructors == destructors && this.lastUsed == lastUsed && native == null
    {
      this.destructors := destructors;
      this.lastUsed := lastUsed;
      this.native := null;
    }

    ghost predicate Valid()
      reads this, destructors, native
    {
      native != null && native != destructors && IsWorld(Snapshot(native[..], destructors[..], lastUsed))
    }

    function Current(): World
      requires Valid()
      reads this, destructors, native
    {
      Snapshot(native[..], destructors[..], lastUsed)
    }

    // Runs the n-th destructor call, with whatever it does to the slots.
    method RunDestructor(e: Effect, n: nat, destructor: Destructor, value: Value)
      requires Valid()
      modifies this`lastUsed, destructors, native
      ensures Valid() && Current() == e(n, destructor, value, old(Current()))
    {
      var w: World := e(n, destructor, value, Current());
      forall i | 0 <= i < native.Length {
        native[i] := w.table[i];
      }
      forall i | 0 <= i < destructors.Length {
        destructors[i] := w.destructors[i];
      }
      lastUsed := w.lastUsed;
      assert native[..] == w.table && destructors[..] == w.destructors;
    }

    // The inner loop: one pass from the high-water mark down to slot 1.
    method ScanSlots(e: Effect, earlier: seq<Call>) returns (called: bool, calls: seq<Call>)
      requires Valid()
      modifies this`lastUsed, destructors, native
      ensures Valid() && (Current(), calls) == Scan(e, old(Current()), old(lastUsed), earlier)
      ensures called <==> calls != earlier
    {
      ghost var start := Current();
      called, calls := false, earlier;
      var slot: nat := lastUsed;
      while slot > 0
        invariant Valid() && slot < STORAGE_SIZE
        invariant Scan(e, start, start.lastUsed, earlier) == Scan(e, Current(), slot, calls)
        invariant |calls| >= |earlier| && (calls == earlier || called) && (called ==> |calls| > |earlier|)
      {
        var value := native[slot];
        var destructor := destructors[slot];
        if value != NULL && destructor != NO_DESTRUCTOR {
          var w := Current();
          native[slot] := NULL;
          assert native[..] == w.table[slot := NULL];
          RunDestructor(e, |calls|, destructor, value);
          called, calls := true, calls + [Call(w, slot)];
        }
        slot := slot - 1;
      }
    }

    /** False if the CHECK on the number of attempts fails. */
    method OnThreadExit(e: Effect, tlsData: array<Value>) returns (returned: bool, calls: seq<Call>)
      requires tlsData != destructors
      requires IsWorld(Snapshot(tlsData[..], destructors[..], lastUsed))
      modifies this, destructors
      ensures var w: World := old(Snapshot(tlsData[..], destructors[..], lastUsed));
              match Exit(e, w, MAX_ITERATIONS, [], 0)
              case Returned(end, all, _) =>
                && returned && calls == all && native == null
                && destructors[..] == end.destructors && lastUsed == end.lastUsed
              case CheckFailed(all) => !returned && calls == all
    {
      ghost var start: World := Snapshot(tlsData[..], destructors[..], lastUsed);
      var stack := new Value[STORAGE_SIZE](i requires 0 <= i < tlsData.Length reads tlsData => tlsData[i]);
      assert stack[..] == tlsData[..];
      native := stack;
      calls := [];
      var remaining := MAX_ITERATIONS;
      var needToScan := true;
      ghost var passes := 0;
      while needToScan
        invariant native == stack && Valid() && 0 < remaining <= MAX_ITERATIONS
        invariant Exit(e, start, MAX_ITERATIONS, [], 0) ==
                  if needToScan then Exit(e, Current(), remaining, calls, passes)
                  else Returned(Current(), calls, passes)
        decreases needToScan, remaining
      {
        needToScan, calls := ScanSlots(e, calls);
        remaining := remaining - 1;
        if remaining == 0 {
          return false, calls;
        }
        passes := passes + 1;
      }
      native := null;
      returned := true;
    }
  }
}
