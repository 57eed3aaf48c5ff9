/** EraseUnRefEntries, SetCapacity and SetStrictCapacityLimit on the CLOCK shard, over every interleaving. */
module ClockSettings {
  import opened Wrappers
  import opened ClockState
  import opened ClockInvariant
  import opened ClockSafety
  import opened ClockCalls

  /** Done with the mutex, or nearly: the call left it in state `u`. */
  ghost predicate Left(run: seq<State>, t: nat, u: nat, m: nat)
    requires m < |run| && t < |run[m].acts|
  {
    && (run[m].acts[t].pc == Unlock(None) || run[m].acts[t].pc == Cleanup(None))
    && u <= m && t < |run[u].acts| && run[u].acts[t].pc == Unlock(None)
  }

  lemma LeftStays(run: seq<State>, schedule: seq<(nat, Choice)>, t: nat, u: nat, m: nat)
    requires IsRun(run, schedule) && m < |schedule| && t < |run[m].acts| && Left(run, t, u, m)
    requires t < |run[m + 1].acts| && !Resting(run[m + 1].acts[t].pc)
    ensures Left(run, t, u, m + 1)
  {
    RunSteps(run, schedule, m);
    OnlyOwnSteps(run, schedule, m, t);
    if schedule[m].0 == t {
      if run[m].acts[t].pc.Unlock? {
        LeavesMutex(run[m], t, schedule[m].1);
      } else {
        Returns(run[m], t, schedule[m].1);
      }
    }
  }

  // ---- EraseUnRefEntries ----

  predicate Sweeping(pc: Pc) {
    pc.SweepLock? || pc.SweepClear? || pc.SweepUnset? || pc.SweepRecycle?
  }

  lemma SweepStarts(s: State, t: nat)
    requires CanStep(s, t) && s.acts[t].pc.Idle?
    ensures Step(s, t, DoSweep).acts[t].pc == SweepLock
  {
    assert Step(s, t, DoSweep) == StepIdle(s, t, DoSweep);
  }

  lemma SweepsOn(s: State, t: nat, c: Choice)
    requires Inv(s) && CanStep(s, t) && Sweeping(s.acts[t].pc)
    ensures var s' := Step(s, t, c);
      Sweeping(s'.acts[t].pc) || (s'.acts[t].pc == Unlock(None) && s'.table == map[])
  {
    var pc := s.acts[t].pc;
    if pc.SweepLock? {
      assert Step(s, t, c) == StepLock(s, t);
    } else if pc.SweepClear? {
      assert Step(s, t, c) == StepTable(s, t);
    } else if pc.SweepUnset? {
      assert s.owner == Some(t) && Inside(s) == pc;
      assert Step(s, t, c) == StepUnset(s, t);
    } else {
      assert Step(s, t, c) == StepRecycle(s, t);
    }
  }

  ghost predicate SweepPhase(run: seq<State>, t: nat, i: nat, u: nat, m: nat)
    requires m < |run|
  {
    && t < |run[m].acts|
    && (Sweeping(run[m].acts[t].pc) || (Left(run, t, u, m) && i < u && run[u].table == map[]))
  }

  lemma SweepNext(run: seq<State>, schedule: seq<(nat, Choice)>, t: nat, i: nat, u: nat, m: nat) returns (u': nat)
    requires IsRun(run, schedule) && i < m < |schedule| && SweepPhase(run, t, i, u, m)
    requires t < |run[m + 1].acts| && !Resting(run[m + 1].acts[t].pc)
    ensures SweepPhase(run, t, i, u', m + 1)
  {
    u' := u;
    if !Sweeping(run[m].acts[t].pc) {
      LeftStays(run, schedule, t, u, m);
    } else {
      RunSteps(run, schedule, m);
      EveryRunIsSafe(run, schedule, m);
      OnlyOwnSteps(run, schedule, m, t);
      if schedule[m].0 == t {
        SweepsOn(run[m], t, schedule[m].1);
        u' := m + 1;
      }
    }
  }

  lemma SweepGoesOn(run: seq<State>, schedule: seq<(nat, Choice)>, t: nat, i: nat)
    requires IsRun(run, schedule) && i < |schedule| && schedule[i] == (t, DoSweep)
    requires t < |run[i].acts| && run[i].acts[t].pc.Idle?
    ensures t < |run[i + 1].acts| && run[i + 1].acts[t].pc == SweepLock
  {
    RunSteps(run, schedule, i);
    SweepStarts(run[i], t);
  }

  lemma {:induction false} SweepAt(run: seq<State>, schedule: seq<(nat, Choice)>, t: nat, i: nat, j: nat, m: nat)
    returns (u: nat)
    requires Call(run, schedule, t, i, j) && i < m < j
    requires run[i].acts[t].pc.Idle? && schedule[i].1 == DoSweep
    ensures SweepPhase(run, t, i, u, m)
    decreases m
  {
    if m == i + 1 {
      SweepGoesOn(run, schedule, t, i);
      u := 0;
    } else {
      u := SweepAt(run, schedule, t, i, j, m - 1);
      u := SweepNext(run, schedule, t, i, u, m - 1);
    }
  }

  lemma SweepEnds(run: seq<State>, schedule: seq<(nat, Choice)>, t: nat, i: nat, u: nat, m: nat)
    requires IsRun(run, schedule) && m < |schedule| && SweepPhase(run, t, i, u, m)
    requires t < |run[m + 1].acts| && Resting(run[m + 1].acts[t].pc)
    ensures i < u <= m && t < |run[u].acts| && run[u].acts[t].pc == Unlock(None) && run[m + 1].acts[t].pc.Idle?
    ensures run[u].table == map[] && forall h: nat :: !InCache(run[u], h)
  {
    CallEnds(run, schedule, t, m);
    EveryRunIsSafe(run, schedule, u);
    EmptyTable(run[u], t);
  }

  /** EraseUnRefEntries, over whole runs: in the state in which the call leaves the mutex the table is
      empty and no handle is in the cache. (What nobody references then has been recycled, or is by the
      call that gave up the last reference: that is the ownership of dead handles.) */
  lemma SweepCall(run: seq<State>, schedule: seq<(nat, Choice)>, t: nat, i: nat, j: nat) returns (u: nat)
    requires Call(run, schedule, t, i, j)
    requires run[i].acts[t].pc.Idle? && schedule[i].1 == DoSweep
    ensures i < u < j && run[u].acts[t].pc == Unlock(None) && run[j].acts[t].pc.Idle?
    ensures run[u].table == map[] && forall h: nat :: !InCache(run[u], h)
  {
    SweepGoesOn(run, schedule, t, i);
    u := SweepAt(run, schedule, t, i, j, j - 1);
    SweepEnds(run, schedule, t, i, u, j - 1);
  }

  lemma EmptyTable(s: State, t: nat)
    requires Inv(s) && t < |s.acts| && s.acts[t].pc.Unlock? && s.table == map[]
    ensures forall h: nat :: !InCache(s, h)
  {
    assert s.owner == Some(t) && Inside(s) == s.acts[t].pc;
  }

  // ---- SetCapacity ----

  /** Waiting for the mutex with the new capacity, or inside with the capacity set. */
  predicate Resizing(s: State, pc: Pc, capacity: nat) {
    if pc.EvictLock? then pc == EvictLock(ForCapacity, capacity)
    else
      && (IsEvict(pc) || IsTry(pc) || pc.EvictErase? || pc.EvictRecycle? || pc.Decide?)
      && pc.purpose == ForCapacity && s.capacity == capacity
  }

  lemma CapacityStarts(s: State, t: nat, capacity: nat)
    requires CanStep(s, t) && s.acts[t].pc.Idle?
    ensures var s' := Step(s, t, DoSetCapacity(capacity)); Resizing(s', s'.acts[t].pc, capacity)
  {
    assert Step(s, t, DoSetCapacity(capacity)) == StepIdle(s, t, DoSetCapacity(capacity));
  }

  lemma ResizeLocks(s: State, t: nat, capacity: nat)
    requires CanStep(s, t) && s.acts[t].pc.EvictLock? && Resizing(s, s.acts[t].pc, capacity)
    ensures var s' := StepLock(s, t); Resizing(s', s'.acts[t].pc, capacity)
  {
  }

  lemma ResizeEvicts(s: State, t: nat, capacity: nat)
    requires CanStep(s, t) && IsEvict(s.acts[t].pc) && Resizing(s, s.acts[t].pc, capacity)
    ensures var s' := StepEvict(s, t); Resizing(s', s'.acts[t].pc, capacity)
  {
  }

  lemma ResizeTries(s: State, t: nat, c: Choice, capacity: nat)
    requires CanStep(s, t) && Resizing(s, s.acts[t].pc, capacity)
    requires IsTry(s.acts[t].pc) || s.acts[t].pc.EvictErase? || s.acts[t].pc.EvictRecycle?
    ensures var s' := Step(s, t, c); Resizing(s', s'.acts[t].pc, capacity)
  {
    if IsTry(s.acts[t].pc) {
      assert Step(s, t, c) == StepTry(s, t);
    } else if s.acts[t].pc.EvictErase? {
      assert Step(s, t, c) == StepTable(s, t);
    } else {
      assert Step(s, t, c) == StepRecycle(s, t);
    }
  }

  lemma ResizesOn(s: State, t: nat, c: Choice, capacity: nat)
    requires CanStep(s, t) && Resizing(s, s.acts[t].pc, capacity)
    ensures var s' := Step(s, t, c);
      if s.acts[t].pc.Decide? then s'.acts[t].pc == Unlock(None) && s'.capacity == capacity
      else Resizing(s', s'.acts[t].pc, capacity)
  {
    var pc := s.acts[t].pc;
    if pc.Decide? {
      assert Step(s, t, c) == StepDecide(s, t);
    } else if pc.EvictLock? {
      assert Step(s, t, c) == StepLock(s, t);
      ResizeLocks(s, t, capacity);
    } else if IsEvict(pc) {
      assert Step(s, t, c) == StepEvict(s, t);
      ResizeEvicts(s, t, capacity);
    } else {
      ResizeTries(s, t, c, capacity);
    }
  }

  ghost predicate CapacityPhase(run: seq<State>, t: nat, capacity: nat, i: nat, u: nat, m: nat)
    requires m < |run|
  {
    && t < |run[m].acts|
    && (Resizing(run[m], run[m].acts[t].pc, capacity) ||
        (Left(run, t, u, m) && i < u - 1 && run[u].capacity == capacity && DecidedBefore(run, t, capacity, u)))
  }

  /** The step that led to state `u` ended an eviction to the new capacity. */
  ghost predicate DecidedBefore(run: seq<State>, t: nat, capacity: nat, u: nat) {
    && 0 < u < |run| && t < |run[u - 1].acts| && run[u - 1].acts[t].pc.Decide?
    && Resizing(run[u - 1], run[u - 1].acts[t].pc, capacity)
  }

  lemma ResizingStays(run: seq<State>, schedule: seq<(nat, Choice)>, t: nat, capacity: nat, m: nat)
    requires IsRun(run, schedule) && m < |schedule| && schedule[m].0 != t
    requires t < |run[m].acts| && Resizing(run[m], run[m].acts[t].pc, capacity)
    ensures t < |run[m + 1].acts| && Resizing(run[m + 1], run[m + 1].acts[t].pc, capacity)
  {
    RunSteps(run, schedule, m);
    EveryRunIsSafe(run, schedule, m);
    OnlyOwnSteps(run, schedule, m, t);
    if !run[m].acts[t].pc.EvictLock? {
      OutsideKeeps(run[m], t, schedule[m].0, schedule[m].1);
    }
  }

  lemma CapacityNext(run: seq<State>, schedule: seq<(nat, Choice)>, t: nat, capacity: nat, i: nat, u: nat, m: nat)
    returns (u': nat)
    requires IsRun(run, schedule) && i < m < |schedule| && CapacityPhase(run, t, capacity, i, u, m)
    requires t < |run[m + 1].acts| && !Resting(run[m + 1].acts[t].pc)
    ensures CapacityPhase(run, t, capacity, i, u', m + 1)
  {
    u' := u;
    if !Resizing(run[m], run[m].acts[t].pc, capacity) {
      LeftStays(run, schedule, t, u, m);
    } else if schedule[m].0 != t {
      ResizingStays(run, schedule, t, capacity, m);
    } else {
      RunSteps(run, schedule, m);
      ResizesOn(run[m], t, schedule[m].1, capacity);
      u' := m + 1;
    }
  }

  lemma CapacityGoesOn(run: seq<State>, schedule: seq<(nat, Choice)>, t: nat, capacity: nat, i: nat)
    requires IsRun(run, schedule) && i < |schedule| && schedule[i] == (t, DoSetCapacity(capacity))
    requires t < |run[i].acts| && run[i].acts[t].pc.Idle?
    ensures t < |run[i + 1].acts| && Resizing(run[i + 1], run[i + 1].acts[t].pc, capacity)
  {
    RunSteps(run, schedule, i);
    CapacityStarts(run[i], t, capacity);
  }

  lemma {:induction false} CapacityAt(run: seq<State>, schedule: seq<(nat, Choice)>, t: nat, capacity: nat, i: nat,
                                      j: nat, m: nat) returns (u: nat)
    requires Call(run, schedule, t, i, j) && i < m < j
    requires run[i].acts[t].pc.Idle? && schedule[i].1 == DoSetCapacity(capacity)
    ensures CapacityPhase(run, t, capacity, i, u, m)
    decreases m
  {
    if m == i + 1 {
      CapacityGoesOn(run, schedule, t, capacity, i);
      u := 0;
    } else {
      u := CapacityAt(run, schedule, t, capacity, i, j, m - 1);
      u := CapacityNext(run, schedule, t, capacity, i, u, m - 1);
    }
  }

  lemma CapacityEnds(run: seq<State>, schedule: seq<(nat, Choice)>, t: nat, capacity: nat, i: nat, u: nat, m: nat)
    requires IsRun(run, schedule) && m < |schedule| && CapacityPhase(run, t, capacity, i, u, m)
    requires t < |run[m + 1].acts| && Resting(run[m + 1].acts[t].pc)
    ensures i < u - 1 && u <= m && t < |run[u].acts| && t < |run[u - 1].acts|
    ensures run[u].acts[t].pc == Unlock(None) && run[m + 1].acts[t].pc.Idle?
    ensures run[u - 1].capacity == capacity && run[u].capacity == capacity && run[u - 1].acts[t].pc.Decide?
    ensures run[u - 1].acts[t].pc.success ==> run[u - 1].usage <= capacity
  {
    CallEnds(run, schedule, t, m);
    if run[u - 1].acts[t].pc.success {
      SuccessMeansRoom(run, schedule, u - 1, t);
    }
  }

  /** SetCapacity, over whole runs: the call leaves the mutex, in state `u`, with this capacity, right
      after an eviction whose success means that the usage is within it. */
  lemma CapacityCall(run: seq<State>, schedule: seq<(nat, Choice)>, t: nat, capacity: nat, i: nat, j: nat)
    returns (u: nat)
    requires Call(run, schedule, t, i, j)
    requires run[i].acts[t].pc.Idle? && schedule[i].1 == DoSetCapacity(capacity)
    ensures i < u - 1 && u < j && run[u].acts[t].pc == Unlock(None) && run[j].acts[t].pc.Idle?
    ensures run[u - 1].capacity == capacity && run[u].capacity == capacity
    ensures run[u - 1].acts[t].pc.Decide?
    ensures run[u - 1].acts[t].pc.success ==> run[u - 1].usage <= capacity
  {
    CapacityGoesOn(run, schedule, t, capacity, i);
    u := CapacityAt(run, schedule, t, capacity, i, j, j - 1);
    CapacityEnds(run, schedule, t, capacity, i, u, j - 1);
  }

  // ---- SetStrictCapacityLimit ----

  /** SetStrictCapacityLimit: one step, without the mutex, that stores the flag and nothing else. */
  lemma StrictCall(run: seq<State>, schedule: seq<(nat, Choice)>, t: nat, strict: bool, i: nat)
    requires IsRun(run, schedule) && i < |schedule| && schedule[i] == (t, DoSetStrict(strict))
    requires t < |run[i].acts| && run[i].acts[t].pc.Idle?
    ensures run[i + 1] == run[i].(strict := strict)
  {
    RunSteps(run, schedule, i);
    StrictStep(run[i], t, strict);
  }

  lemma StrictStep(s: State, t: nat, strict: bool)
    requires CanStep(s, t) && s.acts[t].pc.Idle?
    ensures Step(s, t, DoSetStrict(strict)) == s.(strict := strict)
  {
  }
}
