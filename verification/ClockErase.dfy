/** Erase on the CLOCK shard, over every interleaving. */
module ClockErase {
  import opened Wrappers
  import opened ClockState
  import opened ClockInvariant
  import opened ClockSafety
  import opened ClockCalls

  /** What an erasure under the mutex, begun in state `s`, has done by state `e`: the key is not in the
      table; the entry it led to is out of the cache, and off the usage and in the bin if `freed`; all
      else is as before. */
  ghost predicate Erased(s: State, e: State, key: CacheKey, freed: bool) {
    && e.table == s.table - {key} && e.next == s.next && e.capacity == s.capacity && |e.handles| == |s.handles|
    && (forall k :: 0 <= k < |s.handles| && !Listed(s, key, k) ==> SameEntry(s.handles[k], e.handles[k]))
    && if key in s.table then s.table[key] < |s.handles| && EntryGone(s, e, s.table[key], freed)
       else !freed && e.usage == s.usage && e.recycle == s.recycle
  }

  predicate Listed(s: State, key: CacheKey, h: nat) {
    key in s.table && s.table[key] == h
  }

  predicate EntryGone(s: State, e: State, h: nat, freed: bool)
    requires h < |s.handles| == |e.handles|
  {
    && !e.handles[h].flags.inCache
    && e.handles[h].charge == s.handles[h].charge && e.handles[h].occupancy == s.handles[h].occupancy
    && e.handles[h].key == (if freed then CacheKey("", s.handles[h].key.hash) else s.handles[h].key)
    && e.usage == s.usage - (if freed then s.handles[h].charge else 0)
    && e.recycle == s.recycle + (if freed then [h] else [])
  }

  /** How far the erasure has come in state `e`, where its activity is at `pc`. */
  ghost predicate Erasing(s: State, e: State, pc: Pc, key: CacheKey) {
    if pc.EraseUnset? then Listed(s, key, pc.h) && Kept(s.(table := s.table - {key}), e)
    else pc.EraseRecycle? && Listed(s, key, pc.h) && Erased(s, e, key, false)
  }

  lemma KeptErasing(s: State, e: State, e': State, pc: Pc, key: CacheKey)
    requires Erasing(s, e, pc, key) && Kept(e, e')
    ensures Erasing(s, e', pc, key)
  {
  }

  lemma EraseStarts(s: State, t: nat, key: CacheKey)
    requires CanStep(s, t) && s.acts[t].pc.Idle?
    ensures Step(s, t, DoErase(key)).acts[t].pc == EraseLock(key)
  {
    assert Step(s, t, DoErase(key)) == StepIdle(s, t, DoErase(key));
  }

  lemma EraseLocks(s: State, t: nat, c: Choice, key: CacheKey)
    requires CanStep(s, t) && s.acts[t].pc == EraseLock(key)
    ensures var pc := Step(s, t, c).acts[t].pc; pc == EraseLock(key) || pc == EraseFind(key)
  {
    assert Step(s, t, c) == StepLock(s, t);
  }

  lemma EraseFindsIt(s: State, t: nat, key: CacheKey)
    requires CanStep(s, t) && s.acts[t].pc == EraseFind(key) && key in s.table
    ensures var s' := StepTable(s, t); s'.acts[t].pc.EraseUnset? && Erasing(s, s', s'.acts[t].pc, key)
  {
  }

  lemma EraseFindsNothing(s: State, t: nat, key: CacheKey)
    requires CanStep(s, t) && s.acts[t].pc == EraseFind(key) && key !in s.table
    ensures var s' := StepTable(s, t); s'.acts[t].pc == Unlock(None) && Erased(s, s', key, false)
  {
    assert s.table - {key} == s.table;
  }

  lemma EraseFinds(s: State, t: nat, c: Choice, key: CacheKey)
    requires CanStep(s, t) && s.acts[t].pc == EraseFind(key)
    ensures var s' := Step(s, t, c); var pc' := s'.acts[t].pc;
      if key in s.table then pc'.EraseUnset? && Erasing(s, s', pc', key)
      else pc' == Unlock(None) && Erased(s, s', key, false)
  {
    assert Step(s, t, c) == StepTable(s, t);
    if key in s.table {
      EraseFindsIt(s, t, key);
    } else {
      EraseFindsNothing(s, t, key);
    }
  }

  lemma EraseUnsets(s: State, e: State, t: nat, c: Choice, key: CacheKey)
    requires Inv(e) && CanStep(e, t) && e.acts[t].pc.EraseUnset? && Erasing(s, e, e.acts[t].pc, key)
    ensures var e' := Step(e, t, c); var pc, pc' := e.acts[t].pc, e'.acts[t].pc;
      if e.handles[pc.h].flags.refs == 0 then pc'.EraseRecycle? && Erasing(s, e', pc', key)
      else pc' == Unlock(None) && Erased(s, e', key, false)
  {
    assert e.owner == Some(t) && Inside(e) == e.acts[t].pc;
    assert Step(e, t, c) == StepUnset(e, t);
  }

  lemma EraseRecycles(s: State, e: State, t: nat, c: Choice, key: CacheKey)
    requires CanStep(e, t) && e.acts[t].pc.EraseRecycle? && Erasing(s, e, e.acts[t].pc, key)
    ensures var e' := Step(e, t, c); e'.acts[t].pc == Unlock(None) && Erased(s, e', key, true)
  {
    assert Step(e, t, c) == StepRecycle(e, t);
  }

  // ---- The whole call ----

  /** The entry was found with the step from state `e`. */
  ghost predicate FoundAt(run: seq<State>, schedule: seq<(nat, Choice)>, t: nat, key: CacheKey, i: nat, e: nat,
                          m: nat)
  {
    && i < e < m <= |schedule| && |run| == |schedule| + 1 && schedule[e].0 == t
    && t < |run[e].acts| && run[e].acts[t].pc == EraseFind(key)
  }

  /** The in-cache bit was cleared with the step from state `x`; the handle is recycled exactly if
      nobody had a reference to it then. */
  ghost predicate UnsetAt(run: seq<State>, key: CacheKey, e: nat, x: nat, m: nat, freed: bool)
    requires e < |run|
  {
    key in run[e].table ==>
      && e < x < m && x < |run| && run[e].table[key] < |run[x].handles|
      && (freed <==> run[x].handles[run[e].table[key]].flags.refs == 0)
  }

  /** Where the call stands in state `m`. */
  ghost predicate Phase(run: seq<State>, schedule: seq<(nat, Choice)>, t: nat, key: CacheKey, i: nat, e: nat, x: nat,
                        u: nat, freed: bool, m: nat)
    requires m < |run|
  {
    && t < |run[m].acts|
    && var pc := run[m].acts[t].pc;
       if pc == EraseLock(key) || pc == EraseFind(key) then true
       else
         && FoundAt(run, schedule, t, key, i, e, m)
         && if pc.EraseUnset? then Erasing(run[e], run[m], pc, key)
            else if pc.EraseRecycle? then Erasing(run[e], run[m], pc, key) && UnsetAt(run, key, e, x, m, true)
            else
              && (pc == Unlock(None) || pc == Cleanup(None)) && e < u <= m
              && t < |run[u].acts| && run[u].acts[t].pc == Unlock(None)
              && Erased(run[e], run[u], key, freed) && UnsetAt(run, key, e, x, u, freed)
  }

  lemma PhaseStays(run: seq<State>, schedule: seq<(nat, Choice)>, t: nat, key: CacheKey, i: nat, e: nat, x: nat, u: nat,
                   freed: bool, m: nat)
    requires IsRun(run, schedule) && m < |schedule| && schedule[m].0 != t
    requires Phase(run, schedule, t, key, i, e, x, u, freed, m)
    ensures Phase(run, schedule, t, key, i, e, x, u, freed, m + 1)
  {
    RunSteps(run, schedule, m);
    EveryRunIsSafe(run, schedule, m);
    var pc := run[m].acts[t].pc;
    OthersStand(run[m], t, schedule[m].0, schedule[m].1);
    if pc.EraseUnset? || pc.EraseRecycle? {
      OutsideKeeps(run[m], t, schedule[m].0, schedule[m].1);
      KeptErasing(run[e], run[m], run[m + 1], pc, key);
    }
  }

  lemma PhaseFinds(run: seq<State>, schedule: seq<(nat, Choice)>, t: nat, key: CacheKey, i: nat, m: nat)
    requires IsRun(run, schedule) && i < m < |schedule| && schedule[m].0 == t && t < |run[m].acts|
    requires run[m].acts[t].pc == EraseFind(key)
    ensures Phase(run, schedule, t, key, i, m, m, m + 1, false, m + 1)
  {
    RunSteps(run, schedule, m);
    EveryRunIsSafe(run, schedule, m);
    EraseFinds(run[m], t, schedule[m].1, key);
  }

  lemma PhaseUnsets(run: seq<State>, schedule: seq<(nat, Choice)>, t: nat, key: CacheKey, i: nat, e: nat, m: nat)
    requires IsRun(run, schedule) && m < |schedule| && schedule[m].0 == t && t < |run[m].acts|
    requires run[m].acts[t].pc.EraseUnset? && Phase(run, schedule, t, key, i, e, 0, 0, false, m)
    ensures Phase(run, schedule, t, key, i, e, m, m + 1, false, m + 1)
  {
    RunSteps(run, schedule, m);
    EveryRunIsSafe(run, schedule, m);
    EraseUnsets(run[e], run[m], t, schedule[m].1, key);
  }

  lemma PhaseRecycles(run: seq<State>, schedule: seq<(nat, Choice)>, t: nat, key: CacheKey, i: nat, e: nat, x: nat,
                      m: nat)
    requires IsRun(run, schedule) && m < |schedule| && schedule[m].0 == t && t < |run[m].acts|
    requires run[m].acts[t].pc.EraseRecycle? && Phase(run, schedule, t, key, i, e, x, 0, false, m)
    ensures Phase(run, schedule, t, key, i, e, x, m + 1, true, m + 1)
  {
    RunSteps(run, schedule, m);
    EraseRecycles(run[e], run[m], t, schedule[m].1, key);
  }

  lemma PhasePlain(run: seq<State>, schedule: seq<(nat, Choice)>, t: nat, key: CacheKey, i: nat, e: nat, x: nat, u: nat,
                   freed: bool, m: nat)
    requires IsRun(run, schedule) && m < |schedule| && schedule[m].0 == t && t < |run[m].acts|
    requires run[m].acts[t].pc.EraseLock? || run[m].acts[t].pc.Unlock? || run[m].acts[t].pc.Cleanup?
    requires t < |run[m + 1].acts| && !Resting(run[m + 1].acts[t].pc)
    requires Phase(run, schedule, t, key, i, e, x, u, freed, m)
    ensures Phase(run, schedule, t, key, i, e, x, u, freed, m + 1)
  {
    RunSteps(run, schedule, m);
    var pc, c := run[m].acts[t].pc, schedule[m].1;
    if pc.EraseLock? {
      EraseLocks(run[m], t, c, key);
    } else if pc.Unlock? {
      LeavesMutex(run[m], t, c);
    } else {
      Returns(run[m], t, c);
    }
  }

  lemma PhaseNext(run: seq<State>, schedule: seq<(nat, Choice)>, t: nat, key: CacheKey, i: nat, e: nat, x: nat, u: nat,
                  freed: bool, m: nat) returns (e': nat, x': nat, u': nat, freed': bool)
    requires IsRun(run, schedule) && i < m < |schedule| && t < |run[m + 1].acts| && !Resting(run[m + 1].acts[t].pc)
    requires Phase(run, schedule, t, key, i, e, x, u, freed, m)
    ensures Phase(run, schedule, t, key, i, e', x', u', freed', m + 1)
  {
    e', x', u', freed' := e, x, u, freed;
    if schedule[m].0 != t {
      PhaseStays(run, schedule, t, key, i, e, x, u, freed, m);
    } else if run[m].acts[t].pc.EraseFind? {
      PhaseFinds(run, schedule, t, key, i, m);
      e', x', u', freed' := m, m, m + 1, false;
    } else if run[m].acts[t].pc.EraseUnset? {
      PhaseUnsets(run, schedule, t, key, i, e, m);
      x', u', freed' := m, m + 1, false;
    } else if run[m].acts[t].pc.EraseRecycle? {
      PhaseRecycles(run, schedule, t, key, i, e, x, m);
      u', freed' := m + 1, true;
    } else {
      PhasePlain(run, schedule, t, key, i, e, x, u, freed, m);
    }
  }

  lemma EraseGoesOn(run: seq<State>, schedule: seq<(nat, Choice)>, t: nat, key: CacheKey, i: nat)
    requires IsRun(run, schedule) && i < |schedule| && schedule[i] == (t, DoErase(key))
    requires t < |run[i].acts| && run[i].acts[t].pc.Idle?
    ensures t < |run[i + 1].acts| && run[i + 1].acts[t].pc == EraseLock(key)
  {
    RunSteps(run, schedule, i);
    EraseStarts(run[i], t, key);
  }

  lemma {:induction false} PhaseAt(run: seq<State>, schedule: seq<(nat, Choice)>, t: nat, key: CacheKey, i: nat,
                                   j: nat, m: nat) returns (e: nat, x: nat, u: nat, freed: bool)
    requires Call(run, schedule, t, i, j) && i < m < j
    requires run[i].acts[t].pc.Idle? && schedule[i].1 == DoErase(key)
    ensures Phase(run, schedule, t, key, i, e, x, u, freed, m)
    decreases m
  {
    if m == i + 1 {
      EraseGoesOn(run, schedule, t, key, i);
      e, x, u, freed := 0, 0, 0, false;
    } else {
      e, x, u, freed := PhaseAt(run, schedule, t, key, i, j, m - 1);
      e, x, u, freed := PhaseNext(run, schedule, t, key, i, e, x, u, freed, m - 1);
    }
  }

  lemma PhaseEnds(run: seq<State>, schedule: seq<(nat, Choice)>, t: nat, key: CacheKey, i: nat, e: nat, x: nat, u: nat,
                  freed: bool, m: nat)
    requires IsRun(run, schedule) && m < |schedule| && Phase(run, schedule, t, key, i, e, x, u, freed, m)
    requires t < |run[m + 1].acts| && Resting(run[m + 1].acts[t].pc)
    ensures i < e < u <= m && schedule[e].0 == t && t < |run[e].acts| && t < |run[u].acts|
    ensures run[e].acts[t].pc == EraseFind(key) && run[u].acts[t].pc == Unlock(None) && run[m + 1].acts[t].pc.Idle?
    ensures Erased(run[e], run[u], key, freed) && UnsetAt(run, key, e, x, u, freed)
  {
    CallEnds(run, schedule, t, m);
  }

  /** Erase, over whole runs. A call that has returned entered the mutex before some state `e` and left it
      in some state `u`: the key is not in the table then, its entry, if there was one, is out of the cache,
      and it is recycled, with its charge off the usage, exactly if nobody had a reference to it in the
      state `x` in which its in-cache bit was cleared. Every other entry is as before. */
  lemma EraseCall(run: seq<State>, schedule: seq<(nat, Choice)>, t: nat, key: CacheKey, i: nat, j: nat)
    returns (e: nat, x: nat, u: nat, freed: bool)
    requires Call(run, schedule, t, i, j)
    requires run[i].acts[t].pc.Idle? && schedule[i].1 == DoErase(key)
    ensures i < e < u < j && schedule[e].0 == t
    ensures run[e].acts[t].pc == EraseFind(key) && run[u].acts[t].pc == Unlock(None) && run[j].acts[t].pc.Idle?
    ensures Erased(run[e], run[u], key, freed) && UnsetAt(run, key, e, x, u, freed)
  {
    EraseGoesOn(run, schedule, t, key, i);
    e, x, u, freed := PhaseAt(run, schedule, t, key, i, j, j - 1);
    PhaseEnds(run, schedule, t, key, i, e, x, u, freed, j - 1);
  }
}
