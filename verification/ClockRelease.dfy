/** Release on the CLOCK shard, over every interleaving, and what a call leaves to delete. */
module ClockRelease {
  import opened Wrappers
  import opened ClockState
  import opened ClockInvariant
  import opened ClockSafety
  import opened ClockCalls

  // ---- Nothing is left to delete ----

  /** Program points at which the call has given up no value yet, or has deleted all of them. */
  predicate Clean(pc: Pc) {
    Resting(pc) || IsLookup(pc) || IsUnref(pc) || IsLock(pc)
  }

  predicate CleanAct(a: Activity) {
    Clean(a.pc) ==> a.toDelete == multiset{}
  }

  lemma IdleCleans(s: State, t: nat, c: Choice)
    requires CanStep(s, t) && CleanAct(s.acts[t]) && s.acts[t].pc.Idle?
    ensures CleanAct(StepIdle(s, t, c).acts[t])
  {
  }

  lemma LookupCleans(s: State, t: nat, c: Choice)
    requires CanStep(s, t) && CleanAct(s.acts[t]) && IsLookup(s.acts[t].pc)
    ensures CleanAct(StepLookup(s, t, c).acts[t])
  {
  }

  lemma UnrefCleans(s: State, t: nat)
    requires CanStep(s, t) && CleanAct(s.acts[t]) && IsUnref(s.acts[t].pc)
    ensures CleanAct(StepUnref(s, t).acts[t])
  {
  }

  lemma LockCleans(s: State, t: nat)
    requires CanStep(s, t) && CleanAct(s.acts[t]) && IsLock(s.acts[t].pc)
    ensures CleanAct(StepLock(s, t).acts[t])
  {
  }

  lemma EvictCleans(s: State, t: nat)
    requires CanStep(s, t) && IsEvict(s.acts[t].pc)
    ensures !Clean(StepEvict(s, t).acts[t].pc)
  {
  }

  lemma TryCleans(s: State, t: nat)
    requires CanStep(s, t) && IsTry(s.acts[t].pc)
    ensures !Clean(StepTry(s, t).acts[t].pc)
  {
  }

  lemma DecideCleans(s: State, t: nat)
    requires CanStep(s, t) && s.acts[t].pc.Decide?
    ensures !Clean(StepDecide(s, t).acts[t].pc)
  {
  }

  lemma FillCleans(s: State, t: nat)
    requires CanStep(s, t) && IsFill(s.acts[t].pc)
    ensures !Clean(StepFill(s, t).acts[t].pc)
  {
  }

  lemma TableCleans(s: State, t: nat)
    requires CanStep(s, t) && IsTable(s.acts[t].pc)
    ensures !Clean(StepTable(s, t).acts[t].pc)
  {
  }

  lemma UnsetCleans(s: State, t: nat)
    requires CanStep(s, t) && IsUnset(s.acts[t].pc)
    ensures !Clean(StepUnset(s, t).acts[t].pc)
  {
  }

  lemma RecycleCleans(s: State, t: nat)
    requires CanStep(s, t) && IsRecycle(s.acts[t].pc)
    ensures !Clean(StepRecycle(s, t).acts[t].pc)
  {
  }

  /** Inside the mutex a call is not clean, nor right after. */
  lemma InsideCleans(s: State, t: nat, c: Choice)
    requires CanStep(s, t) && !Clean(s.acts[t].pc) && !IsExit(s.acts[t].pc)
    ensures CleanAct(Step(s, t, c).acts[t])
  {
    var pc := s.acts[t].pc;
    if IsEvict(pc) {
      EvictCleans(s, t);
    } else if IsTry(pc) {
      TryCleans(s, t);
    } else if pc.Decide? {
      DecideCleans(s, t);
    } else if IsFill(pc) {
      FillCleans(s, t);
    } else if IsTable(pc) {
      TableCleans(s, t);
    } else if IsUnset(pc) {
      UnsetCleans(s, t);
    } else {
      RecycleCleans(s, t);
    }
  }

  lemma ExitCleans(s: State, t: nat)
    requires CanStep(s, t) && CleanAct(s.acts[t]) && IsExit(s.acts[t].pc)
    ensures CleanAct(StepExit(s, t).acts[t])
  {
  }

  lemma StepCleans(s: State, t: nat, c: Choice)
    requires CanStep(s, t) && CleanAct(s.acts[t])
    ensures CleanAct(Step(s, t, c).acts[t])
  {
    var pc := s.acts[t].pc;
    if pc.Idle? {
      IdleCleans(s, t, c);
    } else if IsLookup(pc) {
      LookupCleans(s, t, c);
    } else if IsUnref(pc) {
      UnrefCleans(s, t);
    } else if IsLock(pc) {
      LockCleans(s, t);
    } else if !IsExit(pc) {
      InsideCleans(s, t, c);
    } else {
      ExitCleans(s, t);
    }
  }

  /** Between calls, and until a call gives up its first value, an activity has nothing to delete: every
      value that a call has given up has been deleted when it returns. */
  lemma {:induction false} NothingPending(run: seq<State>, schedule: seq<(nat, Choice)>, m: nat, t: nat)
    requires IsRun(run, schedule) && m < |run| && t < |run[m].acts|
    ensures CleanAct(run[m].acts[t])
    decreases m
  {
    if m > 0 {
      RunSteps(run, schedule, m - 1);
      NothingPending(run, schedule, m - 1, t);
      if schedule[m - 1].0 == t {
        StepCleans(run[m - 1], t, schedule[m - 1].1);
      } else {
        OthersStand(run[m - 1], t, schedule[m - 1].0, schedule[m - 1].1);
      }
    }
  }

  // ---- The steps of Release ----

  /** The step from state `a` has set the usage bit, and changed nothing else of the handle's flags. */
  ghost predicate Marked(run: seq<State>, h: nat, a: nat) {
    && a + 1 < |run| && h < |run[a].handles| && h < |run[a + 1].handles|
    && run[a + 1].handles[h].flags == run[a].handles[h].flags.(usage := true)
  }

  /** The step from state `b` has given up one reference, and changed nothing else of the handle's flags. */
  ghost predicate Dropped(run: seq<State>, h: nat, b: nat) {
    && b + 1 < |run| && h < |run[b].handles| && h < |run[b + 1].handles|
    && run[b].handles[h].flags.refs > 0
    && run[b + 1].handles[h].flags == run[b].handles[h].flags.(refs := run[b].handles[h].flags.refs - 1)
  }

  /** It was the last one, to a handle out of the cache. */
  ghost predicate WasLast(run: seq<State>, h: nat, b: nat) {
    b < |run| && h < |run[b].handles| && run[b].handles[h].flags.refs == 1 && !run[b].handles[h].flags.inCache
  }

  predicate Releasing(pc: Pc, h: nat) {
    pc == UnrefMark(h) || pc == UnrefSub(h) || pc == UnrefLock(h) || pc == UnrefRecycle(h)
  }

  /** Where the call stands in state `m`. */
  ghost predicate Phase(run: seq<State>, t: nat, tok: Token, i: nat, a: nat, b: nat, m: nat)
    requires m < |run|
  {
    && t < |run[m].acts|
    && var pc, pending, h := run[m].acts[t].pc, run[m].acts[t].toDelete, tok.h;
       && (pc == UnrefMark(h) || (i < a < m && Marked(run, h, a)))
       && if Releasing(pc, h) then
            && TokenFits(run[m], tok) && pending == multiset{}
            && (pc == UnrefLock(h) || pc == UnrefRecycle(h) ==> a < b < m && Dropped(run, h, b) && WasLast(run, h, b))
          else
            && (pc == Unlock(None) || pc == Cleanup(None))
            && a < b < m && Dropped(run, h, b)
            && pending == if WasLast(run, h, b) then multiset{tok.occupancy} else multiset{}
  }

  lemma ReleaseStarts(s: State, t: nat, c: Choice)
    requires CanStep(s, t) && s.acts[t].pc.Holding?
    ensures Step(s, t, c) == s.(acts := s.acts[t := s.acts[t].(pc := UnrefMark(s.acts[t].pc.tok.h))])
  {
    assert Step(s, t, c) == StepExit(s, t);
  }

  lemma Marks(s: State, t: nat, c: Choice)
    requires CanStep(s, t) && s.acts[t].pc.UnrefMark?
    ensures var s', h := Step(s, t, c), s.acts[t].pc.h;
      && s'.acts[t] == s.acts[t].(pc := UnrefSub(h)) && h < |s'.handles| && h < |s.handles|
      && s'.handles[h] == s.handles[h].(flags := s.handles[h].flags.(usage := true))
  {
    assert Step(s, t, c) == StepUnref(s, t);
  }

  lemma Drops(s: State, t: nat, c: Choice)
    requires CanStep(s, t) && s.acts[t].pc.UnrefSub?
    ensures var s', h := Step(s, t, c), s.acts[t].pc.h;
      && h < |s'.handles| && h < |s.handles| && s.handles[h].flags.refs > 0
      && s'.handles[h] == s.handles[h].(flags := s.handles[h].flags.(refs := s.handles[h].flags.refs - 1))
      && s'.acts[t] == s.acts[t].(pc := if s.handles[h].flags.refs == 1 && !s.handles[h].flags.inCache
                                        then UnrefLock(h) else Cleanup(None))
  {
    assert Step(s, t, c) == StepUnref(s, t);
  }

  lemma LocksToRecycle(s: State, t: nat, c: Choice)
    requires CanStep(s, t) && s.acts[t].pc.UnrefLock?
    ensures var s', h := Step(s, t, c), s.acts[t].pc.h;
      && s'.handles == s.handles
      && (s'.acts[t] == s.acts[t] || s'.acts[t] == s.acts[t].(pc := UnrefRecycle(h)))
  {
    assert Step(s, t, c) == StepLock(s, t);
  }

  lemma RecyclesLast(s: State, t: nat, c: Choice)
    requires CanStep(s, t) && s.acts[t].pc.UnrefRecycle?
    ensures var s', h := Step(s, t, c), s.acts[t].pc.h;
      && h < |s.handles|
      && s'.acts[t] == Activity(Unlock(None), s.acts[t].toDelete + multiset{s.handles[h].occupancy})
  {
    assert Step(s, t, c) == StepRecycle(s, t);
  }

  lemma Unlocks(s: State, t: nat, c: Choice)
    requires CanStep(s, t) && s.acts[t].pc.Unlock?
    ensures Step(s, t, c).acts[t] == s.acts[t].(pc := Cleanup(s.acts[t].pc.ret))
  {
    assert Step(s, t, c) == StepExit(s, t);
  }

  lemma Deletes(s: State, t: nat, c: Choice)
    requires CanStep(s, t) && s.acts[t].pc.Cleanup?
    ensures Step(s, t, c).deleted == s.deleted + s.acts[t].toDelete
    ensures Resting(Step(s, t, c).acts[t].pc)
  {
    assert Step(s, t, c) == StepExit(s, t);
  }

  // ---- The whole call ----

  lemma PhaseStays(run: seq<State>, schedule: seq<(nat, Choice)>, t: nat, tok: Token, i: nat, a: nat, b: nat,
                   m: nat)
    requires IsRun(run, schedule) && m < |schedule| && schedule[m].0 != t && Phase(run, t, tok, i, a, b, m)
    ensures Phase(run, t, tok, i, a, b, m + 1)
  {
    RunSteps(run, schedule, m);
    EveryRunIsSafe(run, schedule, m);
    OnlyOwnSteps(run, schedule, m, t);
    if Releasing(run[m].acts[t].pc, tok.h) {
      NobodyElseOwns(run[m], t, schedule[m].0, tok.h);
      StillFits(run[m], schedule[m].0, schedule[m].1, tok);
    }
  }

  lemma PhaseUnref(run: seq<State>, schedule: seq<(nat, Choice)>, t: nat, tok: Token, i: nat, a: nat, b: nat,
                   m: nat) returns (a': nat, b': nat)
    requires IsRun(run, schedule) && i < m < |schedule| && schedule[m].0 == t && Phase(run, t, tok, i, a, b, m)
    requires IsUnref(run[m].acts[t].pc)
    ensures Phase(run, t, tok, i, a', b', m + 1)
  {
    a', b' := a, b;
    RunSteps(run, schedule, m);
    if run[m].acts[t].pc.UnrefMark? {
      Marks(run[m], t, schedule[m].1);
      a' := m;
    } else {
      Drops(run[m], t, schedule[m].1);
      b' := m;
    }
  }

  lemma PhaseLate(run: seq<State>, schedule: seq<(nat, Choice)>, t: nat, tok: Token, i: nat, a: nat, b: nat,
                  m: nat)
    requires IsRun(run, schedule) && m < |schedule| && schedule[m].0 == t && Phase(run, t, tok, i, a, b, m)
    requires !IsUnref(run[m].acts[t].pc) && !run[m].acts[t].pc.Cleanup?
    ensures Phase(run, t, tok, i, a, b, m + 1)
  {
    RunSteps(run, schedule, m);
    if run[m].acts[t].pc.UnrefLock? {
      LocksToRecycle(run[m], t, schedule[m].1);
    } else if run[m].acts[t].pc.UnrefRecycle? {
      RecyclesLast(run[m], t, schedule[m].1);
    } else {
      Unlocks(run[m], t, schedule[m].1);
    }
  }

  lemma PhaseNext(run: seq<State>, schedule: seq<(nat, Choice)>, t: nat, tok: Token, i: nat, a: nat, b: nat,
                  m: nat) returns (a': nat, b': nat)
    requires IsRun(run, schedule) && i < m < |schedule| && Phase(run, t, tok, i, a, b, m)
    requires t < |run[m + 1].acts| && !Resting(run[m + 1].acts[t].pc)
    ensures Phase(run, t, tok, i, a', b', m + 1)
  {
    a', b' := a, b;
    if schedule[m].0 != t {
      PhaseStays(run, schedule, t, tok, i, a, b, m);
    } else if IsUnref(run[m].acts[t].pc) {
      a', b' := PhaseUnref(run, schedule, t, tok, i, a, b, m);
    } else if !run[m].acts[t].pc.Cleanup? {
      PhaseLate(run, schedule, t, tok, i, a, b, m);
    } else {
      RunSteps(run, schedule, m);
      Deletes(run[m], t, schedule[m].1);
    }
  }

  lemma PhaseEnds(run: seq<State>, schedule: seq<(nat, Choice)>, t: nat, tok: Token, i: nat, a: nat, b: nat, m: nat)
    requires IsRun(run, schedule) && m < |schedule| && Phase(run, t, tok, i, a, b, m)
    requires t < |run[m + 1].acts| && Resting(run[m + 1].acts[t].pc)
    ensures i < a < b < m && Marked(run, tok.h, a) && Dropped(run, tok.h, b)
    ensures run[m + 1].acts[t].pc.Idle?
    ensures run[m + 1].deleted ==
            run[m].deleted + if WasLast(run, tok.h, b) then multiset{tok.occupancy} else multiset{}
  {
    RunSteps(run, schedule, m);
    OnlyOwnSteps(run, schedule, m, t);
    if !run[m].acts[t].pc.Cleanup? {
      GoesOn(run[m], t, schedule[m].1);
    }
    Returns(run[m], t, schedule[m].1);
    Deletes(run[m], t, schedule[m].1);
  }

  lemma ReleaseGoesOn(run: seq<State>, schedule: seq<(nat, Choice)>, t: nat, tok: Token, i: nat)
    requires IsRun(run, schedule) && i < |schedule| && schedule[i].0 == t
    requires t < |run[i].acts| && run[i].acts[t].pc == Holding(tok)
    ensures Phase(run, t, tok, i, 0, 0, i + 1) && run[i + 1].acts[t].pc == UnrefMark(tok.h)
  {
    RunSteps(run, schedule, i);
    EveryRunIsSafe(run, schedule, i);
    NothingPending(run, schedule, i, t);
    HeldValueIsAlive(run[i], t, t);
    ReleaseStarts(run[i], t, schedule[i].1);
  }

  lemma {:induction false} PhaseAt(run: seq<State>, schedule: seq<(nat, Choice)>, t: nat, tok: Token, i: nat, j: nat,
                                   m: nat) returns (a: nat, b: nat)
    requires Call(run, schedule, t, i, j) && i < m < j && run[i].acts[t].pc == Holding(tok)
    ensures Phase(run, t, tok, i, a, b, m)
    decreases m
  {
    if m == i + 1 {
      ReleaseGoesOn(run, schedule, t, tok, i);
      a, b := 0, 0;
    } else {
      a, b := PhaseAt(run, schedule, t, tok, i, j, m - 1);
      a, b := PhaseNext(run, schedule, t, tok, i, a, b, m - 1);
    }
  }

  /** Release, over whole runs: one step sets the handle's usage bit and a later one gives up exactly one
      reference. If that was the last one to a handle out of the cache, the value that was held is
      deleted by the time the call returns; otherwise the call deletes nothing. */
  lemma ReleaseCall(run: seq<State>, schedule: seq<(nat, Choice)>, t: nat, tok: Token, i: nat, j: nat)
    returns (a: nat, b: nat)
    requires Call(run, schedule, t, i, j) && run[i].acts[t].pc == Holding(tok)
    ensures i < a < b < j - 1
    ensures run[j].acts[t].pc.Idle?
    ensures Marked(run, tok.h, a) && Dropped(run, tok.h, b)
    ensures run[j].deleted ==
            run[j - 1].deleted + if WasLast(run, tok.h, b) then multiset{tok.occupancy} else multiset{}
  {
    ReleaseGoesOn(run, schedule, t, tok, i);
    a, b := PhaseAt(run, schedule, t, tok, i, j, j - 1);
    PhaseEnds(run, schedule, t, tok, i, a, b, j - 1);
  }
}
