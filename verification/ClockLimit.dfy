/** The strict capacity limit of the CLOCK shard, over every interleaving. */
module ClockLimit {
  import opened Wrappers
  import opened ClockState
  import opened ClockInvariant
  import opened ClockValues
  import opened ClockSafety

  /** An accepted entry that is not in the usage yet. */
  predicate Entering(pc: Pc) {
    pc.InsertFill? || Filled(pc)
  }

  /** The usage is within the capacity, and will be once the entry on its way has been added. */
  predicate Bounded(s: State) {
    && s.usage <= s.capacity
    && (Entering(Inside(s)) ==> s.usage + Inside(s).job.charge <= s.capacity)
  }

  lemma IdleKeepsBound(s: State, t: nat, c: Choice)
    requires Disciplined(s, t) && Bounded(s) && s.acts[t].pc.Idle?
    ensures Bounded(StepIdle(s, t, c))
  {
  }

  lemma LookupKeepsBound(s: State, t: nat, c: Choice)
    requires Disciplined(s, t) && Bounded(s) && IsLookup(s.acts[t].pc)
    ensures Bounded(StepLookup(s, t, c))
  {
  }

  lemma UnrefKeepsBound(s: State, t: nat)
    requires Disciplined(s, t) && Bounded(s) && IsUnref(s.acts[t].pc)
    ensures Bounded(StepUnref(s, t))
  {
  }

  lemma LockKeepsBound(s: State, t: nat)
    requires Disciplined(s, t) && Bounded(s) && IsLock(s.acts[t].pc) && s.capacity <= StepLock(s, t).capacity
    ensures Bounded(StepLock(s, t))
  {
  }

  lemma ExitKeepsBound(s: State, t: nat)
    requires Disciplined(s, t) && Bounded(s) && IsExit(s.acts[t].pc)
    ensures Bounded(StepExit(s, t))
  {
  }

  lemma OutsideKeepsBound(s: State, t: nat, c: Choice)
    requires Disciplined(s, t) && Bounded(s) && !NeedsMutex(s.acts[t].pc) && s.capacity <= Step(s, t, c).capacity
    ensures Bounded(Step(s, t, c))
  {
    var pc := s.acts[t].pc;
    if pc.Idle? {
      IdleKeepsBound(s, t, c);
    } else if IsLookup(pc) {
      LookupKeepsBound(s, t, c);
    } else if IsUnref(pc) {
      UnrefKeepsBound(s, t);
    } else if IsLock(pc) {
      LockKeepsBound(s, t);
    } else {
      ExitKeepsBound(s, t);
    }
  }

  lemma EvictKeepsBound(s: State, t: nat, c: Choice)
    requires Disciplined(s, t) && Bounded(s) && (IsEvict(s.acts[t].pc) || IsTry(s.acts[t].pc))
    ensures Bounded(Step(s, t, c))
  {
  }

  /** Under a strict limit only an eviction that has made room lets an entry in. */
  lemma DecideKeepsBound(s: State, t: nat, c: Choice)
    requires Disciplined(s, t) && Bounded(s) && s.acts[t].pc.Decide? && RoomOk(s) && s.strict
    ensures Bounded(Step(s, t, c))
  {
  }

  lemma FillKeepsBound(s: State, t: nat, c: Choice)
    requires Disciplined(s, t) && Bounded(s) && IsFill(s.acts[t].pc)
    ensures Bounded(Step(s, t, c))
  {
  }

  lemma TableKeepsBound(s: State, t: nat)
    requires Disciplined(s, t) && Bounded(s) && IsTable(s.acts[t].pc)
    ensures Bounded(StepTable(s, t))
  {
  }

  lemma UnsetKeepsBound(s: State, t: nat)
    requires Disciplined(s, t) && Bounded(s) && IsUnset(s.acts[t].pc)
    ensures Bounded(StepUnset(s, t))
  {
  }

  lemma RecycleKeepsBound(s: State, t: nat, c: Choice)
    requires Disciplined(s, t) && Bounded(s) && (IsRecycle(s.acts[t].pc) || s.acts[t].pc.Unlock?)
    ensures Bounded(Step(s, t, c))
  {
  }

  /** Under a strict limit every step keeps the bound, unless it lowers the capacity. */
  lemma StepKeepsBound(s: State, t: nat, c: Choice)
    requires Inv(s) && t < |s.acts| && Bounded(s) && s.strict
    requires CanStep(s, t) && s.capacity <= Step(s, t, c).capacity
    ensures Bounded(Step(s, t, c))
  {
    var pc := s.acts[t].pc;
    if !NeedsMutex(pc) {
      OutsideKeepsBound(s, t, c);
    } else if IsEvict(pc) || IsTry(pc) {
      EvictKeepsBound(s, t, c);
    } else if pc.Decide? {
      DecideKeepsBound(s, t, c);
    } else if IsFill(pc) {
      FillKeepsBound(s, t, c);
    } else if IsTable(pc) {
      TableKeepsBound(s, t);
    } else if IsUnset(pc) {
      UnsetKeepsBound(s, t);
    } else {
      RecycleKeepsBound(s, t, c);
    }
  }

  /** From state `i` to state `j` of the run the limit is strict and the capacity is never lowered. */
  ghost predicate StrictThroughout(run: seq<State>, i: nat, j: nat) {
    forall m :: i <= m < j && m + 1 < |run| ==> run[m].strict && run[m].capacity <= run[m + 1].capacity
  }

  lemma BoundNext(run: seq<State>, schedule: seq<(nat, Choice)>, m: nat)
    requires IsRun(run, schedule) && m < |schedule| && Bounded(run[m])
    requires run[m].strict && run[m].capacity <= run[m + 1].capacity
    ensures Bounded(run[m + 1])
  {
    RunSteps(run, schedule, m);
    EveryRunIsSafe(run, schedule, m);
    StepKeepsBound(run[m], schedule[m].0, schedule[m].1);
  }

  lemma {:induction false} BoundGoesOn(run: seq<State>, schedule: seq<(nat, Choice)>, i: nat, j: nat)
    requires IsRun(run, schedule) && i <= j < |run| && StrictThroughout(run, i, j) && Bounded(run[i])
    ensures Bounded(run[j])
    decreases j - i
  {
    if i < j {
      BoundGoesOn(run, schedule, i, j - 1);
      BoundNext(run, schedule, j - 1);
    }
  }

  /** With a strict limit and a capacity that is never lowered, the usage stays within the capacity in
      every state of every run, once it is so with nobody in the mutex. */
  lemma StrictLimitHolds(run: seq<State>, schedule: seq<(nat, Choice)>, i: nat, j: nat)
    requires IsRun(run, schedule) && i <= j < |run| && StrictThroughout(run, i, j)
    requires run[i].owner == None && run[i].usage <= run[i].capacity
    ensures run[j].usage <= run[j].capacity
  {
    BoundGoesOn(run, schedule, i, j);
  }
}
