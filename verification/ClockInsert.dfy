/** Insert on the CLOCK shard, over every interleaving: when an entry is accepted, and what the shard
    is like when the call leaves the mutex. */
module ClockInsert {
  import opened Wrappers
  import opened ClockState
  import opened ClockInvariant
  import opened ClockSafety
  import opened ClockCalls

  // ---- What an insertion does ----

  /** The handle for the new entry: the last of the recycle bin, or a new one at the end of the list. */
  function NewHandle(s: State): nat {
    if s.recycle == [] then |s.handles| else s.recycle[|s.recycle| - 1]
  }

  function BinLeft(s: State): seq<nat> {
    if s.recycle == [] then [] else s.recycle[..|s.recycle| - 1]
  }

  /** The handle that the table has for the key, if any: the one to be displaced. */
  predicate IsOld(s: State, job: Job, k: nat) {
    job.key in s.table && s.table[job.key] == k
  }

  /** `h` has been chosen since the decision in `s`, and no entry but that one and the displaced one is touched. */
  ghost predicate Chosen(s: State, e: State, job: Job, h: nat) {
    && h == NewHandle(s) < |e.handles|
    && |e.handles| == (if s.recycle == [] then |s.handles| + 1 else |s.handles|)
    && !IsOld(s, job, h) && (job.key in s.table ==> s.table[job.key] < |s.handles|)
    && forall k: nat :: k < |s.handles| && k != h && !IsOld(s, job, k) ==> SameEntry(s.handles[k], e.handles[k])
  }

  predicate FilledIn(s: State, e: State, job: Job, h: nat) {
    && h < |e.handles| && e.handles[h].key == job.key && e.handles[h].charge == job.charge
    && e.handles[h].occupancy == s.next && e.next == s.next + 1
  }

  /** The displaced entry is as it was. */
  predicate OldStays(s: State, e: State, job: Job) {
    job.key in s.table ==>
      var o := s.table[job.key]; o < |s.handles| && o < |e.handles| && SameEntry(s.handles[o], e.handles[o])
  }

  /** The displaced entry is out of the cache; its value, unless it has been given up, is where it was. */
  predicate OldLeaves(s: State, e: State, job: Job) {
    job.key in s.table ==>
      var o := s.table[job.key];
      && o < |s.handles| && o < |e.handles| && !e.handles[o].flags.inCache
      && e.handles[o].charge == s.handles[o].charge && e.handles[o].occupancy == s.handles[o].occupancy
  }

  /** The displaced entry, if it has been recycled, is off the usage and in the bin. */
  predicate Books(s: State, e: State, job: Job, freed: bool, added: nat) {
    if freed && job.key in s.table && s.table[job.key] < |s.handles| then
      e.usage == s.usage - s.handles[s.table[job.key]].charge + added && e.recycle == BinLeft(s) + [s.table[job.key]]
    else !freed && e.usage == s.usage + added && e.recycle == BinLeft(s)
  }

  /** How far an insertion accepted in state `s` has come in state `e`, where its activity is at `pc`. */
  ghost predicate Progress(s: State, e: State, pc: Pc, job: Job, freed: bool) {
    match pc
    case InsertFill(j, h) =>
      j == job && Chosen(s, e, job, h) && e.next == s.next && e.table == s.table && OldStays(s, e, job)
      && Books(s, e, job, false, 0) && !freed
    case InsertStore(j, h) =>
      j == job && Chosen(s, e, job, h) && FilledIn(s, e, job, h) && e.table == s.table && OldStays(s, e, job)
      && Books(s, e, job, false, 0) && !freed
    case InsertFind(j, h) =>
      j == job && Chosen(s, e, job, h) && FilledIn(s, e, job, h) && e.table == s.table && OldStays(s, e, job)
      && Books(s, e, job, false, 0) && !freed
    case InsertUnset(j, h, o) =>
      j == job && Chosen(s, e, job, h) && FilledIn(s, e, job, h) && e.table == s.table - {job.key}
      && OldStays(s, e, job) && IsOld(s, job, o) && Books(s, e, job, false, 0) && !freed
    case InsertRecycle(j, h, o) =>
      j == job && Chosen(s, e, job, h) && FilledIn(s, e, job, h) && e.table == s.table - {job.key}
      && OldLeaves(s, e, job) && IsOld(s, job, o) && Books(s, e, job, false, 0) && freed
    case InsertLink(j, h) =>
      j == job && Chosen(s, e, job, h) && FilledIn(s, e, job, h) && e.table == s.table - {job.key}
      && OldLeaves(s, e, job) && Books(s, e, job, freed, 0)
    case InsertCharge(j, h) =>
      j == job && Chosen(s, e, job, h) && FilledIn(s, e, job, h) && e.table == s.table[job.key := h]
      && OldLeaves(s, e, job) && Books(s, e, job, freed, 0)
    case _ => false
  }

  /** An accepted entry when the mutex is left: linked under its key, in the cache, with a value never
      stored before; what it displaced is out of the cache, and gone if `freed`; the usage has its
      charge; every other entry is as before. The caller gets this handle exactly if it asked for one. */
  ghost predicate Entered(s: State, e: State, job: Job, freed: bool, ret: Option<Token>) {
    var h := NewHandle(s);
    && Chosen(s, e, job, h) && FilledIn(s, e, job, h) && InCache(e, h)
    && e.table == s.table[job.key := h]
    && OldLeaves(s, e, job) && Books(s, e, job, freed, job.charge)
    && ret == (if job.hold then Some(Token(h, job.key, s.next)) else None)
  }

  /** A rejected entry: nothing is changed under the mutex, and the value is among those that the call
      will delete unless the caller, who wanted a handle, keeps it. */
  ghost predicate Refused(s: State, e: State, t: nat, job: Job, ret: Option<Token>) {
    && ret == None && t < |s.acts| && t < |e.acts|
    && if job.hold then Kept(s, e) && e.acts[t].toDelete == s.acts[t].toDelete
       else Kept(s.(next := s.next + 1), e) && e.acts[t].toDelete == s.acts[t].toDelete + multiset{s.next}
  }

  // ---- Steps of the call ----

  lemma KeptProgress(s: State, e: State, e': State, pc: Pc, job: Job, freed: bool)
    requires Progress(s, e, pc, job, freed) && Kept(e, e')
    ensures Progress(s, e', pc, job, freed)
  {
  }

  lemma NewHandleIsDead(s: State, job: Job)
    requires Inv(s) && Inside(s).Decide?
    ensures s.recycle != [] ==> NewHandle(s) < |s.handles| && !s.handles[NewHandle(s)].flags.inCache
    ensures job.key in s.table ==> s.table[job.key] < |s.handles| && s.table[job.key] != NewHandle(s)
  {
    if s.recycle != [] {
      var h := NewHandle(s);
      assert Owners(s.acts, h) + Binned(s, h) == One(DeadAt(s, h));
    }
  }

  /** The decision: refused exactly if the eviction has failed and either the limit is strict or the
      caller does not want a handle. */
  predicate Rejects(s: State, pc: Pc, job: Job)
    requires pc.Decide?
  {
    !pc.success && (s.strict || !job.hold)
  }

  lemma DecidesNo(s: State, t: nat, job: Job)
    requires CanStep(s, t) && s.acts[t].pc.Decide? && s.acts[t].pc.purpose == ForInsert(job)
    requires Rejects(s, s.acts[t].pc, job)
    ensures var s' := StepDecide(s, t); s'.acts[t].pc.Unlock? && Refused(s, s', t, job, s'.acts[t].pc.ret)
  {
  }

  lemma DecidesYes(s: State, t: nat, job: Job)
    requires CanStep(s, t) && s.acts[t].pc.Decide? && s.acts[t].pc.purpose == ForInsert(job)
    requires !Rejects(s, s.acts[t].pc, job)
    requires s.recycle != [] ==> NewHandle(s) < |s.handles|
    requires job.key in s.table ==> s.table[job.key] < |s.handles| && s.table[job.key] != NewHandle(s)
    ensures var s' := StepDecide(s, t); Progress(s, s', s'.acts[t].pc, job, false)
  {
    if s.recycle == [] {
      assert StepDecide(s, t).handles[..|s.handles|] == s.handles;
    }
  }

  lemma Decides(s: State, t: nat, c: Choice, job: Job)
    requires Inv(s) && CanStep(s, t) && s.acts[t].pc.Decide? && s.acts[t].pc.purpose == ForInsert(job)
    ensures var s' := Step(s, t, c); var pc' := s'.acts[t].pc;
      if Rejects(s, s.acts[t].pc, job) then pc'.Unlock? && Refused(s, s', t, job, pc'.ret)
      else Progress(s, s', pc', job, false)
  {
    assert Step(s, t, c) == StepDecide(s, t);
    if Rejects(s, s.acts[t].pc, job) {
      DecidesNo(s, t, job);
    } else {
      assert s.owner == Some(t) && Inside(s) == s.acts[t].pc;
      NewHandleIsDead(s, job);
      DecidesYes(s, t, job);
    }
  }

  lemma FillProgress(s: State, e: State, t: nat, job: Job, freed: bool)
    requires CanStep(e, t) && Inv(e) && IsFill(e.acts[t].pc) && !e.acts[t].pc.InsertCharge?
    requires Progress(s, e, e.acts[t].pc, job, freed)
    ensures var e' := StepFill(e, t); Progress(s, e', e'.acts[t].pc, job, freed)
  {
  }

  lemma ChargeProgress(s: State, e: State, t: nat, job: Job, freed: bool)
    requires CanStep(e, t) && Inv(e) && e.acts[t].pc.InsertCharge?
    requires Progress(s, e, e.acts[t].pc, job, freed)
    ensures var e' := StepFill(e, t); e'.acts[t].pc.Unlock? && Entered(s, e', job, freed, e'.acts[t].pc.ret)
  {
    assert e.owner == Some(t) && Inside(e) == e.acts[t].pc;
  }

  lemma FindProgress(s: State, e: State, t: nat, job: Job, freed: bool)
    requires CanStep(e, t) && e.acts[t].pc.InsertFind?
    requires Progress(s, e, e.acts[t].pc, job, freed)
    ensures var e' := StepTable(e, t); Progress(s, e', e'.acts[t].pc, job, freed)
  {
    assert job.key !in s.table ==> s.table - {job.key} == s.table;
  }

  lemma LinkProgress(s: State, e: State, t: nat, job: Job, freed: bool)
    requires CanStep(e, t) && e.acts[t].pc.InsertLink?
    requires Progress(s, e, e.acts[t].pc, job, freed)
    ensures var e' := StepTable(e, t); Progress(s, e', e'.acts[t].pc, job, freed)
  {
    assert (s.table - {job.key})[job.key := e.acts[t].pc.h] == s.table[job.key := e.acts[t].pc.h];
  }

  lemma UnsetProgress(s: State, e: State, t: nat, job: Job, freed: bool)
    requires CanStep(e, t) && Inv(e) && e.acts[t].pc.InsertUnset?
    requires Progress(s, e, e.acts[t].pc, job, freed)
    ensures var e' := StepUnset(e, t);
      Progress(s, e', e'.acts[t].pc, job, e.handles[e.acts[t].pc.old_].flags.refs == 0)
  {
    assert e.owner == Some(t) && Inside(e) == e.acts[t].pc;
  }

  lemma RecycleProgress(s: State, e: State, t: nat, job: Job, freed: bool)
    requires CanStep(e, t) && Inv(e) && e.acts[t].pc.InsertRecycle?
    requires Progress(s, e, e.acts[t].pc, job, freed)
    ensures var e' := StepRecycle(e, t); Progress(s, e', e'.acts[t].pc, job, freed)
  {
  }

  // ---- The whole call ----

  /** The part of the call up to the decision. */
  predicate Evicting(pc: Pc, job: Job) {
    && (pc.EvictLock? || IsEvict(pc) || IsTry(pc) || pc.EvictErase? || pc.EvictRecycle? || pc.Decide?)
    && pc.purpose == ForInsert(job)
  }

  predicate Working(pc: Pc) {
    pc.InsertFill? || Filled(pc)
  }

  lemma InsertStarts(s: State, t: nat, job: Job)
    requires CanStep(s, t) && s.acts[t].pc.Idle?
    ensures Evicting(Step(s, t, DoInsert(job)).acts[t].pc, job)
  {
    assert Step(s, t, DoInsert(job)) == StepIdle(s, t, DoInsert(job));
  }

  lemma LockEvicts(s: State, t: nat, c: Choice, job: Job)
    requires CanStep(s, t) && s.acts[t].pc.EvictLock? && Evicting(s.acts[t].pc, job)
    ensures Evicting(Step(s, t, c).acts[t].pc, job)
  {
    assert Step(s, t, c) == StepLock(s, t);
  }

  lemma LoopEvicts(s: State, t: nat, c: Choice, job: Job)
    requires CanStep(s, t) && IsEvict(s.acts[t].pc) && Evicting(s.acts[t].pc, job)
    ensures Evicting(Step(s, t, c).acts[t].pc, job)
  {
    assert Step(s, t, c) == StepEvict(s, t);
  }

  lemma TryEvicts(s: State, t: nat, c: Choice, job: Job)
    requires CanStep(s, t) && Evicting(s.acts[t].pc, job)
    requires IsTry(s.acts[t].pc) || s.acts[t].pc.EvictErase? || s.acts[t].pc.EvictRecycle?
    ensures Evicting(Step(s, t, c).acts[t].pc, job)
  {
    if IsTry(s.acts[t].pc) {
      assert Step(s, t, c) == StepTry(s, t);
    } else if s.acts[t].pc.EvictErase? {
      assert Step(s, t, c) == StepTable(s, t);
    } else {
      assert Step(s, t, c) == StepRecycle(s, t);
    }
  }

  lemma EvictsOn(s: State, t: nat, c: Choice, job: Job)
    requires CanStep(s, t) && Evicting(s.acts[t].pc, job) && !s.acts[t].pc.Decide?
    ensures Evicting(Step(s, t, c).acts[t].pc, job)
  {
    if s.acts[t].pc.EvictLock? {
      LockEvicts(s, t, c, job);
    } else if IsEvict(s.acts[t].pc) {
      LoopEvicts(s, t, c, job);
    } else {
      TryEvicts(s, t, c, job);
    }
  }

  /** Whether the displaced entry is recycled is settled when its in-cache bit is cleared. */
  predicate FreedAfter(e: State, pc: Pc, freed: bool) {
    if pc.InsertUnset? && pc.old_ < |e.handles| then e.handles[pc.old_].flags.refs == 0 else freed
  }

  lemma FillWorks(s: State, e: State, t: nat, c: Choice, job: Job, freed: bool)
    requires CanStep(e, t) && Inv(e) && (e.acts[t].pc.InsertFill? || e.acts[t].pc.InsertStore?)
    requires Progress(s, e, e.acts[t].pc, job, freed)
    ensures var e' := Step(e, t, c); Progress(s, e', e'.acts[t].pc, job, freed)
  {
    assert Step(e, t, c) == StepFill(e, t);
    FillProgress(s, e, t, job, freed);
  }

  lemma ChargeWorks(s: State, e: State, t: nat, c: Choice, job: Job, freed: bool)
    requires CanStep(e, t) && Inv(e) && e.acts[t].pc.InsertCharge?
    requires Progress(s, e, e.acts[t].pc, job, freed)
    ensures var e' := Step(e, t, c); e'.acts[t].pc.Unlock? && Entered(s, e', job, freed, e'.acts[t].pc.ret)
  {
    assert Step(e, t, c) == StepFill(e, t);
    ChargeProgress(s, e, t, job, freed);
  }

  lemma TableWorks(s: State, e: State, t: nat, c: Choice, job: Job, freed: bool)
    requires CanStep(e, t) && Inv(e) && (e.acts[t].pc.InsertFind? || e.acts[t].pc.InsertLink?)
    requires Progress(s, e, e.acts[t].pc, job, freed)
    ensures var e' := Step(e, t, c); Progress(s, e', e'.acts[t].pc, job, freed)
  {
    assert Step(e, t, c) == StepTable(e, t);
    if e.acts[t].pc.InsertFind? {
      FindProgress(s, e, t, job, freed);
    } else {
      LinkProgress(s, e, t, job, freed);
    }
  }

  lemma UnsetWorks(s: State, e: State, t: nat, c: Choice, job: Job, freed: bool)
    requires CanStep(e, t) && Inv(e) && e.acts[t].pc.InsertUnset?
    requires Progress(s, e, e.acts[t].pc, job, freed)
    ensures var e' := Step(e, t, c); Progress(s, e', e'.acts[t].pc, job, FreedAfter(e, e.acts[t].pc, freed))
  {
    assert Step(e, t, c) == StepUnset(e, t);
    UnsetProgress(s, e, t, job, freed);
  }

  lemma RecycleWorks(s: State, e: State, t: nat, c: Choice, job: Job, freed: bool)
    requires CanStep(e, t) && Inv(e) && e.acts[t].pc.InsertRecycle?
    requires Progress(s, e, e.acts[t].pc, job, freed)
    ensures var e' := Step(e, t, c); Progress(s, e', e'.acts[t].pc, job, freed)
  {
    assert Step(e, t, c) == StepRecycle(e, t);
    RecycleProgress(s, e, t, job, freed);
  }

  lemma Works(s: State, e: State, t: nat, c: Choice, job: Job, freed: bool)
    requires Inv(e) && CanStep(e, t) && Working(e.acts[t].pc) && !e.acts[t].pc.InsertCharge?
    requires Progress(s, e, e.acts[t].pc, job, freed)
    ensures Progress(s, Step(e, t, c), Step(e, t, c).acts[t].pc, job, FreedAfter(e, e.acts[t].pc, freed))
  {
    match e.acts[t].pc
    case InsertFill(_, _) => FillWorks(s, e, t, c, job, freed);
    case InsertStore(_, _) => FillWorks(s, e, t, c, job, freed);
    case InsertFind(_, _) => TableWorks(s, e, t, c, job, freed);
    case InsertLink(_, _) => TableWorks(s, e, t, c, job, freed);
    case InsertUnset(_, _, _) => UnsetWorks(s, e, t, c, job, freed);
    case InsertRecycle(_, _, _) => RecycleWorks(s, e, t, c, job, freed);
  }

  /** The displaced entry, taken out with the step from state `x`, has been recycled exactly if nobody
      had a reference to it then. */
  ghost predicate Displaced(run: seq<State>, job: Job, d: nat, x: nat, m: nat, freed: bool)
    requires d < |run|
  {
    if job.key in run[d].table then
      && d < x < m && x < |run| && run[d].table[job.key] < |run[x].handles|
      && (freed <==> run[x].handles[run[d].table[job.key]].flags.refs == 0)
    else !freed
  }

  /** The decision has been taken with the step from state `d`. */
  ghost predicate DecidedAt(run: seq<State>, schedule: seq<(nat, Choice)>, t: nat, job: Job, i: nat, d: nat, m: nat) {
    && i < d < m <= |schedule| && |run| == |schedule| + 1 && schedule[d].0 == t && t < |run[d].acts|
    && run[d].acts[t].pc.Decide? && run[d].acts[t].pc.purpose == ForInsert(job)
  }

  /** What the call has come to when it leaves the mutex, in state `u`. */
  ghost predicate Settled(run: seq<State>, t: nat, job: Job, d: nat, x: nat, u: nat, freed: bool)
    requires d < u < |run| && t < |run[d].acts| && t < |run[u].acts|
    requires run[d].acts[t].pc.Decide? && run[u].acts[t].pc.Unlock?
  {
    var ret := run[u].acts[t].pc.ret;
    if !run[d].acts[t].pc.success && (run[d].strict || !job.hold) then Refused(run[d], run[u], t, job, ret)
    else Entered(run[d], run[u], job, freed, ret) && Displaced(run, job, d, x, u, freed)
  }

  /** Where the call stands in state `m`. */
  ghost predicate Phase(run: seq<State>, schedule: seq<(nat, Choice)>, t: nat, job: Job, i: nat, d: nat, x: nat,
                        u: nat, freed: bool, m: nat)
    requires m < |run|
  {
    && t < |run[m].acts|
    && var pc := run[m].acts[t].pc;
       if Evicting(pc, job) then true
       else
         && DecidedAt(run, schedule, t, job, i, d, m)
         && if Working(pc) then
              && !Rejects(run[d], run[d].acts[t].pc, job)
              && Progress(run[d], run[m], pc, job, freed)
              && (pc.InsertRecycle? || pc.InsertLink? || pc.InsertCharge? ==> Displaced(run, job, d, x, m, freed))
            else
              && (pc.Unlock? || pc.Cleanup?) && d < u <= m
              && t < |run[u].acts| && run[u].acts[t].pc == Unlock(pc.ret)
              && Settled(run, t, job, d, x, u, freed)
  }

  lemma FindGoes(e: State, t: nat, c: Choice)
    requires CanStep(e, t) && e.acts[t].pc.InsertFind?
    ensures Step(e, t, c).acts[t].pc.InsertLink? ==> e.acts[t].pc.job.key !in e.table
    ensures !Step(e, t, c).acts[t].pc.InsertRecycle? && !Step(e, t, c).acts[t].pc.InsertCharge?
  {
    assert Step(e, t, c) == StepTable(e, t);
  }

  lemma FillGoes(e: State, t: nat, c: Choice)
    requires CanStep(e, t) && (e.acts[t].pc.InsertFill? || e.acts[t].pc.InsertStore?)
    ensures var pc := Step(e, t, c).acts[t].pc; pc.InsertStore? || pc.InsertFind?
  {
    assert Step(e, t, c) == StepFill(e, t);
  }

  /** Somebody else's step. */
  lemma PhaseStays(run: seq<State>, schedule: seq<(nat, Choice)>, t: nat, job: Job, i: nat, d: nat, x: nat, u: nat,
                   freed: bool, m: nat)
    requires IsRun(run, schedule) && m < |schedule| && schedule[m].0 != t
    requires Phase(run, schedule, t, job, i, d, x, u, freed, m)
    ensures Phase(run, schedule, t, job, i, d, x, u, freed, m + 1)
  {
    RunSteps(run, schedule, m);
    EveryRunIsSafe(run, schedule, m);
    var pc := run[m].acts[t].pc;
    OthersStand(run[m], t, schedule[m].0, schedule[m].1);
    if !Evicting(pc, job) && Working(pc) {
      OutsideKeeps(run[m], t, schedule[m].0, schedule[m].1);
      KeptProgress(run[d], run[m], run[m + 1], pc, job, freed);
    }
  }

  /** The step that decides. */
  lemma PhaseDecides(run: seq<State>, schedule: seq<(nat, Choice)>, t: nat, job: Job, i: nat, m: nat)
    requires IsRun(run, schedule) && i < m < |schedule| && schedule[m].0 == t && t < |run[m].acts|
    requires Evicting(run[m].acts[t].pc, job) && run[m].acts[t].pc.Decide?
    ensures Phase(run, schedule, t, job, i, m, m, m + 1, false, m + 1)
  {
    RunSteps(run, schedule, m);
    EveryRunIsSafe(run, schedule, m);
    Decides(run[m], t, schedule[m].1, job);
  }

  /** The displaced entry, if any, is on its way out or gone. */
  predicate Late(pc: Pc) {
    pc.InsertRecycle? || pc.InsertLink? || pc.InsertCharge?
  }

  lemma WorksUntilLate(s: State, e: State, t: nat, c: Choice, job: Job, freed: bool)
    requires Inv(e) && CanStep(e, t) && Working(e.acts[t].pc) && !e.acts[t].pc.InsertCharge?
    requires Progress(s, e, e.acts[t].pc, job, freed)
    ensures var pc, pc' := e.acts[t].pc, Step(e, t, c).acts[t].pc;
      && Progress(s, Step(e, t, c), pc', job, FreedAfter(e, pc, freed))
      && (Late(pc') ==> Late(pc) || (pc.InsertUnset? && IsOld(s, job, pc.old_) && pc.old_ < |e.handles|)
                        || (job.key !in s.table && !freed && !pc.InsertUnset?))
  {
    Works(s, e, t, c, job, freed);
    if e.acts[t].pc.InsertFind? {
      FindGoes(e, t, c);
    } else if e.acts[t].pc.InsertFill? || e.acts[t].pc.InsertStore? {
      FillGoes(e, t, c);
    }
  }

  lemma WorkStep(run: seq<State>, schedule: seq<(nat, Choice)>, t: nat, job: Job, d: nat, freed: bool, m: nat)
    requires IsRun(run, schedule) && d < m < |schedule| && schedule[m].0 == t && t < |run[m].acts|
    requires Working(run[m].acts[t].pc) && !run[m].acts[t].pc.InsertCharge?
    requires Progress(run[d], run[m], run[m].acts[t].pc, job, freed)
    ensures t < |run[m + 1].acts|
    ensures var pc, pc' := run[m].acts[t].pc, run[m + 1].acts[t].pc;
      && Progress(run[d], run[m + 1], pc', job, FreedAfter(run[m], pc, freed))
      && (Late(pc') ==> Late(pc) || (pc.InsertUnset? && IsOld(run[d], job, pc.old_) && pc.old_ < |run[m].handles|)
                        || (job.key !in run[d].table && !freed && !pc.InsertUnset?))
  {
    RunSteps(run, schedule, m);
    EveryRunIsSafe(run, schedule, m);
    WorksUntilLate(run[d], run[m], t, schedule[m].1, job, freed);
  }

  lemma WorkingOnly(s: State, e: State, pc: Pc, job: Job, freed: bool)
    requires Progress(s, e, pc, job, freed)
    ensures Working(pc) && !Evicting(pc, job)
  {
  }

  /** A step of the work that follows. */
  lemma PhaseWorks(run: seq<State>, schedule: seq<(nat, Choice)>, t: nat, job: Job, i: nat, d: nat, x: nat, u: nat,
                   freed: bool, m: nat) returns (x': nat, freed': bool)
    requires IsRun(run, schedule) && m < |schedule| && schedule[m].0 == t && t < |run[m].acts|
    requires Working(run[m].acts[t].pc) && !run[m].acts[t].pc.InsertCharge?
    requires Phase(run, schedule, t, job, i, d, x, u, freed, m)
    ensures Phase(run, schedule, t, job, i, d, x', u, freed', m + 1)
  {
    var pc := run[m].acts[t].pc;
    WorkStep(run, schedule, t, job, d, freed, m);
    freed' := FreedAfter(run[m], pc, freed);
    x' := if pc.InsertUnset? then m else x;
    WorkingOnly(run[d], run[m + 1], run[m + 1].acts[t].pc, job, freed');
  }

  /** The last step under the mutex but the unlocking itself. */
  lemma PhaseEnds(run: seq<State>, schedule: seq<(nat, Choice)>, t: nat, job: Job, i: nat, d: nat, x: nat, u: nat,
                  freed: bool, m: nat)
    requires IsRun(run, schedule) && m < |schedule| && schedule[m].0 == t && t < |run[m].acts|
    requires run[m].acts[t].pc.InsertCharge? && Phase(run, schedule, t, job, i, d, x, u, freed, m)
    ensures Phase(run, schedule, t, job, i, d, x, m + 1, freed, m + 1)
  {
    RunSteps(run, schedule, m);
    EveryRunIsSafe(run, schedule, m);
    ChargeWorks(run[d], run[m], t, schedule[m].1, job, freed);
  }

  /** One step of anybody, before the call returns. */
  lemma PhaseNext(run: seq<State>, schedule: seq<(nat, Choice)>, t: nat, job: Job, i: nat, d: nat, x: nat, u: nat,
                  freed: bool, m: nat) returns (d': nat, x': nat, u': nat, freed': bool)
    requires IsRun(run, schedule) && i < m < |schedule| && t < |run[m + 1].acts| && !Resting(run[m + 1].acts[t].pc)
    requires Phase(run, schedule, t, job, i, d, x, u, freed, m)
    ensures Phase(run, schedule, t, job, i, d', x', u', freed', m + 1)
  {
    d', x', u', freed' := d, x, u, freed;
    var pc := run[m].acts[t].pc;
    if schedule[m].0 != t {
      PhaseStays(run, schedule, t, job, i, d, x, u, freed, m);
    } else if Evicting(pc, job) && pc.Decide? {
      PhaseDecides(run, schedule, t, job, i, m);
      d', x', u', freed' := m, m, m + 1, false;
    } else if pc.InsertCharge? {
      PhaseEnds(run, schedule, t, job, i, d, x, u, freed, m);
      u' := m + 1;
    } else if Working(pc) {
      x', freed' := PhaseWorks(run, schedule, t, job, i, d, x, u, freed, m);
    } else {
      PhasePlain(run, schedule, t, job, i, d, x, u, freed, m);
    }
  }

  /** A step of the eviction, or the one that leaves the mutex. */
  lemma PhasePlain(run: seq<State>, schedule: seq<(nat, Choice)>, t: nat, job: Job, i: nat, d: nat, x: nat, u: nat,
                   freed: bool, m: nat)
    requires IsRun(run, schedule) && m < |schedule| && schedule[m].0 == t && t < |run[m].acts|
    requires !Working(run[m].acts[t].pc) && !run[m].acts[t].pc.Decide?
    requires t < |run[m + 1].acts| && !Resting(run[m + 1].acts[t].pc)
    requires Phase(run, schedule, t, job, i, d, x, u, freed, m)
    ensures Phase(run, schedule, t, job, i, d, x, u, freed, m + 1)
  {
    RunSteps(run, schedule, m);
    var pc, c := run[m].acts[t].pc, schedule[m].1;
    if Evicting(pc, job) {
      EvictsOn(run[m], t, c, job);
    } else if pc.Unlock? {
      LeavesMutex(run[m], t, c);
    } else {
      Returns(run[m], t, c);
    }
  }

  lemma {:induction false} PhaseAt(run: seq<State>, schedule: seq<(nat, Choice)>, t: nat, job: Job, i: nat, j: nat,
                                   m: nat) returns (d: nat, x: nat, u: nat, freed: bool)
    requires Call(run, schedule, t, i, j) && i < m < j
    requires run[i].acts[t].pc.Idle? && schedule[i].1 == DoInsert(job)
    ensures Phase(run, schedule, t, job, i, d, x, u, freed, m)
    decreases m
  {
    if m == i + 1 {
      InsertGoesOn(run, schedule, t, job, i);
      d, x, u, freed := 0, 0, 0, false;
    } else {
      d, x, u, freed := PhaseAt(run, schedule, t, job, i, j, m - 1);
      d, x, u, freed := PhaseNext(run, schedule, t, job, i, d, x, u, freed, m - 1);
    }
  }

  lemma InsertGoesOn(run: seq<State>, schedule: seq<(nat, Choice)>, t: nat, job: Job, i: nat)
    requires IsRun(run, schedule) && i < |schedule| && schedule[i] == (t, DoInsert(job))
    requires t < |run[i].acts| && run[i].acts[t].pc.Idle?
    ensures t < |run[i + 1].acts| && Evicting(run[i + 1].acts[t].pc, job)
  {
    RunSteps(run, schedule, i);
    InsertStarts(run[i], t, job);
  }

  lemma PhaseReturns(run: seq<State>, schedule: seq<(nat, Choice)>, t: nat, job: Job, i: nat, d: nat, x: nat, u: nat,
                     freed: bool, m: nat)
    requires IsRun(run, schedule) && m < |schedule| && Phase(run, schedule, t, job, i, d, x, u, freed, m)
    requires t < |run[m + 1].acts| && Resting(run[m + 1].acts[t].pc)
    ensures i < d < u <= m && schedule[d].0 == t && t < |run[d].acts| && t < |run[u].acts|
    ensures run[d].acts[t].pc.Decide? && run[u].acts[t].pc.Unlock? && Settled(run, t, job, d, x, u, freed)
    ensures var ret := run[u].acts[t].pc.ret;
      run[m + 1].acts[t].pc == if ret.Some? then Holding(ret.value) else Idle
  {
    CallEnds(run, schedule, t, m);
  }

  /** Insert, over whole runs. A call that has returned has decided in some state `d` and left the mutex
      in some state `u`. It refused the entry if and only if the eviction had failed and the limit was
      strict or no handle was wanted; then nothing under the mutex changed, and the value goes to its
      deleter unless the caller, who wanted a handle, keeps it. Otherwise in state `u` the key leads to the
      new handle, in the cache, with the job's charge and a value never stored before, and the usage has
      grown by the charge, less that of a displaced entry that nobody referenced when it was taken out. */
  lemma InsertCall(run: seq<State>, schedule: seq<(nat, Choice)>, t: nat, job: Job, i: nat, j: nat)
    returns (d: nat, x: nat, u: nat, freed: bool)
    requires Call(run, schedule, t, i, j)
    requires run[i].acts[t].pc.Idle? && schedule[i].1 == DoInsert(job)
    ensures i < d < u < j && schedule[d].0 == t
    ensures run[d].acts[t].pc.Decide? && run[u].acts[t].pc.Unlock?
    ensures var ret := run[u].acts[t].pc.ret;
      && run[j].acts[t].pc == (if ret.Some? then Holding(ret.value) else Idle)
      && if !run[d].acts[t].pc.success && (run[d].strict || !job.hold)
         then Refused(run[d], run[u], t, job, ret)
         else Entered(run[d], run[u], job, freed, ret) && Displaced(run, job, d, x, u, freed)
  {
    InsertGoesOn(run, schedule, t, job, i);
    d, x, u, freed := PhaseAt(run, schedule, t, job, i, j, j - 1);
    PhaseReturns(run, schedule, t, job, i, d, x, u, freed, j - 1);
  }
}
