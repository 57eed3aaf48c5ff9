/** Calls on the CLOCK shard that nobody disturbs, from start to end. */
module ClockAlone {
  import opened Wrappers
  import opened ClockState
  import opened ClockInvariant
  import opened ClockSafety
  import opened ClockCalls
  import opened ClockInsert
  import ClockEviction

  // ---- Lookup ----

  lemma LookupLoads(s: State, t: nat, key: CacheKey)
    requires Inv(s) && CanStep(s, t) && s.acts[t].pc.Idle? && key in s.table
    ensures var s' := Step(s, t, DoLookup(key)); s' == At(s, t, LookupLoad(key, s.table[key]))
  {
  }

  lemma LoadSteps(s: State, t: nat, key: CacheKey, h: nat)
    requires CanStep(s, t) && s.acts[t].pc == LookupLoad(key, h)
    ensures h < |s.handles| && Step(s, t, Go) == At(s, t, LookupCas(key, h, s.handles[h].flags))
  {
  }

  lemma CasSteps(s: State, t: nat, key: CacheKey, h: nat)
    requires CanStep(s, t) && h < |s.handles| && s.acts[t].pc == LookupCas(key, h, s.handles[h].flags)
    requires s.handles[h].flags.inCache
    ensures var f := s.handles[h].flags;
      Step(s, t, Go) == At(SetFlags(s, h, f.(refs := f.refs + 1)), t, LookupCheck(key, h))
  {
  }

  lemma CheckSteps(s: State, t: nat, key: CacheKey, h: nat)
    requires CanStep(s, t) && s.acts[t].pc == LookupCheck(key, h) && s.handles[h].key == key
    ensures Step(s, t, Go) == At(s, t, Holding(Token(h, key, s.handles[h].occupancy)))
  {
  }

  lemma LookupFirstTwo(run: seq<State>, schedule: seq<(nat, Choice)>, t: nat, key: CacheKey, i: nat)
    requires IsRun(run, schedule) && i + 2 <= |schedule|
    requires schedule[i] == (t, DoLookup(key)) && schedule[i + 1] == (t, Go)
    requires t < |run[i].acts| && run[i].acts[t].pc.Idle? && key in run[i].table
    ensures var h := run[i].table[key];
      && h < |run[i].handles| && run[i].handles[h].key == key
      && run[i + 2] == At(run[i], t, LookupCas(key, h, run[i].handles[h].flags))
  {
    EveryRunIsSafe(run, schedule, i);
    RunSteps(run, schedule, i);
    LookupLoads(run[i], t, key);
    RunSteps(run, schedule, i + 1);
    LoadSteps(run[i + 1], t, key, run[i].table[key]);
  }

  lemma StepsTogether(s: State, t: nat, mid: Pc, h: nat, f: Flags, end: Pc)
    requires t < |s.acts| && h < |s.handles|
    ensures At(SetFlags(At(s, t, mid), h, f), t, end) ==
            s.(handles := s.handles[h := s.handles[h].(flags := f)], acts := s.acts[t := s.acts[t].(pc := end)])
  {
  }

  /** After them, from a state that is otherwise `s`. */
  lemma LookupLastTwo(run: seq<State>, schedule: seq<(nat, Choice)>, t: nat, key: CacheKey, m: nat, s: State)
    requires IsRun(run, schedule) && m + 2 <= |schedule| && schedule[m] == (t, Go) && schedule[m + 1] == (t, Go)
    requires t < |s.acts| && key in s.table && InCache(s, s.table[key]) && s.handles[s.table[key]].key == key
    requires run[m] == At(s, t, LookupCas(key, s.table[key], s.handles[s.table[key]].flags))
    ensures Found(s, t, key, run[m + 2])
  {
    var h := s.table[key];
    var e := s.handles[h];
    RunSteps(run, schedule, m);
    CasSteps(run[m], t, key, h);
    RunSteps(run, schedule, m + 1);
    CheckSteps(run[m + 1], t, key, h);
    StepsTogether(s, t, LookupCas(key, h, e.flags), h, e.flags.(refs := e.flags.refs + 1),
                  Holding(Token(h, key, e.occupancy)));
  }

  /** The caller has the handle that the table has for the key, which has one reference more; nothing
      else has changed. */
  predicate Found(s: State, t: nat, key: CacheKey, s': State)
    requires t < |s.acts| && key in s.table && s.table[key] < |s.handles|
  {
    var h := s.table[key];
    var e := s.handles[h];
    s' == s.(handles := s.handles[h := e.(flags := e.flags.(refs := e.flags.refs + 1))],
             acts := s.acts[t := s.acts[t].(pc := Holding(Token(h, key, e.occupancy)))])
  }

  /** Four steps in a row, the read of the table included, and a lookup has its handle. */
  lemma LookupAlone(run: seq<State>, schedule: seq<(nat, Choice)>, t: nat, key: CacheKey, i: nat)
    requires IsRun(run, schedule) && i + 4 <= |schedule| && schedule[i] == (t, DoLookup(key))
    requires schedule[i + 1] == (t, Go) && schedule[i + 2] == (t, Go) && schedule[i + 3] == (t, Go)
    requires t < |run[i].acts| && run[i].acts[t].pc.Idle?
    requires key in run[i].table && InCache(run[i], run[i].table[key])
    ensures Found(run[i], t, key, run[i + 4])
  {
    LookupFirstTwo(run, schedule, t, key, i);
    LookupLastTwo(run, schedule, t, key, i + 2, run[i]);
  }

  // ---- Insert ----

  lemma LockSteps(s: State, t: nat, job: Job)
    requires CanStep(s, t) && s.owner == None && s.acts[t].pc == EvictLock(ForInsert(job), 0)
    ensures Step(s, t, Go) == At(s.(owner := Some(t)), t, EvictStart(ForInsert(job)))
  {
  }

  /** A call that finds the mutex free is inside it after two steps, with nothing else changed. */
  method Enter(s: State, t: nat, job: Job) returns (s': State)
    requires Inv(s) && s.owner == None && t < |s.acts| && s.acts[t].pc.Idle?
    ensures Inv(s') && s' == At(s.(owner := Some(t)), t, EvictStart(ForInsert(job)))
  {
    StepKeepsInv(s, t, DoInsert(job));
    var mid := Step(s, t, DoInsert(job));
    assert mid == At(s, t, EvictLock(ForInsert(job), 0));
    StepKeepsInv(mid, t, Go);
    LockSteps(mid, t, job);
    s' := Step(mid, t, Go);
  }

  /** The displaced entry, if any, with its flags. */
  predicate OldFlags(s: State, e: State, job: Job) {
    job.key in s.table ==>
      var o := s.table[job.key];
      o < |s.handles| && o < |e.handles| && e.handles[o].flags == s.handles[o].flags
  }

  /** The flags of a new entry: in the cache, not used yet, and referenced by the caller if it wants a handle. */
  predicate NewFlags(e: State, h: nat, job: Job) {
    h < |e.handles| && e.handles[h].flags == Flags(true, false, if job.hold then 1 else 0)
  }

  lemma DecideFrame(s: State, t: nat, c: Choice, job: Job)
    requires CanStep(s, t) && s.acts[t].pc.Decide? && s.acts[t].pc.purpose == ForInsert(job)
    requires job.key in s.table ==> s.table[job.key] < |s.handles|
    ensures OldFlags(s, Step(s, t, c), job)
  {
    assert Step(s, t, c) == StepDecide(s, t);
  }

  lemma FillFrame(s: State, e: State, t: nat, c: Choice, job: Job)
    requires CanStep(e, t) && (e.acts[t].pc.InsertFill? || e.acts[t].pc.InsertStore?)
    requires Progress(s, e, e.acts[t].pc, job, false) && OldFlags(s, e, job)
    ensures OldFlags(s, Step(e, t, c), job)
    ensures e.acts[t].pc.InsertStore? ==> NewFlags(Step(e, t, c), e.acts[t].pc.h, job)
    ensures Step(e, t, c).acts[t].pc == if e.acts[t].pc.InsertFill? then InsertStore(job, e.acts[t].pc.h)
                                        else InsertFind(job, e.acts[t].pc.h)
  {
    assert Step(e, t, c) == StepFill(e, t);
  }

  lemma FindFrame(s: State, e: State, t: nat, c: Choice, job: Job)
    requires CanStep(e, t) && e.acts[t].pc.InsertFind?
    requires Progress(s, e, e.acts[t].pc, job, false) && OldFlags(s, e, job)
    ensures var pc, pc' := e.acts[t].pc, Step(e, t, c).acts[t].pc;
      && OldFlags(s, Step(e, t, c), job) && (NewFlags(e, pc.h, job) ==> NewFlags(Step(e, t, c), pc.h, job))
      && pc' == if job.key in s.table then InsertUnset(job, pc.h, s.table[job.key]) else InsertLink(job, pc.h)
  {
    assert Step(e, t, c) == StepTable(e, t);
  }

  lemma UnsetFrame(e: State, t: nat, c: Choice)
    requires Inv(e) && CanStep(e, t) && e.acts[t].pc.InsertUnset?
    ensures var pc := e.acts[t].pc; NewFlags(e, pc.h, pc.job) ==> NewFlags(Step(e, t, c), pc.h, pc.job)
    ensures var pc, pc' := e.acts[t].pc, Step(e, t, c).acts[t].pc;
      pc' == if e.handles[pc.old_].flags.refs == 0 then InsertRecycle(pc.job, pc.h, pc.old_)
             else InsertLink(pc.job, pc.h)
  {
    assert e.owner == Some(t) && Inside(e) == e.acts[t].pc;
    assert Step(e, t, c) == StepUnset(e, t);
  }

  lemma ChargeFrame(e: State, t: nat, c: Choice)
    requires CanStep(e, t) && e.acts[t].pc.InsertCharge?
    ensures var pc := e.acts[t].pc; NewFlags(e, pc.h, pc.job) ==> NewFlags(Step(e, t, c), pc.h, pc.job)
  {
    assert Step(e, t, c) == StepFill(e, t);
  }

  lemma LinkFrame(e: State, t: nat, c: Choice)
    requires CanStep(e, t) && (e.acts[t].pc.InsertRecycle? || e.acts[t].pc.InsertLink?)
    ensures var pc := e.acts[t].pc; NewFlags(e, pc.h, pc.job) ==> NewFlags(Step(e, t, c), pc.h, pc.job)
    ensures var pc, pc' := e.acts[t].pc, Step(e, t, c).acts[t].pc;
      pc' == if pc.InsertRecycle? then InsertLink(pc.job, pc.h) else InsertCharge(pc.job, pc.h)
  {
    if e.acts[t].pc.InsertRecycle? {
      assert Step(e, t, c) == StepRecycle(e, t);
    } else {
      assert Step(e, t, c) == StepTable(e, t);
    }
  }

  /** Filling the handle and looking for an entry to displace. */
  method FillIn(s: State, e: State, t: nat, job: Job) returns (e': State)
    requires Inv(e) && t < |e.acts| && e.acts[t].pc.InsertFill?
    requires Progress(s, e, e.acts[t].pc, job, false) && OldFlags(s, e, job)
    ensures Inv(e') && t < |e'.acts| && e'.acts[t].pc.InsertFind?
    ensures Progress(s, e', e'.acts[t].pc, job, false) && OldFlags(s, e', job) && NewFlags(e', NewHandle(s), job)
  {
    StepKeepsInv(e, t, Go);
    FillFrame(s, e, t, Go, job);
    Works(s, e, t, Go, job, false);
    e' := Step(e, t, Go);
    StepKeepsInv(e', t, Go);
    FillFrame(s, e', t, Go, job);
    Works(s, e', t, Go, job, false);
    e' := Step(e', t, Go);
  }

  /** Nobody else moves, so the references to the displaced entry are those there were at the decision. */
  predicate FreedAlone(s: State, job: Job) {
    job.key in s.table && s.table[job.key] < |s.handles| && s.handles[s.table[job.key]].flags.refs == 0
  }

  /** Taking the displaced entry out. */
  method Displace(s: State, e: State, t: nat, job: Job) returns (e': State)
    requires Inv(e) && t < |e.acts| && e.acts[t].pc.InsertUnset?
    requires Progress(s, e, e.acts[t].pc, job, false) && OldFlags(s, e, job) && NewFlags(e, NewHandle(s), job)
    ensures Inv(e') && t < |e'.acts| && e'.acts[t].pc.InsertLink? && NewFlags(e', NewHandle(s), job)
    ensures Progress(s, e', e'.acts[t].pc, job, FreedAlone(s, job))
  {
    StepKeepsInv(e, t, Go);
    UnsetFrame(e, t, Go);
    Works(s, e, t, Go, job, false);
    e' := Step(e, t, Go);
    if e'.acts[t].pc.InsertRecycle? {
      StepKeepsInv(e', t, Go);
      LinkFrame(e', t, Go);
      Works(s, e', t, Go, job, true);
      e' := Step(e', t, Go);
    }
  }

  method FindAndDisplace(s: State, e: State, t: nat, job: Job) returns (e': State)
    requires Inv(e) && t < |e.acts| && e.acts[t].pc.InsertFind?
    requires Progress(s, e, e.acts[t].pc, job, false) && OldFlags(s, e, job) && NewFlags(e, NewHandle(s), job)
    ensures Inv(e') && t < |e'.acts| && e'.acts[t].pc.InsertLink? && NewFlags(e', NewHandle(s), job)
    ensures Progress(s, e', e'.acts[t].pc, job, FreedAlone(s, job))
  {
    StepKeepsInv(e, t, Go);
    FindFrame(s, e, t, Go, job);
    Works(s, e, t, Go, job, false);
    e' := Step(e, t, Go);
    if e'.acts[t].pc.InsertUnset? {
      e' := Displace(s, e', t, job);
    }
  }

  /** Linking the new entry and adding its charge. */
  method LinkUp(s: State, e: State, t: nat, job: Job, ghost freed: bool) returns (e': State)
    requires Inv(e) && t < |e.acts| && e.acts[t].pc.InsertLink? && Progress(s, e, e.acts[t].pc, job, freed)
    requires NewFlags(e, NewHandle(s), job)
    ensures Inv(e') && t < |e'.acts| && e'.acts[t].pc.Unlock? && Entered(s, e', job, freed, e'.acts[t].pc.ret)
    ensures NewFlags(e', NewHandle(s), job)
  {
    StepKeepsInv(e, t, Go);
    LinkFrame(e, t, Go);
    Works(s, e, t, Go, job, freed);
    e' := Step(e, t, Go);
    StepKeepsInv(e', t, Go);
    ChargeFrame(e', t, Go);
    ChargeWorks(s, e', t, Go, job, freed);
    e' := Step(e', t, Go);
  }

  lemma LeaveFrame(e: State, t: nat)
    requires CanStep(e, t) && (e.acts[t].pc.Unlock? || e.acts[t].pc.Cleanup?)
    ensures var e' := Step(e, t, Go); var ret := e.acts[t].pc.ret;
      && e' == e.(owner := e'.owner, deleted := e'.deleted, acts := e'.acts)
      && e'.acts[t].pc == (if e.acts[t].pc.Unlock? then Cleanup(ret)
                           else if ret.Some? then Holding(ret.value) else Idle)
      && (e.acts[t].pc.Unlock? ==> e'.owner == None) && (e.acts[t].pc.Cleanup? ==> e'.owner == e.owner)
  {
  }

  /** Leaving the mutex and running the deleters. */
  method Leave(e: State, t: nat) returns (e': State)
    requires Inv(e) && t < |e.acts| && e.acts[t].pc.Unlock?
    ensures Inv(e') && e' == e.(owner := None, deleted := e'.deleted, acts := e'.acts) && t < |e'.acts|
    ensures var ret := e.acts[t].pc.ret; e'.acts[t].pc == if ret.Some? then Holding(ret.value) else Idle
  {
    StepKeepsInv(e, t, Go);
    LeaveFrame(e, t);
    e' := Step(e, t, Go);
    StepKeepsInv(e', t, Go);
    LeaveFrame(e', t);
    e' := Step(e', t, Go);
  }

  /** Entering the mutex changes neither the charges nor the usage that probes would leave. */
  lemma {:induction false} SameUsage(s: State, s': State, p: nat, m: nat)
    requires s' == s.(owner := s'.owner, acts := s'.acts) && !Inside(s).InsertFill? && !Inside(s').InsertFill?
    requires m <= |s.handles| && (m > 0 ==> s.head < |s.handles|)
    ensures ClockEviction.UsageAfter(s', p, m) == ClockEviction.UsageAfter(s, p, m)
  {
    if m > 0 {
      SameUsage(s, s', p, m - 1);
    }
  }

  /** What the eviction of this call has left, in state `d`: nothing is changed in an unused cache, and in
      a used one every handle has been probed as often as `probes` says, which is as often as needed. */
  ghost predicate Swept(s: State, d: State, charge: nat, probes: nat) {
    && ClockEviction.Settings(s, d)
    && if s.usage == 0 then d.handles == s.handles && d.usage == 0 && d.table == s.table
       else ClockEviction.After(s, d.(head := s.head), probes) && ClockEviction.NoRoomBefore(s, charge, probes)
  }

  lemma SweptBefore(s: State, s': State, d: State, charge: nat, probes: nat)
    requires s' == s.(owner := s'.owner, acts := s'.acts) && |s'.acts| == |s.acts|
    requires !Inside(s).InsertFill? && !Inside(s').InsertFill?
    requires s.usage != 0 ==> s.head < |s.handles|
    ensures Swept(s', d, charge, probes) ==> Swept(s, d, charge, probes)
    ensures ClockEviction.Fits(s', charge) == ClockEviction.Fits(s, charge)
  {
    if s.usage != 0 {
      forall p: nat
        ensures ClockEviction.UsageAfter(s', p, |s.handles|) == ClockEviction.UsageAfter(s, p, |s.handles|)
      {
        SameUsage(s, s', p, |s.handles|);
      }
    }
  }

  /** The eviction of an insertion, to its decision. */
  method Evict(s: State, t: nat, job: Job) returns (d: State, probes: nat)
    requires Inv(s) && s.owner == None && t < |s.acts| && s.acts[t].pc.Idle?
    ensures Inv(d) && t < |d.acts| && d.acts[t].pc == Decide(ForInsert(job), ClockEviction.Fits(s, job.charge))
    ensures Swept(s, d, job.charge, probes)
    ensures ClockEviction.Fits(s, job.charge) ==> d.usage + job.charge <= d.capacity
  {
    var mid := Enter(s, t, job);
    var success;
    d, success, probes := ClockEviction.EvictFromCache(mid, t);
    InvGrounds(s);
    SweptBefore(s, mid, d, job.charge, probes);
  }

  /** From an accepting decision to the end. */
  method Accept(d: State, t: nat, job: Job) returns (f: State)
    requires Inv(d) && t < |d.acts| && d.acts[t].pc.Decide? && d.acts[t].pc.purpose == ForInsert(job)
    requires !Rejects(d, d.acts[t].pc, job)
    ensures Inv(f) && t < |f.acts| && f.acts[t].pc.Unlock?
    ensures Entered(d, f, job, FreedAlone(d, job), f.acts[t].pc.ret) && NewFlags(f, NewHandle(d), job)
  {
    StepKeepsInv(d, t, Go);
    Decides(d, t, Go, job);
    AcceptFrame(d, t, job);
    f := Step(d, t, Go);
    f := FillIn(d, f, t, job);
    f := FindAndDisplace(d, f, t, job);
    f := LinkUp(d, f, t, job, FreedAlone(d, job));
  }

  lemma AcceptFrame(d: State, t: nat, job: Job)
    requires Inv(d) && CanStep(d, t) && d.acts[t].pc.Decide? && d.acts[t].pc.purpose == ForInsert(job)
    requires !Rejects(d, d.acts[t].pc, job)
    ensures OldFlags(d, Step(d, t, Go), job) && Step(d, t, Go).acts[t].pc.InsertFill?
  {
    assert d.owner == Some(t) && Inside(d) == d.acts[t].pc;
    NewHandleIsDead(d, job);
    DecideFrame(d, t, Go, job);
    assert Step(d, t, Go) == StepDecide(d, t);
  }

  method Refuse(d: State, t: nat, job: Job) returns (f: State)
    requires Inv(d) && t < |d.acts| && d.acts[t].pc.Decide? && d.acts[t].pc.purpose == ForInsert(job)
    requires Rejects(d, d.acts[t].pc, job)
    ensures Inv(f) && t < |f.acts| && f.acts[t].pc == Unlock(None)
    ensures f.table == d.table && f.usage == d.usage && f.handles == d.handles
  {
    StepKeepsInv(d, t, Go);
    f := Step(d, t, Go);
    assert f == StepDecide(d, t);
  }

  lemma EnteredStays(d: State, e: State, f: State, job: Job, freed: bool, ret: Option<Token>)
    requires Entered(d, e, job, freed, ret) && f == e.(owner := f.owner, deleted := f.deleted, acts := f.acts)
    ensures Entered(d, f, job, freed, ret)
  {
  }

  /** From the decision to the end of the call. */
  method Conclude(d: State, t: nat, job: Job) returns (f: State)
    requires Inv(d) && t < |d.acts| && d.acts[t].pc.Decide? && d.acts[t].pc.purpose == ForInsert(job)
    ensures Inv(f) && f.owner == None && t < |f.acts|
    ensures if Rejects(d, d.acts[t].pc, job) then
              f.acts[t].pc == Idle && f.table == d.table && f.usage == d.usage && f.handles == d.handles
            else
              var ret := if job.hold then Some(Token(NewHandle(d), job.key, d.next)) else None;
              && Entered(d, f, job, FreedAlone(d, job), ret) && NewFlags(f, NewHandle(d), job)
              && f.acts[t].pc == (if job.hold then Holding(ret.value) else Idle)
  {
    var e;
    if Rejects(d, d.acts[t].pc, job) {
      e := Refuse(d, t, job);
      f := Leave(e, t);
    } else {
      e := Accept(d, t, job);
      f := Leave(e, t);
      EnteredStays(d, e, f, job, FreedAlone(d, job), e.acts[t].pc.ret);
    }
  }

  /** Insert with nobody else moving. It is accepted if and only if room can be made, in the sense of
      `Fits`, or the limit is not strict and a handle is wanted; then the entry is in the table and in the
      cache and the usage has its charge, and what it displaced has been recycled if nobody referenced it.
      A rejected entry leaves what the eviction has left. The mutex is free again. */
  method InsertAlone(s: State, t: nat, job: Job) returns (f: State, d: State, probes: nat)
    requires Inv(s) && s.owner == None && t < |s.acts| && s.acts[t].pc.Idle?
    ensures Inv(f) && f.owner == None && t < |f.acts|
    ensures Swept(s, d, job.charge, probes)
    ensures ClockEviction.Fits(s, job.charge) ==> d.usage + job.charge <= d.capacity
    ensures if ClockEviction.Fits(s, job.charge) || (!s.strict && job.hold) then
              var ret := if job.hold then Some(Token(NewHandle(d), job.key, s.next)) else None;
              && Entered(d, f, job, FreedAlone(d, job), ret) && NewFlags(f, NewHandle(d), job)
              && f.acts[t].pc == (if job.hold then Holding(ret.value) else Idle)
            else f.acts[t].pc == Idle && f.table == d.table && f.usage == d.usage && f.handles == d.handles
  {
    d, probes := Evict(s, t, job);
    f := Conclude(d, t, job);
  }
}
