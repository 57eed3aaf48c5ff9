/** Every step keeps the mutex discipline, and what the activities know about the entries. */
module ClockKnowledge {
  import opened Wrappers
  import opened ClockState
  import opened ClockInvariant

  /** Every place a step may take a handle from has handles of this shard only. */
  ghost predicate Grounded(s: State) {
    && (forall k :: k in s.table ==> s.table[k] < |s.handles|)
    && (forall i :: 0 <= i < |s.recycle| ==> s.recycle[i] < |s.handles|)
    && (s.usage != 0 ==> |s.handles| > 0)
    && (s.head < |s.handles| || s.head == 0)
  }

  predicate MutexStep(s: State, t: nat, s': State)
    requires t < |s.acts| == |s'.acts|
  {
    && (s'.head < |s'.handles| || s'.head == 0)
    && Points(s'.acts[t].pc, |s'.handles|)
    && (NeedsMutex(s'.acts[t].pc) <==> s'.owner == Some(t))
    && (s'.owner == s.owner || (s.owner == None && s'.owner == Some(t)) || (s.owner == Some(t) && s'.owner == None))
  }

  predicate MayStep(s: State, t: nat) {
    && CanStep(s, t)
    && (NeedsMutex(s.acts[t].pc) <==> s.owner == Some(t))
    && Knows(s, s.acts[t].pc)
  }

  // ---- The mutex ----

  lemma IdleMutex(s: State, t: nat, c: Choice)
    requires Grounded(s) && t < |s.acts| && s.owner != Some(t) && s.acts[t].pc.Idle?
    ensures MutexStep(s, t, StepIdle(s, t, c))
  {
  }

  lemma LookupMutex(s: State, t: nat, c: Choice)
    requires CanStep(s, t) && s.owner != Some(t) && (s.head < |s.handles| || s.head == 0) && IsLookup(s.acts[t].pc)
    ensures MutexStep(s, t, StepLookup(s, t, c))
  {
  }

  lemma UnrefMutex(s: State, t: nat)
    requires Grounded(s) && MayStep(s, t) && IsUnref(s.acts[t].pc)
    ensures MutexStep(s, t, StepUnref(s, t))
  {
  }

  lemma LockMutex(s: State, t: nat)
    requires Grounded(s) && MayStep(s, t) && IsLock(s.acts[t].pc)
    ensures MutexStep(s, t, StepLock(s, t))
  {
  }

  lemma EvictMutex(s: State, t: nat)
    requires Grounded(s) && MayStep(s, t) && (s.acts[t].pc.EvictStart? || s.acts[t].pc.EvictTest?)
    ensures MutexStep(s, t, StepEvict(s, t))
  {
  }

  lemma MoveMutex(s: State, t: nat)
    requires Grounded(s) && MayStep(s, t) && s.acts[t].pc.EvictMove?
    ensures MutexStep(s, t, StepEvict(s, t))
  {
  }

  lemma TryMutex(s: State, t: nat)
    requires Grounded(s) && MayStep(s, t) && IsTry(s.acts[t].pc)
    ensures MutexStep(s, t, StepTry(s, t))
  {
  }

  lemma RefuseMutex(s: State, t: nat)
    requires Grounded(s) && MayStep(s, t) && s.acts[t].pc.Decide? && !Accepts(s, s.acts[t].pc)
    ensures MutexStep(s, t, StepDecide(s, t))
  {
  }

  lemma AcceptMutex(s: State, t: nat)
    requires Grounded(s) && MayStep(s, t) && s.acts[t].pc.Decide? && Accepts(s, s.acts[t].pc)
    ensures MutexStep(s, t, StepDecide(s, t))
  {
  }

  lemma FillMutex(s: State, t: nat)
    requires Grounded(s) && MayStep(s, t) && IsFill(s.acts[t].pc)
    ensures MutexStep(s, t, StepFill(s, t))
  {
  }

  lemma FindMutex(s: State, t: nat)
    requires Grounded(s) && MayStep(s, t) && (s.acts[t].pc.InsertFind? || s.acts[t].pc.EraseFind?)
    ensures MutexStep(s, t, StepTable(s, t))
  {
  }

  lemma TableMutex(s: State, t: nat)
    requires Grounded(s) && MayStep(s, t) &&
             (s.acts[t].pc.EvictErase? || s.acts[t].pc.InsertLink? || s.acts[t].pc.SweepClear?)
    ensures MutexStep(s, t, StepTable(s, t))
  {
  }

  lemma UnsetMutex(s: State, t: nat)
    requires Grounded(s) && MayStep(s, t) && (s.acts[t].pc.InsertUnset? || s.acts[t].pc.EraseUnset?)
    ensures MutexStep(s, t, StepUnset(s, t))
  {
  }

  lemma SweepMutex(s: State, t: nat)
    requires Grounded(s) && MayStep(s, t) && s.acts[t].pc.SweepUnset?
    ensures MutexStep(s, t, StepUnset(s, t))
  {
  }

  lemma RecycleMutex(s: State, t: nat)
    requires Grounded(s) && MayStep(s, t) && IsRecycle(s.acts[t].pc)
    ensures MutexStep(s, t, StepRecycle(s, t))
  {
  }

  lemma ExitMutex(s: State, t: nat)
    requires Grounded(s) && MayStep(s, t) && IsExit(s.acts[t].pc)
    ensures MutexStep(s, t, StepExit(s, t))
  {
  }

  lemma StepMutex(s: State, t: nat, c: Choice)
    requires Grounded(s) && MayStep(s, t)
    ensures MutexStep(s, t, Step(s, t, c))
  {
    var pc := s.acts[t].pc;
    if pc.Idle? {
      IdleMutex(s, t, c);
    } else if IsLookup(pc) {
      LookupMutex(s, t, c);
    } else if IsUnref(pc) {
      UnrefMutex(s, t);
    } else if IsLock(pc) {
      LockMutex(s, t);
    } else if IsEvict(pc) {
      if pc.EvictMove? { MoveMutex(s, t); } else { EvictMutex(s, t); }
    } else if IsTry(pc) {
      TryMutex(s, t);
    } else if pc.Decide? {
      if Accepts(s, pc) { AcceptMutex(s, t); } else { RefuseMutex(s, t); }
    } else if IsFill(pc) {
      FillMutex(s, t);
    } else if IsTable(pc) {
      if pc.InsertFind? || pc.EraseFind? { FindMutex(s, t); } else { TableMutex(s, t); }
    } else if IsUnset(pc) {
      if pc.SweepUnset? { SweepMutex(s, t); } else { UnsetMutex(s, t); }
    } else if IsRecycle(pc) {
      RecycleMutex(s, t);
    } else {
      ExitMutex(s, t);
    }
  }

  lemma KeepsShape(s: State, t: nat, c: Choice)
    requires Shape(s) && Grounded(s) && MayStep(s, t)
    ensures Shape(Step(s, t, c))
  {
    StepMutex(s, t, c);
  }

  // ---- Entries ----

  lemma IdleKnows(s: State, t: nat, c: Choice)
    requires MayStep(s, t) && s.acts[t].pc.Idle?
    ensures Knows(StepIdle(s, t, c), StepIdle(s, t, c).acts[t].pc)
  {
  }

  lemma CheckKnows(s: State, t: nat, c: Choice)
    requires CanStep(s, t) && s.acts[t].pc.LookupCheck?
    ensures Knows(StepLookup(s, t, c), StepLookup(s, t, c).acts[t].pc)
  {
  }

  lemma LookupKnows(s: State, t: nat, c: Choice)
    requires CanStep(s, t) && (s.acts[t].pc.LookupLoad? || s.acts[t].pc.LookupCas?)
    ensures Knows(StepLookup(s, t, c), StepLookup(s, t, c).acts[t].pc)
  {
  }

  lemma UnrefKnows(s: State, t: nat)
    requires MayStep(s, t) && IsUnref(s.acts[t].pc)
    ensures Knows(StepUnref(s, t), StepUnref(s, t).acts[t].pc)
  {
  }

  lemma LockKnows(s: State, t: nat)
    requires MayStep(s, t) && IsLock(s.acts[t].pc)
    ensures Knows(StepLock(s, t), StepLock(s, t).acts[t].pc)
  {
  }

  lemma EvictKnows(s: State, t: nat)
    requires MayStep(s, t) && (s.acts[t].pc.EvictStart? || s.acts[t].pc.EvictTest?)
    ensures Knows(StepEvict(s, t), StepEvict(s, t).acts[t].pc)
  {
  }

  lemma MoveKnows(s: State, t: nat)
    requires MayStep(s, t) && s.acts[t].pc.EvictMove?
    ensures Knows(StepEvict(s, t), StepEvict(s, t).acts[t].pc)
  {
  }

  lemma TryKnows(s: State, t: nat)
    requires MayStep(s, t) && IsTry(s.acts[t].pc)
    ensures Knows(StepTry(s, t), StepTry(s, t).acts[t].pc)
  {
  }

  lemma RefuseKnows(s: State, t: nat)
    requires MayStep(s, t) && s.acts[t].pc.Decide? && !Accepts(s, s.acts[t].pc)
    ensures Knows(StepDecide(s, t), StepDecide(s, t).acts[t].pc)
  {
  }

  lemma AcceptKnows(s: State, t: nat)
    requires MayStep(s, t) && s.acts[t].pc.Decide? && Accepts(s, s.acts[t].pc)
    ensures Knows(StepDecide(s, t), StepDecide(s, t).acts[t].pc)
  {
  }

  lemma FillKnows(s: State, t: nat)
    requires MayStep(s, t) && IsFill(s.acts[t].pc)
    ensures Knows(StepFill(s, t), StepFill(s, t).acts[t].pc)
  {
  }

  lemma FindKnows(s: State, t: nat)
    requires MayStep(s, t) && (s.acts[t].pc.InsertFind? || s.acts[t].pc.EraseFind?)
    ensures Knows(StepTable(s, t), StepTable(s, t).acts[t].pc)
  {
  }

  lemma TableKnows(s: State, t: nat)
    requires MayStep(s, t) && (s.acts[t].pc.EvictErase? || s.acts[t].pc.InsertLink? || s.acts[t].pc.SweepClear?)
    ensures Knows(StepTable(s, t), StepTable(s, t).acts[t].pc)
  {
  }

  lemma UnsetKnows(s: State, t: nat)
    requires MayStep(s, t) && (s.acts[t].pc.InsertUnset? || s.acts[t].pc.EraseUnset?)
    ensures Knows(StepUnset(s, t), StepUnset(s, t).acts[t].pc)
  {
  }

  lemma SweepKnows(s: State, t: nat)
    requires MayStep(s, t) && s.acts[t].pc.SweepUnset?
    ensures Knows(StepUnset(s, t), StepUnset(s, t).acts[t].pc)
  {
  }

  lemma RecycleKnows(s: State, t: nat)
    requires MayStep(s, t) && (s.acts[t].pc.InsertRecycle? ==> s.acts[t].pc.old_ != s.acts[t].pc.h) &&
             IsRecycle(s.acts[t].pc)
    ensures Knows(StepRecycle(s, t), StepRecycle(s, t).acts[t].pc)
  {
  }

  lemma ExitKnows(s: State, t: nat)
    requires MayStep(s, t) && IsExit(s.acts[t].pc)
    ensures Knows(StepExit(s, t), StepExit(s, t).acts[t].pc)
  {
  }

  lemma StepKnows(s: State, t: nat, c: Choice)
    requires MayStep(s, t) && (s.acts[t].pc.InsertRecycle? ==> s.acts[t].pc.old_ != s.acts[t].pc.h)
    ensures Knows(Step(s, t, c), Step(s, t, c).acts[t].pc)
  {
    var pc := s.acts[t].pc;
    if pc.Idle? {
      IdleKnows(s, t, c);
    } else if IsLookup(pc) {
      if pc.LookupCheck? { CheckKnows(s, t, c); } else { LookupKnows(s, t, c); }
    } else if IsUnref(pc) {
      UnrefKnows(s, t);
    } else if IsLock(pc) {
      LockKnows(s, t);
    } else if IsEvict(pc) {
      if pc.EvictMove? { MoveKnows(s, t); } else { EvictKnows(s, t); }
    } else if IsTry(pc) {
      TryKnows(s, t);
    } else if pc.Decide? {
      if Accepts(s, pc) { AcceptKnows(s, t); } else { RefuseKnows(s, t); }
    } else if IsFill(pc) {
      FillKnows(s, t);
    } else if IsTable(pc) {
      if pc.InsertFind? || pc.EraseFind? { FindKnows(s, t); } else { TableKnows(s, t); }
    } else if IsUnset(pc) {
      if pc.SweepUnset? { SweepKnows(s, t); } else { UnsetKnows(s, t); }
    } else if IsRecycle(pc) {
      RecycleKnows(s, t);
    } else {
      ExitKnows(s, t);
    }
  }

  predicate SameEntry(s: State, s': State, h: nat)
    requires h < |s.handles| <= |s'.handles|
  {
    s'.handles[h].(flags := s.handles[h].flags) == s.handles[h]
  }

  predicate Early(pc: Pc) {
    pc.Idle? || IsLookup(pc) || IsUnref(pc) || IsLock(pc) || IsEvict(pc) || IsTry(pc)
  }

  lemma EntriesStayEarly(s: State, t: nat, c: Choice, h: nat)
    requires CanStep(s, t) && h < |s.handles| && Early(s.acts[t].pc)
    ensures SameEntry(s, Step(s, t, c), h)
  {
  }

  lemma EntriesStayLate(s: State, t: nat, c: Choice, h: nat)
    requires CanStep(s, t) && h < |s.handles|
    requires !Early(s.acts[t].pc) && !IsFill(s.acts[t].pc) && !IsRecycle(s.acts[t].pc)
    ensures SameEntry(s, Step(s, t, c), h)
  {
  }

  lemma FillStays(s: State, t: nat, h: nat)
    requires CanStep(s, t) && h < |s.handles| && IsFill(s.acts[t].pc)
    requires s.acts[t].pc.InsertStore? || !Owns(s.acts[t].pc, h)
    ensures SameEntry(s, StepFill(s, t), h)
  {
  }

  lemma RecycleStays(s: State, t: nat, h: nat)
    requires CanStep(s, t) && h < |s.handles| && IsRecycle(s.acts[t].pc) && !Owns(s.acts[t].pc, h)
    ensures SameEntry(s, StepRecycle(s, t), h)
  {
  }

  /** Only the one that owns a handle changes its entry: to fill it, or to recycle it. */
  lemma EntriesStay(s: State, t: nat, c: Choice, h: nat)
    requires CanStep(s, t) && h < |s.handles|
    requires !Owns(s.acts[t].pc, h) || !(s.acts[t].pc.InsertFill? || IsRecycle(s.acts[t].pc))
    ensures SameEntry(s, Step(s, t, c), h)
  {
    if IsFill(s.acts[t].pc) {
      FillStays(s, t, h);
    } else if IsRecycle(s.acts[t].pc) {
      RecycleStays(s, t, h);
    } else if Early(s.acts[t].pc) {
      EntriesStayEarly(s, t, c, h);
    } else {
      EntriesStayLate(s, t, c, h);
    }
  }

  /** A referenced handle, or one being inserted, belongs to no other activity. */
  lemma OthersDoNotOwn(s: State, t: nat, u: nat, h: nat)
    requires Shape(s) && Ownership(s) && References(s) && t < |s.acts| && u < |s.acts| && u != t
    requires HasRef(s.acts[u].pc, h) || Filled(s.acts[u].pc)
    ensures !Owns(s.acts[t].pc, h) || !NeedsMutex(s.acts[t].pc)
  {
    if HasRef(s.acts[u].pc, h) {
      CountAtLeast(s.acts, u, h);
      CountAtLeast(s.acts, t, h);
    }
  }

  lemma KnowsStill(s: State, t: nat, c: Choice, u: nat)
    requires Shape(s) && Ownership(s) && References(s) && CanStep(s, t) && u < |s.acts| && u != t
    requires Knows(s, s.acts[u].pc)
    ensures Knows(Step(s, t, c), s.acts[u].pc)
  {
    var pc := s.acts[u].pc;
    if TokenOf(pc).Some? {
      var h := TokenOf(pc).value.h;
      OthersDoNotOwn(s, t, u, h);
      EntriesStay(s, t, c, h);
    }
    if Filled(pc) {
      OthersDoNotOwn(s, t, u, pc.h);
      EntriesStay(s, t, c, pc.h);
    }
  }

  lemma KeepsKnowledge(s: State, t: nat, c: Choice)
    requires Shape(s) && Ownership(s) && References(s) && Knowledge(s) && InsideOk(s) && MayStep(s, t)
    ensures Knowledge(Step(s, t, c))
  {
    var s' := Step(s, t, c);
    forall u | 0 <= u < |s'.acts| ensures Knows(s', s'.acts[u].pc) {
      if u == t {
        StepKnows(s, t, c);
      } else {
        KnowsStill(s, t, c, u);
      }
    }
  }
}
