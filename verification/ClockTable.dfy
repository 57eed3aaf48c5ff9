/** Every step keeps the table, the in-cache bits and what the activity inside the mutex relies on
    in agreement. */
module ClockTable {
  import opened ClockState
  import opened ClockInvariant
  import opened ClockKnowledge
  import opened ClockValues

  ghost predicate Tables(s: State) {
    TableOk(s) && CacheOk(s) && InsideOk(s)
  }

  // ---- Steps that change neither table nor in-cache bits ----

  predicate TablePlain(pc: Pc) {
    && !pc.EvictErase? && !pc.InsertFind? && !pc.InsertUnset? && !pc.InsertRecycle? && !pc.InsertLink?
    && !pc.EraseUnset? && !pc.SweepUnset? && !pc.SweepRecycle?
  }

  predicate Calm(s: State, s': State, h: nat) {
    && s'.table == s.table
    && (InCache(s', h) <==> InCache(s, h))
    && (Inside(s') == Inside(s) || (TablePlain(Inside(s)) && TablePlain(Inside(s')) && !Inside(s').InsertCharge?))
  }

  lemma CalmKeeps(s: State, s': State)
    requires |s.handles| <= |s'.handles|
    requires forall h: nat :: Calm(s, s', h)
    requires forall h: nat :: h < |s.handles| ==> SameEntry(s, s', h)
    requires Tables(s)
    ensures Tables(s')
  {
    assert Calm(s, s', 0);
    forall k | k in s'.table
      ensures s'.table[k] < |s'.handles| && s'.handles[s'.table[k]].key == k
      ensures s'.handles[s'.table[k]].flags.inCache || (Inside(s').EvictErase? && Inside(s').i == s'.table[k])
      ensures !Unlinked(Inside(s'), s'.table[k]) && !Leaving(Inside(s'), s'.table[k])
    {
      assert Calm(s, s', s.table[k]) && SameEntry(s, s', s.table[k]);
      assert InCache(s', s.table[k]) <==> InCache(s, s.table[k]);
    }
    forall h | 0 <= h < |s'.handles| && s'.handles[h].flags.inCache
      ensures Linked(s', h) || Unlinked(Inside(s'), h) || Leaving(Inside(s'), h)
    {
      assert Calm(s, s', h) && InCache(s', h) && SameEntry(s, s', h);
    }
    CalmKeepsInside(s, s');
  }

  lemma CalmKeepsInside(s: State, s': State)
    requires |s.handles| <= |s'.handles|
    requires forall h: nat :: Calm(s, s', h)
    requires forall h: nat :: h < |s.handles| ==> SameEntry(s, s', h)
    requires InsideOk(s)
    ensures InsideOk(s')
  {
    assert Calm(s, s', 0);
    var pc := Inside(s);
    if pc.EvictErase? { assert SameEntry(s, s', pc.i); }
    if pc.InsertFind? || pc.InsertUnset? || pc.InsertRecycle? || pc.InsertLink? || pc.InsertCharge? || pc.EraseUnset? {
      assert Calm(s, s', pc.h) && SameEntry(s, s', pc.h);
    }
    if pc.InsertUnset? { assert Calm(s, s', pc.old_) && SameEntry(s, s', pc.old_); }
  }

  predicate Evicting(s: State, pc: Pc) {
    pc.EvictCas? && pc.i < |s.handles| && s.handles[pc.i].flags == Flags(true, false, 0)
  }

  lemma IdleCalm(s: State, t: nat, c: Choice, h: nat)
    requires Disciplined(s, t) && s.acts[t].pc.Idle?
    ensures Calm(s, StepIdle(s, t, c), h)
  {
  }

  lemma LookupCalm(s: State, t: nat, c: Choice, h: nat)
    requires Disciplined(s, t) && IsLookup(s.acts[t].pc)
    ensures Calm(s, StepLookup(s, t, c), h)
  {
  }

  lemma UnrefCalm(s: State, t: nat, h: nat)
    requires Disciplined(s, t) && IsUnref(s.acts[t].pc)
    ensures Calm(s, StepUnref(s, t), h)
  {
  }

  lemma LockCalm(s: State, t: nat, h: nat)
    requires Disciplined(s, t) && IsLock(s.acts[t].pc)
    ensures Calm(s, StepLock(s, t), h)
  {
  }

  lemma EvictCalm(s: State, t: nat, h: nat)
    requires Disciplined(s, t) && (s.acts[t].pc.EvictStart? || s.acts[t].pc.EvictTest?)
    ensures Calm(s, StepEvict(s, t), h)
  {
  }

  lemma MoveCalm(s: State, t: nat, h: nat)
    requires Disciplined(s, t) && s.acts[t].pc.EvictMove?
    ensures Calm(s, StepEvict(s, t), h)
  {
  }

  lemma TryCalm(s: State, t: nat, h: nat)
    requires Disciplined(s, t) && IsTry(s.acts[t].pc) && !Evicting(s, s.acts[t].pc)
    ensures Calm(s, StepTry(s, t), h)
  {
  }

  lemma RefuseCalm(s: State, t: nat, h: nat)
    requires Disciplined(s, t) && s.acts[t].pc.Decide? && !Accepts(s, s.acts[t].pc)
    ensures Calm(s, StepDecide(s, t), h)
  {
  }

  lemma AcceptCalm(s: State, t: nat, h: nat)
    requires Disciplined(s, t) && s.acts[t].pc.Decide? && Accepts(s, s.acts[t].pc)
    ensures Calm(s, StepDecide(s, t), h)
  {
  }

  lemma ChargeCalm(s: State, t: nat, h: nat)
    requires Disciplined(s, t) && s.acts[t].pc.InsertCharge?
    ensures Calm(s, StepFill(s, t), h)
  {
  }

  lemma ExitCalm(s: State, t: nat, h: nat)
    requires Disciplined(s, t) && IsExit(s.acts[t].pc)
    ensures Calm(s, StepExit(s, t), h)
  {
  }

  // ---- Steps that do ----

  lemma EvictCasKeepsTables(s: State, t: nat)
    requires Disciplined(s, t) && Tables(s) && s.acts[t].pc.EvictCas? && Evicting(s, s.acts[t].pc)
    ensures Tables(StepTry(s, t))
  {
  }

  lemma FillKeepsTables(s: State, t: nat)
    requires Disciplined(s, t) && Tables(s) && s.acts[t].pc.InsertFill? && DeadAt(s, s.acts[t].pc.h)
    ensures Tables(StepFill(s, t))
  {
  }

  lemma StoreKeepsTables(s: State, t: nat)
    requires Disciplined(s, t) && Tables(s) && s.acts[t].pc.InsertStore? && DeadAt(s, s.acts[t].pc.h)
    ensures Tables(StepFill(s, t))
  {
  }

  lemma FindKeepsTables(s: State, t: nat)
    requires Disciplined(s, t) && Tables(s) && s.acts[t].pc.InsertFind?
    ensures Tables(StepTable(s, t))
  {
  }

  lemma EraseFindKeepsTables(s: State, t: nat)
    requires Disciplined(s, t) && Tables(s) && s.acts[t].pc.EraseFind?
    ensures Tables(StepTable(s, t))
  {
  }

  lemma EvictEraseKeepsTables(s: State, t: nat)
    requires Disciplined(s, t) && Tables(s) && s.acts[t].pc.EvictErase? && DeadAt(s, s.acts[t].pc.i)
    ensures Tables(StepTable(s, t))
  {
  }

  lemma LinkKeepsTables(s: State, t: nat)
    requires Disciplined(s, t) && Tables(s) && s.acts[t].pc.InsertLink? && Knows(s, s.acts[t].pc)
    ensures Tables(StepTable(s, t))
  {
  }

  lemma ClearKeepsTables(s: State, t: nat)
    requires Disciplined(s, t) && Tables(s) && s.acts[t].pc.SweepClear?
    ensures Tables(StepTable(s, t))
  {
  }

  lemma UnsetKeepsTables(s: State, t: nat)
    requires Disciplined(s, t) && Tables(s) && s.acts[t].pc.InsertUnset?
    ensures Tables(StepUnset(s, t))
  {
  }

  lemma EraseUnsetKeepsTables(s: State, t: nat)
    requires Disciplined(s, t) && Tables(s) && s.acts[t].pc.EraseUnset?
    ensures Tables(StepUnset(s, t))
  {
  }

  lemma SweepKeepsTables(s: State, t: nat)
    requires Disciplined(s, t) && Tables(s) && s.acts[t].pc.SweepUnset?
    ensures Tables(StepUnset(s, t))
  {
  }

  lemma RecycleKeepsTables(s: State, t: nat)
    requires Disciplined(s, t) && Tables(s) && IsRecycle(s.acts[t].pc) && DeadAt(s, Recycled(s.acts[t].pc))
    ensures Tables(StepRecycle(s, t))
  {
  }

  /** The steps that change the table or an in-cache bit, or fill or clear an entry. */
  predicate Stirs(s: State, pc: Pc) {
    Evicting(s, pc) || pc.InsertFill? || pc.InsertStore? || IsTable(pc) || IsUnset(pc) || IsRecycle(pc)
  }

  lemma StepCalm(s: State, t: nat, c: Choice, h: nat)
    requires Disciplined(s, t) && !Stirs(s, s.acts[t].pc)
    ensures Calm(s, Step(s, t, c), h)
  {
    var pc := s.acts[t].pc;
    if pc.Idle? {
      IdleCalm(s, t, c, h);
    } else if IsLookup(pc) {
      LookupCalm(s, t, c, h);
    } else if IsUnref(pc) {
      UnrefCalm(s, t, h);
    } else if IsLock(pc) {
      LockCalm(s, t, h);
    } else if IsEvict(pc) {
      if pc.EvictMove? { MoveCalm(s, t, h); } else { EvictCalm(s, t, h); }
    } else if IsTry(pc) {
      TryCalm(s, t, h);
    } else if pc.Decide? {
      if Accepts(s, pc) { AcceptCalm(s, t, h); } else { RefuseCalm(s, t, h); }
    } else if IsFill(pc) {
      ChargeCalm(s, t, h);
    } else {
      ExitCalm(s, t, h);
    }
  }

  lemma CalmStepKeepsTables(s: State, t: nat, c: Choice)
    requires Disciplined(s, t) && Tables(s) && !Stirs(s, s.acts[t].pc)
    ensures Tables(Step(s, t, c))
  {
    var s' := Step(s, t, c);
    forall h: nat ensures Calm(s, s', h) && (h < |s.handles| ==> SameEntry(s, s', h)) {
      StepCalm(s, t, c, h);
      if h < |s.handles| {
        EntriesStay(s, t, c, h);
      }
    }
    CalmKeeps(s, s');
  }

  lemma OwnedIsDead(s: State, t: nat, h: nat)
    requires Ownership(s) && t < |s.acts| && Owns(s.acts[t].pc, h)
    ensures DeadAt(s, h)
  {
    CountAtLeast(s.acts, t, h);
  }

  lemma UnsetStepKeepsTables(s: State, t: nat, c: Choice)
    requires Disciplined(s, t) && Tables(s) && IsUnset(s.acts[t].pc)
    ensures Tables(Step(s, t, c))
  {
    var pc := s.acts[t].pc;
    if pc.InsertUnset? {
      UnsetKeepsTables(s, t);
    } else if pc.EraseUnset? {
      EraseUnsetKeepsTables(s, t);
    } else {
      SweepKeepsTables(s, t);
    }
  }

  lemma TableStepKeepsTables(s: State, t: nat, c: Choice)
    requires Disciplined(s, t) && Tables(s) && Ownership(s) && Knows(s, s.acts[t].pc) && IsTable(s.acts[t].pc)
    ensures Tables(Step(s, t, c))
  {
    var pc := s.acts[t].pc;
    if pc.EvictErase? {
      OwnedIsDead(s, t, pc.i);
      EvictEraseKeepsTables(s, t);
    } else if pc.InsertFind? {
      FindKeepsTables(s, t);
    } else if pc.InsertLink? {
      LinkKeepsTables(s, t);
    } else if pc.EraseFind? {
      EraseFindKeepsTables(s, t);
    } else {
      ClearKeepsTables(s, t);
    }
  }

  lemma FillStepKeepsTables(s: State, t: nat, c: Choice)
    requires Disciplined(s, t) && Tables(s) && Ownership(s) && (s.acts[t].pc.InsertFill? || s.acts[t].pc.InsertStore?)
    ensures Tables(Step(s, t, c))
  {
    OwnedIsDead(s, t, s.acts[t].pc.h);
    if s.acts[t].pc.InsertFill? {
      FillKeepsTables(s, t);
    } else {
      StoreKeepsTables(s, t);
    }
  }

  lemma RecycleStepKeepsTables(s: State, t: nat, c: Choice)
    requires Disciplined(s, t) && Tables(s) && Ownership(s) && IsRecycle(s.acts[t].pc)
    ensures Tables(Step(s, t, c))
  {
    OwnedIsDead(s, t, Recycled(s.acts[t].pc));
    RecycleKeepsTables(s, t);
  }

  lemma KeepsTables(s: State, t: nat, c: Choice)
    requires Disciplined(s, t) && Tables(s) && Ownership(s) && Knows(s, s.acts[t].pc)
    ensures Tables(Step(s, t, c))
  {
    var pc := s.acts[t].pc;
    if Evicting(s, pc) {
      EvictCasKeepsTables(s, t);
    } else if pc.InsertFill? || pc.InsertStore? {
      FillStepKeepsTables(s, t, c);
    } else if IsTable(pc) {
      TableStepKeepsTables(s, t, c);
    } else if IsUnset(pc) {
      UnsetStepKeepsTables(s, t, c);
    } else if IsRecycle(pc) {
      RecycleStepKeepsTables(s, t, c);
    } else {
      CalmStepKeepsTables(s, t, c);
    }
  }
}
