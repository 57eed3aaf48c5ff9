/** Every step keeps references and ownership: a dead handle always has exactly one owner. */
module ClockOwnership {
  import opened ClockState
  import opened ClockInvariant

  // ---- References and ownership ----

  /** References and ownership of handle `h` move together with the program point. */
  predicate Tallies(s: State, t: nat, s': State, h: nat)
    requires t < |s.acts| == |s'.acts|
  {
    && RefsAt(s', h) + One(HasRef(s.acts[t].pc, h)) == RefsAt(s, h) + One(HasRef(s'.acts[t].pc, h))
    && One(DeadAt(s', h)) + One(Owns(s.acts[t].pc, h)) + Binned(s, h)
       == One(DeadAt(s, h)) + One(Owns(s'.acts[t].pc, h)) + Binned(s', h)
  }

  predicate Entitled(s: State, t: nat, h: nat)
    requires t < |s.acts|
  {
    && (Owns(s.acts[t].pc, h) ==> DeadAt(s, h) && Binned(s, h) == 0)
    && (HasRef(s.acts[t].pc, h) ==> RefsAt(s, h) > 0)
  }

  lemma IdleTallies(s: State, t: nat, c: Choice, h: nat)
    requires CanStep(s, t) && Entitled(s, t, h) && s.acts[t].pc.Idle?
    ensures Tallies(s, t, StepIdle(s, t, c), h)
  {
  }

  lemma LookupTallies(s: State, t: nat, c: Choice, h: nat)
    requires CanStep(s, t) && Entitled(s, t, h) && IsLookup(s.acts[t].pc)
    ensures Tallies(s, t, StepLookup(s, t, c), h)
  {
  }

  lemma UnrefTallies(s: State, t: nat, h: nat)
    requires CanStep(s, t) && Entitled(s, t, h) && IsUnref(s.acts[t].pc)
    ensures Tallies(s, t, StepUnref(s, t), h)
  {
  }

  lemma LockTallies(s: State, t: nat, h: nat)
    requires CanStep(s, t) && Entitled(s, t, h) && IsLock(s.acts[t].pc)
    ensures Tallies(s, t, StepLock(s, t), h)
  {
  }

  lemma EvictTallies(s: State, t: nat, h: nat)
    requires CanStep(s, t) && Entitled(s, t, h) && (s.acts[t].pc.EvictStart? || s.acts[t].pc.EvictTest?)
    ensures Tallies(s, t, StepEvict(s, t), h)
  {
  }

  lemma MoveTallies(s: State, t: nat, h: nat)
    requires CanStep(s, t) && Entitled(s, t, h) && s.acts[t].pc.EvictMove?
    ensures Tallies(s, t, StepEvict(s, t), h)
  {
  }

  lemma TryTallies(s: State, t: nat, h: nat)
    requires CanStep(s, t) && Entitled(s, t, h) && IsTry(s.acts[t].pc)
    ensures Tallies(s, t, StepTry(s, t), h)
  {
  }

  lemma RefuseTallies(s: State, t: nat, h: nat)
    requires CanStep(s, t) && Entitled(s, t, h) && s.acts[t].pc.Decide? && !Accepts(s, s.acts[t].pc)
    ensures Tallies(s, t, StepDecide(s, t), h)
  {
  }

  lemma PopBinned(bin: seq<nat>, h: nat)
    requires bin != []
    ensures multiset(bin)[h] == multiset(bin[..|bin| - 1])[h] + One(bin[|bin| - 1] == h)
  {
    assert bin == bin[..|bin| - 1] + [bin[|bin| - 1]];
  }

  lemma AcceptTallies(s: State, t: nat, h: nat)
    requires CanStep(s, t) && Entitled(s, t, h) && s.acts[t].pc.Decide? && Accepts(s, s.acts[t].pc)
    ensures Tallies(s, t, StepDecide(s, t), h)
  {
    if s.recycle != [] {
      PopBinned(s.recycle, h);
    }
  }

  lemma FillTallies(s: State, t: nat, h: nat)
    requires CanStep(s, t) && Entitled(s, t, h) && IsFill(s.acts[t].pc)
    ensures Tallies(s, t, StepFill(s, t), h)
  {
  }

  lemma FindTallies(s: State, t: nat, h: nat)
    requires CanStep(s, t) && Entitled(s, t, h) && (s.acts[t].pc.InsertFind? || s.acts[t].pc.EraseFind?)
    ensures Tallies(s, t, StepTable(s, t), h)
  {
  }

  lemma TableTallies(s: State, t: nat, h: nat)
    requires CanStep(s, t) && Entitled(s, t, h) &&
             (s.acts[t].pc.EvictErase? || s.acts[t].pc.InsertLink? || s.acts[t].pc.SweepClear?)
    ensures Tallies(s, t, StepTable(s, t), h)
  {
  }

  lemma UnsetTallies(s: State, t: nat, h: nat)
    requires CanStep(s, t) && Entitled(s, t, h) && (s.acts[t].pc.InsertUnset? || s.acts[t].pc.EraseUnset?)
    ensures Tallies(s, t, StepUnset(s, t), h)
  {
  }

  lemma SweepTallies(s: State, t: nat, h: nat)
    requires CanStep(s, t) && Entitled(s, t, h) && s.acts[t].pc.SweepUnset?
    ensures Tallies(s, t, StepUnset(s, t), h)
  {
  }

  lemma RecycleTallies(s: State, t: nat, h: nat)
    requires CanStep(s, t) && Entitled(s, t, h) && IsRecycle(s.acts[t].pc)
    ensures Tallies(s, t, StepRecycle(s, t), h)
  {
  }

  lemma ExitTallies(s: State, t: nat, h: nat)
    requires CanStep(s, t) && Entitled(s, t, h) && IsExit(s.acts[t].pc)
    ensures Tallies(s, t, StepExit(s, t), h)
  {
  }

  lemma StepTallies(s: State, t: nat, c: Choice, h: nat)
    requires CanStep(s, t) && Entitled(s, t, h)
    ensures Tallies(s, t, Step(s, t, c), h)
  {
    var pc := s.acts[t].pc;
    if pc.Idle? {
      IdleTallies(s, t, c, h);
    } else if IsLookup(pc) {
      LookupTallies(s, t, c, h);
    } else if IsUnref(pc) {
      UnrefTallies(s, t, h);
    } else if IsLock(pc) {
      LockTallies(s, t, h);
    } else if IsEvict(pc) {
      if pc.EvictMove? { MoveTallies(s, t, h); } else { EvictTallies(s, t, h); }
    } else if IsTry(pc) {
      TryTallies(s, t, h);
    } else if pc.Decide? {
      if Accepts(s, pc) { AcceptTallies(s, t, h); } else { RefuseTallies(s, t, h); }
    } else if IsFill(pc) {
      FillTallies(s, t, h);
    } else if IsTable(pc) {
      if pc.InsertFind? || pc.EraseFind? { FindTallies(s, t, h); } else { TableTallies(s, t, h); }
    } else if IsUnset(pc) {
      if pc.SweepUnset? { SweepTallies(s, t, h); } else { UnsetTallies(s, t, h); }
    } else if IsRecycle(pc) {
      RecycleTallies(s, t, h);
    } else {
      ExitTallies(s, t, h);
    }
  }

  lemma OwnerIsEntitled(s: State, t: nat, h: nat)
    requires Ownership(s) && References(s) && t < |s.acts|
    ensures Entitled(s, t, h)
  {
    CountAtLeast(s.acts, t, h);
  }

  lemma StepAllowed(s: State, t: nat)
    requires Shape(s) && References(s) && t < |s.acts|
    ensures CanStep(s, t)
  {
    if s.acts[t].pc.UnrefSub? {
      CountAtLeast(s.acts, t, s.acts[t].pc.h);
    }
  }

  lemma KeepsCounts(s: State, t: nat, c: Choice)
    requires CanStep(s, t) && Ownership(s) && References(s)
    ensures Ownership(Step(s, t, c)) && References(Step(s, t, c))
  {
    var s' := Step(s, t, c);
    forall h: nat
      ensures Owners(s'.acts, h) + Binned(s', h) == One(DeadAt(s', h))
      ensures Holders(s'.acts, h) == RefsAt(s', h)
    {
      OwnerIsEntitled(s, t, h);
      StepTallies(s, t, c, h);
      CountUpdate(s.acts, t, s'.acts[t], h);
    }
  }
}
