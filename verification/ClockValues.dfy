/** Every step keeps the values: each is in one handle or given up once, deleted at most once, and
    the usage is the sum of the charges. */
module ClockValues {
  import opened Wrappers
  import opened ClockState
  import opened ClockInvariant
  import opened ClockKnowledge

  // ---- Steps that leave the values where they are ----

  /** The step neither puts a value into a handle nor gives one up. */
  predicate MovesNoValue(s: State, pc: Pc) {
    !pc.InsertFill? && !IsRecycle(pc) && !(pc.Decide? && Discards(s, pc))
  }

  predicate Quiet(s: State, s': State, h: nat) {
    && s'.next == s.next && s'.retired == s.retired
    && s'.usage + Adding(Inside(s')) == s.usage + Adding(Inside(s))
    && (h < |s.handles| ==> (Vacant(s', h) <==> Vacant(s, h)))
    && (|s.handles| <= h < |s'.handles| ==> Vacant(s', h))
  }

  /** A value given up joins the values to delete, and leaves them when its deleter runs. */
  predicate DeletesOnce(s: State, t: nat, s': State, o: nat)
    requires t < |s.acts| == |s'.acts|
  {
    s'.acts[t].toDelete[o] + s'.deleted[o] + s.retired[o] == s.acts[t].toDelete[o] + s.deleted[o] + s'.retired[o]
  }

  predicate Disciplined(s: State, t: nat) {
    && CanStep(s, t)
    && (s.owner.Some? ==> s.owner.value < |s.acts|)
    && (NeedsMutex(s.acts[t].pc) <==> s.owner == Some(t))
  }

  lemma IdleQuiet(s: State, t: nat, c: Choice, h: nat, o: nat)
    requires Disciplined(s, t) && MovesNoValue(s, s.acts[t].pc) && s.acts[t].pc.Idle?
    ensures Quiet(s, StepIdle(s, t, c), h) && DeletesOnce(s, t, StepIdle(s, t, c), o)
  {
  }

  lemma LookupQuiet(s: State, t: nat, c: Choice, h: nat, o: nat)
    requires Disciplined(s, t) && MovesNoValue(s, s.acts[t].pc) && IsLookup(s.acts[t].pc)
    ensures Quiet(s, StepLookup(s, t, c), h) && DeletesOnce(s, t, StepLookup(s, t, c), o)
  {
  }

  lemma UnrefQuiet(s: State, t: nat, h: nat, o: nat)
    requires Disciplined(s, t) && MovesNoValue(s, s.acts[t].pc) && IsUnref(s.acts[t].pc)
    ensures Quiet(s, StepUnref(s, t), h) && DeletesOnce(s, t, StepUnref(s, t), o)
  {
  }

  lemma LockQuiet(s: State, t: nat, h: nat, o: nat)
    requires Disciplined(s, t) && MovesNoValue(s, s.acts[t].pc) && IsLock(s.acts[t].pc)
    ensures Quiet(s, StepLock(s, t), h) && DeletesOnce(s, t, StepLock(s, t), o)
  {
  }

  lemma EvictQuiet(s: State, t: nat, h: nat, o: nat)
    requires Disciplined(s, t) && MovesNoValue(s, s.acts[t].pc) && (s.acts[t].pc.EvictStart? || s.acts[t].pc.EvictTest?)
    ensures Quiet(s, StepEvict(s, t), h) && DeletesOnce(s, t, StepEvict(s, t), o)
  {
  }

  lemma MoveQuiet(s: State, t: nat, h: nat, o: nat)
    requires Disciplined(s, t) && MovesNoValue(s, s.acts[t].pc) && s.acts[t].pc.EvictMove?
    ensures Quiet(s, StepEvict(s, t), h) && DeletesOnce(s, t, StepEvict(s, t), o)
  {
  }

  lemma TryQuiet(s: State, t: nat, h: nat, o: nat)
    requires Disciplined(s, t) && MovesNoValue(s, s.acts[t].pc) && IsTry(s.acts[t].pc)
    ensures Quiet(s, StepTry(s, t), h) && DeletesOnce(s, t, StepTry(s, t), o)
  {
  }

  lemma RefuseQuiet(s: State, t: nat, h: nat, o: nat)
    requires Disciplined(s, t) && MovesNoValue(s, s.acts[t].pc) && s.acts[t].pc.Decide? && !Accepts(s, s.acts[t].pc)
    ensures Quiet(s, StepDecide(s, t), h) && DeletesOnce(s, t, StepDecide(s, t), o)
  {
  }

  lemma AcceptQuiet(s: State, t: nat, h: nat, o: nat)
    requires Disciplined(s, t) && MovesNoValue(s, s.acts[t].pc) && s.acts[t].pc.Decide? && Accepts(s, s.acts[t].pc)
    ensures Quiet(s, StepDecide(s, t), h) && DeletesOnce(s, t, StepDecide(s, t), o)
  {
    assert s.recycle != [] ==> s.recycle == s.recycle[..|s.recycle| - 1] + [s.recycle[|s.recycle| - 1]];
  }

  lemma FillQuiet(s: State, t: nat, h: nat, o: nat)
    requires Disciplined(s, t) && MovesNoValue(s, s.acts[t].pc) && IsFill(s.acts[t].pc)
    ensures Quiet(s, StepFill(s, t), h) && DeletesOnce(s, t, StepFill(s, t), o)
  {
  }

  lemma FindQuiet(s: State, t: nat, h: nat, o: nat)
    requires Disciplined(s, t) && MovesNoValue(s, s.acts[t].pc) && (s.acts[t].pc.InsertFind? || s.acts[t].pc.EraseFind?)
    ensures Quiet(s, StepTable(s, t), h) && DeletesOnce(s, t, StepTable(s, t), o)
  {
  }

  lemma TableQuiet(s: State, t: nat, h: nat, o: nat)
    requires Disciplined(s, t) && MovesNoValue(s, s.acts[t].pc) &&
             (s.acts[t].pc.EvictErase? || s.acts[t].pc.InsertLink? || s.acts[t].pc.SweepClear?)
    ensures Quiet(s, StepTable(s, t), h) && DeletesOnce(s, t, StepTable(s, t), o)
  {
  }

  lemma UnsetQuiet(s: State, t: nat, h: nat, o: nat)
    requires Disciplined(s, t) && MovesNoValue(s, s.acts[t].pc) &&
             (s.acts[t].pc.InsertUnset? || s.acts[t].pc.EraseUnset?)
    ensures Quiet(s, StepUnset(s, t), h) && DeletesOnce(s, t, StepUnset(s, t), o)
  {
  }

  lemma SweepQuiet(s: State, t: nat, h: nat, o: nat)
    requires Disciplined(s, t) && MovesNoValue(s, s.acts[t].pc) && s.acts[t].pc.SweepUnset?
    ensures Quiet(s, StepUnset(s, t), h) && DeletesOnce(s, t, StepUnset(s, t), o)
  {
  }

  lemma ExitQuiet(s: State, t: nat, h: nat, o: nat)
    requires Disciplined(s, t) && MovesNoValue(s, s.acts[t].pc) && IsExit(s.acts[t].pc)
    ensures Quiet(s, StepExit(s, t), h) && DeletesOnce(s, t, StepExit(s, t), o)
  {
  }

  lemma StepQuiet(s: State, t: nat, c: Choice, h: nat, o: nat)
    requires Disciplined(s, t) && MovesNoValue(s, s.acts[t].pc)
    ensures Quiet(s, Step(s, t, c), h) && DeletesOnce(s, t, Step(s, t, c), o)
  {
    var pc := s.acts[t].pc;
    if pc.Idle? {
      IdleQuiet(s, t, c, h, o);
    } else if IsLookup(pc) {
      LookupQuiet(s, t, c, h, o);
    } else if IsUnref(pc) {
      UnrefQuiet(s, t, h, o);
    } else if IsLock(pc) {
      LockQuiet(s, t, h, o);
    } else if IsEvict(pc) {
      if pc.EvictMove? { MoveQuiet(s, t, h, o); } else { EvictQuiet(s, t, h, o); }
    } else if IsTry(pc) {
      TryQuiet(s, t, h, o);
    } else if pc.Decide? {
      if Accepts(s, pc) { AcceptQuiet(s, t, h, o); } else { RefuseQuiet(s, t, h, o); }
    } else if IsFill(pc) {
      FillQuiet(s, t, h, o);
    } else if IsTable(pc) {
      if pc.InsertFind? || pc.EraseFind? { FindQuiet(s, t, h, o); } else { TableQuiet(s, t, h, o); }
    } else if IsUnset(pc) {
      if pc.SweepUnset? { SweepQuiet(s, t, h, o); } else { UnsetQuiet(s, t, h, o); }
    } else {
      ExitQuiet(s, t, h, o);
    }
  }

  /** Total charges differ by the charges of the one handle that differs. */
  lemma {:induction false} TotalDiffersAt(s: State, s': State, n: nat, k: nat)
    requires n <= |s.handles| && n <= |s'.handles|
    requires forall h: nat :: h < n && h != k ==> ChargeOf(s', h) == ChargeOf(s, h)
    ensures k >= n ==> TotalCharge(s', n) == TotalCharge(s, n)
    ensures k < n ==> TotalCharge(s', n) + ChargeOf(s, k) == TotalCharge(s, n) + ChargeOf(s', k)
  {
    if n > 0 {
      TotalDiffersAt(s, s', n - 1, k);
    }
  }

  lemma QuietKeepsAccounts(s: State, s': State)
    requires |s.handles| <= |s'.handles| <= |s.handles| + 1
    requires forall h: nat :: h < |s'.handles| ==> Quiet(s, s', h)
    requires forall h: nat :: h < |s.handles| ==> SameEntry(s, s', h)
    requires Quiet(s, s', 0) && Accounting(s)
    ensures Accounting(s')
  {
    forall h: nat | h < |s.handles| ensures ChargeOf(s', h) == ChargeOf(s, h) {
      assert Quiet(s, s', h) && SameEntry(s, s', h);
    }
    TotalDiffersAt(s, s', |s.handles|, |s.handles|);
    if |s.handles| < |s'.handles| {
      assert Quiet(s, s', |s.handles|);
    }
  }

  lemma QuietKeepsValues(s: State, s': State)
    requires |s.handles| <= |s'.handles| <= |s.handles| + 1
    requires forall h: nat :: h < |s'.handles| ==> Quiet(s, s', h)
    requires forall h: nat :: h < |s.handles| ==> SameEntry(s, s', h)
    requires Quiet(s, s', 0) && Occupancies(s)
    ensures Occupancies(s')
  {
    forall h: nat, o: nat ensures Has(s', h, o) <==> Has(s, h, o) {
      if h < |s'.handles| {
        assert Quiet(s, s', h);
        assert h < |s.handles| ==> SameEntry(s, s', h);
      }
    }
    forall o: nat | o < s'.next && s'.retired[o] == 0 ensures exists h: nat :: Has(s', h, o) {
      var h: nat :| Has(s, h, o);
      assert Has(s', h, o);
    }
  }

  // ---- Filling a handle, recycling one, discarding a value ----

  lemma FillKeepsValues(s: State, t: nat)
    requires Disciplined(s, t) && s.acts[t].pc.InsertFill?
    requires Binned(s, s.acts[t].pc.h) == 0 && Occupancies(s)
    ensures Occupancies(StepFill(s, t))
  {
    var s' := StepFill(s, t);
    var k := s.acts[t].pc.h;
    forall h: nat, o: nat ensures Has(s', h, o) <==> (if h == k then o == s.next else Has(s, h, o)) {
    }
    forall o: nat | o < s'.next && s'.retired[o] == 0 ensures exists h: nat :: Has(s', h, o) {
      if o == s.next {
        assert Has(s', k, o);
      } else {
        var h: nat :| Has(s, h, o);
        assert Has(s', h, o);
      }
    }
  }

  lemma FillKeepsAccounts(s: State, t: nat)
    requires Disciplined(s, t) && s.acts[t].pc.InsertFill?
    requires Binned(s, s.acts[t].pc.h) == 0 && Accounting(s)
    ensures Accounting(StepFill(s, t))
  {
    TotalDiffersAt(s, StepFill(s, t), |s.handles|, s.acts[t].pc.h);
  }

  lemma RecycleKeepsValues(s: State, t: nat)
    requires Disciplined(s, t) && IsRecycle(s.acts[t].pc)
    requires Binned(s, Recycled(s.acts[t].pc)) == 0 && Occupancies(s)
    ensures Occupancies(StepRecycle(s, t))
  {
    var s' := StepRecycle(s, t);
    var k := Recycled(s.acts[t].pc);
    var gone := s.handles[k].occupancy;
    assert Has(s, k, gone);
    forall h: nat, o: nat ensures Has(s', h, o) <==> h != k && Has(s, h, o) {
    }
    forall o: nat | o < s'.next && s'.retired[o] == 0 ensures exists h: nat :: Has(s', h, o) {
      var h: nat :| Has(s, h, o);
      assert Has(s', h, o);
    }
  }

  lemma RecycleKeepsAccounts(s: State, t: nat)
    requires Disciplined(s, t) && IsRecycle(s.acts[t].pc)
    requires Binned(s, Recycled(s.acts[t].pc)) == 0 && Accounting(s)
    ensures Accounting(StepRecycle(s, t))
  {
    TotalDiffersAt(s, StepRecycle(s, t), |s.handles|, Recycled(s.acts[t].pc));
  }

  lemma DiscardKeepsValues(s: State, t: nat)
    requires Disciplined(s, t) && s.acts[t].pc.Decide? && Discards(s, s.acts[t].pc)
    requires Occupancies(s) && Accounting(s)
    ensures Occupancies(StepDecide(s, t)) && Accounting(StepDecide(s, t))
  {
    var s' := StepDecide(s, t);
    TotalDiffersAt(s, s', |s.handles|, |s.handles|);
    forall h: nat, o: nat ensures Has(s', h, o) <==> Has(s, h, o) {
    }
    forall o: nat | o < s'.next && s'.retired[o] == 0 ensures exists h: nat :: Has(s', h, o) {
      var h: nat :| Has(s, h, o);
      assert Has(s', h, o);
    }
  }

  lemma KeepsValuesQuietly(s: State, t: nat, c: Choice)
    requires Disciplined(s, t) && MovesNoValue(s, s.acts[t].pc)
    requires Occupancies(s) && Accounting(s)
    ensures Occupancies(Step(s, t, c)) && Accounting(Step(s, t, c))
  {
    var s' := Step(s, t, c);
    forall h: nat ensures Quiet(s, s', h) && (h < |s.handles| ==> SameEntry(s, s', h)) {
      StepQuiet(s, t, c, h, h);
      if h < |s.handles| {
        EntriesStay(s, t, c, h);
      }
    }
    QuietKeepsValues(s, s');
    QuietKeepsAccounts(s, s');
  }

  // ---- Room ----

  /** Usage and capacity change only inside the mutex, and an eviction reports success only after it
      has compared them. */
  lemma OutsideKeepsRoom(s: State, t: nat, c: Choice)
    requires Disciplined(s, t) && RoomOk(s) && !NeedsMutex(s.acts[t].pc)
    ensures RoomOk(Step(s, t, c))
  {
  }

  lemma EvictKeepsRoom(s: State, t: nat, c: Choice)
    requires Disciplined(s, t) && RoomOk(s) && IsEvict(s.acts[t].pc)
    ensures RoomOk(Step(s, t, c))
  {
  }

  lemma TryKeepsRoom(s: State, t: nat, c: Choice)
    requires Disciplined(s, t) && (IsTry(s.acts[t].pc) || s.acts[t].pc.Decide?)
    ensures RoomOk(Step(s, t, c))
  {
  }

  lemma FillKeepsRoom(s: State, t: nat, c: Choice)
    requires Disciplined(s, t) && IsFill(s.acts[t].pc)
    ensures RoomOk(Step(s, t, c))
  {
  }

  lemma TableKeepsRoom(s: State, t: nat, c: Choice)
    requires Disciplined(s, t) && (IsTable(s.acts[t].pc) || IsUnset(s.acts[t].pc))
    ensures RoomOk(Step(s, t, c))
  {
  }

  lemma RecycleKeepsRoom(s: State, t: nat, c: Choice)
    requires Disciplined(s, t) && (IsRecycle(s.acts[t].pc) || s.acts[t].pc.Unlock?)
    ensures RoomOk(Step(s, t, c))
  {
  }

  lemma KeepsRoom(s: State, t: nat, c: Choice)
    requires Disciplined(s, t) && RoomOk(s)
    ensures RoomOk(Step(s, t, c))
  {
    if !NeedsMutex(s.acts[t].pc) {
      OutsideKeepsRoom(s, t, c);
    } else if IsEvict(s.acts[t].pc) {
      EvictKeepsRoom(s, t, c);
    } else if IsTable(s.acts[t].pc) || IsUnset(s.acts[t].pc) {
      TableKeepsRoom(s, t, c);
    } else if IsRecycle(s.acts[t].pc) || s.acts[t].pc.Unlock? {
      RecycleKeepsRoom(s, t, c);
    } else if IsFill(s.acts[t].pc) {
      FillKeepsRoom(s, t, c);
    } else {
      TryKeepsRoom(s, t, c);
    }
  }

  // ---- All steps ----

  lemma FillKeeps(s: State, t: nat, c: Choice)
    requires Disciplined(s, t) && s.acts[t].pc.InsertFill?
    requires Ownership(s) && Occupancies(s) && Accounting(s)
    ensures Occupancies(Step(s, t, c)) && Accounting(Step(s, t, c))
  {
    CountAtLeast(s.acts, t, s.acts[t].pc.h);
    FillKeepsValues(s, t);
    FillKeepsAccounts(s, t);
  }

  lemma RecycleKeeps(s: State, t: nat, c: Choice)
    requires Disciplined(s, t) && IsRecycle(s.acts[t].pc)
    requires Ownership(s) && Occupancies(s) && Accounting(s)
    ensures Occupancies(Step(s, t, c)) && Accounting(Step(s, t, c))
  {
    CountAtLeast(s.acts, t, Recycled(s.acts[t].pc));
    RecycleKeepsValues(s, t);
    RecycleKeepsAccounts(s, t);
  }

  lemma KeepsValues(s: State, t: nat, c: Choice)
    requires Disciplined(s, t) && Ownership(s) && Occupancies(s) && Accounting(s)
    ensures Occupancies(Step(s, t, c)) && Accounting(Step(s, t, c))
  {
    var pc := s.acts[t].pc;
    if pc.InsertFill? {
      FillKeeps(s, t, c);
    } else if IsRecycle(pc) {
      RecycleKeeps(s, t, c);
    } else if pc.Decide? && Discards(s, pc) {
      DiscardKeepsValues(s, t);
    } else {
      KeepsValuesQuietly(s, t, c);
    }
  }

  // ---- Deleters ----

  lemma FillDeletes(s: State, t: nat, o: nat)
    requires CanStep(s, t) && s.acts[t].pc.InsertFill?
    ensures DeletesOnce(s, t, StepFill(s, t), o)
  {
  }

  lemma RecycleDeletes(s: State, t: nat, o: nat)
    requires CanStep(s, t) && IsRecycle(s.acts[t].pc)
    ensures DeletesOnce(s, t, StepRecycle(s, t), o)
  {
  }

  lemma DiscardDeletes(s: State, t: nat, o: nat)
    requires CanStep(s, t) && s.acts[t].pc.Decide?
    ensures DeletesOnce(s, t, StepDecide(s, t), o)
  {
  }

  lemma StepDeletes(s: State, t: nat, c: Choice, o: nat)
    requires Disciplined(s, t)
    ensures DeletesOnce(s, t, Step(s, t, c), o)
  {
    var pc := s.acts[t].pc;
    if pc.InsertFill? {
      FillDeletes(s, t, o);
    } else if IsRecycle(pc) {
      RecycleDeletes(s, t, o);
    } else if pc.Decide? {
      DiscardDeletes(s, t, o);
    } else {
      StepQuiet(s, t, c, 0, o);
    }
  }

  lemma KeepsDeletions(s: State, t: nat, c: Choice)
    requires Disciplined(s, t) && Deletions(s)
    ensures Deletions(Step(s, t, c))
  {
    var s' := Step(s, t, c);
    forall o: nat ensures Pending(s'.acts, o) + s'.deleted[o] == s'.retired[o] {
      StepDeletes(s, t, c, o);
      CountUpdate(s.acts, t, s'.acts[t], o);
    }
  }
}
