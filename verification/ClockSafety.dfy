/** Safety of the CLOCK shard over every interleaving. */
module ClockSafety {
  import opened Wrappers
  import opened ClockState
  import opened ClockInvariant
  import opened ClockKnowledge
  import opened ClockValues
  import ClockOwnership
  import ClockTable

  // ---- The invariant is inductive ----

  lemma InvGrounds(s: State)
    requires Inv(s)
    ensures Grounded(s)
  {
    forall i | 0 <= i < |s.recycle| ensures s.recycle[i] < |s.handles| {
      assert Owners(s.acts, s.recycle[i]) + Binned(s, s.recycle[i]) == One(DeadAt(s, s.recycle[i]));
    }
    if Filled(Inside(s)) {
      assert Points(s.acts[s.owner.value].pc, |s.handles|);
    }
  }

  lemma StepKeepsInv(s: State, t: nat, c: Choice)
    requires Inv(s) && t < |s.acts|
    ensures CanStep(s, t) && Inv(Step(s, t, c))
  {
    ClockOwnership.StepAllowed(s, t);
    InvGrounds(s);
    KeepsShape(s, t, c);
    ClockOwnership.KeepsCounts(s, t, c);
    KeepsKnowledge(s, t, c);
    ClockTable.KeepsTables(s, t, c);
    KeepsValues(s, t, c);
    KeepsDeletions(s, t, c);
    KeepsRoom(s, t, c);
  }

  lemma {:induction false} NobodyYet(n: nat, h: nat)
    ensures var acts := seq(n, _ => Activity(Idle, multiset{}));
      Owners(acts, h) == 0 && Holders(acts, h) == 0 && Pending(acts, h) == 0
  {
    if n > 0 {
      NobodyYet(n - 1, h);
      assert seq(n, _ => Activity(Idle, multiset{}))[1..] == seq(n - 1, _ => Activity(Idle, multiset{}));
    }
  }

  lemma InitKeepsInv(n: nat, capacity: nat)
    ensures Inv(Init(n, capacity))
  {
    forall h: nat
      ensures Owners(Init(n, capacity).acts, h) == 0
      ensures Holders(Init(n, capacity).acts, h) == 0 && Pending(Init(n, capacity).acts, h) == 0
    {
      NobodyYet(n, h);
    }
  }

  /** A run: from the empty shard, any activity may take the next step, with any choice. */
  ghost predicate IsRun(run: seq<State>, schedule: seq<(nat, Choice)>) {
    && |run| == |schedule| + 1
    && (exists n: nat, capacity: nat :: run[0] == Init(n, capacity))
    && (forall i :: 0 <= i < |schedule| ==> schedule[i].0 < |run[i].acts|)
    && (forall i :: 0 <= i < |schedule| && CanStep(run[i], schedule[i].0) ==>
          run[i + 1] == Step(run[i], schedule[i].0, schedule[i].1))
  }

  /** Every run keeps the invariant, and no activity ever points outside the list or drops a
      reference that is not there. */
  lemma {:induction false} EveryRunIsSafe(run: seq<State>, schedule: seq<(nat, Choice)>, i: nat)
    requires IsRun(run, schedule) && i < |run|
    ensures Inv(run[i])
    ensures forall t: nat :: t < |run[i].acts| ==> CanStep(run[i], t)
  {
    if i == 0 {
      var n: nat, capacity: nat :| run[0] == Init(n, capacity);
      InitKeepsInv(n, capacity);
    } else {
      EveryRunIsSafe(run, schedule, i - 1);
      StepKeepsInv(run[i - 1], schedule[i - 1].0, schedule[i - 1].1);
    }
    forall t: nat | t < |run[i].acts| ensures CanStep(run[i], t) {
      ClockOwnership.StepAllowed(run[i], t);
    }
  }

  // ---- What it means ----

  /** A referenced handle is live, so its value has not been given up. */
  lemma ReferencedIsLive(s: State, t: nat, h: nat)
    requires Inv(s) && t < |s.acts| && HasRef(s.acts[t].pc, h)
    ensures h < |s.handles| && s.handles[h].flags.refs > 0 && !Vacant(s, h)
    ensures s.retired[s.handles[h].occupancy] == 0
  {
    CountAtLeast(s.acts, t, h);
    if Inside(s).InsertFill? && Inside(s).h == h {
      CountAtLeast(s.acts, s.owner.value, h);
    }
    assert Has(s, h, s.handles[h].occupancy);
  }

  /** While a caller holds a handle, it has the key that was asked for and the value that was found,
      and nobody deletes that value or is about to. */
  lemma HeldValueIsAlive(s: State, t: nat, u: nat)
    requires Inv(s) && t < |s.acts| && u < |s.acts| && s.acts[t].pc.Holding?
    ensures var tok := s.acts[t].pc.tok;
      && TokenFits(s, tok)
      && s.deleted[tok.occupancy] == 0
      && s.acts[u].toDelete[tok.occupancy] == 0
  {
    var tok := s.acts[t].pc.tok;
    assert Knows(s, s.acts[t].pc);
    ReferencedIsLive(s, t, tok.h);
    assert Pending(s.acts, tok.occupancy) + s.deleted[tok.occupancy] == s.retired[tok.occupancy];
    CountAtLeast(s.acts, u, tok.occupancy);
  }

  /** The activity that steps is not this one: its program point stays. */
  lemma OthersStand(s: State, t: nat, u: nat, c: Choice)
    requires CanStep(s, u) && t < |s.acts| && t != u
    ensures t < |Step(s, u, c).acts| && Step(s, u, c).acts[t] == s.acts[t]
  {
  }

  /** The activity is looking up `key`, or holds what it has found for it, if anything. */
  predicate Answering(pc: Pc, key: CacheKey) {
    (IsLookup(pc) ==> pc.key == key) && (pc.Holding? ==> pc.tok.key == key)
  }

  /** A lookup that hands out a handle hands it out for the key it was asked for. */
  lemma LookupAnswers(s: State, t: nat, c: Choice)
    requires CanStep(s, t) && IsLookup(s.acts[t].pc)
    ensures Answering(StepLookup(s, t, c).acts[t].pc, s.acts[t].pc.key)
  {
  }

  lemma AnswersStill(s: State, t: nat, u: nat, c: Choice, key: CacheKey)
    requires CanStep(s, u) && t < |s.acts| && Answering(s.acts[t].pc, key) && (u == t ==> IsLookup(s.acts[t].pc))
    ensures t < |Step(s, u, c).acts| && Answering(Step(s, u, c).acts[t].pc, key)
  {
    if u == t {
      LookupAnswers(s, t, c);
      assert Step(s, t, c) == StepLookup(s, t, c);
    } else {
      OthersStand(s, t, u, c);
    }
  }

  lemma RunSteps(run: seq<State>, schedule: seq<(nat, Choice)>, i: nat)
    requires IsRun(run, schedule) && i < |schedule|
    ensures CanStep(run[i], schedule[i].0) && run[i + 1] == Step(run[i], schedule[i].0, schedule[i].1)
  {
    EveryRunIsSafe(run, schedule, i);
  }

  lemma {:induction false} LookupGoesOn(run: seq<State>, schedule: seq<(nat, Choice)>, i: nat, j: nat, t: nat)
    requires IsRun(run, schedule) && i <= j < |run|
    requires t < |run[i].acts| && IsLookup(run[i].acts[t].pc)
    requires forall m :: i <= m < j && schedule[m].0 == t ==> t < |run[m].acts| && IsLookup(run[m].acts[t].pc)
    ensures t < |run[j].acts| && Answering(run[j].acts[t].pc, run[i].acts[t].pc.key)
  {
    if i < j {
      LookupGoesOn(run, schedule, i, j - 1, t);
      RunSteps(run, schedule, j - 1);
      AnswersStill(run[j - 1], t, schedule[j - 1].0, schedule[j - 1].1, run[i].acts[t].pc.key);
    }
  }

  /** Lookup, over whole runs: whatever others do between the steps, however often handles are reused,
      the call goes on asking for its key, and from the step that hands out a handle until its Release
      that handle has this key and the value that was found, whose deleter has not run. */
  lemma LookupFindsItsKey(run: seq<State>, schedule: seq<(nat, Choice)>, i: nat, j: nat, t: nat)
    requires IsRun(run, schedule) && i <= j < |run|
    requires t < |run[i].acts| && IsLookup(run[i].acts[t].pc)
    requires forall m :: i <= m < j && schedule[m].0 == t ==> t < |run[m].acts| && IsLookup(run[m].acts[t].pc)
    ensures t < |run[j].acts| && Answering(run[j].acts[t].pc, run[i].acts[t].pc.key)
    ensures run[j].acts[t].pc.Holding? ==>
      TokenFits(run[j], run[j].acts[t].pc.tok) && run[j].deleted[run[j].acts[t].pc.tok.occupancy] == 0
  {
    LookupGoesOn(run, schedule, i, j, t);
    EveryRunIsSafe(run, schedule, j);
    if run[j].acts[t].pc.Holding? {
      HeldValueIsAlive(run[j], t, t);
    }
  }

  /** RecycleHandle's assertion: only dead handles are recycled, and never one that is in the bin or
      whose value was given up before. */
  lemma RecyclesDeadHandlesOnce(s: State, t: nat)
    requires Inv(s) && t < |s.acts| && IsRecycle(s.acts[t].pc)
    ensures var h := Recycled(s.acts[t].pc);
      && h < |s.handles|
      && !s.handles[h].flags.inCache && s.handles[h].flags.refs == 0
      && h !in s.recycle
      && s.retired[s.handles[h].occupancy] == 0
  {
    var h := Recycled(s.acts[t].pc);
    CountAtLeast(s.acts, t, h);
    assert Has(s, h, s.handles[h].occupancy);
  }

  /** The assertions of TryEvict and EvictFromCache: the table has the evicted key, and the position
      is inside the list. */
  lemma EvictionAsserts(run: seq<State>, schedule: seq<(nat, Choice)>, i: nat, t: nat)
    requires IsRun(run, schedule) && i < |run| && t < |run[i].acts|
    ensures var s, pc := run[i], run[i].acts[t].pc;
      && (pc.EvictErase? ==>
            pc.i < |s.handles| && s.handles[pc.i].key in s.table && s.table[s.handles[pc.i].key] == pc.i)
      && (pc.EvictTest? ==> pc.i < |s.handles|)
  {
    EveryRunIsSafe(run, schedule, i);
  }

  /** At every point of every run, every value inserted so far is in exactly one handle, or waits in
      exactly one call for its deleter, or its deleter has run once. */
  lemma ValuesAreConserved(run: seq<State>, schedule: seq<(nat, Choice)>, i: nat, o: nat)
    requires IsRun(run, schedule) && i < |run| && o < run[i].next
    ensures (exists h: nat :: Has(run[i], h, o)) <==> Pending(run[i].acts, o) + run[i].deleted[o] == 0
    ensures Pending(run[i].acts, o) + run[i].deleted[o] <= 1
    ensures forall h: nat, k: nat :: Has(run[i], h, o) && Has(run[i], k, o) ==> h == k
  {
    EveryRunIsSafe(run, schedule, i);
    assert Pending(run[i].acts, o) + run[i].deleted[o] == run[i].retired[o];
  }

  /** Whenever the mutex is free, in any run: the usage is the total charge of the handles that hold a
      value, and the table lists exactly the handles in the cache. */
  lemma AgreesWhenUnlocked(run: seq<State>, schedule: seq<(nat, Choice)>, i: nat)
    requires IsRun(run, schedule) && i < |run| && run[i].owner == None
    ensures run[i].usage == TotalCharge(run[i], |run[i].handles|)
    ensures forall h: nat :: Vacant(run[i], h) <==> h in run[i].recycle
    ensures forall h: nat :: h < |run[i].handles| ==> (run[i].handles[h].flags.inCache <==> Linked(run[i], h))
    ensures forall k :: k in run[i].table ==>
              run[i].table[k] < |run[i].handles| && run[i].handles[run[i].table[k]].key == k
  {
    EveryRunIsSafe(run, schedule, i);
  }

  lemma {:induction false} TotalAtLeast(s: State, n: nat, h: nat)
    requires h < n <= |s.handles|
    ensures TotalCharge(s, n) >= ChargeOf(s, h)
  {
    if h < n - 1 {
      TotalAtLeast(s, n - 1, h);
    }
  }

  /** The usage, an unsigned number in the original, is never negative: not even while an entry is in
      its handle but not in the usage yet. */
  lemma UsageIsNotNegative(s: State)
    requires Inv(s)
    ensures s.usage >= 0
  {
    var pc := Inside(s);
    if Filled(pc) {
      assert Knows(s, s.acts[s.owner.value].pc);
      CountAtLeast(s.acts, s.owner.value, pc.h);
      assert Owners(s.acts, pc.h) + Binned(s, pc.h) == One(DeadAt(s, pc.h));
      TotalAtLeast(s, |s.handles|, pc.h);
    }
  }

  /** When EvictFromCache reports success, there is room, whatever others have done meanwhile. */
  lemma SuccessMeansRoom(run: seq<State>, schedule: seq<(nat, Choice)>, i: nat, t: nat)
    requires IsRun(run, schedule) && i < |run| && t < |run[i].acts|
    requires run[i].acts[t].pc.Decide? && run[i].acts[t].pc.success
    ensures run[i].usage + EvictCharge(run[i].acts[t].pc.purpose) <= run[i].capacity
  {
    EveryRunIsSafe(run, schedule, i);
    assert NeedsMutex(run[i].acts[t].pc);
  }

  lemma {:induction false} NoneOwn(acts: seq<Activity>, h: nat)
    requires forall t :: 0 <= t < |acts| ==> acts[t].pc.Idle?
    ensures Owners(acts, h) == 0 && Holders(acts, h) == 0
  {
    if acts != [] {
      NoneOwn(acts[1..], h);
    }
  }

  /** When no call is running and no reference is held, every handle is in the cache or in the
      recycle bin: nothing leaks. */
  lemma NothingLeaks(s: State, h: nat)
    requires Inv(s) && h < |s.handles|
    requires forall t :: 0 <= t < |s.acts| ==> s.acts[t].pc.Idle?
    ensures s.handles[h].flags.refs == 0
    ensures s.handles[h].flags.inCache <==> h !in s.recycle
    ensures Linked(s, h) <==> h !in s.recycle
  {
    NoneOwn(s.acts, h);
    assert Owners(s.acts, h) + Binned(s, h) == One(DeadAt(s, h));
    assert Holders(s.acts, h) == RefsAt(s, h);
  }
}
