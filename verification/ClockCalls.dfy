/** What the calls on the CLOCK shard achieve, over every interleaving: stated of the state in which a
    call starts, the states it passes and the state in which it returns. */
module ClockCalls {
  import opened Wrappers
  import opened ClockState
  import opened ClockInvariant
  import opened ClockSafety

  // ---- Calls ----

  /** Between calls: an activity that does nothing, or holds a reference. */
  predicate Resting(pc: Pc) {
    pc.Idle? || pc.Holding?
  }

  /** Activity `t` starts a call with the step from state `i` and is back from it in state `j`. */
  ghost predicate Call(run: seq<State>, schedule: seq<(nat, Choice)>, t: nat, i: nat, j: nat) {
    && IsRun(run, schedule) && i < j < |run| && schedule[i].0 == t
    && (forall m :: i <= m <= j ==> t < |run[m].acts|)
    && Resting(run[i].acts[t].pc) && Resting(run[j].acts[t].pc)
    && (forall m :: i < m < j ==> !Resting(run[m].acts[t].pc))
  }

  lemma UnrefGoesOn(s: State, t: nat)
    requires CanStep(s, t) && IsUnref(s.acts[t].pc)
    ensures !Resting(StepUnref(s, t).acts[t].pc)
  {
  }

  lemma LockGoesOn(s: State, t: nat)
    requires CanStep(s, t) && IsLock(s.acts[t].pc)
    ensures !Resting(StepLock(s, t).acts[t].pc)
  {
  }

  lemma EvictGoesOn(s: State, t: nat)
    requires CanStep(s, t) && IsEvict(s.acts[t].pc)
    ensures !Resting(StepEvict(s, t).acts[t].pc)
  {
  }

  lemma TryGoesOn(s: State, t: nat)
    requires CanStep(s, t) && IsTry(s.acts[t].pc)
    ensures !Resting(StepTry(s, t).acts[t].pc)
  {
  }

  lemma DecideGoesOn(s: State, t: nat)
    requires CanStep(s, t) && s.acts[t].pc.Decide?
    ensures !Resting(StepDecide(s, t).acts[t].pc)
  {
  }

  lemma FillGoesOn(s: State, t: nat)
    requires CanStep(s, t) && IsFill(s.acts[t].pc)
    ensures !Resting(StepFill(s, t).acts[t].pc)
  {
  }

  lemma TableGoesOn(s: State, t: nat)
    requires CanStep(s, t) && IsTable(s.acts[t].pc)
    ensures !Resting(StepTable(s, t).acts[t].pc)
  {
  }

  lemma UnsetGoesOn(s: State, t: nat)
    requires CanStep(s, t) && IsUnset(s.acts[t].pc)
    ensures !Resting(StepUnset(s, t).acts[t].pc)
  {
  }

  lemma RecycleGoesOn(s: State, t: nat)
    requires CanStep(s, t) && IsRecycle(s.acts[t].pc)
    ensures !Resting(StepRecycle(s, t).acts[t].pc)
  {
  }

  /** A call ends by running its deleters, or by a lookup that hands out its handle. */
  lemma GoesOn(s: State, t: nat, c: Choice)
    requires CanStep(s, t) && !Resting(s.acts[t].pc) && !s.acts[t].pc.Cleanup? && !IsLookup(s.acts[t].pc)
    ensures !Resting(Step(s, t, c).acts[t].pc)
  {
    var pc := s.acts[t].pc;
    if IsUnref(pc) {
      UnrefGoesOn(s, t);
    } else if IsLock(pc) {
      LockGoesOn(s, t);
    } else if IsEvict(pc) {
      EvictGoesOn(s, t);
    } else if IsTry(pc) {
      TryGoesOn(s, t);
    } else if pc.Decide? {
      DecideGoesOn(s, t);
    } else if IsFill(pc) {
      FillGoesOn(s, t);
    } else if IsTable(pc) {
      TableGoesOn(s, t);
    } else if IsUnset(pc) {
      UnsetGoesOn(s, t);
    } else if IsRecycle(pc) {
      RecycleGoesOn(s, t);
    } else {
      LeavesMutex(s, t, c);
    }
  }

  lemma LeavesMutex(e: State, t: nat, c: Choice)
    requires CanStep(e, t) && e.acts[t].pc.Unlock?
    ensures Step(e, t, c).acts[t].pc == Cleanup(e.acts[t].pc.ret)
  {
    assert Step(e, t, c) == StepExit(e, t);
  }

  lemma Returns(e: State, t: nat, c: Choice)
    requires CanStep(e, t) && e.acts[t].pc.Cleanup?
    ensures var ret := e.acts[t].pc.ret; Step(e, t, c).acts[t].pc == if ret.Some? then Holding(ret.value) else Idle
  {
    assert Step(e, t, c) == StepExit(e, t);
  }

  lemma OnlyOwnSteps(run: seq<State>, schedule: seq<(nat, Choice)>, m: nat, t: nat)
    requires IsRun(run, schedule) && m < |schedule| && t < |run[m].acts|
    ensures t < |run[m + 1].acts| && (schedule[m].0 != t ==> run[m + 1].acts[t] == run[m].acts[t])
  {
    RunSteps(run, schedule, m);
    if schedule[m].0 != t {
      OthersStand(run[m], t, schedule[m].0, schedule[m].1);
    }
  }

  /** The step that brings a call to its end. */
  lemma CallEnds(run: seq<State>, schedule: seq<(nat, Choice)>, t: nat, m: nat)
    requires IsRun(run, schedule) && m < |schedule| && t < |run[m].acts| && t < |run[m + 1].acts|
    requires !Resting(run[m].acts[t].pc) && Resting(run[m + 1].acts[t].pc)
    ensures run[m].acts[t].pc.Cleanup? || IsLookup(run[m].acts[t].pc)
    ensures run[m].acts[t].pc.Cleanup? ==>
      var ret := run[m].acts[t].pc.ret; run[m + 1].acts[t].pc == if ret.Some? then Holding(ret.value) else Idle
  {
    RunSteps(run, schedule, m);
    OnlyOwnSteps(run, schedule, m, t);
    EndStep(run[m], t, schedule[m].1);
  }

  lemma EndStep(s: State, t: nat, c: Choice)
    requires CanStep(s, t) && !Resting(s.acts[t].pc) && Resting(Step(s, t, c).acts[t].pc)
    ensures s.acts[t].pc.Cleanup? || IsLookup(s.acts[t].pc)
    ensures s.acts[t].pc.Cleanup? ==>
      var ret := s.acts[t].pc.ret; Step(s, t, c).acts[t].pc == if ret.Some? then Holding(ret.value) else Idle
  {
    if s.acts[t].pc.Cleanup? {
      Returns(s, t, c);
    } else if !IsLookup(s.acts[t].pc) {
      GoesOn(s, t, c);
    }
  }

  // ---- Lookup ----

  /** The table leads from `key` to handle `h`, which is in the cache and holds the value `o`. */
  predicate Resident(s: State, key: CacheKey, h: nat, o: nat) {
    key in s.table && s.table[key] == h && InCache(s, h) && s.handles[h].occupancy == o
  }

  /** A lookup of `key` on its way to success. */
  predicate Finding(pc: Pc, key: CacheKey, h: nat) {
    && IsLookup(pc) && pc.key == key && pc.h == h
    && (pc.LookupCas? ==> pc.seen.inCache)
  }

  lemma LookupStarts(s: State, t: nat, key: CacheKey)
    requires CanStep(s, t) && s.acts[t].pc.Idle?
    ensures key in s.table ==> Finding(Step(s, t, DoLookup(key)).acts[t].pc, key, s.table[key])
    ensures key !in s.table ==> Step(s, t, DoLookup(key)) == s
  {
    assert Step(s, t, DoLookup(key)) == StepIdle(s, t, DoLookup(key));
  }

  /** A lookup that is not the one about to hand out the handle. */
  lemma LookupRefs(s: State, t: nat, c: Choice, key: CacheKey, h: nat)
    requires CanStep(s, t) && Finding(s.acts[t].pc, key, h) && InCache(s, h) && !s.acts[t].pc.LookupCheck?
    ensures Finding(StepLookup(s, t, c).acts[t].pc, key, h)
  {
  }

  lemma LookupChecks(s: State, t: nat, c: Choice, key: CacheKey, h: nat)
    requires CanStep(s, t) && Finding(s.acts[t].pc, key, h) && InCache(s, h) && s.acts[t].pc.LookupCheck?
    requires s.handles[h].key == key
    ensures StepLookup(s, t, c).acts[t].pc == Holding(Token(h, key, s.handles[h].occupancy))
  {
  }

  /** The lookup is still on its way, or it has the handle. */
  predicate FindingOrFound(pc: Pc, key: CacheKey, h: nat, o: nat) {
    Finding(pc, key, h) || pc == Holding(Token(h, key, o))
  }

  lemma LookupMoves(s: State, t: nat, u: nat, c: Choice, key: CacheKey, h: nat, o: nat)
    requires Inv(s) && CanStep(s, u) && t < |s.acts| && Finding(s.acts[t].pc, key, h) && Resident(s, key, h, o)
    ensures FindingOrFound(Step(s, u, c).acts[t].pc, key, h, o)
  {
    if u == t {
      assert TableOk(s) && s.handles[h].key == key;
      assert Step(s, t, c) == StepLookup(s, t, c);
      if s.acts[t].pc.LookupCheck? {
        LookupChecks(s, t, c, key, h);
      } else {
        LookupRefs(s, t, c, key, h);
      }
    } else {
      OthersStand(s, t, u, c);
    }
  }

  lemma LookupFirst(run: seq<State>, schedule: seq<(nat, Choice)>, t: nat, i: nat, key: CacheKey)
    requires IsRun(run, schedule) && i < |schedule| && schedule[i] == (t, DoLookup(key))
    requires t < |run[i].acts| && run[i].acts[t].pc.Idle? && key in run[i].table
    ensures t < |run[i + 1].acts| && Finding(run[i + 1].acts[t].pc, key, run[i].table[key])
  {
    RunSteps(run, schedule, i);
    LookupStarts(run[i], t, key);
  }

  lemma LookupNext(run: seq<State>, schedule: seq<(nat, Choice)>, t: nat, m: nat, key: CacheKey, h: nat, o: nat)
    requires IsRun(run, schedule) && m < |schedule|
    requires t < |run[m].acts| && Finding(run[m].acts[t].pc, key, h) && Resident(run[m], key, h, o)
    ensures t < |run[m + 1].acts| && FindingOrFound(run[m + 1].acts[t].pc, key, h, o)
  {
    RunSteps(run, schedule, m);
    EveryRunIsSafe(run, schedule, m);
    LookupMoves(run[m], t, schedule[m].0, schedule[m].1, key, h, o);
  }

  lemma {:induction false} LookupFinds(run: seq<State>, schedule: seq<(nat, Choice)>, t: nat, i: nat, j: nat, m: nat,
                                       key: CacheKey, h: nat, o: nat)
    requires Call(run, schedule, t, i, j) && i < m <= j
    requires run[i].acts[t].pc.Idle? && schedule[i].1 == DoLookup(key)
    requires forall k :: i <= k < j ==> Resident(run[k], key, h, o)
    ensures FindingOrFound(run[m].acts[t].pc, key, h, o)
    decreases m
  {
    if m == i + 1 {
      LookupFirst(run, schedule, t, i, key);
    } else {
      LookupFinds(run, schedule, t, i, j, m - 1, key, h, o);
      LookupNext(run, schedule, t, m - 1, key, h, o);
    }
  }

  /** A lookup finds what is there: if from its start until it returns the key leads to the same handle,
      in the cache with the same value, the call returns that handle for that key. So a miss means that
      in some state in between the key was not in the table, or its entry was on its way out. */
  lemma LookupCall(run: seq<State>, schedule: seq<(nat, Choice)>, t: nat, i: nat, j: nat, key: CacheKey, h: nat, o: nat)
    requires Call(run, schedule, t, i, j)
    requires run[i].acts[t].pc.Idle? && schedule[i].1 == DoLookup(key)
    requires forall k :: i <= k < j ==> Resident(run[k], key, h, o)
    ensures run[j].acts[t].pc == Holding(Token(h, key, o))
  {
    LookupFinds(run, schedule, t, i, j, j, key, h, o);
  }

  // ---- Under the mutex ----

  /** What only the activity inside the mutex may change is the same. */
  ghost predicate Kept(s: State, s': State) {
    && s'.table == s.table && s'.usage == s.usage && s'.capacity == s.capacity && s'.head == s.head
    && s'.next == s.next && s'.recycle == s.recycle && s'.owner == s.owner && |s'.handles| == |s.handles|
    && forall h :: 0 <= h < |s.handles| ==> SameEntry(s.handles[h], s'.handles[h])
  }

  predicate SameEntry(e: Handle, e': Handle) {
    e'.key == e.key && e'.charge == e.charge && e'.occupancy == e.occupancy && e'.flags.inCache == e.flags.inCache
  }

  lemma IdleKeeps(s: State, u: nat, c: Choice)
    requires CanStep(s, u) && s.acts[u].pc.Idle?
    ensures Kept(s, StepIdle(s, u, c))
  {
  }

  lemma LookupKeeps(s: State, u: nat, c: Choice)
    requires CanStep(s, u) && IsLookup(s.acts[u].pc)
    ensures Kept(s, StepLookup(s, u, c))
  {
  }

  lemma UnrefKeeps(s: State, u: nat)
    requires CanStep(s, u) && IsUnref(s.acts[u].pc)
    ensures Kept(s, StepUnref(s, u))
  {
  }

  lemma ExitKeeps(s: State, u: nat)
    requires CanStep(s, u) && IsExit(s.acts[u].pc) && !s.acts[u].pc.Unlock?
    ensures Kept(s, StepExit(s, u))
  {
  }

  /** While somebody is inside the mutex nobody else changes what it guards. */
  lemma OutsideKeeps(s: State, t: nat, u: nat, c: Choice)
    requires Inv(s) && CanStep(s, u) && s.owner == Some(t) && u != t
    ensures Kept(s, Step(s, u, c)) && t < |s.acts| && Step(s, u, c).acts[t] == s.acts[t]
  {
    var pc := s.acts[u].pc;
    assert t < |s.acts| && !NeedsMutex(pc);
    OthersStand(s, t, u, c);
    if pc.Idle? {
      IdleKeeps(s, u, c);
    } else if IsLookup(pc) {
      LookupKeeps(s, u, c);
    } else if IsUnref(pc) {
      UnrefKeeps(s, u);
    } else if IsLock(pc) {
      assert Step(s, u, c) == StepLock(s, u) == s;
    } else {
      ExitKeeps(s, u);
    }
  }

  // ---- The entry in a handle ----

  lemma OutsideFits(s: State, u: nat, c: Choice, tok: Token)
    requires CanStep(s, u) && TokenFits(s, tok) && !NeedsMutex(s.acts[u].pc)
    ensures TokenFits(Step(s, u, c), tok)
  {
  }

  lemma EvictFits(s: State, u: nat, c: Choice, tok: Token)
    requires CanStep(s, u) && TokenFits(s, tok) && (IsEvict(s.acts[u].pc) || IsTry(s.acts[u].pc))
    ensures TokenFits(Step(s, u, c), tok)
  {
  }

  lemma TableFits(s: State, u: nat, c: Choice, tok: Token)
    requires CanStep(s, u) && TokenFits(s, tok) && (s.acts[u].pc.Decide? || IsTable(s.acts[u].pc))
    ensures TokenFits(Step(s, u, c), tok)
  {
  }

  lemma FillFits(s: State, u: nat, c: Choice, tok: Token)
    requires CanStep(s, u) && TokenFits(s, tok) && !Owns(s.acts[u].pc, tok.h)
    requires IsFill(s.acts[u].pc) || IsUnset(s.acts[u].pc)
    ensures TokenFits(Step(s, u, c), tok)
  {
  }

  lemma RecycleFits(s: State, u: nat, c: Choice, tok: Token)
    requires CanStep(s, u) && TokenFits(s, tok) && !Owns(s.acts[u].pc, tok.h)
    requires IsRecycle(s.acts[u].pc) || s.acts[u].pc.Unlock?
    ensures TokenFits(Step(s, u, c), tok)
  {
  }

  /** Key and value of a handle change only by an activity that is alone responsible for it. */
  lemma StillFits(s: State, u: nat, c: Choice, tok: Token)
    requires CanStep(s, u) && TokenFits(s, tok) && !Owns(s.acts[u].pc, tok.h)
    ensures TokenFits(Step(s, u, c), tok)
  {
    var pc := s.acts[u].pc;
    if !NeedsMutex(pc) {
      OutsideFits(s, u, c, tok);
    } else if IsEvict(pc) || IsTry(pc) {
      EvictFits(s, u, c, tok);
    } else if pc.Decide? || IsTable(pc) {
      TableFits(s, u, c, tok);
    } else if IsFill(pc) || IsUnset(pc) {
      FillFits(s, u, c, tok);
    } else {
      RecycleFits(s, u, c, tok);
    }
  }

  lemma {:induction false} TwoOwners(acts: seq<Activity>, t: nat, u: nat, h: nat)
    requires t < u < |acts|
    ensures Owners(acts, h) >= One(Owns(acts[t].pc, h)) + One(Owns(acts[u].pc, h))
    decreases |acts|
  {
    if t > 0 {
      TwoOwners(acts[1..], t - 1, u - 1, h);
    } else {
      CountAtLeast(acts[1..], u - 1, h);
    }
  }

  /** Nobody else is responsible for a handle that this activity has a reference to, or owns. */
  lemma NobodyElseOwns(s: State, t: nat, u: nat, h: nat)
    requires Inv(s) && t < |s.acts| && u < |s.acts| && t != u && (HasRef(s.acts[t].pc, h) || Owns(s.acts[t].pc, h))
    ensures !Owns(s.acts[u].pc, h)
  {
    assert Owners(s.acts, h) + Binned(s, h) == One(DeadAt(s, h));
    CountAtLeast(s.acts, u, h);
    if HasRef(s.acts[t].pc, h) {
      CountAtLeast(s.acts, t, h);
      assert Holders(s.acts, h) == RefsAt(s, h);
    } else if t < u {
      TwoOwners(s.acts, t, u, h);
    } else {
      TwoOwners(s.acts, u, t, h);
    }
  }

  // ---- Hits ----

  /** The entry was in the cache in state `k`. */
  ghost predicate WasThere(run: seq<State>, tok: Token, k: nat) {
    k < |run| && InCache(run[k], tok.h) && TokenFits(run[k], tok)
  }

  /** In a lookup of `key`, or giving up the reference of one that has found another key. */
  predicate InLookup(pc: Pc, key: CacheKey) {
    || (IsLookup(pc) && pc.key == key) || pc.UnrefSub? || pc.UnrefLock? || pc.UnrefRecycle?
    || pc == Unlock(None) || pc == Cleanup(None)
  }

  predicate Holder(pc: Pc, s: State, tok: Token) {
    if pc.LookupCheck? then pc.h == tok.h && TokenFits(s, tok) else pc == Holding(tok)
  }

  /** A lookup of `key` that has a reference has it to an entry that was in the cache in state `k`. */
  ghost predicate HitPhase(run: seq<State>, t: nat, key: CacheKey, i: nat, k: nat, tok: Token, m: nat)
    requires m < |run|
  {
    && t < |run[m].acts|
    && var pc := run[m].acts[t].pc;
       && (InLookup(pc, key) || pc.Idle? || (pc.Holding? && pc.tok.key == key))
       && (pc.LookupCheck? || pc.Holding? ==> i < k < m && Holder(pc, run[m], tok) && WasThere(run, tok, k))
  }

  lemma LookupTakesRef(s: State, t: nat, c: Choice)
    requires CanStep(s, t) && IsLookup(s.acts[t].pc)
    ensures var s' := Step(s, t, c); var pc, pc' := s.acts[t].pc, s'.acts[t].pc;
      && (InLookup(pc', pc.key) || (pc.LookupCheck? && pc'.Holding? && pc'.tok.key == pc.key
                                    && pc'.tok == Token(pc.h, s.handles[pc.h].key, s.handles[pc.h].occupancy)))
      && (pc'.LookupCheck? ==>
            && pc.LookupCas? && pc'.h == pc.h && InCache(s, pc.h) && pc.h < |s'.handles|
            && s'.handles[pc.h].key == s.handles[pc.h].key && s'.handles[pc.h].occupancy == s.handles[pc.h].occupancy)
  {
    assert Step(s, t, c) == StepLookup(s, t, c);
  }

  lemma DropsRef(s: State, t: nat, key: CacheKey)
    requires CanStep(s, t) && s.acts[t].pc.UnrefSub?
    ensures var pc' := StepUnref(s, t).acts[t].pc; InLookup(pc', key) && !IsLookup(pc')
  {
  }

  lemma LocksRef(s: State, t: nat, key: CacheKey)
    requires CanStep(s, t) && s.acts[t].pc.UnrefLock?
    ensures var pc' := StepLock(s, t).acts[t].pc; InLookup(pc', key) && !IsLookup(pc')
  {
  }

  lemma RecyclesRef(s: State, t: nat, key: CacheKey)
    requires CanStep(s, t) && s.acts[t].pc.UnrefRecycle?
    ensures var pc' := StepRecycle(s, t).acts[t].pc; InLookup(pc', key) && !IsLookup(pc')
  {
  }

  lemma GivesUpRef(s: State, t: nat, c: Choice, key: CacheKey)
    requires CanStep(s, t) && InLookup(s.acts[t].pc, key) && !IsLookup(s.acts[t].pc)
    ensures var pc' := Step(s, t, c).acts[t].pc; (InLookup(pc', key) && !IsLookup(pc')) || pc'.Idle?
  {
    var pc := s.acts[t].pc;
    if pc.UnrefSub? {
      DropsRef(s, t, key);
    } else if pc.UnrefLock? {
      LocksRef(s, t, key);
    } else if pc.UnrefRecycle? {
      RecyclesRef(s, t, key);
    } else if pc.Unlock? {
      LeavesMutex(s, t, c);
    } else {
      Returns(s, t, c);
    }
  }

  lemma HitStays(run: seq<State>, schedule: seq<(nat, Choice)>, t: nat, key: CacheKey, i: nat, k: nat, tok: Token,
                 m: nat)
    requires IsRun(run, schedule) && m < |schedule| && schedule[m].0 != t && HitPhase(run, t, key, i, k, tok, m)
    ensures HitPhase(run, t, key, i, k, tok, m + 1)
  {
    RunSteps(run, schedule, m);
    EveryRunIsSafe(run, schedule, m);
    OnlyOwnSteps(run, schedule, m, t);
    if run[m].acts[t].pc.LookupCheck? {
      NobodyElseOwns(run[m], t, schedule[m].0, tok.h);
      StillFits(run[m], schedule[m].0, schedule[m].1, tok);
    }
  }

  lemma HitMoves(run: seq<State>, schedule: seq<(nat, Choice)>, t: nat, key: CacheKey, i: nat, k: nat, tok: Token,
                 m: nat) returns (k': nat, tok': Token)
    requires IsRun(run, schedule) && i < m < |schedule| && schedule[m].0 == t
    requires HitPhase(run, t, key, i, k, tok, m) && !Resting(run[m].acts[t].pc)
    ensures HitPhase(run, t, key, i, k', tok', m + 1)
  {
    RunSteps(run, schedule, m);
    k', tok' := k, tok;
    var pc := run[m].acts[t].pc;
    if IsLookup(pc) {
      LookupTakesRef(run[m], t, schedule[m].1);
      if pc.LookupCas? {
        k', tok' := m, Token(pc.h, run[m].handles[pc.h].key, run[m].handles[pc.h].occupancy);
      }
    } else {
      GivesUpRef(run[m], t, schedule[m].1, key);
    }
  }

  lemma HitStarts(run: seq<State>, schedule: seq<(nat, Choice)>, t: nat, key: CacheKey, i: nat)
    requires IsRun(run, schedule) && i < |schedule| && schedule[i] == (t, DoLookup(key))
    requires t < |run[i].acts| && run[i].acts[t].pc.Idle?
    ensures HitPhase(run, t, key, i, 0, Token(0, key, 0), i + 1)
  {
    RunSteps(run, schedule, i);
    assert Step(run[i], t, DoLookup(key)) == StepIdle(run[i], t, DoLookup(key));
  }

  lemma {:induction false} HitAt(run: seq<State>, schedule: seq<(nat, Choice)>, t: nat, key: CacheKey, i: nat, j: nat,
                                 m: nat) returns (k: nat, tok: Token)
    requires Call(run, schedule, t, i, j) && i < m <= j
    requires run[i].acts[t].pc.Idle? && schedule[i].1 == DoLookup(key)
    ensures HitPhase(run, t, key, i, k, tok, m)
    decreases m
  {
    if m == i + 1 {
      HitStarts(run, schedule, t, key, i);
      k, tok := 0, Token(0, key, 0);
    } else {
      k, tok := HitAt(run, schedule, t, key, i, j, m - 1);
      if schedule[m - 1].0 == t {
        k, tok := HitMoves(run, schedule, t, key, i, k, tok, m - 1);
      } else {
        HitStays(run, schedule, t, key, i, k, tok, m - 1);
      }
    }
  }

  /** A hit is an entry of this key that was in the cache in some state `k` during the call: never one
      that had left it, or has come to the handle, only before or after. */
  lemma HitCall(run: seq<State>, schedule: seq<(nat, Choice)>, t: nat, key: CacheKey, i: nat, j: nat) returns (k: nat)
    requires Call(run, schedule, t, i, j)
    requires run[i].acts[t].pc.Idle? && schedule[i].1 == DoLookup(key)
    ensures run[j].acts[t].pc.Holding? ==>
      run[j].acts[t].pc.tok.key == key && i < k < j && WasThere(run, run[j].acts[t].pc.tok, k)
  {
    var tok;
    k, tok := HitAt(run, schedule, t, key, i, j, j);
  }
}
