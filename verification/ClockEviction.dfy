/** EvictFromCache run to its end by the activity that holds the mutex, with nobody else moving. */
module ClockEviction {
  import opened Wrappers
  import opened ClockState
  import opened ClockInvariant
  import opened ClockSafety

  predicate Unused(f: Flags) {
    f == Flags(true, false, 0)
  }

  /** What TryEvict leaves of a handle's flags. */
  function Probed(f: Flags): Flags {
    if Unused(f) then Flags(false, false, 0) else f.(usage := false)
  }

  // ---- One step ----

  /** What the eviction leaves alone. */
  predicate Settings(s: State, s': State) {
    && |s'.acts| == |s.acts| && s'.capacity == s.capacity && s'.strict == s.strict && s'.next == s.next
    && |s'.handles| == |s.handles|
  }

  /** The eviction's surroundings stay, and handle `i` alone may get other flags. */
  predicate Around(s: State, s': State, i: nat) {
    && Settings(s, s') && i < |s.handles|
    && (forall h :: 0 <= h < |s.handles| && h != i ==> s'.handles[h].flags == s.handles[h].flags)
    && (forall h :: 0 <= h < |s.handles| ==> s'.handles[h].charge == s.handles[h].charge)
  }

  lemma CasStep(s: State, t: nat)
    requires CanStep(s, t) && s.acts[t].pc.EvictCas?
    ensures var pc := s.acts[t].pc; var s' := Step(s, t, Go);
      && Around(s, s', pc.i) && s'.head == s.head && s'.usage == s.usage
      && (if Unused(s.handles[pc.i].flags) then
            && s'.handles[pc.i].flags == Flags(false, false, 0)
            && s'.acts[t].pc == EvictErase(pc.purpose, pc.i, pc.second)
          else
            && s'.handles[pc.i].flags == s.handles[pc.i].flags
            && s'.acts[t].pc == EvictClear(pc.purpose, pc.i, pc.second))
  {
    assert Step(s, t, Go) == StepTry(s, t);
  }

  lemma EraseStep(s: State, t: nat)
    requires CanStep(s, t) && s.acts[t].pc.EvictErase?
    ensures var pc := s.acts[t].pc; var s' := Step(s, t, Go);
      && Around(s, s', pc.i) && s'.head == s.head && s'.usage == s.usage
      && s'.handles[pc.i].flags == s.handles[pc.i].flags
      && s'.acts[t].pc == EvictRecycle(pc.purpose, pc.i, pc.second)
  {
    assert Step(s, t, Go) == StepTable(s, t);
  }

  lemma RecycleStep(s: State, t: nat)
    requires CanStep(s, t) && s.acts[t].pc.EvictRecycle?
    ensures var pc := s.acts[t].pc; var s' := Step(s, t, Go);
      && Around(s, s', pc.i) && s'.head == s.head && s'.usage == s.usage - s.handles[pc.i].charge
      && s'.handles[pc.i].flags == s.handles[pc.i].flags
      && s'.acts[t].pc == EvictMove(pc.purpose, pc.i, pc.second)
  {
    assert Step(s, t, Go) == StepRecycle(s, t);
  }

  lemma ClearStep(s: State, t: nat)
    requires CanStep(s, t) && s.acts[t].pc.EvictClear?
    ensures var pc := s.acts[t].pc; var s' := Step(s, t, Go);
      && Around(s, s', pc.i) && s'.head == s.head && s'.usage == s.usage
      && s'.handles[pc.i].flags == s.handles[pc.i].flags.(usage := false)
      && s'.acts[t].pc == EvictMove(pc.purpose, pc.i, pc.second)
  {
    assert Step(s, t, Go) == StepTry(s, t);
  }

  function Next(i: nat, n: nat): nat {
    if i + 1 >= n then 0 else i + 1
  }

  lemma MoveStep(s: State, t: nat)
    requires CanStep(s, t) && s.acts[t].pc.EvictMove?
    ensures var pc := s.acts[t].pc; var s' := Step(s, t, Go); var j := Next(pc.i, |s.handles|);
      && s' == s.(acts := s'.acts) && |s'.acts| == |s.acts|
      && s'.acts[t].pc ==
           if j == s.head && pc.second then Decide(pc.purpose, false)
           else EvictTest(pc.purpose, j, pc.second || j == s.head)
  {
    assert Step(s, t, Go) == StepEvict(s, t);
  }

  lemma TestStep(s: State, t: nat)
    requires CanStep(s, t) && s.acts[t].pc.EvictTest?
    ensures var pc := s.acts[t].pc; var s' := Step(s, t, Go);
      && |s'.acts| == |s.acts| && s' == s.(acts := s'.acts, head := s'.head)
      && (if s.usage + EvictCharge(pc.purpose) > s.capacity
          then s'.head == s.head && s'.acts[t].pc == EvictCas(pc.purpose, pc.i, pc.second)
          else s'.head == pc.i && s'.acts[t].pc == Decide(pc.purpose, true))
  {
    assert Step(s, t, Go) == StepEvict(s, t);
  }

  lemma StartStep(s: State, t: nat)
    requires CanStep(s, t) && s.acts[t].pc.EvictStart?
    ensures var pc := s.acts[t].pc; var s' := Step(s, t, Go);
      && s' == s.(acts := s'.acts) && |s'.acts| == |s.acts|
      && s'.acts[t].pc ==
           if s.usage == 0 then Decide(pc.purpose, EvictCharge(pc.purpose) <= s.capacity)
           else EvictTest(pc.purpose, s.head, false)
  {
    assert Step(s, t, Go) == StepEvict(s, t);
  }

  method EraseAndRecycle(s: State, t: nat) returns (s': State)
    requires Inv(s) && t < |s.acts| && s.acts[t].pc.EvictErase?
    ensures Inv(s')
    ensures var pc := s.acts[t].pc;
      && Around(s, s', pc.i) && s'.head == s.head && s'.usage == s.usage - s.handles[pc.i].charge
      && s'.acts[t].pc == EvictMove(pc.purpose, pc.i, pc.second)
      && s'.handles[pc.i].flags == s.handles[pc.i].flags
  {
    StepKeepsInv(s, t, Go);
    EraseStep(s, t);
    s' := Step(s, t, Go);
    StepKeepsInv(s', t, Go);
    RecycleStep(s', t);
    s' := Step(s', t, Go);
  }

  /** The probe of one handle: the flags and the usage afterwards. */
  predicate ProbedAt(s: State, s': State, i: nat) {
    && Around(s, s', i) && s'.head == s.head
    && s'.handles[i].flags == Probed(s.handles[i].flags)
    && s'.usage == s.usage - (if Unused(s.handles[i].flags) then s.handles[i].charge else 0)
  }

  lemma Together(s: State, mid: State, s': State, i: nat)
    requires Around(s, mid, i) && mid.head == s.head && mid.usage == s.usage
    requires Around(mid, s', i) && s'.head == mid.head
    requires if Unused(s.handles[i].flags)
             then mid.handles[i].flags == Flags(false, false, 0) && s'.handles[i].flags == mid.handles[i].flags
                  && s'.usage == mid.usage - mid.handles[i].charge
             else mid.handles[i].flags == s.handles[i].flags && s'.usage == mid.usage
                  && s'.handles[i].flags == mid.handles[i].flags.(usage := false)
    ensures ProbedAt(s, s', i)
  {
  }

  method ClearUsage(s: State, t: nat) returns (s': State)
    requires Inv(s) && t < |s.acts| && s.acts[t].pc.EvictClear?
    ensures Inv(s')
    ensures var pc := s.acts[t].pc;
      && Around(s, s', pc.i) && s'.head == s.head && s'.usage == s.usage
      && s'.acts[t].pc == EvictMove(pc.purpose, pc.i, pc.second)
      && s'.handles[pc.i].flags == s.handles[pc.i].flags.(usage := false)
  {
    StepKeepsInv(s, t, Go);
    ClearStep(s, t);
    s' := Step(s, t, Go);
  }

  /** TryEvict, from the compare-and-swap on. */
  method TryEvict(s: State, t: nat) returns (s': State)
    requires Inv(s) && t < |s.acts| && s.acts[t].pc.EvictCas?
    ensures Inv(s')
    ensures var pc := s.acts[t].pc;
      ProbedAt(s, s', pc.i) && s'.acts[t].pc == EvictMove(pc.purpose, pc.i, pc.second)
  {
    StepKeepsInv(s, t, Go);
    CasStep(s, t);
    var mid := Step(s, t, Go);
    if mid.acts[t].pc.EvictErase? {
      s' := EraseAndRecycle(mid, t);
    } else {
      s' := ClearUsage(mid, t);
    }
    Together(s, mid, s', s.acts[t].pc.i);
  }

  // ---- After so many probes ----

  /** Probes from position `i` until the position is back at `head`. */
  function ToHead(i: nat, head: nat, n: nat): nat
    requires i < n && head < n
  {
    if i < head then head - i else n - i + head
  }

  lemma OneProbeLess(i: nat, head: nat, n: nat)
    requires i < n && head < n
    ensures Next(i, n) != head ==> ToHead(Next(i, n), head, n) == ToHead(i, head, n) - 1
    ensures Next(i, n) == head ==> ToHead(i, head, n) == 1 && ToHead(head, head, n) == n
  {
  }

  /** How often handle `k` has been probed when `p` probes have been made, from `head` on, round a list
      of `n` handles. */
  function Times(k: nat, head: nat, p: nat, n: nat): nat
    requires k < n && head < n
  {
    var first := n - ToHead(k, head, n);
    (if p > first then 1 else 0) + (if p > first + n then 1 else 0)
  }

  function FlagsAfter(f: Flags, times: nat): Flags {
    if times == 0 then f else Probed(FlagsAfter(f, times - 1))
  }

  /** In the cache and unreferenced: evicted by the first probe without the usage bit, by the second with it. */
  predicate Gone(f: Flags, times: nat) {
    f.inCache && f.refs == 0 && times >= if f.usage then 2 else 1
  }

  /** The charge of the first `m` handles that `p` probes leave in the usage. */
  function UsageAfter(s: State, p: nat, m: nat): nat
    requires m <= |s.handles| && (m > 0 ==> s.head < |s.handles|)
  {
    if m == 0 then 0
    else
      UsageAfter(s, p, m - 1) +
      if Gone(s.handles[m - 1].flags, Times(m - 1, s.head, p, |s.handles|)) then 0 else ChargeOf(s, m - 1)
  }

  lemma {:induction false} NoProbesYet(s: State, m: nat)
    requires m <= |s.handles| && (m > 0 ==> s.head < |s.handles|)
    ensures UsageAfter(s, 0, m) == TotalCharge(s, m)
  {
    if m > 0 {
      NoProbesYet(s, m - 1);
    }
  }

  /** One more probe concerns the handle it is made on. */
  lemma {:induction false} OneMoreProbe(s: State, p: nat, i: nat, m: nat)
    requires m <= |s.handles| && i < |s.handles| && s.head < |s.handles|
    requires p == |s.handles| - ToHead(i, s.head, |s.handles|) || p == 2 * |s.handles| - ToHead(i, s.head, |s.handles|)
    ensures var n := |s.handles|; var f, times := s.handles[i].flags, Times(i, s.head, p, n);
      && (forall k :: 0 <= k < n && k != i ==> Times(k, s.head, p + 1, n) == Times(k, s.head, p, n))
      && Times(i, s.head, p + 1, n) == times + 1
      && UsageAfter(s, p + 1, m) ==
         UsageAfter(s, p, m) - if i < m && !Gone(f, times) && Gone(f, times + 1) then ChargeOf(s, i) else 0
  {
    if m > 0 {
      OneMoreProbe(s, p, i, m - 1);
    }
  }

  /** Further probes do not raise the usage. */
  lemma {:induction false} ProbesOnlyLower(s: State, p: nat, q: nat, m: nat)
    requires p <= q && m <= |s.handles| && (m > 0 ==> s.head < |s.handles|)
    ensures UsageAfter(s, q, m) <= UsageAfter(s, p, m)
  {
    if m > 0 {
      ProbesOnlyLower(s, p, q, m - 1);
    }
  }

  lemma NextProbe(f: Flags, times: nat)
    requires times <= 1
    ensures FlagsAfter(f, times + 1) == Probed(FlagsAfter(f, times))
    ensures Unused(FlagsAfter(f, times)) <==> !Gone(f, times) && Gone(f, times + 1)
  {
    if times == 1 {
      assert FlagsAfter(f, 1) == Probed(FlagsAfter(f, 0)) == Probed(f);
    }
  }

  // ---- The loop ----

  /** The state after `p` probes of an eviction that found the shard in state `s`. */
  ghost predicate After(s: State, s': State, p: nat) {
    && Settings(s, s') && s.head < |s.handles| && s'.head == s.head
    && s'.usage == UsageAfter(s, p, |s.handles|)
    && forall k :: 0 <= k < |s.handles| ==>
         && s'.handles[k].charge == s.handles[k].charge
         && s'.handles[k].flags == FlagsAfter(s.handles[k].flags, Times(k, s.head, p, |s.handles|))
  }

  /** Probe `p` is on handle `i`. */
  predicate ComesTo(s: State, p: nat, i: nat) {
    && s.head < |s.handles| && i < |s.handles|
    && (p == |s.handles| - ToHead(i, s.head, |s.handles|) || p == 2 * |s.handles| - ToHead(i, s.head, |s.handles|))
  }

  /** The position of probe `p`. */
  predicate Standing(s: State, pc: Pc, p: nat) {
    pc.EvictTest? && ComesTo(s, p, pc.i) && (pc.second <==> p >= |s.handles|)
  }

  lemma InCacheHasCharge(s: State, h: nat)
    requires Inv(s) && !Filled(Inside(s)) && !Inside(s).InsertFill? && InCache(s, h)
    ensures ChargeOf(s, h) == s.handles[h].charge
  {
    assert Owners(s.acts, h) + Binned(s, h) == One(DeadAt(s, h));
  }

  lemma AfterOneMore(s: State, s': State, s'': State, p: nat, i: nat)
    requires Inv(s) && Inside(s).EvictStart? && After(s, s', p) && ProbedAt(s', s'', i)
    requires ComesTo(s, p, i)
    ensures After(s, s'', p + 1)
  {
    OneMoreProbe(s, p, i, |s.handles|);
    NextProbe(s.handles[i].flags, Times(i, s.head, p, |s.handles|));
    if InCache(s, i) {
      InCacheHasCharge(s, i);
    }
  }

  /** The test and the probe of one round. */
  method TestAndTry(s: State, t: nat) returns (s': State)
    requires Inv(s) && t < |s.acts| && s.acts[t].pc.EvictTest?
    requires s.usage + EvictCharge(s.acts[t].pc.purpose) > s.capacity
    ensures Inv(s')
    ensures var pc := s.acts[t].pc;
      ProbedAt(s, s', pc.i) && s'.acts[t].pc == EvictMove(pc.purpose, pc.i, pc.second)
  {
    StepKeepsInv(s, t, Go);
    TestStep(s, t);
    s' := Step(s, t, Go);
    s' := TryEvict(s', t);
  }

  /** Moving on from probe `p`: to the next handle, or out of the loop after the second round. */
  lemma MovesOn(s0: State, s: State, t: nat, p: nat)
    requires CanStep(s, t) && s.acts[t].pc.EvictMove? && After(s0, s, p + 1)
    requires ComesTo(s0, p, s.acts[t].pc.i) && (s.acts[t].pc.second <==> p >= |s0.handles|)
    ensures var s' := Step(s, t, Go);
      && After(s0, s', p + 1) && t < |s'.acts|
      && if p + 1 < 2 * |s0.handles|
         then Standing(s', s'.acts[t].pc, p + 1) && s'.acts[t].pc.purpose == s.acts[t].pc.purpose
         else p + 1 == 2 * |s0.handles| && s'.acts[t].pc == Decide(s.acts[t].pc.purpose, false)
  {
    OneProbeLess(s.acts[t].pc.i, s.head, |s.handles|);
    MoveStep(s, t);
  }

  /** One round of the loop: test, probe, move on. */
  method Round(ghost s0: State, s: State, t: nat, ghost p: nat) returns (s': State)
    requires Inv(s0) && Inside(s0).EvictStart? && After(s0, s, p)
    requires Inv(s) && t < |s.acts| && Standing(s, s.acts[t].pc, p)
    requires s.usage + EvictCharge(s.acts[t].pc.purpose) > s.capacity
    ensures Inv(s') && After(s0, s', p + 1) && t < |s'.acts|
    ensures if p + 1 < 2 * |s0.handles|
            then Standing(s', s'.acts[t].pc, p + 1) && s'.acts[t].pc.purpose == s.acts[t].pc.purpose
            else p + 1 == 2 * |s0.handles| && s'.acts[t].pc == Decide(s.acts[t].pc.purpose, false)
  {
    s' := TestAndTry(s, t);
    AfterOneMore(s0, s, s', p, s.acts[t].pc.i);
    StepKeepsInv(s', t, Go);
    MovesOn(s0, s', t, p);
    s' := Step(s', t, Go);
  }

  /** What an undisturbed eviction needs to succeed: the handle before the one it starts at is tested
      for the last time before its second probe, so that it counts even if that probe evicts it. */
  predicate Fits(s: State, charge: nat) {
    if s.usage == 0 then charge <= s.capacity
    else s.head < |s.handles| && UsageAfter(s, 2 * |s.handles| - 1, |s.handles|) + charge <= s.capacity
  }

  /** No room after any number of probes below `probes`. */
  ghost predicate NoRoomBefore(s: State, charge: nat, probes: nat) {
    s.head < |s.handles| && forall p: nat :: p < probes ==> UsageAfter(s, p, |s.handles|) + charge > s.capacity
  }

  lemma NoRoomStill(s: State, charge: nat, probes: nat)
    requires NoRoomBefore(s, charge, probes) && UsageAfter(s, probes, |s.handles|) + charge > s.capacity
    ensures NoRoomBefore(s, charge, probes + 1)
  {
  }

  lemma Starts(s: State, t: nat)
    requires Inv(s) && t < |s.acts| && s.acts[t].pc.EvictStart? && s.usage != 0
    ensures CanStep(s, t)
    ensures var s' := Step(s, t, Go);
      After(s, s', 0) && t < |s'.acts| && Standing(s', s'.acts[t].pc, 0)
      && s'.acts[t].pc.purpose == s.acts[t].pc.purpose
  {
    InvGrounds(s);
    StepKeepsInv(s, t, Go);
    StartStep(s, t);
    NoProbesYet(s, |s.handles|);
    assert s.owner == Some(t) && Inside(s) == s.acts[t].pc;
  }

  /** The invariant in layers, so that the verifier looks into it only where `LookInto` is called. */
  ghost predicate Sound(s: State, depth: nat) {
    if depth == 0 then Inv(s) else Sound(s, depth - 1)
  }

  lemma LookInto(s: State)
    ensures Sound(s, 3) <==> Inv(s)
  {
    assert Sound(s, 2) <==> Sound(s, 1);
  }

  method NextRound(ghost s0: State, s: State, t: nat, ghost p: nat) returns (s': State)
    requires Sound(s0, 3) && Inside(s0).EvictStart? && After(s0, s, p)
    requires Sound(s, 3) && t < |s.acts| && Standing(s, s.acts[t].pc, p)
    requires s.usage + EvictCharge(s.acts[t].pc.purpose) > s.capacity
    ensures Sound(s', 3) && After(s0, s', p + 1) && t < |s'.acts|
    ensures if p + 1 < 2 * |s0.handles|
            then Standing(s', s'.acts[t].pc, p + 1) && s'.acts[t].pc.purpose == s.acts[t].pc.purpose
            else p + 1 == 2 * |s0.handles| && s'.acts[t].pc == Decide(s.acts[t].pc.purpose, false)
  {
    LookInto(s0);
    LookInto(s);
    s' := Round(s0, s, t, p);
    LookInto(s');
  }

  /** The loop of a call that finds the cache in use, until there is room or two rounds have been made. */
  method Loop(ghost s0: State, s: State, t: nat) returns (s': State, probes: nat)
    requires Sound(s0, 3) && Inside(s0).EvictStart? && After(s0, s, 0)
    requires Sound(s, 3) && t < |s.acts| && Standing(s, s.acts[t].pc, 0)
    ensures Sound(s', 3) && t < |s'.acts| && After(s0, s', probes)
    ensures NoRoomBefore(s0, EvictCharge(s.acts[t].pc.purpose), probes)
    ensures if s'.acts[t].pc.EvictTest? then
              && probes < 2 * |s0.handles| && Standing(s', s'.acts[t].pc, probes)
              && s'.acts[t].pc.purpose == s.acts[t].pc.purpose
              && s'.usage + EvictCharge(s.acts[t].pc.purpose) <= s'.capacity
            else probes == 2 * |s0.handles| && s'.acts[t].pc == Decide(s.acts[t].pc.purpose, false)
  {
    s', probes := s, 0;
    ghost var p := s.acts[t].pc.purpose;
    while s'.acts[t].pc.EvictTest? && s'.usage + EvictCharge(s'.acts[t].pc.purpose) > s'.capacity
      invariant Sound(s', 3) && t < |s'.acts| && probes <= 2 * |s0.handles| && After(s0, s', probes)
      invariant if probes < 2 * |s0.handles| then Standing(s', s'.acts[t].pc, probes) && s'.acts[t].pc.purpose == p
                else s'.acts[t].pc == Decide(p, false)
      invariant NoRoomBefore(s0, EvictCharge(p), probes)
      decreases 2 * |s0.handles| - probes
    {
      NoRoomStill(s0, EvictCharge(p), probes);
      s' := NextRound(s0, s', t, probes);
      probes := probes + 1;
    }
  }

  /** Still in the cache only because somebody has a reference. */
  predicate Spared(f: Flags) {
    f.inCache ==> f.refs > 0
  }

  lemma ProbedTwice(s: State, s': State)
    requires After(s, s', 2 * |s.handles|)
    ensures forall h :: 0 <= h < |s'.handles| ==> Spared(s'.handles[h].flags)
  {
    forall h | 0 <= h < |s'.handles| ensures Spared(s'.handles[h].flags) {
      var f := s.handles[h].flags;
      assert FlagsAfter(f, 2) == Probed(FlagsAfter(f, 1)) && FlagsAfter(f, 1) == Probed(FlagsAfter(f, 0)) == Probed(f);
    }
  }

  /** When the loop has ended, how it did says whether the entry fits. */
  lemma EndsAsFits(s: State, charge: nat, probes: nat, room: bool)
    requires s.usage != 0 && NoRoomBefore(s, charge, probes)
    requires if room then probes < 2 * |s.handles| && UsageAfter(s, probes, |s.handles|) + charge <= s.capacity
             else probes == 2 * |s.handles|
    ensures room <==> Fits(s, charge)
  {
    if room {
      ProbesOnlyLower(s, probes, 2 * |s.handles| - 1, |s.handles|);
    }
  }

  /** EvictFromCache with nobody else moving: it makes as few probes as leave room, and no more than twice
      round the list; what they do to each handle depends on nothing but how often it is probed; success
      and failure are as `Fits` says, and a failure has probed every handle twice. After a success the next
      eviction starts where this one has stopped. */
  method EvictFromCache(s: State, t: nat) returns (s': State, success: bool, probes: nat)
    requires Inv(s) && t < |s.acts| && s.acts[t].pc.EvictStart?
    ensures Inv(s') && t < |s'.acts| && s'.acts[t].pc == Decide(s.acts[t].pc.purpose, success)
    ensures success <==> Fits(s, EvictCharge(s.acts[t].pc.purpose))
    ensures success ==> s'.usage + EvictCharge(s.acts[t].pc.purpose) <= s'.capacity
    ensures Settings(s, s')
    ensures s.usage == 0 ==> probes == 0 && s' == s.(acts := s'.acts)
    ensures s.usage != 0 ==>
      && s.head < |s.handles| && After(s, s'.(head := s.head), probes)
      && NoRoomBefore(s, EvictCharge(s.acts[t].pc.purpose), probes)
      && if success then probes < 2 * |s.handles| && ComesTo(s, probes, s'.head)
         else probes == 2 * |s.handles| && s'.head == s.head
    ensures !success && s.usage != 0 ==> forall h :: 0 <= h < |s'.handles| ==> Spared(s'.handles[h].flags)
  {
    StepKeepsInv(s, t, Go);
    StartStep(s, t);
    s' := Step(s, t, Go);
    if s.usage == 0 {
      return s', s'.acts[t].pc.success, 0;
    }
    Starts(s, t);
    assert s.owner == Some(t) && Inside(s) == s.acts[t].pc;
    LookInto(s);
    LookInto(s');
    s', probes := Loop(s, s', t);
    LookInto(s');
    success := s'.acts[t].pc.EvictTest?;
    EndsAsFits(s, EvictCharge(s.acts[t].pc.purpose), probes, success);
    if !success {
      ProbedTwice(s, s');
    } else {
      StepKeepsInv(s', t, Go);
      TestStep(s', t);
      s' := Step(s', t, Go);
    }
  }

  /** A failure does not mean that there is no room afterwards: the last probe may make it. One entry that
      fills the cache, unreferenced and used since it was last probed, is evicted and the insertion of an
      entry no larger is refused all the same. */
  lemma LastProbeIsNotTested(s: State, charge: nat)
    requires |s.handles| == 1 && s.head == 0 && s.handles[0].flags == Flags(true, true, 0)
    requires ChargeOf(s, 0) == s.usage == s.capacity && 0 < charge <= s.capacity
    ensures !Fits(s, charge) && UsageAfter(s, 2, 1) + charge <= s.capacity
  {
    assert UsageAfter(s, 1, 0) == 0 && UsageAfter(s, 2, 0) == 0;
  }
}
