/** How long EvictFromCache can take, over every interleaving. */
module ClockProbes {
  import opened Wrappers
  import opened ClockState
  import opened ClockInvariant
  import opened ClockKnowledge
  import opened ClockValues
  import opened ClockSafety
  import ClockEviction

  /** Inside the loop of EvictFromCache. */
  predicate Probing(pc: Pc) {
    pc.EvictTest? || pc.EvictCas? || pc.EvictErase? || pc.EvictRecycle? || pc.EvictClear? || pc.EvictMove?
  }

  /** How many handles are still to be probed before the loop gives up. */
  function Left(s: State, pc: Pc): nat
    requires Probing(pc) && pc.i < |s.handles| && s.head < |s.handles|
  {
    (if pc.second then 0 else |s.handles|) + ClockEviction.ToHead(pc.i, s.head, |s.handles|)
  }

  /** The list and the position that the next eviction starts at. */
  predicate SameRing(s: State, s': State) {
    |s'.handles| == |s.handles| && s'.head == s.head
  }

  /** Whoever is outside the mutex leaves the list and the position alone. */
  lemma OutsideSameRing(s: State, u: nat, c: Choice)
    requires CanStep(s, u) && !NeedsMutex(s.acts[u].pc)
    ensures SameRing(s, Step(s, u, c))
  {
  }

  /** The loop goes on, with so many probes ahead of it, or it is over. */
  predicate GoesOn(s: State, pc: Pc, s': State, pc': Pc, made: nat)
    requires Probing(pc) && pc.i < |s.handles| && s.head < |s.handles|
  {
    Probing(pc') ==> SameRing(s, s') && pc'.i < |s'.handles| && Left(s', pc') + made == Left(s, pc)
  }

  lemma EvictGoesOn(s: State, t: nat)
    requires CanStep(s, t) && (s.acts[t].pc.EvictTest? || s.acts[t].pc.EvictMove?)
    requires s.acts[t].pc.i < |s.handles| && s.head < |s.handles|
    ensures var s' := StepEvict(s, t);
      GoesOn(s, s.acts[t].pc, s', s'.acts[t].pc, if s.acts[t].pc.EvictMove? then 1 else 0)
  {
    ClockEviction.OneProbeLess(s.acts[t].pc.i, s.head, |s.handles|);
  }

  lemma TryGoesOn(s: State, t: nat, c: Choice)
    requires CanStep(s, t) && (IsTry(s.acts[t].pc) || s.acts[t].pc.EvictErase? || s.acts[t].pc.EvictRecycle?)
    requires s.acts[t].pc.i < |s.handles| && s.head < |s.handles|
    ensures var s' := Step(s, t, c); GoesOn(s, s.acts[t].pc, s', s'.acts[t].pc, 0)
  {
  }

  /** One step of the loop: a move is one probe less, and any other step leaves it at that. */
  lemma ProbingStep(s: State, t: nat, c: Choice)
    requires CanStep(s, t) && Probing(s.acts[t].pc) && s.acts[t].pc.i < |s.handles| && s.head < |s.handles|
    ensures var s' := Step(s, t, c);
      GoesOn(s, s.acts[t].pc, s', s'.acts[t].pc, if s.acts[t].pc.EvictMove? then 1 else 0)
  {
    if s.acts[t].pc.EvictTest? || s.acts[t].pc.EvictMove? {
      EvictGoesOn(s, t);
    } else {
      TryGoesOn(s, t, c);
    }
  }

  /** The loop starts with two rounds ahead of it. */
  lemma StartingStep(s: State, t: nat, c: Choice)
    requires CanStep(s, t) && s.acts[t].pc.EvictStart? && Grounded(s)
    ensures var s' := Step(s, t, c); var pc' := s'.acts[t].pc;
      Probing(pc') ==> SameRing(s, s') && pc'.i == s.head < |s.handles| && Left(s', pc') == 2 * |s.handles|
  {
  }

  /** The moves that activity `t` makes between state `i` and state `j`. */
  function Moves(run: seq<State>, schedule: seq<(nat, Choice)>, t: nat, i: nat, j: nat): nat
    requires i <= j < |run| == |schedule| + 1
    decreases j
  {
    if i == j then 0
    else
      Moves(run, schedule, t, i, j - 1) +
      if schedule[j - 1].0 == t && t < |run[j - 1].acts| && run[j - 1].acts[t].pc.EvictMove? then 1 else 0
  }

  /** Activity `t` is in the loop in all states after `i` and before `j`. */
  ghost predicate ProbesFrom(run: seq<State>, t: nat, i: nat, j: nat) {
    forall m {:trigger run[m]} :: i < m < j && m < |run| ==> t < |run[m].acts| && Probing(run[m].acts[t].pc)
  }

  /** So many moves have been made, and so many are left. */
  ghost predicate TwoRoundsLeft(s: State, t: nat, n: nat, made: nat) {
    && t < |s.acts| && Probing(s.acts[t].pc) && |s.handles| == n
    && s.acts[t].pc.i < n && s.head < n && made + Left(s, s.acts[t].pc) == 2 * n
  }

  lemma InsideAlone(s: State, t: nat, u: nat)
    requires Inv(s) && t < |s.acts| && u < |s.acts| && u != t && NeedsMutex(s.acts[t].pc)
    ensures !NeedsMutex(s.acts[u].pc)
  {
  }

  /** Nobody else's step makes a difference to the loop. */
  lemma OthersKeepRounds(s: State, t: nat, u: nat, c: Choice, n: nat, made: nat)
    requires Inv(s) && CanStep(s, u) && u != t && TwoRoundsLeft(s, t, n, made)
    ensures TwoRoundsLeft(Step(s, u, c), t, n, made)
  {
    InsideAlone(s, t, u);
    OutsideSameRing(s, u, c);
    OthersStand(s, t, u, c);
  }

  lemma RoundsStart(run: seq<State>, schedule: seq<(nat, Choice)>, t: nat, i: nat)
    requires IsRun(run, schedule) && i < |schedule| && schedule[i].0 == t
    requires t < |run[i].acts| && run[i].acts[t].pc.EvictStart?
    requires t < |run[i + 1].acts| && Probing(run[i + 1].acts[t].pc)
    ensures TwoRoundsLeft(run[i + 1], t, |run[i].handles|, Moves(run, schedule, t, i, i + 1))
  {
    RunSteps(run, schedule, i);
    EveryRunIsSafe(run, schedule, i);
    InvGrounds(run[i]);
    StartingStep(run[i], t, schedule[i].1);
    assert Moves(run, schedule, t, i, i) == 0;
  }

  lemma RoundsStep(run: seq<State>, schedule: seq<(nat, Choice)>, t: nat, i: nat, m: nat)
    requires IsRun(run, schedule) && i <= m < |schedule|
    requires TwoRoundsLeft(run[m], t, |run[i].handles|, Moves(run, schedule, t, i, m))
    requires t < |run[m + 1].acts| && Probing(run[m + 1].acts[t].pc)
    ensures TwoRoundsLeft(run[m + 1], t, |run[i].handles|, Moves(run, schedule, t, i, m + 1))
  {
    var (u, c) := schedule[m];
    RunSteps(run, schedule, m);
    if u == t {
      ProbingStep(run[m], t, c);
    } else {
      EveryRunIsSafe(run, schedule, m);
      OthersKeepRounds(run[m], t, u, c, |run[i].handles|, Moves(run, schedule, t, i, m));
    }
  }

  lemma {:induction false} RoundsGoOn(run: seq<State>, schedule: seq<(nat, Choice)>, t: nat, i: nat, j: nat)
    requires IsRun(run, schedule) && i < j < |run| && schedule[i].0 == t
    requires t < |run[i].acts| && run[i].acts[t].pc.EvictStart? && ProbesFrom(run, t, i, j + 1)
    ensures TwoRoundsLeft(run[j], t, |run[i].handles|, Moves(run, schedule, t, i, j))
    decreases j - i
  {
    assert t < |run[j].acts| && Probing(run[j].acts[t].pc);
    if j == i + 1 {
      RoundsStart(run, schedule, t, i);
    } else {
      RoundsGoOn(run, schedule, t, i, j - 1);
      RoundsStep(run, schedule, t, i, j - 1);
    }
  }

  /** EvictFromCache, in every run: whatever others do meanwhile, the loop moves on at most twice round the
      list it found, and then is over. */
  lemma AtMostTwoRounds(run: seq<State>, schedule: seq<(nat, Choice)>, t: nat, i: nat, j: nat)
    requires IsRun(run, schedule) && i < j < |run| && schedule[i].0 == t
    requires t < |run[i].acts| && run[i].acts[t].pc.EvictStart? && ProbesFrom(run, t, i, j)
    ensures Moves(run, schedule, t, i, j) <= 2 * |run[i].handles|
  {
    if i + 1 < j {
      RoundsGoOn(run, schedule, t, i, j - 1);
    } else {
      assert Moves(run, schedule, t, i, i) == 0;
    }
  }
}
