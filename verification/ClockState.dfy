/** The CLOCK cache shard as a transition system: every atomic operation on a handle's flags is one
    step, and so is every access to the table or the circular list under the mutex. Steps of
    different activities interleave freely. */
module ClockState {
  import opened Wrappers

  datatype CacheKey = CacheKey(data: string, hash: nat)

  /** The packed atomic word: in-cache bit, usage bit, reference count. */
  datatype Flags = Flags(inCache: bool, usage: bool, refs: nat)

  /** `occupancy` numbers the entries a handle has held: it stands for the value stored there. */
  datatype Handle = Handle(flags: Flags, key: CacheKey, charge: nat, occupancy: nat)

  /** What a caller holds: a handle, for the key asked for, with the value stored there. */
  datatype Token = Token(h: nat, key: CacheKey, occupancy: nat)

  datatype Job = Job(key: CacheKey, charge: nat, hold: bool)
  datatype Purpose = ForInsert(job: Job) | ForCapacity

  /** Where an activity stands. An activity is a call in progress, or a reference that a caller
      holds between calls. */
  datatype Pc =
    | Idle
    | Holding(tok: Token)
    // Lookup and Ref
    | LookupLoad(key: CacheKey, h: nat)
    | LookupCas(key: CacheKey, h: nat, seen: Flags)
    | LookupCheck(key: CacheKey, h: nat)
    // Unref
    | UnrefMark(h: nat)
    | UnrefSub(h: nat)
    | UnrefLock(h: nat)
    | UnrefRecycle(h: nat)
    // EvictFromCache and TryEvict
    | EvictLock(purpose: Purpose, newCapacity: nat)
    | EvictStart(purpose: Purpose)
    | EvictTest(purpose: Purpose, i: nat, second: bool)
    | EvictCas(purpose: Purpose, i: nat, second: bool)
    | EvictErase(purpose: Purpose, i: nat, second: bool)
    | EvictRecycle(purpose: Purpose, i: nat, second: bool)
    | EvictClear(purpose: Purpose, i: nat, second: bool)
    | EvictMove(purpose: Purpose, i: nat, second: bool)
    | Decide(purpose: Purpose, success: bool)
    // Insert
    | InsertFill(job: Job, h: nat)
    | InsertStore(job: Job, h: nat)
    | InsertFind(job: Job, h: nat)
    | InsertUnset(job: Job, h: nat, old_: nat)
    | InsertRecycle(job: Job, h: nat, old_: nat)
    | InsertLink(job: Job, h: nat)
    | InsertCharge(job: Job, h: nat)
    // EraseAndConfirm
    | EraseLock(key: CacheKey)
    | EraseFind(key: CacheKey)
    | EraseUnset(h: nat)
    | EraseRecycle(h: nat)
    // EraseUnRefEntries
    | SweepLock
    | SweepClear
    | SweepUnset(i: nat)
    | SweepRecycle(i: nat)
    // Leaving the mutex, running deleters
    | Unlock(ret: Option<Token>)
    | Cleanup(ret: Option<Token>)

  /** `toDelete` is the call's CleanupContext: values whose deleters it still has to run. */
  datatype Activity = Activity(pc: Pc, toDelete: multiset<nat>)

  datatype State = State(
    handles: seq<Handle>,
    recycle: seq<nat>,
    table: map<CacheKey, nat>,
    usage: int,
    capacity: nat,
    strict: bool,
    head: nat,
    owner: Option<nat>,
    acts: seq<Activity>,
    // History: the next occupancy number, the occupancies recycled or rejected so far, and those
    // whose deleters have run.
    next: nat,
    retired: multiset<nat>,
    deleted: multiset<nat>
  )

  /** What the environment may choose: which call to start, or whether a weak compare-and-swap fails
      for no reason. */
  datatype Choice =
    | Go
    | Spurious
    | DoLookup(key: CacheKey)
    | DoInsert(job: Job)
    | DoErase(key: CacheKey)
    | DoSweep
    | DoSetCapacity(capacity: nat)
    | DoSetStrict(strict: bool)

  // ---- Pieces of steps ----

  function At(s: State, t: nat, pc: Pc): State
    requires t < |s.acts|
  {
    s.(acts := s.acts[t := s.acts[t].(pc := pc)])
  }

  function SetFlags(s: State, h: nat, f: Flags): State
    requires h < |s.handles|
  {
    s.(handles := s.handles[h := s.handles[h].(flags := f)])
  }

  function EvictCharge(p: Purpose): nat {
    match p
    case ForInsert(job) => job.charge
    case ForCapacity => 0
  }

  // ---- Steps ----

  /** A step moves its own activity only, and at most appends one handle to the list. */
  predicate Local(s: State, t: nat, s': State)
    requires t < |s.acts|
  {
    && |s'.acts| == |s.acts|
    && s'.acts == s.acts[t := s'.acts[t]]
    && |s.handles| <= |s'.handles| <= |s.handles| + 1
  }

  function StepIdle(s: State, t: nat, c: Choice): (s': State)
    requires t < |s.acts|
    ensures Local(s, t, s')
  {
    match c
    case DoLookup(key) => if key in s.table then At(s, t, LookupLoad(key, s.table[key])) else s
    case DoInsert(job) => At(s, t, EvictLock(ForInsert(job), 0))
    case DoErase(key) => At(s, t, EraseLock(key))
    case DoSweep => At(s, t, SweepLock)
    case DoSetCapacity(capacity) => At(s, t, EvictLock(ForCapacity, capacity))
    case DoSetStrict(strict) => s.(strict := strict)
    case _ => s
  }

  predicate IsLookup(pc: Pc) {
    pc.LookupLoad? || pc.LookupCas? || pc.LookupCheck?
  }

  /** Lookup after the table has been read without the mutex: Ref, then check the key again. */
  function StepLookup(s: State, t: nat, c: Choice): (s': State)
    requires t < |s.acts| && IsLookup(s.acts[t].pc) && s.acts[t].pc.h < |s.handles|
    ensures Local(s, t, s')
  {
    match s.acts[t].pc
    case LookupLoad(key, h) => At(s, t, LookupCas(key, h, s.handles[h].flags))
    case LookupCas(key, h, seen) =>
      var now := s.handles[h].flags;
      if !seen.inCache then At(s, t, Cleanup(None))
      else if c == Spurious || now != seen then At(s, t, LookupCas(key, h, now))
      else At(SetFlags(s, h, now.(refs := now.refs + 1)), t, LookupCheck(key, h))
    case LookupCheck(key, h) =>
      if s.handles[h].key == key then At(s, t, Holding(Token(h, key, s.handles[h].occupancy)))
      else At(s, t, UnrefSub(h))
  }

  predicate IsUnref(pc: Pc) {
    pc.UnrefMark? || pc.UnrefSub?
  }

  /** Unref, up to the point where the last reference to a handle outside the cache is gone. */
  function StepUnref(s: State, t: nat): (s': State)
    requires t < |s.acts| && IsUnref(s.acts[t].pc) && s.acts[t].pc.h < |s.handles|
    requires s.acts[t].pc.UnrefSub? ==> s.handles[s.acts[t].pc.h].flags.refs > 0
    ensures Local(s, t, s')
  {
    var h := s.acts[t].pc.h;
    var f := s.handles[h].flags;
    match s.acts[t].pc
    case UnrefMark(_) => At(SetFlags(s, h, f.(usage := true)), t, UnrefSub(h))
    case UnrefSub(_) =>
      At(SetFlags(s, h, f.(refs := f.refs - 1)), t,
         if f.refs == 1 && !f.inCache then UnrefLock(h) else Cleanup(None))
  }

  predicate IsLock(pc: Pc) {
    pc.UnrefLock? || pc.EvictLock? || pc.EraseLock? || pc.SweepLock?
  }

  /** Entering the mutex, or waiting for it. SetCapacity stores the new capacity once inside. */
  function StepLock(s: State, t: nat): (s': State)
    requires t < |s.acts| && IsLock(s.acts[t].pc)
    ensures Local(s, t, s')
  {
    if s.owner.Some? then s else
    match s.acts[t].pc
    case UnrefLock(h) => At(s.(owner := Some(t)), t, UnrefRecycle(h))
    case EvictLock(p, newCapacity) =>
      At(s.(owner := Some(t), capacity := if p.ForCapacity? then newCapacity else s.capacity), t, EvictStart(p))
    case EraseLock(key) => At(s.(owner := Some(t)), t, EraseFind(key))
    case SweepLock => At(s.(owner := Some(t)), t, SweepClear)
  }

  predicate IsEvict(pc: Pc) {
    pc.EvictStart? || pc.EvictTest? || pc.EvictMove?
  }

  /** The loop of EvictFromCache, around TryEvict. */
  function StepEvict(s: State, t: nat): (s': State)
    requires t < |s.acts| && IsEvict(s.acts[t].pc)
    ensures Local(s, t, s')
  {
    match s.acts[t].pc
    case EvictStart(p) =>
      if s.usage == 0 then At(s, t, Decide(p, EvictCharge(p) <= s.capacity))
      else At(s, t, EvictTest(p, s.head, false))
    case EvictTest(p, i, second) =>
      if s.usage + EvictCharge(p) > s.capacity then At(s, t, EvictCas(p, i, second))
      else At(s.(head := i), t, Decide(p, true))
    case EvictMove(p, i, second) =>
      var j := if i + 1 >= |s.handles| then 0 else i + 1;
      if j == s.head then
        if second then At(s, t, Decide(p, false)) else At(s, t, EvictTest(p, j, true))
      else At(s, t, EvictTest(p, j, second))
  }

  predicate IsTry(pc: Pc) {
    pc.EvictCas? || pc.EvictClear?
  }

  /** TryEvict: an unreferenced handle without usage bit leaves the cache, another one loses the bit. */
  function StepTry(s: State, t: nat): (s': State)
    requires t < |s.acts| && IsTry(s.acts[t].pc) && s.acts[t].pc.i < |s.handles|
    ensures Local(s, t, s')
  {
    match s.acts[t].pc
    case EvictCas(p, i, second) =>
      if s.handles[i].flags == Flags(true, false, 0)
      then At(SetFlags(s, i, Flags(false, false, 0)), t, EvictErase(p, i, second))
      else At(s, t, EvictClear(p, i, second))
    case EvictClear(p, i, second) =>
      At(SetFlags(s, i, s.handles[i].flags.(usage := false)), t, EvictMove(p, i, second))
  }

  /** A failed eviction does not stop an insertion whose caller wants a handle, unless the limit is
      strict. */
  predicate Accepts(s: State, pc: Pc)
    requires pc.Decide?
  {
    pc.purpose.ForInsert? && (pc.success || (!s.strict && pc.purpose.job.hold))
  }

  /** A rejected value that the caller does not keep. */
  predicate Discards(s: State, pc: Pc)
    requires pc.Decide?
  {
    !Accepts(s, pc) && pc.purpose.ForInsert? && !pc.purpose.job.hold
  }

  /** Accept or reject an insertion; an accepted one gets a recycled handle or a new one. A rejected
      value is deleted unless the caller wanted a handle. */
  function StepDecide(s: State, t: nat): (s': State)
    requires t < |s.acts| && s.acts[t].pc.Decide?
    ensures Local(s, t, s')
  {
    match s.acts[t].pc
    case Decide(ForCapacity, _) => At(s, t, Unlock(None))
    case Decide(ForInsert(job), success) =>
      if !Accepts(s, s.acts[t].pc) then
        if job.hold then At(s, t, Unlock(None))
        else s.(next := s.next + 1,
                retired := s.retired + multiset{s.next},
                acts := s.acts[t := Activity(Unlock(None), s.acts[t].toDelete + multiset{s.next})])
      else if s.recycle != [] then
        var last := |s.recycle| - 1;
        At(s.(recycle := s.recycle[..last]), t, InsertFill(job, s.recycle[last]))
      else
        At(s.(handles := s.handles + [Handle(Flags(false, false, 0), job.key, 0, 0)]), t, InsertFill(job, |s.handles|))
  }

  predicate IsFill(pc: Pc) {
    pc.InsertFill? || pc.InsertStore? || pc.InsertCharge?
  }

  function StepFill(s: State, t: nat): (s': State)
    requires t < |s.acts| && IsFill(s.acts[t].pc) && s.acts[t].pc.h < |s.handles|
    ensures Local(s, t, s')
  {
    match s.acts[t].pc
    case InsertFill(job, h) =>
      var e := Handle(s.handles[h].flags, job.key, job.charge, s.next);
      At(s.(handles := s.handles[h := e], next := s.next + 1), t, InsertStore(job, h))
    case InsertStore(job, h) =>
      At(SetFlags(s, h, Flags(true, false, if job.hold then 1 else 0)), t, InsertFind(job, h))
    case InsertCharge(job, h) =>
      At(s.(usage := s.usage + job.charge), t,
         Unlock(if job.hold then Some(Token(h, job.key, s.handles[h].occupancy)) else None))
  }

  predicate IsTable(pc: Pc) {
    pc.EvictErase? || pc.InsertFind? || pc.InsertLink? || pc.EraseFind? || pc.SweepClear?
  }

  /** Finding, erasing and adding table entries. */
  function StepTable(s: State, t: nat): (s': State)
    requires t < |s.acts| && IsTable(s.acts[t].pc)
    requires s.acts[t].pc.EvictErase? ==> s.acts[t].pc.i < |s.handles|
    ensures Local(s, t, s')
  {
    match s.acts[t].pc
    case EvictErase(p, i, second) =>
      At(s.(table := s.table - {s.handles[i].key}), t, EvictRecycle(p, i, second))
    case InsertFind(job, h) =>
      if job.key in s.table
      then At(s.(table := s.table - {job.key}), t, InsertUnset(job, h, s.table[job.key]))
      else At(s, t, InsertLink(job, h))
    case InsertLink(job, h) => At(s.(table := s.table[job.key := h]), t, InsertCharge(job, h))
    case EraseFind(key) =>
      if key in s.table then At(s.(table := s.table - {key}), t, EraseUnset(s.table[key]))
      else At(s, t, Unlock(None))
    case SweepClear => At(s.(table := map[]), t, SweepUnset(0))
  }

  predicate IsUnset(pc: Pc) {
    pc.InsertUnset? || pc.EraseUnset? || pc.SweepUnset?
  }

  /** UnsetInCache: whoever clears the in-cache bit of an unreferenced handle recycles it. */
  function StepUnset(s: State, t: nat): (s': State)
    requires t < |s.acts| && IsUnset(s.acts[t].pc)
    requires s.acts[t].pc.InsertUnset? ==> s.acts[t].pc.old_ < |s.handles|
    requires s.acts[t].pc.EraseUnset? ==> s.acts[t].pc.h < |s.handles|
    ensures Local(s, t, s')
  {
    match s.acts[t].pc
    case InsertUnset(job, h, o) =>
      var f := s.handles[o].flags;
      At(SetFlags(s, o, f.(inCache := false)), t,
         if f.inCache && f.refs == 0 then InsertRecycle(job, h, o) else InsertLink(job, h))
    case EraseUnset(h) =>
      var f := s.handles[h].flags;
      At(SetFlags(s, h, f.(inCache := false)), t,
         if f.inCache && f.refs == 0 then EraseRecycle(h) else Unlock(None))
    case SweepUnset(i) =>
      if i >= |s.handles| then At(s, t, Unlock(None))
      else
        var f := s.handles[i].flags;
        At(SetFlags(s, i, f.(inCache := false)), t,
           if f.inCache && f.refs == 0 then SweepRecycle(i) else SweepUnset(i + 1))
  }

  predicate IsRecycle(pc: Pc) {
    pc.UnrefRecycle? || pc.EvictRecycle? || pc.InsertRecycle? || pc.EraseRecycle? || pc.SweepRecycle?
  }

  function Recycled(pc: Pc): nat
    requires IsRecycle(pc)
  {
    match pc
    case UnrefRecycle(h) => h
    case EvictRecycle(_, i, _) => i
    case InsertRecycle(_, _, o) => o
    case EraseRecycle(h) => h
    case SweepRecycle(i) => i
  }

  function AfterRecycle(pc: Pc): Pc
    requires IsRecycle(pc)
  {
    match pc
    case UnrefRecycle(_) => Unlock(None)
    case EvictRecycle(p, i, second) => EvictMove(p, i, second)
    case InsertRecycle(job, h, _) => InsertLink(job, h)
    case EraseRecycle(_) => Unlock(None)
    case SweepRecycle(i) => SweepUnset(i + 1)
  }

  /** RecycleHandle, under the mutex: the value is to be deleted, the key is cleared, the handle goes
      to the recycle bin and its charge is taken off. */
  function StepRecycle(s: State, t: nat): (s': State)
    requires t < |s.acts| && IsRecycle(s.acts[t].pc) && Recycled(s.acts[t].pc) < |s.handles|
    ensures Local(s, t, s')
  {
    var h := Recycled(s.acts[t].pc);
    var e := s.handles[h];
    s.(handles := s.handles[h := e.(key := CacheKey("", e.key.hash))],
       recycle := s.recycle + [h],
       usage := s.usage - e.charge,
       retired := s.retired + multiset{e.occupancy},
       acts := s.acts[t := Activity(AfterRecycle(s.acts[t].pc), s.acts[t].toDelete + multiset{e.occupancy})])
  }

  predicate IsExit(pc: Pc) {
    pc.Unlock? || pc.Cleanup? || pc.Holding?
  }

  /** Leaving the mutex, running the deleters, and Release of a held reference. */
  function StepExit(s: State, t: nat): (s': State)
    requires t < |s.acts| && IsExit(s.acts[t].pc)
    ensures Local(s, t, s')
  {
    match s.acts[t].pc
    case Unlock(ret) => At(s.(owner := None), t, Cleanup(ret))
    case Cleanup(ret) =>
      s.(deleted := s.deleted + s.acts[t].toDelete,
         acts := s.acts[t := Activity(if ret.Some? then Holding(ret.value) else Idle, multiset{})])
    case Holding(tok) => At(s, t, UnrefMark(tok.h))
  }

  /** The program points that have a handle in `h`. */
  predicate HasHandle(pc: Pc) {
    IsLookup(pc) || IsUnref(pc) || pc.UnrefLock? || pc.UnrefRecycle? || IsFill(pc) || pc.InsertFind?
    || pc.InsertUnset? || pc.InsertRecycle? || pc.InsertLink? || pc.EraseUnset? || pc.EraseRecycle?
  }

  /** The handles an activity points to belong to this shard. */
  predicate Points(pc: Pc, n: nat) {
    && (HasHandle(pc) ==> pc.h < n)
    && (IsTry(pc) || pc.EvictTest? || pc.EvictErase? || pc.EvictRecycle? || pc.EvictMove? || pc.SweepRecycle? ==>
          pc.i < n)
    && (pc.InsertUnset? || pc.InsertRecycle? ==> pc.old_ < n)
  }

  /** An activity can step: it points into the list, and drops only a reference that is there. */
  predicate CanStep(s: State, t: nat) {
    && t < |s.acts|
    && Points(s.acts[t].pc, |s.handles|)
    && (s.acts[t].pc.UnrefSub? ==> s.handles[s.acts[t].pc.h].flags.refs > 0)
  }

  /** One atomic step of activity `t`. */
  function Step(s: State, t: nat, c: Choice): (s': State)
    requires CanStep(s, t)
    ensures Local(s, t, s')
  {
    var pc := s.acts[t].pc;
    if pc.Idle? then StepIdle(s, t, c)
    else if IsLookup(pc) then StepLookup(s, t, c)
    else if IsUnref(pc) then StepUnref(s, t)
    else if IsLock(pc) then StepLock(s, t)
    else if IsEvict(pc) then StepEvict(s, t)
    else if IsTry(pc) then StepTry(s, t)
    else if pc.Decide? then StepDecide(s, t)
    else if IsFill(pc) then StepFill(s, t)
    else if IsTable(pc) then StepTable(s, t)
    else if IsUnset(pc) then StepUnset(s, t)
    else if IsRecycle(pc) then StepRecycle(s, t)
    else StepExit(s, t)
  }

  /** A shard at rest: no entries, `n` idle activities. */
  function Init(n: nat, capacity: nat): State {
    State([], [], map[], 0, capacity, false, 0, None, seq(n, _ => Activity(Idle, multiset{})), 0, multiset{},
      multiset{})
  }
}
