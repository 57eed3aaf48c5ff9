/** What every interleaving of the CLOCK shard keeps. */
module ClockInvariant {
  import opened Wrappers
  import opened ClockState

  // ---- Counting ----

  /** No in-cache bit, no references: somebody must be about to recycle the handle, or has. */
  predicate Dead(f: Flags) {
    !f.inCache && f.refs == 0
  }

  /** The activity alone is responsible for handle `h` until it is in the recycle bin or in use. */
  predicate Owns(pc: Pc, h: nat) {
    match pc
    case UnrefLock(k) => k == h
    case UnrefRecycle(k) => k == h
    case EvictErase(_, k, _) => k == h
    case EvictRecycle(_, k, _) => k == h
    case InsertFill(_, k) => k == h
    case InsertStore(_, k) => k == h
    case InsertRecycle(_, _, k) => k == h
    case EraseRecycle(k) => k == h
    case SweepRecycle(k) => k == h
    case _ => false
  }

  /** The activity has one of the references counted in handle `h`. */
  predicate HasRef(pc: Pc, h: nat) {
    match pc
    case Holding(tok) => tok.h == h
    case LookupCheck(_, k) => k == h
    case UnrefMark(k) => k == h
    case UnrefSub(k) => k == h
    case InsertFind(job, k) => job.hold && k == h
    case InsertUnset(job, k, _) => job.hold && k == h
    case InsertRecycle(job, k, _) => job.hold && k == h
    case InsertLink(job, k) => job.hold && k == h
    case InsertCharge(job, k) => job.hold && k == h
    case Unlock(ret) => ret.Some? && ret.value.h == h
    case Cleanup(ret) => ret.Some? && ret.value.h == h
    case _ => false
  }

  function One(b: bool): nat {
    if b then 1 else 0
  }

  function Owners(acts: seq<Activity>, h: nat): nat {
    if acts == [] then 0 else One(Owns(acts[0].pc, h)) + Owners(acts[1..], h)
  }

  function Holders(acts: seq<Activity>, h: nat): nat {
    if acts == [] then 0 else One(HasRef(acts[0].pc, h)) + Holders(acts[1..], h)
  }

  function Pending(acts: seq<Activity>, o: nat): nat {
    if acts == [] then 0 else acts[0].toDelete[o] + Pending(acts[1..], o)
  }

  lemma {:induction false} CountUpdate(acts: seq<Activity>, t: nat, x: Activity, h: nat)
    requires t < |acts|
    ensures Owners(acts[t := x], h) == Owners(acts, h) - One(Owns(acts[t].pc, h)) + One(Owns(x.pc, h))
    ensures Holders(acts[t := x], h) == Holders(acts, h) - One(HasRef(acts[t].pc, h)) + One(HasRef(x.pc, h))
    ensures Pending(acts[t := x], h) == Pending(acts, h) - acts[t].toDelete[h] + x.toDelete[h]
    decreases |acts|
  {
    if t > 0 {
      CountUpdate(acts[1..], t - 1, x, h);
      assert acts[t := x][1..] == acts[1..][t - 1 := x];
    } else {
      assert acts[t := x][1..] == acts[1..];
    }
  }

  lemma {:induction false} CountAtLeast(acts: seq<Activity>, t: nat, h: nat)
    requires t < |acts|
    ensures Owners(acts, h) >= One(Owns(acts[t].pc, h))
    ensures Holders(acts, h) >= One(HasRef(acts[t].pc, h))
    ensures Pending(acts, h) >= acts[t].toDelete[h]
    decreases |acts|
  {
    if t > 0 {
      CountAtLeast(acts[1..], t - 1, h);
    }
  }

  // ---- The invariant ----

  predicate NeedsMutex(pc: Pc) {
    IsEvict(pc) || IsTry(pc) || pc.Decide? || IsFill(pc) || IsTable(pc) || IsUnset(pc) || IsRecycle(pc) || pc.Unlock?
  }

  /** What the activity inside the mutex is doing. */
  function Inside(s: State): Pc {
    if s.owner.Some? && s.owner.value < |s.acts| then s.acts[s.owner.value].pc else Idle
  }

  /** Exactly the activity that holds the mutex is inside; everyone points to real handles. */
  ghost predicate Shape(s: State) {
    && (s.owner.Some? ==> s.owner.value < |s.acts|)
    && (forall t :: 0 <= t < |s.acts| ==> (NeedsMutex(s.acts[t].pc) <==> s.owner == Some(t)))
    && (forall t :: 0 <= t < |s.acts| ==> Points(s.acts[t].pc, |s.handles|))
    && (s.head < |s.handles| || s.head == 0)
  }

  function RefsAt(s: State, h: nat): nat {
    if h < |s.handles| then s.handles[h].flags.refs else 0
  }

  predicate DeadAt(s: State, h: nat) {
    h < |s.handles| && Dead(s.handles[h].flags)
  }

  function Binned(s: State, h: nat): nat {
    multiset(s.recycle)[h]
  }

  /** A dead handle has exactly one owner: one activity, or one place in the recycle bin. A live one
      has none. */
  ghost predicate Ownership(s: State) {
    forall h: nat :: Owners(s.acts, h) + Binned(s, h) == One(DeadAt(s, h))
  }

  /** The reference count is the number of references. */
  ghost predicate References(s: State) {
    forall h: nat :: Holders(s.acts, h) == RefsAt(s, h)
  }

  // ---- What the activities know about the entries ----

  predicate Filled(pc: Pc) {
    pc.InsertStore? || pc.InsertFind? || pc.InsertUnset? || pc.InsertRecycle? || pc.InsertLink? || pc.InsertCharge?
  }

  function TokenOf(pc: Pc): Option<Token> {
    match pc
    case Holding(tok) => Some(tok)
    case Unlock(ret) => ret
    case Cleanup(ret) => ret
    case _ => None
  }

  predicate TokenFits(s: State, tok: Token) {
    tok.h < |s.handles| && s.handles[tok.h].key == tok.key && s.handles[tok.h].occupancy == tok.occupancy
  }

  /** A caller's handle still has the key asked for and the value found; a handle being inserted
      still has what was filled in. */
  predicate Knows(s: State, pc: Pc) {
    && (TokenOf(pc).Some? ==> TokenFits(s, TokenOf(pc).value))
    && (Filled(pc) ==>
          pc.h < |s.handles| && s.handles[pc.h].key == pc.job.key && s.handles[pc.h].charge == pc.job.charge)
  }

  ghost predicate Knowledge(s: State) {
    forall t :: 0 <= t < |s.acts| ==> Knows(s, s.acts[t].pc)
  }

  // ---- The table ----

  /** A handle whose in-cache bit is set but which the table does not have yet. */
  predicate Unlinked(pc: Pc, h: nat) {
    (pc.InsertFind? || pc.InsertUnset? || pc.InsertRecycle? || pc.InsertLink?) && pc.h == h
  }

  /** A handle whose in-cache bit is set although the table has lost it already. */
  predicate Leaving(pc: Pc, h: nat) {
    match pc
    case InsertUnset(_, _, o) => o == h
    case EraseUnset(k) => k == h
    case SweepUnset(i) => i <= h
    case SweepRecycle(i) => i < h
    case _ => false
  }

  predicate Linked(s: State, h: nat) {
    h < |s.handles| && s.handles[h].key in s.table && s.table[s.handles[h].key] == h
  }

  /** Table entries lead to handles with that key, in the cache but for the one being evicted. */
  ghost predicate TableOk(s: State) {
    forall k :: k in s.table ==>
      && s.table[k] < |s.handles|
      && s.handles[s.table[k]].key == k
      && (s.handles[s.table[k]].flags.inCache || (Inside(s).EvictErase? && Inside(s).i == s.table[k]))
      && !Unlinked(Inside(s), s.table[k])
      && !Leaving(Inside(s), s.table[k])
  }

  /** Handles in the cache are in the table. */
  ghost predicate CacheOk(s: State) {
    forall h :: 0 <= h < |s.handles| && s.handles[h].flags.inCache ==>
      Linked(s, h) || Unlinked(Inside(s), h) || Leaving(Inside(s), h)
  }

  predicate InCache(s: State, h: nat) {
    h < |s.handles| && s.handles[h].flags.inCache
  }

  /** What the activity inside the mutex has just made sure of. */
  predicate InsideOk(s: State) {
    match Inside(s)
    case EvictErase(_, i, _) => Linked(s, i)
    case InsertFind(_, h) => InCache(s, h)
    case InsertUnset(job, h, o) =>
      InCache(s, h) && InCache(s, o) && o != h && job.key !in s.table && s.handles[o].key == job.key
    case InsertRecycle(job, h, o) => InCache(s, h) && o != h && job.key !in s.table
    case InsertLink(job, h) => InCache(s, h) && job.key !in s.table
    case InsertCharge(_, h) => InCache(s, h)
    case EraseUnset(h) => InCache(s, h) && s.handles[h].key !in s.table
    case SweepUnset(_) => s.table == map[]
    case SweepRecycle(_) => s.table == map[]
    case _ => true
  }

  // ---- Values ----

  /** The handle holds no value: it is in the recycle bin, or was taken out and not filled yet. */
  predicate Vacant(s: State, h: nat) {
    h in s.recycle || (Inside(s).InsertFill? && Inside(s).h == h)
  }

  predicate Has(s: State, h: nat, o: nat) {
    h < |s.handles| && !Vacant(s, h) && s.handles[h].occupancy == o
  }

  /** Every value inserted so far is held by one handle, or was given up once. */
  ghost predicate Occupancies(s: State) {
    && (forall h: nat, o: nat :: Has(s, h, o) ==> o < s.next && s.retired[o] == 0)
    && (forall h: nat, k: nat, o: nat :: Has(s, h, o) && Has(s, k, o) ==> h == k)
    && (forall o: nat :: s.retired[o] <= 1)
    && (forall o: nat :: s.next <= o ==> s.retired[o] == 0)
    && (forall o: nat :: o < s.next && s.retired[o] == 0 ==> exists h: nat :: Has(s, h, o))
  }

  /** A value given up waits for its deleter in one call, or its deleter has run. */
  ghost predicate Deletions(s: State) {
    forall o: nat :: Pending(s.acts, o) + s.deleted[o] == s.retired[o]
  }

  // ---- Accounting ----

  function ChargeOf(s: State, h: nat): nat
    requires h < |s.handles|
  {
    if Vacant(s, h) then 0 else s.handles[h].charge
  }

  function TotalCharge(s: State, n: nat): nat
    requires n <= |s.handles|
  {
    if n == 0 then 0 else TotalCharge(s, n - 1) + ChargeOf(s, n - 1)
  }

  /** The charge of an entry that is in its handle but not in the usage yet. */
  function Adding(pc: Pc): nat {
    if Filled(pc) then pc.job.charge else 0
  }

  ghost predicate Accounting(s: State) {
    s.usage + Adding(Inside(s)) == TotalCharge(s, |s.handles|)
  }

  /** An eviction that has succeeded has made room. */
  predicate RoomOk(s: State) {
    Inside(s).Decide? && Inside(s).success ==> s.usage + EvictCharge(Inside(s).purpose) <= s.capacity
  }

  ghost predicate Inv(s: State) {
    && Shape(s)
    && Ownership(s)
    && References(s)
    && Knowledge(s)
    && TableOk(s)
    && CacheOk(s)
    && InsideOk(s)
    && Occupancies(s)
    && Deletions(s)
    && Accounting(s)
    && RoomOk(s)
  }
}
