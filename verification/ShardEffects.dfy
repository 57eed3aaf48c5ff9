/** What each operation of a shard does to all that a client can tell of the shard: who holds which
    entry, what has been freed, and that no entry gets lost on the way. */
module ShardEffects {
  import opened LruHandles
  import opened LruList
  import opened LruCache

  // ---- The ledger ----

  /** The entries that are in the list, in use, or freed. */
  ghost function Ledger(v: View, freed: set<LRUHandle>): set<LRUHandle> {
    (set h | h in v.list) + v.pinned + freed
  }

  ghost function LedgerOf(shard: LRUCacheShard): set<LRUHandle>
    reads shard, shard.table_
  {
    Ledger(shard.Now(), shard.freed)
  }

  lemma WithoutOne(list: seq<LRUHandle>, k: nat)
    requires k < |list|
    ensures forall h :: h in list <==> h in Without(list, k) || h == list[k]
  {
    var rest := Without(list, k);
    assert list == list[..k] + [list[k]] + list[k + 1..];
    forall h ensures h in list <==> h in rest || h == list[k] {
      assert h in rest <==> h in list[..k] || h in list[k + 1..];
    }
  }

  lemma LacksOnlyOne(list: seq<LRUHandle>, low: nat, e: LRUHandle, rest: seq<LRUHandle>, restLow: nat)
    requires LacksOne(list, low, e, rest, restLow)
    ensures forall h :: h in list <==> h in rest || h == e
  {
    var k: nat :| k < |list| && list[k] == e && rest == Without(list, k) && restLow == LowWithout(low, k);
    WithoutOne(list, k);
  }

  /** Taking an entry into use moves it from the list to the entries in use, or nowhere. */
  lemma TakingLedger(before: View, e: LRUHandle, after: View, freed: set<LRUHandle>)
    requires Taking(before, e, after)
    ensures Ledger(after, freed) == Ledger(before, freed)
  {
    if e !in before.pinned {
      LacksOnlyOne(before.list, before.low, e, after.list, after.low);
    }
  }

  /** An entry no longer in use is in the list or freed. */
  lemma ReleasingLedger(before: View, e: LRUHandle, inCache: bool, pool: bool, last: bool, after: View,
                        poolCapacity: real, freed: set<LRUHandle>)
    requires Releasing(before, e, inCache, pool, last, after, poolCapacity) && e in before.pinned
    ensures Ledger(after, if last then freed + {e} else freed) == Ledger(before, freed)
  {
    if !last {
      InsertedMembers(before.list, before.low, e, pool, after.list, after.low, poolCapacity);
    }
  }

  /** An entry displaced or erased moves from the list to the freed entries. */
  lemma SparedLedger(list: seq<LRUHandle>, low: nat, gone: seq<LRUHandle>, rest: seq<LRUHandle>, restLow: nat)
    requires Spared(list, low, gone, rest, restLow) && |gone| <= 1
    ensures forall h :: h in list <==> h in rest || h in gone
  {
    if gone != [] {
      LacksOnlyOne(list, low, gone[0], rest, restLow);
    }
  }

  lemma ErasingLedger(before: View, key: TableKey, after: View, freed: set<LRUHandle>)
    requires Erasing(before, key, after)
    ensures Ledger(after, freed + set h | h in Displaced(before.members, before.pinned, key)) == Ledger(before, freed)
  {
    SparedLedger(before.list, before.low, Displaced(before.members, before.pinned, key), after.list, after.low);
  }

  lemma EvictingLedger(before: View, charge: nat, evicted: seq<LRUHandle>, after: View, capacity: nat,
                       freed: set<LRUHandle>)
    requires Evicting(before, charge, evicted, after, capacity)
    ensures Ledger(after, freed + set h | h in evicted) == Ledger(before, freed)
  {
  }

  lemma SweepingLedger(before: View, after: View, freed: set<LRUHandle>)
    requires after.list == [] && after.pinned == before.pinned
    ensures Ledger(after, freed + set h | h in before.list) == Ledger(before, freed)
  {
  }

  lemma SameLedger(v: View, freed: set<LRUHandle>, v': View, freed': set<LRUHandle>)
    requires v == v' && freed == freed'
    ensures Ledger(v, freed) == Ledger(v', freed')
  {
  }

  lemma SettlingLedger(middle: View, e: LRUHandle, wantHandle: bool, a: Admission, after: View, s: Settings,
                       freed: set<LRUHandle>)
    requires Settling(middle, e, wantHandle, a, after, s)
    ensures Ledger(after, freed + set h | h in AlsoFreed(e, a.accepted, wantHandle, a.displaced)) ==
            Ledger(middle, freed) + if a.accepted || !wantHandle then {e} else {}
  {
    if a.accepted {
      SparedLedger(middle.list, middle.low, a.displaced, a.rest, a.restLow);
      if !wantHandle {
        InsertedMembers(a.rest, a.restLow, e, s.ratio > 0.0 && e.isHighPri, after.list, after.low, s.poolCapacity);
      }
    }
  }

  /** An insertion adds the new entry, in whatever role, unless it reports failure, and loses none. */
  lemma InsertingLedger(before: View, e: LRUHandle, wantHandle: bool, a: Admission, after: View, s: Settings,
                        freed: set<LRUHandle>)
    requires Inserting(before, e, wantHandle, a, after, s)
    ensures Ledger(after, freed + set h | h in a.evicted + AlsoFreed(e, a.accepted, wantHandle, a.displaced)) ==
            Ledger(before, freed) + if a.accepted || !wantHandle then {e} else {}
  {
    var evicted, also := a.evicted, AlsoFreed(e, a.accepted, wantHandle, a.displaced);
    EvictingLedger(before, e.charge, evicted, a.middle, s.capacity, freed);
    SettlingLedger(a.middle, e, wantHandle, a, after, s, freed + set h | h in evicted);
    assert (freed + set h | h in evicted) + (set h | h in also) == freed + set h | h in evicted + also;
  }

  // ---- Effects ----

  /** Whoever held a reference before and still does, except to `e`, holds as many as before. */
  twostate predicate SameRefs(shard: LRUCacheShard, new e: LRUHandle?)
    reads shard, shard.pinned
  {
    forall h :: h in shard.pinned && h in old(shard.pinned) && h != e ==> h.refs == old(h.refs)
  }

  /** All that a client can tell of a shard, except how many references there are to an entry. */
  datatype State = State(view: View, settings: Settings, freed: set<LRUHandle>, handles: set<LRUHandle>)

  ghost function StateOf(shard: LRUCacheShard): State
    reads shard, shard.table_
  {
    State(shard.Now(), shard.Config(), shard.freed, shard.handles)
  }

  /** The shard is as it was. */
  twostate predicate Steady(shard: LRUCacheShard)
    reads shard, shard.table_, shard.pinned
  {
    StateOf(shard) == old(StateOf(shard)) && SameRefs(shard, null)
  }

  twostate predicate Looked(shard: LRUCacheShard, key: TableKey, new e: LRUHandle?)
    reads shard, shard.table_, shard.pinned
  {
    && shard.handles == old(shard.handles) && shard.Config() == old(shard.Config())
    && shard.freed == old(shard.freed) && SameRefs(shard, e)
    && e == (if key in old(shard.table_.members) then old(shard.table_.members)[key] else null)
    && (e == null ==> shard.Now() == old(shard.Now()))
    && (e != null ==> e.key == key && e in shard.pinned && Taking(old(shard.Now()), e, shard.Now()))
    && (e != null ==> e.refs == if e in old(shard.pinned) then old(e.refs) + 1 else 1)
  }

  /** The entry `e` is inserted, and handed out as `handle` if that is wanted and it was accepted. */
  twostate predicate Entered(shard: LRUCacheShard, key: TableKey, charge: nat, highPri: bool, wantHandle: bool,
                             ok: bool, new handle: LRUHandle?, new e: LRUHandle, new a: Admission)
    reads shard, shard.table_, shard.pinned
  {
    && shard.handles == old(shard.handles) + {e} && shard.Config() == old(shard.Config())
    && e.key == key && e.charge == charge && e.isHighPri == highPri && SameRefs(shard, null)
    && ok == (a.accepted || !wantHandle) && handle == (if a.accepted && wantHandle then e else null)
    && Inserting(old(shard.Now()), e, wantHandle, a, shard.Now(), shard.Config())
    && shard.freed == old(shard.freed) + (set h | h in a.evicted + AlsoFreed(e, a.accepted, wantHandle, a.displaced))
    && (handle != null ==> handle in shard.pinned && handle.refs == 1)
  }

  /** One reference is given back, and what that means by the references there were. */
  twostate predicate Released(shard: LRUCacheShard, handle: LRUHandle, force: bool, last: bool)
    reads shard, shard.table_, shard.pinned, handle
  {
    && shard.handles == old(shard.handles) && shard.Config() == old(shard.Config()) && old(handle.refs) > 0
    && shard.freed == (if last then old(shard.freed) + {handle} else old(shard.freed)) && SameRefs(shard, handle)
    && (old(handle.refs) > 1 ==> !last && shard.Now() == old(shard.Now()) && handle.refs == old(handle.refs) - 1)
    && (old(handle.refs) == 1 ==>
          && (last <==> !old(handle.inCache) || old(shard.usage_) > shard.capacity_ || force)
          && Releasing(old(shard.Now()), handle, old(handle.inCache), old(shard.JoinsPool(handle)), last,
                       shard.Now(), shard.high_pri_pool_capacity_))
  }

  twostate predicate Erased(shard: LRUCacheShard, key: TableKey)
    reads shard, shard.table_, shard.pinned
  {
    && shard.handles == old(shard.handles) && shard.Config() == old(shard.Config()) && SameRefs(shard, null)
    && Erasing(old(shard.Now()), key, shard.Now())
    && shard.freed == old(shard.freed) + set h | h in old(Displaced(shard.table_.members, shard.pinned, key))
  }

  /** The entries at the front of the list that a shard evicts when only `left` remain. */
  ghost function Front(list: seq<LRUHandle>, left: nat): seq<LRUHandle> {
    if left <= |list| then list[..|list| - left] else []
  }

  lemma FrontOf(front: seq<LRUHandle>, rest: seq<LRUHandle>)
    ensures Front(front + rest, |rest|) == front
  {
  }

  /** Shrinking to the capacity: by evictions from the front of the list, no more than needed. */
  ghost predicate Shrinks(before: State, after: State, capacity: nat) {
    var evicted := Front(before.view.list, |after.view.list|);
    && Evicting(before.view, 0, evicted, after.view, capacity)
    && after.settings == before.settings.(
         capacity := capacity, poolCapacity := PoolCapacity(capacity, before.settings.ratio))
    && after.freed == before.freed + (set h | h in evicted) && after.handles == before.handles
  }

  /** The limit is switched, and nothing else changes. */
  ghost predicate Switches(before: State, after: State, strict: bool) {
    && after.view == before.view && after.freed == before.freed && after.handles == before.handles
    && after.settings == before.settings.(strict := strict)
  }

  /** All entries of the list are freed; those in use stay. */
  ghost predicate Sweeps(before: State, after: State) {
    var v, w := before.view, after.view;
    && w.list == [] && w.low == 0 && w.usage == v.usage - Charges(v.list)
    && w.pinned == v.pinned && w.members == Minus(v.members, v.list)
    && after.settings == before.settings && after.handles == before.handles
    && after.freed == before.freed + set h | h in v.list
  }

  // ---- The operations have these effects, and lose no entry ----

  method Lookup(shard: LRUCacheShard, key: TableKey) returns (e: LRUHandle?)
    requires shard.Valid()
    modifies shard.Repr()
    ensures shard.Valid()
    ensures Looked(shard, key, e)
    ensures LedgerOf(shard) == old(LedgerOf(shard))
  {
    ghost var before := shard.Now();
    e := shard.Lookup(key);
    if e != null {
      TakingLedger(before, e, shard.Now(), shard.freed);
    }
  }

  method Insert(shard: LRUCacheShard, key: TableKey, charge: nat, highPri: bool, wantHandle: bool)
    returns (ok: bool, handle: LRUHandle?, ghost e: LRUHandle, ghost a: Admission)
    requires shard.Valid() && key.data != ""
    modifies shard.Repr()
    ensures shard.Valid() && fresh(e) && Entered(shard, key, charge, highPri, wantHandle, ok, handle, e, a)
    ensures LedgerOf(shard) == old(LedgerOf(shard)) + if ok then {e} else {}
  {
    ghost var before, freed := shard.Now(), shard.freed;
    ok, handle, e, a := shard.Insert(key, charge, highPri, wantHandle);
    InsertingLedger(before, e, wantHandle, a, shard.Now(), shard.Config(), freed);
  }

  method Release(shard: LRUCacheShard, handle: LRUHandle, force: bool) returns (last: bool)
    requires shard.Valid() && handle in shard.pinned
    modifies shard.Repr()
    ensures shard.Valid()
    ensures Released(shard, handle, force, last)
    ensures LedgerOf(shard) == old(LedgerOf(shard))
  {
    ghost var before, freed, refs := shard.Now(), shard.freed, handle.refs;
    ghost var inCache, pool := handle.inCache, shard.JoinsPool(handle);
    last := shard.Release(handle, force);
    if refs == 1 {
      ReleasingLedger(before, handle, inCache, pool, last, shard.Now(), shard.high_pri_pool_capacity_, freed);
    }
  }

  method Erase(shard: LRUCacheShard, key: TableKey)
    requires shard.Valid()
    modifies shard.Repr()
    ensures shard.Valid()
    ensures Erased(shard, key)
    ensures LedgerOf(shard) == old(LedgerOf(shard))
  {
    ghost var before, freed := shard.Now(), shard.freed;
    shard.Erase(key);
    ErasingLedger(before, key, shard.Now(), freed);
  }

  method SetCapacity(shard: LRUCacheShard, capacity: nat)
    requires shard.Valid()
    modifies shard.Repr()
    ensures shard.Valid()
    ensures Shrinks(old(StateOf(shard)), StateOf(shard), capacity) && SameRefs(shard, null)
    ensures LedgerOf(shard) == old(LedgerOf(shard))
  {
    ghost var before, freed := shard.Now(), shard.freed;
    var deleted := shard.SetCapacity(capacity);
    FrontOf(deleted, shard.list);
    EvictingLedger(before, 0, deleted, shard.Now(), capacity, freed);
  }

  method SetStrictCapacityLimit(shard: LRUCacheShard, strict: bool)
    requires shard.Valid()
    modifies shard.Repr()
    ensures shard.Valid()
    ensures Switches(old(StateOf(shard)), StateOf(shard), strict) && SameRefs(shard, null)
    ensures LedgerOf(shard) == old(LedgerOf(shard))
  {
    ghost var before, freed := shard.Now(), shard.freed;
    shard.SetStrictCapacityLimit(strict);
    SameLedger(before, freed, shard.Now(), shard.freed);
  }

  method EraseUnRefEntries(shard: LRUCacheShard)
    requires shard.Valid()
    modifies shard.Repr()
    ensures shard.Valid()
    ensures Sweeps(old(StateOf(shard)), StateOf(shard)) && SameRefs(shard, null)
    ensures LedgerOf(shard) == old(LedgerOf(shard))
  {
    ghost var before, freed := shard.Now(), shard.freed;
    var deleted := shard.EraseUnRefEntries();
    SweepingLedger(before, shard.Now(), freed);
  }
}
