/** What a client of a shard, or of the sharded cache, sees when it calls twice in a row. */
module LruPatterns {
  import opened LruHandles
  import opened LruTable
  import opened LruList
  import opened LruCache
  import opened ShardedCache

  lemma RejectedIsAbsent(before: View, e: LRUHandle, wantHandle: bool, a: Admission, after: View, s: Settings)
    requires Inserting(before, e, wantHandle, a, after, s) && !a.accepted && e !in before.members.Values
    ensures forall key :: key in after.members ==> after.members[key] != e
  {
    MinusIsWithout(before.members, a.evicted);
  }

  /** The insertion, with what its table says about the new entry afterwards. */
  method InsertOne(shard: LRUCacheShard, key: TableKey, charge: nat, highPri: bool, wantHandle: bool)
    returns (ok: bool, handle: LRUHandle?, ghost e: LRUHandle, ghost accepted: bool)
    requires shard.Valid() && key.data != ""
    modifies shard.Repr()
    ensures shard.Valid() && fresh(e) && e.key == key && e.charge == charge && shard.handles == old(shard.handles) + {e}
    ensures accepted <==> key in shard.table_.members && shard.table_.members[key] == e
    ensures accepted <==>
      TotalCharge(old(shard.pinned)) + charge <= old(shard.capacity_)
      || (wantHandle && !old(shard.strict_capacity_limit_))
    ensures ok == (accepted || !wantHandle) && handle == if accepted && wantHandle then e else null
  {
    ghost var before := shard.Now();
    ghost var a;
    ok, handle, e, a := shard.Insert(key, charge, highPri, wantHandle);
    accepted := a.accepted;
    if !accepted {
      RejectedIsAbsent(before, e, wantHandle, a, shard.Now(), shard.Config());
    }
  }

  /** The entry that an insertion has stored is the one that a lookup finds; one that it has not accepted
      is not found. */
  method InsertAndLookup(shard: LRUCacheShard, key: TableKey, charge: nat, highPri: bool, wantHandle: bool)
    returns (ok: bool, handle: LRUHandle?, found: LRUHandle?, ghost e: LRUHandle)
    requires shard.Valid() && key.data != ""
    modifies shard.Repr()
    ensures fresh(e) && e.key == key && e.charge == charge
    ensures (found == e) <==>
      TotalCharge(old(shard.pinned)) + charge <= old(shard.capacity_)
      || (wantHandle && !old(shard.strict_capacity_limit_))
    ensures ok <==> found == e || !wantHandle
    ensures handle == if found == e && wantHandle then e else null
  {
    ghost var accepted;
    ok, handle, e, accepted := InsertOne(shard, key, charge, highPri, wantHandle);
    found := shard.Lookup(key);
  }

  /** Where an entry goes when its last reference is given back and it stays in the cache: to the newest
      end if there is a pool and it is of high priority or has been looked up, and otherwise to the end of
      the low-priority segment. */
  lemma Returns(before: View, e: LRUHandle, inCache: bool, pool: bool, after: View, poolCapacity: real)
    requires Releasing(before, e, inCache, pool, false, after, poolCapacity)
    ensures before.low <= |before.list|
    ensures after.list == if pool then before.list + [e]
                          else before.list[..before.low] + [e] + before.list[before.low..]
  {
  }

  /** An unreferenced entry is taken into use. */
  method TakeUp(shard: LRUCacheShard, key: TableKey) returns (e: LRUHandle, ghost k: nat)
    requires shard.Valid() && key in shard.table_.members && shard.table_.members[key] !in shard.pinned
    modifies shard.Repr()
    ensures shard.Valid() && e == old(shard.table_.members)[key] && e in shard.handles
    ensures e in shard.pinned && e.refs == 1 && e.hasHit && e.inCache
    ensures k < |old(shard.list)| && old(shard.list)[k] == e
    ensures shard.list == Without(old(shard.list), k) && shard.low == LowWithout(old(shard.low), k)
    ensures shard.usage_ <= shard.capacity_ && shard.high_pri_pool_ratio_ == old(shard.high_pri_pool_ratio_)
    ensures shard.handles == old(shard.handles)
  {
    ghost var list, low := shard.list, shard.low;
    e := shard.Lookup(key);
    k :| k < |list| && list[k] == e && shard.list == Without(list, k) && shard.low == LowWithout(low, k);
  }

  /** An unreferenced entry that is looked up and given back at once. */
  method LookupAndRelease(shard: LRUCacheShard, key: TableKey) returns (e: LRUHandle, last: bool, ghost k: nat)
    requires shard.Valid() && key in shard.table_.members && shard.table_.members[key] !in shard.pinned
    modifies shard.Repr()
    ensures shard.Valid() && e == old(shard.table_.members)[key] && k < |old(shard.list)| && old(shard.list)[k] == e
    ensures !last
    ensures var rest, low := Without(old(shard.list), k), LowWithout(old(shard.low), k);
      && low <= |rest|
      && shard.list == if shard.high_pri_pool_ratio_ > 0.0 then rest + [e] else rest[..low] + [e] + rest[low..]
  {
    e, k := TakeUp(shard, key);
    ghost var mid, pool := shard.Now(), shard.JoinsPool(e);
    last := shard.Release(e, false);
    Returns(mid, e, true, pool, shard.Now(), shard.high_pri_pool_capacity_);
  }

  /** An entry that the cache has accepted is what it finds for the key next, and it accepts one exactly if
      it fits beside what is in use in its shard, or if the limit is not strict and a handle is wanted. */
  method PutAndFind(cache: Cache, key: TableKey, charge: nat, highPri: bool, wantHandle: bool)
    returns (found: LRUHandle?, ghost e: LRUHandle)
    requires cache.Valid() && key.hash < Pow2(32) && key.data != ""
    modifies cache.Domain(key.hash)
    ensures fresh(e) && cache.Valid()
    ensures var home := cache.shards[cache.Home(key.hash)];
      TotalCharge(old(home.pinned)) + charge <= old(home.capacity_) || (wantHandle && !old(cache.strict)) ==> found == e
  {
    ghost var a;
    var ok, handle;
    ok, handle, e, a := cache.Insert(key, charge, highPri, wantHandle);
    found := cache.Lookup(key);
  }
}
