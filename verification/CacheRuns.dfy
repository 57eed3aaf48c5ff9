/** The sharded cache over whole runs of a client: limits, references and lifetimes. */
module CacheRuns {
  import opened LruHandles
  import opened LruCache
  import opened ShardEffects
  import opened ShardedCache

  /** What a client may ask for. `Return` gives back the reference at this position of those it holds. */
  datatype Request =
    | Find(key: TableKey)
    | Put(key: TableKey, charge: nat, highPri: bool, wantHandle: bool)
    | Remove(key: TableKey)
    | Return(position: nat, force: bool)
    | Sweep
    | Grow(more: nat)
    | Resize(capacity: nat)
    | Limit(strict: bool)

  /** Hashes are 32-bit numbers, and an inserted key is not empty. */
  predicate WellFormed(r: Request) {
    match r
    case Find(key) => key.hash < Pow2(32)
    case Put(key, _, _, _) => key.hash < Pow2(32) && key.data != ""
    case Remove(key) => key.hash < Pow2(32)
    case _ => true
  }

  /** Requests that leave the limit alone, and do not lower the capacity. */
  predicate Mild(r: Request) {
    !r.Resize? && !r.Limit?
  }

  function Count(held: seq<LRUHandle>, h: LRUHandle): nat {
    multiset(held)[h]
  }

  /** The cache's books agree with the client's: exactly the entries it holds are in use, and each has as
      many references as the client holds of it. */
  ghost predicate Agree(cache: Cache, held: seq<LRUHandle>)
    reads cache.shards, Tables(cache.shards), held
  {
    && cache.Total().pinned == (set h | h in held)
    && forall h :: h in held ==> h.refs == Count(held, h)
  }

  lemma OneMore(held: seq<LRUHandle>, e: LRUHandle)
    ensures forall h :: Count(held + [e], h) == Count(held, h) + if h == e then 1 else 0
  {
  }

  function Dropped(held: seq<LRUHandle>, k: nat): seq<LRUHandle>
    requires k < |held|
  {
    held[..k] + held[k + 1..]
  }

  lemma OneLess(held: seq<LRUHandle>, k: nat)
    requires k < |held|
    ensures forall h :: Count(held, h) == Count(Dropped(held, k), h) + if h == held[k] then 1 else 0
  {
    assert held == held[..k] + [held[k]] + held[k + 1..];
  }

  /** All but `e` are as the client counts them. */
  ghost predicate AgreeBut(held: seq<LRUHandle>, e: LRUHandle?)
    reads held
  {
    forall h :: h in held && h != e ==> h.refs == Count(held, h)
  }

  lemma TakenOne(cache: Cache, held: seq<LRUHandle>, e: LRUHandle)
    requires cache.Total().pinned == (set h | h in held) + {e} && AgreeBut(held, e) && e.refs == Count(held, e) + 1
    ensures Agree(cache, held + [e])
  {
    OneMore(held, e);
  }

  lemma GivenBackOne(cache: Cache, held: seq<LRUHandle>, k: nat, refs: nat)
    requires k < |held| && AgreeBut(held, held[k]) && refs == Count(held, held[k])
    requires cache.Total().pinned == (set h | h in held) - if refs == 1 then {held[k]} else {}
    requires refs > 1 ==> held[k].refs == refs - 1
    ensures Agree(cache, Dropped(held, k))
  {
    OneLess(held, k);
    var left := Dropped(held, k);
    forall h ensures h in left <==> Count(left, h) > 0 {
    }
    forall h ensures h in held <==> Count(held, h) > 0 {
    }
  }

  // ---- One request ----

  method Lookup(cache: Cache, ghost held: seq<LRUHandle>, key: TableKey) returns (e: LRUHandle?)
    requires cache.Valid() && Agree(cache, held) && key.hash < Pow2(32)
    modifies Objects(cache.shards)
    ensures cache.Valid() && (old(cache.Within()) ==> cache.Within()) && cache.Grown()
    ensures AgreeBut(held, e)
    ensures cache.Total() == Plus(old(cache.Total()), Totals(if e == null then {} else {e}, {}, {}))
    ensures e != null ==> e.refs == Count(held, e) + 1
  {
    ObjectsOf(cache.shards, cache.Home(key.hash));
    e := cache.Lookup(key);
  }

  method FindOne(cache: Cache, held: seq<LRUHandle>, key: TableKey) returns (held': seq<LRUHandle>)
    requires cache.Valid() && Agree(cache, held) && key.hash < Pow2(32)
    modifies Objects(cache.shards)
    ensures cache.Valid() && (old(cache.Within()) ==> cache.Within()) && cache.Grown()
    ensures Agree(cache, held')
    ensures cache.Total().entries == old(cache.Total().entries)
  {
    var e := Lookup(cache, held, key);
    held' := held;
    if e != null {
      TakenOne(cache, held, e);
      held' := held + [e];
    }
  }

  method Insert(cache: Cache, ghost held: seq<LRUHandle>, key: TableKey, charge: nat, highPri: bool, wantHandle: bool)
    returns (ok: bool, handle: LRUHandle?, ghost e: LRUHandle)
    requires cache.Valid() && Agree(cache, held) && key.hash < Pow2(32) && key.data != ""
    modifies Objects(cache.shards)
    ensures cache.Valid() && (old(cache.Within()) ==> cache.Within()) && cache.Grown()
    ensures AgreeBut(held, null)
    ensures cache.Total().pinned == old(cache.Total().pinned) + if handle == null then {} else {handle}
    ensures cache.Total().entries == old(cache.Total().entries) + if ok then {e} else {}
    ensures handle != null ==> handle !in held && handle.refs == 1
  {
    ObjectsOf(cache.shards, cache.Home(key.hash));
    ghost var a;
    ok, handle, e, a := cache.Insert(key, charge, highPri, wantHandle);
  }

  method PutOne(cache: Cache, held: seq<LRUHandle>, key: TableKey, charge: nat, highPri: bool, wantHandle: bool)
    returns (held': seq<LRUHandle>)
    requires cache.Valid() && Agree(cache, held) && key.hash < Pow2(32) && key.data != ""
    modifies Objects(cache.shards)
    ensures cache.Valid() && (old(cache.Within()) ==> cache.Within()) && cache.Grown()
    ensures Agree(cache, held')
    ensures old(cache.Total().entries) <= cache.Total().entries
  {
    var ok, handle;
    ghost var e;
    ok, handle, e := Insert(cache, held, key, charge, highPri, wantHandle);
    held' := held;
    if handle != null {
      TakenOne(cache, held, handle);
      held' := held + [handle];
    }
  }

  method Release(cache: Cache, ghost held: seq<LRUHandle>, handle: LRUHandle, force: bool)
    requires cache.Valid() && Agree(cache, held) && handle in held
    modifies Objects(cache.shards)
    ensures cache.Total().pinned == old(cache.Total().pinned) - if old(handle.refs) == 1 then {handle} else {}
    ensures cache.Total().entries == old(cache.Total().entries)
    ensures old(handle.refs) > 1 ==> handle.refs == old(handle.refs) - 1
    ensures cache.Valid() && (old(cache.Within()) ==> cache.Within()) && cache.Grown()
    ensures AgreeBut(held, handle)
  {
    cache.HeldAtHome(handle);
    ObjectsOf(cache.shards, cache.Home(handle.key.hash));
    var last := cache.Release(handle, force);
    forall h | h in held && h != handle ensures h.refs == Count(held, h) {
      assert h in cache.Total().pinned;
    }
  }

  method ReturnOne(cache: Cache, held: seq<LRUHandle>, k: nat, force: bool) returns (held': seq<LRUHandle>)
    requires cache.Valid() && Agree(cache, held) && k < |held|
    modifies Objects(cache.shards)
    ensures cache.Valid() && (old(cache.Within()) ==> cache.Within()) && cache.Grown()
    ensures Agree(cache, held') && held' == Dropped(held, k)
    ensures cache.Total().entries == old(cache.Total().entries)
  {
    ghost var refs := held[k].refs;
    Release(cache, held, held[k], force);
    GivenBackOne(cache, held, k, refs);
    held' := Dropped(held, k);
  }

  method RemoveOne(cache: Cache, ghost held: seq<LRUHandle>, key: TableKey)
    requires cache.Valid() && Agree(cache, held) && key.hash < Pow2(32)
    modifies Objects(cache.shards)
    ensures cache.Valid() && (old(cache.Within()) ==> cache.Within()) && cache.Grown()
    ensures Agree(cache, held)
    ensures cache.Total().entries == old(cache.Total().entries)
  {
    ObjectsOf(cache.shards, cache.Home(key.hash));
    cache.Erase(key);
  }

  method SweepAll(cache: Cache, ghost held: seq<LRUHandle>)
    requires cache.Valid() && Agree(cache, held)
    modifies Objects(cache.shards)
    ensures cache.Valid() && (old(cache.Within()) ==> cache.Within()) && cache.Grown()
    ensures Agree(cache, held)
    ensures cache.Total().entries == old(cache.Total().entries)
    ensures cache.Total().entries == cache.Total().pinned + cache.Total().freed
  {
    cache.EraseUnRefEntries();
    cache.HeldOrFreed();
  }

  method ResizeTo(cache: Cache, ghost held: seq<LRUHandle>, capacity: nat)
    requires cache.Valid() && Agree(cache, held)
    modifies cache`capacity, Objects(cache.shards)
    ensures cache.Valid() && cache.Grown() && Agree(cache, held)
    ensures old(cache.Within()) && old(cache.capacity) <= capacity ==> cache.Within()
    ensures cache.Total().entries == old(cache.Total().entries) && cache.capacity == capacity
  {
    cache.SetCapacity(capacity);
  }

  method LimitTo(cache: Cache, ghost held: seq<LRUHandle>, strict: bool)
    requires cache.Valid() && Agree(cache, held)
    modifies cache`strict, Objects(cache.shards)
    ensures cache.Valid() && cache.Grown() && Agree(cache, held)
    ensures cache.Total().entries == old(cache.Total().entries) && cache.strict == strict
  {
    cache.SetStrictCapacityLimit(strict);
  }

  /** One request, whichever. A position of which nothing is held asks for nothing. */
  method Serve(cache: Cache, held: seq<LRUHandle>, r: Request) returns (held': seq<LRUHandle>)
    requires cache.Valid() && Agree(cache, held) && WellFormed(r)
    modifies cache`capacity, cache`strict, Objects(cache.shards)
    ensures cache.Valid() && cache.Grown() && Agree(cache, held')
    ensures Mild(r) && old(cache.Within()) ==> cache.Within()
    ensures old(cache.Total().entries) <= cache.Total().entries
  {
    held' := held;
    match r {
      case Find(key) =>
        held' := FindOne(cache, held, key);
      case Put(key, charge, highPri, wantHandle) =>
        held' := PutOne(cache, held, key, charge, highPri, wantHandle);
      case Remove(key) =>
        RemoveOne(cache, held, key);
      case Return(position, force) =>
        if position < |held| {
          held' := ReturnOne(cache, held, position, force);
        }
      case Sweep =>
        SweepAll(cache, held);
      case Grow(more) =>
        ResizeTo(cache, held, cache.capacity + more);
      case Resize(capacity) =>
        ResizeTo(cache, held, capacity);
      case Limit(strict) =>
        LimitTo(cache, held, strict);
    }
  }

  // ---- Whole runs ----

  /** Usage and capacity, as a client reads them. */
  datatype Reading = Reading(usage: nat, capacity: nat)

  ghost predicate Bounded(readings: seq<Reading>, shards: nat) {
    forall i :: 0 <= i < |readings| ==> readings[i].usage < readings[i].capacity + shards
  }

  lemma BoundedMore(r: Reading, readings: seq<Reading>, shards: nat)
    ensures Bounded([r] + readings, shards) <==> r.usage < r.capacity + shards && Bounded(readings, shards)
  {
    assert ([r] + readings)[0] == r && forall i :: 0 <= i < |readings| ==> ([r] + readings)[i + 1] == readings[i];
  }

  /** Reading the usage changes nothing. */
  method Read(cache: Cache, ghost held: seq<LRUHandle>) returns (reading: Reading)
    requires cache.Valid() && Agree(cache, held)
    ensures cache.Valid() && Agree(cache, held) && cache.Total() == old(cache.Total())
    ensures old(cache.Within()) <==> cache.Within()
    ensures Objects(cache.shards) == old(Objects(cache.shards))
    ensures reading == Reading(Sum(Usages(cache.shards)), cache.capacity)
    ensures cache.Within() ==> reading.usage < reading.capacity + |cache.shards|
  {
    assert allocated(Objects(cache.shards));
    TablesAmong(cache.shards);
    MadeAreObjects(cache.shards);
    var usage := cache.GetUsage();
    reading := Reading(usage, cache.capacity);
  }

  method ServeAndRead(cache: Cache, held: seq<LRUHandle>, r: Request)
    returns (held': seq<LRUHandle>, reading: Reading)
    requires cache.Valid() && Agree(cache, held) && WellFormed(r)
    modifies cache`capacity, cache`strict, Objects(cache.shards)
    ensures cache.Valid() && cache.Grown() && Agree(cache, held')
    ensures Mild(r) && old(cache.Within()) ==> cache.Within()
    ensures old(cache.Total().entries) <= cache.Total().entries
    ensures cache.Within() ==> reading.usage < reading.capacity + |cache.shards|
    ensures reading.capacity == cache.capacity
  {
    held' := Serve(cache, held, r);
    reading := Read(cache, held');
  }

  predicate AllMild(requests: seq<Request>) {
    requests == [] || (Mild(requests[0]) && AllMild(requests[1..]))
  }

  predicate AllWellFormed(requests: seq<Request>) {
    requests == [] || (WellFormed(requests[0]) && AllWellFormed(requests[1..]))
  }

  /** What is new since `a` is new since `b`, or was new by then. */
  lemma NewSince(a: set<object>, b: set<object>, c: set<object>)
    ensures c - a <= (c - b) + (b - a)
  {
  }

  /** Any requests, one after the other. The cache counts exactly the references that the client holds,
      and as long as the shards start within a strict limit and no request touches it, the usage is
      below the capacity plus one for every shard after each of them. */
  method Run(cache: Cache, held: seq<LRUHandle>, requests: seq<Request>)
    returns (held': seq<LRUHandle>, readings: seq<Reading>)
    requires cache.Valid() && Agree(cache, held)
    requires AllWellFormed(requests)
    modifies cache`capacity, cache`strict, Objects(cache.shards)
    ensures cache.Valid() && cache.Grown() && Agree(cache, held')
    ensures old(cache.Total().entries) <= cache.Total().entries && |readings| == |requests|
    ensures old(cache.Within()) && AllMild(requests) ==> cache.Within() && Bounded(readings, |cache.shards|)
    decreases |requests|
  {
    held', readings := held, [];
    if requests != [] {
      ghost var early := Objects(cache.shards);
      var reading;
      held', reading := ServeAndRead(cache, held, requests[0]);
      ghost var late := Objects(cache.shards);
      held', readings := Run(cache, held', requests[1..]);
      NewSince(early, late, Objects(cache.shards));
      BoundedMore(reading, readings, |cache.shards|);
      readings := [reading] + readings;
    }
  }

  lemma NothingHeld(cache: Cache)
    requires Agree(cache, [])
    ensures cache.Total().pinned == {}
  {
  }

  /** The client gives back all it holds. */
  method ReturnAll(cache: Cache, held: seq<LRUHandle>)
    requires cache.Valid() && Agree(cache, held)
    modifies Objects(cache.shards)
    ensures cache.Valid() && Agree(cache, []) && cache.Total().entries == old(cache.Total().entries)
    ensures cache.Grown()
    decreases |held|
  {
    if held != [] {
      ghost var early := Objects(cache.shards);
      var left := ReturnOne(cache, held, |held| - 1, false);
      ghost var late := Objects(cache.shards);
      ReturnAll(cache, left);
      NewSince(early, late, Objects(cache.shards));
    }
  }

  /** With nothing held, what goes is everything. */
  method SweepRest(cache: Cache)
    requires cache.Valid() && Agree(cache, [])
    modifies Objects(cache.shards)
    ensures cache.Valid() && cache.Grown()
    ensures cache.Total() == Totals({}, old(cache.Total().entries), old(cache.Total().entries))
  {
    SweepAll(cache, []);
    NothingHeld(cache);
  }

  /** The client gives back all it holds, and asks for all unreferenced entries to go: then every entry
      that the cache has ever accepted has been freed, and `FreedIsGone` says that this was once only. */
  method Retire(cache: Cache, held: seq<LRUHandle>)
    requires cache.Valid() && Agree(cache, held)
    modifies Objects(cache.shards)
    ensures cache.Valid() && cache.Grown()
    ensures cache.Total() == Totals({}, old(cache.Total().entries), old(cache.Total().entries))
  {
    ghost var early := Objects(cache.shards);
    ReturnAll(cache, held);
    ghost var late := Objects(cache.shards);
    SweepRest(cache);
    NewSince(early, late, Objects(cache.shards));
  }

  /** From a new cache through any requests to the end. */
  method Lifetime(capacity: nat, bits: nat, strict: bool, ratio: real, requests: seq<Request>)
    returns (cache: Cache, readings: seq<Reading>, ghost accepted: set<LRUHandle>)
    requires bits < 20 && 0.0 <= ratio <= 1.0
    requires AllWellFormed(requests)
    ensures cache.Valid() && cache.Total() == Totals({}, accepted, accepted)
    ensures |readings| == |requests|
    ensures strict && AllMild(requests) ==> Bounded(readings, |cache.shards|)
  {
    cache := new Cache(capacity, bits, strict, ratio);
    var held;
    held, readings := Run(cache, [], requests);
    accepted := cache.Total().entries;
    Retire(cache, held);
  }
}
