/** A cache in shards: capacity split, routing by hash, and totals. */
module ShardedCache {
  import opened LruHandles
  import opened LruCache
  import opened ShardEffects

  const MIN_SHARD_SIZE := 524288
  const MAX_DEFAULT_BITS := 6

  ghost function Sum(s: seq<nat>): nat {
    if s == [] then 0 else s[0] + Sum(s[1..])
  }

  lemma {:induction false} SumSnoc(s: seq<nat>, x: nat)
    ensures Sum(s + [x]) == Sum(s) + x
  {
    if s != [] {
      assert (s + [x])[1..] == s[1..] + [x];
      SumSnoc(s[1..], x);
    }
  }

  function Pow2(n: nat): (p: nat)
    ensures p > 0
  {
    if n == 0 then 1 else 2 * Pow2(n - 1)
  }

  lemma {:induction false} Pow2Sum(m: nat, n: nat)
    ensures Pow2(m + n) == Pow2(m) * Pow2(n)
  {
    if m > 0 {
      Pow2Sum(m - 1, n);
      assert Pow2(m + n) == 2 * Pow2(m - 1 + n);
      assert 2 * (Pow2(m - 1) * Pow2(n)) == 2 * Pow2(m - 1) * Pow2(n);
    }
  }

  // ---- Splitting the capacity ----

  function PerShard(capacity: nat, shards: nat): nat
    requires shards > 0
  {
    (capacity + (shards - 1)) / shards
  }

  lemma PerShardIsCeiling(capacity: nat, shards: nat)
    requires shards > 0
    ensures capacity <= PerShard(capacity, shards) * shards < capacity + shards
  {
    var q, r := (capacity + (shards - 1)) / shards, (capacity + (shards - 1)) % shards;
    assert capacity + (shards - 1) == q * shards + r;
  }

  lemma PerShardGrows(less: nat, more: nat, shards: nat)
    requires shards > 0 && less <= more
    ensures PerShard(less, shards) <= PerShard(more, shards)
  {
    var p, q := PerShard(less, shards), PerShard(more, shards);
    PerShardIsCeiling(less, shards);
    PerShardIsCeiling(more, shards);
    if q < p {
      OneLess(q, p, shards);
    }
  }

  lemma OneLess(q: nat, p: nat, n: nat)
    requires q < p
    ensures q * n <= p * n - n
  {
    assert p * n - n == (p - 1) * n;
    assert (p - 1) * n == q * n + (p - 1 - q) * n;
  }

  lemma {:induction false} SumAtMost(s: seq<nat>, bound: nat)
    requires forall i :: 0 <= i < |s| ==> s[i] <= bound
    ensures Sum(s) <= bound * |s|
  {
    if s != [] {
      SumAtMost(s[1..], bound);
      assert bound * |s| == bound + bound * (|s| - 1);
    }
  }

  /** Shards that each stay within their part of the capacity together stay below the capacity plus
      one unit for every shard. */
  lemma TotalUsageBound(usages: seq<nat>, capacity: nat)
    requires usages != []
    requires forall i :: 0 <= i < |usages| ==> usages[i] <= PerShard(capacity, |usages|)
    ensures Sum(usages) < capacity + |usages|
  {
    SumAtMost(usages, PerShard(capacity, |usages|));
    PerShardIsCeiling(capacity, |usages|);
  }

  /** The bound is sharp: rounding up can exceed the capacity by all but one unit for every shard. */
  lemma TotalUsageBoundIsSharp(shards: nat)
    requires shards > 0
    ensures PerShard(1, shards) == 1
    ensures PerShard(1, shards) * shards == 1 + (shards - 1)
  {
    PerShardIsCeiling(1, shards);
    assert PerShard(1, shards) == shards / shards;
  }

  // ---- Routing ----

  /** The bits above the lowest ones: `width` is a power of two. */
  function HighBits(hash: nat, width: nat): (q: nat)
    requires width > 0
  {
    hash / width
  }

  lemma HighBitsInterval(hash: nat, width: nat)
    requires width > 0
    ensures HighBits(hash, width) * width <= hash < (HighBits(hash, width) + 1) * width
  {
    var q, r := hash / width, hash % width;
    assert hash == q * width + r;
    assert (q + 1) * width == q * width + width;
  }

  lemma Below(q: nat, shard: nat, width: nat)
    requires q < shard
    ensures (q + 1) * width <= shard * width
  {
    assert shard * width == (q + 1) * width + (shard - q - 1) * width;
  }

  /** The shard of a 32-bit hash: its highest `bits` bits. */
  function Shard(hash: nat, bits: nat): nat
    requires bits <= 32
  {
    if bits > 0 then HighBits(hash, Pow2(32 - bits)) else 0
  }

  /** Every shard serves exactly the hashes of one interval, all intervals having the same length. */
  lemma ShardInterval(hash: nat, bits: nat, shard: nat)
    requires bits <= 32 && hash < Pow2(32) && shard < Pow2(bits)
    ensures Shard(hash, bits) == shard <==> shard * Pow2(32 - bits) <= hash < (shard + 1) * Pow2(32 - bits)
  {
    var width := Pow2(32 - bits);
    if bits > 0 {
      var q := HighBits(hash, width);
      HighBitsInterval(hash, width);
      if q < shard {
        Below(q, shard, width);
      } else if shard < q {
        Below(shard, q, width);
      }
    } else {
      assert shard == 0;
    }
  }

  lemma HighBitsBelow(hash: nat, width: nat, n: nat)
    requires width > 0 && hash < n * width
    ensures HighBits(hash, width) < n
  {
    var q := HighBits(hash, width);
    HighBitsInterval(hash, width);
  }

  lemma ShardInRange(hash: nat, bits: nat)
    requires bits <= 32 && hash < Pow2(32)
    ensures Shard(hash, bits) < Pow2(bits)
  {
    if bits > 0 {
      Pow2Sum(bits, 32 - bits);
      HighBitsBelow(hash, Pow2(32 - bits), Pow2(bits));
    }
  }

  // ---- Several shards ----

  /** The objects that the shards are made of. */
  ghost function Objects(s: seq<LRUCacheShard>): set<object>
    reads s
  {
    if s == [] then {} else s[0].Repr() + Objects(s[1..])
  }

  ghost predicate Serves(i: nat, bits: nat, hash: nat) {
    bits <= 32 && hash < Pow2(32) && Shard(hash, bits) == i
  }

  /** The shards, numbered from `first` on, are valid and have only entries that they serve. The three
      layers let the verifier treat this as a black box wherever `SoundStep` is not called. */
  ghost predicate Sound(s: seq<LRUCacheShard>, first: nat, bits: nat)
    reads s, Objects(s)
    decreases |s|, 2
  {
    s == [] || SoundFrom(s, first, bits)
  }

  ghost predicate SoundFrom(s: seq<LRUCacheShard>, first: nat, bits: nat)
    requires s != []
    reads s, Objects(s)
    decreases |s|, 1
  {
    SoundParts(s, first, bits)
  }

  ghost predicate SoundParts(s: seq<LRUCacheShard>, first: nat, bits: nat)
    requires s != []
    reads s, Objects(s)
    decreases |s|, 0
  {
    ShardOk(s[0], first, bits) && Sound(s[1..], first + 1, bits)
  }

  ghost predicate ShardOk(shard: LRUCacheShard, i: nat, bits: nat)
    reads shard, shard.Repr()
  {
    && shard.Valid() && shard.freed <= shard.handles
    && forall h :: h in shard.handles ==> Serves(i, bits, h.key.hash)
  }

  lemma SoundStep(s: seq<LRUCacheShard>, first: nat, bits: nat)
    requires s != []
    ensures Sound(s, first, bits) == SoundParts(s, first, bits)
  {
    assert Sound(s, first, bits) == SoundFrom(s, first, bits);
  }

  lemma SoundOne(shard: LRUCacheShard, i: nat, bits: nat)
    ensures Sound([shard], i, bits) <==> ShardOk(shard, i, bits)
  {
    var s := [shard];
    assert s[1..] == [];
    SoundStep(s, i, bits);
  }

  lemma SoundCons(s: seq<LRUCacheShard>, first: nat, bits: nat)
    requires s != []
    ensures Sound(s, first, bits) <==> Sound([s[0]], first, bits) && Sound(s[1..], first + 1, bits)
  {
    SoundOne(s[0], first, bits);
    SoundStep(s, first, bits);
  }

  lemma {:induction false} SoundSplit(s: seq<LRUCacheShard>, first: nat, bits: nat, i: nat)
    requires i <= |s|
    ensures Sound(s, first, bits) <==> Sound(s[..i], first, bits) && Sound(s[i..], first + i, bits)
    decreases i
  {
    if i == 0 {
      assert s[0..] == s;
    } else {
      SoundCons(s, first, bits);
      SoundCons(s[..i], first, bits);
      SoundSplit(s[1..], first + 1, bits, i - 1);
      assert s[1..][..i - 1] == s[..i][1..] && s[1..][i - 1..] == s[i..];
    }
  }

  lemma {:induction false} ObjectsOf(s: seq<LRUCacheShard>, i: nat)
    requires i < |s|
    ensures s[i].Repr() <= Objects(s)
  {
    if i > 0 {
      ObjectsOf(s[1..], i - 1);
    }
  }

  lemma {:induction false} ObjectsApart(s: seq<LRUCacheShard>, part: set<object>)
    requires forall i :: 0 <= i < |s| ==> s[i].Repr() !! part
    ensures Objects(s) !! part
  {
    if s != [] {
      ObjectsApart(s[1..], part);
    }
  }

  // ---- One operation on one shard ----

  /** A shard that stays within its capacity when the limit is strict. */
  ghost predicate InLimit(shard: LRUCacheShard)
    reads shard
  {
    shard.strict_capacity_limit_ && shard.usage_ <= shard.capacity_
  }

  method LookupIn(shard: LRUCacheShard, key: TableKey, ghost i: nat, ghost bits: nat) returns (e: LRUHandle?)
    requires Sound([shard], i, bits)
    modifies shard.Repr()
    ensures Looked(shard, key, e) && LedgerOf(shard) == old(LedgerOf(shard))
    ensures Sound([shard], i, bits)
  {
    SoundOne(shard, i, bits);
    e := ShardEffects.Lookup(shard, key);
    SoundOne(shard, i, bits);
  }

  method InsertIn(shard: LRUCacheShard, key: TableKey, charge: nat, highPri: bool, wantHandle: bool, ghost i: nat,
                  ghost bits: nat)
    returns (ok: bool, handle: LRUHandle?, ghost e: LRUHandle, ghost a: Admission)
    requires Sound([shard], i, bits) && key.data != "" && Serves(i, bits, key.hash)
    modifies shard.Repr()
    ensures fresh(e) && Entered(shard, key, charge, highPri, wantHandle, ok, handle, e, a)
    ensures LedgerOf(shard) == old(LedgerOf(shard)) + if ok then {e} else {}
    ensures Sound([shard], i, bits)
  {
    SoundOne(shard, i, bits);
    ok, handle, e, a := ShardEffects.Insert(shard, key, charge, highPri, wantHandle);
    SoundOne(shard, i, bits);
  }

  method ReleaseIn(shard: LRUCacheShard, handle: LRUHandle, force: bool, ghost i: nat, ghost bits: nat)
    returns (last: bool)
    requires Sound([shard], i, bits) && handle in shard.pinned
    modifies shard.Repr()
    ensures Released(shard, handle, force, last) && LedgerOf(shard) == old(LedgerOf(shard))
    ensures Sound([shard], i, bits)
  {
    SoundOne(shard, i, bits);
    last := ShardEffects.Release(shard, handle, force);
    SoundOne(shard, i, bits);
  }

  method EraseIn(shard: LRUCacheShard, key: TableKey, ghost i: nat, ghost bits: nat)
    requires Sound([shard], i, bits)
    modifies shard.Repr()
    ensures Erased(shard, key) && LedgerOf(shard) == old(LedgerOf(shard))
    ensures Sound([shard], i, bits)
  {
    SoundOne(shard, i, bits);
    ShardEffects.Erase(shard, key);
    SoundOne(shard, i, bits);
  }

  method SetCapacityIn(shard: LRUCacheShard, capacity: nat, ghost i: nat, ghost bits: nat)
    requires Sound([shard], i, bits)
    modifies shard.Repr()
    ensures Shrinks(old(StateOf(shard)), StateOf(shard), capacity) && SameRefs(shard, null)
    ensures LedgerOf(shard) == old(LedgerOf(shard))
    ensures Sound([shard], i, bits)
  {
    SoundOne(shard, i, bits);
    ShardEffects.SetCapacity(shard, capacity);
    SoundOne(shard, i, bits);
  }

  method SetStrictIn(shard: LRUCacheShard, strict: bool, ghost i: nat, ghost bits: nat)
    requires Sound([shard], i, bits)
    modifies shard.Repr()
    ensures Switches(old(StateOf(shard)), StateOf(shard), strict) && SameRefs(shard, null)
    ensures LedgerOf(shard) == old(LedgerOf(shard))
    ensures Sound([shard], i, bits)
  {
    SoundOne(shard, i, bits);
    ShardEffects.SetStrictCapacityLimit(shard, strict);
    SoundOne(shard, i, bits);
  }

  method EraseUnRefIn(shard: LRUCacheShard, ghost i: nat, ghost bits: nat)
    requires Sound([shard], i, bits)
    modifies shard.Repr()
    ensures Sweeps(old(StateOf(shard)), StateOf(shard)) && SameRefs(shard, null)
    ensures LedgerOf(shard) == old(LedgerOf(shard))
    ensures Sound([shard], i, bits)
  {
    SoundOne(shard, i, bits);
    ShardEffects.EraseUnRefEntries(shard);
    SoundOne(shard, i, bits);
  }

  // ---- The cache ----

  ghost function Usages(shards: seq<LRUCacheShard>): (s: seq<nat>)
    reads shards
    ensures |s| == |shards| && forall i :: 0 <= i < |shards| ==> s[i] == shards[i].usage_
  {
    if shards == [] then [] else [shards[0].usage_] + Usages(shards[1..])
  }

  /** New shards: empty, and with nothing in common. */
  ghost predicate Made(s: seq<LRUCacheShard>, perShard: nat, strict: bool)
    reads s
  {
    && (forall i, j :: 0 <= i < j < |s| ==> s[i].Repr() !! s[j].Repr())
    && forall i :: 0 <= i < |s| ==> Empty(s[i], perShard, strict)
  }

  method MakeShard(perShard: nat, strict: bool, ratio: real, ghost i: nat, ghost bits: nat)
    returns (shard: LRUCacheShard)
    requires ratio >= 0.0
    ensures Sound([shard], i, bits) && Empty(shard, perShard, strict) && fresh(shard.Repr())
  {
    shard := new LRUCacheShard(perShard, strict, ratio);
    SoundOne(shard, i, bits);
  }

  /** One more new shard, apart from those that there are. */
  method MakeOneMore(made: seq<LRUCacheShard>, perShard: nat, strict: bool, ratio: real, ghost bits: nat)
    returns (shard: LRUCacheShard)
    requires ratio >= 0.0 && Sound(made, 0, bits) && Made(made, perShard, strict)
    ensures Sound(made + [shard], 0, bits) && Made(made + [shard], perShard, strict) && fresh(shard.Repr())
  {
    assert allocated(Objects(made));
    MadeAreObjects(made);
    shard := MakeShard(perShard, strict, ratio, |made|, bits);
    SoundSnoc(made, shard, 0, bits);
  }

  method MakeShards(n: nat, perShard: nat, strict: bool, ratio: real, ghost bits: nat)
    returns (made: seq<LRUCacheShard>)
    requires ratio >= 0.0
    ensures |made| == n && Sound(made, 0, bits) && Made(made, perShard, strict) && fresh(Objects(made))
  {
    made := [];
    while |made| < n
      invariant |made| <= n && Sound(made, 0, bits) && Made(made, perShard, strict) && fresh(Objects(made))
    {
      var shard := MakeOneMore(made, perShard, strict, ratio, bits);
      ObjectsSnoc(made, shard);
      made := made + [shard];
    }
  }

  lemma MadeAreObjects(s: seq<LRUCacheShard>)
    ensures forall i :: 0 <= i < |s| ==> s[i].Repr() <= Objects(s)
  {
    forall i | 0 <= i < |s| ensures s[i].Repr() <= Objects(s) {
      ObjectsOf(s, i);
    }
  }

  ghost predicate Empty(shard: LRUCacheShard, perShard: nat, strict: bool)
    reads shard
  {
    && shard.usage_ == 0 && shard.capacity_ == perShard && shard.strict_capacity_limit_ == strict
    && shard.handles == {} && shard.pinned == {} && shard.list == [] && shard.freed == {}
  }

  lemma SoundSnoc(s: seq<LRUCacheShard>, shard: LRUCacheShard, first: nat, bits: nat)
    requires Sound(s, first, bits) && Sound([shard], first + |s|, bits)
    ensures Sound(s + [shard], first, bits)
  {
    SoundSplit(s + [shard], first, bits, |s|);
    assert (s + [shard])[..|s|] == s && (s + [shard])[|s|..] == [shard];
  }

  lemma {:induction false} ObjectsSnoc(s: seq<LRUCacheShard>, shard: LRUCacheShard)
    ensures Objects(s + [shard]) == Objects(s) + shard.Repr()
  {
    if s == [] {
      assert s + [shard] == [shard];
    } else {
      assert (s + [shard])[1..] == s[1..] + [shard];
      ObjectsSnoc(s[1..], shard);
    }
  }

  // ---- Totals ----

  /** What callers hold, what has been freed, and all that has ever been accepted. */
  datatype Totals = Totals(pinned: set<LRUHandle>, freed: set<LRUHandle>, entries: set<LRUHandle>)

  ghost function Plus(t: Totals, u: Totals): Totals {
    Totals(t.pinned + u.pinned, t.freed + u.freed, t.entries + u.entries)
  }

  lemma PlusMore(t: Totals, u: Totals, more: Totals)
    ensures Plus(t, Plus(u, more)) == Plus(Plus(t, u), more)
  {
  }

  /** What an insertion adds: what is handed out, what is freed, and the entry if the status is OK. */
  ghost function Taken(ok: bool, handle: LRUHandle?, wantHandle: bool, e: LRUHandle, a: Admission): Totals {
    Totals(
      if handle == null then {} else {handle},
      set h | h in a.evicted + AlsoFreed(e, a.accepted, wantHandle, a.displaced),
      if ok then {e} else {})
  }

  ghost function TotalOf(shard: LRUCacheShard): Totals
    reads shard, shard.table_
  {
    Totals(shard.pinned, shard.freed, LedgerOf(shard))
  }

  ghost function Tables(s: seq<LRUCacheShard>): set<object> {
    set shard | shard in s :: shard.table_
  }

  /** The total of several shards, in two layers like `Sound`. */
  ghost function TotalIn(s: seq<LRUCacheShard>): Totals
    reads s, Tables(s)
    decreases |s|, 1
  {
    if s == [] then Totals({}, {}, {}) else TotalFrom(s)
  }

  ghost function TotalFrom(s: seq<LRUCacheShard>): Totals
    requires s != []
    reads s, Tables(s)
    decreases |s|, 0
  {
    Plus(TotalOf(s[0]), TotalIn(s[1..]))
  }

  lemma TotalStep(s: seq<LRUCacheShard>)
    requires s != []
    ensures TotalIn(s) == Plus(TotalOf(s[0]), TotalIn(s[1..]))
  {
    assert TotalIn(s) == TotalFrom(s);
  }

  lemma TotalOne(shard: LRUCacheShard)
    ensures TotalIn([shard]) == TotalOf(shard)
  {
    TotalStep([shard]);
    assert [shard][1..] == [];
  }

  lemma {:induction false} TotalSplit(s: seq<LRUCacheShard>, i: nat)
    requires i <= |s|
    ensures TotalIn(s) == Plus(TotalIn(s[..i]), TotalIn(s[i..]))
    decreases i
  {
    if i == 0 {
      assert s[0..] == s;
    } else {
      TotalStep(s);
      TotalStep(s[..i]);
      TotalSplit(s[1..], i - 1);
      assert s[1..][..i - 1] == s[..i][1..] && s[1..][i - 1..] == s[i..];
    }
  }

  /** Somebody among the shards has handed out what is held. */
  lemma {:induction false} HolderOf(s: seq<LRUCacheShard>, h: LRUHandle) returns (i: nat)
    requires h in TotalIn(s).pinned
    ensures i < |s| && h in s[i].pinned
  {
    TotalStep(s);
    if h in s[0].pinned {
      i := 0;
    } else {
      i := HolderOf(s[1..], h);
      i := i + 1;
    }
  }

  lemma {:induction false} FreedIn(s: seq<LRUCacheShard>, h: LRUHandle) returns (i: nat)
    requires h in TotalIn(s).freed
    ensures i < |s| && h in s[i].freed
  {
    TotalStep(s);
    if h in s[0].freed {
      i := 0;
    } else {
      i := FreedIn(s[1..], h);
      i := i + 1;
    }
  }

  lemma {:induction false} HeldOrFreedIn(s: seq<LRUCacheShard>)
    requires forall j :: 0 <= j < |s| ==> s[j].list == []
    ensures TotalIn(s).entries == TotalIn(s).pinned + TotalIn(s).freed
  {
    if s != [] {
      TotalStep(s);
      HeldOrFreedIn(s[1..]);
    }
  }

  lemma {:induction false} NothingYet(s: seq<LRUCacheShard>)
    requires forall j :: 0 <= j < |s| ==> TotalOf(s[j]) == Totals({}, {}, {})
    ensures TotalIn(s) == Totals({}, {}, {})
  {
    if s != [] {
      TotalStep(s);
      NothingYet(s[1..]);
    }
  }

  lemma {:induction false} TablesAmong(s: seq<LRUCacheShard>)
    ensures Tables(s) <= Objects(s)
  {
    forall shard | shard in s ensures shard.table_ in Objects(s) {
      var i :| 0 <= i < |s| && s[i] == shard;
      ObjectsOf(s, i);
    }
  }

  /** The entry that an erasure of the key frees, if any. */
  ghost function DisplacedBy(shard: LRUCacheShard, key: TableKey): set<LRUHandle>
    reads shard, shard.table_
  {
    set h | h in Displaced(shard.table_.members, shard.pinned, key)
  }

  /** The LRU cache: shards that have nothing in common, each with its part of the capacity. */
  class Cache {
    const numShardBits: nat
    const shards: seq<LRUCacheShard>
    var capacity: nat
    var strict: bool

    ghost predicate NoneIn(s: seq<LRUCacheShard>, part: set<object>) {
      forall k :: 0 <= k < |s| ==> s[k] !in part
    }

    ghost predicate Disjoint()
      reads shards
    {
      && (forall i, j :: 0 <= i < j < |shards| ==> shards[i].Repr() !! shards[j].Repr())
      && forall i :: 0 <= i < |shards| ==> this !in shards[i].Repr()
    }

    /** All shards are there and sound. */
    ghost predicate Layout()
      reads shards, Objects(shards)
    {
      numShardBits < 20 && |shards| == Pow2(numShardBits) && Disjoint() && Sound(shards, 0, numShardBits)
    }

    /** Every shard has its part of the capacity, and the limit is the same for all. */
    ghost predicate Split()
      reads this, shards
    {
      && |shards| > 0
      && forall i :: 0 <= i < |shards| ==>
           shards[i].capacity_ == PerShard(capacity, |shards|) && shards[i].strict_capacity_limit_ == strict
    }

    ghost predicate Valid()
      reads this, shards, Objects(shards)
    {
      Layout() && Split()
    }

    /** The limit is strict, and every shard stays within its part of the capacity. */
    ghost predicate Within()
      reads shards
    {
      forall i :: 0 <= i < |shards| ==> InLimit(shards[i])
    }

    /** The cache with its shards, as NewLRUCache makes it: fewer than 2^20 shards, and a ratio that is a
        proportion. */
    constructor (capacity: nat, bits: nat, strict: bool, ratio: real)
      requires bits < 20 && 0.0 <= ratio <= 1.0
      ensures Valid() && numShardBits == bits && this.capacity == capacity && this.strict == strict
      ensures fresh(Objects(shards)) && Total() == Totals({}, {}, {})
      ensures forall i :: 0 <= i < |shards| ==> shards[i].usage_ == 0
      ensures strict ==> Within()
    {
      var made := MakeShards(Pow2(bits), PerShard(capacity, Pow2(bits)), strict, ratio, bits);
      assert allocated(Objects(made));
      numShardBits, shards := bits, made;
      this.capacity, this.strict := capacity, strict;
      new;
      Complete();
    }

    /** New shards, and the settings they are made for: the cache is complete. */
    lemma Complete()
      requires numShardBits < 20 && |shards| == Pow2(numShardBits) && Sound(shards, 0, numShardBits)
      requires Made(shards, PerShard(capacity, |shards|), strict)
      requires this !in Objects(shards)
      ensures Valid() && (strict ==> Within()) && Total() == Totals({}, {}, {})
    {
      MadeAreObjects(shards);
      NothingYet(shards);
    }

    // ---- Framing ----

    lemma Around(i: nat)
      requires i < |shards|
      ensures Sound(shards, 0, numShardBits) <==>
              Sound(shards[..i], 0, numShardBits) && Sound([shards[i]], i, numShardBits) &&
                Sound(shards[i + 1..], i + 1, numShardBits)
    {
      SoundSplit(shards, 0, numShardBits, i);
      SoundSplit(shards[i..], i, numShardBits, 1);
      assert shards[i..][..1] == [shards[i]] && shards[i..][1..] == shards[i + 1..];
    }

    /** Shard `i` and the others have nothing in common. */
    lemma Outside(i: nat)
      requires i < |shards| && Disjoint()
      ensures Objects(shards[..i]) !! shards[i].Repr() && Objects(shards[i + 1..]) !! shards[i].Repr()
      ensures NoneIn(shards[..i], shards[i].Repr()) && NoneIn(shards[i + 1..], shards[i].Repr())
      ensures shards[i].Repr() <= Objects(shards)
    {
      forall j | 0 <= j < |shards| && j != i ensures shards[j] !in shards[i].Repr() {
        assert shards[j] in shards[j].Repr();
      }
      ObjectsApart(shards[..i], shards[i].Repr());
      ObjectsApart(shards[i + 1..], shards[i].Repr());
      ObjectsOf(shards, i);
    }

    /** The objects of all shards but shard `i`. */
    ghost function Others(i: nat): set<object>
      requires i < |shards|
      reads shards
    {
      Objects(shards[..i]) + Objects(shards[i + 1..])
    }

    /** Shard `i` alone is opened up. */
    ghost predicate Opened(i: nat)
      requires i < |shards|
      reads shards, Objects(shards), Others(i)
    {
      && numShardBits < 20 && |shards| == Pow2(numShardBits) && Disjoint()
      && Sound(shards[..i], 0, numShardBits) && Sound(shards[i + 1..], i + 1, numShardBits)
      && forall j :: 0 <= j < |shards| && j != i ==> shards[j].Repr() <= Others(i) && shards[j].pinned <= Others(i)
    }

    lemma Open(i: nat)
      requires i < |shards| && Layout()
      ensures Opened(i) && Sound([shards[i]], i, numShardBits)
      ensures Others(i) !! shards[i].Repr() && allocated(Others(i))
    {
      Around(i);
      Outside(i);
      forall j | 0 <= j < |shards| && j != i
        ensures shards[j].Repr() <= Others(i) && shards[j].pinned <= Others(i)
      {
        PinnedKnown(j);
        if j < i {
          ObjectsOf(shards[..i], j);
        } else {
          ObjectsOf(shards[i + 1..], j - i - 1);
        }
      }
    }

    lemma PinnedKnown(j: nat)
      requires j < |shards| && Layout()
      ensures shards[j].pinned <= shards[j].handles
    {
      Around(j);
      SoundOne(shards[j], j, numShardBits);
    }

    /** The number of the shard that serves a hash. */
    function Home(hash: nat): (i: nat)
      requires numShardBits <= 32 && |shards| == Pow2(numShardBits) && hash < Pow2(32)
      ensures i < |shards| && Serves(i, numShardBits, hash)
    {
      ShardInRange(hash, numShardBits);
      Shard(hash, numShardBits)
    }

    /** The objects of the shard that serves a hash. */
    ghost function Domain(hash: nat): set<object>
      reads shards
    {
      if numShardBits <= 32 && |shards| == Pow2(numShardBits) && hash < Pow2(32) then shards[Home(hash)].Repr() else {}
    }

    /** All that callers hold, all that has been freed, and all that the cache has ever accepted. */
    ghost function Total(): Totals
      reads shards, Tables(shards)
    {
      TotalIn(shards)
    }

    /** The entries that callers hold, shard by shard. */
    ghost function InUse(): set<object>
      reads shards
    {
      set j, h | 0 <= j < |shards| && h in shards[j].pinned :: h
    }

    /** The totals of all shards but shard `i`. */
    ghost function Rest(i: nat): Totals
      requires i < |shards|
      reads shards, Tables(shards)
    {
      Plus(TotalIn(shards[..i]), TotalIn(shards[i + 1..]))
    }

    lemma TotalAround(i: nat)
      requires i < |shards|
      ensures Total() == Plus(Rest(i), TotalOf(shards[i]))
    {
      TotalSplit(shards, i);
      TotalSplit(shards[i..], 1);
      assert shards[i..][..1] == [shards[i]] && shards[i..][1..] == shards[i + 1..];
      TotalOne(shards[i]);
    }

    /** Every entry that a caller holds is in the shard that its own hash leads to. */
    ghost predicate AtHome()
      reads shards, Tables(shards)
    {
      forall h :: h in Total().pinned ==>
        numShardBits <= 32 && |shards| == Pow2(numShardBits) && h.key.hash < Pow2(32)
        && h in shards[Home(h.key.hash)].pinned
    }

    lemma AllAtHome()
      requires Layout()
      ensures AtHome()
    {
      forall h | h in Total().pinned
        ensures h.key.hash < Pow2(32) && h in shards[Home(h.key.hash)].pinned
      {
        HeldAtHome(h);
      }
    }

    /** What others hold is not held in shard `i`. */
    lemma RestIsElsewhere(i: nat)
      requires i < |shards| && Layout()
      ensures Rest(i).pinned !! shards[i].pinned
    {
      forall h | h in Rest(i).pinned ensures h !in shards[i].pinned {
        var j: nat;
        if h in TotalIn(shards[..i]).pinned {
          j := HolderOf(shards[..i], h);
        } else {
          j := HolderOf(shards[i + 1..], h);
          j := i + 1 + j;
        }
        PinnedKnown(j);
        PinnedKnown(i);
        assert shards[j].Repr() !! shards[i].Repr();
      }
    }

    /** All shards but shard `i` are as before. */
    twostate predicate OnlyAt(i: nat)
      requires i < |shards|
      reads shards, Tables(shards), InUse()
    {
      forall j :: 0 <= j < |shards| && j != i ==> Steady(shards[j])
    }

    /** Shard `i` may have taken in new entries. */
    twostate predicate GrownAt(i: nat)
      requires i < |shards|
      reads shards
    {
      forall h :: h in shards[i].handles ==> h in old(shards[i].handles) || fresh(h)
    }

    twostate lemma StillDisjoint(i: nat)
      requires i < |shards| && old(Disjoint()) && OnlyAt(i) && GrownAt(i)
      ensures Disjoint()
    {
      forall j | 0 <= j < |shards|
        ensures forall o :: o in shards[j].Repr() ==> o in old(shards[j].Repr()) || (j == i && fresh(o))
      {
      }
    }

    /** None of the other shards has been touched. */
    twostate predicate Apart(i: nat)
      requires i < |shards|
      reads shards, Others(i)
    {
      Others(i) == old(Others(i)) && old(allocated(Others(i))) && unchanged(Others(i))
    }

    twostate lemma OthersSound(i: nat)
      requires i < |shards| && old(Opened(i)) && Apart(i)
      ensures Sound(shards[..i], 0, numShardBits) && Sound(shards[i + 1..], i + 1, numShardBits)
    {
    }

    twostate lemma OthersTotal(i: nat)
      requires i < |shards| && old(Opened(i)) && Apart(i)
      ensures Rest(i) == old(Rest(i))
    {
      TablesAmong(shards[..i]);
      TablesAmong(shards[i + 1..]);
    }

    twostate lemma OthersSteady(i: nat)
      requires i < |shards| && old(Opened(i)) && Apart(i)
      ensures OnlyAt(i)
    {
      forall j | 0 <= j < |shards| && j != i ensures Steady(shards[j]) {
        assert old(shards[j].Repr() <= Others(i) && shards[j].pinned <= Others(i));
        assert shards[j] in old(shards[j].Repr()) && shards[j].table_ in old(shards[j].Repr());
      }
    }

    /** What shard `i` is opened up for has been done. */
    twostate lemma Close(i: nat)
      requires i < |shards| && old(Opened(i)) && Apart(i) && GrownAt(i)
      requires Sound([shards[i]], i, numShardBits)
      ensures Layout() && OnlyAt(i) && Rest(i) == old(Rest(i))
    {
      OthersSound(i);
      OthersTotal(i);
      OthersSteady(i);
      StillDisjoint(i);
      Around(i);
    }

    /** With the settings unchanged, and the limit kept where it was kept. */
    twostate lemma StillSplit(i: nat)
      requires i < |shards| && old(Split()) && OnlyAt(i) && capacity == old(capacity) && strict == old(strict)
      requires shards[i].Config() == old(shards[i].Config()) && (old(InLimit(shards[i])) ==> InLimit(shards[i]))
      ensures Split() && (old(Within()) ==> Within())
    {
      forall j | 0 <= j < |shards|
        ensures shards[j].capacity_ == PerShard(capacity, |shards|) && shards[j].strict_capacity_limit_ == strict
        ensures old(InLimit(shards[j])) ==> InLimit(shards[j])
      {
        assert j != i ==> Steady(shards[j]);
        assert shards[j].Config() == old(shards[j].Config());
      }
    }

    /** All objects that have joined the shards, from shard `k` on, are new. */
    twostate lemma FreshFrom(k: nat)
      requires k <= |shards| && forall j :: 0 <= j < |shards| ==> GrownAt(j)
      ensures fresh(Objects(shards[k..]) - old(Objects(shards[k..])))
      decreases |shards| - k
    {
      if k < |shards| {
        FreshFrom(k + 1);
        assert GrownAt(k);
        assert shards[k..][1..] == shards[k + 1..];
      }
    }

    twostate lemma FreshAll()
      requires forall j :: 0 <= j < |shards| ==> GrownAt(j)
      ensures fresh(Objects(shards) - old(Objects(shards)))
    {
      FreshFrom(0);
      assert shards[0..] == shards;
    }

    twostate lemma FreshAt(i: nat)
      requires i < |shards| && OnlyAt(i) && GrownAt(i)
      ensures fresh(Objects(shards) - old(Objects(shards)))
    {
      forall j | 0 <= j < |shards| ensures GrownAt(j) {
        assert j != i ==> Steady(shards[j]);
      }
      FreshAll();
    }

    /** The shards are made of the same objects as before, and of new ones. */
    twostate predicate Grown()
      reads shards
    {
      fresh(Objects(shards) - old(Objects(shards)))
    }

    /** Who held a reference and still does, except to `e`, holds as many as before. */
    twostate predicate RefsKept(new e: LRUHandle?)
      reads shards, Tables(shards), Total().pinned
    {
      forall h :: h in Total().pinned && h in old(Total().pinned) && h != e ==> h.refs == old(h.refs)
    }

    twostate lemma RefsAt(i: nat)
      requires i < |shards| && OnlyAt(i) && old(AtHome()) && AtHome()
      ensures forall e: LRUHandle? :: SameRefs(shards[i], e) ==> RefsKept(e)
    {
      forall e: LRUHandle? | SameRefs(shards[i], e) ensures RefsKept(e) {
        forall h | h in Total().pinned && h in old(Total().pinned) && h != e ensures h.refs == old(h.refs) {
          var j := Home(h.key.hash);
          assert h in shards[j].pinned && h in old(shards[j].pinned);
          assert j != i ==> Steady(shards[j]);
        }
      }
    }

    /** What a change at shard `i` means for the others: references, objects and settings. */
    twostate lemma Summary(i: nat)
      requires i < |shards| && OnlyAt(i) && GrownAt(i) && old(AtHome()) && Layout()
      ensures forall e: LRUHandle? :: SameRefs(shards[i], e) ==> RefsKept(e)
      ensures Grown()
    {
      AllAtHome();
      RefsAt(i);
      FreshAt(i);
    }

    // ---- Operations on shard i ----

    method LookupAt(i: nat, key: TableKey) returns (e: LRUHandle?)
      requires i < |shards| && Layout()
      modifies shards[i].Repr()
      ensures Layout() && OnlyAt(i) && GrownAt(i) && Rest(i) == old(Rest(i))
      ensures Looked(shards[i], key, e) && LedgerOf(shards[i]) == old(LedgerOf(shards[i]))
    {
      Open(i);
      e := LookupIn(shards[i], key, i, numShardBits);
      Close(i);
    }

    method InsertAt(i: nat, key: TableKey, charge: nat, highPri: bool, wantHandle: bool)
      returns (ok: bool, handle: LRUHandle?, ghost e: LRUHandle, ghost a: Admission)
      requires i < |shards| && Layout() && key.data != "" && Serves(i, numShardBits, key.hash)
      modifies shards[i].Repr()
      ensures Layout() && OnlyAt(i) && GrownAt(i) && Rest(i) == old(Rest(i))
      ensures fresh(e) && Entered(shards[i], key, charge, highPri, wantHandle, ok, handle, e, a)
      ensures LedgerOf(shards[i]) == old(LedgerOf(shards[i])) + if ok then {e} else {}
    {
      Open(i);
      ok, handle, e, a := InsertIn(shards[i], key, charge, highPri, wantHandle, i, numShardBits);
      Close(i);
    }

    method ReleaseAt(i: nat, handle: LRUHandle, force: bool) returns (last: bool)
      requires i < |shards| && Layout() && handle in shards[i].pinned
      modifies shards[i].Repr()
      ensures Layout() && OnlyAt(i) && GrownAt(i) && Rest(i) == old(Rest(i))
      ensures Released(shards[i], handle, force, last) && LedgerOf(shards[i]) == old(LedgerOf(shards[i]))
    {
      Open(i);
      last := ReleaseIn(shards[i], handle, force, i, numShardBits);
      Close(i);
    }

    method EraseAt(i: nat, key: TableKey)
      requires i < |shards| && Layout()
      modifies shards[i].Repr()
      ensures Layout() && OnlyAt(i) && GrownAt(i) && Rest(i) == old(Rest(i))
      ensures Erased(shards[i], key) && LedgerOf(shards[i]) == old(LedgerOf(shards[i]))
    {
      Open(i);
      EraseIn(shards[i], key, i, numShardBits);
      Close(i);
    }

    method SetCapacityAt(i: nat, capacity: nat)
      requires i < |shards| && Layout()
      modifies shards[i].Repr()
      ensures Layout() && OnlyAt(i) && GrownAt(i) && Rest(i) == old(Rest(i))
      ensures Shrinks(old(StateOf(shards[i])), StateOf(shards[i]), capacity) && SameRefs(shards[i], null)
      ensures LedgerOf(shards[i]) == old(LedgerOf(shards[i]))
    {
      Open(i);
      SetCapacityIn(shards[i], capacity, i, numShardBits);
      Close(i);
    }

    method SetStrictAt(i: nat, strict: bool)
      requires i < |shards| && Layout()
      modifies shards[i].Repr()
      ensures Layout() && OnlyAt(i) && GrownAt(i) && Rest(i) == old(Rest(i))
      ensures Switches(old(StateOf(shards[i])), StateOf(shards[i]), strict) && SameRefs(shards[i], null)
      ensures LedgerOf(shards[i]) == old(LedgerOf(shards[i]))
    {
      Open(i);
      SetStrictIn(shards[i], strict, i, numShardBits);
      Close(i);
    }

    method EraseUnRefAt(i: nat)
      requires i < |shards| && Layout()
      modifies shards[i].Repr()
      ensures Layout() && OnlyAt(i) && GrownAt(i) && Rest(i) == old(Rest(i))
      ensures Sweeps(old(StateOf(shards[i])), StateOf(shards[i])) && SameRefs(shards[i], null)
      ensures LedgerOf(shards[i]) == old(LedgerOf(shards[i]))
    {
      Open(i);
      EraseUnRefIn(shards[i], i, numShardBits);
      Close(i);
    }

    // ---- The same, with the totals of the cache ----

    method LookupCounted(i: nat, key: TableKey) returns (e: LRUHandle?)
      requires i < |shards| && Layout()
      modifies shards[i].Repr()
      ensures Layout() && OnlyAt(i) && GrownAt(i) && Looked(shards[i], key, e)
      ensures Total() == Plus(old(Total()), Totals(if e == null then {} else {e}, {}, {}))
    {
      TotalAround(i);
      ghost var rest, own := Rest(i), TotalOf(shards[i]);
      e := LookupAt(i, key);
      TotalAround(i);
      PlusMore(rest, own, Totals(if e == null then {} else {e}, {}, {}));
    }

    method InsertCounted(i: nat, key: TableKey, charge: nat, highPri: bool, wantHandle: bool)
      returns (ok: bool, handle: LRUHandle?, ghost e: LRUHandle, ghost a: Admission)
      requires i < |shards| && Layout() && key.data != "" && Serves(i, numShardBits, key.hash)
      modifies shards[i].Repr()
      ensures Layout() && OnlyAt(i) && GrownAt(i)
      ensures fresh(e) && Entered(shards[i], key, charge, highPri, wantHandle, ok, handle, e, a)
      ensures Total() == Plus(old(Total()), Taken(ok, handle, wantHandle, e, a))
      ensures old(InLimit(shards[i])) ==> InLimit(shards[i])
    {
      TotalAround(i);
      ghost var rest, own := Rest(i), TotalOf(shards[i]);
      ok, handle, e, a := InsertAt(i, key, charge, highPri, wantHandle);
      TotalAround(i);
      PlusMore(rest, own, Taken(ok, handle, wantHandle, e, a));
    }

    method EraseCounted(i: nat, key: TableKey)
      requires i < |shards| && Layout()
      modifies shards[i].Repr()
      ensures Layout() && OnlyAt(i) && GrownAt(i) && Erased(shards[i], key)
      ensures Total() == Plus(old(Total()), Totals({}, old(DisplacedBy(shards[i], key)), {}))
    {
      TotalAround(i);
      ghost var rest, own, gone := Rest(i), TotalOf(shards[i]), DisplacedBy(shards[i], key);
      EraseAt(i, key);
      TotalAround(i);
      PlusMore(rest, own, Totals({}, gone, {}));
    }

    method ReleaseCounted(i: nat, handle: LRUHandle, force: bool) returns (last: bool)
      requires i < |shards| && Layout() && handle in shards[i].pinned
      modifies shards[i].Repr()
      ensures Layout() && OnlyAt(i) && GrownAt(i) && Released(shards[i], handle, force, last)
      ensures Total() == AfterRelease(old(Total()), handle, old(handle.refs), last)
    {
      TotalAround(i);
      RestIsElsewhere(i);
      ghost var rest, own, refs := Rest(i), TotalOf(shards[i]), handle.refs;
      last := ReleaseAt(i, handle, force);
      TotalAround(i);
      PlusLess(rest, own, handle, refs, last);
    }

    // ---- Operations ----

    method Lookup(key: TableKey) returns (e: LRUHandle?)
      requires Valid() && key.hash < Pow2(32)
      modifies Domain(key.hash)
      ensures OnlyAt(Home(key.hash)) && Looked(shards[Home(key.hash)], key, e)
      ensures e != null ==> e.refs == if old(Held(e)) then old(e.refs) + 1 else 1
      ensures Total() == Plus(old(Total()), Totals(if e == null then {} else {e}, {}, {}))
      ensures RefsKept(e) && Grown()
      ensures Valid() && (old(Within()) ==> Within())
    {
      var i := Home(key.hash);
      AllAtHome();
      TotalAround(i);
      e := LookupCounted(i, key);
      StillSplit(i);
      Summary(i);
    }

    lemma UsageAt(i: nat)
      requires i < |shards| && Layout()
      ensures shards[i].usage_ == Charges(shards[i].list) + TotalCharge(shards[i].pinned)
    {
      Around(i);
      SoundOne(shards[i], i, numShardBits);
    }

    method Insert(key: TableKey, charge: nat, highPri: bool, wantHandle: bool)
      returns (ok: bool, handle: LRUHandle?, ghost e: LRUHandle, ghost a: Admission)
      requires Valid() && key.hash < Pow2(32) && key.data != ""
      modifies Domain(key.hash)
      ensures OnlyAt(Home(key.hash)) && fresh(e)
      ensures var home := shards[Home(key.hash)];
        a.accepted <==> TotalCharge(old(home.pinned)) + charge <= old(home.capacity_) || (wantHandle && !old(strict))
      ensures var home := shards[Home(key.hash)];
        a.accepted ==> key in home.table_.members && home.table_.members[key] == e
      ensures Entered(shards[Home(key.hash)], key, charge, highPri, wantHandle, ok, handle, e, a)
      ensures Total() == Plus(old(Total()), Taken(ok, handle, wantHandle, e, a))
      ensures RefsKept(null) && Grown()
      ensures Valid() && (old(Within()) ==> Within())
    {
      var i := Home(key.hash);
      AllAtHome();
      UsageAt(i);
      ghost var before := shards[i].Now();
      ok, handle, e, a := InsertCounted(i, key, charge, highPri, wantHandle);
      AcceptedIff(before, e, wantHandle, a, shards[i].Now(), shards[i].Config());
      StillSplit(i);
      Summary(i);
    }

    method Erase(key: TableKey)
      requires Valid() && key.hash < Pow2(32)
      modifies Domain(key.hash)
      ensures OnlyAt(Home(key.hash)) && Erased(shards[Home(key.hash)], key)
      ensures Total() == Plus(old(Total()), Totals({}, old(DisplacedBy(shards[Home(key.hash)], key)), {}))
      ensures RefsKept(null) && Grown()
      ensures Valid() && (old(Within()) ==> Within())
    {
      var i := Home(key.hash);
      AllAtHome();
      EraseCounted(i, key);
      StillSplit(i);
      Summary(i);
    }

    /** A caller holds a reference that some shard has given out. */
    ghost predicate Held(handle: LRUHandle)
      reads shards, Tables(shards)
    {
      handle in Total().pinned
    }

    /** Whichever shard has a handle, it is the one that the handle's own hash leads to. */
    lemma HeldAtHome(handle: LRUHandle)
      requires Layout() && Held(handle)
      ensures handle.key.hash < Pow2(32) && handle in shards[Home(handle.key.hash)].pinned
    {
      var i := HolderOf(shards, handle);
      Around(i);
      SoundOne(shards[i], i, numShardBits);
      assert handle in shards[i].handles;
    }

    /** Whichever shard has an entry for a key, it is the one that the key's hash leads to. */
    lemma KeyAtHome(key: TableKey, i: nat)
      requires Layout() && i < |shards| && key in shards[i].table_.members
      ensures key.hash < Pow2(32) && i == Home(key.hash)
    {
      Around(i);
      SoundOne(shards[i], i, numShardBits);
      var e := shards[i].table_.members[key];
      assert e in shards[i].handles && e.key == key;
    }

    /** What the release of a reference does to what the callers hold and what has been freed. */
    ghost function AfterRelease(t: Totals, handle: LRUHandle, refs: nat, last: bool): Totals {
      Totals(if refs == 1 then t.pinned - {handle} else t.pinned, if last then t.freed + {handle} else t.freed,
             t.entries)
    }

    /** Release of a reference, through the hash of the handle. */
    method Release(handle: LRUHandle?, force: bool) returns (last: bool)
      requires Valid() && (handle != null ==> Held(handle))
      modifies if handle == null then {} else Domain(handle.key.hash)
      ensures if handle == null then !last && Total() == old(Total())
        else
          && handle.key.hash < Pow2(32) && OnlyAt(Home(handle.key.hash))
          && Released(shards[Home(handle.key.hash)], handle, force, last)
          && Total() == AfterRelease(old(Total()), handle, old(handle.refs), last)
      ensures RefsKept(handle) && Grown()
      ensures Valid() && (old(Within()) ==> Within())
    {
      last := false;
      if handle != null {
        HeldAtHome(handle);
        last := ReleaseHeld(handle, force);
      }
    }

    method ReleaseHeld(handle: LRUHandle, force: bool) returns (last: bool)
      requires Valid() && handle.key.hash < Pow2(32) && handle in shards[Home(handle.key.hash)].pinned
      modifies Domain(handle.key.hash)
      ensures OnlyAt(Home(handle.key.hash)) && Released(shards[Home(handle.key.hash)], handle, force, last)
      ensures Total() == AfterRelease(old(Total()), handle, old(handle.refs), last)
      ensures RefsKept(handle) && Grown()
      ensures Valid() && (old(Within()) ==> Within())
    {
      var i := Home(handle.key.hash);
      AllAtHome();
      last := ReleaseCounted(i, handle, force);
      StillSplit(i);
      Summary(i);
    }

    lemma PlusLess(rest: Totals, own: Totals, handle: LRUHandle, refs: nat, last: bool)
      requires handle in own.pinned && handle !in rest.pinned
      ensures Plus(rest, AfterRelease(own, handle, refs, last)) == AfterRelease(Plus(rest, own), handle, refs, last)
    {
    }

    // ---- All shards ----

    lemma AllObjects()
      requires Disjoint()
      ensures forall j :: 0 <= j < |shards| ==> shards[j].Repr() <= Objects(shards)
      ensures this !in Objects(shards)
    {
      ObjectsApart(shards, {this});
      MadeAreObjects(shards);
    }

    /** In every shard, callers hold what they held, and no entry is lost. */
    twostate predicate Keeping()
      reads shards, Tables(shards), InUse()
    {
      forall j :: 0 <= j < |shards| ==>
        && shards[j].handles == old(shards[j].handles) && shards[j].pinned == old(shards[j].pinned)
        && LedgerOf(shards[j]) == old(LedgerOf(shards[j])) && SameRefs(shards[j], null)
    }

    twostate lemma KeepingFrom(k: nat)
      requires k <= |shards| && Keeping()
      ensures TotalIn(shards[k..]).pinned == old(TotalIn(shards[k..]).pinned)
      ensures TotalIn(shards[k..]).entries == old(TotalIn(shards[k..]).entries)
      decreases |shards| - k
    {
      if k < |shards| {
        KeepingFrom(k + 1);
        assert shards[k..][1..] == shards[k + 1..];
        TotalStep(shards[k..]);
        assert old(TotalIn(shards[k..]) == TotalFrom(shards[k..]));
      }
    }

    /** For the whole cache: what is held stays held, by as many references, and no entry is lost. */
    twostate lemma KeepingAll()
      requires Keeping() && old(AtHome()) && Layout()
      ensures Total().pinned == old(Total().pinned) && Total().entries == old(Total().entries)
      ensures RefsKept(null) && Grown()
    {
      KeepingFrom(0);
      assert shards[0..] == shards;
      AllAtHome();
      forall h | h in Total().pinned && h in old(Total().pinned) ensures h.refs == old(h.refs) {
        var j := Home(h.key.hash);
        assert h in shards[j].pinned && h in old(shards[j].pinned);
      }
      forall j | 0 <= j < |shards| ensures GrownAt(j) {
      }
      FreshAll();
    }

    /** With nothing lost at shard `i`, nothing is lost at all. */
    twostate lemma KeepingAt(i: nat)
      requires i < |shards| && OnlyAt(i)
      requires shards[i].handles == old(shards[i].handles) && shards[i].pinned == old(shards[i].pinned)
      requires LedgerOf(shards[i]) == old(LedgerOf(shards[i])) && SameRefs(shards[i], null)
      ensures Keeping()
      ensures forall j :: 0 <= j < |shards| && j != i ==> StateOf(shards[j]) == old(StateOf(shards[j]))
    {
      forall j | 0 <= j < |shards| && j != i
        ensures StateOf(shards[j]) == old(StateOf(shards[j])) && SameRefs(shards[j], null)
      {
        assert Steady(shards[j]);
      }
    }

    method SetCapacityKeeping(i: nat, capacity: nat)
      requires i < |shards| && Layout()
      modifies shards[i].Repr()
      ensures Layout() && Keeping() && Shrinks(old(StateOf(shards[i])), StateOf(shards[i]), capacity)
      ensures forall j :: 0 <= j < |shards| && j != i ==> StateOf(shards[j]) == old(StateOf(shards[j]))
    {
      SetCapacityAt(i, capacity);
      KeepingAt(i);
    }

    method SetStrictKeeping(i: nat, strict: bool)
      requires i < |shards| && Layout()
      modifies shards[i].Repr()
      ensures Layout() && Keeping() && Switches(old(StateOf(shards[i])), StateOf(shards[i]), strict)
      ensures forall j :: 0 <= j < |shards| && j != i ==> StateOf(shards[j]) == old(StateOf(shards[j]))
    {
      SetStrictAt(i, strict);
      KeepingAt(i);
    }

    method EraseUnRefKeeping(i: nat)
      requires i < |shards| && Layout()
      modifies shards[i].Repr()
      ensures Layout() && Keeping() && Sweeps(old(StateOf(shards[i])), StateOf(shards[i]))
      ensures forall j :: 0 <= j < |shards| && j != i ==> StateOf(shards[j]) == old(StateOf(shards[j]))
    {
      EraseUnRefAt(i);
      KeepingAt(i);
    }

    method SetCapacities(perShard: nat)
      requires Layout()
      modifies Objects(shards)
      ensures Layout() && Keeping() && capacity == old(capacity) && strict == old(strict)
      ensures forall j :: 0 <= j < |shards| ==> Shrinks(old(StateOf(shards[j])), StateOf(shards[j]), perShard)
    {
      AllObjects();
      for s := 0 to |shards|
        invariant Layout() && Keeping()
        invariant forall j :: 0 <= j < s ==> Shrinks(old(StateOf(shards[j])), StateOf(shards[j]), perShard)
        invariant forall j :: s <= j < |shards| ==> StateOf(shards[j]) == old(StateOf(shards[j]))
      {
        assert shards[s].Repr() == old(shards[s].Repr());
        SetCapacityKeeping(s, perShard);
      }
    }

    method SetLimits(strict: bool)
      requires Layout()
      modifies Objects(shards)
      ensures Layout() && Keeping() && capacity == old(capacity)
      ensures forall j :: 0 <= j < |shards| ==> Switches(old(StateOf(shards[j])), StateOf(shards[j]), strict)
    {
      AllObjects();
      for s := 0 to |shards|
        invariant Layout() && Keeping()
        invariant forall j :: 0 <= j < s ==> Switches(old(StateOf(shards[j])), StateOf(shards[j]), strict)
        invariant forall j :: s <= j < |shards| ==> StateOf(shards[j]) == old(StateOf(shards[j]))
      {
        assert shards[s].Repr() == old(shards[s].Repr());
        SetStrictKeeping(s, strict);
      }
    }

    method EraseAllUnRef()
      requires Layout()
      modifies Objects(shards)
      ensures Layout() && Keeping() && capacity == old(capacity) && strict == old(strict)
      ensures forall j :: 0 <= j < |shards| ==> Sweeps(old(StateOf(shards[j])), StateOf(shards[j]))
    {
      AllObjects();
      for s := 0 to |shards|
        invariant Layout() && Keeping()
        invariant forall j :: 0 <= j < s ==> Sweeps(old(StateOf(shards[j])), StateOf(shards[j]))
        invariant forall j :: s <= j < |shards| ==> StateOf(shards[j]) == old(StateOf(shards[j]))
      {
        assert shards[s].Repr() == old(shards[s].Repr());
        EraseUnRefKeeping(s);
      }
    }

    /** The cache's own fields are none of the shards' business. */
    method SetOwnCapacity(capacity: nat)
      requires Layout()
      modifies this`capacity
      ensures Layout() && this.capacity == capacity && Keeping()
      ensures forall j :: 0 <= j < |shards| ==> StateOf(shards[j]) == old(StateOf(shards[j]))
    {
      AllObjects();
      TablesAmong(shards);
      assert allocated(Objects(shards));
      this.capacity := capacity;
    }

    method SetOwnLimit(strict: bool)
      requires Layout()
      modifies this`strict
      ensures Layout() && this.strict == strict && Keeping()
      ensures forall j :: 0 <= j < |shards| ==> StateOf(shards[j]) == old(StateOf(shards[j]))
    {
      AllObjects();
      TablesAmong(shards);
      assert allocated(Objects(shards));
      this.strict := strict;
    }

    /** Every shard shrinks to its part of the new capacity, or to what is in use. */
    method SetCapacity(capacity: nat)
      requires Valid()
      modifies this`capacity, Objects(shards)
      ensures this.capacity == capacity && strict == old(strict)
      ensures forall j :: 0 <= j < |shards| ==>
                Shrinks(old(StateOf(shards[j])), StateOf(shards[j]), PerShard(capacity, |shards|))
      ensures Total().pinned == old(Total().pinned) && Total().entries == old(Total().entries)
      ensures RefsKept(null) && Grown()
      ensures Valid() && (old(Within()) && capacity >= old(this.capacity) ==> Within())
    {
      var perShard := PerShard(capacity, |shards|);
      AllAtHome();
      SetCapacities(perShard);
      SetOwnCapacity(capacity);
      KeepingAll();
      if capacity >= old(this.capacity) {
        PerShardGrows(old(this.capacity), capacity, |shards|);
      }
    }

    /** A limit that becomes strict is kept from then on, if the usage is below it. */
    method SetStrictCapacityLimit(strict: bool)
      requires Valid()
      modifies this`strict, Objects(shards)
      ensures this.strict == strict && capacity == old(capacity)
      ensures forall j :: 0 <= j < |shards| ==> Switches(old(StateOf(shards[j])), StateOf(shards[j]), strict)
      ensures Total().pinned == old(Total().pinned) && Total().entries == old(Total().entries)
      ensures RefsKept(null) && Grown()
      ensures Valid()
      ensures strict && (forall j :: 0 <= j < |shards| ==> old(shards[j].usage_) <= PerShard(capacity, |shards|)) ==>
                Within()
    {
      AllAtHome();
      SetLimits(strict);
      SetOwnLimit(strict);
      KeepingAll();
    }

    /** Every shard keeps only what is in use. */
    method EraseUnRefEntries()
      requires Valid()
      modifies Objects(shards)
      ensures forall j :: 0 <= j < |shards| ==> Sweeps(old(StateOf(shards[j])), StateOf(shards[j]))
      ensures Total().pinned == old(Total().pinned) && Total().entries == old(Total().entries)
      ensures RefsKept(null) && Grown()
      ensures Valid() && (old(Within()) ==> Within())
    {
      AllAtHome();
      EraseAllUnRef();
      KeepingAll();
    }

    // ---- Lifetimes ----

    /** An entry whose deleter has run is nowhere in the cache any more, and nobody holds it. */
    lemma FreedIsGone(h: LRUHandle)
      requires Layout() && h in Total().freed
      ensures !Held(h) && forall j :: 0 <= j < |shards| ==> h !in shards[j].list
    {
      var i := FreedIn(shards, h);
      Around(i);
      SoundOne(shards[i], i, numShardBits);
      forall j | 0 <= j < |shards| ensures h !in shards[j].list && h !in shards[j].pinned {
        Around(j);
        SoundOne(shards[j], j, numShardBits);
        assert j != i ==> shards[i].Repr() !! shards[j].Repr();
      }
      if Held(h) {
        HeldAtHome(h);
      }
    }

    /** With nothing in the lists, what was ever accepted is held or has been freed. */
    lemma HeldOrFreed()
      requires forall j :: 0 <= j < |shards| ==> shards[j].list == []
      ensures Total().entries == Total().pinned + Total().freed
    {
      HeldOrFreedIn(shards);
    }

    /** The total of the shards' usages. While every shard is within its part, the total stays below the
        capacity plus one for every shard. */
    method GetUsage() returns (usage: nat)
      requires Valid()
      ensures usage == Sum(Usages(shards))
      ensures Within() ==> usage < capacity + |shards|
    {
      usage := 0;
      ghost var all := Usages(shards);
      for s := 0 to |shards|
        invariant usage == Sum(all[..s])
      {
        SumSnoc(all[..s], all[s]);
        assert all[..s + 1] == all[..s] + [all[s]];
        usage := usage + shards[s].usage_;
      }
      assert all[..|shards|] == all;
      if Within() {
        forall j | 0 <= j < |all| ensures all[j] <= PerShard(capacity, |all|) {
          assert InLimit(shards[j]);
        }
        TotalUsageBound(all, capacity);
      }
    }
  }

  lemma Halve(p: nat, n: nat, m: nat)
    requires p * n <= m < p * (n + 1)
    ensures 2 * p * (n / 2) <= m < 2 * p * (n / 2 + 1)
  {
    var h, r := n / 2, n % 2;
    assert n == 2 * h + r;
    assert p * n == 2 * p * h + p * r;
    assert p * (n + 1) == 2 * p * h + p * r + p;
    assert 2 * p * (h + 1) == 2 * p * h + 2 * p;
    assert r == 0 ==> p * r == 0;
    assert r == 1 ==> p * r == p;
  }

  lemma AtLeastOnce(p: nat, n: nat, m: nat)
    requires p * n <= m && n > 0
    ensures p <= m
  {
    assert p * n == p + p * (n - 1);
  }

  /** The most bits, up to six, that leave every shard 512 KB. */
  method GetDefaultCacheShardBits(capacity: nat) returns (bits: nat)
    ensures bits <= MAX_DEFAULT_BITS
    ensures bits > 0 ==> Pow2(bits) * MIN_SHARD_SIZE <= capacity
    ensures bits < MAX_DEFAULT_BITS ==> capacity < Pow2(bits + 1) * MIN_SHARD_SIZE
  {
    bits := 0;
    var n: nat := capacity / MIN_SHARD_SIZE;
    ghost var m := n;
    Halve(1, n, m);
    n := n / 2;
    while n != 0
      invariant bits < MAX_DEFAULT_BITS
      invariant bits > 0 ==> Pow2(bits) <= m
      invariant Pow2(bits + 1) * n <= m < Pow2(bits + 1) * (n + 1)
      decreases n
    {
      AtLeastOnce(Pow2(bits + 1), n, m);
      bits := bits + 1;
      if bits >= MAX_DEFAULT_BITS {
        return;
      }
      Halve(Pow2(bits), n, m);
      n := n / 2;
    }
    assert Pow2(bits + 1) * (0 + 1) == Pow2(bits + 1);
  }
}
