/** One shard of the LRU cache. */
module LruCache {
  import opened LruHandles
  import opened LruTable
  import opened LruList

  // ---- Sums of charges ----

  function Charges(s: seq<LRUHandle>): nat {
    if s == [] then 0 else s[0].charge + Charges(s[1..])
  }

  lemma {:induction false} ChargesSplit(s: seq<LRUHandle>, t: seq<LRUHandle>)
    ensures Charges(s + t) == Charges(s) + Charges(t)
  {
    if s == [] {
      assert s + t == t;
    } else {
      assert (s + t)[1..] == s[1..] + t;
      ChargesSplit(s[1..], t);
    }
  }

  lemma ChargesWithout(s: seq<LRUHandle>, k: nat)
    requires k < |s|
    ensures Charges(s) == Charges(Without(s, k)) + s[k].charge
  {
    assert s == s[..k] + s[k..];
    ChargesSplit(s[..k], s[k..]);
    ChargesSplit(s[..k], s[k + 1..]);
  }

  lemma ChargesFrom(s: seq<LRUHandle>, k: nat)
    requires k < |s|
    ensures Charges(s[k..]) == s[k].charge + Charges(s[k + 1..])
  {
    assert s[k..][1..] == s[k + 1..];
  }

  /** Where the low-pri segment ends once the entry at `k` is gone. */
  function LowWithout(low: nat, k: nat): nat {
    if k < low then low - 1 else low
  }

  lemma PoolWithout(list: seq<LRUHandle>, low: nat, k: nat)
    requires low <= k < |list|
    ensures Charges(list[low..]) == Charges(Without(list, k)[low..]) + list[k].charge
  {
    ChargesWithout(list[low..], k - low);
    assert Without(list[low..], k - low) == Without(list, k)[low..];
  }

  lemma PoolSame(list: seq<LRUHandle>, low: nat, k: nat)
    requires k < low <= |list|
    ensures Without(list, k)[low - 1..] == list[low..]
  {
  }

  lemma RemovalAccounts(list: seq<LRUHandle>, low: nat, k: nat)
    requires k < |list| && low <= |list|
    ensures Charges(list) == Charges(Without(list, k)) + list[k].charge
    ensures LowWithout(low, k) <= |list| - 1
    ensures Charges(list[low..]) ==
      Charges(Without(list, k)[LowWithout(low, k)..]) + if low <= k then list[k].charge else 0
  {
    ChargesWithout(list, k);
    if low <= k {
      PoolWithout(list, low, k);
    } else {
      PoolSame(list, low, k);
    }
  }

  ghost function TotalCharge(s: set<LRUHandle>): nat {
    if s == {} then 0 else var h :| h in s; h.charge + TotalCharge(s - {h})
  }

  lemma {:induction false} TotalWithout(s: set<LRUHandle>, h: LRUHandle)
    requires h in s
    ensures TotalCharge(s) == h.charge + TotalCharge(s - {h})
  {
    var x :| x in s && TotalCharge(s) == x.charge + TotalCharge(s - {x});
    if x != h {
      TotalWithout(s - {x}, h);
      TotalWithout(s - {h}, x);
      assert s - {x} - {h} == s - {h} - {x};
    }
  }

  // ---- The list and its two segments ----

  /** The list is a ring through the dummy head, oldest entry first; `low` entries form the low-pri
      segment, and the others are marked as being in the high-pri pool. */
  ghost predicate Marked(list: seq<LRUHandle>, low: nat)
    reads list`inHighPriPool
  {
    low <= |list|
    && (forall i {:trigger list[i].inHighPriPool} :: 0 <= i < |list| ==> (list[i].inHighPriPool <==> low <= i))
  }

  lemma MarkedWithout(lru: LRUHandle, list: seq<LRUHandle>, low: nat, k: nat)
    requires Marked(list, low) && k < |list|
    ensures Marked(Without(list, k), LowWithout(low, k))
    ensures Without([lru] + list, k + 1) == [lru] + Without(list, k)
    ensures ([lru] + Without(list, k))[LowWithout(low, k)] == ([lru] + list)[if low == k + 1 then k else low]
  {
    var list' := Without(list, k);
    forall i | 0 <= i < |list'| ensures list'[i].inHighPriPool <==> LowWithout(low, k) <= i {
      var j := if i < k then i else i + 1;
      assert list'[i] == list[j] && (list[j].inHighPriPool <==> low <= j);
    }
  }

  lemma MarkPlace(nodes: seq<LRUHandle>, low: nat, k: nat)
    requires Distinct(nodes) && low < |nodes| && k < |nodes|
    ensures nodes[low] == nodes[k] <==> low == k
  {
    if low < k { DistinctAt(nodes, low, k); } else if k < low { DistinctAt(nodes, k, low); }
  }

  /** `list` with a new entry between the two segments. */
  function WithEntryAt(list: seq<LRUHandle>, low: nat, e: LRUHandle): seq<LRUHandle>
    requires low <= |list|
  {
    list[..low] + ([e] + list[low..])
  }

  lemma MarkedWithEntry(list: seq<LRUHandle>, low: nat, e: LRUHandle)
    requires Marked(list, low) && !e.inHighPriPool
    ensures Marked(WithEntryAt(list, low, e), low + 1)
  {
    var list' := WithEntryAt(list, low, e);
    forall i | 0 <= i < |list'| ensures list'[i].inHighPriPool <==> low + 1 <= i {
      if i != low {
        var j := if i < low then i else i - 1;
        assert list'[i] == list[j] && (list[j].inHighPriPool <==> low <= j);
      }
    }
  }

  lemma NodesWithEntry(lru: LRUHandle, list: seq<LRUHandle>, low: nat, e: LRUHandle)
    requires low <= |list|
    ensures WithAfter([lru] + list, low, e) == [lru] + WithEntryAt(list, low, e)
    ensures ([lru] + WithEntryAt(list, low, e))[low + 1] == e
  {
    assert ([lru] + list)[..low + 1] == [lru] + list[..low];
    assert ([lru] + list)[low + 1..] == list[low..];
  }

  lemma EntryAccounts(list: seq<LRUHandle>, low: nat, e: LRUHandle)
    requires low <= |list|
    ensures Charges(WithEntryAt(list, low, e)) == Charges(list) + e.charge
    ensures WithEntryAt(list, low, e)[low + 1..] == list[low..]
  {
    assert list == list[..low] + list[low..];
    ChargesSplit(list[..low], list[low..]);
    ChargesSplit(list[..low], [e] + list[low..]);
    ChargesSplit([e], list[low..]);
  }

  lemma MarkedWithNewest(list: seq<LRUHandle>, low: nat, e: LRUHandle)
    requires Marked(list, low) && e.inHighPriPool
    ensures Marked(list + [e], low)
  {
    var list' := list + [e];
    forall i | 0 <= i < |list'| ensures list'[i].inHighPriPool <==> low <= i {
      if i < |list| {
        assert list'[i] == list[i] && (list[i].inHighPriPool <==> low <= i);
      }
    }
  }

  lemma NewestAccounts(list: seq<LRUHandle>, low: nat, e: LRUHandle)
    requires low <= |list|
    ensures Charges(list + [e]) == Charges(list) + e.charge
    ensures Charges((list + [e])[low..]) == Charges(list[low..]) + e.charge
  {
    ChargesSplit(list, [e]);
    ChargesSplit(list[low..], [e]);
    assert (list + [e])[low..] == list[low..] + [e];
  }

  lemma MarkedNext(list: seq<LRUHandle>, low: nat)
    requires low < |list| && !list[low].inHighPriPool && Distinct(list)
    requires forall i {:trigger list[i].inHighPriPool} :: 0 <= i < |list| && i != low ==>
               (list[i].inHighPriPool <==> low <= i)
    ensures Marked(list, low + 1)
  {
  }

  ghost predicate Segments(lru: LRUHandle, lowPri: LRUHandle, list: seq<LRUHandle>, low: nat)
    reads lru`next, lru`prev, list`next, list`prev, list`inHighPriPool
  {
    && Ring([lru] + list)
    && Marked(list, low)
    && lowPri == ([lru] + list)[low]
  }

  lemma EmptyList(lru: LRUHandle)
    requires lru.next == lru && lru.prev == lru
    ensures Segments(lru, lru, [], 0)
  {
    assert [lru] + [] == [lru];
    assert Distinct([lru]);
  }

  /** Where the low-pri segment ends once the oldest `n` entries are gone. */
  function LowAfter(low: nat, n: nat): nat {
    if n < low then low - n else 0
  }

  function Keys(s: seq<LRUHandle>): set<TableKey> {
    set h | h in s :: h.key
  }

  /** The map without the entries' keys, one after the other; `MinusIsWithout` says it at once. */
  function Minus(members: map<TableKey, LRUHandle>, s: seq<LRUHandle>): map<TableKey, LRUHandle> {
    if s == [] then members else Minus(members, s[..|s| - 1]) - {s[|s| - 1].key}
  }

  lemma MinusOneMore(members: map<TableKey, LRUHandle>, s: seq<LRUHandle>, e: LRUHandle)
    ensures Minus(members, s + [e]) == Minus(members, s) - {e.key}
  {
    assert (s + [e])[..|s|] == s;
  }

  lemma {:induction false} MinusIsWithout(members: map<TableKey, LRUHandle>, s: seq<LRUHandle>)
    ensures Minus(members, s) == members - Keys(s)
  {
    if s == [] {
      assert Keys(s) == {};
    } else {
      var t, e := s[..|s| - 1], s[|s| - 1];
      MinusIsWithout(members, t);
      assert s == t + [e];
      assert Keys(s) == Keys(t) + {e.key};
    }
  }

  lemma FewerValues(members: map<TableKey, LRUHandle>, key: TableKey)
    ensures (members - {key}).Values <= members.Values
  {
    var fewer := members - {key};
    forall h | h in fewer.Values ensures h in members.Values {
      var k :| k in fewer && fewer[k] == h;
      assert k in members && members[k] == h;
    }
  }

  /** `rest` is `list` without `e`, and `restLow` the size of its low-pri segment. */
  ghost predicate LacksOne(list: seq<LRUHandle>, low: nat, e: LRUHandle, rest: seq<LRUHandle>, restLow: nat) {
    exists k: nat :: k < |list| && list[k] == e && rest == Without(list, k) && restLow == LowWithout(low, k)
  }

  lemma HeadTellsEmpty(lru: LRUHandle, list: seq<LRUHandle>)
    requires Ring([lru] + list)
    ensures lru.next == lru <==> list == []
  {
    var nodes := [lru] + list;
    assert nodes[0].next == After(nodes, 0);
    if list != [] {
      DistinctAt(nodes, 0, 1);
    }
  }

  /** Takes the entry at position `k` out of the ring; the mark of the low-pri segment moves off it. */
  method TakeOut(lru: LRUHandle, lowPri: LRUHandle, e: LRUHandle, ghost list: seq<LRUHandle>, ghost low: nat,
                 ghost k: nat)
    returns (lowPri': LRUHandle)
    requires Segments(lru, lowPri, list, low) && k < |list| && e == list[k]
    modifies lru`next, lru`prev, list`next, list`prev
    ensures e.next == null && e.prev == null
    ensures Segments(lru, lowPri', Without(list, k), LowWithout(low, k))
  {
    ghost var nodes := [lru] + list;
    assert e == nodes[k + 1] && e.prev == nodes[k];
    MarkPlace(nodes, low, k + 1);
    MarkedWithout(lru, list, low, k);
    lowPri' := lowPri;
    if lowPri == e {
      lowPri' := e.prev;
    }
    Unlink(e, nodes, k + 1);
  }

  /** Makes `e` the newest entry, in the high-pri pool. */
  method PutNewest(lru: LRUHandle, lowPri: LRUHandle, e: LRUHandle, ghost list: seq<LRUHandle>, ghost low: nat)
    requires Segments(lru, lowPri, list, low) && e !in [lru] + list
    modifies e`inHighPriPool, e`next, e`prev, lru`next, lru`prev, list`next, list`prev
    ensures Segments(lru, lowPri, list + [e], low)
  {
    e.inHighPriPool := true;
    MarkedWithNewest(list, low, e);
    assert WithAfter([lru] + list, |list|, e) == [lru] + (list + [e]);
    LinkBetween(lru.prev, lru, e, [lru] + list, |list|);
  }

  /** Makes `e` the newest entry of the low-pri segment. */
  method PutLow(lru: LRUHandle, lowPri: LRUHandle, e: LRUHandle, ghost list: seq<LRUHandle>, ghost low: nat)
    requires Segments(lru, lowPri, list, low) && e !in [lru] + list
    modifies e`inHighPriPool, e`next, e`prev, lru`next, lru`prev, list`next, list`prev
    ensures Segments(lru, e, WithEntryAt(list, low, e), low + 1)
  {
    e.inHighPriPool := false;
    MarkedWithEntry(list, low, e);
    NodesWithEntry(lru, list, low, e);
    LinkBetween(lowPri, lowPri.next, e, [lru] + list, low);
  }

  /** Moves the oldest entry of the high-pri pool to the low-pri segment. */
  method LowerOne(lru: LRUHandle, lowPri: LRUHandle, ghost list: seq<LRUHandle>, ghost low: nat)
    returns (lowPri': LRUHandle)
    requires Segments(lru, lowPri, list, low) && low < |list|
    modifies list`inHighPriPool
    ensures Segments(lru, lowPri', list, low + 1)
    ensures lowPri' == list[low] != lru
  {
    ghost var nodes := [lru] + list;
    assert nodes[low].next == After(nodes, low);
    DistinctParts([lru], list);
    forall i | 0 <= i < |list| && i != low ensures list[i] != list[low] {
      if i < low { DistinctAt(list, i, low); } else { DistinctAt(list, low, i); }
    }
    assert [lru][0] !in list;
    lowPri' := lowPri.next;
    lowPri'.inHighPriPool := false;
    MarkedNext(list, low);
  }

  // ---- Entries ----

  ghost predicate Registered(members: map<TableKey, LRUHandle>, h: LRUHandle) {
    h.key in members && members[h.key] == h
  }

  /** The three states of an entry: on the list exactly when in the cache and unreferenced; pinned, in
      the table or no longer; and the table has exactly the entries in the cache. */
  ghost predicate Entries(list: seq<LRUHandle>, pinned: set<LRUHandle>, members: map<TableKey, LRUHandle>)
    reads list`refs, list`inCache, pinned`refs, pinned`inCache, pinned`next, pinned`prev
  {
    && (forall h :: h in list ==> h.inCache && h.refs == 0 && Registered(members, h) && h !in pinned)
    && (forall h :: h in pinned ==> h.refs > 0 && h.next == null && h.prev == null)
    && (forall h :: h in pinned && h.inCache ==> Registered(members, h))
    && (forall k :: k in members ==>
          members[k].key == k && (members[k] in list || (members[k] in pinned && members[k].inCache)))
  }

  lemma WithoutMember(list: seq<LRUHandle>, k: nat, h: LRUHandle)
    requires k < |list| && list[k] !in Without(list, k)
    ensures h in Without(list, k) <==> h in list && h != list[k]
  {
    var list' := Without(list, k);
    if h in list' {
      var i :| 0 <= i < |list'| && list'[i] == h;
      assert list[if i < k then i else i + 1] == h;
    }
    if h in list && h != list[k] {
      var i :| 0 <= i < |list| && list[i] == h;
      assert list'[if i < k then i else i - 1] == h;
    }
  }

  lemma WithoutMembers(list: seq<LRUHandle>, k: nat)
    requires Distinct(list) && k < |list|
    ensures list[k] !in Without(list, k)
    ensures forall h :: h in Without(list, k) <==> h in list && h != list[k]
  {
    WithoutIsDistinct(list, k);
    forall h: LRUHandle ensures h in Without(list, k) <==> h in list && h != list[k] {
      WithoutMember(list, k, h);
    }
  }

  lemma EntriesWithout(list: seq<LRUHandle>, pinned: set<LRUHandle>, members: map<TableKey, LRUHandle>, k: nat)
    requires Entries(list, pinned, members) && Distinct(list) && k < |list|
    ensures Entries(Without(list, k), pinned, members - {list[k].key})
    ensures Registered(members, list[k]) && list[k] !in Without(list, k) && list[k] !in pinned
  {
    WithoutMembers(list, k);
    assert list[k] in list;
  }

  /** An entry of the table joins the pinned ones. */
  lemma EntriesWithPinned(list: seq<LRUHandle>, pinned: set<LRUHandle>, members: map<TableKey, LRUHandle>, e: LRUHandle)
    requires Entries(list, pinned, members - {e.key}) && Registered(members, e)
    requires e !in list && e.inCache && e.refs > 0 && e.next == null && e.prev == null
    ensures Entries(list, pinned + {e}, members)
  {
    forall k | k in members
      ensures members[k].key == k && (members[k] in list || (members[k] in pinned + {e} && members[k].inCache))
    {
      assert k != e.key ==> k in members - {e.key} && (members - {e.key})[k] == members[k];
    }
  }

  /** An entry of the table joins the list. */
  lemma EntriesWithListed(list: seq<LRUHandle>, list': seq<LRUHandle>, pinned: set<LRUHandle>,
                          members: map<TableKey, LRUHandle>, e: LRUHandle)
    requires Entries(list, pinned, members - {e.key}) && Registered(members, e)
    requires e !in pinned && e.refs == 0 && e.inCache
    requires forall h :: h in list' <==> h in list || h == e
    ensures Entries(list', pinned, members)
  {
    forall k | k in members
      ensures members[k].key == k && (members[k] in list' || (members[k] in pinned && members[k].inCache))
    {
      assert k != e.key ==> k in members - {e.key} && (members - {e.key})[k] == members[k];
    }
  }

  /** A pinned entry that the cache has let go of, or is about to. */
  lemma EntriesWithoutPinned(list: seq<LRUHandle>, pinned: set<LRUHandle>, members: map<TableKey, LRUHandle>,
                             e: LRUHandle)
    requires Entries(list, pinned, members) && e in pinned
    ensures e.inCache ==> Registered(members, e) && Entries(list, pinned - {e}, members - {e.key})
    ensures !e.inCache ==> Entries(list, pinned - {e}, members)
    ensures e !in list
  {
  }

  /** An entry the cache has let go of is still pinned by its references. */
  lemma EntriesStillPinned(list: seq<LRUHandle>, pinned: set<LRUHandle>, members: map<TableKey, LRUHandle>,
                           e: LRUHandle)
    requires Entries(list, pinned - {e}, members) && e in pinned && e !in list
    requires e.refs > 0 && !e.inCache && e.next == null && e.prev == null
    ensures Entries(list, pinned, members)
  {
  }

  lemma TotalWith(pinned: set<LRUHandle>, e: LRUHandle)
    requires e !in pinned
    ensures TotalCharge(pinned + {e}) == TotalCharge(pinned) + e.charge
  {
    TotalWithout(pinned + {e}, e);
    assert pinned + {e} - {e} == pinned;
  }

  /** The size of the high-pri pool. */
  function PoolCapacity(capacity: nat, ratio: real): real {
    capacity as real * ratio
  }

  lemma PoolSize(capacity: nat, ratio: real)
    ensures PoolCapacity(capacity, ratio) == capacity as real * ratio
  {
  }

  lemma PoolNotNegative(capacity: nat, ratio: real)
    ensures ratio >= 0.0 ==> PoolCapacity(capacity, ratio) >= 0.0
  {
  }

  /** Whether a value is inserted: it fits, or it may exceed the capacity. */
  predicate Admits(usage: int, charge: nat, capacity: nat, strict: bool, wantHandle: bool) {
    !(usage + charge > capacity && (strict || !wantHandle))
  }

  /** What an insertion starts from, and what it leaves. */
  datatype View = View(list: seq<LRUHandle>, low: nat, usage: int, pinned: set<LRUHandle>,
    members: map<TableKey, LRUHandle>)

  /** What an insertion does: whether the entry is accepted, what is evicted to make room, the state
      after that, what the entry displaces, and the list it then joins unless it is handed out. */
  datatype Admission = Admission(
    accepted: bool, evicted: seq<LRUHandle>, middle: View, displaced: seq<LRUHandle>, rest: seq<LRUHandle>,
      restLow: nat)

  /** The entry with this key, if there is one and nobody refers to it. */
  ghost function Displaced(members: map<TableKey, LRUHandle>, pinned: set<LRUHandle>, key: TableKey): seq<LRUHandle> {
    if key in members && members[key] !in pinned then [members[key]] else []
  }

  /** What an insertion frees on top of the evicted entries. */
  function AlsoFreed(e: LRUHandle, accepted: bool, wantHandle: bool, displaced: seq<LRUHandle>): seq<LRUHandle> {
    if accepted then displaced else if wantHandle then [] else [e]
  }

  /** The list without the displaced entry, if there is one. */
  ghost predicate Spared(list: seq<LRUHandle>, low: nat, displaced: seq<LRUHandle>, rest: seq<LRUHandle>,
                         restLow: nat)
  {
    if displaced == [] then rest == list && restLow == low else LacksOne(list, low, displaced[0], rest, restLow)
  }

  /** Where LRU_Insert puts an entry: at the newest end, with the pool cut down to size, or between
      the segments. */
  ghost predicate Inserted(before: seq<LRUHandle>, lowBefore: nat, e: LRUHandle, pool: bool,
                           list: seq<LRUHandle>, low: nat, poolCapacity: real)
  {
    && lowBefore <= |before|
    && if pool then
         && list == before + [e] && lowBefore <= low <= |list|
         && Charges(list[low..]) as real <= poolCapacity
         && (lowBefore < low ==> Charges(list[low - 1..]) as real > poolCapacity)
       else
         list == WithEntryAt(before, lowBefore, e) && low == lowBefore + 1
  }

  /** The entries that a shard in this state refers to. */
  ghost function HandlesOf(v: View): set<LRUHandle> {
    (set h | h in v.list) + v.pinned + v.members.Values
  }

  ghost predicate KnownTo(handles: set<LRUHandle>, v: View) {
    HandlesOf(v) <= handles
  }

  lemma FewerHandles(before: View, after: View, handles: set<LRUHandle>)
    requires KnownTo(handles, before)
    requires forall h :: h in after.list ==> h in handles
    requires after.pinned <= handles && after.members.Values <= handles
    ensures KnownTo(handles, after)
  {
  }

  /** The first reference to an entry takes it off the list; another one changes nothing else. */
  ghost predicate Taking(before: View, e: LRUHandle, after: View) {
    && after.usage == before.usage && after.members == before.members
    && if e in before.pinned then after == before
       else after.pinned == before.pinned + {e} && LacksOne(before.list, before.low, e, after.list, after.low)
  }

  lemma TakingHandles(handles: set<LRUHandle>, before: View, e: LRUHandle, after: View)
    requires Taking(before, e, after)
    ensures KnownTo(handles, before) ==> KnownTo(handles, after)
  {
  }

  /** The last reference to an entry goes: back on the list, or out of the cache for good. */
  ghost predicate Releasing(before: View, e: LRUHandle, inCache: bool, pool: bool, last: bool, after: View,
                            poolCapacity: real)
  {
    && after.pinned == before.pinned - {e}
    && if last then
         && after.list == before.list && after.low == before.low && after.usage == before.usage - e.charge
         && after.members == if inCache then before.members - {e.key} else before.members
       else
         && after.usage == before.usage && after.members == before.members
         && Inserted(before.list, before.low, e, pool, after.list, after.low, poolCapacity)
  }

  lemma ReleasingHandles(handles: set<LRUHandle>, before: View, e: LRUHandle, inCache: bool, pool: bool, last: bool,
                         after: View, poolCapacity: real)
    requires Releasing(before, e, inCache, pool, last, after, poolCapacity) && e in before.pinned
    ensures KnownTo(handles, before) ==> KnownTo(handles, after)
  {
    FewerValues(before.members, e.key);
    if !last {
      InsertedMembers(before.list, before.low, e, pool, after.list, after.low, poolCapacity);
    }
    if KnownTo(handles, before) {
      FewerHandles(before, after, handles);
    }
  }

  /** The entry for `key` leaves the cache: if nobody refers to it, it is gone. */
  ghost predicate Erasing(before: View, key: TableKey, after: View) {
    var gone := Displaced(before.members, before.pinned, key);
    && after.pinned == before.pinned && after.members == before.members - {key}
    && after.usage == before.usage - Charges(gone)
    && Spared(before.list, before.low, gone, after.list, after.low)
  }

  lemma ErasingHandles(handles: set<LRUHandle>, before: View, key: TableKey, after: View)
    requires Erasing(before, key, after)
    ensures KnownTo(handles, before) ==> KnownTo(handles, after)
  {
    FewerValues(before.members, key);
    if KnownTo(handles, before) {
      FewerHandles(before, after, handles);
    }
  }

  datatype Settings = Settings(capacity: nat, strict: bool, ratio: real, poolCapacity: real)

  /** Without the last of the evicted entries, `charge` would not have fitted. */
  ghost predicate NoMoreThanNeeded(usage: int, charge: nat, evicted: seq<LRUHandle>, capacity: nat) {
    evicted != [] ==> usage - Charges(evicted[..|evicted| - 1]) + charge > capacity
  }

  /** What EvictFromLRU does. */
  ghost predicate Evicting(before: View, charge: nat, evicted: seq<LRUHandle>, after: View, capacity: nat) {
    && before.list == evicted + after.list && after.low == LowAfter(before.low, |evicted|)
    && after.usage == before.usage - Charges(evicted) && NoMoreThanNeeded(before.usage, charge, evicted, capacity)
    && (after.usage + charge <= capacity || after.list == [])
    && after.pinned == before.pinned && after.members == Minus(before.members, evicted)
  }

  /** Where an accepted entry goes: to the caller, or on the list. */
  ghost predicate Placed(rest: seq<LRUHandle>, restLow: nat, e: LRUHandle, wantHandle: bool, s: Settings,
                         list: seq<LRUHandle>, low: nat)
  {
    if wantHandle then list == rest && low == restLow
    else Inserted(rest, restLow, e, s.ratio > 0.0 && e.isHighPri, list, low, s.poolCapacity)
  }

  /** From the state that the eviction leaves: the entry is accepted, displaces an unreferenced entry
      with its key, and goes where it belongs; or nothing happens. */
  ghost predicate Settling(middle: View, e: LRUHandle, wantHandle: bool, a: Admission, after: View, s: Settings) {
    && a.accepted == Admits(middle.usage, e.charge, s.capacity, s.strict, wantHandle)
    && (!a.accepted ==> after == middle)
    && (a.accepted ==>
          && after.members == middle.members[e.key := e]
          && a.displaced == Displaced(middle.members, middle.pinned, e.key)
          && after.usage == middle.usage + e.charge - Charges(a.displaced)
          && after.pinned == (if wantHandle then middle.pinned + {e} else middle.pinned)
          && Spared(middle.list, middle.low, a.displaced, a.rest, a.restLow)
          && Placed(a.rest, a.restLow, e, wantHandle, s, after.list, after.low))
  }

  /** All of Insert but the allocation and the deleters: the eviction leaves the state `a.middle`. */
  ghost predicate Inserting(before: View, e: LRUHandle, wantHandle: bool, a: Admission, after: View, s: Settings) {
    Evicting(before, e.charge, a.evicted, a.middle, s.capacity) && Settling(a.middle, e, wantHandle, a, after, s)
  }

  lemma EvictingHandles(handles: set<LRUHandle>, before: View, charge: nat, evicted: seq<LRUHandle>, after: View,
                        capacity: nat)
    requires Evicting(before, charge, evicted, after, capacity)
    ensures KnownTo(handles, before) ==> KnownTo(handles, after)
  {
    MinusIsWithout(before.members, evicted);
    if KnownTo(handles, before) {
      FewerHandles(before, after, handles);
    }
  }

  lemma PlacedMembers(middle: View, e: LRUHandle, wantHandle: bool, a: Admission, after: View, s: Settings)
    requires Settling(middle, e, wantHandle, a, after, s)
    ensures forall h :: h in after.list ==> h in middle.list || h == e
  {
    if a.accepted {
      assert forall h :: h in a.rest ==> h in middle.list;
    }
  }

  lemma SettlingHandles(handles: set<LRUHandle>, middle: View, e: LRUHandle, wantHandle: bool, a: Admission,
                        after: View, s: Settings)
    requires Settling(middle, e, wantHandle, a, after, s) && KnownTo(handles, middle)
    ensures KnownTo(handles + {e}, after)
  {
    PlacedMembers(middle, e, wantHandle, a, after, s);
    assert KnownTo(handles + {e}, middle);
    FewerHandles(middle, after, handles + {e});
  }

  /** The new entry is the only new one. */
  lemma InsertingHandles(handles: set<LRUHandle>, before: View, e: LRUHandle, wantHandle: bool, a: Admission,
                         after: View, s: Settings)
    requires Inserting(before, e, wantHandle, a, after, s)
    ensures KnownTo(handles, before) ==> KnownTo(handles + {e}, after)
  {
    EvictingHandles(handles, before, e.charge, a.evicted, a.middle, s.capacity);
    if KnownTo(handles, before) {
      SettlingHandles(handles, a.middle, e, wantHandle, a, after, s);
    }
  }

  /** The eviction has left nothing on the list or has made room, so that the state before it decides: an
      entry is accepted exactly if it fits beside the entries in use, or if the limit is not strict and a
      handle is wanted. An accepted entry is the one that the table has for its key. */
  lemma AcceptedIff(before: View, e: LRUHandle, wantHandle: bool, a: Admission, after: View, s: Settings)
    requires Inserting(before, e, wantHandle, a, after, s)
    requires before.usage == Charges(before.list) + TotalCharge(before.pinned)
    ensures a.accepted <==> TotalCharge(before.pinned) + e.charge <= s.capacity || (wantHandle && !s.strict)
    ensures a.accepted ==> e.key in after.members && after.members[e.key] == e
  {
    ChargesSplit(a.evicted, a.middle.list);
  }

  /** Under the strict limit an insertion does not take the usage past the capacity. */
  lemma StrictLimitHolds(before: View, e: LRUHandle, wantHandle: bool, a: Admission, after: View, s: Settings)
    requires Inserting(before, e, wantHandle, a, after, s) && s.strict
    requires before.usage <= s.capacity
    ensures after.usage <= s.capacity
  {
  }

  /** However it goes in, the new entry is the only new one. */
  lemma InsertedMembers(before: seq<LRUHandle>, lowBefore: nat, e: LRUHandle, pool: bool,
                        list: seq<LRUHandle>, low: nat, poolCapacity: real)
    requires Inserted(before, lowBefore, e, pool, list, low, poolCapacity)
    ensures forall h :: h in list <==> h in before || h == e
  {
    assert before == before[..lowBefore] + before[lowBefore..];
  }

  class LRUCacheShard {
    var capacity_: nat
    var high_pri_pool_usage_: nat
    var strict_capacity_limit_: bool
    var high_pri_pool_ratio_: real
    var high_pri_pool_capacity_: real
    const lru_: LRUHandle
    var lru_low_pri_: LRUHandle
    const table_: LRUHandleTable
    var usage_: nat
    var lru_usage_: nat
    // The list from oldest to newest, and the size of its low-pri segment.
    ghost var list: seq<LRUHandle>
    ghost var low: nat
    // Entries with external references; entries whose deleter has run.
    ghost var pinned: set<LRUHandle>
    ghost var freed: set<LRUHandle>
    // All entries that the shard has ever taken in.
    ghost var handles: set<LRUHandle>

    constructor (capacity: nat, strict: bool, ratio: real)
      ensures Valid() && capacity_ == capacity && strict_capacity_limit_ == strict && high_pri_pool_ratio_ == ratio
      ensures table_.members == map[] && list == [] && pinned == {} && freed == {} && usage_ == 0
      ensures fresh(lru_) && fresh(table_) && handles == {}
    {
      table_ := new LRUHandleTable();
      var head := new LRUHandle(TableKey("", 0), 0, false);
      head.next, head.prev := head, head;
      // SetCapacity has nothing to evict yet.
      capacity_, high_pri_pool_usage_, usage_, lru_usage_ := capacity, 0, 0, 0;
      strict_capacity_limit_, high_pri_pool_ratio_, high_pri_pool_capacity_ := strict, ratio,
        PoolCapacity(capacity, ratio);
      lru_, lru_low_pri_ := head, head;
      list, low, pinned, freed, handles := [], 0, {}, {}, {};
      new;
      EmptyList(lru_);
      PoolNotNegative(capacity, ratio);
    }

    ghost predicate ListOk()
      reads this`lru_low_pri_, this`list, this`low, this`lru_usage_, this`high_pri_pool_usage_, lru_`next, lru_`prev,
        list`next, list`prev, list`inHighPriPool
    {
      && Segments(lru_, lru_low_pri_, list, low)
      && lru_usage_ == Charges(list)
      && high_pri_pool_usage_ == Charges(list[low..])
    }

    /** Sets the mark, the two counters and the list they describe. */
    method SetList(lowPri: LRUHandle, lruUsage: nat, poolUsage: nat, ghost list': seq<LRUHandle>, ghost low': nat)
      requires Segments(lru_, lowPri, list', low')
      requires lruUsage == Charges(list') && poolUsage == Charges(list'[low'..])
      modifies `lru_low_pri_, `lru_usage_, `high_pri_pool_usage_, `list, `low
      ensures ListOk() && list == list' && low == low' && lru_usage_ == lruUsage
      ensures Kept() && usage_ == old(usage_)
    {
      lru_low_pri_, lru_usage_, high_pri_pool_usage_ := lowPri, lruUsage, poolUsage;
      list, low := list', low';
    }

    method LRU_Remove(e: LRUHandle, ghost k: nat)
      requires ListOk() && k < |list| && e == list[k]
      modifies `lru_low_pri_, `lru_usage_, `high_pri_pool_usage_, `list, `low
      modifies lru_`next, lru_`prev, list`next, list`prev
      ensures ListOk()
      ensures list == Without(old(list), k) && low == LowWithout(old(low), k)
      ensures e.next == null && e.prev == null
      ensures lru_usage_ == old(lru_usage_) - e.charge && Kept() && usage_ == old(usage_)
    {
      RemovalAccounts(list, low, k);
      assert e.inHighPriPool <==> low <= k;
      var poolUsage := if e.inHighPriPool then high_pri_pool_usage_ - e.charge else high_pri_pool_usage_;
      var lowPri := TakeOut(lru_, lru_low_pri_, e, list, low, k);
      SetList(lowPri, lru_usage_ - e.charge, poolUsage, Without(list, k), LowWithout(low, k));
    }

    ghost predicate PoolOk()
      reads this`lru_low_pri_, this`list, this`low, this`high_pri_pool_usage_, lru_`next, lru_`prev, list`next,
        list`prev, list`inHighPriPool
    {
      Segments(lru_, lru_low_pri_, list, low) && high_pri_pool_usage_ == Charges(list[low..])
    }

    /** One round of MaintainPoolSize. */
    method Overflow()
      requires PoolOk() && high_pri_pool_usage_ > 0
      modifies `lru_low_pri_, `low, `high_pri_pool_usage_, list`inHighPriPool
      ensures PoolOk() && low == old(low) + 1
      ensures list == old(list) && lru_usage_ == old(lru_usage_) && usage_ == old(usage_) && Kept()
    {
      assert low < |list|;
      ChargesFrom(list, low);
      lru_low_pri_ := LowerOne(lru_, lru_low_pri_, list, low);
      low := low + 1;
      assert lru_low_pri_ != lru_;
      high_pri_pool_usage_ := high_pri_pool_usage_ - lru_low_pri_.charge;
    }

    /** Overflows the oldest entries of the high-pri pool to the low-pri segment until the pool fits. */
    method MaintainPoolSize()
      requires PoolOk() && high_pri_pool_capacity_ >= 0.0
      modifies `lru_low_pri_, `low, `high_pri_pool_usage_, list`inHighPriPool
      ensures PoolOk()
      ensures high_pri_pool_usage_ as real <= high_pri_pool_capacity_
      ensures old(low) <= low && (old(low) < low ==> Charges(list[low - 1..]) as real > high_pri_pool_capacity_)
      ensures list == old(list) && lru_usage_ == old(lru_usage_) && usage_ == old(usage_) && Kept()
    {
      while high_pri_pool_usage_ as real > high_pri_pool_capacity_
        invariant PoolOk()
        invariant list == old(list) && lru_usage_ == old(lru_usage_) && usage_ == old(usage_) && Kept()
        invariant old(low) <= low && (old(low) < low ==> Charges(list[low - 1..]) as real > high_pri_pool_capacity_)
        decreases |list| - low
      {
        Overflow();
      }
    }

    predicate JoinsPool(e: LRUHandle)
      reads this`high_pri_pool_ratio_, e`hasHit
    {
      high_pri_pool_ratio_ > 0.0 && (e.isHighPri || e.hasHit)
    }

    /** Where LRU_Insert puts an entry. */
    ghost predicate InsertedAs(before: seq<LRUHandle>, lowBefore: nat, e: LRUHandle, pool: bool)
      reads this`list, this`low, this`high_pri_pool_capacity_
    {
      Inserted(before, lowBefore, e, pool, list, low, high_pri_pool_capacity_)
    }

    /** Sets the pool's counter and the list. */
    method SetPool(poolUsage: nat, ghost list': seq<LRUHandle>)
      requires Segments(lru_, lru_low_pri_, list', low) && poolUsage == Charges(list'[low..])
      modifies `list, `high_pri_pool_usage_
      ensures PoolOk() && list == list' && low == old(low)
      ensures Kept() && usage_ == old(usage_) && lru_usage_ == old(lru_usage_)
    {
      list, high_pri_pool_usage_ := list', poolUsage;
    }

    /** Makes `e` the newest entry of the pool, and cuts the pool down to size. */
    method EnterPool(e: LRUHandle)
      requires PoolOk()
      requires e !in [lru_] + list && high_pri_pool_capacity_ >= 0.0
      modifies `list, `low, `lru_low_pri_, `high_pri_pool_usage_
      modifies e`inHighPriPool, e`next, e`prev, lru_`next, lru_`prev, list`next, list`prev, list`inHighPriPool
      ensures PoolOk()
      ensures InsertedAs(old(list), old(low), e, true)
      ensures lru_usage_ == old(lru_usage_) && Kept() && usage_ == old(usage_)
    {
      NewestAccounts(list, low, e);
      PutNewest(lru_, lru_low_pri_, e, list, low);
      SetPool(high_pri_pool_usage_ + e.charge, list + [e]);
      MaintainPoolSize();
    }

    /** Makes `e` the newest entry of the low-pri segment. */
    method EnterLow(e: LRUHandle)
      requires ListOk() && e !in [lru_] + list
      modifies `list, `low, `lru_low_pri_, `lru_usage_, `high_pri_pool_usage_
      modifies e`inHighPriPool, e`next, e`prev, lru_`next, lru_`prev, list`next, list`prev
      ensures ListOk() && InsertedAs(old(list), old(low), e, false)
      ensures lru_usage_ == old(lru_usage_) + e.charge && Kept() && usage_ == old(usage_)
    {
      EntryAccounts(list, low, e);
      PutLow(lru_, lru_low_pri_, e, list, low);
      SetList(e, lru_usage_ + e.charge, high_pri_pool_usage_, WithEntryAt(list, low, e), low + 1);
    }

    method LRU_Insert(e: LRUHandle)
      requires ListOk() && e !in [lru_] + list && e.next == null && e.prev == null
      requires PoolUsable()
      modifies `list, `low, `lru_low_pri_, `lru_usage_, `high_pri_pool_usage_
      modifies e`inHighPriPool, e`next, e`prev, lru_`next, lru_`prev, list`next, list`prev, list`inHighPriPool
      ensures ListOk()
      ensures InsertedAs(old(list), old(low), e, old(JoinsPool(e)))
      ensures lru_usage_ == old(lru_usage_) + e.charge && Kept() && usage_ == old(usage_)
    {
      if high_pri_pool_ratio_ > 0.0 && (e.isHighPri || e.hasHit) {
        NewestAccounts(list, low, e);
        EnterPool(e);
        lru_usage_ := lru_usage_ + e.charge;
      } else {
        EnterLow(e);
      }
    }

    ghost predicate Accounts()
      reads this`usage_, this`lru_usage_, this`pinned, this`list, this`freed, this`high_pri_pool_ratio_,
        this`high_pri_pool_capacity_
    {
      usage_ == lru_usage_ + TotalCharge(pinned) && Apart3()
    }

    /** Only a pool that entries join needs a size that is not negative. */
    ghost predicate PoolUsable()
      reads this`high_pri_pool_ratio_, this`high_pri_pool_capacity_
    {
      high_pri_pool_ratio_ > 0.0 ==> high_pri_pool_capacity_ >= 0.0
    }

    /** The freed entries, the list and the pinned entries have nothing in common. */
    ghost predicate Apart3()
      reads this`pinned, this`list, this`freed, this`high_pri_pool_ratio_, this`high_pri_pool_capacity_
    {
      && PoolUsable() && lru_ !in pinned
      && (forall h :: h in freed ==> h !in list && h !in pinned)
    }

    /** The settings, the pinned and the freed entries stay. */
    twostate predicate KeptSettings()
      reads this
    {
      && capacity_ == old(capacity_) && strict_capacity_limit_ == old(strict_capacity_limit_)
      && high_pri_pool_ratio_ == old(high_pri_pool_ratio_) && high_pri_pool_capacity_ == old(high_pri_pool_capacity_)
    }

    twostate predicate Kept()
      reads this
    {
      KeptSettings() && pinned == old(pinned) && freed == old(freed)
    }

    /** LRU_Remove of an entry that is about to leave the table as well. */
    method Unlist(e: LRUHandle, ghost k: nat)
      requires ListOk() && Accounts() && Entries(list, pinned, table_.members) && table_.Valid() && k < |list| &&
               e == list[k]
      modifies `list, `low, `lru_low_pri_, `lru_usage_, `high_pri_pool_usage_
      modifies lru_`next, lru_`prev, list`next, list`prev
      ensures Kept() && usage_ == old(usage_) && table_.Valid() && e.inCache && table_.members == old(table_.members)
      ensures e.next == null && e.prev == null
      ensures forall h :: h in list ==> h in old(list)
      ensures e !in list && e !in pinned && e.refs == 0
      ensures Entries(list, pinned, table_.members - {e.key}) && Registered(table_.members, e)
      ensures low == LowWithout(old(low), k)
      ensures ListOk() && list == Without(old(list), k) && lru_usage_ == old(lru_usage_) - e.charge
    {
      DistinctParts([lru_], list);
      EntriesWithout(list, pinned, table_.members, k);
      ChargesWithout(list, k);
      LRU_Remove(e, k);
    }

    /** Takes a key out of the table; list and entries do not notice. */
    method DropKey(e: LRUHandle)
      requires ListOk() && table_.Valid() && Entries(list, pinned, table_.members - {e.key})
      modifies table_`chains, table_`members, table_`elems_, table_`list_, table_.members.Values`nextHash
      ensures ListOk() && table_.Valid() && Entries(list, pinned, table_.members)
      ensures table_.members == old(table_.members) - {e.key} && e.refs == old(e.refs)
      ensures Kept() && usage_ == old(usage_) && lru_usage_ == old(lru_usage_) && list == old(list) && low == old(low)
    {
      var gone := table_.Remove(e.key);
    }

    /** Clears the in-cache flag of an entry that the cache has let go of. */
    method Close(e: LRUHandle)
      requires ListOk() && table_.Valid() && Entries(list, pinned, table_.members) && e !in list && e !in pinned
      modifies e`inCache
      ensures ListOk() && table_.Valid() && Entries(list, pinned, table_.members) && !e.inCache
      ensures Kept() && usage_ == old(usage_) && lru_usage_ == old(lru_usage_) && list == old(list) && low == old(low)
      ensures e.refs == old(e.refs) && table_.members == old(table_.members)
    {
      e.inCache := false;
    }

    /** Takes the charge of an entry that left the cache off the usage. */
    method Uncharge(e: LRUHandle)
      requires ListOk() && table_.Valid() && Entries(list, pinned, table_.members)
      requires usage_ == lru_usage_ + TotalCharge(pinned) + e.charge && Apart3()
      modifies `usage_
      ensures ListOk() && Accounts() && Entries(list, pinned, table_.members) && table_.Valid()
      ensures usage_ == old(usage_) - e.charge && Kept() && list == old(list) && low == old(low) &&
              table_.members == old(table_.members)
      ensures e.refs == old(e.refs) && e.inCache == old(e.inCache)
    {
      usage_ := usage_ - e.charge;
    }

    /** Takes an entry off the list and out of the cache. */
    method Discard(e: LRUHandle, ghost k: nat)
      requires ListOk() && Accounts() && Entries(list, pinned, table_.members) && table_.Valid() && k < |list| &&
               e == list[k]
      modifies `list, `low, `lru_low_pri_, `lru_usage_, `high_pri_pool_usage_, `usage_
      modifies lru_`next, lru_`prev, list`next, list`prev, e`inCache
      modifies table_`chains, table_`members, table_`elems_, table_`list_, table_.members.Values`nextHash
      ensures ListOk() && Accounts() && Entries(list, pinned, table_.members) && table_.Valid()
      ensures list == Without(old(list), k) && low == LowWithout(old(low), k) && usage_ == old(usage_) - e.charge
      ensures table_.members == old(table_.members) - {e.key}
      ensures e.refs == 0 && !e.inCache && e !in freed && e !in pinned && e !in list
      ensures Kept()
    {
      Unlist(e, k);
      DropKey(e);
      Close(e);
      Uncharge(e);
    }

    /** Takes the oldest entry out of the cache. */
    method EvictOne(ghost all: map<TableKey, LRUHandle>, ghost deleted: seq<LRUHandle>) returns (e: LRUHandle)
      requires ListOk() && Accounts() && Entries(list, pinned, table_.members) && table_.Valid() && list != []
      requires table_.members == Minus(all, deleted)
      modifies `list, `low, `lru_low_pri_, `lru_usage_, `high_pri_pool_usage_, `usage_
      modifies lru_`next, lru_`prev, list`next, list`prev, list`inCache
      modifies table_`chains, table_`members, table_`elems_, table_`list_, table_.members.Values`nextHash
      ensures ListOk() && Accounts() && Entries(list, pinned, table_.members) && table_.Valid() && Kept()
      ensures e == old(list)[0] && list == old(list)[1..] && low == LowWithout(old(low), 0) &&
              usage_ == old(usage_) - e.charge
      ensures table_.members == Minus(all, deleted + [e]) && table_.members.Values <= old(table_.members.Values)
      ensures Gone(e)
    {
      assert ([lru_] + list)[0].next == After([lru_] + list, 0);
      e := lru_.next;
      assert Without(list, 0) == list[1..];
      FewerValues(table_.members, e.key);
      MinusOneMore(all, deleted, e);
      Discard(e, 0);
    }

    /** Nothing in the shard leads to the entry any more. */
    ghost predicate Gone(e: LRUHandle)
      reads this`list, this`pinned, this`freed, e`refs, e`inCache
    {
      e.refs == 0 && !e.inCache && e !in list && e !in pinned && e !in freed
    }

    /** `deleted` are the oldest entries of `before`, and they are out of the cache. */
    ghost predicate Evicted(before: seq<LRUHandle>, lowBefore: nat, usage: nat, deleted: seq<LRUHandle>)
      reads this`list, this`low, this`usage_, this`pinned, this`freed, deleted`refs, deleted`inCache
    {
      && before == deleted + list && Distinct(before) && low == LowAfter(lowBefore, |deleted|)
      && usage_ == usage - Charges(deleted)
      && (forall i :: 0 <= i < |deleted| ==> Gone(deleted[i]))
    }

    /** Evicts one more entry; those evicted before stay gone. */
    method EvictKeeping(ghost all: map<TableKey, LRUHandle>, ghost deleted: seq<LRUHandle>) returns (e: LRUHandle)
      requires ListOk() && Accounts() && Entries(list, pinned, table_.members) && table_.Valid() && list != []
      requires table_.members == Minus(all, deleted) && forall i :: 0 <= i < |deleted| ==> Gone(deleted[i])
      modifies `list, `low, `lru_low_pri_, `lru_usage_, `high_pri_pool_usage_, `usage_
      modifies lru_`next, lru_`prev, list`next, list`prev, list`inCache
      modifies table_`chains, table_`members, table_`elems_, table_`list_, table_.members.Values`nextHash
      ensures Kept() && usage_ == old(usage_) - e.charge
      ensures e == old(list)[0] && list == old(list)[1..] && low == LowWithout(old(low), 0)
      ensures table_.members == Minus(all, deleted + [e]) && table_.members.Values <= old(table_.members.Values)
      ensures Gone(e) && forall i :: 0 <= i < |deleted| ==> Gone(deleted[i])
      ensures ListOk() && Accounts() && Entries(list, pinned, table_.members) && table_.Valid()
    {
      e := EvictOne(all, deleted);
      forall i | 0 <= i < |deleted| ensures Gone(deleted[i]) {
        assert deleted[i] !in old(list) && deleted[i].inCache == old(deleted[i].inCache);
      }
    }

    /** One round of an eviction loop. */
    method EvictNext(ghost before: seq<LRUHandle>, ghost lowBefore: nat, ghost usage: nat,
                     ghost all: map<TableKey, LRUHandle>,
                     deleted: seq<LRUHandle>)
      returns (deleted': seq<LRUHandle>)
      requires ListOk() && Accounts() && Entries(list, pinned, table_.members) && table_.Valid()
      requires Evicted(before, lowBefore, usage, deleted) && list != [] && table_.members == Minus(all, deleted)
      modifies `list, `low, `lru_low_pri_, `lru_usage_, `high_pri_pool_usage_, `usage_
      modifies lru_`next, lru_`prev, list`next, list`prev, list`inCache
      modifies table_`chains, table_`members, table_`elems_, table_`list_, table_.members.Values`nextHash
      ensures Kept() && Evicted(before, lowBefore, usage, deleted') && deleted' == deleted + [old(list)[0]]
      ensures list == old(list)[1..]
      ensures table_.members == Minus(all, deleted') && table_.members.Values <= old(table_.members.Values)
      ensures ListOk() && Accounts() && Entries(list, pinned, table_.members) && table_.Valid()
    {
      assert deleted + list == (deleted + [list[0]]) + list[1..];
      var e := EvictKeeping(all, deleted);
      ChargesSplit(deleted, [e]);
      deleted' := deleted + [e];
    }

    /** Without the last of them, `charge` would not have fitted. */
    ghost predicate NoneTooMany(usage: int, charge: nat, deleted: seq<LRUHandle>)
      reads this`capacity_
    {
      NoMoreThanNeeded(usage, charge, deleted, capacity_)
    }

    /** One round of EvictFromLRU: there is not enough room yet. */
    method EvictForRoom(charge: nat, ghost before: seq<LRUHandle>, ghost lowBefore: nat, ghost usage: nat,
                        ghost all: map<TableKey, LRUHandle>, deleted: seq<LRUHandle>)
      returns (deleted': seq<LRUHandle>)
      requires ListOk() && Accounts() && Entries(list, pinned, table_.members) && table_.Valid()
      requires Evicted(before, lowBefore, usage, deleted) && list != [] && usage_ + charge > capacity_
      requires table_.members == Minus(all, deleted)
      modifies `list, `low, `lru_low_pri_, `lru_usage_, `high_pri_pool_usage_, `usage_
      modifies lru_`next, lru_`prev, list`next, list`prev, list`inCache
      modifies table_`chains, table_`members, table_`elems_, table_`list_, table_.members.Values`nextHash
      ensures ListOk() && Accounts() && Entries(list, pinned, table_.members) && table_.Valid()
      ensures Kept() && Evicted(before, lowBefore, usage, deleted') && NoneTooMany(usage, charge, deleted')
      ensures list == old(list)[1..]
      ensures table_.members == Minus(all, deleted') && table_.members.Values <= old(table_.members.Values)
    {
      deleted' := EvictNext(before, lowBefore, usage, all, deleted);
      assert deleted'[..|deleted'| - 1] == deleted;
    }

    /** Evicts from the oldest end until there is room for `charge` more or the list is empty, and no
        more than that. */
    method EvictFromLRU(charge: nat) returns (deleted: seq<LRUHandle>)
      requires ListOk() && Accounts() && Entries(list, pinned, table_.members) && table_.Valid()
      modifies `list, `low, `lru_low_pri_, `lru_usage_, `high_pri_pool_usage_, `usage_
      modifies lru_`next, lru_`prev, list`next, list`prev, list`inCache
      modifies table_`chains, table_`members, table_`elems_, table_`list_, table_.members.Values`nextHash
      ensures ListOk() && Accounts() && Entries(list, pinned, table_.members) && table_.Valid()
      ensures Kept() && Evicted(old(list), old(low), old(usage_), deleted) && NoneTooMany(old(usage_), charge, deleted)
      ensures (usage_ + charge <= capacity_ || list == []) && Distinct(deleted)
      ensures table_.members == Minus(old(table_.members), deleted) &&
              table_.members.Values <= old(table_.members.Values)
    {
      deleted := [];
      HeadTellsEmpty(lru_, list);
      DistinctParts([lru_], list);
      while usage_ + charge > capacity_ && lru_.next != lru_
        invariant lru_.next == lru_ <==> list == []
        invariant ListOk() && Accounts() && Entries(list, pinned, table_.members) && table_.Valid()
        invariant Kept() && Evicted(old(list), old(low), old(usage_), deleted) &&
                  NoneTooMany(old(usage_), charge, deleted)
        invariant table_.members == Minus(old(table_.members), deleted)
        invariant table_.members.Values <= old(table_.members.Values)
        invariant forall h :: h in list ==> h in old(list)
        decreases |list|
      {
        assert forall h :: h in table_.members.Values ==> h in old(table_.members.Values);
        assert forall i :: 0 <= i < |list| ==> list[i] in old(list);
        deleted := EvictForRoom(charge, old(list), old(low), old(usage_), old(table_.members), deleted);
        HeadTellsEmpty(lru_, list);
      }
      DistinctParts(deleted, list);
    }

    /** Evicts everything on the list. */
    method EvictAll() returns (deleted: seq<LRUHandle>)
      requires ListOk() && Accounts() && Entries(list, pinned, table_.members) && table_.Valid()
      modifies `list, `low, `lru_low_pri_, `lru_usage_, `high_pri_pool_usage_, `usage_
      modifies lru_`next, lru_`prev, list`next, list`prev, list`inCache
      modifies table_`chains, table_`members, table_`elems_, table_`list_, table_.members.Values`nextHash
      ensures ListOk() && Accounts() && Entries(list, pinned, table_.members) && table_.Valid()
      ensures Kept() && Evicted(old(list), old(low), old(usage_), deleted) && list == [] && Distinct(deleted)
      ensures table_.members == Minus(old(table_.members), deleted) &&
              table_.members.Values <= old(table_.members.Values)
    {
      deleted := [];
      HeadTellsEmpty(lru_, list);
      DistinctParts([lru_], list);
      while lru_.next != lru_
        invariant lru_.next == lru_ <==> list == []
        invariant ListOk() && Accounts() && Entries(list, pinned, table_.members) && table_.Valid()
        invariant Kept() && Evicted(old(list), old(low), old(usage_), deleted)
        invariant table_.members == Minus(old(table_.members), deleted)
        invariant table_.members.Values <= old(table_.members.Values)
        invariant forall h :: h in list ==> h in old(list)
        decreases |list|
      {
        assert forall h :: h in table_.members.Values ==> h in old(table_.members.Values);
        assert forall i :: 0 <= i < |list| ==> list[i] in old(list);
        deleted := EvictNext(old(list), old(low), old(usage_), old(table_.members), deleted);
        HeadTellsEmpty(lru_, list);
      }
      DistinctParts(deleted, list);
    }

    // ---- Freeing ----

    /** Runs the deleter of an entry. */
    method Free(e: LRUHandle)
      requires ListOk() && Accounts() && Entries(list, pinned, table_.members) && table_.Valid() && Gone(e)
      modifies `freed
      ensures ListOk() && Accounts() && Entries(list, pinned, table_.members) && table_.Valid() &&
              freed == old(freed) + {e}
      ensures list == old(list) && low == old(low) && pinned == old(pinned) && usage_ == old(usage_) &&
              table_.members == old(table_.members)
    {
      freed := freed + {e};
    }

    /** Runs the deleters of the entries that left the cache, once each. */
    method FreeAll(deleted: seq<LRUHandle>)
      requires ListOk() && Accounts() && Entries(list, pinned, table_.members) && table_.Valid()
      requires Distinct(deleted) && forall i :: 0 <= i < |deleted| ==> Gone(deleted[i])
      modifies `freed
      ensures ListOk() && Accounts() && Entries(list, pinned, table_.members) && table_.Valid()
      ensures freed == old(freed) + set h | h in deleted
      ensures list == old(list) && low == old(low) && pinned == old(pinned) && usage_ == old(usage_)
      ensures KeptSettings() && table_.members == old(table_.members)
    {
      for i := 0 to |deleted|
        invariant ListOk() && Accounts() && Entries(list, pinned, table_.members) && table_.Valid()
        invariant freed == old(freed) + set h | h in deleted[..i]
        invariant forall j :: i <= j < |deleted| ==> Gone(deleted[j])
        invariant list == old(list) && low == old(low) && pinned == old(pinned) && usage_ == old(usage_)
        invariant table_.members == old(table_.members)
      {
        forall j | i < j < |deleted| ensures deleted[j] != deleted[i] {
          DistinctAt(deleted, i, j);
        }
        assert deleted[..i + 1] == deleted[..i] + [deleted[i]];
        Free(deleted[i]);
      }
      assert deleted[..|deleted|] == deleted;
    }

    // ---- Joining and leaving ----

    /** An entry that the table has and the usage counts, but that is neither on the list nor pinned. */
    ghost predicate Afloat(e: LRUHandle)
      reads this, table_`members, list, pinned, e
    {
      && Entries(list, pinned, table_.members - {e.key}) && Registered(table_.members, e)
      && e !in list && e !in pinned && e !in freed && e != lru_
      && e.refs == 0 && e.inCache && e.next == null && e.prev == null
      && usage_ == lru_usage_ + TotalCharge(pinned) + e.charge && Apart3()
    }

    /** The first external reference. */
    method JoinPinned(e: LRUHandle)
      requires ListOk() && table_.Valid() && Afloat(e)
      modifies e`refs, `pinned
      ensures pinned == old(pinned) + {e} && e.refs == 1 && e.inCache
      ensures KeptSettings() && list == old(list) && low == old(low) && freed == old(freed) && usage_ == old(usage_)
      ensures table_.members == old(table_.members)
      ensures ListOk() && Accounts() && Entries(list, pinned, table_.members) && table_.Valid()
    {
      TotalWith(pinned, e);
      e.refs := e.refs + 1;
      EntriesWithPinned(list, pinned, table_.members, e);
      pinned := pinned + {e};
    }

    /** LRU_Insert, and what it leaves alone. */
    method PutOnList(e: LRUHandle, ghost members: map<TableKey, LRUHandle>)
      requires ListOk() && table_.Valid() && Entries(list, pinned, members)
      requires e !in [lru_] + list && e !in pinned && e.next == null && e.prev == null && PoolUsable()
      modifies `list, `low, `lru_low_pri_, `lru_usage_, `high_pri_pool_usage_
      modifies e`inHighPriPool, e`next, e`prev, lru_`next, lru_`prev, list`next, list`prev, list`inHighPriPool
      ensures ListOk() && table_.Valid() && Entries(old(list), pinned, members)
      ensures InsertedAs(old(list), old(low), e, old(JoinsPool(e))) && lru_usage_ == old(lru_usage_) + e.charge
      ensures Kept() && usage_ == old(usage_) && table_.members == old(table_.members)
      ensures e.refs == old(e.refs) && e.inCache == old(e.inCache)
    {
      LRU_Insert(e);
    }

    /** No external reference, but in the cache: the entry goes on the list. */
    method JoinList(e: LRUHandle)
      requires ListOk() && table_.Valid() && Afloat(e)
      modifies `list, `low, `lru_low_pri_, `lru_usage_, `high_pri_pool_usage_
      modifies e`inHighPriPool, e`next, e`prev, lru_`next, lru_`prev, list`next, list`prev, list`inHighPriPool
      ensures ListOk() && Accounts() && Entries(list, pinned, table_.members) && table_.Valid()
      ensures InsertedAs(old(list), old(low), e, old(JoinsPool(e)))
      ensures forall h :: h in list <==> h in old(list) || h == e
      ensures Kept() && usage_ == old(usage_) && table_.members == old(table_.members)
      ensures forall h :: h in pinned && h != e ==> h.refs == old(h.refs)
    {
      PutOnList(e, table_.members - {e.key});
      InsertedMembers(old(list), old(low), e, old(JoinsPool(e)), list, low, high_pri_pool_capacity_);
      EntriesWithListed(old(list), list, pinned, table_.members, e);
    }

    method DropRef(e: LRUHandle, ghost pinned': set<LRUHandle>, ghost members: map<TableKey, LRUHandle>)
      requires ListOk() && table_.Valid() && Entries(list, pinned', members)
      requires e !in list && e !in pinned' && e.refs > 0
      modifies e`refs, `pinned
      ensures ListOk() && table_.Valid() && Entries(list, pinned', members)
      ensures pinned == pinned' && e.refs == old(e.refs) - 1
      ensures e.inCache == old(e.inCache) && e.next == old(e.next) && e.prev == old(e.prev)
      ensures KeptSettings() && list == old(list) && low == old(low) && freed == old(freed)
      ensures usage_ == old(usage_) && lru_usage_ == old(lru_usage_) && table_.members == old(table_.members)
    {
      pinned := pinned';
      e.refs := e.refs - 1;
    }

    /** Gives up the last reference to an entry. */
    method Unpin(e: LRUHandle)
      requires ListOk() && Accounts() && Entries(list, pinned, table_.members) && table_.Valid() && e in pinned &&
               e.refs == 1
      modifies e`refs, `pinned
      ensures ListOk() && table_.Valid() && pinned == old(pinned) - {e} && e.inCache == old(e.inCache)
      ensures e.inCache ==> Afloat(e)
      ensures !e.inCache ==> Entries(list, pinned, table_.members) && Gone(e)
      ensures usage_ == lru_usage_ + TotalCharge(pinned) + e.charge && Apart3()
      ensures KeptSettings() && list == old(list) && low == old(low) && freed == old(freed) && usage_ == old(usage_)
      ensures table_.members == old(table_.members)
      ensures forall h :: h in old(pinned) && h != e ==> h.refs == old(h.refs)
    {
      EntriesWithoutPinned(list, pinned, table_.members, e);
      TotalWithout(pinned, e);
      DropRef(e, pinned - {e}, if e.inCache then table_.members - {e.key} else table_.members);
    }

    // ---- Operations ----

    ghost function Now(): View
      reads this`list, this`low, this`usage_, this`pinned, table_`members
    {
      View(list, low, usage_, pinned, table_.members)
    }

    /** Everything that a valid shard is made of. */
    ghost function Repr(): set<object>
      reads this`handles
    {
      {this, lru_, table_} + handles
    }

    ghost predicate Valid()
      reads this, Repr()
    {
      && KnownTo(handles, Now())
      && ListOk() && Accounts() && Entries(list, pinned, table_.members) && table_.Valid()
      && (usage_ > capacity_ ==> list == [])
    }

    method SetCapacity(capacity: nat) returns (deleted: seq<LRUHandle>)
      requires Valid()
      modifies `capacity_, `high_pri_pool_ratio_, `high_pri_pool_capacity_, `list, `low, `lru_low_pri_, `lru_usage_
      modifies `high_pri_pool_usage_, `usage_, `freed, lru_`next, lru_`prev, list`next, list`prev, list`inCache
      modifies table_`chains, table_`members, table_`elems_, table_`list_, table_.members.Values`nextHash
      ensures Evicting(old(Now()), 0, deleted, Now(), capacity) && freed == old(freed) + set h | h in deleted
      ensures Config() == old(Config()).(capacity := capacity,
              poolCapacity := PoolCapacity(capacity, old(high_pri_pool_ratio_)))
      ensures handles == old(handles) && forall h :: h in pinned ==> h.refs == old(h.refs)
      ensures Valid()
    {
      ghost var before := Now();
      deleted := Shrink(capacity);
      EvictingHandles(handles, before, 0, deleted, Now(), capacity);
    }

    /** The new capacity, and evictions until the entries fit it or all that is left is pinned. */
    method Shrink(capacity: nat) returns (deleted: seq<LRUHandle>)
      requires ListOk() && Accounts() && Entries(list, pinned, table_.members) && table_.Valid()
      modifies `capacity_, `high_pri_pool_ratio_, `high_pri_pool_capacity_, `list, `low, `lru_low_pri_, `lru_usage_
      modifies `high_pri_pool_usage_, `usage_, `freed, lru_`next, lru_`prev, list`next, list`prev, list`inCache
      modifies table_`chains, table_`members, table_`elems_, table_`list_, table_.members.Values`nextHash
      ensures Evicting(old(Now()), 0, deleted, Now(), capacity) && freed == old(freed) + set h | h in deleted
      ensures Config() == old(Config()).(capacity := capacity,
              poolCapacity := PoolCapacity(capacity, old(high_pri_pool_ratio_)))
      ensures ListOk() && Accounts() && Entries(list, pinned, table_.members) && table_.Valid()
    {
      SetLimits(capacity, high_pri_pool_ratio_);
      deleted := EvictFromLRU(0);
      FreeAll(deleted);
    }

    method SetLimits(capacity: nat, ratio: real)
      requires ListOk() && Accounts() && Entries(list, pinned, table_.members) && table_.Valid()
      modifies `capacity_, `high_pri_pool_ratio_, `high_pri_pool_capacity_
      ensures ListOk() && Accounts() && Entries(list, pinned, table_.members) && table_.Valid()
      ensures capacity_ == capacity && high_pri_pool_ratio_ == ratio &&
              high_pri_pool_capacity_ == PoolCapacity(capacity, ratio)
      ensures list == old(list) && low == old(low) && usage_ == old(usage_) && pinned == old(pinned) &&
              freed == old(freed)
      ensures strict_capacity_limit_ == old(strict_capacity_limit_)
    {
      capacity_, high_pri_pool_ratio_, high_pri_pool_capacity_ := capacity, ratio, PoolCapacity(capacity, ratio);
      PoolNotNegative(capacity, ratio);
    }

    /** One more reference to an entry that has some. */
    method AddRef(e: LRUHandle)
      requires ListOk() && Accounts() && Entries(list, pinned, table_.members) && table_.Valid() && e in pinned
      modifies e`refs
      ensures ListOk() && Accounts() && Entries(list, pinned, table_.members) && table_.Valid()
      ensures e.refs == old(e.refs) + 1 && e.inCache == old(e.inCache)
      ensures Kept() && list == old(list) && low == old(low) && usage_ == old(usage_) &&
              table_.members == old(table_.members)
      ensures handles == old(handles)
    {
      e.refs := e.refs + 1;
    }

    /** The first reference to an entry on the list. */
    method Take(e: LRUHandle, ghost k: nat)
      requires ListOk() && Accounts() && Entries(list, pinned, table_.members) && table_.Valid() && k < |list| &&
               e == list[k]
      modifies `list, `low, `lru_low_pri_, `lru_usage_, `high_pri_pool_usage_, `pinned
      modifies lru_`next, lru_`prev, list`next, list`prev, e`refs
      ensures ListOk() && Accounts() && Entries(list, pinned, table_.members) && table_.Valid()
      ensures list == Without(old(list), k) && low == LowWithout(old(low), k)
      ensures pinned == old(pinned) + {e} && e.refs == 1 && e.inCache
      ensures KeptSettings() && freed == old(freed) && usage_ == old(usage_) && table_.members == old(table_.members)
    {
      DistinctParts([lru_], list);
      assert [lru_][0] !in list;
      Unlist(e, k);
      JoinPinned(e);
    }

    /** Ref: another reference for somebody who holds one. */
    method Ref(e: LRUHandle)
      requires Valid() && e in pinned
      modifies e`refs
      ensures Valid() && e.refs == old(e.refs) + 1
      ensures KeptSettings() && Now() == old(Now()) && freed == old(freed)
    {
      AddRef(e);
    }

    method SetHit(e: LRUHandle)
      requires ListOk() && Accounts() && Entries(list, pinned, table_.members) && table_.Valid()
      modifies e`hasHit
      ensures ListOk() && Accounts() && Entries(list, pinned, table_.members) && table_.Valid()
      ensures e.hasHit && e.refs == old(e.refs) && e.inCache == old(e.inCache)
      ensures Now() == old(Now()) && Config() == old(Config()) && freed == old(freed)
    {
      e.hasHit := true;
    }

    /** A reference to an entry of the table. */
    method Acquire(e: LRUHandle)
      requires ListOk() && Accounts() && Entries(list, pinned, table_.members) && table_.Valid() &&
               Registered(table_.members, e)
      modifies `list, `low, `lru_low_pri_, `lru_usage_, `high_pri_pool_usage_, `pinned
      modifies lru_`next, lru_`prev, list`next, list`prev, e`refs
      ensures ListOk() && Accounts() && Entries(list, pinned, table_.members) && table_.Valid()
      ensures e in pinned && e.inCache && e.refs == old(e.refs) + 1 && Taking(old(Now()), e, Now())
      ensures KeptSettings() && freed == old(freed) && usage_ == old(usage_) && table_.members == old(table_.members)
      ensures old(list) == [] ==> list == []
    {
      assert e.inCache && (e in list || e in pinned);
      if e.refs == 0 {
        ghost var k: nat :| k < |list| && list[k] == e;
        Take(e, k);
      } else {
        AddRef(e);
      }
    }

    method Lookup(key: TableKey) returns (e: LRUHandle?)
      requires Valid()
      modifies `list, `low, `lru_low_pri_, `lru_usage_, `high_pri_pool_usage_, `pinned
      modifies lru_`next, lru_`prev, list`next, list`prev, table_.members.Values`refs, table_.members.Values`hasHit
      ensures e == if key in table_.members then table_.members[key] else null
      ensures e == null ==> Now() == old(Now())
      ensures e != null ==> e.key == key && e in pinned && e.refs == old(e.refs) + 1 && e.hasHit && e.inCache
      ensures e != null ==> Taking(old(Now()), e, Now())
      ensures Config() == old(Config()) && freed == old(freed) && handles == old(handles)
      ensures forall h :: h in old(pinned) && h != e ==> h.refs == old(h.refs)
      ensures Valid()
    {
      e := LookupEntry(key);
    }

    /** A reference to an entry that has been found. */
    method Hit(e: LRUHandle)
      requires ListOk() && Accounts() && Entries(list, pinned, table_.members) && table_.Valid() &&
               Registered(table_.members, e)
      modifies `list, `low, `lru_low_pri_, `lru_usage_, `high_pri_pool_usage_, `pinned
      modifies lru_`next, lru_`prev, list`next, list`prev, e`refs, e`hasHit
      ensures Config() == old(Config()) && freed == old(freed) && (old(list) == [] ==> list == [])
      ensures e in pinned && e.inCache && e.refs == old(e.refs) + 1 && e.hasHit && Taking(old(Now()), e, Now())
      ensures old(KnownTo(handles, Now())) ==> KnownTo(handles, Now())
      ensures ListOk() && Accounts() && Entries(list, pinned, table_.members) && table_.Valid()
    {
      ghost var before := Now();
      Acquire(e);
      TakingHandles(handles, before, e, Now());
      SetHit(e);
    }

    method LookupEntry(key: TableKey) returns (e: LRUHandle?)
      requires ListOk() && Accounts() && Entries(list, pinned, table_.members) && table_.Valid()
      modifies `list, `low, `lru_low_pri_, `lru_usage_, `high_pri_pool_usage_, `pinned
      modifies lru_`next, lru_`prev, list`next, list`prev, table_.members.Values`refs, table_.members.Values`hasHit
      ensures e == if key in table_.members then table_.members[key] else null
      ensures e == null ==> Now() == old(Now())
      ensures e != null ==> e.key == key && e in pinned && e.refs == old(e.refs) + 1 && e.hasHit && e.inCache
      ensures e != null ==> Taking(old(Now()), e, Now())
      ensures Config() == old(Config()) && freed == old(freed) && (old(list) == [] ==> list == [])
      ensures forall h :: h in old(pinned) && h != e ==> h.refs == old(h.refs)
      ensures old(KnownTo(handles, Now())) ==> KnownTo(handles, Now())
      ensures ListOk() && Accounts() && Entries(list, pinned, table_.members) && table_.Valid()
    {
      e := table_.Lookup(key);
      if e != null {
        assert Registered(table_.members, e);
        Hit(e);
      }
    }

    /** Takes an entry without references out of the table. */
    method Expel(e: LRUHandle)
      requires ListOk() && table_.Valid() && Afloat(e)
      modifies table_`chains, table_`members, table_`elems_, table_`list_, table_.members.Values`nextHash, e`inCache
      ensures ListOk() && Entries(list, pinned, table_.members) && table_.Valid() && Gone(e)
      ensures table_.members == old(table_.members) - {e.key}
      ensures Kept() && list == old(list) && low == old(low) && usage_ == old(usage_) && lru_usage_ == old(lru_usage_)
    {
      DropKey(e);
      Close(e);
    }

    /** The usage gives back the entry's charge, and its deleter runs. */
    method Finish(e: LRUHandle)
      requires ListOk() && table_.Valid() && Entries(list, pinned, table_.members) && Gone(e)
      requires usage_ == lru_usage_ + TotalCharge(pinned) + e.charge && Apart3()
      modifies `usage_, `freed
      ensures ListOk() && Accounts() && Entries(list, pinned, table_.members) && table_.Valid()
      ensures usage_ == old(usage_) - e.charge && freed == old(freed) + {e} && e.refs == 0 && !e.inCache
      ensures KeptSettings() && list == old(list) && low == old(low) && pinned == old(pinned) &&
              table_.members == old(table_.members)
    {
      Uncharge(e);
      Free(e);
    }

    /** An entry without references leaves the cache for good. */
    method Leave(e: LRUHandle)
      requires ListOk() && table_.Valid() && (e.inCache ==> Afloat(e))
      requires !e.inCache ==> Entries(list, pinned, table_.members) && Gone(e)
      requires usage_ == lru_usage_ + TotalCharge(pinned) + e.charge && Apart3()
      modifies table_`chains, table_`members, table_`elems_, table_`list_, table_.members.Values`nextHash, e`inCache,
        `usage_, `freed
      ensures ListOk() && Accounts() && Entries(list, pinned, table_.members) && table_.Valid()
      ensures usage_ == old(usage_) - e.charge && freed == old(freed) + {e}
      ensures KeptSettings() && list == old(list) && low == old(low) && pinned == old(pinned)
      ensures table_.members == if old(e.inCache) then old(table_.members) - {e.key} else old(table_.members)
    {
      if e.inCache {
        Expel(e);
      }
      Finish(e);
    }

    /** The last reference goes, and with it the entry. */
    method ReleaseForGood(e: LRUHandle)
      requires ListOk() && Accounts() && Entries(list, pinned, table_.members) && table_.Valid()
      requires e in pinned && e.refs == 1
      modifies `usage_, `pinned, `freed, e`refs, e`inCache
      modifies table_`chains, table_`members, table_`elems_, table_`list_, table_.members.Values`nextHash
      ensures Releasing(old(Now()), e, old(e.inCache), old(JoinsPool(e)), true, Now(), high_pri_pool_capacity_)
      ensures freed == old(freed) + {e}
      ensures KeptSettings() && ListOk() && Accounts() && Entries(list, pinned, table_.members) && table_.Valid()
      ensures forall h :: h in old(pinned) && h != e ==> h.refs == old(h.refs)
    {
      Unpin(e);
      Leave(e);
    }

    /** The last reference goes, and the entry goes on the list. */
    method ReleaseToList(e: LRUHandle)
      requires ListOk() && Accounts() && Entries(list, pinned, table_.members) && table_.Valid()
      requires e in pinned && e.refs == 1 && e.inCache
      modifies `list, `low, `lru_low_pri_, `lru_usage_, `high_pri_pool_usage_, `pinned
      modifies e`refs, e`inHighPriPool, e`next, e`prev, lru_`next, lru_`prev, list`next, list`prev, list`inHighPriPool
      ensures Releasing(old(Now()), e, true, old(JoinsPool(e)), false, Now(), high_pri_pool_capacity_)
      ensures KeptSettings() && ListOk() && Accounts() && Entries(list, pinned, table_.members) && table_.Valid()
      ensures forall h :: h in old(pinned) && h != e ==> h.refs == old(h.refs)
    {
      Unpin(e);
      JoinList(e);
    }

    /** The last reference to an entry goes. */
    method ReleaseLast(e: LRUHandle, force: bool) returns (last: bool)
      requires ListOk() && Accounts() && Entries(list, pinned, table_.members) && table_.Valid()
      requires e in pinned && e.refs == 1 && (usage_ > capacity_ ==> list == [])
      modifies `list, `low, `lru_low_pri_, `lru_usage_, `high_pri_pool_usage_, `usage_, `pinned, `freed
      modifies e`refs, e`inCache, e`inHighPriPool, e`next, e`prev
      modifies lru_`next, lru_`prev, list`next, list`prev, list`inHighPriPool
      modifies table_`chains, table_`members, table_`elems_, table_`list_, table_.members.Values`nextHash
      ensures Releasing(old(Now()), e, old(e.inCache), old(JoinsPool(e)), last, Now(), high_pri_pool_capacity_)
      ensures freed == if last then old(freed) + {e} else old(freed)
      ensures KeptSettings() && (usage_ > capacity_ ==> list == [])
      ensures ListOk() && Accounts() && Entries(list, pinned, table_.members) && table_.Valid()
      ensures forall h :: h in old(pinned) && h != e ==> h.refs == old(h.refs)
      ensures last <==> !old(e.inCache) || old(usage_) > capacity_ || force
    {
      if e.inCache && !(usage_ > capacity_ || force) {
        last := false;
        ReleaseToList(e);
      } else {
        last := true;
        ReleaseForGood(e);
      }
    }

    /** Gives up one of several references. */
    method DropOne(e: LRUHandle)
      requires ListOk() && Accounts() && Entries(list, pinned, table_.members) && table_.Valid() && e in pinned &&
               e.refs > 1
      modifies e`refs
      ensures ListOk() && Accounts() && Entries(list, pinned, table_.members) && table_.Valid()
      ensures e.refs == old(e.refs) - 1
      ensures Kept() && list == old(list) && low == old(low) && usage_ == old(usage_) &&
              table_.members == old(table_.members)
      ensures forall h :: h in old(pinned) && h != e ==> h.refs == old(h.refs)
    {
      e.refs := e.refs - 1;
    }

    /** Gives up one of several references, or the last one. */
    method ReleaseHandle(e: LRUHandle, force: bool) returns (last: bool)
      requires ListOk() && Accounts() && Entries(list, pinned, table_.members) && table_.Valid()
      requires e in pinned && (usage_ > capacity_ ==> list == [])
      modifies `list, `low, `lru_low_pri_, `lru_usage_, `high_pri_pool_usage_, `usage_, `pinned, `freed
      modifies e`refs, e`inCache, e`inHighPriPool, e`next, e`prev
      modifies lru_`next, lru_`prev, list`next, list`prev, list`inHighPriPool
      modifies table_`chains, table_`members, table_`elems_, table_`list_, table_.members.Values`nextHash
      ensures old(e.refs) > 1 ==> !last && Now() == old(Now()) && e.refs == old(e.refs) - 1
      ensures old(e.refs) == 1 ==> (last <==> !old(e.inCache) || old(usage_) > capacity_ || force)
      ensures old(e.refs) == 1 ==>
        Releasing(old(Now()), e, old(e.inCache), old(JoinsPool(e)), last, Now(), high_pri_pool_capacity_)
      ensures freed == if last then old(freed) + {e} else old(freed)
      ensures Config() == old(Config()) && (usage_ > capacity_ ==> list == []) &&
              (old(KnownTo(handles, Now())) ==> KnownTo(handles, Now()))
      ensures ListOk() && Accounts() && Entries(list, pinned, table_.members) && table_.Valid()
      ensures handles == old(handles)
      ensures forall h :: h in old(pinned) && h != e ==> h.refs == old(h.refs)
    {
      if e.refs > 1 {
        DropOne(e);
        last := false;
      } else {
        ghost var before, inCache, pool := Now(), e.inCache, JoinsPool(e);
        last := ReleaseLast(e, force);
        ReleasingHandles(handles, before, e, inCache, pool, last, Now(), high_pri_pool_capacity_);
      }
    }

    /** Release of a reference the caller holds: true when that was the last trace of the entry. */
    method Release(handle: LRUHandle?, force: bool) returns (last: bool)
      requires Valid() && (handle != null ==> handle in pinned)
      modifies `list, `low, `lru_low_pri_, `lru_usage_, `high_pri_pool_usage_, `usage_, `pinned, `freed
      modifies {handle}`refs, {handle}`inCache, {handle}`inHighPriPool, {handle}`next, {handle}`prev
      modifies lru_`next, lru_`prev, list`next, list`prev, list`inHighPriPool
      modifies table_`chains, table_`members, table_`elems_, table_`list_, table_.members.Values`nextHash
      ensures handle == null ==> !last && Now() == old(Now())
      ensures handle != null && old(handle.refs) > 1 ==>
                !last && Now() == old(Now()) && handle.refs == old(handle.refs) - 1
      ensures handle != null && old(handle.refs) == 1 ==>
                (last <==> !old(handle.inCache) || old(usage_) > capacity_ || force)
      ensures handle != null && old(handle.refs) == 1 ==>
        Releasing(old(Now()), handle, old(handle.inCache), old(JoinsPool(handle)), last, Now(), high_pri_pool_capacity_)
      ensures freed == if last then old(freed) + {handle} else old(freed)
      ensures Config() == old(Config())
      ensures handles == old(handles) && forall h :: h in pinned && h != handle ==> h.refs == old(h.refs)
      ensures Valid()
    {
      last := false;
      if handle != null {
        last := ReleaseHandle(handle, force);
      }
    }

    // ---- Leaving the table first ----

    /** Takes a key out of the table, whatever list and pinned entries will be left. */
    method Detach(key: TableKey, ghost list': seq<LRUHandle>, ghost pinned': set<LRUHandle>) returns (e: LRUHandle?)
      requires ListOk() && table_.Valid() && Entries(list', pinned', table_.members - {key})
      modifies table_`chains, table_`members, table_`elems_, table_`list_, table_.members.Values`nextHash
      ensures ListOk() && table_.Valid() && Entries(list', pinned', table_.members)
      ensures table_.members == old(table_.members) - {key}
      ensures e == if key in old(table_.members) then old(table_.members)[key] else null
      ensures Kept() && list == old(list) && low == old(low) && usage_ == old(usage_) && lru_usage_ == old(lru_usage_)
    {
      e := table_.Remove(key);
    }

    /** Puts an entry into the table, whatever list and pinned entries will be left. */
    method Attach(e: LRUHandle, ghost list': seq<LRUHandle>, ghost pinned': set<LRUHandle>) returns (found: LRUHandle?)
      requires ListOk() && table_.Valid() && Entries(list', pinned', table_.members - {e.key}) &&
               e !in table_.members.Values
      modifies table_`chains, table_`members, table_`elems_, table_`list_, table_`length_,
        table_.members.Values`nextHash, e`nextHash
      ensures ListOk() && table_.Valid() && Entries(list', pinned', table_.members - {e.key}) &&
              Registered(table_.members, e)
      ensures table_.members == old(table_.members)[e.key := e]
      ensures found == if e.key in old(table_.members) then old(table_.members)[e.key] else null
      ensures Kept() && list == old(list) && low == old(low) && usage_ == old(usage_) && lru_usage_ == old(lru_usage_)
    {
      found := table_.Insert(e);
      assert table_.members - {e.key} == old(table_.members) - {e.key};
    }

    /** The in-cache flag goes. */
    method Unflag(e: LRUHandle, ghost list': seq<LRUHandle>, ghost pinned': set<LRUHandle>,
                  ghost members: map<TableKey, LRUHandle>)
      requires ListOk() && table_.Valid() && Entries(list', pinned', members) && e !in list' && e !in pinned'
      modifies e`inCache
      ensures ListOk() && table_.Valid() && Entries(list', pinned', members) && !e.inCache
      ensures Kept() && list == old(list) && low == old(low) && usage_ == old(usage_) && lru_usage_ == old(lru_usage_)
      ensures table_.members == old(table_.members) && e.refs == old(e.refs) && e.next == old(e.next) &&
              e.prev == old(e.prev)
    {
      e.inCache := false;
    }

    /** LRU_Remove of an entry that the table has let go of. */
    method Delist(e: LRUHandle, ghost k: nat, ghost members: map<TableKey, LRUHandle>)
      requires ListOk() && table_.Valid() && k < |list| && e == list[k] && Entries(Without(list, k), pinned, members)
      requires lru_ !in pinned && forall h :: h in pinned ==> h !in list
      modifies `list, `low, `lru_low_pri_, `lru_usage_, `high_pri_pool_usage_
      modifies lru_`next, lru_`prev, list`next, list`prev
      ensures ListOk() && table_.Valid() && Entries(list, pinned, members)
      ensures list == Without(old(list), k) && low == LowWithout(old(low), k)
      ensures lru_usage_ == old(lru_usage_) - e.charge && usage_ == old(usage_) && Kept()
      ensures table_.members == old(table_.members) && e.refs == old(e.refs) && e.inCache == old(e.inCache)
    {
      LRU_Remove(e, k);
    }

    /** What will be left of list and pinned entries once the cache has let go of the entry for `key`:
        an unreferenced one is on the list at `k`, a referenced one stays pinned. */
    ghost predicate Parts(key: TableKey, k: nat, list': seq<LRUHandle>, pinned': set<LRUHandle>)
      reads this`list, this`pinned, this`freed, table_`members, list', pinned', table_.members.Values
    {
      && Entries(list', pinned', table_.members - {key})
      && (key !in table_.members ==> list' == list && pinned' == pinned)
      && (key in table_.members ==>
            var e := table_.members[key];
            && e !in list' && e !in pinned' && e !in freed && e.inCache
            && (e.refs == 0 ==> k < |list| && e == list[k] && list' == Without(list, k) && pinned' == pinned)
            && (e.refs > 0 ==>
                e in pinned && e.next == null && e.prev == null && list' == list && pinned' == pinned - {e}))
    }

    lemma Parting(key: TableKey) returns (k: nat, list': seq<LRUHandle>, pinned': set<LRUHandle>)
      requires ListOk() && Accounts() && Entries(list, pinned, table_.members)
      ensures Parts(key, k, list', pinned')
    {
      k, list', pinned' := 0, list, pinned;
      if key in table_.members {
        var e := table_.members[key];
        if e in list {
          k :| k < |list| && list[k] == e;
          DistinctParts([lru_], list);
          EntriesWithout(list, pinned, table_.members, k);
          list' := Without(list, k);
        } else {
          EntriesWithoutPinned(list, pinned, table_.members, e);
          pinned' := pinned - {e};
        }
      } else {
        assert table_.members - {key} == table_.members;
      }
    }

    /** An entry that the table has let go of leaves the cache: off the list if it is unreferenced. */
    method LetGo(e: LRUHandle, ghost k: nat, ghost list': seq<LRUHandle>, ghost pinned': set<LRUHandle>,
                 ghost members: map<TableKey, LRUHandle>) returns (last: bool)
      requires ListOk() && table_.Valid() && Entries(list', pinned', members) && e !in list' && e !in pinned' &&
               lru_ !in pinned
      requires e.refs == 0 ==> k < |list| && e == list[k] && list' == Without(list, k) && pinned' == pinned
      requires e.refs > 0 ==>
                 e in pinned && e !in list && e.next == null && e.prev == null && list' == list &&
                   pinned' == pinned - {e}
      requires forall h :: h in pinned ==> h !in list
      modifies `list, `low, `lru_low_pri_, `lru_usage_, `high_pri_pool_usage_
      modifies lru_`next, lru_`prev, list`next, list`prev, e`inCache
      ensures ListOk() && table_.Valid() && Entries(list, pinned, members) && list == list'
      ensures !e.inCache && e.refs == old(e.refs) && (last <==> e.refs == 0)
      ensures lru_usage_ == old(lru_usage_) - if last then e.charge else 0
      ensures low == if last then LowWithout(old(low), k) else old(low)
      ensures Spared(old(list), old(low), if last then [e] else [], list, low)
      ensures Kept() && usage_ == old(usage_) && table_.members == old(table_.members)
    {
      Unflag(e, list', pinned', members);
      last := e.refs == 0;
      if last {
        Delist(e, k, members);
      } else {
        EntriesStillPinned(list, pinned, members, e);
      }
    }

    /** An entry that the table has let go of leaves the cache, and is freed unless it is pinned. */
    method Retire(e: LRUHandle, ghost k: nat, ghost list': seq<LRUHandle>, ghost pinned': set<LRUHandle>,
                  ghost gone: seq<LRUHandle>)
      requires ListOk() && Accounts() && table_.Valid() && Entries(list', pinned', table_.members)
      requires Found(e, k, list', pinned') && forall h :: h in pinned ==> h !in list
      requires gone == if e.refs == 0 then [e] else []
      modifies `list, `low, `lru_low_pri_, `lru_usage_, `high_pri_pool_usage_, `usage_, `freed
      modifies lru_`next, lru_`prev, list`next, list`prev, e`inCache
      ensures usage_ == old(usage_) - Charges(gone) && freed == old(freed) + set h | h in gone
      ensures KeptSettings() && pinned == old(pinned) && table_.members == old(table_.members)
      ensures ListOk() && Accounts() && Entries(list, pinned, table_.members) && table_.Valid()
      ensures !e.inCache && e.refs == old(e.refs) && list == list' && Spared(old(list), old(low), gone, list, low)
    {
      assert Charges([e]) == e.charge;
      var last := LetGo(e, k, list', pinned', table_.members);
      if last {
        Finish(e);
      }
    }

    method Erase(key: TableKey)
      requires Valid()
      modifies `list, `low, `lru_low_pri_, `lru_usage_, `high_pri_pool_usage_, `usage_, `freed
      modifies lru_`next, lru_`prev, list`next, list`prev, table_.members.Values`inCache
      modifies table_`chains, table_`members, table_`elems_, table_`list_, table_.members.Values`nextHash
      ensures handles == old(handles) && forall h :: h in pinned ==> h.refs == old(h.refs)
      ensures Valid() && KeptSettings() && Erasing(old(Now()), key, Now())
      ensures freed == old(freed) + set h | h in old(Displaced(table_.members, pinned, key))
      ensures key in old(table_.members) ==> var e := old(table_.members)[key]; !e.inCache && e.refs == old(e.refs)
    {
      ghost var before := Now();
      EraseKey(key);
      ErasingHandles(handles, before, key, Now());
    }

    method EraseKey(key: TableKey)
      requires Valid()
      modifies `list, `low, `lru_low_pri_, `lru_usage_, `high_pri_pool_usage_, `usage_, `freed
      modifies lru_`next, lru_`prev, list`next, list`prev, table_.members.Values`inCache
      modifies table_`chains, table_`members, table_`elems_, table_`list_, table_.members.Values`nextHash
      ensures ListOk() && Accounts() && Entries(list, pinned, table_.members) && table_.Valid() && KeptSettings()
      ensures (old(list) == [] ==> list == []) && Erasing(old(Now()), key, Now())
      ensures freed == old(freed) + set h | h in old(Displaced(table_.members, pinned, key))
      ensures key in old(table_.members) ==> var e := old(table_.members)[key]; !e.inCache && e.refs == old(e.refs)
    {
      ghost var k, list', pinned' := Parting(key);
      DisplacedHasNoRefs(key);
      ghost var gone := Displaced(table_.members, pinned, key);
      var e := Detach(key, list', pinned');
      if e != null {
        Retire(e, k, list', pinned', gone);
      }
    }

    /** Evicts everything that is not referenced. */
    method EraseUnRefEntries() returns (deleted: seq<LRUHandle>)
      requires Valid()
      modifies `list, `low, `lru_low_pri_, `lru_usage_, `high_pri_pool_usage_, `usage_, `freed
      modifies lru_`next, lru_`prev, list`next, list`prev, list`inCache
      modifies table_`chains, table_`members, table_`elems_, table_`list_, table_.members.Values`nextHash
      ensures list == [] && low == 0 && deleted == old(list)
      ensures usage_ == old(usage_) - Charges(deleted) == TotalCharge(pinned)
      ensures table_.members == Minus(old(table_.members), deleted)
      ensures Config() == old(Config()) && pinned == old(pinned) && freed == old(freed) + set h | h in deleted
      ensures Valid() && handles == old(handles) && forall h :: h in pinned ==> h.refs == old(h.refs)
    {
      ghost var before := Now();
      deleted := EraseList();
      MinusIsWithout(before.members, deleted);
      FewerHandles(before, Now(), handles);
    }

    method EraseList() returns (deleted: seq<LRUHandle>)
      requires ListOk() && Accounts() && Entries(list, pinned, table_.members) && table_.Valid()
      modifies `list, `low, `lru_low_pri_, `lru_usage_, `high_pri_pool_usage_, `usage_, `freed
      modifies lru_`next, lru_`prev, list`next, list`prev, list`inCache
      modifies table_`chains, table_`members, table_`elems_, table_`list_, table_.members.Values`nextHash
      ensures list == [] && deleted == old(list) && usage_ == TotalCharge(pinned)
      ensures table_.members == Minus(old(table_.members), deleted)
      ensures Config() == old(Config()) && pinned == old(pinned) && freed == old(freed) + set h | h in deleted
      ensures ListOk() && Accounts() && Entries(list, pinned, table_.members) && table_.Valid()
    {
      deleted := EvictAll();
      FreeAll(deleted);
    }

    /** The pool's new size must not be negative: MaintainPoolSize asserts that the pool never runs out of
        entries, and below zero it always does. */
    method SetHighPriorityPoolRatio(ratio: real)
      requires Valid() && PoolCapacity(capacity_, ratio) >= 0.0
      modifies `capacity_, `high_pri_pool_ratio_, `high_pri_pool_capacity_
      modifies `lru_low_pri_, `low, `high_pri_pool_usage_, list`inHighPriPool
      ensures Valid()
      ensures Config() == old(Config()).(ratio := ratio, poolCapacity := PoolCapacity(capacity_, ratio))
      ensures high_pri_pool_usage_ as real <= high_pri_pool_capacity_ && old(low) <= low <= |list|
      ensures old(low) < low ==> Charges(list[low - 1..]) as real > high_pri_pool_capacity_
      ensures Now() == old(Now()).(low := low) && freed == old(freed) && handles == old(handles)
      ensures forall h :: h in pinned ==> h.refs == old(h.refs)
    {
      SetLimits(capacity_, ratio);
      Overflowing();
    }

    method SetStrictCapacityLimit(strict: bool)
      requires Valid()
      modifies `strict_capacity_limit_
      ensures Valid() && strict_capacity_limit_ == strict
      ensures Now() == old(Now()) && freed == old(freed) && Config() == old(Config()).(strict := strict)
      ensures handles == old(handles) && forall h :: h in pinned ==> h.refs == old(h.refs)
    {
      SetStrict(strict);
    }

    method SetStrict(strict: bool)
      requires ListOk() && Accounts() && Entries(list, pinned, table_.members) && table_.Valid()
      modifies `strict_capacity_limit_
      ensures ListOk() && Accounts() && Entries(list, pinned, table_.members) && table_.Valid()
      ensures Now() == old(Now()) && freed == old(freed) && Config() == old(Config()).(strict := strict)
      ensures handles == old(handles) && forall h :: h in pinned ==> h.refs == old(h.refs)
    {
      strict_capacity_limit_ := strict;
    }

    method GetPinnedUsage() returns (pinnedUsage: nat)
      requires Valid()
      ensures pinnedUsage == TotalCharge(pinned)
    {
      assert usage_ >= lru_usage_;
      pinnedUsage := usage_ - lru_usage_;
    }

    method Overflowing()
      requires ListOk() && Accounts() && Entries(list, pinned, table_.members) && table_.Valid()
      requires high_pri_pool_capacity_ >= 0.0
      modifies `lru_low_pri_, `low, `high_pri_pool_usage_, list`inHighPriPool
      ensures ListOk() && Accounts() && Entries(list, pinned, table_.members) && table_.Valid()
      ensures high_pri_pool_usage_ as real <= high_pri_pool_capacity_ && old(low) <= low
      ensures old(low) < low ==> Charges(list[low - 1..]) as real > high_pri_pool_capacity_
      ensures list == old(list) && usage_ == old(usage_) && Kept() && table_.members == old(table_.members)
    {
      MaintainPoolSize();
    }

    // ---- Insert ----

    ghost function Config(): Settings
      reads this`capacity_, this`strict_capacity_limit_, this`high_pri_pool_ratio_, this`high_pri_pool_capacity_
    {
      Settings(capacity_, strict_capacity_limit_, high_pri_pool_ratio_, high_pri_pool_capacity_)
    }

    /** An entry that nothing knows yet. */
    ghost predicate Unknown(e: LRUHandle)
      reads this`list, this`pinned, this`freed, table_`members, e
    {
      && e !in list && e !in pinned && e !in freed && e !in table_.members.Values && e != lru_
      && e.refs == 0 && e.inCache && e.next == null && e.prev == null && !e.hasHit
    }

    method SetUsage(usage: nat, ghost list': seq<LRUHandle>, ghost pinned': set<LRUHandle>,
                    ghost members: map<TableKey, LRUHandle>)
      requires ListOk() && table_.Valid() && Entries(list', pinned', members)
      modifies `usage_
      ensures ListOk() && table_.Valid() && Entries(list', pinned', members) && usage_ == usage
      ensures Kept() && list == old(list) && low == old(low) && lru_usage_ == old(lru_usage_) &&
              table_.members == old(table_.members)
    {
      usage_ := usage;
    }

    /** What `Parts` says about the entry that was found, once the table has let go of it. */
    ghost predicate Found(found: LRUHandle, k: nat, list': seq<LRUHandle>, pinned': set<LRUHandle>)
      reads this`list, this`pinned, this`freed, found
    {
      && found !in list' && found !in pinned' && found !in freed
      && (found.refs == 0 ==> k < |list| && found == list[k] && list' == Without(list, k) && pinned' == pinned)
      && (found.refs > 0 ==>
            found in pinned && found !in list && found.next == null && found.prev == null && list' == list &&
              pinned' == pinned - {found})
    }

    /** The entry that `e` displaces leaves the cache; `gone` has it if nobody refers to it. */
    method Displace(e: LRUHandle, found: LRUHandle, ghost k: nat, ghost list': seq<LRUHandle>,
                    ghost pinned': set<LRUHandle>)
      returns (gone: seq<LRUHandle>)
      requires ListOk() && table_.Valid() && Entries(list', pinned', table_.members - {e.key})
      requires Found(found, k, list', pinned') && found != e && Apart3()
      requires Registered(table_.members, e) && e !in list && e !in pinned && e !in freed && e != lru_
      requires e.refs == 0 && e.inCache && e.next == null && e.prev == null
      requires (forall h :: h in pinned ==> h !in list) && usage_ == lru_usage_ + TotalCharge(pinned) + e.charge
      modifies `list, `low, `lru_low_pri_, `lru_usage_, `high_pri_pool_usage_, `usage_
      modifies lru_`next, lru_`prev, list`next, list`prev, found`inCache
      ensures ListOk() && table_.Valid() && Entries(list, pinned, table_.members - {e.key}) && list == list'
      ensures gone == (if found.refs == 0 then [found] else []) && Spared(old(list), old(low), gone, list, low)
      ensures !found.inCache && found.refs == old(found.refs) && forall i :: 0 <= i < |gone| ==> Gone(gone[i])
      ensures Afloat(e) && forall i :: 0 <= i < |list| ==> list[i] in old(list)
      ensures usage_ == old(usage_) - Charges(gone) && usage_ == lru_usage_ + TotalCharge(pinned) + e.charge
      ensures Kept() && table_.members == old(table_.members)
    {
      var last := LetGo(found, k, list', pinned', table_.members - {e.key});
      if last {
        gone := [found];
        SetUsage(usage_ - found.charge, list, pinned, table_.members - {e.key});
      } else {
        gone := [];
      }
    }

    /** The new entry enters the table and the usage. */
    method AttachNew(e: LRUHandle, ghost k: nat, ghost list': seq<LRUHandle>, ghost pinned': set<LRUHandle>)
      returns (found: LRUHandle?)
      requires ListOk() && Accounts() && Entries(list, pinned, table_.members) && table_.Valid()
      requires Unknown(e) && Parts(e.key, k, list', pinned')
      modifies `usage_
      modifies table_`chains, table_`members, table_`elems_, table_`list_, table_`length_,
        table_.members.Values`nextHash, e`nextHash
      ensures ListOk() && table_.Valid() && Entries(list', pinned', table_.members - {e.key}) &&
              Registered(table_.members, e)
      ensures table_.members == old(table_.members)[e.key := e]
      ensures found == if e.key in old(table_.members) then old(table_.members)[e.key] else null
      ensures found != null ==> found.refs == old(found.refs) && found != e && Found(found, k, list', pinned')
      ensures found == null ==> Afloat(e)
      ensures usage_ == old(usage_) + e.charge && usage_ == lru_usage_ + TotalCharge(pinned) + e.charge && Apart3()
      ensures e.refs == 0 && e.inCache && e.next == null && e.prev == null
      ensures Kept() && list == old(list) && low == old(low) && lru_usage_ == old(lru_usage_)
    {
      found := Attach(e, list', pinned');
      SetUsage(usage_ + e.charge, list', pinned', table_.members - {e.key});
    }

    /** An entry is pinned exactly when it has references. */
    lemma DisplacedHasNoRefs(key: TableKey)
      requires Entries(list, pinned, table_.members)
      ensures var displaced := Displaced(table_.members, pinned, key);
        && (key in table_.members ==> (displaced == [] <==> table_.members[key].refs > 0))
        && (forall i :: 0 <= i < |displaced| ==> displaced[i] in list && displaced[i].key == key)
    {
    }

    /** The new entry is in the table and in the usage; an entry with its key is displaced. */
    method Enroll(e: LRUHandle) returns (gone: seq<LRUHandle>)
      requires ListOk() && Accounts() && Entries(list, pinned, table_.members) && table_.Valid() && Unknown(e)
      modifies `list, `low, `lru_low_pri_, `lru_usage_, `high_pri_pool_usage_, `usage_
      modifies lru_`next, lru_`prev, list`next, list`prev, table_.members.Values`inCache
      modifies table_`chains, table_`members, table_`elems_, table_`list_, table_`length_,
        table_.members.Values`nextHash, e`nextHash
      ensures ListOk() && table_.Valid() && Afloat(e)
      ensures table_.members == old(table_.members)[e.key := e]
      ensures gone == Displaced(old(table_.members), pinned, e.key) && Spared(old(list), old(low), gone, list, low)
      ensures forall i :: 0 <= i < |gone| ==> Gone(gone[i])
      ensures usage_ == old(usage_) + e.charge - Charges(gone)
      ensures Kept() && forall i :: 0 <= i < |list| ==> list[i] in old(list)
    {
      ghost var k, list', pinned' := Parting(e.key);
      DisplacedHasNoRefs(e.key);
      var found := AttachNew(e, k, list', pinned');
      if found == null {
        gone := [];
      } else {
        assert found in old(table_.members.Values);
        gone := Displace(e, found, k, list', pinned');
      }
    }

    /** A new entry goes on the list. */
    method PlaceOnList(e: LRUHandle, ghost gone: seq<LRUHandle>)
      requires ListOk() && table_.Valid() && Afloat(e) && !e.hasHit && forall i :: 0 <= i < |gone| ==> Gone(gone[i])
      modifies `list, `low, `lru_low_pri_, `lru_usage_, `high_pri_pool_usage_
      modifies e`inHighPriPool, e`next, e`prev, lru_`next, lru_`prev, list`next, list`prev, list`inHighPriPool
      ensures ListOk() && Accounts() && Entries(list, pinned, table_.members) && table_.Valid()
      ensures Placed(old(list), old(low), e, false, Config(), list, low)
      ensures forall h :: h in list ==> h in old(list) || h == e
      ensures forall i :: 0 <= i < |gone| ==> Gone(gone[i])
      ensures Kept() && usage_ == old(usage_) && table_.members == old(table_.members) && e.refs == 0 && e.inCache
    {
      assert low <= |list|;
      ghost var pool := JoinsPool(e);
      assert pool == (high_pri_pool_ratio_ > 0.0 && e.isHighPri);
      JoinList(e);
      forall i | 0 <= i < |gone| ensures Gone(gone[i]) {
        assert gone[i].inCache == old(gone[i].inCache) && gone[i].refs == old(gone[i].refs) && gone[i] !in list;
      }
    }

    /** An accepted entry whose caller gets a handle. */
    method AcceptPinned(e: LRUHandle) returns (gone: seq<LRUHandle>)
      requires ListOk() && Accounts() && Entries(list, pinned, table_.members) && table_.Valid() && Unknown(e)
      modifies `list, `low, `lru_low_pri_, `lru_usage_, `high_pri_pool_usage_, `usage_, `pinned
      modifies lru_`next, lru_`prev, list`next, list`prev, list`inHighPriPool, table_.members.Values`inCache
      modifies table_`chains, table_`members, table_`elems_, table_`list_, table_`length_,
        table_.members.Values`nextHash
      modifies e`nextHash, e`refs, e`inHighPriPool, e`next, e`prev
      ensures ListOk() && Accounts() && Entries(list, pinned, table_.members) && table_.Valid()
      ensures table_.members == old(table_.members)[e.key := e]
      ensures gone == Displaced(old(table_.members), old(pinned), e.key) && Spared(old(list), old(low), gone, list, low)
      ensures forall i :: 0 <= i < |gone| ==> Gone(gone[i])
      ensures usage_ == old(usage_) + e.charge - Charges(gone)
      ensures KeptSettings() && freed == old(freed) && e.inCache && pinned == old(pinned) + {e} && e.refs == 1
      ensures forall h :: h in list ==> h in old(list)
    {
      gone := Enroll(e);
      JoinPinned(e);
      forall i | 0 <= i < |gone| ensures Gone(gone[i]) {
        assert gone[i] != e;
      }
    }

    /** An accepted entry that nobody refers to yet. */
    method AcceptListed(e: LRUHandle) returns (gone: seq<LRUHandle>, ghost rest: seq<LRUHandle>, ghost restLow: nat)
      requires ListOk() && Accounts() && Entries(list, pinned, table_.members) && table_.Valid() && Unknown(e)
      modifies `list, `low, `lru_low_pri_, `lru_usage_, `high_pri_pool_usage_, `usage_, `pinned
      modifies lru_`next, lru_`prev, list`next, list`prev, list`inHighPriPool, table_.members.Values`inCache
      modifies table_`chains, table_`members, table_`elems_, table_`list_, table_`length_,
        table_.members.Values`nextHash
      modifies e`nextHash, e`refs, e`inHighPriPool, e`next, e`prev
      ensures ListOk() && Accounts() && Entries(list, pinned, table_.members) && table_.Valid()
      ensures table_.members == old(table_.members)[e.key := e]
      ensures gone == Displaced(old(table_.members), pinned, e.key) && Spared(old(list), old(low), gone, rest, restLow)
      ensures Placed(rest, restLow, e, false, Config(), list, low)
      ensures forall i :: 0 <= i < |gone| ==> Gone(gone[i])
      ensures usage_ == old(usage_) + e.charge - Charges(gone)
      ensures KeptSettings() && freed == old(freed) && e.inCache && pinned == old(pinned) && e.refs == 0
      ensures forall h :: h in list ==> h in old(list) || h == e
    {
      gone := Enroll(e);
      rest, restLow := list, low;
      PlaceOnList(e, gone);
    }

    /** An accepted entry: pinned if the caller gets a handle, on the list otherwise. */
    method Accept(e: LRUHandle, wantHandle: bool)
      returns (gone: seq<LRUHandle>, ghost rest: seq<LRUHandle>, ghost restLow: nat)
      requires ListOk() && Accounts() && Entries(list, pinned, table_.members) && table_.Valid() && Unknown(e)
      modifies `list, `low, `lru_low_pri_, `lru_usage_, `high_pri_pool_usage_, `usage_, `pinned
      modifies lru_`next, lru_`prev, list`next, list`prev, list`inHighPriPool, table_.members.Values`inCache
      modifies table_`chains, table_`members, table_`elems_, table_`list_, table_`length_,
        table_.members.Values`nextHash
      modifies e`nextHash, e`refs, e`inHighPriPool, e`next, e`prev
      ensures ListOk() && Accounts() && Entries(list, pinned, table_.members) && table_.Valid()
      ensures table_.members == old(table_.members)[e.key := e]
      ensures gone == Displaced(old(table_.members), old(pinned), e.key) &&
              Spared(old(list), old(low), gone, rest, restLow)
      ensures Placed(rest, restLow, e, wantHandle, Config(), list, low)
      ensures forall i :: 0 <= i < |gone| ==> Gone(gone[i])
      ensures usage_ == old(usage_) + e.charge - Charges(gone) && KeptSettings() && freed == old(freed) && e.inCache
      ensures pinned == (if wantHandle then old(pinned) + {e} else old(pinned)) && e.refs == if wantHandle then 1 else 0
      ensures forall h :: h in list ==> h in old(list) || h == e
    {
      if wantHandle {
        gone := AcceptPinned(e);
        rest, restLow := list, low;
      } else {
        gone, rest, restLow := AcceptListed(e);
      }
    }

    lemma GoneTogether(s: seq<LRUHandle>, t: seq<LRUHandle>)
      requires Distinct(s) && Distinct(t) && Apart(s, t)
      requires forall i :: 0 <= i < |s| ==> Gone(s[i])
      requires forall i :: 0 <= i < |t| ==> Gone(t[i])
      ensures Distinct(s + t) && forall i :: 0 <= i < |s + t| ==> Gone((s + t)[i])
    {
      DistinctParts(s, t);
    }

    /** The same, after an eviction that has put `deleted` aside: they stay gone. */
    method AcceptKeeping(e: LRUHandle, wantHandle: bool, ghost deleted: seq<LRUHandle>)
      returns (gone: seq<LRUHandle>, ghost rest: seq<LRUHandle>, ghost restLow: nat)
      requires ListOk() && Accounts() && Entries(list, pinned, table_.members) && table_.Valid() && Unknown(e)
      requires e !in deleted && forall i :: 0 <= i < |deleted| ==> Gone(deleted[i])
      modifies `list, `low, `lru_low_pri_, `lru_usage_, `high_pri_pool_usage_, `usage_, `pinned
      modifies lru_`next, lru_`prev, list`next, list`prev, list`inHighPriPool, table_.members.Values`inCache
      modifies table_`chains, table_`members, table_`elems_, table_`list_, table_`length_,
        table_.members.Values`nextHash
      modifies e`nextHash, e`refs, e`inHighPriPool, e`next, e`prev
      ensures table_.members == old(table_.members)[e.key := e]
      ensures gone == Displaced(old(table_.members), old(pinned), e.key) &&
              Spared(old(list), old(low), gone, rest, restLow)
      ensures Placed(rest, restLow, e, wantHandle, Config(), list, low)
      ensures forall i :: 0 <= i < |gone| ==> Gone(gone[i])
      ensures usage_ == old(usage_) + e.charge - Charges(gone) && KeptSettings() && freed == old(freed) && e.inCache
      ensures pinned == (if wantHandle then old(pinned) + {e} else old(pinned)) && e.refs == if wantHandle then 1 else 0
      ensures forall i :: 0 <= i < |deleted| ==> Gone(deleted[i])
      ensures ListOk() && Accounts() && Entries(list, pinned, table_.members) && table_.Valid()
    {
      assert forall i :: 0 <= i < |deleted| ==> deleted[i] !in table_.members.Values;
      gone, rest, restLow := Accept(e, wantHandle);
      forall i | 0 <= i < |deleted| ensures Gone(deleted[i]) {
        assert deleted[i].inCache == old(deleted[i].inCache);
      }
    }

    /** An accepted entry, and all that is to be freed. */
    method AcceptAfter(e: LRUHandle, wantHandle: bool, deleted: seq<LRUHandle>)
      returns (deleted': seq<LRUHandle>, ghost gone: seq<LRUHandle>, ghost rest: seq<LRUHandle>, ghost restLow: nat)
      requires ListOk() && Accounts() && Entries(list, pinned, table_.members) && table_.Valid() && Unknown(e)
      requires Distinct(deleted) && e !in deleted && forall i :: 0 <= i < |deleted| ==> Gone(deleted[i])
      modifies `list, `low, `lru_low_pri_, `lru_usage_, `high_pri_pool_usage_, `usage_, `pinned
      modifies lru_`next, lru_`prev, list`next, list`prev, list`inHighPriPool, table_.members.Values`inCache
      modifies table_`chains, table_`members, table_`elems_, table_`list_, table_`length_,
        table_.members.Values`nextHash
      modifies e`nextHash, e`refs, e`inHighPriPool, e`next, e`prev
      ensures table_.members == old(table_.members)[e.key := e] && deleted' == deleted + gone
      ensures gone == Displaced(old(table_.members), old(pinned), e.key) &&
              Spared(old(list), old(low), gone, rest, restLow)
      ensures Placed(rest, restLow, e, wantHandle, Config(), list, low)
      ensures usage_ == old(usage_) + e.charge - Charges(gone) && KeptSettings() && freed == old(freed) && e.inCache
      ensures pinned == (if wantHandle then old(pinned) + {e} else old(pinned)) && e.refs == if wantHandle then 1 else 0
      ensures Distinct(deleted') && forall i :: 0 <= i < |deleted'| ==> Gone(deleted'[i])
      ensures ListOk() && Accounts() && Entries(list, pinned, table_.members) && table_.Valid()
    {
      var gone';
      DisplacedHasNoRefs(e.key);
      assert Apart(deleted, Displaced(table_.members, pinned, e.key));
      gone', rest, restLow := AcceptKeeping(e, wantHandle, deleted);
      GoneTogether(deleted, gone');
      gone, deleted' := gone', deleted + gone';
    }

    /** Makes room for an entry that nothing knows yet. */
    method MakeRoom(e: LRUHandle) returns (deleted: seq<LRUHandle>)
      requires ListOk() && Accounts() && Entries(list, pinned, table_.members) && table_.Valid() && Unknown(e)
      modifies `list, `low, `lru_low_pri_, `lru_usage_, `high_pri_pool_usage_, `usage_
      modifies lru_`next, lru_`prev, list`next, list`prev, list`inCache
      modifies table_`chains, table_`members, table_`elems_, table_`list_, table_.members.Values`nextHash
      ensures Distinct(deleted) && e !in deleted && forall i :: 0 <= i < |deleted| ==> Gone(deleted[i])
      ensures table_.members.Values <= old(table_.members.Values)
      ensures forall i :: 0 <= i < |list| ==> list[i] in old(list)
      ensures ListOk() && Accounts() && Entries(list, pinned, table_.members) && table_.Valid() && Unknown(e)
      ensures Kept() && Evicting(old(Now()), e.charge, deleted, Now(), capacity_)
    {
      deleted := EvictFromLRU(e.charge);
    }

    /** A value that is not inserted, and that its caller does not keep: as if inserted and evicted at
        once. */
    method Reject(e: LRUHandle, deleted: seq<LRUHandle>) returns (deleted': seq<LRUHandle>)
      requires ListOk() && Accounts() && Entries(list, pinned, table_.members) && table_.Valid() && Unknown(e)
      requires Distinct(deleted) && e !in deleted && forall i :: 0 <= i < |deleted| ==> Gone(deleted[i])
      modifies e`inCache
      ensures ListOk() && Accounts() && Entries(list, pinned, table_.members) && table_.Valid()
      ensures deleted' == deleted + [e] && Distinct(deleted') && forall i :: 0 <= i < |deleted'| ==> Gone(deleted'[i])
      ensures Kept() && list == old(list) && low == old(low) && usage_ == old(usage_) &&
              table_.members == old(table_.members)
    {
      Unflag(e, list, pinned, table_.members);
      GoneTogether(deleted, [e]);
      deleted' := deleted + [e];
    }

    /** Accepts or rejects an entry once room has been made. */
    method Settle(e: LRUHandle, wantHandle: bool, deleted: seq<LRUHandle>)
      returns (accepted: bool, deleted': seq<LRUHandle>, ghost a: Admission)
      requires ListOk() && Accounts() && Entries(list, pinned, table_.members) && table_.Valid() && Unknown(e)
      requires usage_ + e.charge <= capacity_ || list == []
      requires Distinct(deleted) && e !in deleted && forall i :: 0 <= i < |deleted| ==> Gone(deleted[i])
      modifies `list, `low, `lru_low_pri_, `lru_usage_, `high_pri_pool_usage_, `usage_, `pinned
      modifies lru_`next, lru_`prev, list`next, list`prev, list`inHighPriPool, table_.members.Values`inCache
      modifies table_`chains, table_`members, table_`elems_, table_`list_, table_`length_,
        table_.members.Values`nextHash
      modifies e`nextHash, e`refs, e`inHighPriPool, e`inCache, e`next, e`prev
      ensures ListOk() && Accounts() && Entries(list, pinned, table_.members) && table_.Valid() &&
              (usage_ > capacity_ ==> list == [])
      ensures KeptSettings() && freed == old(freed) && Settling(old(Now()), e, wantHandle, a, Now(), Config())
      ensures a.middle == old(Now()) && a.evicted == deleted && accepted == a.accepted
      ensures accepted ==> e.inCache && e.refs == if wantHandle then 1 else 0
      ensures deleted' == deleted + AlsoFreed(e, a.accepted, wantHandle, a.displaced)
      ensures Distinct(deleted') && forall i :: 0 <= i < |deleted'| ==> Gone(deleted'[i])
    {
      ghost var middle := Now();
      if usage_ + e.charge > capacity_ && (strict_capacity_limit_ || !wantHandle) {
        accepted, deleted', a := false, deleted, Admission(false, deleted, middle, [], list, low);
        if !wantHandle {
          deleted' := Reject(e, deleted);
        }
      } else {
        ghost var gone, rest, restLow;
        deleted', gone, rest, restLow := AcceptAfter(e, wantHandle, deleted);
        accepted, a := true, Admission(true, deleted, middle, gone, rest, restLow);
      }
    }

    /** Accepts or rejects an entry once room has been made, and runs the deleters. */
    method SettleAndFree(e: LRUHandle, wantHandle: bool, deleted: seq<LRUHandle>)
      returns (accepted: bool, ghost a: Admission)
      requires ListOk() && Accounts() && Entries(list, pinned, table_.members) && table_.Valid() && Unknown(e)
      requires usage_ + e.charge <= capacity_ || list == []
      requires Distinct(deleted) && e !in deleted && forall i :: 0 <= i < |deleted| ==> Gone(deleted[i])
      modifies `list, `low, `lru_low_pri_, `lru_usage_, `high_pri_pool_usage_, `usage_, `pinned, `freed
      modifies lru_`next, lru_`prev, list`next, list`prev, list`inHighPriPool, table_.members.Values`inCache
      modifies table_`chains, table_`members, table_`elems_, table_`list_, table_`length_,
        table_.members.Values`nextHash
      modifies e`nextHash, e`refs, e`inHighPriPool, e`inCache, e`next, e`prev
      ensures ListOk() && Accounts() && Entries(list, pinned, table_.members) && table_.Valid() &&
              (usage_ > capacity_ ==> list == [])
      ensures KeptSettings() && Settling(old(Now()), e, wantHandle, a, Now(), Config())
      ensures a.middle == old(Now()) && a.evicted == deleted && accepted == a.accepted
      ensures accepted ==> e.inCache && e.refs == if wantHandle then 1 else 0
      ensures freed == old(freed) + set h | h in a.evicted + AlsoFreed(e, a.accepted, wantHandle, a.displaced)
    {
      var all;
      accepted, all, a := Settle(e, wantHandle, deleted);
      FreeAll(all);
    }

    /** Insert of the entry that it has allocated: makes room, and accepts or rejects. */
    method InsertEntry(e: LRUHandle, wantHandle: bool) returns (accepted: bool, ghost a: Admission)
      requires ListOk() && Accounts() && Entries(list, pinned, table_.members) && table_.Valid() && Unknown(e)
      modifies `list, `low, `lru_low_pri_, `lru_usage_, `high_pri_pool_usage_, `usage_, `pinned, `freed
      modifies lru_`next, lru_`prev, list`next, list`prev, list`inCache, list`inHighPriPool,
        table_.members.Values`inCache
      modifies table_`chains, table_`members, table_`elems_, table_`list_, table_`length_,
        table_.members.Values`nextHash
      modifies e`nextHash, e`refs, e`inHighPriPool, e`inCache, e`next, e`prev
      ensures accepted == a.accepted && (accepted ==> e.inCache && e.refs == if wantHandle then 1 else 0)
      ensures freed == old(freed) + set h | h in a.evicted + AlsoFreed(e, a.accepted, wantHandle, a.displaced)
      ensures ListOk() && Accounts() && Entries(list, pinned, table_.members) && table_.Valid() &&
              (usage_ > capacity_ ==> list == [])
      ensures KeptSettings() && Inserting(old(Now()), e, wantHandle, a, Now(), Config())
    {
      var deleted := MakeRoom(e);
      assert forall h :: h in table_.members.Values ==> h in old(table_.members.Values);
      accepted, a := SettleAndFree(e, wantHandle, deleted);
    }

    /** A new entry, outside the mutex. */
    method Allocate(key: TableKey, charge: nat, highPri: bool) returns (e: LRUHandle)
      requires ListOk() && Accounts() && Entries(list, pinned, table_.members) && table_.Valid()
      ensures ListOk() && Accounts() && Entries(list, pinned, table_.members) && table_.Valid() && Unknown(e) &&
              fresh(e)
      ensures e.key == key && e.charge == charge && e.isHighPri == highPri
      ensures Kept() && Now() == old(Now())
    {
      e := new LRUHandle(key, charge, highPri);
    }

    /** Insert of a new entry. */
    method InsertNew(key: TableKey, charge: nat, highPri: bool, wantHandle: bool)
      returns (e: LRUHandle, accepted: bool, ghost a: Admission)
      requires ListOk() && Accounts() && Entries(list, pinned, table_.members) && table_.Valid()
      modifies `list, `low, `lru_low_pri_, `lru_usage_, `high_pri_pool_usage_, `usage_, `pinned, `freed
      modifies lru_`next, lru_`prev, list`next, list`prev, list`inCache, list`inHighPriPool,
        table_.members.Values`inCache
      modifies table_`chains, table_`members, table_`elems_, table_`list_, table_`length_,
        table_.members.Values`nextHash
      ensures fresh(e) && e.key == key && e.charge == charge && e.isHighPri == highPri
      ensures Config() == old(Config()) && Inserting(old(Now()), e, wantHandle, a, Now(), Config())
      ensures accepted == a.accepted && (accepted ==> e.inCache && e.refs == if wantHandle then 1 else 0)
      ensures freed == old(freed) + set h | h in a.evicted + AlsoFreed(e, a.accepted, wantHandle, a.displaced)
      ensures ListOk() && Accounts() && Entries(list, pinned, table_.members) && table_.Valid() &&
              (usage_ > capacity_ ==> list == [])
      ensures handles == old(handles) && forall h :: h in old(pinned) ==> h.refs == old(h.refs)
    {
      e := Allocate(key, charge, highPri);
      accepted, a := InsertEntry(e, wantHandle);
    }

    /** The shard remembers the entry. */
    method TakeIn(e: LRUHandle)
      requires ListOk() && Accounts() && Entries(list, pinned, table_.members) && table_.Valid() &&
               (usage_ > capacity_ ==> list == []) && KnownTo(handles + {e}, Now())
      modifies `handles
      ensures handles == old(handles) + {e} && Now() == old(Now()) && Config() == old(Config()) && freed == old(freed)
      ensures e.refs == old(e.refs) && e.inCache == old(e.inCache)
      ensures Valid()
    {
      handles := handles + {e};
    }

    /** Insert. Besides status and handle it reports the entry and what was done with it. */
    method Insert(key: TableKey, charge: nat, highPri: bool, wantHandle: bool)
      returns (ok: bool, handle: LRUHandle?, ghost e: LRUHandle, ghost a: Admission)
      requires Valid() && key.data != ""
      modifies `list, `low, `lru_low_pri_, `lru_usage_, `high_pri_pool_usage_, `usage_, `pinned, `freed, `handles
      modifies lru_`next, lru_`prev, list`next, list`prev, list`inCache, list`inHighPriPool,
        table_.members.Values`inCache
      modifies table_`chains, table_`members, table_`elems_, table_`list_, table_`length_,
        table_.members.Values`nextHash
      ensures a.accepted ==> e.inCache && e.refs == if wantHandle then 1 else 0
      ensures ok == (a.accepted || !wantHandle) && handle == if a.accepted && wantHandle then e else null
      ensures freed == old(freed) + set h | h in a.evicted + AlsoFreed(e, a.accepted, wantHandle, a.displaced)
      ensures Valid()
      ensures fresh(e) && e.key == key && e.charge == charge && e.isHighPri == highPri && handles == old(handles) + {e}
      ensures Config() == old(Config()) && Inserting(old(Now()), e, wantHandle, a, Now(), Config())
      ensures a.accepted <==>
        TotalCharge(old(pinned)) + charge <= old(capacity_) || (wantHandle && !old(strict_capacity_limit_))
      ensures a.accepted ==> key in table_.members && table_.members[key] == e
      ensures forall h :: h in old(pinned) ==> h.refs == old(h.refs)
    {
      ghost var before := Now();
      var entry, accepted;
      entry, accepted, a := InsertNew(key, charge, highPri, wantHandle);
      AcceptedIff(before, entry, wantHandle, a, Now(), Config());
      InsertingHandles(handles, before, entry, wantHandle, a, Now(), Config());
      TakeIn(entry);
      e := entry;
      ok, handle := accepted || !wantHandle, if accepted && wantHandle then entry else null;
    }
  }
}
