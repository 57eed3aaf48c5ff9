/** The cache's own chained hash table: a finite map from keys to entries. */
module LruTable {
  import opened LruHandles

  ghost predicate PowerOfTwo(n: nat)
    decreases n
  {
    n == 1 || (n > 0 && n % 2 == 0 && PowerOfTwo(n / 2))
  }

  function Link(chain: seq<LRUHandle>, j: nat): LRUHandle? {
    if j < |chain| then chain[j] else null
  }

  ghost predicate Distinct(s: seq<LRUHandle>) {
    s == [] || (s[0] !in s[1..] && Distinct(s[1..]))
  }

  lemma {:induction false} DistinctAt(s: seq<LRUHandle>, p: nat, q: nat)
    requires Distinct(s) && p < q < |s|
    ensures s[p] != s[q]
  {
    if p > 0 {
      DistinctAt(s[1..], p - 1, q - 1);
    } else {
      assert s[1..][q - 1] == s[q];
    }
  }

  lemma {:induction false} DistinctParts(s: seq<LRUHandle>, t: seq<LRUHandle>)
    ensures Distinct(s + t) <==> Distinct(s) && Distinct(t) && Apart(s, t)
  {
    if s == [] {
      assert s + t == t;
    } else {
      assert (s + t)[1..] == s[1..] + t;
      DistinctParts(s[1..], t);
      assert Apart(s, t) <==> s[0] !in t && Apart(s[1..], t) by {
        assert forall i :: 0 < i < |s| ==> s[i] == s[1..][i - 1];
      }
    }
  }

  ghost predicate Apart(s: seq<LRUHandle>, t: seq<LRUHandle>) {
    forall i :: 0 <= i < |s| ==> s[i] !in t
  }

  /** The entries of one bucket, linked in this order. */
  ghost predicate Chained(head: LRUHandle?, chain: seq<LRUHandle>)
    reads chain`nextHash
  {
    && head == Link(chain, 0)
    && (forall j :: 0 <= j < |chain| ==> chain[j].nextHash == Link(chain, j + 1))
    && Distinct(chain)
  }

  /** The first `n` buckets are chained, through entries of `owned` only. */
  ghost predicate AllChained(list: seq<LRUHandle?>, chains: seq<seq<LRUHandle>>, owned: set<LRUHandle>, n: nat)
    reads owned`nextHash
  {
    n == 0 || (
      && n <= |list| && n <= |chains|
      && (forall x :: x in chains[n - 1] ==> x in owned)
      && Chained(list[n - 1], chains[n - 1])
      && AllChained(list, chains, owned, n - 1))
  }

  lemma {:induction false} ChainedAt(list: seq<LRUHandle?>, chains: seq<seq<LRUHandle>>, owned: set<LRUHandle>, n: nat,
                                     c: nat)
    requires AllChained(list, chains, owned, n) && c < n
    ensures n <= |list| && n <= |chains|
    ensures (forall x :: x in chains[c] ==> x in owned) && Chained(list[c], chains[c])
  {
    if c < n - 1 {
      ChainedAt(list, chains, owned, n - 1, c);
    }
  }

  lemma {:induction false} ChainedEverywhere(list: seq<LRUHandle?>, chains: seq<seq<LRUHandle>>, owned: set<LRUHandle>,
                                             n: nat)
    requires n <= |list| && n <= |chains|
    requires forall c :: 0 <= c < n ==> (forall x :: x in chains[c] ==> x in owned) && Chained(list[c], chains[c])
    ensures AllChained(list, chains, owned, n)
  {
    if n > 0 {
      ChainedEverywhere(list, chains, owned, n - 1);
    }
  }

  ghost function EntriesFrom(chains: seq<seq<LRUHandle>>, i: nat): set<LRUHandle>
    decreases |chains| - i
  {
    if i >= |chains| then {} else (set x | x in chains[i]) + EntriesFrom(chains, i + 1)
  }

  /** The buckets from `i` on are chained, through entries of `owned` only. */
  ghost predicate RestChained(list: seq<LRUHandle?>, chains: seq<seq<LRUHandle>>, owned: set<LRUHandle>, i: nat)
    reads owned`nextHash
    decreases |chains| - i
  {
    i >= |chains| || (
      && |chains| <= |list|
      && (forall x :: x in chains[i] ==> x in owned)
      && Chained(list[i], chains[i])
      && RestChained(list, chains, owned, i + 1))
  }

  lemma {:induction false} AllIsRest(list: seq<LRUHandle?>, chains: seq<seq<LRUHandle>>, owned: set<LRUHandle>, i: nat)
    requires AllChained(list, chains, owned, |chains|)
    ensures RestChained(list, chains, EntriesFrom(chains, i), i)
    decreases |chains| - i
  {
    if i < |chains| {
      ChainedAt(list, chains, owned, |chains|, i);
      AllIsRest(list, chains, owned, i + 1);
      RestGrows(list, chains, EntriesFrom(chains, i + 1), EntriesFrom(chains, i), i + 1);
    }
  }

  lemma {:induction false} RestGrows(list: seq<LRUHandle?>, chains: seq<seq<LRUHandle>>, owned: set<LRUHandle>,
                                     more: set<LRUHandle>, i: nat)
    requires RestChained(list, chains, owned, i) && EntriesFrom(chains, i) <= more
    ensures RestChained(list, chains, more, i)
    decreases |chains| - i
  {
    if i < |chains| {
      RestGrows(list, chains, owned, more, i + 1);
    }
  }

  /** The part of the old table that still has to be moved. */
  datatype Remaining = Remaining(list: seq<LRUHandle?>, chains: seq<seq<LRUHandle>>, owned: set<LRUHandle>, start: nat)

  ghost predicate Remains(r: Remaining)
    reads r.owned`nextHash
  {
    RestChained(r.list, r.chains, r.owned, r.start)
  }

  lemma {:induction false} NotInRest(chains: seq<seq<LRUHandle>>, x: LRUHandle, i: nat)
    requires forall c :: i <= c < |chains| ==> x !in chains[c]
    ensures x !in EntriesFrom(chains, i)
    decreases |chains| - i
  {
    if i < |chains| {
      NotInRest(chains, x, i + 1);
    }
  }

  lemma SplicedIsDistinct(chain: seq<LRUHandle>, j: nat, tail: seq<LRUHandle>)
    requires j <= |chain| && Distinct(chain) && Distinct(tail) && Apart(chain[..j], tail)
    ensures Distinct(chain[..j] + tail)
  {
    assert chain[..j] + chain[j..] == chain;
    DistinctParts(chain[..j], chain[j..]);
    DistinctParts(chain[..j], tail);
  }

  lemma ChainSpliced(head: LRUHandle?, chain: seq<LRUHandle>, j: nat, target: LRUHandle?, tail: seq<LRUHandle>)
    requires j <= |chain| && head == if j == 0 then target else chain[0]
    requires forall i :: 0 <= i < j - 1 ==> chain[i].nextHash == Link(chain, i + 1)
    requires j > 0 ==> chain[j - 1].nextHash == target
    requires Distinct(chain) && Chained(target, tail) && Apart(chain[..j], tail)
    ensures Chained(head, chain[..j] + tail)
  {
    var whole := chain[..j] + tail;
    forall i | 0 <= i < |whole| ensures whole[i].nextHash == Link(whole, i + 1) {
      if i + 1 < j {
        assert whole[i] == chain[i] && whole[i + 1] == chain[i + 1];
      } else if i < j {
        assert whole[i] == chain[i] && Link(whole, j) == Link(tail, 0);
      } else {
        assert whole[i] == tail[i - j] && Link(whole, i + 1) == Link(tail, i - j + 1);
      }
    }
    SplicedIsDistinct(chain, j, tail);
  }

  function Bucket(hash: nat, n: nat): (b: nat)
    requires n > 0
    ensures b < n
  {
    hash % n
  }

  ghost predicate Belongs(h: LRUHandle, members: map<TableKey, LRUHandle>, n: nat, b: nat)
    requires n > 0
  {
    Bucket(h.key.hash, n) == b && h.key in members && members[h.key] == h
  }

  ghost predicate BucketAgrees(chain: seq<LRUHandle>, members: map<TableKey, LRUHandle>, n: nat, b: nat)
    requires n > 0
  {
    && (forall j :: 0 <= j < |chain| ==> Belongs(chain[j], members, n, b))
    && (forall k :: k in members && Bucket(k.hash, n) == b ==> members[k] in chain)
  }

  ghost predicate Keyed(members: map<TableKey, LRUHandle>) {
    forall k :: k in members ==> members[k].key == k
  }

  /** The buckets hold exactly the entries of the map, each in the bucket of its hash. */
  ghost predicate Agree(chains: seq<seq<LRUHandle>>, members: map<TableKey, LRUHandle>, n: nat) {
    && n > 0 && |chains| == n && Keyed(members)
    && (forall b {:trigger BucketAgrees(chains[b], members, n, b)} :: 0 <= b < n ==>
        BucketAgrees(chains[b], members, n, b))
  }

  lemma BucketsApart(chains: seq<seq<LRUHandle>>, members: map<TableKey, LRUHandle>, n: nat, b: nat)
    requires Agree(chains, members, n) && b < n
    ensures forall c :: 0 <= c < n && c != b ==> Apart(chains[c], chains[b])
  {
    assert BucketAgrees(chains[b], members, n, b);
    forall c, i | 0 <= c < n && c != b && 0 <= i < |chains[c]| ensures chains[c][i] !in chains[b] {
      assert BucketAgrees(chains[c], members, n, c);
      assert Belongs(chains[c][i], members, n, c);
    }
  }

  /** Bucket `b` with `h` at position `j`, in place of the entry with the same key if there is one. */
  ghost function WithEntry(chain: seq<LRUHandle>, j: nat, h: LRUHandle): seq<LRUHandle>
    requires j <= |chain|
  {
    chain[..j] + ([h] + if j < |chain| then chain[j + 1..] else [])
  }

  /** Other buckets do not notice a change of the map at a key of this bucket. */
  lemma OthersAgree(chains: seq<seq<LRUHandle>>, chain: seq<LRUHandle>, members: map<TableKey, LRUHandle>,
                    members': map<TableKey, LRUHandle>, n: nat, b: nat)
    requires Agree(chains, members, n) && b < n && Keyed(members')
    requires forall k: TableKey :: Bucket(k.hash, n) != b ==>
               (k in members' <==> k in members) && (k in members ==> members'[k] == members[k])
    requires BucketAgrees(chain, members', n, b)
    ensures Agree(chains[b := chain], members', n)
  {
    var chains' := chains[b := chain];
    forall c | 0 <= c < n ensures BucketAgrees(chains'[c], members', n, c) {
      assert BucketAgrees(chains[c], members, n, c);
      if c != b {
        forall j | 0 <= j < |chains[c]| ensures Belongs(chains[c][j], members', n, c) {
          assert Belongs(chains[c][j], members, n, c);
        }
      }
    }
  }

  lemma InsertAgrees(chains: seq<seq<LRUHandle>>, members: map<TableKey, LRUHandle>, n: nat, h: LRUHandle, j: nat)
    requires Agree(chains, members, n) && h !in members.Values
    requires var chain := chains[Bucket(h.key.hash, n)];
      && j <= |chain|
      && (forall i :: 0 <= i < j ==> chain[i].key != h.key)
      && Distinct(chain)
      && (j < |chain| ==> chain[j].key == h.key)
    ensures var b := Bucket(h.key.hash, n);
      Agree(chains[b := WithEntry(chains[b], j, h)], members[h.key := h], n)
  {
    var b := Bucket(h.key.hash, n);
    var chain := chains[b];
    var chain' := WithEntry(chain, j, h);
    var members' := members[h.key := h];
    assert BucketAgrees(chains[b], members, n, b);
    assert j < |chain| ==> Belongs(chain[j], members, n, b);
    forall i | 0 <= i < |chain'| ensures Belongs(chain'[i], members', n, b) {
      if i != j {
        assert chain'[i] == chain[i] && Belongs(chain[i], members, n, b);
        if i < j < |chain| {
          DistinctAt(chain, i, j);
        } else if j < i {
          DistinctAt(chain, j, i);
        }
      }
    }
    forall k | k in members' && Bucket(k.hash, n) == b ensures members'[k] in chain' {
      if k == h.key {
        assert chain'[j] == h;
      } else {
        var i :| 0 <= i < |chain| && chain[i] == members[k];
        assert chain'[i] == chain[i];
      }
    }
    OthersAgree(chains, chain', members, members', n, b);
  }

  lemma PushAgrees(chains: seq<seq<LRUHandle>>, members: map<TableKey, LRUHandle>, n: nat, h: LRUHandle)
    requires Agree(chains, members, n) && h.key !in members
    ensures var b := Bucket(h.key.hash, n);
      Agree(chains[b := [h] + chains[b]], members[h.key := h], n)
    ensures forall c :: 0 <= c < n ==> h !in chains[c]
  {
    var b := Bucket(h.key.hash, n);
    var members' := members[h.key := h];
    forall c | 0 <= c < n ensures h !in chains[c] {
      assert BucketAgrees(chains[c], members, n, c);
      forall j | 0 <= j < |chains[c]| ensures chains[c][j] != h {
        assert Belongs(chains[c][j], members, n, c);
      }
    }
    assert BucketAgrees(chains[b], members, n, b);
    var chain' := [h] + chains[b];
    forall i | 0 <= i < |chain'| ensures Belongs(chain'[i], members', n, b) {
      if i > 0 {
        assert Belongs(chains[b][i - 1], members, n, b);
      }
    }
    OthersAgree(chains, chain', members, members', n, b);
  }

  lemma RemoveAgrees(chains: seq<seq<LRUHandle>>, members: map<TableKey, LRUHandle>, n: nat, key: TableKey, j: nat)
    requires Agree(chains, members, n)
    requires var chain := chains[Bucket(key.hash, n)];
      && j < |chain| && chain[j].key == key
      && Distinct(chain)
    ensures var b := Bucket(key.hash, n);
      Agree(chains[b := chains[b][..j] + chains[b][j + 1..]], members - {key}, n)
    ensures key in members && members[key] == chains[Bucket(key.hash, n)][j]
  {
    var b := Bucket(key.hash, n);
    var chain := chains[b];
    var chain' := chain[..j] + chain[j + 1..];
    var members' := members - {key};
    assert BucketAgrees(chains[b], members, n, b);
    assert Belongs(chain[j], members, n, b);
    forall i | 0 <= i < |chain'| ensures Belongs(chain'[i], members', n, b) {
      var k := if i < j then i else i + 1;
      assert chain'[i] == chain[k] && Belongs(chain[k], members, n, b);
      if k < j {
        DistinctAt(chain, k, j);
      } else {
        DistinctAt(chain, j, k);
      }
    }
    forall k | k in members' && Bucket(k.hash, n) == b ensures members'[k] in chain' {
      var i :| 0 <= i < |chain| && chain[i] == members[k];
      assert chain'[if i < j then i else i - 1] == chain[i];
    }
    OthersAgree(chains, chain', members, members', n, b);
  }

  /** A key that the bucket does not have is not in the map. */
  lemma AbsentFromBucket(chains: seq<seq<LRUHandle>>, members: map<TableKey, LRUHandle>, n: nat, key: TableKey)
    requires Agree(chains, members, n)
    requires forall i :: 0 <= i < |chains[Bucket(key.hash, n)]| ==> chains[Bucket(key.hash, n)][i].key != key
    ensures key !in members
  {
    assert BucketAgrees(chains[Bucket(key.hash, n)], members, n, Bucket(key.hash, n));
  }

  lemma RestOfChain(head: LRUHandle?, chain: seq<LRUHandle>, j: nat)
    requires Chained(head, chain) && j < |chain|
    ensures Chained(chain[j].nextHash, chain[j + 1..]) && Apart(chain[..j], chain[j + 1..])
  {
    var rest := chain[j + 1..];
    forall i | 0 <= i < |rest| ensures rest[i].nextHash == Link(rest, i + 1) {
      assert rest[i] == chain[j + 1 + i];
    }
    assert chain == chain[..j] + chain[j..];
    DistinctParts(chain[..j], chain[j..]);
    assert chain[j..][1..] == rest;
    forall i | 0 <= i < j ensures chain[..j][i] !in rest {
      assert chain[..j][i] !in chain[j..];
    }
  }

  /** A chain starting with a new entry whose link skips the entry at `j`, if there is one. */
  lemma ChainWithEntry(head: LRUHandle?, chain: seq<LRUHandle>, j: nat, h: LRUHandle)
    requires Chained(head, chain) && j <= |chain| && h !in chain
    requires h.nextHash == if j < |chain| then chain[j].nextHash else null
    ensures var tail := [h] + if j < |chain| then chain[j + 1..] else [];
      Chained(h, tail) && Apart(chain[..j], tail)
  {
    if j < |chain| {
      RestOfChain(head, chain, j);
      var rest := chain[j + 1..];
      var tail := [h] + rest;
      forall i | 0 <= i < |tail| ensures tail[i].nextHash == Link(tail, i + 1) {
        if i > 0 {
          assert tail[i] == rest[i - 1];
        }
      }
    }
  }

  lemma OneMore(members: map<TableKey, LRUHandle>, h: LRUHandle)
    ensures |members[h.key := h]| == if h.key in members then |members| else |members| + 1
  {
    assert members[h.key := h].Keys == members.Keys + {h.key};
  }

  /** The number of entries in the first `m` buckets. */
  ghost function Total(chains: seq<seq<LRUHandle>>, m: nat): nat
    requires m <= |chains|
  {
    if m == 0 then 0 else Total(chains, m - 1) + |chains[m - 1]|
  }

  lemma {:induction false} TotalUpdate(chains: seq<seq<LRUHandle>>, b: nat, chain: seq<LRUHandle>, m: nat)
    requires b < |chains| && m <= |chains|
    ensures Total(chains[b := chain], m) == Total(chains, m) + if b < m then |chain| - |chains[b]| else 0
  {
    if m > 0 {
      TotalUpdate(chains, b, chain, m - 1);
    }
  }

  lemma {:induction false} TotalOfEmpty(n: nat, m: nat)
    requires m <= n
    ensures Total(seq(n, _ => []), m) == 0
  {
    if m > 0 {
      TotalOfEmpty(n, m - 1);
    }
  }

  ghost predicate AllIn(chains: seq<seq<LRUHandle>>, owned: set<LRUHandle>) {
    forall c :: 0 <= c < |chains| ==> forall x :: x in chains[c] ==> x in owned
  }

  lemma ChainsAreMembers(chains: seq<seq<LRUHandle>>, members: map<TableKey, LRUHandle>, n: nat)
    requires Agree(chains, members, n)
    ensures AllIn(chains, members.Values)
  {
    forall c, x | 0 <= c < n && x in chains[c] ensures x in members.Values {
      assert BucketAgrees(chains[c], members, n, c);
      var j :| 0 <= j < |chains[c]| && chains[c][j] == x;
      assert Belongs(chains[c][j], members, n, c);
    }
  }

  method SetNext(ghost chain: seq<LRUHandle>, before: LRUHandle, target: LRUHandle?, ghost j: nat,
                 ghost tail: seq<LRUHandle>)
    requires 0 < j <= |chain| && before == chain[j - 1]
    requires Chained(Link(chain, 0), chain) && Chained(target, tail) && Apart(chain[..j], tail)
    modifies before`nextHash
    ensures Chained(target, tail)
    ensures before.nextHash == target
    ensures forall i :: 0 <= i < j - 1 ==> chain[i].nextHash == Link(chain, i + 1)
  {
    forall i | 0 <= i < j - 1 ensures chain[i] != before {
      DistinctAt(chain, i, j - 1);
    }
    assert before == chain[..j][j - 1];
    before.nextHash := target;
  }

  method PushLink(list: seq<LRUHandle?>, b: nat, h: LRUHandle, ghost chains: seq<seq<LRUHandle>>, ghost rest: Remaining)
    returns (list': seq<LRUHandle?>)
    requires b < |list| == |chains|
    requires Remains(rest) && h !in rest.owned
    requires forall c :: 0 <= c < |chains| ==> h !in chains[c] && Chained(list[c], chains[c])
    modifies h`nextHash
    ensures list' == list[b := h]
    ensures Chained(list'[b], [h] + chains[b])
    ensures forall c :: 0 <= c < |chains| && c != b ==> Chained(list'[c], chains[c])
    ensures Remains(rest)
  {
    h.nextHash := list[b];
    list' := list[b := h];
    ghost var chain := [h] + chains[b];
    assert Chained(h.nextHash, chains[b]);
    forall i | 0 <= i < |chain| ensures chain[i].nextHash == Link(chain, i + 1) {
      if i > 0 {
        assert chain[i] == chains[b][i - 1];
      }
    }
  }

  /** Puts `h` at the head of its bucket in a table under construction. */
  method PushFront(list: seq<LRUHandle?>, n: nat, h: LRUHandle, ghost chains: seq<seq<LRUHandle>>,
                   ghost members: map<TableKey, LRUHandle>, ghost rest: Remaining)
    returns (list': seq<LRUHandle?>, ghost chains': seq<seq<LRUHandle>>)
    requires n == |list| && Agree(chains, members, n) && h.key !in members
    requires Remains(rest) && h !in rest.owned
    requires AllChained(list, chains, members.Values, n)
    modifies h`nextHash
    ensures Agree(chains', members[h.key := h], n)
    ensures |list'| == n && AllChained(list', chains', members[h.key := h].Values, n)
    ensures Remains(rest) && Total(chains', n) == Total(chains, n) + 1
  {
    var b := Bucket(h.key.hash, n);
    ghost var members' := members[h.key := h];
    chains' := chains[b := [h] + chains[b]];
    TotalUpdate(chains, b, [h] + chains[b], n);
    PushAgrees(chains, members, n, h);
    forall c | 0 <= c < n ensures Chained(list[c], chains[c]) {
      ChainedAt(list, chains, members.Values, n, c);
    }
    list' := PushLink(list, b, h, chains, rest);
    ChainsAreMembers(chains', members', n);
    ChainedEverywhere(list', chains', members'.Values, n);
  }

  /** The entries of the first `i` buckets, and of the first `j` places of bucket `i`. */
  ghost predicate MovedTo(moved: map<TableKey, LRUHandle>, members: map<TableKey, LRUHandle>, n: nat, i: nat,
                          done: seq<LRUHandle>)
    requires n > 0
  {
    && (forall k :: k in moved ==> k in members && moved[k] == members[k])
    && (forall k :: k in members ==>
          (k in moved <==> Bucket(k.hash, n) < i || (Bucket(k.hash, n) == i && members[k] in done)))
  }

  lemma NotBefore(chain: seq<LRUHandle>, j: nat)
    requires Distinct(chain) && j < |chain|
    ensures chain[j] !in chain[..j] && chain[..j + 1] == chain[..j] + [chain[j]]
  {
    assert chain == chain[..j] + chain[j..];
    DistinctParts(chain[..j], chain[j..]);
    assert chain[j..][0] == chain[j];
  }

  lemma MovedOne(moved: map<TableKey, LRUHandle>, members: map<TableKey, LRUHandle>, n: nat, i: nat,
                 done: seq<LRUHandle>, h: LRUHandle)
    requires n > 0 && Keyed(members) && Belongs(h, members, n, i) && h !in done
    requires MovedTo(moved, members, n, i, done)
    ensures h.key !in moved
    ensures MovedTo(moved[h.key := h], members, n, i, done + [h])
  {
  }

  lemma MovedStep(moved: map<TableKey, LRUHandle>, members: map<TableKey, LRUHandle>, n: nat, i: nat,
                  chain: seq<LRUHandle>, j: nat)
    requires n > 0 && Keyed(members) && Distinct(chain)
    requires j < |chain| && Belongs(chain[j], members, n, i) && MovedTo(moved, members, n, i, chain[..j])
    ensures chain[j].key !in moved
    ensures MovedTo(moved[chain[j].key := chain[j]], members, n, i, chain[..j + 1])
    ensures |moved[chain[j].key := chain[j]]| == |moved| + 1
  {
    NotBefore(chain, j);
    MovedOne(moved, members, n, i, chain[..j], chain[j]);
    OneMore(moved, chain[j]);
  }

  ghost function Filled(moved: map<TableKey, LRUHandle>, chain: seq<LRUHandle>, j: nat): map<TableKey, LRUHandle>
    requires j <= |chain|
  {
    if j == 0 then moved else Filled(moved, chain, j - 1)[chain[j - 1].key := chain[j - 1]]
  }

  /** What moving bucket `i` relies on: the bucket belongs to the old table, and everything before it
      has moved. */
  ghost predicate Movable(moved: map<TableKey, LRUHandle>, members: map<TableKey, LRUHandle>, n: nat, i: nat,
                          chain: seq<LRUHandle>)
  {
    && n > 0 && Keyed(members) && Distinct(chain)
    && (forall j :: 0 <= j < |chain| ==> Belongs(chain[j], members, n, i))
    && MovedTo(moved, members, n, i, [])
  }

  lemma {:induction false} FilledIsMoved(moved: map<TableKey, LRUHandle>, members: map<TableKey, LRUHandle>, n: nat,
                                         i: nat,
                                         chain: seq<LRUHandle>, j: nat)
    requires Movable(moved, members, n, i, chain) && j <= |chain|
    ensures MovedTo(Filled(moved, chain, j), members, n, i, chain[..j])
    ensures |Filled(moved, chain, j)| == |moved| + j
  {
    if j == 0 {
      assert chain[..0] == [];
    } else {
      FilledIsMoved(moved, members, n, i, chain, j - 1);
      var before := Filled(moved, chain, j - 1);
      MovedStep(before, members, n, i, chain, j - 1);
      assert Filled(moved, chain, j) == before[chain[j - 1].key := chain[j - 1]];
    }
  }

  /** A bucket array whose chains hold exactly the entries of the map. */
  ghost predicate Holds(list: seq<LRUHandle?>, n: nat, chains: seq<seq<LRUHandle>>, moved: map<TableKey, LRUHandle>)
    reads moved.Values`nextHash
  {
    |list| == |chains| == n && Agree(chains, moved, n) && AllChained(list, chains, moved.Values, n)
  }

  /** Moves the first entry left of an old bucket. */
  method MoveOne(list: seq<LRUHandle?>, n: nat, h: LRUHandle, ghost left: seq<LRUHandle>,
                 ghost chains: seq<seq<LRUHandle>>, ghost moved: map<TableKey, LRUHandle>, ghost rest: Remaining)
    returns (list': seq<LRUHandle?>, next: LRUHandle?, ghost chains': seq<seq<LRUHandle>>)
    requires Holds(list, n, chains, moved) && left != [] && Chained(h, left) && h.key !in moved
    requires Remains(rest) && h !in rest.owned
    modifies h`nextHash
    ensures Holds(list', n, chains', moved[h.key := h])
    ensures Chained(next, left[1..]) && Remains(rest) && Total(chains', n) == Total(chains, n) + 1
  {
    next := h.nextHash;
    RestOfChain(h, left, 0);
    assert left[0 + 1..] == left[1..];
    list', chains' := PushFront(list, n, h, chains, moved, rest);
  }

  /** Moves the entries of an old bucket to their buckets in the table under construction. */
  method MoveBucket(list: seq<LRUHandle?>, n: nat, head: LRUHandle?, count: nat, ghost chain: seq<LRUHandle>,
                    ghost chains: seq<seq<LRUHandle>>, ghost moved: map<TableKey, LRUHandle>, ghost rest: Remaining)
    returns (list': seq<LRUHandle?>, count': nat, ghost chains': seq<seq<LRUHandle>>,
             ghost moved': map<TableKey, LRUHandle>)
    requires Holds(list, n, chains, moved) && Chained(head, chain)
    requires Remains(rest) && (forall x :: x in chain ==> x !in rest.owned)
    requires forall j :: 0 <= j < |chain| ==> chain[j].key !in Filled(moved, chain, j)
    modifies chain`nextHash
    ensures moved' == Filled(moved, chain, |chain|) && Holds(list', n, chains', moved')
    ensures count' == count + |chain| && Remains(rest) && Total(chains', n) == Total(chains, n) + |chain|
  {
    var h := head;
    ghost var j := 0;
    list', count', chains', moved' := list, count, chains, moved;
    assert chain[0..] == chain;
    while h != null
      invariant j <= |chain| && moved' == Filled(moved, chain, j) && count' == count + j
      invariant Chained(h, chain[j..])
      invariant Holds(list', n, chains', moved') && Remains(rest) && Total(chains', n) == Total(chains, n) + j
      decreases |chain| - j
    {
      ghost var e := h;
      list', h, chains' := MoveOne(list', n, h, chain[j..], chains', moved', rest);
      moved', j, count' := moved'[e.key := e], j + 1, count' + 1;
      assert moved' == Filled(moved, chain, j) && chain[j - 1..][1..] == chain[j..];
    }
  }

  /** Before bucket `i` is moved: none of its entries has moved yet. */
  lemma BucketIsFresh(moved: map<TableKey, LRUHandle>, members: map<TableKey, LRUHandle>, n: nat, i: nat,
                      chain: seq<LRUHandle>)
    requires Movable(moved, members, n, i, chain) && BucketAgrees(chain, members, n, i)
    ensures forall j :: 0 <= j < |chain| ==> chain[j].key !in Filled(moved, chain, j)
    ensures MovedTo(Filled(moved, chain, |chain|), members, n, i + 1, [])
    ensures |Filled(moved, chain, |chain|)| == |moved| + |chain|
  {
    forall j | 0 <= j < |chain| ensures chain[j].key !in Filled(moved, chain, j) {
      FilledIsMoved(moved, members, n, i, chain, j);
      MovedStep(Filled(moved, chain, j), members, n, i, chain, j);
    }
    FilledIsMoved(moved, members, n, i, chain, |chain|);
    assert chain[..|chain|] == chain;
  }

  /** The map after the first `i` buckets have moved. */
  ghost function MovedMap(chains: seq<seq<LRUHandle>>, i: nat): map<TableKey, LRUHandle>
    requires i <= |chains|
  {
    if i == 0 then map[] else Filled(MovedMap(chains, i - 1), chains[i - 1], |chains[i - 1]|)
  }

  lemma {:induction false} MovedMapIsMoved(chains: seq<seq<LRUHandle>>, members: map<TableKey, LRUHandle>, n: nat,
                                           i: nat)
    requires Agree(chains, members, n) && i <= n
    requires forall c :: 0 <= c < n ==> Distinct(chains[c])
    ensures MovedTo(MovedMap(chains, i), members, n, i, [])
    ensures i == n ==> MovedMap(chains, i) == members
    ensures i < n ==> Movable(MovedMap(chains, i), members, n, i, chains[i]) && BucketAgrees(chains[i], members, n, i)
  {
    if i > 0 {
      MovedMapIsMoved(chains, members, n, i - 1);
      BucketIsFresh(MovedMap(chains, i - 1), members, n, i - 1, chains[i - 1]);
    }
    if i < n {
      assert BucketAgrees(chains[i], members, n, i);
    } else {
      AllMoved(MovedMap(chains, i), members, n);
    }
  }

  /** Moving bucket `i` meets no key twice, and touches no entry of a later bucket. */
  ghost predicate Ready(chains: seq<seq<LRUHandle>>, i: nat)
    requires i < |chains|
  {
    && (forall j :: 0 <= j < |chains[i]| ==> chains[i][j].key !in Filled(MovedMap(chains, i), chains[i], j))
    && (forall x :: x in chains[i] ==> x !in EntriesFrom(chains, i + 1))
  }

  ghost predicate AllReady(chains: seq<seq<LRUHandle>>, owned: set<LRUHandle>) {
    forall i {:trigger Ready(chains, i)} ::
      0 <= i < |chains| ==> Ready(chains, i) && forall x :: x in chains[i] ==> x in owned
  }

  lemma BucketIsReady(chains: seq<seq<LRUHandle>>, members: map<TableKey, LRUHandle>, n: nat, i: nat)
    requires Agree(chains, members, n) && i < n
    requires forall c :: 0 <= c < n ==> Distinct(chains[c])
    ensures Ready(chains, i)
  {
    MovedMapIsMoved(chains, members, n, i);
    BucketIsFresh(MovedMap(chains, i), members, n, i, chains[i]);
    forall x | x in chains[i] ensures x !in EntriesFrom(chains, i + 1) {
      BucketsApart(chains, members, n, i);
      NotInRest(chains, x, i + 1);
    }
  }

  lemma {:induction false} MovedMapSize(chains: seq<seq<LRUHandle>>, members: map<TableKey, LRUHandle>, n: nat, i: nat)
    requires Agree(chains, members, n) && i <= n
    requires forall c :: 0 <= c < n ==> Distinct(chains[c])
    ensures |MovedMap(chains, i)| == Total(chains, i)
  {
    if i > 0 {
      MovedMapSize(chains, members, n, i - 1);
      MovedMapIsMoved(chains, members, n, i - 1);
      BucketIsFresh(MovedMap(chains, i - 1), members, n, i - 1, chains[i - 1]);
    }
  }

  lemma EmptyTable(list: seq<LRUHandle?>, n: nat)
    requires n == |list| > 0 && forall c :: 0 <= c < n ==> list[c] == null
    ensures Agree(seq(n, _ => []), map[], n)
    ensures AllChained(list, seq(n, _ => []), {}, n)
  {
    var chains: seq<seq<LRUHandle>> := seq(n, _ => []);
    ChainedEverywhere(list, chains, {}, n);
  }

  lemma AllMoved(moved: map<TableKey, LRUHandle>, members: map<TableKey, LRUHandle>, n: nat)
    requires n > 0 && MovedTo(moved, members, n, n, [])
    ensures moved == members
  {
    assert moved.Keys == members.Keys;
  }

  ghost function RestFrom(list: seq<LRUHandle?>, chains: seq<seq<LRUHandle>>, i: nat): Remaining {
    Remaining(list, chains, EntriesFrom(chains, i), i)
  }

  lemma NextBucket(list: seq<LRUHandle?>, chains: seq<seq<LRUHandle>>, i: nat)
    requires Remains(RestFrom(list, chains, i)) && i < |chains|
    ensures |chains| <= |list| && Chained(list[i], chains[i])
    ensures Remains(RestFrom(list, chains, i + 1))
  {
    RestGrows(list, chains, EntriesFrom(chains, i), EntriesFrom(chains, i + 1), i + 1);
  }

  lemma NextIsReady(chains: seq<seq<LRUHandle>>, owned: set<LRUHandle>, i: nat)
    requires i < |chains| && AllReady(chains, owned)
    ensures forall x :: x in chains[i] ==> x in owned && x !in EntriesFrom(chains, i + 1)
    ensures forall j :: 0 <= j < |chains[i]| ==> chains[i][j].key !in Filled(MovedMap(chains, i), chains[i], j)
    ensures MovedMap(chains, i + 1) == Filled(MovedMap(chains, i), chains[i], |chains[i]|)
  {
    assert Ready(chains, i);
  }

  /** How far the move has come: the first `i` buckets are in the new table, the others in the old. */
  ghost predicate MovedBuckets(list: seq<LRUHandle?>, n: nat, oldList: seq<LRUHandle?>, chains: seq<seq<LRUHandle>>,
                               i: nat,
                               chains': seq<seq<LRUHandle>>, moved: map<TableKey, LRUHandle>, rest: Remaining)
    reads moved.Values`nextHash, rest.owned`nextHash
  {
    && i <= |chains| && moved == MovedMap(chains, i) && rest == RestFrom(oldList, chains, i)
    && Holds(list, n, chains', moved) && Remains(rest)
  }

  /** Moves bucket `i` to the table under construction. */
  method MoveNext(list: seq<LRUHandle?>, n: nat, oldList: seq<LRUHandle?>, i: nat, count: nat,
                  ghost chains: seq<seq<LRUHandle>>, ghost owned: set<LRUHandle>,
                  ghost chains0: seq<seq<LRUHandle>>, ghost moved0: map<TableKey, LRUHandle>, ghost rest0: Remaining)
    returns (list': seq<LRUHandle?>, count': nat,
             ghost chains': seq<seq<LRUHandle>>, ghost moved: map<TableKey, LRUHandle>, ghost rest: Remaining)
    requires i < |oldList| == |chains| && AllReady(chains, owned)
    requires MovedBuckets(list, n, oldList, chains, i, chains0, moved0, rest0) && count == Total(chains0, n)
    modifies owned`nextHash
    ensures MovedBuckets(list', n, oldList, chains, i + 1, chains', moved, rest) && count' == Total(chains', n)
    ensures count' == count + |chains[i]|
  {
    NextBucket(oldList, chains, i);
    NextIsReady(chains, owned, i);
    rest := RestFrom(oldList, chains, i + 1);
    list', count', chains', moved := MoveBucket(list, n, oldList[i], count, chains[i], chains0, moved0, rest);
  }

  method EmptyBuckets(n: nat)
    returns (list': seq<LRUHandle?>, ghost chains': seq<seq<LRUHandle>>, ghost moved: map<TableKey, LRUHandle>)
    requires n > 0
    ensures moved == map[] && Holds(list', n, chains', moved) && Total(chains', n) == 0
  {
    list', chains', moved := seq(n, _ => null), seq(n, _ => []), map[];
    EmptyTable(list', n);
    TotalOfEmpty(n, n);
    assert moved.Values == {};
  }

  method MoveAll(list: seq<LRUHandle?>, n: nat, oldList: seq<LRUHandle?>, ghost chains: seq<seq<LRUHandle>>,
                 ghost owned: set<LRUHandle>, ghost chains0: seq<seq<LRUHandle>>,
                   ghost moved0: map<TableKey, LRUHandle>)
    returns (list': seq<LRUHandle?>, count: nat, ghost chains': seq<seq<LRUHandle>>,
             ghost moved: map<TableKey, LRUHandle>)
    requires |oldList| == |chains| && AllReady(chains, owned)
    requires moved0 == map[] && Holds(list, n, chains0, moved0) && Total(chains0, n) == 0 &&
             Remains(RestFrom(oldList, chains, 0))
    modifies owned`nextHash
    ensures moved == MovedMap(chains, |chains|) && Holds(list', n, chains', moved)
    ensures count == Total(chains, |chains|) == Total(chains', n)
  {
    list', count, chains', moved := list, 0, chains0, moved0;
    ghost var rest := RestFrom(oldList, chains, 0);
    assert moved == MovedMap(chains, 0);
    for i := 0 to |oldList|
      invariant MovedBuckets(list', n, oldList, chains, i, chains', moved, rest)
      invariant count == Total(chains, i) == Total(chains', n)
    {
      list', count, chains', moved, rest := MoveNext(list', n, oldList, i, count, chains, owned, chains', moved, rest);
    }
  }

  /** Walks down a bucket to the entry with the key, or to the end. */
  method SearchChain(key: TableKey, head: LRUHandle?, ghost chain: seq<LRUHandle>)
    returns (before: LRUHandle?, found: LRUHandle?, ghost j: nat)
    requires Chained(head, chain)
    ensures j <= |chain| && found == Link(chain, j)
    ensures (j == 0 ==> before == null) && (j > 0 ==> before == chain[j - 1])
    ensures forall i :: 0 <= i < j ==> chain[i].key != key
    ensures found != null ==> found.key == key
  {
    before, found, j := null, head, 0;
    while found != null && found.key != key
      invariant j <= |chain| && found == Link(chain, j)
      invariant (j == 0 ==> before == null) && (j > 0 ==> before == chain[j - 1])
      invariant forall i :: 0 <= i < j ==> chain[i].key != key
      decreases |chain| - j
    {
      before, found, j := found, found.nextHash, j + 1;
    }
  }

  class LRUHandleTable {
    var list_: seq<LRUHandle?>
    var length_: nat
    var elems_: nat
    ghost var chains: seq<seq<LRUHandle>>
    ghost var members: map<TableKey, LRUHandle>

    ghost predicate Shape()
      reads this, members.Values`nextHash
    {
      && length_ == |list_| && length_ >= 16 && PowerOfTwo(length_)
      && Agree(chains, members, length_) && elems_ == Total(chains, length_)
      && AllChained(list_, chains, members.Values, length_)
    }

    ghost predicate Valid()
      reads this, members.Values`nextHash
    {
      Shape() && elems_ <= length_
    }

    constructor ()
      ensures Valid() && members == map[]
    {
      var list: seq<LRUHandle?> := seq(16, _ => null);
      list_, length_, elems_ := list, 16, 0;
      members := map[];
      chains := seq(16, _ => []);
      new;
      EmptyTable(list, 16);
      assert members.Values == {};
      TotalOfEmpty(16, 16);
      assert PowerOfTwo(2) && PowerOfTwo(4) && PowerOfTwo(8);
    }

    /** The slot for `key` in its bucket: the entry before it, or null for the bucket's head, and the
        entry in it. */
    method FindPointer(key: TableKey) returns (before: LRUHandle?, found: LRUHandle?, ghost j: nat)
      requires Shape()
      ensures var chain := chains[Bucket(key.hash, length_)];
        && j <= |chain|
        && found == Link(chain, j)
        && (j == 0 ==> before == null) && (j > 0 ==> before == chain[j - 1])
        && (forall i :: 0 <= i < j ==> chain[i].key != key)
        && (found != null ==> found.key == key)
      ensures found == if key in members then members[key] else null
    {
      ghost var b := Bucket(key.hash, length_);
      ghost var chain := chains[b];
      ChainedAt(list_, chains, members.Values, length_, b);
      before, found, j := SearchChain(key, list_[Bucket(key.hash, length_)], chain);
      if found == null {
        AbsentFromBucket(chains, members, length_, key);
      } else {
        assert BucketAgrees(chains[b], members, length_, b);
        assert Belongs(chain[j], members, length_, b);
      }
    }

    method Lookup(key: TableKey) returns (e: LRUHandle?)
      requires Shape()
      ensures e == if key in members then members[key] else null
    {
      ghost var j: nat;
      var before: LRUHandle?;
      before, e, j := FindPointer(key);
    }

    /** Makes the slot before position `j` of bucket `b` point to `target`, the first of `tail`. */
    method SetSlot(b: nat, before: LRUHandle?, target: LRUHandle?, ghost j: nat, ghost tail: seq<LRUHandle>)
      requires b < length_ == |list_| == |chains| && j <= |chains[b]|
      requires forall c :: 0 <= c < length_ ==> Chained(list_[c], chains[c])
      requires forall c :: 0 <= c < length_ && c != b ==> Apart(chains[c], chains[b])
      requires (j == 0 ==> before == null) && (j > 0 ==> before == chains[b][j - 1])
      requires Chained(target, tail) && Apart(chains[b][..j], tail)
      modifies `list_, chains[b]`nextHash
      ensures |list_| == length_ && Chained(list_[b], chains[b][..j] + tail)
      ensures forall c :: 0 <= c < length_ && c != b ==> Chained(list_[c], chains[c])
    {
      ghost var chain := chains[b];
      if before == null {
        list_ := list_[b := target];
      } else {
        SetNext(chain, before, target, j, tail);
      }
      ChainSpliced(list_[b], chain, j, target, tail);
    }

    /** Gives bucket `b` the entries of `tail` from position `j` on. */
    method ReplaceTail(b: nat, before: LRUHandle?, target: LRUHandle?, ghost j: nat, ghost tail: seq<LRUHandle>)
      requires b < length_ == |list_| == |chains| && j <= |chains[b]|
      requires AllChained(list_, chains, members.Values, length_)
      requires forall c :: 0 <= c < length_ && c != b ==> Apart(chains[c], chains[b])
      requires (j == 0 ==> before == null) && (j > 0 ==> before == chains[b][j - 1])
      requires Chained(target, tail) && Apart(chains[b][..j], tail)
      modifies `list_, members.Values`nextHash, `chains
      ensures |list_| == length_ && chains == old(chains)[b := old(chains)[b][..j] + tail]
      ensures forall c :: 0 <= c < length_ ==> Chained(list_[c], chains[c])
    {
      forall c | 0 <= c < length_
        ensures Chained(list_[c], chains[c]) && forall x :: x in chains[c] ==> x in members.Values
      {
        ChainedAt(list_, chains, members.Values, length_, c);
      }
      SetSlot(b, before, target, j, tail);
      chains := chains[b := chains[b][..j] + tail];
    }

    /** Takes the entry at position `j` out of its bucket. */
    method Unlink(b: nat, before: LRUHandle?, found: LRUHandle, ghost j: nat, ghost members': map<TableKey, LRUHandle>)
      requires b < length_ == |list_| && Agree(chains, members, length_)
      requires AllChained(list_, chains, members.Values, length_)
      requires j < |chains[b]| && found == chains[b][j]
      requires (j == 0 ==> before == null) && (j > 0 ==> before == chains[b][j - 1])
      requires Agree(chains[b := chains[b][..j] + chains[b][j + 1..]], members', length_)
      modifies `list_, members.Values`nextHash, `chains
      ensures |list_| == length_ && chains == old(chains)[b := old(chains)[b][..j] + old(chains)[b][j + 1..]]
      ensures AllChained(list_, chains, members'.Values, length_)
    {
      ChainedAt(list_, chains, members.Values, length_, b);
      RestOfChain(list_[b], chains[b], j);
      BucketsApart(chains, members, length_, b);
      ReplaceTail(b, before, found.nextHash, j, chains[b][j + 1..]);
      ChainsAreMembers(chains, members', length_);
      ChainedEverywhere(list_, chains, members'.Values, length_);
    }

    /** Where a slot is: before position `j` of the key's bucket. */
    ghost predicate SlotAt(key: TableKey, before: LRUHandle?, j: nat)
      reads this
    {
      && 0 < length_ <= |chains|
      && var chain := chains[Bucket(key.hash, length_)];
      && j <= |chain|
      && (j == 0 ==> before == null) && (j > 0 ==> before == chain[j - 1])
    }

    lemma WithoutEntry(key: TableKey, j: nat)
      requires Shape()
      requires var chain := chains[Bucket(key.hash, length_)]; j < |chain| && chain[j].key == key
      ensures var b := Bucket(key.hash, length_);
        var chains' := chains[b := chains[b][..j] + chains[b][j + 1..]];
        Agree(chains', members - {key}, length_)
    {
      var b := Bucket(key.hash, length_);
      ChainedAt(list_, chains, members.Values, length_, b);
      RemoveAgrees(chains, members, length_, key, j);
    }

    method SetMembers(ghost members': map<TableKey, LRUHandle>, elems: nat)
      requires length_ == |list_| && length_ >= 16 && PowerOfTwo(length_)
      requires Agree(chains, members', length_) && AllChained(list_, chains, members'.Values, length_)
      requires elems == Total(chains, length_)
      modifies `members, `elems_
      ensures Shape() && members == members' && elems_ == elems
    {
      members, elems_ := members', elems;
    }

    method RemoveFound(key: TableKey, before: LRUHandle?, found: LRUHandle, ghost j: nat)
      requires Valid() && SlotAt(key, before, j) && key in members
      requires j < |chains[Bucket(key.hash, length_)]| && found == chains[Bucket(key.hash, length_)][j] &&
               found.key == key
      modifies `chains, `members, `elems_, `list_, members.Values`nextHash
      ensures Valid()
      ensures members == old(members) - {key}
    {
      ghost var b := Bucket(key.hash, length_);
      ghost var members' := members - {key};
      TotalUpdate(chains, b, chains[b][..j] + chains[b][j + 1..], length_);
      WithoutEntry(key, j);
      Unlink(Bucket(key.hash, length_), before, found, j, members');
      SetMembers(members', elems_ - 1);
    }

    method Remove(key: TableKey) returns (result: LRUHandle?)
      requires Valid()
      modifies `chains, `members, `elems_, `list_, members.Values`nextHash
      ensures Valid()
      ensures result == if key in old(members) then old(members)[key] else null
      ensures members == old(members) - {key}
    {
      ghost var j: nat;
      var before: LRUHandle?;
      before, result, j := FindPointer(key);
      if result == null {
        assert members - {key} == members;
      } else {
        RemoveFound(key, before, result, j);
      }
    }

    lemma WithNewEntry(h: LRUHandle, j: nat)
      requires Shape() && h !in members.Values
      requires var chain := chains[Bucket(h.key.hash, length_)];
        && j <= |chain|
        && (forall i :: 0 <= i < j ==> chain[i].key != h.key)
        && (j < |chain| ==> chain[j].key == h.key)
      ensures var b := Bucket(h.key.hash, length_);
        var chains' := chains[b := WithEntry(chains[b], j, h)];
        Agree(chains', members[h.key := h], length_)
    {
      var b := Bucket(h.key.hash, length_);
      ChainedAt(list_, chains, members.Values, length_, b);
      InsertAgrees(chains, members, length_, h, j);
    }

    method LinkEntry(h: LRUHandle, before: LRUHandle?, found: LRUHandle?, ghost j: nat,
                     ghost members': map<TableKey, LRUHandle>)
      requires length_ == |list_| && Agree(chains, members, length_) && h !in members.Values
      requires AllChained(list_, chains, members.Values, length_)
      requires SlotAt(h.key, before, j) && found == Link(chains[Bucket(h.key.hash, length_)], j)
      requires var b := Bucket(h.key.hash, length_); Agree(chains[b := WithEntry(chains[b], j, h)], members', length_)
      modifies `list_, h`nextHash, members.Values`nextHash, `chains
      ensures |list_| == length_
      ensures var b := Bucket(h.key.hash, length_); chains == old(chains)[b := WithEntry(old(chains)[b], j, h)]
      ensures AllChained(list_, chains, members'.Values, length_)
    {
      var b := Bucket(h.key.hash, length_);
      ghost var chain := chains[b];
      h.nextHash := if found == null then null else found.nextHash;
      ChainedAt(list_, chains, members.Values, length_, b);
      ChainWithEntry(list_[b], chain, j, h);
      BucketsApart(chains, members, length_, b);
      ReplaceTail(b, before, h, j, [h] + if j < |chain| then chain[j + 1..] else []);
      ChainsAreMembers(chains, members', length_);
      ChainedEverywhere(list_, chains, members'.Values, length_);
    }

    method InsertAt(h: LRUHandle, before: LRUHandle?, found: LRUHandle?, ghost j: nat)
      requires Valid() && h !in members.Values && SlotAt(h.key, before, j)
      requires var chain := chains[Bucket(h.key.hash, length_)];
        && found == Link(chain, j)
        && (forall i :: 0 <= i < j ==> chain[i].key != h.key)
        && (found != null ==> found.key == h.key)
      requires found != null <==> h.key in members
      modifies `chains, `members, `elems_, `list_, h`nextHash, members.Values`nextHash
      ensures Shape() && length_ == old(length_)
      ensures elems_ == if found == null then old(elems_) + 1 else old(elems_)
      ensures members == old(members)[h.key := h]
    {
      WithNewEntry(h, j);
      ghost var b := Bucket(h.key.hash, length_);
      TotalUpdate(chains, b, WithEntry(chains[b], j, h), length_);
      LinkEntry(h, before, found, j, members[h.key := h]);
      SetMembers(members[h.key := h], if found == null then elems_ + 1 else elems_);
    }

    /** The least of 16, 32, 64, ... with room for one and a half times the entries. */
    method NewLength() returns (n: nat)
      ensures n >= 16 && PowerOfTwo(n) && 2 * n >= 3 * elems_
      ensures n > 16 ==> n < 3 * elems_
    {
      n := 16;
      assert PowerOfTwo(2) && PowerOfTwo(4) && PowerOfTwo(8);
      while 2 * n < 3 * elems_
        invariant n >= 16 && PowerOfTwo(n) && (n > 16 ==> n < 3 * elems_)
        decreases 3 * elems_ - 2 * n
      {
        assert n * 2 % 2 == 0 && n * 2 / 2 == n;
        n := n * 2;
      }
    }

    /** The counter is the number of entries in the map. */
    lemma CountsEntries()
      requires Shape()
      ensures elems_ == |members|
    {
      forall c | 0 <= c < length_ ensures Distinct(chains[c]) {
        ChainedAt(list_, chains, members.Values, length_, c);
      }
      MovedMapSize(chains, members, length_, length_);
      MovedMapIsMoved(chains, members, length_, length_);
    }

    lemma StartRehash()
      requires Shape()
      ensures Remains(RestFrom(list_, chains, 0))
      ensures AllReady(chains, members.Values) && MovedMap(chains, length_) == members
    {
      AllIsRest(list_, chains, members.Values, 0);
      forall c | 0 <= c < length_ ensures Distinct(chains[c]) && forall x :: x in chains[c] ==> x in members.Values {
        ChainedAt(list_, chains, members.Values, length_, c);
      }
      forall i | 0 <= i < length_ ensures Ready(chains, i) {
        BucketIsReady(chains, members, length_, i);
      }
      MovedMapIsMoved(chains, members, length_, length_);
    }

    method Adopt(list: seq<LRUHandle?>, n: nat, ghost chains': seq<seq<LRUHandle>>)
      requires n == |list| && Agree(chains', members, n) && AllChained(list, chains', members.Values, n)
      requires elems_ == Total(chains', n)
      modifies `list_, `length_, `chains
      ensures list_ == list && length_ == n && chains == chains'
      ensures AllChained(list_, chains, members.Values, length_) && elems_ == Total(chains, length_)
    {
      list_, length_, chains := list, n, chains';
    }

    /** Makes room for one and a half times the entries; the map and the count stay. */
    method Resize()
      requires Shape()
      modifies `list_, `length_, `chains, members.Values`nextHash
      ensures Valid()
      ensures members == old(members) && elems_ == old(elems_)
    {
      var newLength := NewLength();
      var empty, chains0, moved0 := EmptyBuckets(newLength);
      StartRehash();
      var newList, count, newChains, moved := MoveAll(empty, newLength, list_, chains, members.Values, chains0, moved0);
      assert elems_ == count;
      Adopt(newList, newLength, newChains);
    }

    /** Adds `h`, in place of the entry with the same key if there is one, which is returned. */
    method Insert(h: LRUHandle) returns (found: LRUHandle?)
      requires Valid() && h !in members.Values
      modifies `list_, `length_, `chains, `members, `elems_, h`nextHash, members.Values`nextHash
      ensures Valid()
      ensures found == if h.key in old(members) then old(members)[h.key] else null
      ensures members == old(members)[h.key := h]
    {
      ghost var j: nat;
      var before: LRUHandle?;
      before, found, j := FindPointer(h.key);
      InsertAt(h, before, found, j);
      if found == null && elems_ > length_ {
        Resize();
      }
    }
  }
}
