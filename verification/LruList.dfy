/** The intrusive, circular, doubly linked list of the LRU cache. */
module LruList {
  import opened LruHandles
  import opened LruTable

  function After(nodes: seq<LRUHandle>, i: nat): LRUHandle
    requires i < |nodes|
  {
    if i + 1 < |nodes| then nodes[i + 1] else nodes[0]
  }

  function PlaceBefore(i: nat, n: nat): nat
    requires i < n
  {
    if i == 0 then n - 1 else i - 1
  }

  function Before(nodes: seq<LRUHandle>, i: nat): LRUHandle
    requires i < |nodes|
  {
    nodes[PlaceBefore(i, |nodes|)]
  }

  /** The nodes are linked in a circle in this order, both ways. */
  ghost predicate Ring(nodes: seq<LRUHandle>)
    reads nodes`next, nodes`prev
  {
    && nodes != [] && Distinct(nodes)
    && (forall i {:trigger nodes[i].next} :: 0 <= i < |nodes| ==> nodes[i].next == After(nodes, i))
    && (forall i {:trigger nodes[i].prev} :: 0 <= i < |nodes| ==> nodes[i].prev == Before(nodes, i))
  }

  function Without(nodes: seq<LRUHandle>, k: nat): seq<LRUHandle>
    requires k < |nodes|
  {
    nodes[..k] + nodes[k + 1..]
  }

  function WithAfter(nodes: seq<LRUHandle>, k: nat, e: LRUHandle): seq<LRUHandle>
    requires k < |nodes|
  {
    nodes[..k + 1] + ([e] + nodes[k + 1..])
  }

  lemma {:induction false} WithoutIsDistinct(nodes: seq<LRUHandle>, k: nat)
    requires Distinct(nodes) && k < |nodes|
    ensures Distinct(Without(nodes, k)) && nodes[k] !in Without(nodes, k)
  {
    if k == 0 {
      assert Without(nodes, 0) == nodes[1..];
    } else {
      var rest := nodes[1..];
      WithoutIsDistinct(rest, k - 1);
      assert rest[k - 1] == nodes[k];
      assert Without(nodes, k) == [nodes[0]] + Without(rest, k - 1);
      assert Without(nodes, k)[1..] == Without(rest, k - 1);
    }
  }

  lemma WithAfterIsDistinct(nodes: seq<LRUHandle>, k: nat, e: LRUHandle)
    requires Distinct(nodes) && k < |nodes| && e !in nodes
    ensures Distinct(WithAfter(nodes, k, e))
  {
    assert nodes == nodes[..k + 1] + nodes[k + 1..];
    DistinctParts(nodes[..k + 1], nodes[k + 1..]);
    DistinctParts([e], nodes[k + 1..]);
    DistinctParts(nodes[..k + 1], [e] + nodes[k + 1..]);
  }

  lemma NextWithout(nodes: seq<LRUHandle>, k: nat, i: nat)
    requires 0 < k < |nodes| && i < |nodes| - 1
    requires forall i {:trigger nodes[i].next} :: 0 <= i < |nodes| && i != k ==>
      nodes[i].next == if i == k - 1 then After(nodes, k) else After(nodes, i)
    ensures var nodes' := Without(nodes, k); nodes'[i].next == After(nodes', i)
  {
    var j := if i < k then i else i + 1;
    assert Without(nodes, k)[i] == nodes[j] && nodes[j].next == if j == k - 1 then After(nodes, k) else After(nodes, j);
  }

  lemma PrevWithout(nodes: seq<LRUHandle>, k: nat, i: nat)
    requires 0 < k < |nodes| && i < |nodes| - 1
    requires forall i {:trigger nodes[i].prev} :: 0 <= i < |nodes| && i != k ==>
      nodes[i].prev == if PlaceBefore(i, |nodes|) == k then nodes[k - 1] else Before(nodes, i)
    ensures var nodes' := Without(nodes, k); nodes'[i].prev == Before(nodes', i)
  {
    var j := if i < k then i else i + 1;
    assert Without(nodes, k)[i] == nodes[j];
    assert nodes[j].prev == if PlaceBefore(j, |nodes|) == k then nodes[k - 1] else Before(nodes, j);
  }

  lemma RingWithout(nodes: seq<LRUHandle>, k: nat)
    requires 0 < k < |nodes| && Distinct(nodes)
    requires forall i {:trigger nodes[i].next} :: 0 <= i < |nodes| && i != k ==>
      nodes[i].next == if i == k - 1 then After(nodes, k) else After(nodes, i)
    requires forall i {:trigger nodes[i].prev} :: 0 <= i < |nodes| && i != k ==>
      nodes[i].prev == if PlaceBefore(i, |nodes|) == k then nodes[k - 1] else Before(nodes, i)
    ensures Ring(Without(nodes, k))
  {
    WithoutIsDistinct(nodes, k);
    forall i: nat | i < |nodes| - 1
      ensures var nodes' := Without(nodes, k); nodes'[i].next == After(nodes', i) && nodes'[i].prev == Before(nodes', i)
    {
      NextWithout(nodes, k, i);
      PrevWithout(nodes, k, i);
    }
  }

  /** Takes the node at position `k` out of the ring. */
  method Unlink(e: LRUHandle, ghost nodes: seq<LRUHandle>, ghost k: nat)
    requires Ring(nodes) && 0 < k < |nodes| && e == nodes[k]
    modifies nodes`next, nodes`prev
    ensures Ring(Without(nodes, k)) && e.next == null && e.prev == null
  {
    forall i, j | 0 <= i < j < |nodes| ensures nodes[i] != nodes[j] {
      DistinctAt(nodes, i, j);
    }
    assert e.next == After(nodes, k) && e.prev == Before(nodes, k);
    e.next.prev := e.prev;
    e.prev.next := e.next;
    e.prev, e.next := null, null;
    RingWithout(nodes, k);
  }

  lemma NextWithAfter(nodes: seq<LRUHandle>, k: nat, e: LRUHandle, i: nat)
    requires k < |nodes| && i <= |nodes|
    requires forall i {:trigger nodes[i].next} :: 0 <= i < |nodes| ==>
               nodes[i].next == if i == k then e else After(nodes, i)
    requires e.next == After(nodes, k)
    ensures var nodes' := WithAfter(nodes, k, e); nodes'[i].next == After(nodes', i)
  {
    if i != k + 1 {
      var j := if i <= k then i else i - 1;
      assert WithAfter(nodes, k, e)[i] == nodes[j] && nodes[j].next == if j == k then e else After(nodes, j);
    }
  }

  lemma PrevWithAfter(nodes: seq<LRUHandle>, k: nat, e: LRUHandle, i: nat)
    requires k < |nodes| && i <= |nodes|
    requires forall i {:trigger nodes[i].prev} :: 0 <= i < |nodes| ==>
      nodes[i].prev == if PlaceBefore(i, |nodes|) == k then e else Before(nodes, i)
    requires e.prev == nodes[k]
    ensures var nodes' := WithAfter(nodes, k, e); nodes'[i].prev == Before(nodes', i)
  {
    if i != k + 1 {
      var j := if i <= k then i else i - 1;
      assert WithAfter(nodes, k, e)[i] == nodes[j];
      assert nodes[j].prev == if PlaceBefore(j, |nodes|) == k then e else Before(nodes, j);
    }
  }

  lemma RingWithAfter(nodes: seq<LRUHandle>, k: nat, e: LRUHandle)
    requires k < |nodes| && Distinct(nodes) && e !in nodes
    requires forall i {:trigger nodes[i].next} :: 0 <= i < |nodes| ==>
               nodes[i].next == if i == k then e else After(nodes, i)
    requires forall i {:trigger nodes[i].prev} :: 0 <= i < |nodes| ==>
      nodes[i].prev == if PlaceBefore(i, |nodes|) == k then e else Before(nodes, i)
    requires e.next == After(nodes, k) && e.prev == nodes[k]
    ensures Ring(WithAfter(nodes, k, e))
  {
    WithAfterIsDistinct(nodes, k, e);
    forall i: nat | i < |WithAfter(nodes, k, e)|
      ensures var nodes' := WithAfter(nodes, k, e);
        nodes'[i].next == After(nodes', i) && nodes'[i].prev == Before(nodes', i)
    {
      NextWithAfter(nodes, k, e, i);
      PrevWithAfter(nodes, k, e, i);
    }
  }

  /** Puts a new node between the node at position `k` and the one after it. */
  method LinkBetween(p: LRUHandle, n: LRUHandle, e: LRUHandle, ghost nodes: seq<LRUHandle>, ghost k: nat)
    requires Ring(nodes) && k < |nodes| && p == nodes[k] && n == After(nodes, k) && e !in nodes
    modifies e`next, e`prev, nodes`next, nodes`prev
    ensures Ring(WithAfter(nodes, k, e))
  {
    forall i, j | 0 <= i < j < |nodes| ensures nodes[i] != nodes[j] {
      DistinctAt(nodes, i, j);
    }
    e.next := n;
    e.prev := p;
    e.prev.next := e;
    e.next.prev := e;
    RingWithAfter(nodes, k, e);
  }
}
