/** Entries of the LRU cache, and sums of their charges. */
module LruHandles {
  datatype TableKey = TableKey(data: string, hash: nat)

  /** An entry: key and total charge are fixed, the rest changes in place. `nextHash` belongs to the
      hash table, `next` and `prev` to the LRU list. */
  class LRUHandle {
    const key: TableKey
    const charge: nat
    const isHighPri: bool
    var refs: nat
    var inCache: bool
    var inHighPriPool: bool
    var hasHit: bool
    var nextHash: LRUHandle?
    var next: LRUHandle?
    var prev: LRUHandle?

    constructor (key: TableKey, charge: nat, isHighPri: bool)
      ensures this.key == key && this.charge == charge && this.isHighPri == isHighPri
      ensures refs == 0 && inCache && !inHighPriPool && !hasHit
      ensures next == null && prev == null
    {
      this.key, this.charge, this.isHighPri := key, charge, isHighPri;
      refs, inCache, inHighPriPool, hasHit := 0, true, false, false;
      nextHash, next, prev := null, null, null;
    }
  }
}
