/** The writer into 64 KB blocks that are handed to a sink at the end. */
module ScatteredWriter {
  import opened Bytes
  import opened SelfCopy
  import opened ArrayWriter

  lemma CopyOne(out: seq<byte>, offset: nat)
    requires 0 < offset <= |out|
    ensures CopyFromSelf(out, offset, 1) == out + [out[|out| - offset]]
  {
  }

  /** All blocks but the last are full-sized and full; block and offset come from the high and low
      bits of a position. */
  class SnappyScatteredWriter {
    var blocks: seq<array<byte>>
    var expected: nat
    var fullSize: nat
    var opPtr: nat
    var opLimit: nat
    ghost var out: seq<byte>

    ghost predicate Shape()
      reads this
    {
      && (forall i, j :: 0 <= i < j < |blocks| ==> blocks[i] != blocks[j])
      && (forall i :: 0 <= i < |blocks| - 1 ==> blocks[i].Length == BLOCK_SIZE)
      && opPtr <= opLimit && expected < TWO32
      && (blocks == [] ==> fullSize == 0 && opLimit == 0)
      && (blocks != [] ==>
            && fullSize == BLOCK_SIZE * (|blocks| - 1)
            && opLimit == blocks[|blocks| - 1].Length <= BLOCK_SIZE
            && (opLimit == BLOCK_SIZE || fullSize + opLimit == expected)
            && fullSize + opLimit <= expected)
    }

    ghost predicate Valid()
      reads this, blocks
    {
      && Shape() && |out| == fullSize + opPtr
      && (forall i, k {:trigger blocks[i][k]} ::
          0 <= i < |blocks| && 0 <= k < blocks[i].Length && BLOCK_SIZE * i + k < |out| ==>
            blocks[i][k] == out[BLOCK_SIZE * i + k])
    }

    constructor ()
      ensures Valid() && out == [] && blocks == [] && expected == 0
    {
      blocks := [];
      expected, fullSize, opPtr, opLimit := 0, 0, 0, 0;
      out := [];
    }

    method SetExpectedLength(len: nat)
      requires Valid() && blocks == [] && len < TWO32
      modifies this`expected
      ensures Valid() && expected == len
    {
      expected := len;
    }

    function Size(): nat
      reads this
    {
      fullSize + opPtr
    }

    predicate CheckLength()
      reads this
    {
      Size() == expected
    }

    /** Bytes written at the cursor; of them `n` count. */
    method WriteHere(bytes: seq<byte>, n: nat)
      requires Valid() && n <= |bytes| && opPtr + |bytes| <= opLimit
      modifies this`opPtr, this`out, blocks
      ensures Valid() && out == old(out) + bytes[..n]
    {
      if blocks != [] {
        var op := blocks[|blocks| - 1];
        forall k | 0 <= k < |bytes| {
          op[opPtr + k] := bytes[k];
        }
      }
      opPtr := opPtr + n;
      out := out + bytes[..n];
    }

    /** The current block is full and more is to come: a new block, as large as is still needed. */
    method NewBlock()
      requires forall i, j :: 0 <= i < j < |blocks| ==> blocks[i] != blocks[j]
      requires forall i :: 0 <= i < |blocks| ==> blocks[i].Length == BLOCK_SIZE
      requires |out| == fullSize == BLOCK_SIZE * |blocks| && fullSize < expected < TWO32
      requires forall i, k {:trigger blocks[i][k]} :: 0 <= i < |blocks| && 0 <= k < blocks[i].Length ==>
                                                        blocks[i][k] == out[BLOCK_SIZE * i + k]
      modifies this`blocks, this`opPtr, this`opLimit
      ensures Valid() && out == old(out) && opPtr < opLimit
      ensures forall i {:trigger blocks[i]} :: 0 <= i < |blocks| ==> blocks[i] in old(blocks) || fresh(blocks[i])
    {
      var bsize := if BLOCK_SIZE < expected - fullSize then BLOCK_SIZE else expected - fullSize;
      var block := new byte[bsize];
      blocks := blocks + [block];
      opPtr, opLimit := 0, bsize;
    }

    /** One round of SlowAppend: fill the current block, check the bound, go on in a new block. A
        refusal comes after part of the bytes have been written and the size has been counted twice. */
    method FillBlock(bytes: seq<byte>) returns (ok: bool)
      requires Valid() && |bytes| > opLimit - opPtr
      modifies this`blocks, this`fullSize, this`opPtr, this`opLimit, this`out, blocks
      ensures forall i {:trigger blocks[i]} :: 0 <= i < |blocks| ==> blocks[i] in old(blocks) || fresh(blocks[i])
      ensures ok <==> Fits(old(out), expected, |bytes|)
      ensures ok ==> Valid() && out == old(out) + bytes[..old(opLimit) - old(opPtr)] && opPtr < opLimit
    {
      var avail := opLimit - opPtr;
      WriteHere(bytes[..avail], avail);
      fullSize := fullSize + opPtr;
      if fullSize + (|bytes| - avail) > expected {
        return false;
      }
      NewBlock();
      return true;
    }

    method SlowAppend(bytes: seq<byte>) returns (ok: bool)
      requires Valid()
      modifies this`blocks, this`fullSize, this`opPtr, this`opLimit, this`out, blocks
      ensures forall i {:trigger blocks[i]} :: 0 <= i < |blocks| ==> blocks[i] in old(blocks) || fresh(blocks[i])
      ensures ok <==> Fits(old(out), expected, |bytes|)
      ensures ok ==> Valid() && out == old(out) + bytes
    {
      var left := bytes;
      while |left| > opLimit - opPtr
        invariant Valid() && |left| <= |bytes| && out + left == old(out) + bytes
        invariant forall i {:trigger blocks[i]} :: 0 <= i < |blocks| ==> blocks[i] in old(blocks) || fresh(blocks[i])
        decreases |left|, if opPtr == opLimit then 1 else 0
      {
        var avail := opLimit - opPtr;
        ok := FillBlock(left);
        if !ok {
          return false;
        }
        assert left == left[..avail] + left[avail..];
        left := left[avail..];
      }
      WriteHere(left, |left|);
      return true;
    }

    method Append(bytes: seq<byte>) returns (ok: bool)
      requires Valid()
      modifies this`blocks, this`fullSize, this`opPtr, this`opLimit, this`out, blocks
      ensures forall i {:trigger blocks[i]} :: 0 <= i < |blocks| ==> blocks[i] in old(blocks) || fresh(blocks[i])
      ensures ok <==> Fits(old(out), expected, |bytes|)
      ensures ok ==> Valid() && out == old(out) + bytes
    {
      if |bytes| <= opLimit - opPtr {
        WriteHere(bytes, |bytes|);
        assert bytes[..|bytes|] == bytes;
        return true;
      }
      ok := SlowAppend(bytes);
    }

    method TryFastAppend(src: seq<byte>, available: nat, len: nat) returns (ok: bool)
      requires Valid() && available <= |src|
      modifies this`opPtr, this`out, blocks
      ensures Valid()
      ensures ok <==> len <= 16 && available >= 16 + 5 && opLimit - old(opPtr) >= 16
      ensures ok ==> out == old(out) + src[..len]
      ensures !ok ==> out == old(out)
    {
      if len <= 16 && available >= 16 + 5 && opLimit - opPtr >= 16 {
        WriteHere(src[..16], len);
        SubSlice(src, 0, 16, len);
        return true;
      }
      return false;
    }

    lemma Locate(p: nat)
      requires Valid() && p < |out|
      ensures p / BLOCK_SIZE < |blocks| && p % BLOCK_SIZE < blocks[p / BLOCK_SIZE].Length
      ensures blocks[p / BLOCK_SIZE][p % BLOCK_SIZE] == out[p]
    {
      var i, k := p / BLOCK_SIZE, p % BLOCK_SIZE;
      assert p == BLOCK_SIZE * i + k;
      assert i < |blocks|;
      assert blocks[i][k] == out[BLOCK_SIZE * i + k];
    }

    /** One byte of a slow self-copy, found through its block. */
    method CopyByte(src: nat)
      requires Valid() && src < |out| && Fits(out, expected, 1)
      modifies this`blocks, this`fullSize, this`opPtr, this`opLimit, this`out, blocks
      ensures forall i {:trigger blocks[i]} :: 0 <= i < |blocks| ==> blocks[i] in old(blocks) || fresh(blocks[i])
      ensures Valid() && out == old(out) + [old(out)[src]]
    {
      Locate(src);
      var c := blocks[src / BLOCK_SIZE][src % BLOCK_SIZE];
      var ok := Append([c]);
    }

    /** The next byte of a slow self-copy of `before`, of which `done` bytes have been written. */
    method CopyNext(src: nat, ghost before: seq<byte>, ghost offset: nat, ghost done: nat)
      requires Valid() && 0 < offset <= |before| && Fits(out, expected, 1)
      requires out == CopyFromSelf(before, offset, done) && src == |before| - offset + done
      modifies this`blocks, this`fullSize, this`opPtr, this`opLimit, this`out, blocks
      ensures forall i {:trigger blocks[i]} :: 0 <= i < |blocks| ==> blocks[i] in old(blocks) || fresh(blocks[i])
      ensures Valid() && out == CopyFromSelf(before, offset, done + 1)
    {
      CopySplit(before, offset, done, 1);
      CopyOne(out, offset);
      CopyByte(src);
    }

    /** Byte by byte through the blocks, from `offset` behind the end. */
    method SlowAppendFromSelf(offset: nat, len: nat) returns (ok: bool)
      requires Valid() && offset < TWO64
      modifies this`blocks, this`fullSize, this`opPtr, this`opLimit, this`out, blocks
      ensures forall i {:trigger blocks[i]} :: 0 <= i < |blocks| ==> blocks[i] in old(blocks) || fresh(blocks[i])
      ensures ok <==> CopyFits(old(out), expected, offset, len)
      ensures ok ==> Valid() && out == CopyFromSelf(old(out), offset, len)
    {
      var cur := Size();
      if MinusOneWrapped(offset) >= cur {
        return false;
      }
      if expected - cur < len {
        return false;
      }
      var src := cur - offset;
      var left: nat := len;
      while left > 0
        invariant left <= len && src == cur - offset + len - left
        invariant Valid()
        invariant out == CopyFromSelf(old(out), offset, len - left)
        invariant forall i {:trigger blocks[i]} :: 0 <= i < |blocks| ==> blocks[i] in old(blocks) || fresh(blocks[i])
      {
        CopyNext(src, old(out), offset, len - left);
        left := left - 1;
        src := src + 1;
      }
      return true;
    }

    /** A self-copy of the output that starts in the current block is one of the block. */
    lemma CopyOfOutput(offset: nat, n: nat)
      requires Valid() && 0 < offset <= opPtr
      ensures blocks != [] && fullSize <= |out|
      ensures CopyFromSelf(out, offset, n) == out[..fullSize] + CopyFromSelf(blocks[|blocks| - 1][..opPtr], offset, n)
    {
      var b := blocks[|blocks| - 1];
      forall k | 0 <= k < opPtr
        ensures b[..opPtr][k] == out[fullSize..][k]
      {
        assert blocks[|blocks| - 1][k] == out[BLOCK_SIZE * (|blocks| - 1) + k];
      }
      assert b[..opPtr] == out[fullSize..];
      assert out == out[..fullSize] + b[..opPtr];
      CopyInSuffix(out[..fullSize], b[..opPtr], offset, n);
    }

    /** All blocks before the current one, one after the other, are `front`. */
    ghost predicate FrontIs(front: seq<byte>)
      reads this, blocks
    {
      |front| == fullSize &&
      forall i, k {:trigger blocks[i][k]} :: 0 <= i < |blocks| - 1 && 0 <= k < blocks[i].Length ==>
                                               BLOCK_SIZE * i + k < |front| && blocks[i][k] == front[BLOCK_SIZE * i + k]
    }

    /** After `n` bytes have appeared behind the cursor in the current block: move the cursor. */
    method Advance(n: nat, ghost front: seq<byte>, ghost result: seq<byte>)
      requires Shape() && blocks != [] && opPtr + n <= opLimit && FrontIs(front)
      requires result == front + blocks[|blocks| - 1][..opPtr + n]
      modifies this`opPtr, this`out
      ensures Valid() && out == result
    {
      opPtr := opPtr + n;
      out := result;
    }

    lemma FrontBlocks()
      requires Valid() && blocks != []
      ensures fullSize <= |out| && FrontIs(out[..fullSize])
    {
    }

    /** IncrementalCopy within the current block; no other block changes. */
    method CopyBytes(offset: nat, len: nat, ghost front: seq<byte>)
      requires Shape() && blocks != [] && 0 < offset <= opPtr && opPtr + len <= opLimit
      requires FrontIs(front)
      modifies blocks
      ensures Shape() && FrontIs(front)
      ensures blocks[|blocks| - 1][..opPtr + len] == CopyFromSelf(old(blocks[|blocks| - 1][..opPtr]), offset, len)
    {
      var b := blocks[|blocks| - 1];
      var opEnd := IncrementalCopy(b, opPtr - offset, opPtr, opPtr + len, opLimit);
    }

    /** The fast path: source and destination in the current block. */
    method CopyInBlock(offset: nat, len: nat)
      requires Valid() && blocks != [] && 0 < offset <= opPtr && opPtr + len <= opLimit
      modifies this`opPtr, this`out, blocks
      ensures Valid() && offset <= old(|out|) && out == CopyFromSelf(old(out), offset, len)
    {
      ghost var front := out[..fullSize];
      ghost var result := CopyFromSelf(out, offset, len);
      CopyOfOutput(offset, len);
      FrontBlocks();
      CopyBytes(offset, len, front);
      Advance(len, front, result);
    }

    method AppendFromSelf(offset: nat, len: nat) returns (ok: bool)
      requires Valid() && offset < TWO64
      modifies this`blocks, this`fullSize, this`opPtr, this`opLimit, this`out, blocks
      ensures forall i {:trigger blocks[i]} :: 0 <= i < |blocks| ==> blocks[i] in old(blocks) || fresh(blocks[i])
      ensures ok <==> CopyFits(old(out), expected, offset, len)
      ensures ok ==> Valid() && out == CopyFromSelf(old(out), offset, len)
    {
      if MinusOneWrapped(offset) < opPtr && opPtr + len <= opLimit {
        CopyInBlock(offset, len);
        return true;
      }
      ok := SlowAppendFromSelf(offset, len);
    }

    /** What the allocator hands to the sink, block by block. */
    method Flush() returns (flushed: seq<byte>)
      ensures Valid() ==> flushed == out
    {
      flushed := [];
      var size := Size();
      var sizeWritten := 0;
      var i := 0;
      while i < |blocks|
        invariant i <= |blocks| && sizeWritten == |flushed| <= size
        invariant Valid() ==> flushed == out[..if BLOCK_SIZE * i < |out| then BLOCK_SIZE * i else |out|]
      {
        var b := blocks[i];
        var blockSize := if b.Length < size - sizeWritten then b.Length else size - sizeWritten;
        if Valid() {
          BlockIsOutput(i, sizeWritten, blockSize);
        }
        flushed := flushed + b[..blockSize];
        sizeWritten := sizeWritten + blockSize;
        i := i + 1;
      }
    }

    lemma BlockIsOutput(i: nat, at: nat, n: nat)
      requires Valid() && i < |blocks| && at == (if BLOCK_SIZE * i < |out| then BLOCK_SIZE * i else |out|)
      requires n <= blocks[i].Length && at + n <= |out|
      ensures out[..at] + blocks[i][..n] == out[..at + n]
      ensures n == blocks[i].Length || at + n == |out| ==>
                at + n == if BLOCK_SIZE * (i + 1) < |out| then BLOCK_SIZE * (i + 1) else |out|
    {
    }
  }
}
