/** The writer into several buffers. */
module IOVecWriter {
  import opened Bytes
  import opened SelfCopy
  import opened ArrayWriter

  /** Where buffer `i` begins when all buffers are laid end to end. */
  function Start(iov: seq<array<byte>>, i: nat): nat
    requires i <= |iov|
  {
    if i == 0 then 0 else Start(iov, i - 1) + iov[i - 1].Length
  }

  lemma {:induction false} StartMonotone(iov: seq<array<byte>>, i: nat, j: nat)
    requires i <= j <= |iov|
    ensures Start(iov, i) <= Start(iov, j)
    ensures i < j ==> Start(iov, i) + iov[i].Length <= Start(iov, j)
    decreases j - i
  {
    if i < j - 1 {
      StartMonotone(iov, i, j - 1);
    }
  }

  class SnappyIOVecWriter {
    const iov: seq<array<byte>>
    var index: nat
    var written: nat
    var total: nat
    var limit: nat
    ghost var out: seq<byte>

    /** The cursor is inside the buffers, which have room for the announced length. */
    ghost predicate CursorOk()
      reads this
    {
      && (forall i, j :: 0 <= i < j < |iov| ==> iov[i] != iov[j])
      && total <= limit < TWO32 && limit <= Start(iov, |iov|)
      && (index < |iov| || (index == 0 && written == 0 && |iov| == 0))
      && (index < |iov| ==> written <= iov[index].Length)
      && total == Start(iov, index) + written
    }

    /** Laid end to end, the buffers start with what has been written. */
    ghost predicate Valid()
      reads this, iov
    {
      && CursorOk() && |out| == total
      && (forall i, k {:trigger iov[i][k]} :: 0 <= i < |iov| && 0 <= k < iov[i].Length && Start(iov, i) + k < total ==>
                                                iov[i][k] == out[Start(iov, i) + k])
    }

    constructor (iov: seq<array<byte>>)
      requires forall i, j :: 0 <= i < j < |iov| ==> iov[i] != iov[j]
      ensures this.iov == iov && Valid() && out == [] && limit == 0
    {
      this.iov := iov;
      index, written, total, limit := 0, 0, 0, 0;
      out := [];
    }

    method SetExpectedLength(len: nat)
      requires Valid() && total <= len < TWO32 && len <= Start(iov, |iov|)
      modifies this`limit
      ensures Valid() && limit == len
    {
      limit := len;
    }

    predicate CheckLength()
      reads this
    {
      total == limit
    }

    /** Bytes written at the cursor, within the current buffer; `slack` more may be scribbled on. */
    method WriteHere(bytes: seq<byte>, n: nat)
      requires Valid() && index < |iov| && n <= |bytes|
      requires written + |bytes| <= iov[index].Length && total + |bytes| <= limit
      modifies this`written, this`total, this`out, iov
      ensures Valid() && out == old(out) + bytes[..n] && index == old(index)
      ensures forall i, k {:trigger iov[i][k]} ::
          0 <= i < |iov| && 0 <= k < iov[i].Length && Start(iov, i) + k >= limit ==>
            iov[i][k] == old(iov[i][k])
    {
      var a := iov[index];
      forall k | 0 <= k < |bytes| {
        a[written + k] := bytes[k];
      }
      written := written + n;
      total := total + n;
      out := out + bytes[..n];
      forall i, k | 0 <= i < |iov| && 0 <= k < iov[i].Length && Start(iov, i) + k < total
        ensures iov[i][k] == out[Start(iov, i) + k]
      {
        if i < index {
          StartMonotone(iov, i, index);
        } else if i > index {
          StartMonotone(iov, index, i);
        }
      }
      forall i, k | 0 <= i < |iov| && 0 <= k < iov[i].Length && Start(iov, i) + k >= limit
        ensures iov[i][k] == old(iov[i][k])
      {
      }
    }

    /** Nothing at or past the announced length has been touched. */
    twostate predicate PastLimitKept()
      reads this, iov
    {
      limit == old(limit) &&
      forall i, k {:trigger iov[i][k]} :: 0 <= i < |iov| && 0 <= k < iov[i].Length && Start(iov, i) + k >= limit ==>
                                            iov[i][k] == old(iov[i][k])
    }

    /** What the buffers hold from position `len` on. */
    ghost function BeyondFrom(len: nat): seq<seq<byte>>
      reads this, iov
    {
      seq(|iov|, i requires 0 <= i < |iov| reads this, iov => BeyondIn(i, len))
    }

    ghost function BeyondIn(i: nat, len: nat): seq<byte>
      requires i < |iov|
      reads this, iov
    {
      var start := Start(iov, i);
      if len <= start then iov[i][..]
      else if len - start <= iov[i].Length then iov[i][len - start..]
      else []
    }

    twostate lemma KeptIsBeyond()
      requires PastLimitKept()
      ensures BeyondFrom(limit) == old(BeyondFrom(limit))
    {
      forall i | 0 <= i < |iov|
        ensures BeyondIn(i, limit) == old(BeyondIn(i, limit))
      {
        var b := BeyondIn(i, limit);
        var start := Start(iov, i);
        var cut := if limit <= start then 0 else limit - start;
        forall k | 0 <= k < |b|
          ensures b[k] == old(BeyondIn(i, limit))[k]
        {
          assert b[k] == iov[i][cut + k];
          assert old(BeyondIn(i, limit))[k] == old(iov[i][cut + k]);
        }
      }
    }

    /** A full buffer that is not the end: move on. Some buffer must follow. */
    method NextBuffer()
      requires Valid() && index < |iov| && written == iov[index].Length && total < limit
      modifies this`index, this`written
      ensures Valid() && out == old(out) && index == old(index) + 1
    {
      if index + 1 >= |iov| {
        assert false;
      }
      index := index + 1;
      written := 0;
    }

    method Append(bytes: seq<byte>) returns (ok: bool)
      requires Valid()
      modifies this`index, this`written, this`total, this`out, iov
      ensures Valid() && PastLimitKept()
      ensures ok <==> Fits(old(out), limit, |bytes|)
      ensures out == if ok then old(out) + bytes else old(out)
      ensures old(index) <= index
    {
      if total + |bytes| > limit {
        return false;
      }
      var ip := 0;
      assert old(out) + bytes[..0] == old(out);
      while ip < |bytes|
        invariant Valid() && PastLimitKept()
        invariant ip <= |bytes| && total + |bytes| - ip <= limit && old(index) <= index
        invariant out == old(out) + bytes[..ip]
        decreases |bytes| - ip, |iov| - index
      {
        NonEmpty();
        if written >= iov[index].Length {
          NextBuffer();
        }
        var room := iov[index].Length - written;
        var toWrite := if |bytes| - ip < room then |bytes| - ip else room;
        var piece := bytes[ip..ip + toWrite];
        WriteHere(piece, toWrite);
        assert bytes[..ip] + piece[..toWrite] == bytes[..ip + toWrite];
        ip := ip + toWrite;
      }
      assert bytes[..|bytes|] == bytes;
      return true;
    }

    lemma NonEmpty()
      requires CursorOk() && total < limit
      ensures index < |iov|
    {
    }

    method TryFastAppend(src: seq<byte>, available: nat, len: nat) returns (ok: bool)
      requires Valid() && available <= |src|
      modifies this`written, this`total, this`out, iov
      ensures Valid() && PastLimitKept()
      ensures ok <==> len <= 16 && available >= 16 + 5 && limit - old(total) >= 16 && index < |iov| &&
                      iov[index].Length - old(written) >= 16
      ensures ok ==> out == old(out) + src[..len]
      ensures !ok ==> out == old(out)
    {
      var spaceLeft := limit - total;
      if len <= 16 && available >= 16 + 5 && spaceLeft >= 16 && iov[index].Length - written >= 16 {
        WriteHere(src[..16], len);
        SubSlice(src, 0, 16, len);
        return true;
      }
      return false;
    }

    /** Walk back from the cursor to the byte `offset` behind it. */
    method LocateSource(offset: nat) returns (from: nat, fromOffset: nat)
      requires Valid() && 0 < offset <= total && index < |iov|
      ensures from <= index && fromOffset <= iov[from].Length
      ensures Start(iov, from) + fromOffset + offset == total
    {
      var left := offset;
      from, fromOffset := index, written;
      while left > fromOffset
        invariant from <= index && fromOffset <= iov[from].Length && 0 < left
        invariant Start(iov, from) + fromOffset + offset == total + left
        decreases from
      {
        left := left - fromOffset;
        assert from > 0;
        from := from - 1;
        fromOffset := iov[from].Length;
      }
      fromOffset := fromOffset - left;
    }

    /** The bytes in buffer `i` from `k` on, as part of the output. */
    lemma BufferIsOutput(i: nat, k: nat, n: nat)
      requires Valid() && i < |iov| && k + n <= iov[i].Length && Start(iov, i) + k + n <= total
      ensures iov[i][k..k + n] == out[Start(iov, i) + k..Start(iov, i) + k + n]
    {
      var p := Start(iov, i) + k;
      var left, right := iov[i][k..k + n], out[p..p + n];
      forall m | 0 <= m < n
        ensures left[m] == right[m]
      {
        assert iov[i][k + m] == out[Start(iov, i) + (k + m)];
      }
    }

    /** Full buffers before the cursor's, and what the cursor's holds, make up the whole. */
    lemma ValidFromParts(front: seq<byte>)
      requires CursorOk() && |out| == total && index < |iov|
      requires |front| == Start(iov, index) && out == front + iov[index][..written]
      requires forall i, k {:trigger iov[i][k]} ::
          0 <= i < index && 0 <= k < iov[i].Length && Start(iov, i) + k < |front| ==>
            iov[i][k] == front[Start(iov, i) + k]
      ensures Valid()
    {
      forall i, k | 0 <= i < |iov| && 0 <= k < iov[i].Length && Start(iov, i) + k < total
        ensures iov[i][k] == out[Start(iov, i) + k]
      {
        if i < index {
          StartMonotone(iov, i, index);
        } else if i > index {
          StartMonotone(iov, index, i);
        }
      }
    }

    /** A self-copy of the output that starts in the current buffer is one of the buffer. */
    lemma CopyOfOutput(offset: nat, n: nat)
      requires Valid() && index < |iov| && 0 < offset <= written
      ensures Start(iov, index) <= |out|
      ensures CopyFromSelf(out, offset, n) ==
              out[..Start(iov, index)] + CopyFromSelf(iov[index][..written], offset, n)
    {
      BufferIsOutput(index, 0, written);
      assert out == out[..Start(iov, index)] + iov[index][..written];
      CopyInSuffix(out[..Start(iov, index)], iov[index][..written], offset, n);
    }

    lemma FrontBuffers()
      requires Valid() && index < |iov|
      ensures Start(iov, index) <= |out|
      ensures forall i, k {:trigger iov[i][k]} ::
          0 <= i < index && 0 <= k < iov[i].Length && Start(iov, i) + k < Start(iov, index) ==>
            iov[i][k] == out[..Start(iov, index)][Start(iov, i) + k]
    {
    }

    /** After `n` bytes have appeared behind the cursor in the current buffer: move the cursor. */
    method Advance(n: nat, ghost front: seq<byte>)
      requires CursorOk() && index < |iov| && written + n <= iov[index].Length && total + n <= limit
      requires |front| == Start(iov, index)
      requires forall i, k {:trigger iov[i][k]} ::
          0 <= i < index && 0 <= k < iov[i].Length && Start(iov, i) + k < |front| ==>
            iov[i][k] == front[Start(iov, i) + k]
      modifies this`written, this`total, this`out
      ensures Valid() && index == old(index) && written == old(written) + n
      ensures out == front + iov[index][..written]
    {
      written := written + n;
      total := total + n;
      out := front + iov[index][..written];
      ValidFromParts(front);
    }

    /** IncrementalCopySlow within the current buffer; nothing else changes. */
    method CopyBytes(fromOffset: nat, n: nat)
      requires CursorOk() && index < |iov| && fromOffset < written
      requires written + n <= iov[index].Length && total + n <= limit
      modifies iov
      ensures PastLimitKept()
      ensures iov[index][..written + n] == CopyFromSelf(old(iov[index][..written]), written - fromOffset, n)
      ensures forall i, k {:trigger iov[i][k]} ::
          0 <= i < |iov| && 0 <= k < iov[i].Length && (i != index || k < written || written + n <= k) ==>
            iov[i][k] == old(iov[i][k])
    {
      IncrementalCopySlow(iov[index], fromOffset, written, written + n);
    }

    /** A self-copy that stays within the current buffer. */
    method CopyHere(fromOffset: nat, n: nat, ghost offset: nat)
      requires Valid() && index < |iov| && fromOffset + offset == written && 0 < offset
      requires written + n <= iov[index].Length && total + n <= limit
      modifies this`written, this`total, this`out, iov
      ensures Valid() && PastLimitKept() && index == old(index) && written == old(written) + n
      ensures offset <= old(|out|) && out == CopyFromSelf(old(out), offset, n)
    {
      ghost var front := out[..Start(iov, index)];
      CopyOfOutput(offset, n);
      FrontBuffers();
      CopyBytes(fromOffset, n);
      Advance(n, front);
    }

    /** A piece of the copy that comes from an earlier buffer: those bytes are final, so they can be
        appended like foreign ones. */
    method CopyAcross(from: nat, fromOffset: nat, n: nat, ghost offset: nat)
      requires Valid() && from < index < |iov| && fromOffset + n <= iov[from].Length
      requires Start(iov, from) + fromOffset + offset == total && 0 < offset
      requires total + n <= limit
      modifies this`index, this`written, this`total, this`out, iov
      ensures Valid() && PastLimitKept() && old(index) <= index < |iov|
      ensures offset <= old(|out|) && out == CopyFromSelf(old(out), offset, n)
    {
      StartMonotone(iov, from, index);
      BufferIsOutput(from, fromOffset, n);
      CopyWithoutOverlap(out, offset, n);
      var ok := Append(iov[from][fromOffset..fromOffset + n]);
    }

    /** One round of the copy loop: a piece from an earlier buffer, a piece within the current one,
        or on to the next buffer. */
    method CopyRound(from: nat, fromOffset: nat, left: nat, ghost offset: nat)
      returns (from': nat, fromOffset': nat, left': nat)
      requires Valid() && from <= index < |iov| && fromOffset <= iov[from].Length
      requires 0 < left && total + left <= limit && 0 < offset
      requires Start(iov, from) + fromOffset + offset == total
      modifies this`index, this`written, this`total, this`out, iov
      ensures Valid() && PastLimitKept() && from' <= index < |iov| && fromOffset' <= iov[from'].Length
      ensures left' <= left && total + left' <= limit
      ensures left' > 0 ==> Start(iov, from') + fromOffset' + offset == total
      ensures offset <= old(|out|) && out == CopyFromSelf(old(out), offset, left - left')
      ensures left' < left || (old(index) < index) || (index == old(index) && from < from')
      ensures old(index) <= index && from <= from'
    {
      from', fromOffset', left' := from, fromOffset, left;
      if from != index {
        var room := iov[from].Length - fromOffset;
        var toCopy := if room < left then room else left;
        CopyAcross(from, fromOffset, toCopy, offset);
        left' := left - toCopy;
        if left' > 0 {
          from' := from + 1;
          fromOffset' := 0;
        }
      } else {
        var room := iov[index].Length - written;
        var toCopy := if room < left then room else left;
        if toCopy == 0 {
          NextBuffer();
        } else {
          CopyHere(fromOffset, toCopy, offset);
          fromOffset' := fromOffset + toCopy;
          left' := left - toCopy;
        }
      }
    }

    method AppendFromSelf(offset: nat, len: nat) returns (ok: bool)
      requires Valid()
      modifies this`index, this`written, this`total, this`out, iov
      ensures Valid() && PastLimitKept()
      ensures ok <==> CopyFits(old(out), limit, offset, len)
      ensures ok ==> out == CopyFromSelf(old(out), offset, len)
      ensures !ok ==> out == old(out)
    {
      if offset > total || offset == 0 {
        return false;
      }
      if len > limit - total {
        return false;
      }
      NonEmptyCopy();
      var from, fromOffset := LocateSource(offset);
      CopyLoop(from, fromOffset, len, offset);
      return true;
    }

    lemma NonEmptyCopy()
      requires Valid() && total > 0
      ensures index < |iov|
    {
    }

    method CopyLoop(from0: nat, fromOffset0: nat, len: nat, ghost offset: nat)
      requires Valid() && from0 <= index < |iov| && fromOffset0 <= iov[from0].Length
      requires total + len <= limit && 0 < offset
      requires Start(iov, from0) + fromOffset0 + offset == total
      modifies this`index, this`written, this`total, this`out, iov
      ensures Valid() && PastLimitKept()
      ensures offset <= old(|out|) && out == CopyFromSelf(old(out), offset, len)
    {
      var from: nat, fromOffset: nat, left: nat := from0, fromOffset0, len;
      while left > 0
        invariant Valid() && PastLimitKept() && left <= len && total + left <= limit
        invariant from <= index < |iov| && fromOffset <= iov[from].Length
        invariant left > 0 ==> Start(iov, from) + fromOffset + offset == total
        invariant out == CopyFromSelf(old(out), offset, len - left)
        decreases left, |iov| - index, index - from
      {
        ghost var before := left;
        from, fromOffset, left := CopyRound(from, fromOffset, left, offset);
        CopySplit(old(out), offset, len - before, before - left);
      }
    }
  }
}
