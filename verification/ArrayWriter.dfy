/** The flat-array writer and the writer that only validates. */
module ArrayWriter {
  import opened Bytes
  import opened SelfCopy

  /** When a writer must accept bytes: they fit the announced length. */
  predicate Fits(out: seq<byte>, expected: nat, len: nat) {
    |out| + len <= expected
  }

  /** When a writer must accept a copy: it starts inside what has been written, and fits. */
  predicate CopyFits(out: seq<byte>, expected: nat, offset: nat, len: nat) {
    0 < offset <= |out| && Fits(out, expected, len)
  }

  /** `offset - 1u` on size_t: an offset of zero wraps round to the largest number. */
  function MinusOneWrapped(offset: nat): nat
    requires offset < TWO64
  {
    (offset + TWO64 - 1) % TWO64
  }

  class SnappyArrayWriter {
    const dst: array<byte>
    var op: nat
    var opLimit: nat

    ghost predicate Valid()
      reads this
    {
      op <= opLimit <= dst.Length && opLimit < TWO32
    }

    ghost function Out(): seq<byte>
      reads this, dst
      requires Valid()
    {
      dst[..op]
    }

    constructor (dst: array<byte>)
      ensures Valid() && this.dst == dst && op == opLimit == 0
    {
      this.dst := dst;
      op, opLimit := 0, 0;
    }

    method SetExpectedLength(len: nat)
      requires Valid() && op + len <= dst.Length && op + len < TWO32
      modifies this
      ensures Valid() && Out() == old(Out()) && opLimit == op + len && op == old(op)
    {
      opLimit := op + len;
    }

    predicate CheckLength()
      reads this
    {
      op == opLimit
    }

    method Append(bytes: seq<byte>) returns (ok: bool)
      requires Valid()
      modifies this`op, dst
      ensures Valid()
      ensures ok <==> Fits(old(Out()), opLimit, |bytes|)
      ensures Out() == if ok then old(Out()) + bytes else old(Out())
      ensures dst[opLimit..] == old(dst[opLimit..])
    {
      if opLimit - op < |bytes| {
        return false;
      }
      forall k | 0 <= k < |bytes| {
        dst[op + k] := bytes[k];
      }
      op := op + |bytes|;
      return true;
    }

    /** Sixteen bytes are copied from the input buffer, of which `len` count. */
    method TryFastAppend(src: seq<byte>, available: nat, len: nat) returns (ok: bool)
      requires Valid() && available <= |src|
      modifies this`op, dst
      ensures Valid()
      ensures ok <==> len <= 16 && available >= 16 + 5 && opLimit - old(op) >= 16
      ensures ok ==> Out() == old(Out()) + src[..len]
      ensures !ok ==> Out() == old(Out())
      ensures dst[opLimit..] == old(dst[opLimit..])
    {
      if len <= 16 && available >= 16 + 5 && opLimit - op >= 16 {
        forall k | 0 <= k < 16 {
          dst[op + k] := src[k];
        }
        op := op + len;
        return true;
      }
      return false;
    }

    method AppendFromSelf(offset: nat, len: nat) returns (ok: bool)
      requires Valid() && offset < TWO64
      modifies this`op, dst
      ensures Valid()
      ensures ok <==> CopyFits(old(Out()), opLimit, offset, len)
      ensures ok ==> Out() == CopyFromSelf(old(Out()), offset, len)
      ensures !ok ==> Out() == old(Out())
      ensures dst[opLimit..] == old(dst[opLimit..])
    {
      var opEnd := op + len;
      if op <= MinusOneWrapped(offset) || opEnd > opLimit {
        return false;
      }
      op := IncrementalCopy(dst, op - offset, op, opEnd, opLimit);
      return true;
    }
  }

  /** Counts what would be written. The bytes themselves exist only in the proof. */
  class SnappyDecompressionValidator {
    var expected: nat
    var produced: nat
    ghost var out: seq<byte>

    ghost predicate Valid()
      reads this
    {
      |out| == produced <= expected < TWO32
    }

    constructor ()
      ensures Valid() && out == [] && expected == 0
    {
      expected, produced := 0, 0;
      out := [];
    }

    method SetExpectedLength(len: nat)
      requires Valid() && produced <= len < TWO32
      modifies this
      ensures Valid() && out == old(out) && expected == len
    {
      expected := len;
    }

    predicate CheckLength()
      reads this
    {
      expected == produced
    }

    method Append(bytes: seq<byte>) returns (ok: bool)
      requires Valid()
      modifies this
      ensures expected == old(expected)
      ensures ok <==> Fits(old(out), expected, |bytes|)
      ensures ok ==> Valid() && out == old(out) + bytes
    {
      produced := produced + |bytes|;
      out := out + bytes;
      return produced <= expected;
    }

    method TryFastAppend(src: seq<byte>, available: nat, len: nat) returns (ok: bool)
      ensures !ok
    {
      return false;
    }

    method AppendFromSelf(offset: nat, len: nat) returns (ok: bool)
      requires Valid() && offset < TWO64
      modifies this
      ensures expected == old(expected)
      ensures ok <==> CopyFits(old(out), expected, offset, len)
      ensures ok ==> Valid() && out == CopyFromSelf(old(out), offset, len)
    {
      if produced <= MinusOneWrapped(offset) {
        return false;
      }
      produced := produced + len;
      out := CopyFromSelf(out, offset, len);
      return produced <= expected;
    }
  }
}
