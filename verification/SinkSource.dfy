/** Where compressed and plain bytes come from and go to. */
module SinkSource {
  import opened Bytes

  type Positive = n: nat | n >= 1 witness 1

  /** How much a source shows of what is left: all of it, as ByteArraySource does, or no more than so
      many bytes at a time. */
  datatype Shows = Everything | AtMost(limit: Positive)

  /** Any Source that keeps the Peek/Skip contract: Peek may show any nonempty piece of what is
      left, and shows nothing only at the end. What follows holds for every choice it makes. */
  class Source {
    var rest: seq<byte>
    const shows: Shows

    constructor (data: seq<byte>, shows: Shows)
      ensures rest == data && this.shows == shows
    {
      rest := data;
      this.shows := shows;
    }

    /** Whether every piece it may show while `left` bytes are left is shorter than 2^32. */
    ghost predicate ShortPieces(left: nat) {
      left < TWO32 || (shows.AtMost? && shows.limit < TWO32)
    }

    method Peek() returns (fragment: seq<byte>)
      ensures |fragment| <= |rest| && fragment == rest[..|fragment|]
      ensures fragment == [] <==> rest == []
      ensures shows.Everything? ==> fragment == rest
      ensures shows.AtMost? ==> |fragment| <= shows.limit
    {
      if rest == [] || shows.Everything? {
        return rest;
      }
      var n :| 1 <= n <= |rest| && n <= shows.limit;
      return rest[..n];
    }

    method Skip(n: nat)
      requires n <= |rest|
      modifies this
      ensures rest == old(rest)[n..]
    {
      rest := rest[n..];
    }
  }

  /** UncheckedByteArraySink: a cursor into a flat array. */
  class UncheckedByteArraySink {
    const out: array<byte>
    var dest: nat

    constructor (out: array<byte>)
      ensures this.out == out && dest == 0
    {
      this.out := out;
      dest := 0;
    }

    /** Append of bytes that live elsewhere copies them. */
    method Append(data: seq<byte>)
      requires dest + |data| <= out.Length
      modifies this`dest, out
      ensures dest == old(dest) + |data| && out[old(dest)..dest] == data
      ensures out[..old(dest)] == old(out[..dest]) && KeptFrom(out, dest)
    {
      forall k | 0 <= k < |data| {
        out[dest + k] := data[k];
      }
      dest := dest + |data|;
    }

    /** Append of what was written through GetAppendBuffer, the sink's own memory at `dest`,
        copies nothing. */
    method AppendInPlace(n: nat)
      requires dest + n <= out.Length
      modifies this`dest
      ensures dest == old(dest) + n
    {
      dest := dest + n;
    }
  }
}
