/** The compressor: preamble, then blocks of at most 64 KB. */
module Compressor {
  import opened Wrappers
  import opened Bytes
  import opened Format
  import opened Varint
  import opened SinkSource
  import opened BlockCompressor
  import opened CompressedForm
  import opened EqualBytes

  /** A hash function is good enough if it stays inside the table, for every table size. */
  ghost predicate HashInTable(hash: (nat, nat) -> nat) {
    forall w, size :: IsTableSize(size) ==> hash(w, size) < size
  }

  /** The next block, without copying if the source shows enough of it at once, and otherwise
      collected in scratch memory. Either way it is the next `numToRead` bytes. */
  method ReadBlock(reader: Source, numToRead: nat) returns (fragment: seq<byte>, pendingAdvance: nat)
    requires 0 < numToRead <= |reader.rest|
    modifies reader
    ensures fragment == old(reader.rest)[..numToRead]
    ensures pendingAdvance <= |reader.rest| && reader.rest[pendingAdvance..] == old(reader.rest)[numToRead..]
  {
    ghost var all := reader.rest;
    fragment := reader.Peek();
    if |fragment| >= numToRead {
      SubSlice(all, 0, |fragment|, numToRead);
      return fragment[..numToRead], numToRead;
    }
    var scratch := fragment;
    reader.Skip(|fragment|);
    while |scratch| < numToRead
      invariant |scratch| <= numToRead && scratch == all[..|scratch|] && reader.rest == all[|scratch|..]
    {
      fragment := reader.Peek();
      var n := if |fragment| < numToRead - |scratch| then |fragment| else numToRead - |scratch|;
      ghost var have := |scratch|;
      assert fragment[..n] == all[have..have + n];
      scratch := scratch + fragment[..n];
      reader.Skip(n);
      assert scratch == all[..have + n];
    }
    return scratch, 0;
  }

  /** The blocks of `x`, one after the other. */
  ghost function Blocks(x: seq<byte>, hash: (nat, nat) -> nat): seq<byte>
    requires HashInTable(hash)
  {
    if x == [] then [] else
      var n := if |x| < BLOCK_SIZE then |x| else BLOCK_SIZE;
      Block(x[..n], hash) + Blocks(x[n..], hash)
  }

  ghost function Block(x: seq<byte>, hash: (nat, nat) -> nat): seq<byte>
    requires HashInTable(hash) && |x| <= BLOCK_SIZE
  {
    Fragment(x, TableSize(|x|), w => hash(w, TableSize(|x|)))
  }

  /** All that the compressor writes. It depends on the input and the hash function alone. */
  ghost function Compressed(x: seq<byte>, hash: (nat, nat) -> nat): seq<byte>
    requires HashInTable(hash)
  {
    VarintBytes(|x| % TWO32) + Blocks(x, hash)
  }

  lemma BlockDecodes(pre: seq<byte>, x: seq<byte>, hash: (nat, nat) -> nat)
    requires HashInTable(hash) && |x| <= BLOCK_SIZE
    ensures Expand(Block(x, hash), pre) == Some(pre + x)
  {
    FragmentDecodes(pre, x, TableSize(|x|), w => hash(w, TableSize(|x|)));
  }

  /** The blocks decode to the input. */
  lemma {:induction false} BlocksDecode(pre: seq<byte>, x: seq<byte>, hash: (nat, nat) -> nat)
    requires HashInTable(hash)
    ensures Expand(Blocks(x, hash), pre) == Some(pre + x)
    decreases |x|
  {
    if x == [] {
      assert pre + x == pre;
    } else {
      var n := if |x| < BLOCK_SIZE then |x| else BLOCK_SIZE;
      var block, rest := Block(x[..n], hash), Blocks(x[n..], hash);
      assert Blocks(x, hash) == block + rest;
      BlockDecodes(pre, x[..n], hash);
      BlocksDecode(pre + x[..n], x[n..], hash);
      assert pre + x[..n] + x[n..] == pre + x;
      ExpandTwo(block, rest, pre, pre + x[..n], pre + x);
    }
  }

  // ---- Input of equal bytes ----

  lemma BlockOfEqual(x: seq<byte>, hash: (nat, nat) -> nat)
    requires AllEqual(x) && HashInTable(hash) && |x| <= BLOCK_SIZE
    ensures 17 <= |x| ==> |Block(x, hash)| <= 2 + 3 * ((|x| + 62) / 64)
    ensures |Block(x, hash)| <= 18 + 3 * (|x| / 64)
  {
    FragmentDecodes([], x, TableSize(|x|), w => hash(w, TableSize(|x|)));
    SizeOfEqual(x, TableSize(|x|), w => hash(w, TableSize(|x|)));
  }

  /** Three bytes for every 64, two more for every full block, and at most 18 besides. */
  lemma {:induction false} BlocksOfEqual(x: seq<byte>, hash: (nat, nat) -> nat)
    requires AllEqual(x) && HashInTable(hash)
    ensures |Blocks(x, hash)| <= 3 * (|x| / 64) + 2 * (|x| / BLOCK_SIZE) + 18
    decreases |x|
  {
    if |x| >= BLOCK_SIZE {
      BlockOfEqual(x[..BLOCK_SIZE], hash);
      BlocksOfEqual(x[BLOCK_SIZE..], hash);
      OneBlockLess(|x|);
      assert |Blocks(x, hash)| == |Block(x[..BLOCK_SIZE], hash)| + |Blocks(x[BLOCK_SIZE..], hash)|;
    } else {
      SingleBlock(x, hash);
      BlockOfEqual(x, hash);
    }
  }

  lemma OneBlockLess(n: nat)
    requires n >= BLOCK_SIZE
    ensures (n - BLOCK_SIZE) / 64 == n / 64 - 1024 && (n - BLOCK_SIZE) / BLOCK_SIZE == n / BLOCK_SIZE - 1
  {
  }

  lemma SingleBlock(x: seq<byte>, hash: (nat, nat) -> nat)
    requires HashInTable(hash) && |x| <= BLOCK_SIZE
    ensures |Blocks(x, hash)| <= |Block(x, hash)|
  {
    assert x[..|x|] == x && x[|x|..] == [];
  }

  /** Input that repeats one byte. */
  ghost predicate SmallIfEqual(x: seq<byte>, size: nat) {
    && (AllEqual(x) ==> size <= 3 * (|x| / 64) + 2 * (|x| / BLOCK_SIZE) + 23)
    && (AllEqual(x) && 17 <= |x| <= BLOCK_SIZE ==> size <= |VarintBytes(|x|)| + 2 + 3 * ((|x| + 62) / 64))
  }

  lemma CompressedEqual(x: seq<byte>, hash: (nat, nat) -> nat)
    requires HashInTable(hash)
    ensures SmallIfEqual(x, |Compressed(x, hash)|)
  {
    if AllEqual(x) {
      VarintSize(|x| % TWO32);
      BlocksOfEqual(x, hash);
      if 17 <= |x| <= BLOCK_SIZE {
        assert |x| % TWO32 == |x|;
        BlockOfEqual(x, hash);
        SingleBlock(x, hash);
      }
    }
  }

  /** A block, compressed with a fresh table. */
  method CompressInto(fragment: seq<byte>, buf: array<byte>, start: nat, hash: (nat, nat) -> nat) returns (end: nat)
    requires HashInTable(hash) && |fragment| <= BLOCK_SIZE && start + FragmentBound(|fragment|) <= buf.Length
    modifies buf
    ensures start <= end <= start + FragmentBound(|fragment|)
    ensures buf[start..end] == Block(fragment, hash) && buf[..start] == old(buf[..start])
    ensures KeptFrom(buf, start + FragmentBound(|fragment|))
  {
    var table := GetHashTable(|fragment|);
    var size := table.Length;
    end := CompressFragment(fragment, buf, start, table, w => hash(w, size), []);
  }

  /** One block: read, compress straight into the sink's memory, and move on. */
  method CompressBlock(reader: Source, writer: UncheckedByteArraySink, hash: (nat, nat) -> nat, numToRead: nat,
                       ghost body: nat)
    requires HashInTable(hash)
    requires 0 < numToRead <= |reader.rest| && numToRead <= BLOCK_SIZE
    requires body <= writer.dest && writer.dest + FragmentBound(numToRead) <= writer.out.Length
    modifies reader, writer`dest, writer.out
    ensures reader.rest == old(reader.rest)[numToRead..]
    ensures old(writer.dest) <= writer.dest <= old(writer.dest) + FragmentBound(numToRead) <= writer.out.Length
    ensures writer.out[body..writer.dest] ==
            old(writer.out[body..writer.dest]) + Block(old(reader.rest)[..numToRead], hash)
    ensures writer.out[..body] == old(writer.out[..body])
    ensures KeptFrom(writer.out, old(writer.dest) + FragmentBound(numToRead))
  {
    var buf, start := writer.out, writer.dest;
    var fragment, pendingAdvance := ReadBlock(reader, numToRead);
    ghost var before := buf[..start];
    var end := CompressInto(fragment, buf, start, hash);
    assert buf[body..start] == before[body..] && buf[..body] == before[..body];
    ArrayCut(buf, body, start, end);
    writer.AppendInPlace(end - start);
    reader.Skip(pendingAdvance);
  }

  lemma RoomForBlock(done: nat, n: nat)
    requires n <= BLOCK_SIZE
    ensures done + done / 6 + FragmentBound(n) <= done + n + (done + n) / 6 + 1
    ensures n == BLOCK_SIZE ==> done + done / 6 + FragmentBound(n) <= done + n + (done + n) / 6
  {
  }

  /** All blocks. Full blocks compress to well under a sixth more than they hold, which leaves room
      for the last one. */
  method CompressBlocks(reader: Source, writer: UncheckedByteArraySink, hash: (nat, nat) -> nat)
    requires HashInTable(hash)
    requires writer.dest + |reader.rest| + |reader.rest| / 6 + 1 <= writer.out.Length
    modifies reader, writer`dest, writer.out
    ensures reader.rest == []
    ensures old(writer.dest) <= writer.dest <= old(writer.dest) + |old(reader.rest)| + |old(reader.rest)| / 6 + 1
    ensures writer.dest <= writer.out.Length
    ensures writer.out[old(writer.dest)..writer.dest] == Blocks(old(reader.rest), hash)
    ensures writer.out[..old(writer.dest)] == old(writer.out[..writer.dest])
    ensures KeptFrom(writer.out, old(writer.dest) + |old(reader.rest)| + |old(reader.rest)| / 6 + 1)
  {
    ghost var all, body, total := Blocks(reader.rest, hash), writer.dest, |reader.rest|;
    assert writer.out[body..writer.dest] + all == all;
    var N := |reader.rest|;
    while N > 0
      invariant N == |reader.rest| <= total
      invariant body <= writer.dest <= writer.out.Length && writer.out[..body] == old(writer.out[..writer.dest])
      invariant writer.out[body..writer.dest] + Blocks(reader.rest, hash) == all
      invariant N > 0 ==> writer.dest <= body + (total - N) + (total - N) / 6
      invariant writer.dest <= body + (total - N) + (total - N) / 6 + 1
      invariant KeptFrom(writer.out, body + total + total / 6 + 1)
    {
      var numToRead := if N < BLOCK_SIZE then N else BLOCK_SIZE;
      ghost var bytes, x := writer.out[body..writer.dest], reader.rest;
      NextBlock(bytes, x, numToRead, hash);
      RoomForBlock(total - N, numToRead);
      CompressBlock(reader, writer, hash, numToRead, body);
      N := N - numToRead;
    }
    assert writer.out[body..writer.dest] + [] == writer.out[body..writer.dest];
  }

  lemma NextBlock(bytes: seq<byte>, x: seq<byte>, n: nat, hash: (nat, nat) -> nat)
    requires HashInTable(hash) && x != [] && n == if |x| < BLOCK_SIZE then |x| else BLOCK_SIZE
    ensures bytes + Blocks(x, hash) == bytes + Block(x[..n], hash) + Blocks(x[n..], hash)
  {
    AppendedTwice(bytes, Block(x[..n], hash), Blocks(x[n..], hash));
  }

  /** snappy::Compress. For every source and every hash function: the output decodes to the input,
      and neither it nor any store made on the way passes `MaxCompressedLength`. The length goes into
      the preamble as a uint32, so that a longer input does not decode. */
  method Compress(reader: Source, writer: UncheckedByteArraySink, hash: (nat, nat) -> nat) returns (written: nat)
    requires HashInTable(hash)
    requires writer.dest == 0 && writer.out.Length >= MaxCompressedLength(|reader.rest|)
    modifies reader, writer`dest, writer.out
    ensures reader.rest == []
    ensures written == writer.dest <= MaxCompressedLength(|old(reader.rest)|) <= writer.out.Length
    ensures writer.out[..written] == Compressed(old(reader.rest), hash)
    ensures Encodes(writer.out[..written], old(reader.rest))
    ensures SmallIfEqual(old(reader.rest), written)
    ensures KeptFrom(writer.out, MaxCompressedLength(|old(reader.rest)|))
  {
    ghost var x := reader.rest;
    PutPreamble(writer, |reader.rest|);
    ghost var body, preamble := writer.dest, writer.out[..writer.dest];
    CompressBlocks(reader, writer, hash);
    written := writer.dest;
    ArrayCut(writer.out, 0, body, written);
    assert writer.out[0..body] == preamble && writer.out[0..written] == writer.out[..written];
    CompressedDecodes(x, hash);
    CompressedEqual(x, hash);
  }

  /** The preamble: the length as a varint. */
  method PutPreamble(writer: UncheckedByteArraySink, N: nat)
    requires writer.dest == 0 && writer.out.Length >= 5
    modifies writer`dest, writer.out
    ensures writer.dest <= 5 && writer.out[..writer.dest] == VarintBytes(N % TWO32)
    ensures KeptFrom(writer.out, writer.dest)
  {
    VarintUnrolled(N % TWO32);
    var ulength := new byte[5];
    var p := Encode32(ulength, 0, N % TWO32);
    writer.Append(ulength[..p]);
  }

  lemma CompressedDecodes(x: seq<byte>, hash: (nat, nat) -> nat)
    requires HashInTable(hash)
    ensures Encodes(Compressed(x, hash), x)
  {
    var c, k := Compressed(x, hash), |VarintBytes(|x| % TWO32)|;
    assert c[..k] == VarintBytes(|x| % TWO32) && c[k..] == Blocks(x, hash);
    BlocksDecode([], x, hash);
    assert [] + x == x;
    WholeDecodes(c, x, k);
  }

  /** `c` announces the length of `x`, in 32 bits, and decodes to `x` if that is its length. */
  ghost predicate Encodes(c: seq<byte>, x: seq<byte>) {
    && Preamble(c).Some? && Preamble(c).value.0 == |x| % TWO32
    && Decode(c) == if |x| < TWO32 then Some(x) else None
  }

  lemma WholeDecodes(c: seq<byte>, x: seq<byte>, k: nat)
    requires k <= |c| && c[..k] == VarintBytes(|x| % TWO32)
    requires Expand(c[k..], []) == Some(x)
    ensures Encodes(c, x)
  {
    FitsCount(|x|);
    AnnouncedDecodes(c, x, |x| % TWO32, k);
  }

  lemma FitsCount(n: nat)
    ensures n == n % TWO32 <==> n < TWO32
  {
  }

  lemma AnnouncedDecodes(c: seq<byte>, x: seq<byte>, n: nat, k: nat)
    requires n < TWO32 && k <= |c| && c[..k] == VarintBytes(n)
    requires Expand(c[k..], []) == Some(x)
    ensures Preamble(c).Some? && Preamble(c).value.0 == n
    ensures Decode(c) == if |x| == n then Some(x) else None
  {
    assert c == c[..k] + c[k..];
    PreambleOfVarint(n, c[k..]);
  }

  /** RawCompress. */
  method RawCompress(input: seq<byte>, compressed: array<byte>, hash: (nat, nat) -> nat) returns (length: nat)
    requires HashInTable(hash)
    requires compressed.Length >= MaxCompressedLength(|input|)
    modifies compressed
    ensures length <= MaxCompressedLength(|input|)
    ensures compressed[..length] == Compressed(input, hash)
    ensures Encodes(compressed[..length], input)
    ensures SmallIfEqual(input, length)
    ensures KeptFrom(compressed, MaxCompressedLength(|input|))
  {
    var reader := new Source(input, Everything);
    var writer := new UncheckedByteArraySink(compressed);
    length := Compress(reader, writer, hash);
  }

  /** The library's own hash function is one of those. */
  lemma HashBytesInTable()
    ensures HashInTable((w, size) => if IsTableSize(size) then HashBytes(w, size) else 0)
  {
  }
}
