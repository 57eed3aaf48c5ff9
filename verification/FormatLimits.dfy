/** Where the decompressor's 32-bit arithmetic and the format part ways, and exactly how far. */
module FormatLimits {
  import opened Wrappers
  import opened Bytes
  import opened Format
  import opened Varint
  import opened SinkSource
  import opened BlockCompressor
  import opened Compressor
  import opened Uncompress

  /** A literal whose four-byte length field is 2^32 - 1. Its length is 2^32, which no stream with a
      uint32 preamble can contain; in 32 bits it is computed as 0. */
  predicate WrappedHead(c: seq<byte>) {
    |c| >= 5 && c[0] == 0xfc && c[1] == 0xff && c[2] == 0xff && c[3] == 0xff && c[4] == 0xff
  }

  /** `Expand` with lengths that do not wrap: such a literal makes the stream invalid. */
  function StrictExpand(c: seq<byte>, out: seq<byte>): Option<seq<byte>>
    decreases |c|
  {
    if c == [] then Some(out)
    else if WrappedHead(c) then None
    else
      match HeadAt(c)
      case None => None
      case Some(LiteralHead(size, len)) =>
        if |c| < size + len then None
        else StrictExpand(c[size + len..], out + c[size..size + len])
      case Some(CopyHead(size, offset, len)) =>
        if offset == 0 || |out| < offset then None
        else StrictExpand(c[size..], CopyFromSelf(out, offset, len))
  }

  /** Walking the elements of `c` comes upon such a literal. Contents do not matter, only tags. */
  predicate MeetsWrapped(c: seq<byte>)
    decreases |c|
  {
    c != [] &&
    (WrappedHead(c) ||
     match HeadAt(c)
     case None => false
     case Some(LiteralHead(size, len)) => size + len <= |c| && MeetsWrapped(c[size + len..])
     case Some(CopyHead(size, _, _)) => MeetsWrapped(c[size..]))
  }

  lemma WrappedHeadHasNoBytes(c: seq<byte>)
    requires WrappedHead(c)
    ensures HeadAt(c) == Some(LiteralHead(5, 0))
  {
    assert c[1..5] == [c[1], c[2], c[3], c[4]];
    LeValueUnrolled(c[1..5]);
  }

  /** The code meets the strict format exactly on the streams that contain no such literal: of what
      the code accepts, the strict format rejects those and nothing else. */
  lemma {:induction false} StrictUnlessWrapped(c: seq<byte>, out: seq<byte>)
    ensures StrictExpand(c, out).Some? <==> Expand(c, out).Some? && !MeetsWrapped(c)
    ensures StrictExpand(c, out).Some? ==> StrictExpand(c, out) == Expand(c, out)
    decreases |c|
  {
    if c != [] {
      ExpandStep(c, out);
      if !WrappedHead(c) {
        match HeadAt(c)
        case None =>
        case Some(LiteralHead(size, len)) =>
          if size + len <= |c| {
            StrictUnlessWrapped(c[size + len..], out + c[size..size + len]);
          }
        case Some(CopyHead(size, offset, len)) =>
          if 0 < offset <= |out| {
            StrictUnlessWrapped(c[size..], CopyFromSelf(out, offset, len));
          }
      }
    }
  }

  /** The whole buffer: strict decoding and the code's agree if and only if the elements never
      include a wrapped literal or the buffer is refused anyway. */
  lemma DecodeIsStrictExactly(c: seq<byte>)
    requires Preamble(c).Some?
    ensures var (n, k) := Preamble(c).value;
            Decode(c).Some? ==> (StrictExpand(c[k..], []) == Decode(c) <==> !MeetsWrapped(c[k..]))
  {
    var (n, k) := Preamble(c).value;
    StrictUnlessWrapped(c[k..], []);
  }

  /** A concrete buffer that the code accepts, as the empty string, and the format does not. */
  lemma WrappedLiteralAccepted()
    ensures Decode([0, 0xfc, 0xff, 0xff, 0xff, 0xff]) == Some([])
    ensures StrictExpand([0xfc, 0xff, 0xff, 0xff, 0xff], []) == None
  {
    var c: seq<byte> := [0, 0xfc, 0xff, 0xff, 0xff, 0xff];
    assert VarintPrefix(c, 5) == Some((0, 1));
    var body := c[1..];
    assert body == [0xfc, 0xff, 0xff, 0xff, 0xff];
    WrappedHeadHasNoBytes(body);
    ExpandOne(body, [], LiteralHead(5, 0));
    assert [] + body[5..] == [];
  }

  function Zeros(n: nat): seq<byte> {
    seq(n, _ => 0)
  }

  /** `n` literals of one zero byte each: a tag byte and the byte, both 0. */
  lemma {:induction false} ZeroLiterals(n: nat, out: seq<byte>)
    ensures Expand(Zeros(2 * n), out) == Some(out + Zeros(n))
  {
    if n == 0 {
      assert out + Zeros(0) == out;
    } else {
      var c := Zeros(2 * n);
      ExpandStep(c, out);
      assert HeadAt(c) == Some(LiteralHead(1, 1));
      assert c[2..] == Zeros(2 * (n - 1)) && c[1..2] == [0];
      ZeroLiterals(n - 1, out + [0]);
      assert out + [0] + Zeros(n - 1) == out + Zeros(n);
    }
  }

  /** A buffer that decodes, to 2^31 zero bytes, but whose 2^32 bytes after the preamble are too many
      for a uint32: on a flat source the decompressor never answers true. */
  lemma TooLongForTheCounts() returns (c: seq<byte>)
    ensures Decode(c) == Some(Zeros(0x8000_0000)) && BodySize(c) == TWO32
    ensures forall ok :: Answers(ok, c, Everything, false) ==> !ok
  {
    var n := 0x8000_0000;
    c := VarintBytes(n) + Zeros(2 * n);
    var k := |VarintBytes(n)|;
    assert c[..k] == VarintBytes(n) && c[k..] == Zeros(2 * n);
    ZeroLiterals(n, []);
    assert [] + Zeros(n) == Zeros(n);
    PreambleOfVarint(n, c[k..]);
    AnnouncedDecodes(c, Zeros(n), n, k);
  }

  /** CompressFragment asks for MaxCompressedLength(n) bytes of room. RawCompress gives it the rest of
      its buffer, which for an input of a single block is short by the preamble. It is enough all
      the same: FragmentBound(n) always fits. */
  lemma RoomForSingleBlock(n: nat)
    requires 0 < n <= BLOCK_SIZE
    ensures var room := MaxCompressedLength(n) - |VarintBytes(n)|;
            FragmentBound(n) <= room < MaxCompressedLength(n)
  {
    VarintUnrolled(n);
  }
}
