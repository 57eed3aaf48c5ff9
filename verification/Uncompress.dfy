/** The decompression entry points, all through one loop, and the round trip. */
module Uncompress {
  import opened Wrappers
  import opened Bytes
  import opened Format
  import opened Varint
  import opened SinkSource
  import opened ArrayWriter
  import opened IOVecWriter
  import opened ScatteredWriter
  import opened Writers
  import opened Decompressor
  import opened BlockCompressor
  import opened Compressor

  /** The announced length, if the stream starts with one. */
  ghost function Announced(c: seq<byte>): nat {
    match Preamble(c)
    case None => 0
    case Some((n, _)) => n
  }

  /** How many compressed bytes follow the preamble. */
  ghost function BodySize(c: seq<byte>): nat {
    match Preamble(c)
    case None => 0
    case Some((_, k)) => |c| - k
  }

  /** Whether the decompressor's uint32 counts suffice for all that the source may show. */
  ghost predicate CountsSuffice(r: Source)
    reads r
  {
    CourseOf(BodySize(r.rest), r.shows).Exact?
  }

  /** The constructor of SnappyDecompressor and ReadUncompressedLength, which all entry points begin
      with. */
  method ReadHeader(r: Source) returns (decompressor: SnappyDecompressor, length: Option<nat>)
    modifies r
    ensures fresh(decompressor) && decompressor.reader == r && decompressor.Valid() && decompressor.AtStart()
    ensures length.Some? <==> Preamble(old(r.rest)).Some?
    ensures length.Some? ==> var (n, k) := Preamble(old(r.rest)).value;
                             length.value == n && r.rest == decompressor.Rest() == old(r.rest)[k..]
  {
    decompressor := new SnappyDecompressor(r);
    length := decompressor.ReadUncompressedLength();
  }

  /** InternalUncompressAllTags, on the stream after its preamble. */
  method InternalUncompressAllTags(decompressor: SnappyDecompressor, writer: Writer, uncompressedLen: nat)
    returns (ok: bool, sink: seq<byte>)
    requires decompressor.Valid() && decompressor.AtStart() && uncompressedLen < TWO32
    requires writer.Initial() && writer.HasRoom(uncompressedLen)
    requires decompressor !in writer.Repr() && decompressor.reader !in writer.Repr()
    modifies decompressor, decompressor.reader, writer.Repr()
    ensures decompressor.Valid() &&
            decompressor.course == CourseOf(|old(decompressor.reader.rest)|, decompressor.reader.shows)
    ensures ok ==> writer.Valid() && !decompressor.course.Astray?
    ensures ok && writer.Scattered? ==> sink == writer.Out()
    ensures decompressor.course.Exact? ==> (ok <==> Expands(old(decompressor.Rest()), uncompressedLen))
    ensures decompressor.course.Exact? && ok ==> Expand(old(decompressor.Rest()), []) == Some(writer.Out())
    ensures writer.BeyondFrom(uncompressedLen) == old(writer.BeyondFrom(uncompressedLen))
  {
    writer.SetExpectedLength(uncompressedLen);
    decompressor.DecompressAllTags(writer);
    sink := writer.Flush();
    if decompressor.eof {
      writer.LengthChecked();
    }
    ok := decompressor.eof && writer.CheckLength();
  }

  /** The stream after the preamble decodes to as many bytes as announced. */
  ghost predicate Expands(body: seq<byte>, n: nat) {
    var t := Expand(body, []);
    t.Some? && |t.value| == n
  }

  /** What InternalUncompress answers on `c`. */
  ghost predicate Answers(ok: bool, c: seq<byte>, shows: Shows, countsSuffice: bool) {
    && (countsSuffice ==> (ok <==> Decode(c).Some?))
    && (shows.Everything? ==> (ok <==> Decode(c).Some? && BodySize(c) < TWO32))
  }

  /** After the preamble, decoding is `Expand` and a length check. */
  lemma DecodeParts(c: seq<byte>)
    requires Preamble(c).Some?
    ensures var (n, k) := Preamble(c).value;
            && (Decode(c).Some? <==> Expands(c[k..], n))
            && (Expands(c[k..], n) ==> Decode(c) == Expand(c[k..], []))
  {
  }

  /** The answer on the stream after the preamble is the answer on all of it. */
  lemma AnswersWhole(ok: bool, c: seq<byte>, shows: Shows)
    requires Preamble(c).Some?
    requires var (n, k) := Preamble(c).value;
             && (CourseOf(|c[k..]|, shows).Exact? ==> (ok <==> Expands(c[k..], n)))
             && (CourseOf(|c[k..]|, shows).Astray? ==> !ok)
    ensures Answers(ok, c, shows, CourseOf(BodySize(c), shows).Exact?)
    ensures ok && CourseOf(BodySize(c), shows).Exact? ==> Decode(c) == Expand(c[Preamble(c).value.1..], [])
  {
    DecodeParts(c);
  }

  /** InternalUncompress. For every source whose pieces the uint32 counts can hold, and every writer:
      success exactly when the bytes decode, and then the writer holds what they decode to. A flat
      source that is too long for the counts is never decompressed. Either way memory past the
      announced length is untouched. */
  method InternalUncompress(r: Source, writer: Writer) returns (ok: bool, sink: seq<byte>)
    requires writer.Initial() && r !in writer.Repr()
    requires Preamble(r.rest).Some? ==> writer.HasRoom(Announced(r.rest))
    modifies r, writer.Repr()
    ensures Answers(ok, old(r.rest), r.shows, old(CountsSuffice(r)))
    ensures ok ==> writer.Valid()
    ensures ok && old(CountsSuffice(r)) ==> Decode(old(r.rest)) == Some(writer.Out())
    ensures ok && writer.Scattered? ==> sink == writer.Out()
    ensures writer.BeyondFrom(Announced(old(r.rest))) == old(writer.BeyondFrom(Announced(r.rest)))
  {
    ghost var c := r.rest;
    var decompressor, length := ReadHeader(r);
    if length == None {
      return false, [];
    }
    ok, sink := InternalUncompressAllTags(decompressor, writer, length.value);
    AnswersWhole(ok, c, r.shows);
    r.Skip(decompressor.peeked);
  }

  // ---- Entry points ----

  /** RawUncompress: the flat array. */
  method RawUncompress(compressed: Source, uncompressed: array<byte>) returns (ok: bool)
    requires Announced(compressed.rest) <= uncompressed.Length
    modifies compressed, uncompressed
    ensures Answers(ok, old(compressed.rest), compressed.shows, old(CountsSuffice(compressed)))
    ensures ok && old(CountsSuffice(compressed)) ==>
      uncompressed[..Announced(old(compressed.rest))] == Decode(old(compressed.rest)).value
    ensures uncompressed[Announced(old(compressed.rest))..] == old(uncompressed[Announced(compressed.rest)..])
  {
    ghost var n := Announced(compressed.rest);
    var output := new SnappyArrayWriter(uncompressed);
    ghost var before := Flat(output).BeyondFrom(n);
    var flushed;
    ok, flushed := InternalUncompress(compressed, Flat(output));
    assert Flat(output).BeyondFrom(n) == [uncompressed[n..]] && before == [old(uncompressed[n..])];
    assert [uncompressed[n..]][0] == [old(uncompressed[n..])][0];
  }

  /** IsValidCompressed, and with it IsValidCompressedBuffer: it agrees with RawUncompress on every
      input, without writing a byte. */
  method IsValidCompressed(compressed: Source) returns (ok: bool)
    modifies compressed
    ensures Answers(ok, old(compressed.rest), compressed.shows, old(CountsSuffice(compressed)))
  {
    var writer := new SnappyDecompressionValidator();
    var flushed;
    ok, flushed := InternalUncompress(compressed, Checker(writer));
  }

  /** RawUncompressToIOVec: the same answer and, laid end to end, the same bytes as RawUncompress. */
  method RawUncompressToIOVec(compressed: Source, iov: seq<array<byte>>) returns (ok: bool)
    requires forall i, j :: 0 <= i < j < |iov| ==> iov[i] != iov[j]
    requires Announced(compressed.rest) <= Start(iov, |iov|)
    modifies compressed, set b: object | b in iov
    ensures Answers(ok, old(compressed.rest), compressed.shows, old(CountsSuffice(compressed)))
    ensures ok && old(CountsSuffice(compressed)) ==>
      var plain := Decode(old(compressed.rest)).value;
      && |plain| == Announced(old(compressed.rest))
      && forall i, k {:trigger iov[i][k]} ::
           0 <= i < |iov| && 0 <= k < iov[i].Length && Start(iov, i) + k < |plain| ==>
               iov[i][k] == plain[Start(iov, i) + k]
    ensures var n := Announced(old(compressed.rest));
            forall i, k {:trigger iov[i][k]} ::
              0 <= i < |iov| && 0 <= k < iov[i].Length && Start(iov, i) + k >= n ==> iov[i][k] == old(iov[i][k])
  {
    ghost var n := Announced(compressed.rest);
    var output := new SnappyIOVecWriter(iov);
    ghost var before := output.BeyondFrom(n);
    var flushed;
    ok, flushed := InternalUncompress(compressed, Vector(output));
    assert output.BeyondFrom(n) == before;
    forall i, k | 0 <= i < |iov| && 0 <= k < iov[i].Length && Start(iov, i) + k >= n
      ensures iov[i][k] == old(iov[i][k])
    {
      var cut := if n <= Start(iov, i) then 0 else n - Start(iov, i);
      assert output.BeyondFrom(n)[i] == before[i];
      assert iov[i][k] == output.BeyondIn(i, n)[k - cut];
    }
  }

  /** Uncompress to a Sink: straight into the sink's own `buffer` if that is large enough, block by
      block otherwise. Either way the sink receives what the bytes decode to. */
  method Uncompress(compressed: Source, buffer: array<byte>) returns (ok: bool, sink: seq<byte>)
    modifies compressed, buffer
    ensures Answers(ok, old(compressed.rest), compressed.shows, old(CountsSuffice(compressed)))
    ensures ok && old(CountsSuffice(compressed)) ==> Decode(old(compressed.rest)) == Some(sink)
  {
    ghost var c := compressed.rest;
    var decompressor, length := ReadHeader(compressed);
    if length == None {
      return false, [];
    }
    if buffer.Length >= length.value {
      ok, sink := UncompressFlat(decompressor, buffer, length.value);
    } else {
      var writer := new SnappyScatteredWriter();
      ok, sink := InternalUncompressAllTags(decompressor, Scattered(writer), length.value);
    }
    AnswersWhole(ok, c, compressed.shows);
    compressed.Skip(decompressor.peeked);
  }

  /** The flat branch: what has been produced in the buffer goes to the sink. */
  method UncompressFlat(decompressor: SnappyDecompressor, buffer: array<byte>, uncompressedLen: nat)
    returns (ok: bool, sink: seq<byte>)
    requires decompressor.Valid() && decompressor.AtStart() && uncompressedLen < TWO32 &&
             uncompressedLen <= buffer.Length
    modifies decompressor, decompressor.reader, buffer
    ensures decompressor.Valid() &&
            decompressor.course == CourseOf(|old(decompressor.reader.rest)|, decompressor.reader.shows)
    ensures ok ==> !decompressor.course.Astray?
    ensures decompressor.course.Exact? ==> (ok <==> Expands(old(decompressor.Rest()), uncompressedLen))
    ensures decompressor.course.Exact? && ok ==> Expand(old(decompressor.Rest()), []) == Some(sink)
  {
    var writer := new SnappyArrayWriter(buffer);
    var flushed;
    ok, flushed := InternalUncompressAllTags(decompressor, Flat(writer), uncompressedLen);
    sink := [];
    if ok {
      sink := buffer[..writer.op];
    }
  }

  /** GetUncompressedLength on a flat buffer agrees with what decompression will announce. */
  method GetUncompressedLength(compressed: seq<byte>) returns (r: Option<nat>)
    ensures r.Some? <==> Preamble(compressed).Some?
    ensures r.Some? ==> r.value == Announced(compressed)
  {
    var p := Parse32WithLimit(compressed);
    match p {
      case None => r := None;
      case Some((v, _)) => r := Some(v);
    }
  }

  /** What decodes is as long as it announces. */
  lemma DecodedLength(c: seq<byte>)
    requires Decode(c).Some?
    ensures Preamble(c).Some? && |Decode(c).value| == Announced(c) < TWO32
  {
  }

  /** The round trip, on every input: compress with any hash function, from any source; then length,
      validity and contents all come back, exactly when the input and its compressed form fit the
      uint32 counts. They do if MaxCompressedLength fits. */
  method RoundTrip(input: Source, hash: (nat, nat) -> nat)
    returns (c: seq<byte>, length: nat, valid: bool, ok: bool, plain: array<byte>)
    requires HashInTable(hash)
    modifies input
    ensures |c| <= MaxCompressedLength(|old(input.rest)|) && Encodes(c, old(input.rest))
    ensures length == |old(input.rest)| % TWO32
    ensures valid <==> |old(input.rest)| < TWO32 && BodySize(c) < TWO32
    ensures ok <==> valid
    ensures ok ==> plain[..] == old(input.rest)
    ensures MaxCompressedLength(|old(input.rest)|) < TWO32 ==> ok
  {
    ghost var x := input.rest;
    var compressed := new byte[MaxCompressedLength(|input.rest|)];
    var writer := new UncheckedByteArraySink(compressed);
    var written := Compress(input, writer, hash);
    c := compressed[..written];
    var announced := GetUncompressedLength(c);
    length := announced.value;
    var r1 := new Source(c, Everything);
    valid := IsValidCompressed(r1);
    plain := new byte[length];
    var r2 := new Source(c, Everything);
    ok := RawUncompress(r2, plain);
    assert plain[..length] == plain[..];
  }
}
