/** The tag-stream decompressor: any source, any fragmentation, any writer. */
module Decompressor {
  import opened Wrappers
  import opened Bytes
  import opened Format
  import opened TagTable
  import opened Varint
  import opened SinkSource
  import opened ArrayWriter
  import opened Writers

  const MAXIMUM_TAG_LENGTH: nat := 5

  // ---- Masked loads ----

  /** `Load32(ip) & wordmask[k]`: the first `k` bytes as a little-endian number. */
  function MaskedLoad(s: seq<byte>, i: nat, k: nat): nat
    requires i + 4 <= |s| && k <= 4
  {
    var w := Load32(s, i);
    if k == 0 then 0
    else if k == 1 then w % 0x100
    else if k == 2 then w % 0x1_0000
    else if k == 3 then w % 0x100_0000
    else w
  }

  lemma LowDigits(a: byte, b: byte, c: byte, d: byte)
    ensures var w := a as int + 256 * (b as int) + 0x10000 * (c as int) + 0x100_0000 * (d as int);
            && w % 0x100 == a as int
            && w % 0x1_0000 == a as int + 256 * (b as int)
            && w % 0x100_0000 == a as int + 256 * (b as int) + 0x10000 * (c as int)
  {
    var low := a as int + 256 * (b as int);
    var w := low + 0x10000 * (c as int) + 0x100_0000 * (d as int);
    assert w == a as int + 0x100 * (b as int + 256 * (c as int) + 0x10000 * (d as int));
    assert w == low + 0x1_0000 * (c as int + 256 * (d as int));
  }

  lemma MaskedLoadValue(s: seq<byte>, i: nat, k: nat)
    requires i + 4 <= |s| && k <= 4
    ensures MaskedLoad(s, i, k) == LeValue(s[i..i + k])
  {
    LowDigits(s[i], s[i + 1], s[i + 2], s[i + 3]);
    var t := s[i..i + k];
    LeValueUnrolled(t);
    assert k > 0 ==> t[0] == s[i];
    assert k > 1 ==> t[1] == s[i + 1];
    assert k > 2 ==> t[2] == s[i + 2];
    assert k > 3 ==> t[3] == s[i + 3];
  }

  /** Whether the 32-bit counts of the decompressor are exact. They are while the source shows short
      pieces; a flat source with 2^32 bytes or more leads it astray. */
  datatype Course = Exact | Astray | Unknown

  function CourseOf(left: nat, shows: Shows): Course {
    if left < TWO32 || (shows.AtMost? && shows.limit < TWO32) then Exact
    else if shows.Everything? then Astray
    else Unknown
  }

  class SnappyDecompressor {
    const reader: Source
    /** The bytes `ip_` and `ip_limit_` point into: a fragment of the source, or scratch memory. */
    var buf: seq<byte>
    var ip: nat
    var ipLimit: nat
    var peeked: nat
    var eof: bool
    var scratch: seq<byte>
    ghost var course: Course

    ghost predicate Valid()
      reads this, reader
    {
      && ip <= ipLimit <= |buf| && peeked <= |reader.rest| && |scratch| == MAXIMUM_TAG_LENGTH
      && (course.Exact? ==> reader.ShortPieces(|reader.rest|) && ipLimit - ip < TWO32)
      && (course.Astray? ==> !eof && reader.shows.Everything? && peeked + TWO32 <= |reader.rest|)
    }

    /** Nothing has been fetched yet. */
    ghost predicate AtStart()
      reads this
    {
      !eof && ip == ipLimit && peeked == 0 && course == Unknown
    }

    /** The bytes the source would still have after skipping those it has been asked to show. */
    ghost function Unread(): int
      reads this`peeked, reader
    {
      |reader.rest| - peeked
    }

    ghost function Buffered(): int
      reads this`ip, this`ipLimit
    {
      ipLimit - ip
    }

    /** The compressed bytes not yet consumed, wherever they are. */
    ghost function Rest(): seq<byte>
      reads this, reader
      requires Valid()
    {
      buf[ip..ipLimit] + reader.rest[peeked..]
    }

    /** All of the next element's head is in the buffer, and five bytes can be loaded there. */
    ghost predicate HeadReady()
      reads this, reader
    {
      Valid() && !eof && ip < ipLimit && ip + MAXIMUM_TAG_LENGTH <= |buf| && ip + 1 + TrailerSize(buf[ip]) <= ipLimit
    }

    constructor (reader: Source)
      ensures Valid() && this.reader == reader && fresh(this)
      ensures Rest() == reader.rest && AtStart()
    {
      this.reader, course := reader, Unknown;
      buf, ip, ipLimit, peeked, eof := [], 0, 0, 0, false;
      scratch := [0, 0, 0, 0, 0];
    }

    /** Skips what has been shown; nothing is buffered any more. */
    method SkipPeeked()
      requires Valid()
      modifies this`ip, this`ipLimit, this`peeked, reader
      ensures Valid() && peeked == 0 && ip == ipLimit && Unread() == old(Unread())
      ensures reader.rest == old(reader.rest)[old(peeked)..]
    {
      reader.Skip(peeked);
      ip, ipLimit, peeked := 0, 0, 0;
    }

    /** Makes a fragment that the source shows the buffer. Its length goes into a uint32. */
    method Show()
      requires Valid() && !eof && peeked == 0 && ip == ipLimit
      modifies this`buf, this`ip, this`ipLimit, this`peeked
      ensures Valid() && ip == 0 && ipLimit == |buf| <= |reader.rest| && peeked == |buf| % TWO32
      ensures buf == reader.rest[..|buf|] && (buf == [] <==> reader.rest == [])
      ensures course.Exact? ==> peeked == |buf|
    {
      buf := reader.Peek();
      ip, ipLimit, peeked := 0, |buf|, |buf| % TWO32;
    }

    /** Fetch the next fragment when the buffer is used up. */
    method NextFragment()
      requires Valid() && !eof && ip == ipLimit
      modifies this`buf, this`ip, this`ipLimit, this`peeked, reader
      ensures Valid() && (course.Exact? ==> Rest() == old(Rest()))
      ensures ip == 0 && ipLimit == |buf| && peeked == Buffered() % TWO32
      ensures Unread() == old(Unread()) - peeked
      ensures course.Exact? ==> (ip == ipLimit <==> Rest() == [])
      ensures course.Astray? ==> ip < ipLimit
      ensures ip < ipLimit ==> reader.rest != [] && reader.rest[0] == buf[0]
    {
      ghost var all := Rest();
      assert all == reader.rest[peeked..];
      SkipPeeked();
      Show();
      assert buf[0..ipLimit] == buf;
      assert course.Exact? ==> reader.rest == buf + reader.rest[peeked..];
    }

    /** One round of the stitching loop: how many of the bytes shown next are added, and those bytes. If
        the length of what is shown is 0 in 32 bits, nothing is added: a flat source shows the same
        again, and the loop of the original never ends. Here it is left, without success. */
    method StitchMore(missing: nat) returns (added: seq<byte>)
      requires Valid() && !eof && peeked == 0 && ip == ipLimit && 0 < missing
      modifies reader
      ensures Valid() && old(reader.rest) == added + reader.rest && |added| <= missing
      ensures course.Exact? && added == [] ==> reader.rest == []
    {
      var src := reader.Peek();
      var toAdd := if missing < |src| % TWO32 then missing else |src| % TWO32;
      added := src[..toAdd];
      assert reader.rest == added + reader.rest[toAdd..];
      reader.Skip(toAdd);
    }

    /** Collect the head of one element, `needed` bytes, starting with the first `nbuf` of the buffer. */
    method Collect(nbuf: nat, needed: nat) returns (collected: seq<byte>)
      requires Valid() && !eof && nbuf <= Buffered() && nbuf < needed
      modifies this`ip, this`ipLimit, this`peeked, reader
      ensures Valid() && peeked == 0 && ip == ipLimit && nbuf <= |collected| <= needed
      ensures collected + reader.rest == old(buf[ip..ip + nbuf] + reader.rest[peeked..])
      ensures course.Exact? && |collected| < needed ==> reader.rest == []
    {
      collected := buf[ip..ip + nbuf];
      SkipPeeked();
      ghost var all := collected + reader.rest;
      while |collected| < needed
        invariant Valid() && peeked == 0 && ip == ipLimit && nbuf <= |collected| <= needed
        invariant collected + reader.rest == all
        decreases needed - |collected|
      {
        var added := StitchMore(needed - |collected|);
        if added == [] {
          return;
        }
        collected := collected + added;
      }
    }

    /** Collect the head of one element in scratch memory. */
    method Stitch(nbuf: nat, needed: nat) returns (ok: bool)
      requires Valid() && !eof && nbuf <= Buffered() && nbuf < needed <= MAXIMUM_TAG_LENGTH
      requires course.Exact? ==> nbuf == Buffered()
      requires nbuf == 0 ==> peeked == 0
      modifies this`buf, this`ip, this`ipLimit, this`peeked, this`scratch, reader
      ensures Valid()
      ensures course.Exact? ==> (ok <==> needed <= |old(Rest())|)
      ensures ok && course.Exact? ==> Rest() == old(Rest())
      ensures ok ==> Unread() < old(Unread()) && ip == 0 && ipLimit == needed && |buf| == MAXIMUM_TAG_LENGTH
      ensures ok ==> buf[0] == if nbuf > 0 then old(buf[ip]) else if old(reader.rest) != [] then old(reader.rest)[0]
              else 0
    {
      ghost var first, rest := buf[ip..ip + nbuf], reader.rest[peeked..];
      var collected := Collect(nbuf, needed);
      ok := |collected| == needed;
      if ok {
        assert |collected + reader.rest| == |first + rest|;
        assert collected[0] == (first + rest)[0];
        Keep(collected);
      }
    }

    /** Makes `bytes`, in scratch memory, the buffer. */
    method Keep(bytes: seq<byte>)
      requires Valid() && peeked == 0 && |bytes| <= MAXIMUM_TAG_LENGTH
      modifies this`buf, this`ip, this`ipLimit, this`scratch
      ensures Valid() && Rest() == bytes + reader.rest && |buf| == MAXIMUM_TAG_LENGTH
      ensures ip == 0 && ipLimit == |bytes| && buf[..ipLimit] == bytes
    {
      scratch := bytes + scratch[|bytes|..];
      buf := scratch;
      ip, ipLimit := 0, |bytes|;
      assert buf[0..ipLimit] == bytes && reader.rest[0..] == reader.rest;
    }

    /** A short rest of a fragment is moved into scratch memory, so that loads stay in bounds. */
    method MoveToScratch(nbuf: nat)
      requires Valid() && !eof && nbuf <= Buffered() && nbuf < MAXIMUM_TAG_LENGTH
      requires course.Exact? ==> nbuf == Buffered()
      modifies this`buf, this`ip, this`ipLimit, this`peeked, this`scratch, reader
      ensures Valid() && |buf| == MAXIMUM_TAG_LENGTH && (course.Exact? ==> Rest() == old(Rest()))
      ensures ip == 0 && ipLimit == nbuf && (nbuf > 0 ==> buf[0] == old(buf[ip]))
      ensures Unread() == old(Unread())
    {
      var bytes := buf[ip..ip + nbuf];
      SkipPeeked();
      Keep(bytes);
      assert nbuf > 0 ==> buf[0] == buf[..ipLimit][0];
    }

    /** RefillTag, once there is something in the buffer. */
    method RefillHead() returns (ok: bool)
      requires Valid() && !eof && ip < ipLimit
      requires Buffered() % TWO32 == 0 ==> peeked == 0 && reader.rest != [] && reader.rest[0] == buf[ip]
      modifies this`buf, this`ip, this`ipLimit, this`peeked, this`scratch, reader
      ensures Valid() && (ok ==> HeadReady() && (course.Exact? ==> Rest() == old(Rest())))
      ensures ok ==> Unread() < old(Unread()) || (Unread() == old(Unread()) && Buffered() <= old(Buffered()))
      ensures ok && old(Buffered()) % TWO32 == 0 ==> Unread() < old(Unread())
      ensures !ok && course.Exact? ==> old(Rest()) != [] && HeadAt(old(Rest())) == None
    {
      assert Rest()[0] == buf[ip];
      var entry := Lookup(buf[ip]);
      var needed := entry / 2048 + 1;
      var nbuf := (ipLimit - ip) % TWO32;
      if nbuf < needed {
        ok := Stitch(nbuf, needed);
        return;
      } else if nbuf < MAXIMUM_TAG_LENGTH {
        MoveToScratch(nbuf);
      }
      return true;
    }

    /** The first part of RefillTag: a new fragment if nothing is buffered. */
    method RefillBuffer()
      requires Valid() && !eof && Buffered() < MAXIMUM_TAG_LENGTH
      modifies this`buf, this`ip, this`ipLimit, this`peeked, this`eof, reader
      ensures Valid() && (course.Exact? ==> Rest() == old(Rest())) && (eof <==> ip == ipLimit)
      ensures eof && course.Exact? ==> Rest() == []
      ensures ip < ipLimit && Buffered() % TWO32 == 0 ==> peeked == 0 && reader.rest != [] && reader.rest[0] == buf[ip]
      ensures Unread() <= old(Unread())
      ensures Unread() == old(Unread()) && ip < ipLimit ==> Buffered() <= old(Buffered()) || Buffered() % TWO32 == 0
    {
      if ip == ipLimit {
        NextFragment();
        eof := ip == ipLimit;
      } else {
        assert 0 < Buffered() % TWO32;
      }
    }

    /** RefillTag. While the counts are exact, it fails only at the clean end of the input or inside a
        cut-off head. */
    method RefillTag() returns (ok: bool)
      requires Valid() && !eof && Buffered() < MAXIMUM_TAG_LENGTH
      modifies this`buf, this`ip, this`ipLimit, this`peeked, this`eof, this`scratch, reader
      ensures Valid()
      ensures ok ==> HeadReady() && (course.Exact? ==> Rest() == old(Rest()))
      ensures ok ==> Unread() < old(Unread()) || (Unread() == old(Unread()) && Buffered() <= old(Buffered()))
      ensures !ok && eof && course.Exact? ==> old(Rest()) == []
      ensures !ok && !eof && course.Exact? ==> old(Rest()) != [] && HeadAt(old(Rest())) == None
    {
      RefillBuffer();
      if eof {
        return false;
      }
      ok := RefillHead();
    }

    /** ReadUncompressedLength, a byte at a time. */
    method ReadUncompressedLength() returns (r: Option<nat>)
      requires Valid() && AtStart()
      modifies reader
      ensures Valid()
      ensures r.Some? <==> Preamble(old(reader.rest)).Some?
      ensures r.Some? ==> var (n, k) := Preamble(old(reader.rest)).value;
                          r.value == n && Rest() == old(reader.rest)[k..]
    {
      ghost var c := reader.rest;
      ghost var i: nat := 0;
      var result, shift := 0, 0;
      while true
        invariant i <= 5 && i <= |c| && shift == 7 * i && reader.rest == c[i..]
        invariant forall j :: 0 <= j < i ==> c[j] >= 128
        invariant result == if i == 0 then 0 else GroupSum(c, i - 1)
        decreases 5 - i
      {
        if shift >= 32 {
          PrefixNeverEnds(c, 5);
          return None;
        }
        var fragment := reader.Peek();
        if |fragment| == 0 {
          PrefixNeverEnds(c, 5);
          return None;
        }
        var b := fragment[0];
        assert b == c[i];
        reader.Skip(1);
        var val := b % 128;
        GroupSumStep(c, i);
        if val * Weight(shift) % TWO32 / Weight(shift) != val {
          OverflowIsRefused(c, i);
          return None;
        }
        NoOverflow(val, i);
        result := result + val * Weight(shift);
        if b < 128 {
          PreambleEndsAt(c, i);
          GroupSumFits(c, i);
          assert buf[ip..ipLimit] == [] && reader.rest == c[i + 1..];
          return Some(result);
        }
        shift := shift + 7;
        i := i + 1;
      }
    }

    // ---- Elements ----

    /** The buffer's view of the next head is the stream's. */
    lemma HeadOfBuffer()
      requires HeadReady()
      ensures Rest() != [] && Rest()[0] == buf[ip]
      ensures HeadAt(Rest()).Some?
      ensures ip + 1 + 4 <= |buf|
      ensures Rest()[1..1 + TrailerSize(buf[ip])] == buf[ip + 1..ip + 1 + TrailerSize(buf[ip])]
    {
      var n := 1 + TrailerSize(buf[ip]);
      BufferIsRest(n);
      assert Rest()[..n][1..] == Rest()[1..n];
      assert buf[ip..ip + n][1..] == buf[ip + 1..ip + n];
    }

    lemma BufferIsRest(n: nat)
      requires Valid() && ip + n <= ipLimit
      ensures n <= |Rest()| && Rest()[..n] == buf[ip..ip + n]
    {
      assert buf[ip..ipLimit][..n] == buf[ip..ip + n];
    }

    /** Move past `n` bytes of the buffer. */
    method Consume(n: nat)
      requires Valid() && ip + n <= ipLimit
      modifies this`ip
      ensures Valid() && n <= |old(Rest())| && Rest() == old(Rest())[n..] && ip == old(ip) + n
    {
      ip := ip + n;
    }

    /** Append `n` buffered bytes and move past them. */
    method AppendBuffered(writer: Writer, n: nat) returns (ok: bool)
      requires Valid() && writer.Valid() && this !in writer.Repr() && reader !in writer.Repr() && ip + n <= ipLimit
      modifies this`ip, writer.Repr()
      ensures fresh(writer.Repr() - old(writer.Repr())) && this !in writer.Repr() && reader !in writer.Repr()
      ensures writer.Expected() == old(writer.Expected()) && writer.Beyond() == old(writer.Beyond())
      ensures n <= |old(Rest())| && (ok <==> Fits(old(writer.Out()), writer.Expected(), n))
      ensures Valid()
      ensures ok ==> writer.Valid() && ip == old(ip) + n
      ensures ok ==> Rest() == old(Rest())[n..] && writer.Out() == old(writer.Out()) + old(Rest())[..n]
    {
      BufferIsRest(n);
      ok := writer.Append(buf[ip..ip + n]);
      if ok {
        Consume(n);
      }
    }

    /** Append all that is buffered and fetch the next fragment. */
    method AppendFragment(writer: Writer) returns (ok: bool)
      requires Valid() && !eof && writer.Valid() && this !in writer.Repr() && reader !in writer.Repr()
      modifies this`buf, this`ip, this`ipLimit, this`peeked, reader, writer.Repr()
      ensures fresh(writer.Repr() - old(writer.Repr())) && this !in writer.Repr() && reader !in writer.Repr()
      ensures writer.Expected() == old(writer.Expected()) && writer.Beyond() == old(writer.Beyond())
      ensures Valid()
      ensures var n := old(ipLimit - ip);
              && n <= |old(Rest())| && (ok <==> Fits(old(writer.Out()), writer.Expected(), n))
              && (ok ==> writer.Valid() && (course.Exact? ==> Rest() == old(Rest())[n..]))
              && (ok ==> writer.Out() == old(writer.Out()) + old(Rest())[..n])
      ensures ok && course.Exact? ==> (ip == ipLimit <==> Rest() == [])
    {
      ok := AppendBuffered(writer, ipLimit - ip);
      if ok {
        NextFragment();
      }
    }

    /** One round of the loop below: of the literal, `done` has been written and `left` bytes remain. */
    method FragmentRound(writer: Writer, left: nat, ghost out: seq<byte>, ghost done: seq<byte>)
      returns (ok: bool, left': nat, ghost done': seq<byte>)
      requires Valid() && !eof && writer.Valid() && this !in writer.Repr() && reader !in writer.Repr()
      requires ipLimit - ip < left && writer.Out() == out + done
      modifies this`buf, this`ip, this`ipLimit, this`peeked, reader, writer.Repr()
      ensures fresh(writer.Repr() - old(writer.Repr())) && this !in writer.Repr() && reader !in writer.Repr()
      ensures writer.Expected() == old(writer.Expected()) && writer.Beyond() == old(writer.Beyond())
      ensures Valid() && left' <= left && |done'| + left' == |done| + left
      ensures ok ==> writer.Valid() && ip < ipLimit && (left' < left || old(ip) == old(ipLimit))
      ensures ok ==> writer.Out() == out + done' && (course.Exact? ==> done + old(Rest()) == done' + Rest())
      ensures !ok && course.Exact? ==> left > |old(Rest())| || !Fits(out + done, writer.Expected(), left)
    {
      var avail := ipLimit - ip;
      ghost var rest := Rest();
      MoreOf(out, done, rest, avail);
      ok := AppendFragment(writer);
      ok := ok && ip != ipLimit;
      left', done' := left - avail, done + rest[..avail];
    }

    /** The loop of a literal that is longer than what is buffered: fragment after fragment, until
        the buffer holds what is left of it. */
    method AppendFragments(writer: Writer, length: nat) returns (ok: bool, left: nat, ghost done: seq<byte>)
      requires Valid() && !eof && writer.Valid() && this !in writer.Repr() && reader !in writer.Repr()
      modifies this`buf, this`ip, this`ipLimit, this`peeked, reader, writer.Repr()
      ensures fresh(writer.Repr() - old(writer.Repr())) && this !in writer.Repr() && reader !in writer.Repr()
      ensures writer.Expected() == old(writer.Expected()) && writer.Beyond() == old(writer.Beyond())
      ensures Valid()
      ensures ok ==> writer.Valid() && ip + left <= ipLimit && |done| + left == length
      ensures ok ==> writer.Out() == old(writer.Out()) + done && (course.Exact? ==> old(Rest()) == done + Rest())
      ensures length == 0 ==> Unread() == old(Unread()) && Buffered() == old(Buffered())
      ensures !ok && course.Exact? ==> length > |old(Rest())| || !Fits(old(writer.Out()), writer.Expected(), length)
    {
      ok, done, left := true, [], length;
      while ok && ipLimit - ip < left
        invariant |done| + left == length && Valid()
        invariant fresh(writer.Repr() - old(writer.Repr())) && this !in writer.Repr() && reader !in writer.Repr()
        invariant writer.Expected() == old(writer.Expected()) && writer.Beyond() == old(writer.Beyond())
        invariant ok ==> writer.Valid() && writer.Out() == old(writer.Out()) + done
        invariant ok && course.Exact? ==> old(Rest()) == done + Rest()
        invariant length == 0 ==> Unread() == old(Unread()) && Buffered() == old(Buffered())
        invariant !ok && course.Exact? ==> length > |old(Rest())| || !Fits(old(writer.Out()), writer.Expected(), length)
        decreases ok, left, if ip == ipLimit then 1 else 0
      {
        ok, left, done := FragmentRound(writer, left, old(writer.Out()), done);
      }
    }

    /** What is in the buffer goes to the writer; the rest of a long literal comes from further
        fragments. */
    method AppendLiteral(writer: Writer, length: nat) returns (ok: bool)
      requires Valid() && !eof && writer.Valid() && this !in writer.Repr() && reader !in writer.Repr()
      modifies this`buf, this`ip, this`ipLimit, this`peeked, reader, writer.Repr()
      ensures fresh(writer.Repr() - old(writer.Repr())) && this !in writer.Repr() && reader !in writer.Repr()
      ensures writer.Expected() == old(writer.Expected()) && writer.Beyond() == old(writer.Beyond())
      ensures Valid()
      ensures ok ==> writer.Valid() && |writer.Out()| == |old(writer.Out())| + length
      ensures length == 0 ==> Unread() == old(Unread()) && Buffered() == old(Buffered())
      ensures ok && course.Exact? ==> length <= |old(Rest())| && Rest() == old(Rest())[length..]
      ensures ok && course.Exact? ==> writer.Out() == old(writer.Out()) + old(Rest())[..length]
      ensures !ok && course.Exact? ==> length > |old(Rest())| || !Fits(old(writer.Out()), writer.Expected(), length)
    {
      var left;
      ghost var done, out := [], writer.Out();
      ok, left, done := AppendFragments(writer, length);
      if ok {
        MoreOf(out, done, Rest(), left);
        ok := AppendBuffered(writer, left);
      }
    }

    lemma LiteralHeadHere()
      requires HeadReady() && buf[ip] % 4 == 0
      ensures ip + 1 + 4 <= |buf|
      ensures HeadAt(Rest()) == Some(
                if buf[ip] / 4 < 60 then LiteralHead(1, buf[ip] / 4 + 1)
                else LiteralHead(buf[ip] / 4 - 58, (MaskedLoad(buf, ip + 1, buf[ip] / 4 - 59) + 1) % TWO32))
    {
      HeadOfBuffer();
      MaskedLoadValue(buf, ip + 1, TrailerSize(buf[ip]));
    }

    /** TryFastAppend. If the writer takes the literal, five bytes are still buffered after it. */
    method FastLiteral(writer: Writer, length: nat) returns (fast: bool)
      requires Valid() && writer.Valid() && this !in writer.Repr() && reader !in writer.Repr()
      modifies this`ip, writer.Repr()
      ensures writer.Repr() == old(writer.Repr()) && Valid() && writer.Valid()
      ensures writer.Expected() == old(writer.Expected()) && writer.Beyond() == old(writer.Beyond())
      ensures fast ==> length <= 16 && length <= |old(Rest())| && ip + MAXIMUM_TAG_LENGTH <= ipLimit
      ensures fast ==> Rest() == old(Rest())[length..] && writer.Out() == old(writer.Out()) + old(Rest())[..length]
      ensures !fast ==> ip == old(ip) && writer.Out() == old(writer.Out())
    {
      var src := buf[ip..];
      fast := writer.TryFastAppend(src, ipLimit - ip, length);
      if fast {
        BufferIsRest(length);
        assert src[..length] == buf[ip..ip + length];
        Consume(length);
      }
    }

    /** Past the tag byte, and then TryFastAppend. */
    method TagThenFast(writer: Writer, ghost size: nat) returns (fast: bool, shortLength: nat)
      requires Valid() && writer.Valid() && this !in writer.Repr() && reader !in writer.Repr()
      requires ip < ipLimit && 1 <= size <= |Rest()|
      modifies this`ip, writer.Repr()
      ensures writer.Repr() == old(writer.Repr()) && Valid() && writer.Valid()
      ensures writer.Expected() == old(writer.Expected()) && writer.Beyond() == old(writer.Beyond())
      ensures shortLength == buf[old(ip)] / 4 + 1
      ensures fast ==> shortLength <= 16 && 1 + shortLength <= |old(Rest())| && ip + MAXIMUM_TAG_LENGTH <= ipLimit
      ensures fast ==> Rest() == old(Rest())[1..][shortLength..]
      ensures fast ==> writer.Out() == old(writer.Out()) + old(Rest())[1..][..shortLength]
      ensures !fast ==> ip == old(ip) + 1 && writer.Out() == old(writer.Out())
      ensures !fast ==> size - 1 <= |Rest()| && Rest()[size - 1..] == old(Rest())[size..]
    {
      shortLength := buf[ip] / 4 + 1;
      Consume(1);
      fast := FastLiteral(writer, shortLength);
    }

    /** The length field of a long literal: one more than its value, in 32 bits. */
    method LongLength(lengthLength: nat) returns (length: nat)
      requires Valid() && 1 <= lengthLength <= 4 && ip + 4 <= |buf| && ip + lengthLength <= ipLimit
      modifies this`ip
      ensures Valid() && lengthLength <= |old(Rest())| && Rest() == old(Rest())[lengthLength..]
      ensures length == (MaskedLoad(buf, old(ip), lengthLength) + 1) % TWO32
    {
      length := (MaskedLoad(buf, ip, lengthLength) + 1) % TWO32;
      Consume(lengthLength);
    }

    /** The length of a literal, from the tag byte or from the bytes after it. */
    method LiteralLength(shortLength: nat, ghost size: nat, ghost length: nat) returns (literalLength: nat)
      requires Valid() && 1 <= shortLength <= 64 && ip + 4 <= |buf|
      requires shortLength < 61 ==> size == 0 && length == shortLength
      requires shortLength >= 61 ==> size == shortLength - 60 && ip + size <= ipLimit
      requires shortLength >= 61 ==> length == (MaskedLoad(buf, ip, size) + 1) % TWO32
      modifies this`ip
      ensures Valid() && literalLength == length && ip == old(ip) + size
      ensures size <= |old(Rest())| && Rest() == old(Rest())[size..]
    {
      if shortLength < 61 {
        assert Rest()[0..] == Rest();
        return shortLength;
      }
      literalLength := LongLength(shortLength - 60);
    }

    /** The general path of a literal, after the tag byte, whose upper six bits are one less than
        `shortLength`. */
    method SlowLiteral(writer: Writer, shortLength: nat, ghost size: nat, ghost length: nat) returns (ok: bool)
      requires Valid() && !eof && writer.Valid() && this !in writer.Repr() && reader !in writer.Repr()
      requires 1 <= shortLength <= 64 && ip + 4 <= |buf|
      requires shortLength < 61 ==> size == 0 && length == shortLength
      requires shortLength >= 61 ==> size == shortLength - 60 && ip + size <= ipLimit
      requires shortLength >= 61 ==> length == (MaskedLoad(buf, ip, size) + 1) % TWO32
      modifies this`buf, this`ip, this`ipLimit, this`peeked, reader, writer.Repr()
      ensures fresh(writer.Repr() - old(writer.Repr())) && this !in writer.Repr() && reader !in writer.Repr()
      ensures writer.Expected() == old(writer.Expected()) && writer.Beyond() == old(writer.Beyond())
      ensures size <= |old(Rest())|
      ensures Valid()
      ensures ok ==> writer.Valid() && |writer.Out()| == |old(writer.Out())| + length
      ensures length == 0 ==> Unread() == old(Unread()) && Buffered() == old(Buffered()) - size
      ensures ok && course.Exact? ==> length <= |old(Rest())[size..]| && Rest() == old(Rest())[size..][length..]
      ensures ok && course.Exact? ==> writer.Out() == old(writer.Out()) + old(Rest())[size..][..length]
      ensures !ok && course.Exact? ==>
                length > |old(Rest())[size..]| || !Fits(old(writer.Out()), writer.Expected(), length)
    {
      var literalLength := LiteralLength(shortLength, size, length);
      ok := AppendLiteral(writer, literalLength);
    }

    /** A literal: the fast path if the writer takes it, otherwise the general one. */
    method ReadLiteral(writer: Writer, ghost size: nat, ghost length: nat) returns (ok: bool, fast: bool)
      requires Valid() && !eof && ip + 5 <= |buf| && ip + size <= ipLimit && 1 <= size <= |Rest()|
      requires buf[ip] / 4 < 60 ==> size == 1 && length == buf[ip] / 4 + 1
      requires buf[ip] / 4 >= 60 ==>
                 size == buf[ip] / 4 - 58 && length == (MaskedLoad(buf, ip + 1, size - 1) + 1) % TWO32
      requires writer.Valid() && this !in writer.Repr() && reader !in writer.Repr()
      modifies this`buf, this`ip, this`ipLimit, this`peeked, reader, writer.Repr()
      ensures fresh(writer.Repr() - old(writer.Repr())) && this !in writer.Repr() && reader !in writer.Repr()
      ensures writer.Expected() == old(writer.Expected()) && writer.Beyond() == old(writer.Beyond())
      ensures Valid()
      ensures ok ==> writer.Valid() && |writer.Out()| == |old(writer.Out())| + length
      ensures length == 0 ==> Unread() == old(Unread()) && Buffered() < old(Buffered())
      ensures ok && course.Exact? ==> length <= |old(Rest())[size..]| && Rest() == old(Rest())[size..][length..]
      ensures ok && course.Exact? ==> writer.Out() == old(writer.Out()) + old(Rest())[size..][..length]
      ensures ok && fast ==> ip + MAXIMUM_TAG_LENGTH <= ipLimit
      ensures !ok && course.Exact? ==>
                length > |old(Rest())[size..]| || !Fits(old(writer.Out()), writer.Expected(), length)
    {
      var shortLength;
      fast, shortLength := TagThenFast(writer, size);
      ok := true;
      if !fast {
        ok := SlowLiteral(writer, shortLength, size - 1, length);
      }
    }

    /** An element has been taken: there is more output, or less in the buffer. */
    twostate predicate Advanced(before: seq<byte>, after: seq<byte>)
      reads this`ip, this`ipLimit, this`peeked, reader
    {
      |before| < |after| || (|before| == |after| && Unread() == old(Unread()) && Buffered() < old(Buffered()))
    }

    method LiteralElement(writer: Writer) returns (ok: bool, fast: bool)
      requires HeadReady() && buf[ip] % 4 == 0
      requires writer.Valid() && this !in writer.Repr() && reader !in writer.Repr()
      modifies this`buf, this`ip, this`ipLimit, this`peeked, reader, writer.Repr()
      ensures fresh(writer.Repr() - old(writer.Repr())) && this !in writer.Repr() && reader !in writer.Repr()
      ensures writer.Expected() == old(writer.Expected()) && writer.Beyond() == old(writer.Beyond())
      ensures Valid()
      ensures ok ==> writer.Valid() && Advanced(old(writer.Out()), writer.Out())
      ensures ok && course.Exact? ==> Expand(Rest(), writer.Out()) == Expand(old(Rest()), old(writer.Out()))
      ensures ok && fast ==> ip + MAXIMUM_TAG_LENGTH <= ipLimit
      ensures !ok && course.Exact? ==> Refused(Expand(old(Rest()), old(writer.Out())), writer.Expected())
    {
      LiteralHeadHere();
      ghost var h := HeadAt(Rest()).value;
      LiteralStep(Rest(), writer.Out(), h.size, h.len, writer.Expected());
      ok, fast := ReadLiteral(writer, h.size, h.len);
    }

    lemma CopyHeadHere()
      requires HeadReady() && buf[ip] % 4 != 0
      ensures ip + 1 + 4 <= |buf|
      ensures var c, n := buf[ip], TrailerSize(buf[ip]);
              HeadAt(Rest()) == Some(
                if c % 4 == 1 then CopyHead(1 + n, c / 32 * 256 + MaskedLoad(buf, ip + 1, n), 4 + c / 4 % 8)
                else CopyHead(1 + n, MaskedLoad(buf, ip + 1, n), 1 + c / 4))
    {
      HeadOfBuffer();
      MaskedLoadValue(buf, ip + 1, TrailerSize(buf[ip]));
    }

    lemma MaskedLoadSize(i: nat, k: nat)
      requires i + 4 <= |buf| && k <= 4
      ensures MaskedLoad(buf, i, k) < TWO32
    {
      MaskedLoadValue(buf, i, k);
      LeValueUnrolled(buf[i..i + k]);
    }

    /** The operands of a copy, from the table entry of its tag and the bytes after it. */
    method ReadCopy() returns (offset: nat, length: nat)
      requires HeadReady() && buf[ip] % 4 != 0
      modifies this`ip
      ensures Valid() && offset < TWO64 && length > 0
      ensures exists size: nat ::
        HeadAt(old(Rest())) == Some(CopyHead(size, offset, length)) && Rest() == old(Rest())[size..]
    {
      CopyHeadHere();
      var c := buf[ip];
      var entry := Lookup(c);
      var extra := entry / 2048;
      MaskedLoadSize(ip + 1, extra);
      var trailer := MaskedLoad(buf, ip + 1, extra);
      length := entry % 256;
      var copyOffset := entry / 256 % 8 * 256;
      offset := copyOffset + trailer;
      Consume(1 + extra);
    }

    /** The operands, with what appending such a copy to `out` means. */
    method NextCopy(ghost out: seq<byte>, ghost expected: nat) returns (offset: nat, length: nat)
      requires HeadReady() && buf[ip] % 4 != 0
      modifies this`ip
      ensures Valid() && offset < TWO64 && length > 0
      ensures CopyFits(out, expected, offset, length) ==>
                Expand(Rest(), CopyFromSelf(out, offset, length)) == Expand(old(Rest()), out)
      ensures !CopyFits(out, expected, offset, length) ==> Refused(Expand(old(Rest()), out), expected)
    {
      ghost var rest := Rest();
      offset, length := ReadCopy();
      ghost var size: nat :| HeadAt(rest) == Some(CopyHead(size, offset, length)) && Rest() == rest[size..];
      CopyStep(rest, out, size, offset, length, expected);
    }

    method CopyElement(writer: Writer) returns (ok: bool)
      requires HeadReady() && buf[ip] % 4 != 0
      requires writer.Valid() && this !in writer.Repr() && reader !in writer.Repr()
      modifies this`ip, writer.Repr()
      ensures fresh(writer.Repr() - old(writer.Repr())) && this !in writer.Repr() && reader !in writer.Repr()
      ensures writer.Expected() == old(writer.Expected()) && writer.Beyond() == old(writer.Beyond())
      ensures Valid() && (ok ==> writer.Valid() && |old(writer.Out())| < |writer.Out()|)
      ensures !ok ==> Refused(Expand(old(Rest()), old(writer.Out())), writer.Expected())
      ensures ok ==> Expand(Rest(), writer.Out()) == Expand(old(Rest()), old(writer.Out()))
    {
      var offset, length := NextCopy(writer.Out(), writer.Expected());
      ok := writer.AppendFromSelf(offset, length);
    }

    method MaybeRefill() returns (ok: bool)
      requires Valid() && !eof
      modifies this`buf, this`ip, this`ipLimit, this`peeked, this`eof, this`scratch, reader
      ensures Valid()
      ensures ok ==> HeadReady() && (course.Exact? ==> Rest() == old(Rest()))
      ensures ok ==> Unread() < old(Unread()) || (Unread() == old(Unread()) && Buffered() <= old(Buffered()))
      ensures !ok && eof && course.Exact? ==> old(Rest()) == []
      ensures !ok && !eof && course.Exact? ==> old(Rest()) != [] && HeadAt(old(Rest())) == None
    {
      if ipLimit - ip < MAXIMUM_TAG_LENGTH {
        ok := RefillTag();
      } else {
        ok := true;
      }
    }

    /** MAYBE_REFILL, with what it means when there is nothing more to read. */
    method NextHead(ghost out: seq<byte>) returns (ok: bool)
      requires Valid() && !eof
      modifies this`buf, this`ip, this`ipLimit, this`peeked, this`eof, this`scratch, reader
      ensures Valid()
      ensures ok ==> HeadReady() && (course.Exact? ==> Rest() == old(Rest()))
      ensures ok ==> Unread() < old(Unread()) || (Unread() == old(Unread()) && Buffered() <= old(Buffered()))
      ensures !ok && eof && course.Exact? ==> Expand(old(Rest()), out) == Some(out)
      ensures !ok && !eof && course.Exact? ==> Expand(old(Rest()), out) == None
    {
      EndOfStream(Rest(), out);
      ok := MaybeRefill();
    }

    /** The same, unless the last literal was a fast one, after which no refill is needed. */
    method NextHeadUnless(fast: bool, ghost out: seq<byte>) returns (ok: bool)
      requires Valid() && !eof && (fast ==> ip + MAXIMUM_TAG_LENGTH <= ipLimit)
      modifies this`buf, this`ip, this`ipLimit, this`peeked, this`eof, this`scratch, reader
      ensures Valid()
      ensures ok ==> HeadReady() && (course.Exact? ==> Rest() == old(Rest()))
      ensures ok ==> Unread() < old(Unread()) || (Unread() == old(Unread()) && Buffered() <= old(Buffered()))
      ensures !ok && eof && course.Exact? ==> Expand(old(Rest()), out) == Some(out)
      ensures !ok && !eof && course.Exact? ==> Expand(old(Rest()), out) == None
    {
      ok := true;
      if !fast {
        ok := NextHead(out);
      }
    }

    /** The element at hand, a literal or a copy. */
    method TakeElement(writer: Writer) returns (ok: bool, fast: bool)
      requires HeadReady() && writer.Valid() && this !in writer.Repr() && reader !in writer.Repr()
      modifies this`buf, this`ip, this`ipLimit, this`peeked, reader, writer.Repr()
      ensures fresh(writer.Repr() - old(writer.Repr())) && this !in writer.Repr() && reader !in writer.Repr()
      ensures writer.Expected() == old(writer.Expected()) && writer.Beyond() == old(writer.Beyond())
      ensures Valid() && (ok ==> writer.Valid() && Advanced(old(writer.Out()), writer.Out()))
      ensures ok && course.Exact? ==> Expand(Rest(), writer.Out()) == Expand(old(Rest()), old(writer.Out()))
      ensures ok && fast ==> ip + MAXIMUM_TAG_LENGTH <= ipLimit
      ensures !ok && course.Exact? ==> Refused(Expand(old(Rest()), old(writer.Out())), writer.Expected())
    {
      fast := false;
      if buf[ip] % 4 == 0 {
        ok, fast := LiteralElement(writer);
      } else {
        ok := CopyElement(writer);
      }
    }

    /** One round of the decompression loop. After a fast literal no refill is needed. */
    method OneElement(writer: Writer) returns (ok: bool)
      requires HeadReady() && writer.Valid() && this !in writer.Repr() && reader !in writer.Repr()
      modifies this`buf, this`ip, this`ipLimit, this`peeked, this`eof, this`scratch, reader, writer.Repr()
      ensures fresh(writer.Repr() - old(writer.Repr())) && this !in writer.Repr() && reader !in writer.Repr()
      ensures writer.Expected() == old(writer.Expected()) && writer.Beyond() == old(writer.Beyond())
      ensures Valid() && (ok ==> HeadReady()) && (eof ==> writer.Valid())
      ensures ok ==> writer.Valid() && |writer.Out()| <= writer.Expected() && Closer(old(writer.Out()), writer.Out())
      ensures ok && course.Exact? ==> Expand(Rest(), writer.Out()) == Expand(old(Rest()), old(writer.Out()))
      ensures !ok && eof && course.Exact? ==> Expand(old(Rest()), old(writer.Out())) == Some(writer.Out())
      ensures !ok && !eof && course.Exact? ==> Refused(Expand(old(Rest()), old(writer.Out())), writer.Expected())
    {
      var fast;
      ok, fast := TakeElement(writer);
      if ok {
        writer.LengthChecked();
        ok := NextHeadUnless(fast, writer.Out());
      }
    }

    /** The end is closer: more output, or fewer bytes unread, or fewer in the buffer. */
    twostate predicate Closer(before: seq<byte>, after: seq<byte>)
      reads this`ip, this`ipLimit, this`peeked, reader
    {
      || |before| < |after|
      || (|before| == |after|
          && (Unread() < old(Unread()) || (Unread() == old(Unread()) && Buffered() < old(Buffered()))))
    }

    /** The loop over the elements; `whole` is what the stream at hand expands to. */
    method DecompressElements(writer: Writer, ghost whole: Option<seq<byte>>)
      requires HeadReady() && writer.Valid() && this !in writer.Repr() && reader !in writer.Repr()
      requires |writer.Out()| <= writer.Expected() && (course.Exact? ==> whole == Expand(Rest(), writer.Out()))
      modifies this`buf, this`ip, this`ipLimit, this`peeked, this`eof, this`scratch, reader, writer.Repr()
      ensures writer.Expected() == old(writer.Expected()) && writer.Beyond() == old(writer.Beyond())
      ensures Valid() && (eof ==> writer.Valid())
      ensures course.Exact? && eof ==> whole == Some(writer.Out())
      ensures course.Exact? && !eof ==> Refused(whole, writer.Expected())
    {
      var ok := true;
      while ok
        invariant Valid() && (ok ==> HeadReady()) && (eof ==> !ok && writer.Valid())
        invariant writer.Expected() == old(writer.Expected()) && writer.Beyond() == old(writer.Beyond())
        invariant fresh(writer.Repr() - old(writer.Repr())) && this !in writer.Repr() && reader !in writer.Repr()
        invariant ok ==> writer.Valid() && |writer.Out()| <= writer.Expected()
        invariant ok && course.Exact? ==> Expand(Rest(), writer.Out()) == whole
        invariant !ok && eof && course.Exact? ==> whole == Some(writer.Out())
        invariant !ok && !eof && course.Exact? ==> Refused(whole, writer.Expected())
        decreases ok, if ok then writer.Expected() - |writer.Out()| else 0, Unread(), Buffered()
      {
        ok := OneElement(writer);
      }
    }

    /** The first refill, and the loop. */
    method DecompressTags(writer: Writer, ghost whole: Option<seq<byte>>)
      requires Valid() && !eof && writer.Valid() && this !in writer.Repr() && reader !in writer.Repr()
      requires course.Exact? ==> whole == Expand(Rest(), writer.Out())
      modifies this`buf, this`ip, this`ipLimit, this`peeked, this`eof, this`scratch, reader, writer.Repr()
      ensures writer.Expected() == old(writer.Expected()) && writer.Beyond() == old(writer.Beyond())
      ensures Valid() && (eof ==> writer.Valid())
      ensures course.Exact? && eof ==> whole == Some(writer.Out())
      ensures course.Exact? && !eof ==> Refused(whole, writer.Expected())
    {
      writer.LengthChecked();
      var ok := NextHead(writer.Out());
      if ok {
        DecompressElements(writer, whole);
      }
    }

    /** Whether the counts will be exact is clear before anything is fetched. */
    ghost method SetCourse()
      requires Valid() && AtStart()
      modifies this`course
      ensures Valid() && Rest() == old(Rest()) && course == CourseOf(|reader.rest|, reader.shows)
    {
      course := CourseOf(|reader.rest|, reader.shows);
    }

    /** DecompressAllTags. It stops at the clean end of the input with everything written, or
        because the stream cannot decode to the announced length. A flat source with 2^32 bytes or more
        never comes to its clean end. */
    method DecompressAllTags(writer: Writer)
      requires Valid() && AtStart()
      requires writer.Valid() && this !in writer.Repr() && reader !in writer.Repr()
      modifies this, reader, writer.Repr()
      ensures writer.Expected() == old(writer.Expected()) && writer.Beyond() == old(writer.Beyond())
      ensures Valid() && course == old(CourseOf(|reader.rest|, reader.shows)) && (eof ==> writer.Valid())
      ensures course.Exact? && eof ==> Expand(old(Rest()), old(writer.Out())) == Some(writer.Out())
      ensures course.Exact? && !eof ==> Refused(Expand(old(Rest()), old(writer.Out())), writer.Expected())
      ensures course.Astray? ==> !eof
    {
      SetCourse();
      DecompressTags(writer, Expand(Rest(), writer.Out()));
    }
  }

  // ---- What one element does to the whole ----

  /** The stream cannot decode to the announced length. */
  ghost predicate Refused(t: Option<seq<byte>>, expected: nat) {
    t == None || |t.value| > expected
  }

  lemma LiteralStep(rest: seq<byte>, out: seq<byte>, size: nat, len: nat, expected: nat)
    requires HeadAt(rest) == Some(LiteralHead(size, len))
    ensures size + len <= |rest| ==> Expand(rest, out) == Expand(rest[size..][len..], out + rest[size..][..len])
    ensures len > |rest[size..]| || !Fits(out, expected, len) ==> Refused(Expand(rest, out), expected)
  {
    ExpandStep(rest, out);
    if size + len <= |rest| {
      assert rest[size..][len..] == rest[size + len..];
      assert rest[size..][..len] == rest[size..size + len];
      var next := out + rest[size..size + len];
      if Expand(rest, out).Some? {
        ExpandKeepsPrefix(rest[size + len..], next);
      }
    }
  }

  /** Nothing left, or a head cut short. */
  lemma EndOfStream(rest: seq<byte>, out: seq<byte>)
    ensures rest == [] ==> Expand(rest, out) == Some(out)
    ensures rest != [] && HeadAt(rest) == None ==> Expand(rest, out) == None
  {
    if rest != [] {
      ExpandStep(rest, out);
    }
  }

  lemma CopyStep(rest: seq<byte>, out: seq<byte>, size: nat, offset: nat, len: nat, expected: nat)
    requires HeadAt(rest) == Some(CopyHead(size, offset, len))
    ensures 0 < offset <= |out| ==> Expand(rest, out) == Expand(rest[size..], CopyFromSelf(out, offset, len))
    ensures !CopyFits(out, expected, offset, len) ==> Refused(Expand(rest, out), expected)
  {
    ExpandStep(rest, out);
    if 0 < offset <= |out| && Expand(rest, out).Some? {
      ExpandKeepsPrefix(rest[size..], CopyFromSelf(out, offset, len));
    }
  }

  lemma MoreOf(out: seq<byte>, done: seq<byte>, rest: seq<byte>, n: nat)
    requires n <= |rest|
    ensures done + rest == (done + rest[..n]) + rest[n..]
    ensures (out + done) + rest[..n] == out + (done + rest[..n])
    ensures (done + rest)[..|done| + n] == done + rest[..n] && (done + rest)[|done| + n..] == rest[n..]
  {
  }

  /** `1 << shift` for the five shifts that occur. */
  function Weight(shift: nat): (w: nat)
    ensures w > 0
  {
    if shift == 0 then 1 else if shift == 7 then 0x80 else if shift == 14 then 0x4000
    else if shift == 21 then 0x20_0000 else 0x1000_0000
  }

  lemma GroupSumStep(c: seq<byte>, i: nat)
    requires i < 5 && i < |c|
    ensures GroupSum(c, i) == (if i == 0 then 0 else GroupSum(c, i - 1)) + (c[i] as int) % 128 * Weight(7 * i)
  {
    GroupSumUnrolled(c, i);
    if i > 0 {
      GroupSumUnrolled(c, i - 1);
    }
  }

  /** A group that shifts out of 32 bits makes the whole preamble too large. */
  lemma OverflowIsRefused(c: seq<byte>, i: nat)
    requires i < 5 && i < |c| && forall j :: 0 <= j < i ==> c[j] >= 128
    requires (c[i] as int) % 128 * Weight(7 * i) % TWO32 / Weight(7 * i) != (c[i] as int) % 128
    ensures Preamble(c) == None
  {
    GroupSumStep(c, i);
    assert i == 4 && (c[i] as int) % 128 >= 16;
    if c[4] < 128 {
      PreambleEndsAt(c, 4);
    } else {
      PrefixNeverEnds(c, 5);
    }
  }

  lemma NoOverflow(val: nat, i: nat)
    requires val < 128 && i < 5 && val * Weight(7 * i) % TWO32 / Weight(7 * i) == val
    ensures i == 4 ==> val < 16
  {
  }

  lemma GroupSumFits(c: seq<byte>, i: nat)
    requires i < 5 && i < |c| && (i == 4 ==> (c[4] as int) % 128 < 16)
    ensures GroupSum(c, i) < TWO32
  {
    GroupSumUnrolled(c, i);
  }
}
