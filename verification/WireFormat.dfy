/** The compressed format as bytes written out: what every kind of element head means, where a head
    is cut short, and what the five sizes of the preamble announce. Nothing here refers to the tag
    table or to the sizes that `Format` computes. */
module WireFormat {
  import opened Wrappers
  import opened Bytes
  import opened Format
  import opened Varint

  // ---- Element heads ----

  /** A literal of at most 60 bytes has its length in the tag. */
  lemma ShortLiteral(n: nat, rest: seq<byte>)
    requires n < 60
    ensures HeadAt([4 * n] + rest) == Some(LiteralHead(1, n + 1))
  {
    var c: seq<byte> := [4 * n] + rest;
    assert c[0] == 4 * n;
  }

  /** A longer one has it, less one, in one to four bytes. */
  lemma LiteralWithOneByte(n: nat, rest: seq<byte>)
    requires n < 0x100
    ensures HeadAt([240, n] + rest) == Some(LiteralHead(2, n + 1))
  {
    TrailerAt([240, n], rest);
  }

  lemma LiteralWithTwoBytes(n: nat, rest: seq<byte>)
    requires n < 0x1_0000
    ensures HeadAt([244, n % 256, n / 256] + rest) == Some(LiteralHead(3, n + 1))
  {
    TrailerAt([244, n % 256, n / 256], rest);
  }

  lemma LiteralWithThreeBytes(n: nat, rest: seq<byte>)
    requires n < 0x100_0000
    ensures HeadAt([248, n % 256, n / 0x100 % 256, n / 0x1_0000] + rest) == Some(LiteralHead(4, n + 1))
  {
    TrailerAt([248, n % 256, n / 0x100 % 256, n / 0x1_0000], rest);
    ThreeDigits(n);
  }

  /** The longest of these comes out as length 0. */
  lemma LiteralWithFourBytes(n: nat, rest: seq<byte>)
    requires n < 0x1_0000_0000
    ensures HeadAt([252, n % 256, n / 0x100 % 256, n / 0x1_0000 % 256, n / 0x100_0000] + rest)
      == Some(LiteralHead(5, if n == 0xffff_ffff then 0 else n + 1))
  {
    TrailerAt([252, n % 256, n / 0x100 % 256, n / 0x1_0000 % 256, n / 0x100_0000], rest);
    FourDigits(n);
  }

  /** Copies of 4 to 11 bytes from less than 2^11 back: three bits of length, eleven of offset. */
  lemma CopyWithOneByte(offset: nat, len: nat, rest: seq<byte>)
    requires offset < 0x800 && 4 <= len <= 11
    ensures HeadAt([1 + 4 * (len - 4) + 32 * (offset / 256), offset % 256] + rest) == Some(CopyHead(2, offset, len))
  {
    var tag: byte := 1 + 4 * (len - 4) + 32 * (offset / 256);
    TrailerAt([tag, offset % 256], rest);
    assert tag % 4 == 1 && tag / 32 == offset / 256 && tag / 4 % 8 == len - 4;
  }

  lemma CopyWithTwoBytes(offset: nat, len: nat, rest: seq<byte>)
    requires offset < 0x1_0000 && 1 <= len <= 64
    ensures HeadAt([2 + 4 * (len - 1), offset % 256, offset / 256] + rest) == Some(CopyHead(3, offset, len))
  {
    TrailerAt([2 + 4 * (len - 1), offset % 256, offset / 256], rest);
  }

  /** The one that this compressor never emits. */
  lemma CopyWithFourBytes(offset: nat, len: nat, rest: seq<byte>)
    requires offset < 0x1_0000_0000 && 1 <= len <= 64
    ensures var e :=
        [3 + 4 * (len - 1), offset % 256, offset / 0x100 % 256, offset / 0x1_0000 % 256, offset / 0x100_0000];
      HeadAt(e + rest) == Some(CopyHead(5, offset, len))
  {
    var e: seq<byte> :=
      [3 + 4 * (len - 1), offset % 256, offset / 0x100 % 256, offset / 0x1_0000 % 256, offset / 0x100_0000];
    TrailerAt(e, rest);
    FourDigits(offset);
  }

  /** Bytes that a head needs, by kind of tag. There is no other reason for a head to be missing. */
  lemma HeadOrCutShort(c: seq<byte>)
    ensures HeadAt(c) == None <==>
      || c == []
      || (c[0] % 4 == 0 && 60 <= c[0] / 4 && |c| < c[0] / 4 - 58)
      || (c[0] % 4 == 1 && |c| < 2)
      || (c[0] % 4 == 2 && |c| < 3)
      || (c[0] % 4 == 3 && |c| < 5)
  {
  }

  lemma TrailerAt(head: seq<byte>, rest: seq<byte>)
    requires 2 <= |head| <= 5
    ensures var c := head + rest;
      c[0] == head[0] && c[1..|head|] == head[1..] && LeValue(head[1..]) < TWO32 &&
      LeValue(c[1..|head|]) == head[1] as int + (if |head| > 2 then 256 * (head[2] as int) else 0)
        + (if |head| > 3 then 0x1_0000 * (head[3] as int) else 0)
        + (if |head| > 4 then 0x100_0000 * (head[4] as int) else 0)
  {
    assert (head + rest)[1..|head|] == head[1..];
    LeValueUnrolled(head[1..]);
  }

  lemma ThreeDigits(n: nat)
    ensures n == n % 256 + 256 * (n / 0x100 % 256) + 0x1_0000 * (n / 0x1_0000)
  {
    assert n / 0x100 / 0x100 == n / 0x1_0000;
  }

  lemma FourDigits(n: nat)
    ensures n == n % 256 + 256 * (n / 0x100 % 256) + 0x1_0000 * (n / 0x1_0000 % 256) + 0x100_0000 * (n / 0x100_0000)
  {
    ThreeDigits(n);
    assert n / 0x1_0000 / 0x100 == n / 0x100_0000;
  }

  // ---- What the elements do ----

  /** An element with its bytes written out, followed by `rest`: a literal appends its bytes. */
  lemma ExpandLiteral(head: seq<byte>, d: seq<byte>, rest: seq<byte>, out: seq<byte>)
    requires head != [] && HeadAt(head + (d + rest)) == Some(LiteralHead(|head|, |d|))
    ensures Expand(head + d + rest, out) == Expand(rest, out + d)
  {
    var c := head + (d + rest);
    assert head + d + rest == c;
    ExpandStep(c, out);
    assert c[|head|..|head| + |d|] == d && c[|head| + |d|..] == rest;
  }

  /** A copy appends `len` bytes, each the one `offset` before it; nothing decodes past a copy that
      reaches back before the start, or nowhere. */
  lemma ExpandCopy(head: seq<byte>, offset: nat, len: nat, rest: seq<byte>, out: seq<byte>)
    requires head != [] && HeadAt(head + rest) == Some(CopyHead(|head|, offset, len))
    ensures Expand(head + rest, out) ==
      if offset == 0 || |out| < offset then None else Expand(rest, CopyFromSelf(out, offset, len))
  {
    ExpandStep(head + rest, out);
    assert (head + rest)[|head|..] == rest;
  }

  /** A whole stream: a literal, then a copy with a four-byte offset. It decodes if and only if the
      copy starts inside the literal, to the literal extended periodically. */
  lemma LiteralThenFarCopy(d: seq<byte>, offset: nat, len: nat)
    requires 1 <= |d| <= 60 && 1 <= len <= 64 && offset < 0x1_0000_0000
    ensures
      var copy := [3 + 4 * (len - 1), offset % 256, offset / 0x100 % 256, offset / 0x1_0000 % 256, offset / 0x100_0000];
      Decode([|d| + len, 4 * (|d| - 1)] + d + copy) ==
      if offset == 0 || |d| < offset then None else Some(CopyFromSelf(d, offset, len))
  {
    var copy: seq<byte> :=
      [3 + 4 * (len - 1), offset % 256, offset / 0x100 % 256, offset / 0x1_0000 % 256, offset / 0x100_0000];
    var c: seq<byte> := [|d| + len, 4 * (|d| - 1)] + d + copy;
    assert c[1..] == [4 * (|d| - 1)] + d + copy;
    assert Preamble(c) == Some((|d| + len, 1));
    ShortLiteral(|d| - 1, d + copy);
    ExpandLiteral([4 * (|d| - 1)], d, copy, []);
    assert [] + d == d && copy + [] == copy;
    CopyWithFourBytes(offset, len, []);
    ExpandCopy(copy, offset, len, [], d);
    assert 0 < offset <= |d| ==> Expand([], CopyFromSelf(d, offset, len)) == Some(CopyFromSelf(d, offset, len));
  }

  /** One such stream in numbers: any four bytes, and then four from four back. */
  lemma FourByteOffset(d: seq<byte>)
    requires |d| == 4
    ensures Decode([8, 0x0c] + d + [0x0f, 4, 0, 0, 0]) == Some(d + d)
  {
    LiteralThenFarCopy(d, 4, 4);
    CopyWithoutOverlap(d, 4, 4);
    assert d[0..4] == d;
  }

  // ---- The preamble ----

  /** One to five bytes announce a length, seven bits each, the lowest first; a byte below 128 ends it. */
  lemma PreambleWrittenOut(c: seq<byte>, k: nat)
    requires k < 5 && k < |c| && c[k] < 128 && forall j :: 0 <= j < k ==> c[j] >= 128
    ensures
      var n := (c[0] as int) % 128 + (if k > 0 then (c[1] as int) % 128 * 0x80 else 0) +
        (if k > 1 then (c[2] as int) % 128 * 0x4000 else 0) + (if k > 2 then (c[3] as int) % 128 * 0x20_0000 else 0) +
        (if k > 3 then (c[4] as int) % 128 * 0x1000_0000 else 0);
      Preamble(c) == if n < 0x1_0000_0000 then Some((n, k + 1)) else None
  {
    PrefixEndsAt(c, 5, k);
    GroupSumUnrolled(c, k);
  }

  /** No preamble: the bytes run out, or five in a row have the top bit set, or it is 2^32 or more. */
  lemma NoPreamble(c: seq<byte>)
    requires forall k :: 0 <= k < 5 && k < |c| ==> c[k] >= 128
    ensures Preamble(c) == None
  {
    PrefixNeverEnds(c, 5);
  }
}
