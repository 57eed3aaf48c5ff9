/** The element encodings the compressor chooses, and what they decode to. */
module Elements {
  import opened Wrappers
  import opened Bytes
  import opened Format

  /** Little-endian bytes of `n`, no leading zero byte. */
  function LeBytes(n: nat): seq<byte> {
    if n == 0 then [] else [n % 256] + LeBytes(n / 256)
  }

  lemma {:induction false} LeBytesValue(n: nat)
    ensures LeValue(LeBytes(n)) == n
  {
    if n > 0 {
      LeBytesValue(n / 256);
      assert LeBytes(n)[1..] == LeBytes(n / 256);
    }
  }

  lemma LeBytesSize(n: nat)
    requires 0 < n < TWO32
    ensures 1 <= |LeBytes(n)| <= 4
    ensures n < 0x100 ==> |LeBytes(n)| == 1
    ensures n < 0x1_0000 ==> |LeBytes(n)| <= 2
  {
    var a := n / 256;
    var b := a / 256;
    var c := b / 256;
    assert c < 256 && |LeBytes(c)| <= 1;
    assert |LeBytes(b)| <= 1 + |LeBytes(c)|;
    assert |LeBytes(a)| <= 1 + |LeBytes(b)|;
  }

  // ---- Literals ----

  /** A literal element carrying the bytes `d`. */
  function LiteralHeader(len: nat): (h: seq<byte>)
    requires 0 < len < TWO32
    ensures 1 <= |h| <= 5
    ensures len <= 60 ==> |h| == 1
    ensures len <= 0x100 ==> |h| <= 2
    ensures len <= 0x1_0000 ==> |h| <= 3
  {
    var n := len - 1;
    if n < 60 then [4 * n]
    else
      LeBytesSize(n);
      [4 * (59 + |LeBytes(n)|)] + LeBytes(n)
  }

  function LiteralBytes(d: seq<byte>): seq<byte>
    requires 0 < |d| < TWO32
  {
    LiteralHeader(|d|) + d
  }

  lemma LiteralHeaderHead(len: nat, d: seq<byte>)
    requires 0 < len < TWO32
    ensures HeadAt(LiteralHeader(len) + d) == Some(LiteralHead(|LiteralHeader(len)|, len))
  {
    var n := len - 1;
    var c := LiteralHeader(len) + d;
    if n >= 60 {
      LeBytesSize(n);
      LeBytesValue(n);
      assert c[1..1 + |LeBytes(n)|] == LeBytes(n);
    }
  }

  lemma LiteralDecodes(d: seq<byte>, out: seq<byte>)
    requires 0 < |d| < TWO32
    ensures Expand(LiteralBytes(d), out) == Some(out + d)
  {
    var h := LiteralHeader(|d|);
    LiteralHeaderHead(|d|, d);
    ExpandOne(h + d, out, LiteralHead(|h|, |d|));
    assert (h + d)[|h|..] == d;
  }

  // ---- Copies ----

  /** One copy element: two bytes when the length is below 12 and the offset fits 11 bits. */
  function CopyElement(offset: nat, len: nat): (e: seq<byte>)
    requires 4 <= len <= 64 && offset < 0x1_0000
    ensures |e| == if len < 12 && offset < 2048 then 2 else 3
  {
    if len < 12 && offset < 2048 then
      [1 + 4 * (len - 4) + 32 * (offset / 256), offset % 256]
    else
      [2 + 4 * (len - 1), offset % 256, offset / 256]
  }

  lemma ShortCopyHead(offset: nat, len: nat)
    requires 4 <= len < 12 && offset < 2048
    ensures var e := [1 + 4 * (len - 4) + 32 * (offset / 256), offset % 256];
            HeadAt(e) == Some(CopyHead(2, offset, len))
  {
    var e: seq<byte> := [1 + 4 * (len - 4) + 32 * (offset / 256), offset % 256];
    LeValueUnrolled(e[1..2]);
    var tag := e[0];
    assert tag % 4 == 1 && tag / 32 == offset / 256 && tag / 4 % 8 == len - 4;
  }

  lemma LongCopyHead(offset: nat, len: nat)
    requires 4 <= len <= 64 && offset < 0x1_0000
    ensures var e := [2 + 4 * (len - 1), offset % 256, offset / 256];
            HeadAt(e) == Some(CopyHead(3, offset, len))
  {
    var e: seq<byte> := [2 + 4 * (len - 1), offset % 256, offset / 256];
    LeValueUnrolled(e[1..3]);
    var tag := e[0];
    assert tag % 4 == 2 && tag / 4 == len - 1;
  }

  lemma CopyElementDecodes(offset: nat, len: nat, out: seq<byte>)
    requires 4 <= len <= 64 && 0 < offset < 0x1_0000 && offset <= |out|
    ensures Expand(CopyElement(offset, len), out) == Some(CopyFromSelf(out, offset, len))
  {
    if len < 12 && offset < 2048 {
      ShortCopyHead(offset, len);
      ExpandOne(CopyElement(offset, len), out, CopyHead(2, offset, len));
    } else {
      LongCopyHead(offset, len);
      ExpandOne(CopyElement(offset, len), out, CopyHead(3, offset, len));
    }
  }

  /** A match as copy elements: 64 bytes each while at least 68 remain. */
  function CopyBytes(offset: nat, len: nat): seq<byte>
    requires 4 <= len && offset < 0x1_0000
  {
    if len >= 68 then CopyElement(offset, 64) + CopyBytes(offset, len - 64)
    else if len > 64 then CopyElement(offset, 60) + CopyElement(offset, len - 60)
    else CopyElement(offset, len)
  }

  /** The pieces together are the one long copy, and take fewer bytes than the match. */
  lemma {:induction false} CopyBytesDecode(offset: nat, len: nat, out: seq<byte>)
    requires 4 <= len && 0 < offset < 0x1_0000 && offset <= |out|
    ensures Expand(CopyBytes(offset, len), out) == Some(CopyFromSelf(out, offset, len))
    ensures 0 < |CopyBytes(offset, len)| < len
    decreases len
  {
    if len > 64 {
      var n := if len >= 68 then 64 else 60;
      var mid := CopyFromSelf(out, offset, n);
      CopyKeepsPrefix(out, offset, n);
      CopyElementDecodes(offset, n, out);
      CopyBytesDecode(offset, len - n, mid);
      CopySplit(out, offset, n, len - n);
      assert CopyBytes(offset, len) == CopyElement(offset, n) + CopyBytes(offset, len - n);
      ExpandTwo(CopyElement(offset, n), CopyBytes(offset, len - n), out, mid, CopyFromSelf(out, offset, len));
    } else {
      CopyElementDecodes(offset, len, out);
    }
  }

  /** One piece of three bytes for every 64 bytes begun. */
  lemma {:induction false} CopyBytesSize(offset: nat, len: nat)
    requires 4 <= len && offset < 0x1_0000
    ensures |CopyBytes(offset, len)| <= 3 * ((len + 63) / 64)
    decreases len
  {
    if len >= 68 {
      CopyBytesSize(offset, len - 64);
      assert (len - 64 + 63) / 64 == (len + 63) / 64 - 1;
    }
  }

  // ---- Emitting ----

  /** memcpy from the input into the output buffer; UnalignedCopy128 is the one of sixteen bytes. */
  method CopyIn(src: seq<byte>, from: nat, buf: array<byte>, op: nat, len: nat)
    requires from + len <= |src| && op + len <= buf.Length
    modifies buf
    ensures buf[op..op + len] == src[from..from + len]
    ensures buf[..op] == old(buf[..op])
    ensures forall i :: 0 <= i < buf.Length && !(op <= i < op + len) ==> buf[i] == old(buf[i])
  {
    forall k | 0 <= k < len {
      buf[op + k] := src[from + k];
    }
  }

  /** The length of a long literal, low byte first. */
  method EmitLength(buf: array<byte>, op: nat, len: nat) returns (end: nat, count: nat)
    requires op + |LeBytes(len)| <= buf.Length
    modifies buf
    ensures count == |LeBytes(len)| && end == op + count && buf[op..end] == LeBytes(len)
    ensures forall i :: 0 <= i < buf.Length && !(op <= i < end) ==> buf[i] == old(buf[i])
  {
    var n := len;
    end, count := op, 0;
    while n > 0
      invariant end == op + count && count + |LeBytes(n)| == |LeBytes(len)|
      invariant buf[op..end] + LeBytes(n) == LeBytes(len)
      invariant forall i :: 0 <= i < buf.Length && !(op <= i < end) ==> buf[i] == old(buf[i])
    {
      ghost var done := buf[op..end];
      assert done + LeBytes(n) == done + [n % 256] + LeBytes(n / 256);
      buf[end] := n % 256;
      assert buf[op..end + 1] == done + [n % 256];
      end, n, count := end + 1, n / 256, count + 1;
    }
  }

  /** The tag byte, and for long literals the length bytes. */
  method EmitLiteralHeader(buf: array<byte>, op: nat, len: nat) returns (end: nat)
    requires 0 < len < TWO32
    requires op + |LiteralHeader(len)| <= buf.Length
    modifies buf
    ensures end == op + |LiteralHeader(len)| && buf[op..end] == LiteralHeader(len)
    ensures buf[..op] == old(buf[..op])
    ensures forall i :: 0 <= i < buf.Length && !(op <= i < end) ==> buf[i] == old(buf[i])
  {
    if len - 1 < 60 {
      buf[op] := 4 * (len - 1);
      end := op + 1;
    } else {
      end := EmitLongHeader(buf, op, len - 1);
    }
  }

  /** A tag byte that says how many bytes the length takes, and those bytes. */
  method EmitLongHeader(buf: array<byte>, op: nat, n: nat) returns (end: nat)
    requires 60 <= n < TWO32 - 1 && op + 1 + |LeBytes(n)| <= buf.Length
    modifies buf
    ensures end == op + 1 + |LeBytes(n)| && |LeBytes(n)| <= 4
    ensures buf[op..end] == [4 * (59 + |LeBytes(n)|)] + LeBytes(n)
    ensures forall i :: 0 <= i < buf.Length && !(op <= i < end) ==> buf[i] == old(buf[i])
  {
    var count;
    end, count := EmitLength(buf, op + 1, n);
    LeBytesSize(n);
    ghost var bytes := buf[op + 1..end];
    buf[op] := 4 * (59 + count);
    assert buf[op + 1..end] == bytes;
    ArrayCut(buf, op, op + 1, end);
  }

  /** The fast path of EmitLiteral: sixteen bytes are stored whatever `len` is. */
  method EmitShortLiteral(buf: array<byte>, op: nat, input: seq<byte>, from: nat, len: nat) returns (end: nat)
    requires 0 < len <= 16 && from + 16 <= |input| && op + 17 <= buf.Length
    modifies buf
    ensures end == op + 1 + len
    ensures buf[op..end] == LiteralBytes(input[from..from + len])
    ensures buf[..op] == old(buf[..op])
    ensures KeptFrom(buf, op + 17)
  {
    buf[op] := 4 * (len - 1);
    CopyIn(input, from, buf, op + 1, 16);
    end := op + 1 + len;
    SubSlice(buf[..], op + 1, op + 17, len);
    SubSlice(input, from, from + 16, len);
    assert buf[..][op + 1..op + 17] == buf[op + 1..op + 17] && buf[..][op + 1..end] == buf[op + 1..end];
    ArrayCut(buf, op, op + 1, end);
  }

  method EmitLongLiteral(buf: array<byte>, op: nat, input: seq<byte>, from: nat, len: nat) returns (end: nat)
    requires 0 < len < TWO32 && from + len <= |input|
    requires op + |LiteralHeader(len)| + len <= buf.Length
    modifies buf
    ensures end == op + |LiteralHeader(len)| + len
    ensures buf[op..end] == LiteralBytes(input[from..from + len])
    ensures buf[..op] == old(buf[..op])
    ensures KeptFrom(buf, end)
  {
    var p := EmitLiteralHeader(buf, op, len);
    ghost var before := buf[..p];
    CopyIn(input, from, buf, p, len);
    end := p + len;
    ArrayCut(buf, op, p, end);
    assert buf[..op] == before[..op] && buf[op..p] == before[op..];
  }

  /** EmitLiteral. Every store, that of the fast path too, lies in the buffer. */
  method EmitLiteral(buf: array<byte>, op: nat, input: seq<byte>, from: nat, len: nat, allowFastPath: bool)
    returns (end: nat)
    requires 0 < len < TWO32 && from + len <= |input|
    requires allowFastPath ==> from + 16 <= |input| && op + 17 <= buf.Length
    requires op + |LiteralHeader(len)| + len <= buf.Length
    modifies buf
    ensures end == op + |LiteralHeader(len)| + len
    ensures buf[op..end] == LiteralBytes(input[from..from + len])
    ensures buf[..op] == old(buf[..op])
    ensures KeptFrom(buf, if allowFastPath && end < op + 17 then op + 17 else end)
  {
    if allowFastPath && len <= 16 {
      end := EmitShortLiteral(buf, op, input, from, len);
    } else {
      end := EmitLongLiteral(buf, op, input, from, len);
    }
  }

  /** LittleEndian::Store32 of a word given by its bytes. */
  method Store32(buf: array<byte>, op: nat, u: seq<byte>)
    requires |u| == 4 && op + 4 <= buf.Length
    modifies buf
    ensures buf[op..op + 4] == u
    ensures forall i :: 0 <= i < buf.Length && !(op <= i < op + 4) ==> buf[i] == old(buf[i])
  {
    forall k | 0 <= k < 4 {
      buf[op + k] := u[k];
    }
  }

  /** EmitCopyAtMost64. The three-byte form stores a fourth byte past the end. */
  method EmitCopyAtMost64(buf: array<byte>, op: nat, offset: nat, len: nat, lenLessThan12: bool) returns (end: nat)
    requires 4 <= len <= 64 && offset < 0x1_0000 && lenLessThan12 == (len < 12)
    requires op + 4 <= buf.Length
    modifies buf
    ensures end == op + if len < 12 && offset < 2048 then 2 else 3
    ensures buf[op..end] == CopyElement(offset, len)
    ensures buf[..op] == old(buf[..op])
    ensures KeptFrom(buf, op + 4)
  {
    if lenLessThan12 && offset < 2048 {
      buf[op] := 1 + 4 * (len - 4) + offset / 8 / 32 % 8 * 32;
      buf[op + 1] := offset % 256;
      end := op + 2;
      assert offset / 8 / 32 % 8 == offset / 256;
    } else {
      Store32(buf, op, [2 + 4 * (len - 1), offset % 256, offset / 256, 0]);
      end := op + 3;
      assert buf[op..end] == buf[op..op + 4][..3];
    }
  }

  /** One more piece of a match, after what has been emitted from `start` on. */
  method EmitPiece(buf: array<byte>, ghost start: nat, op: nat, offset: nat, len: nat, lenLessThan12: bool)
    returns (end: nat)
    requires 4 <= len <= 64 && offset < 0x1_0000 && lenLessThan12 == (len < 12)
    requires start <= op && op + 4 <= buf.Length
    modifies buf
    ensures op < end <= op + 3 && buf[start..end] == old(buf[start..op]) + CopyElement(offset, len)
    ensures buf[..start] == old(buf[..start])
    ensures KeptFrom(buf, op + 4)
  {
    ghost var before := buf[..op];
    end := EmitCopyAtMost64(buf, op, offset, len, lenLessThan12);
    assert buf[start..op] == before[start..] && buf[..start] == before[..start];
    ArrayCut(buf, start, op, end);
  }

  /** EmitCopy: copies of 64 bytes while at least 68 remain, so that no piece is shorter than four. */
  method EmitCopy(buf: array<byte>, op: nat, offset: nat, len: nat, lenLessThan12: bool) returns (end: nat)
    requires 4 <= len && offset < 0x1_0000 && lenLessThan12 == (len < 12)
    requires op + len <= buf.Length
    modifies buf
    ensures op < end < op + len && buf[op..end] == CopyBytes(offset, len)
    ensures buf[..op] == old(buf[..op])
    ensures KeptFrom(buf, op + len)
  {
    if lenLessThan12 {
      end := EmitCopyAtMost64(buf, op, offset, len, true);
      return;
    }
    var left := len;
    end := op;
    while left >= 68
      invariant 4 <= left <= len
      invariant op <= end && end + left <= op + len
      invariant buf[..op] == old(buf[..op]) && KeptFrom(buf, op + len)
      invariant buf[op..end] + CopyBytes(offset, left) == CopyBytes(offset, len)
    {
      ghost var done := buf[op..end];
      assert done + (CopyElement(offset, 64) + CopyBytes(offset, left - 64)) ==
             done + CopyElement(offset, 64) + CopyBytes(offset, left - 64);
      end := EmitPiece(buf, op, end, offset, 64, false);
      left := left - 64;
    }
    end := EmitLast(buf, op, end, offset, left);
  }

  /** The last one or two pieces. */
  method EmitLast(buf: array<byte>, ghost start: nat, op: nat, offset: nat, len: nat) returns (end: nat)
    requires 4 <= len < 68 && offset < 0x1_0000
    requires start <= op && op + len <= buf.Length
    modifies buf
    ensures op < end < op + len && buf[start..end] == old(buf[start..op]) + CopyBytes(offset, len)
    ensures buf[..start] == old(buf[..start])
    ensures KeptFrom(buf, op + len)
  {
    var left, p := len, op;
    if left > 64 {
      p := EmitPiece(buf, start, p, offset, 60, false);
      left := left - 60;
    }
    end := EmitPiece(buf, start, p, offset, left, left < 12);
  }
}
