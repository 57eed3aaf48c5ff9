/** Bytes, little-endian words and the self-referential copy that both the compressor and
    the decompressor of Snappy are about. */
module Bytes {
  type byte = x: int | 0 <= x < 256 witness 0

  const TWO32: nat := 0x1_0000_0000
  const BLOCK_SIZE: nat := 65536
  const TWO64: nat := 0x1_0000_0000_0000_0000

  /** The number whose little-endian bytes are `s`. */
  function LeValue(s: seq<byte>): nat {
    if s == [] then 0 else s[0] as int + 256 * LeValue(s[1..])
  }

  /** The array from index `limit` on is as it was. */
  twostate predicate KeptFrom(buf: array<byte>, limit: nat)
    reads buf
  {
    forall i :: limit <= i < buf.Length ==> buf[i] == old(buf[i])
  }

  lemma SubSlice(s: seq<byte>, lo: nat, hi: nat, n: nat)
    requires lo + n <= hi <= |s|
    ensures s[lo..hi][..n] == s[lo..lo + n]
  {
  }

  lemma ArrayCut(buf: array<byte>, lo: nat, mid: nat, hi: nat)
    requires lo <= mid <= hi <= buf.Length
    ensures buf[lo..hi] == buf[lo..mid] + buf[mid..hi]
  {
  }

  /** Four bytes loaded at `i` as a little-endian uint32. */
  function Load32(s: seq<byte>, i: nat): (v: nat)
    requires i + 4 <= |s|
    ensures v < TWO32
  {
    s[i] as int + 256 * (s[i + 1] as int) + 0x10000 * (s[i + 2] as int) + 0x100_0000 * (s[i + 3] as int)
  }

  /** `LeValue` of up to five bytes, written out. */
  lemma LeValueUnrolled(s: seq<byte>)
    requires |s| <= 4
    ensures LeValue(s) ==
            (if |s| > 0 then s[0] as int else 0) + (if |s| > 1 then 256 * (s[1] as int) else 0) +
            (if |s| > 2 then 0x10000 * (s[2] as int) else 0) + (if |s| > 3 then 0x100_0000 * (s[3] as int) else 0)
    ensures LeValue(s) < TWO32
  {
    if |s| > 0 {
      LeValueUnrolled(s[1..]);
    }
  }

  lemma OneDigit(a: byte, p: nat, b: byte, q: nat)
    requires a as int + 256 * p == b as int + 256 * q
    ensures a == b && p == q
  {
  }

  /** Equal words are equal bytes: the test `UNALIGNED_LOAD32(ip) == UNALIGNED_LOAD32(candidate)`
      really finds a four-byte match. */
  lemma Load32Bytes(s: seq<byte>, i: nat, t: seq<byte>, j: nat)
    requires i + 4 <= |s| && j + 4 <= |t|
    requires Load32(s, i) == Load32(t, j)
    ensures s[i] == t[j] && s[i + 1] == t[j + 1] && s[i + 2] == t[j + 2] && s[i + 3] == t[j + 3]
  {
    var p := s[i + 2] as int + 256 * (s[i + 3] as int);
    var q := t[j + 2] as int + 256 * (t[j + 3] as int);
    OneDigit(s[i], s[i + 1] as int + 256 * p, t[j], t[j + 1] as int + 256 * q);
    OneDigit(s[i + 1], p, t[j + 1], q);
    OneDigit(s[i + 2], s[i + 3], t[j + 2], t[j + 3]);
  }

  /** What a copy element means: append `len` bytes, one at a time, each read `offset` bytes
      behind the end, so a source that overlaps its destination repeats. */
  function CopyFromSelf(out: seq<byte>, offset: nat, len: nat): (r: seq<byte>)
    requires 0 < offset <= |out|
    ensures |r| == |out| + len
    decreases len
  {
    if len == 0 then out else CopyFromSelf(out + [out[|out| - offset]], offset, len - 1)
  }

  lemma {:induction false} CopyKeepsPrefix(out: seq<byte>, offset: nat, len: nat)
    requires 0 < offset <= |out|
    ensures CopyFromSelf(out, offset, len)[..|out|] == out
    decreases len
  {
    if len > 0 {
      var next := out + [out[|out| - offset]];
      CopyKeepsPrefix(next, offset, len - 1);
      var r := CopyFromSelf(next, offset, len - 1);
      assert r[..|out|] == r[..|next|][..|out|];
    }
  }

  /** Byte `k` of a sequence is the byte `offset` before it. */
  ghost predicate EchoAt(r: seq<byte>, offset: nat, k: nat) {
    offset <= k < |r| && r[k] == r[k - offset]
  }

  /** The recurrence pins the copy down: a sequence that starts with `out` and repeats
      itself `offset` bytes back is the copy. */
  lemma {:induction false} CopyUnique(out: seq<byte>, offset: nat, r: seq<byte>)
    requires 0 < offset <= |out| <= |r|
    requires r[..|out|] == out
    requires forall k :: |out| <= k < |r| ==> EchoAt(r, offset, k)
    ensures CopyFromSelf(out, offset, |r| - |out|) == r
    decreases |r| - |out|
  {
    if |out| < |r| {
      var n := |out|;
      assert EchoAt(r, offset, n);
      assert r[n - offset] == r[..n][n - offset];
      assert r[..n + 1] == out + [out[n - offset]];
      CopyUnique(r[..n + 1], offset, r);
    }
  }

  /** Conversely the copy satisfies the recurrence. */
  lemma {:induction false} CopyEchoes(out: seq<byte>, offset: nat, len: nat, k: nat)
    requires 0 < offset <= |out| <= k < |out| + len
    ensures EchoAt(CopyFromSelf(out, offset, len), offset, k)
    decreases len
  {
    var next := out + [out[|out| - offset]];
    var r := CopyFromSelf(next, offset, len - 1);
    if k == |out| {
      CopyKeepsPrefix(next, offset, len - 1);
      assert r[k] == r[..|next|][k] && r[k - offset] == r[..|next|][k - offset];
    } else {
      CopyEchoes(next, offset, len - 1, k);
    }
  }

  /** Two copies in a row from the same distance are one longer copy. */
  lemma {:induction false} CopySplit(out: seq<byte>, offset: nat, m: nat, n: nat)
    requires 0 < offset <= |out|
    ensures CopyFromSelf(CopyFromSelf(out, offset, m), offset, n) == CopyFromSelf(out, offset, m + n)
    decreases m
  {
    if m > 0 {
      CopySplit(out + [out[|out| - offset]], offset, m - 1, n);
    }
  }

  /** A copy no longer than its distance does not overlap itself. */
  lemma CopyWithoutOverlap(out: seq<byte>, offset: nat, len: nat)
    requires 0 < offset <= |out| && len <= offset
    ensures CopyFromSelf(out, offset, len) == out + out[|out| - offset..|out| - offset + len]
  {
    var r := out + out[|out| - offset..|out| - offset + len];
    assert r[..|out|] == out;
    forall k | |out| <= k < |r|
      ensures EchoAt(r, offset, k)
    {
    }
    CopyUnique(out, offset, r);
  }

  /** A copy that starts inside a suffix concerns only the suffix. */
  lemma {:induction false} CopyInSuffix(front: seq<byte>, back: seq<byte>, offset: nat, len: nat)
    requires 0 < offset <= |back|
    ensures CopyFromSelf(front + back, offset, len) == front + CopyFromSelf(back, offset, len)
    decreases len
  {
    if len > 0 {
      var b := back[|back| - offset];
      assert (front + back)[|front + back| - offset] == b;
      assert front + back + [b] == front + (back + [b]);
      CopyInSuffix(front, back + [b], offset, len - 1);
    }
  }
}
