/** The decompressor's self-copy inside one buffer: word moves that overlap, proved to be the
    byte-by-byte copy. */
module SelfCopy {
  import opened Bytes

  /** `x` modulo the pattern size `p`, by repeated subtraction. */
  function Wrap(x: nat, p: nat): (r: nat)
    requires p > 0
    ensures r < p
  {
    if x < p then x else Wrap(x - p, p)
  }

  predicate Multiple(d: nat, p: nat)
    requires p > 0
  {
    d == 0 || (d >= p && Multiple(d - p, p))
  }

  lemma {:induction false} WrapShift(x: nat, p: nat, d: nat)
    requires p > 0 && Multiple(d, p)
    ensures Wrap(x + d, p) == Wrap(x, p)
    decreases d
  {
    if d > 0 {
      WrapShift(x, p, d - p);
    }
  }

  lemma {:induction false} MultipleSum(d: nat, e: nat, p: nat)
    requires p > 0 && Multiple(d, p) && Multiple(e, p)
    ensures Multiple(d + e, p)
    decreases d
  {
    if d > 0 {
      MultipleSum(d - p, e, p);
    }
  }

  /** A buffer from `src` on that repeats with period `p`, as far as `end`. */
  ghost predicate Repeats(a: seq<byte>, orig: seq<byte>, src: nat, p: nat, end: nat)
    requires 0 < p && src + p <= |orig| && end <= |a|
  {
    forall k {:trigger a[k]} :: src <= k < end ==> a[k] == orig[src + Wrap(k - src, p)]
  }

  /** UnalignedCopy64: eight bytes are read before eight bytes are written. */
  method UnalignedCopy64(a: array<byte>, src: nat, dst: nat)
    requires src + 8 <= a.Length && dst + 8 <= a.Length
    modifies a
    ensures forall k :: dst <= k < dst + 8 ==> a[k] == old(a[k - dst + src])
    ensures forall k :: 0 <= k < a.Length && !(dst <= k < dst + 8) ==> a[k] == old(a[k])
  {
    var tmp := a[src..src + 8];
    forall k | 0 <= k < 8 {
      a[dst + k] := tmp[k];
    }
  }

  /** IncrementalCopySlow: one byte at a time, upwards. */
  method IncrementalCopySlow(a: array<byte>, src: nat, op: nat, opLimit: nat)
    requires src < op && op <= a.Length && opLimit <= a.Length
    modifies a
    ensures op <= opLimit ==> a[..opLimit] == CopyFromSelf(old(a[..op]), op - src, opLimit - op)
    ensures forall k :: 0 <= k < a.Length && !(op <= k < opLimit) ==> a[k] == old(a[k])
  {
    var s, o := src, op;
    ghost var orig := a[..op];
    while o < opLimit
      invariant op <= o && (o <= opLimit || o == op) && s == o - (op - src)
      invariant a[..o] == CopyFromSelf(orig, op - src, o - op)
      invariant forall k :: 0 <= k < a.Length && !(op <= k < o) ==> a[k] == old(a[k])
    {
      ghost var done := a[..o];
      a[o] := a[s];
      CopySplit(orig, op - src, o - op, 1);
      assert a[..o + 1] == done + [done[s]];
      o, s := o + 1, s + 1;
    }
  }

  /** Moving up to eight bytes up by a multiple of the period keeps the buffer periodic. */
  lemma MoveRepeats(before: seq<byte>, after: seq<byte>, orig: seq<byte>, base: nat, p: nat,
                    src: nat, op: nat, n: nat)
    requires 0 < p && base + p <= |orig|
    requires |before| == |after| && base <= src && src + n <= op && op + n <= |after|
    requires Multiple(op - src, p)
    requires Repeats(before, orig, base, p, op)
    requires forall k :: op <= k < op + n ==> after[k] == before[k - op + src]
    requires forall k :: base <= k < op ==> after[k] == before[k]
    ensures Repeats(after, orig, base, p, op + n)
  {
    forall k | base <= k < op + n
      ensures after[k] == orig[base + Wrap(k - base, p)]
    {
      if k >= op {
        WrapShift(k - op + src - base, p, op - src);
      }
    }
  }

  /** What every branch of IncrementalCopy leaves behind is the copy. */
  lemma RepeatsIsCopy(a: seq<byte>, orig: seq<byte>, src: nat, op: nat, end: nat)
    requires src < op <= end <= |a| && |a| == |orig|
    requires a[..op] == orig[..op]
    requires Repeats(a, orig, src, op - src, end)
    ensures a[..end] == CopyFromSelf(orig[..op], op - src, end - op)
  {
    var p := op - src;
    forall k | op <= k < end
      ensures EchoAt(a[..end], p, k)
    {
      assert a[k] == orig[src + Wrap(k - src, p)];
      assert Wrap(k - src, p) == Wrap(k - src - p, p);
    }
    assert a[..end][..op] == orig[..op];
    CopyUnique(orig[..op], p, a[..end]);
  }

  /** A slow copy that continues a periodic buffer, from a multiple of the period behind. */
  lemma SlowRepeats(a: seq<byte>, orig: seq<byte>, base: nat, p: nat, src: nat, op: nat, end: nat)
    requires 0 < p && base + p <= |orig|
    requires base <= src < op <= end <= |a| && Multiple(op - src, p)
    requires Repeats(a, orig, base, p, op)
    requires a[..end] == CopyFromSelf(a[..op], op - src, end - op)
    ensures Repeats(a, orig, base, p, end)
  {
    SlowRepeatsTo(a, orig, base, p, src, op, end, op);
  }

  lemma {:induction false} SlowRepeatsTo(a: seq<byte>, orig: seq<byte>, base: nat, p: nat, src: nat, op: nat, end: nat,
                                         o: nat)
    requires 0 < p && base + p <= |orig|
    requires base <= src < op <= o <= end <= |a| && Multiple(op - src, p)
    requires Repeats(a, orig, base, p, o)
    requires a[..end] == CopyFromSelf(a[..op], op - src, end - op)
    ensures Repeats(a, orig, base, p, end)
    decreases end - o
  {
    if o < end {
      var d := op - src;
      WrapShift(o - d - base, p, d);
      CopyEchoes(a[..op], d, end - op, o);
      assert EchoAt(a[..end], d, o);
      assert a[o] == a[o - d];
      SlowRepeatsTo(a, orig, base, p, src, op, end, o + 1);
    }
  }

  /** One word move inside the copy; the bytes past `n` of the eight are scratch. */
  method Move(a: array<byte>, src: nat, op: nat, ghost n: nat, ghost orig: seq<byte>, ghost base: nat, ghost p: nat)
    requires 0 < p && base + p <= |orig| && base <= src && src + n <= op && n <= 8 && op + 8 <= a.Length
    requires Multiple(op - src, p)
    requires Repeats(a[..], orig, base, p, op)
    modifies a
    ensures Repeats(a[..], orig, base, p, op + n)
    ensures forall k :: 0 <= k < op || op + 8 <= k < a.Length ==> a[k] == old(a[k])
  {
    UnalignedCopy64(a, src, op);
    MoveRepeats(old(a[..]), a[..], orig, base, p, src, op, n);
  }

  /** The pattern-doubling loop: afterwards the pattern is at least eight bytes. */
  method ExpandPattern(a: array<byte>, src: nat, op: nat, bufLimit: nat, ghost orig: seq<byte>)
    returns (patternSize: nat, o: nat)
    requires src < op && op - src < 8 && op + 14 <= bufLimit <= a.Length && |orig| == a.Length
    requires Repeats(a[..], orig, src, op - src, op)
    modifies a
    ensures 8 <= patternSize <= 14 && o == src + patternSize && op <= o <= bufLimit
    ensures Multiple(patternSize, op - src)
    ensures Repeats(a[..], orig, src, op - src, o)
    ensures forall k :: 0 <= k < op || bufLimit <= k < a.Length ==> a[k] == old(a[k])
  {
    ghost var p := op - src;
    patternSize, o := op - src, op;
    assert Multiple(patternSize - p, p);
    while patternSize < 8
      invariant p <= patternSize <= 14 && Multiple(patternSize, p) && o == src + patternSize
      invariant Repeats(a[..], orig, src, p, o)
      invariant forall k :: 0 <= k < op || bufLimit <= k < a.Length ==> a[k] == old(a[k])
    {
      Move(a, src, o, patternSize, orig, src, p);
      MultipleSum(patternSize, patternSize, p);
      o := o + patternSize;
      patternSize := patternSize * 2;
    }
  }

  /** The unrolled loop and the tail, from a source at least eight bytes behind. */
  method CopyWords(a: array<byte>, src: nat, op: nat, opLimit: nat, bufLimit: nat,
                   ghost orig: seq<byte>, ghost base: nat, ghost p: nat)
    requires 0 < p && base + p <= |orig| && base <= src && src + 8 <= op
    requires op <= bufLimit <= a.Length && opLimit <= bufLimit
    requires Multiple(op - src, p)
    requires Repeats(a[..], orig, base, p, op)
    modifies a
    ensures Repeats(a[..], orig, base, p, opLimit)
    ensures forall k :: 0 <= k < op || bufLimit <= k < a.Length ==> a[k] == old(a[k])
  {
    var s, o := src, op;
    while o + 16 <= bufLimit
      invariant base <= s && o - s == op - src && op <= o <= bufLimit
      invariant Repeats(a[..], orig, base, p, o)
      invariant forall k :: 0 <= k < op || bufLimit <= k < a.Length ==> a[k] == old(a[k])
    {
      Move(a, s, o, 8, orig, base, p);
      Move(a, s + 8, o + 8, 8, orig, base, p);
      s, o := s + 16, o + 16;
      if o >= opLimit { return; }
    }
    if o + 8 <= bufLimit {
      Move(a, s, o, 8, orig, base, p);
      s, o := s + 8, o + 8;
    }
    label tail:
    IncrementalCopySlow(a, s, o, opLimit);
    if o < opLimit {
      assert a[..o] == old@tail(a[..o]);
      SlowRepeats(a[..], orig, base, p, s, o, opLimit);
    }
  }

  /** The branches of IncrementalCopy, on a buffer that trivially repeats its own pattern. */
  method FillPattern(a: array<byte>, src: nat, op: nat, opLimit: nat, bufLimit: nat, ghost orig: seq<byte>)
    requires src < op <= opLimit <= bufLimit <= a.Length && |orig| == a.Length
    requires Repeats(a[..], orig, src, op - src, op)
    requires Multiple(op - src, op - src)
    modifies a
    ensures Repeats(a[..], orig, src, op - src, opLimit)
    ensures forall k :: 0 <= k < op || bufLimit <= k < a.Length ==> a[k] == old(a[k])
  {
    var patternSize, o := op - src, op;
    if patternSize < 8 {
      if op + 14 <= bufLimit {
        patternSize, o := ExpandPattern(a, src, op, bufLimit, orig);
        if o >= opLimit { return; }
      } else {
        IncrementalCopySlow(a, src, op, opLimit);
        assert a[..op] == old(a[..op]);
        SlowRepeats(a[..], orig, src, op - src, src, op, opLimit);
        return;
      }
    }
    CopyWords(a, src, o, opLimit, bufLimit, orig, src, op - src);
  }

  /** IncrementalCopy: for every distance, length and slack, the bytes of the byte-by-byte copy,
      and no store at or past `bufLimit` or before `op`. */
  method IncrementalCopy(a: array<byte>, src: nat, op: nat, opLimit: nat, bufLimit: nat) returns (end: nat)
    requires src < op <= opLimit <= bufLimit <= a.Length
    modifies a
    ensures end == opLimit
    ensures a[..opLimit] == CopyFromSelf(old(a[..op]), op - src, opLimit - op)
    ensures forall k :: bufLimit <= k < a.Length ==> a[k] == old(a[k])
  {
    assert Multiple(op - src, op - src) by {
      assert Multiple(0, op - src);
    }
    ghost var orig := a[..];
    FillPattern(a, src, op, opLimit, bufLimit, orig);
    RepeatsIsCopy(a[..], orig, src, op, opLimit);
    assert orig[..op] == old(a[..op]);
    assert a[..][..opLimit] == a[..opLimit];
    return opLimit;
  }
}
