/** What compression is for, at its simplest: input that repeats one byte comes out about twenty times
    smaller, whatever the hash function. */
module EqualBytes {
  import opened Bytes
  import opened Elements
  import opened MatchLength
  import opened CompressedForm

  ghost predicate AllEqual(x: seq<byte>) {
    forall i :: 0 <= i < |x| ==> x[i] == x[0]
  }

  /** All the rest of the block agrees. */
  lemma {:induction false} LongestToEnd(x: seq<byte>, i: nat, j: nat)
    requires AllEqual(x) && i <= j <= |x|
    ensures Longest(x, i, j) == |x| - j
    decreases |x| - j
  {
    if j < |x| {
      LongestToEnd(x, i + 1, j + 1);
    }
  }

  /** The first probe, at 1, finds the zero that the table starts with. */
  lemma FirstProbe(x: seq<byte>, table: seq<nat>, hash: nat -> nat, ipLimit: nat)
    requires AllEqual(x) && ipLimit + INPUT_MARGIN == |x| && 2 <= ipLimit && InTable(hash, |table|)
    requires forall h :: 0 <= h < |table| ==> table[h] == 0
    ensures var s := ScanFrom(x, table, hash, 1, 32, ipLimit);
      s.Match? && s.at == 1 && s.candidate == 0
  {
    ScanUnfold(x, table, hash, 1, 32, ipLimit);
    assert x[1] == x[0] && x[2] == x[1] && x[3] == x[2] && x[4] == x[3];
    assert Load32(x, 1) == Load32(x, 0);
  }

  /** One literal byte, and a copy that goes to the end of the block. */
  lemma OneStretch(x: seq<byte>, table: seq<nat>, hash: nat -> nat, ipLimit: nat)
    requires AllEqual(x) && ipLimit + INPUT_MARGIN == |x| <= BLOCK_SIZE && 2 <= ipLimit && InTable(hash, |table|)
    requires forall h :: 0 <= h < |table| ==> table[h] == 0
    ensures Matches(x, table, hash, 1, 0, ipLimit) == (LiteralBytes(x[0..1]) + CopyBytes(1, |x| - 1), |x|)
  {
    FirstProbe(x, table, hash, ipLimit);
    var t := ScanFrom(x, table, hash, 1, 32, ipLimit).table;
    LongestToEnd(x, 4, 5);
    CopiesUnfold(x, t, hash, 0, 1, ipLimit);
    MatchesUnfold(x, table, hash, 1, 0, ipLimit);
  }

  lemma FragmentOfEqual(x: seq<byte>, size: nat, hash: nat -> nat)
    requires AllEqual(x) && 17 <= |x| <= BLOCK_SIZE && InTable(hash, size)
    ensures |Fragment(x, size, hash)| <= 2 + 3 * ((|x| + 62) / 64)
  {
    OneStretch(x, seq(size, _ => 0), hash, |x| - INPUT_MARGIN);
    CopyBytesSize(1, |x| - 1);
  }

  /** A block of any length, if it costs at most `n + n / 30 + 1` bytes in any case. */
  lemma SizeOfEqual(x: seq<byte>, size: nat, hash: nat -> nat)
    requires AllEqual(x) && |x| <= BLOCK_SIZE && InTable(hash, size)
    requires |Fragment(x, size, hash)| <= |x| + |x| / 30 + 1
    ensures 17 <= |x| ==> |Fragment(x, size, hash)| <= 2 + 3 * ((|x| + 62) / 64)
    ensures |Fragment(x, size, hash)| <= 18 + 3 * (|x| / 64)
  {
    if 17 <= |x| {
      FragmentOfEqual(x, size, hash);
      assert (|x| + 62) / 64 <= 1 + |x| / 64;
    }
  }
}
