/** The bytes that the compressor writes, as functions of the input and the hash function alone:
    greedy matching against one remembered position per hash value. */
module CompressedForm {
  import opened Bytes
  import opened Elements
  import opened MatchLength

  const INPUT_MARGIN: nat := 15
  const MAX_HASH_TABLE_SIZE: nat := 16384

  // ---- Matches ----

  /** On how many bytes `i` and `j` agree. */
  function Longest(s: seq<byte>, i: nat, j: nat): (n: nat)
    requires i <= j <= |s|
    ensures j + n <= |s|
    decreases |s| - j
  {
    if j < |s| && s[i] == s[j] then 1 + Longest(s, i + 1, j + 1) else 0
  }

  lemma {:induction false} LongestIs(s: seq<byte>, i: nat, j: nat, n: nat)
    requires LongestMatch(s, i, j, |s|, n)
    ensures n == Longest(s, i, j)
    decreases n
  {
    if n > 0 {
      AgreeAt(s, i, j, n, 0);
      AgreeTail(s, i, j, n);
      LongestIs(s, i + 1, j + 1, n - 1);
    }
  }

  lemma {:induction false} AgreeTail(s: seq<byte>, i: nat, j: nat, n: nat)
    requires AgreeFor(s, i, j, n) && n > 0
    ensures AgreeFor(s, i + 1, j + 1, n - 1)
  {
    if n > 1 {
      AgreeTail(s, i, j, n - 1);
    }
  }

  lemma {:induction false} LongestMatches(s: seq<byte>, i: nat, j: nat)
    requires i <= j <= |s|
    ensures LongestMatch(s, i, j, |s|, Longest(s, i, j))
    decreases |s| - j
  {
    if j < |s| && s[i] == s[j] {
      LongestMatches(s, i + 1, j + 1);
      assert AgreeFor(s, i, j, 1) by {
        assert AgreeFor(s, i, j, 0);
      }
      AgreeExtend(s, i, j, 1, Longest(s, i + 1, j + 1));
    }
  }

  // ---- The hash table ----

  predicate IsTableSize(size: nat) {
    size == 256 || size == 512 || size == 1024 || size == 2048 || size == 4096 || size == 8192 || size == 16384
  }

  /** The first power of two from `size` on that is large enough for the block, or the largest allowed. */
  function TableSizeFrom(size: nat, inputSize: nat): (r: nat)
    requires IsTableSize(size)
    ensures IsTableSize(r)
    decreases MAX_HASH_TABLE_SIZE - size
  {
    if size < MAX_HASH_TABLE_SIZE && size < inputSize then TableSizeFrom(size * 2, inputSize) else size
  }

  function TableSize(inputSize: nat): (r: nat)
    ensures IsTableSize(r)
  {
    TableSizeFrom(256, inputSize)
  }

  // ---- Blocks ----

  /** Every entry is a position before `ip`; in particular it fits 16 bits. */
  ghost predicate Behind(table: seq<nat>, ip: nat) {
    forall h :: 0 <= h < |table| ==> table[h] < ip
  }

  ghost predicate InTable(hash: nat -> nat, size: nat) {
    forall w :: hash(w) < size
  }

  datatype Scan = NoMatch | Match(at: nat, candidate: nat, table: seq<nat>)

  /** Step 1: look for four bytes seen before, skipping faster the longer nothing is found. The layers
      let the verifier treat this as a black box wherever `ScanUnfold` is not called. */
  ghost function ScanFrom(input: seq<byte>, table: seq<nat>, hash: nat -> nat, ip: nat, skip: nat,
                          ipLimit: nat): (r: Scan)
    requires ipLimit + INPUT_MARGIN == |input| && InTable(hash, |table|)
    requires ip <= ipLimit + 1 && Behind(table, ip) && skip >= 32
    ensures r.Match? ==> ip <= r.at < ipLimit && r.candidate < r.at && |r.table| == |table| && Behind(r.table, r.at + 1)
    decreases ipLimit + 1 - ip, 2
  {
    ScanOn(input, table, hash, ip, skip, ipLimit)
  }

  ghost function ScanOn(input: seq<byte>, table: seq<nat>, hash: nat -> nat, ip: nat, skip: nat,
                        ipLimit: nat): (r: Scan)
    requires ipLimit + INPUT_MARGIN == |input| && InTable(hash, |table|)
    requires ip <= ipLimit + 1 && Behind(table, ip) && skip >= 32
    ensures r.Match? ==> ip <= r.at < ipLimit && r.candidate < r.at && |r.table| == |table| && Behind(r.table, r.at + 1)
    decreases ipLimit + 1 - ip, 1
  {
    ScanStep(input, table, hash, ip, skip, ipLimit)
  }

  ghost function ScanStep(input: seq<byte>, table: seq<nat>, hash: nat -> nat, ip: nat, skip: nat,
                          ipLimit: nat): (r: Scan)
    requires ipLimit + INPUT_MARGIN == |input| && InTable(hash, |table|)
    requires ip <= ipLimit + 1 && Behind(table, ip) && skip >= 32
    ensures r.Match? ==> ip <= r.at < ipLimit && r.candidate < r.at && |r.table| == |table| && Behind(r.table, r.at + 1)
    decreases ipLimit + 1 - ip, 0
  {
    var nextIp := ip + skip / 32;
    if nextIp > ipLimit then NoMatch
    else
      var h := hash(Load32(input, ip));
      if Load32(input, ip) == Load32(input, table[h]) then Match(ip, table[h], table[h := ip])
      else ScanFrom(input, table[h := ip], hash, nextIp, skip + skip / 32, ipLimit)
  }

  lemma ScanUnfold(input: seq<byte>, table: seq<nat>, hash: nat -> nat, ip: nat, skip: nat, ipLimit: nat)
    requires ipLimit + INPUT_MARGIN == |input| && InTable(hash, |table|)
    requires ip <= ipLimit + 1 && Behind(table, ip) && skip >= 32
    ensures ScanFrom(input, table, hash, ip, skip, ipLimit) == ScanStep(input, table, hash, ip, skip, ipLimit)
  {
    assert ScanFrom(input, table, hash, ip, skip, ipLimit) == ScanOn(input, table, hash, ip, skip, ipLimit);
  }

  /** One iteration of Step 3: the copies, where they end, whether there is input left to match, and
      whether the next four bytes have been seen before, at `candidate`. */
  datatype Round = Round(bytes: seq<byte>, next: nat, more: bool, again: bool, candidate: nat, table: seq<nat>)

  ghost function CopyRound(input: seq<byte>, table: seq<nat>, hash: nat -> nat, candidate: nat, ip: nat,
                           ipLimit: nat): (r: Round)
    requires ipLimit + INPUT_MARGIN == |input| <= BLOCK_SIZE && InTable(hash, |table|)
    requires candidate < ip < ipLimit && Behind(table, ip + 1)
    ensures ip + 4 <= r.next <= |input|
    ensures r.more ==> r.next < ipLimit && |r.table| == |table| && Behind(r.table, r.next + 1) && r.candidate < r.next
    ensures r.again ==> r.more && Load32(input, r.next) == Load32(input, r.candidate)
  {
    var next := ip + 4 + Longest(input, candidate + 4, ip + 4);
    var bytes := CopyBytes(ip - candidate, next - ip);
    if next >= ipLimit then Round(bytes, next, false, false, 0, table)
    else
      var t := table[hash(Load32(input, next - 1)) := next - 1];
      var h := hash(Load32(input, next));
      Round(bytes, next, true, Load32(input, next) == Load32(input, t[h]), t[h], t[h := next])
  }

  datatype Run = Run(bytes: seq<byte>, next: nat, more: bool, table: seq<nat>)

  function Prepend(bytes: seq<byte>, r: Run): Run {
    Run(bytes + r.bytes, r.next, r.more, r.table)
  }

  /** Step 3: copies for as long as the next four bytes have been seen before. The layers let the
      verifier treat this as a black box wherever `CopiesUnfold` is not called. */
  ghost function Copies(input: seq<byte>, table: seq<nat>, hash: nat -> nat, candidate: nat, ip: nat,
                        ipLimit: nat): (r: Run)
    requires ipLimit + INPUT_MARGIN == |input| <= BLOCK_SIZE && InTable(hash, |table|)
    requires candidate < ip < ipLimit && Behind(table, ip + 1)
    ensures ip + 4 <= r.next <= |input|
    ensures r.more ==> r.next < ipLimit && |r.table| == |table| && Behind(r.table, r.next + 1)
    decreases |input| - ip, 2
  {
    CopiesFrom(input, table, hash, candidate, ip, ipLimit)
  }

  ghost function CopiesFrom(input: seq<byte>, table: seq<nat>, hash: nat -> nat, candidate: nat, ip: nat,
                            ipLimit: nat): (r: Run)
    requires ipLimit + INPUT_MARGIN == |input| <= BLOCK_SIZE && InTable(hash, |table|)
    requires candidate < ip < ipLimit && Behind(table, ip + 1)
    ensures ip + 4 <= r.next <= |input|
    ensures r.more ==> r.next < ipLimit && |r.table| == |table| && Behind(r.table, r.next + 1)
    decreases |input| - ip, 1
  {
    CopiesStep(input, table, hash, candidate, ip, ipLimit)
  }

  ghost function CopiesStep(input: seq<byte>, table: seq<nat>, hash: nat -> nat, candidate: nat, ip: nat,
                            ipLimit: nat): (r: Run)
    requires ipLimit + INPUT_MARGIN == |input| <= BLOCK_SIZE && InTable(hash, |table|)
    requires candidate < ip < ipLimit && Behind(table, ip + 1)
    ensures ip + 4 <= r.next <= |input|
    ensures r.more ==> r.next < ipLimit && |r.table| == |table| && Behind(r.table, r.next + 1)
    decreases |input| - ip, 0
  {
    var r := CopyRound(input, table, hash, candidate, ip, ipLimit);
    if r.again then Prepend(r.bytes, Copies(input, r.table, hash, r.candidate, r.next, ipLimit))
    else Run(r.bytes, r.next, r.more, r.table)
  }

  lemma CopiesUnfold(input: seq<byte>, table: seq<nat>, hash: nat -> nat, candidate: nat, ip: nat, ipLimit: nat)
    requires ipLimit + INPUT_MARGIN == |input| <= BLOCK_SIZE && InTable(hash, |table|)
    requires candidate < ip < ipLimit && Behind(table, ip + 1)
    ensures Copies(input, table, hash, candidate, ip, ipLimit) == CopiesStep(input, table, hash, candidate, ip, ipLimit)
  {
    assert Copies(input, table, hash, candidate, ip, ipLimit) == CopiesFrom(input, table, hash, candidate, ip, ipLimit);
  }

  /** The next match, if any: the literal before it and its copies. */
  ghost function Stretch(input: seq<byte>, table: seq<nat>, hash: nat -> nat, ip: nat, from: nat,
                         ipLimit: nat): (r: Run)
    requires ipLimit + INPUT_MARGIN == |input| <= BLOCK_SIZE && InTable(hash, |table|)
    requires from < ip <= ipLimit + 1 && Behind(table, ip)
    ensures from <= r.next <= |input|
    ensures r.more ==> ip < r.next < ipLimit && |r.table| == |table| && Behind(r.table, r.next + 1)
  {
    match ScanFrom(input, table, hash, ip, 32, ipLimit)
    case NoMatch => Run([], from, false, table)
    case Match(at, candidate, t) =>
      Prepend(LiteralBytes(input[from..at]), Copies(input, t, hash, candidate, at, ipLimit))
  }

  function AndThen(bytes: seq<byte>, r: (seq<byte>, nat)): (seq<byte>, nat) {
    (bytes + r.0, r.1)
  }

  /** The main loop: a literal and its copies, as long as matches are found. The second result is
      where the remainder starts. Layers as above. */
  ghost function Matches(input: seq<byte>, table: seq<nat>, hash: nat -> nat, ip: nat, from: nat,
                         ipLimit: nat): (r: (seq<byte>, nat))
    requires ipLimit + INPUT_MARGIN == |input| <= BLOCK_SIZE && InTable(hash, |table|)
    requires from < ip <= ipLimit + 1 && Behind(table, ip)
    ensures r.1 <= |input|
    decreases |input| - ip, 2
  {
    MatchesFrom(input, table, hash, ip, from, ipLimit)
  }

  ghost function MatchesFrom(input: seq<byte>, table: seq<nat>, hash: nat -> nat, ip: nat, from: nat,
                             ipLimit: nat): (r: (seq<byte>, nat))
    requires ipLimit + INPUT_MARGIN == |input| <= BLOCK_SIZE && InTable(hash, |table|)
    requires from < ip <= ipLimit + 1 && Behind(table, ip)
    ensures r.1 <= |input|
    decreases |input| - ip, 1
  {
    MatchesStep(input, table, hash, ip, from, ipLimit)
  }

  ghost function MatchesStep(input: seq<byte>, table: seq<nat>, hash: nat -> nat, ip: nat, from: nat,
                             ipLimit: nat): (r: (seq<byte>, nat))
    requires ipLimit + INPUT_MARGIN == |input| <= BLOCK_SIZE && InTable(hash, |table|)
    requires from < ip <= ipLimit + 1 && Behind(table, ip)
    ensures r.1 <= |input|
    decreases |input| - ip, 0
  {
    var s := Stretch(input, table, hash, ip, from, ipLimit);
    if s.more then AndThen(s.bytes, Matches(input, s.table, hash, s.next + 1, s.next, ipLimit))
    else (s.bytes, s.next)
  }

  lemma MatchesUnfold(input: seq<byte>, table: seq<nat>, hash: nat -> nat, ip: nat, from: nat, ipLimit: nat)
    requires ipLimit + INPUT_MARGIN == |input| <= BLOCK_SIZE && InTable(hash, |table|)
    requires from < ip <= ipLimit + 1 && Behind(table, ip)
    ensures Matches(input, table, hash, ip, from, ipLimit) == MatchesStep(input, table, hash, ip, from, ipLimit)
  {
    assert Matches(input, table, hash, ip, from, ipLimit) == MatchesFrom(input, table, hash, ip, from, ipLimit);
  }

  ghost function Remainder(input: seq<byte>, from: nat): seq<byte>
    requires from <= |input| <= BLOCK_SIZE
  {
    if from < |input| then LiteralBytes(input[from..]) else []
  }

  /** One block, with an empty table. */
  ghost function Fragment(input: seq<byte>, size: nat, hash: nat -> nat): seq<byte>
    requires |input| <= BLOCK_SIZE && InTable(hash, size)
  {
    if |input| < INPUT_MARGIN then Remainder(input, 0)
    else
      var (bytes, end) := Matches(input, seq(size, _ => 0), hash, 1, 0, |input| - INPUT_MARGIN);
      bytes + Remainder(input, end)
  }
}
