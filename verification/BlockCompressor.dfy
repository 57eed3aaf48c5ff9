/** The compressor for one block: hash-table matching over at most 64 KB. */
module BlockCompressor {
  import opened Wrappers
  import opened Bytes
  import opened Format
  import opened Elements
  import opened MatchLength
  import opened CompressedForm

  /** MaxCompressedLength: the size callers are told to provide for the whole output. */
  function MaxCompressedLength(n: nat): nat {
    32 + n + n / 6
  }

  /** What one block really needs. */
  function FragmentBound(n: nat): nat {
    n + n / 30 + 1
  }

  // ---- Hash table ----

  /** HashBytes: multiply in 32 bits and keep the top bits, as many as the table has index bits. */
  function HashBytes(bytes: nat, tableSize: nat): (h: nat)
    requires IsTableSize(tableSize)
    ensures h < tableSize
  {
    TopBits(bytes * 0x1e35a7bd % TWO32, tableSize)
  }

  function TopBits(x: nat, tableSize: nat): (h: nat)
    requires x < TWO32 && IsTableSize(tableSize)
    ensures h < tableSize
  {
    if tableSize == 256 then x / 0x100_0000
    else if tableSize == 512 then x / 0x80_0000
    else if tableSize == 1024 then x / 0x40_0000
    else if tableSize == 2048 then x / 0x20_0000
    else if tableSize == 4096 then x / 0x10_0000
    else if tableSize == 8192 then x / 0x8_0000
    else x / 0x4_0000
  }

  /** The hash is the product, modulo 2^32, divided by the part of 2^32 that an entry stands for. */
  lemma HashIsTopBits(bytes: nat, tableSize: nat)
    requires IsTableSize(tableSize)
    ensures var h, part := HashBytes(bytes, tableSize), 0x1_0000_0000 / tableSize;
      h * part <= bytes * 0x1e35a7bd % 0x1_0000_0000 < (h + 1) * part
  {
  }

  /** WorkingMemory::GetHashTable: a power of two, at least 256, large enough for the block or the
      largest allowed, and filled with zeros. */
  method GetHashTable(inputSize: nat) returns (table: array<nat>)
    ensures fresh(table) && IsTableSize(table.Length) && table.Length == TableSize(inputSize)
    ensures table.Length >= inputSize || table.Length == MAX_HASH_TABLE_SIZE
    ensures table.Length == 256 || table.Length < 2 * inputSize
    ensures forall h :: 0 <= h < table.Length ==> table[h] == 0
  {
    var htsize := 256;
    while htsize < MAX_HASH_TABLE_SIZE && htsize < inputSize
      invariant IsTableSize(htsize) && TableSizeFrom(htsize, inputSize) == TableSize(inputSize)
      invariant htsize == 256 || htsize < 2 * inputSize
    {
      htsize := htsize * 2;
    }
    table := new nat[htsize](_ => 0);
  }

  // ---- Matching ----

  /** Four bytes can be loaded at each of these positions. */
  ghost predicate Inside(input: seq<byte>, probes: seq<nat>) {
    forall k :: 0 <= k < |probes| ==> probes[k] + 4 <= |input|
  }

  /** The table after these positions have been stored, each under the hash of its four bytes. */
  ghost function Storing(input: seq<byte>, table: seq<nat>, hash: nat -> nat, probes: seq<nat>): (t: seq<nat>)
    requires InTable(hash, |table|) && Inside(input, probes)
    ensures |t| == |table|
  {
    if probes == [] then table
    else
      var p := probes[|probes| - 1];
      Storing(input, table, hash, probes[..|probes| - 1])[hash(Load32(input, p)) := p]
  }

  /** The four bytes at `ip` are those at `candidate`, the position last stored for their hash. */
  ghost predicate Agrees(input: seq<byte>, table: seq<nat>, hash: nat -> nat, ip: nat, candidate: nat)
    requires InTable(hash, |table|) && ip + 4 <= |input|
  {
    && candidate == table[hash(Load32(input, ip))]
    && candidate + 4 <= |input|
    && Load32(input, ip) == Load32(input, candidate)
  }

  /** A scan that starts at `from` comes to `ip` after these probes: one byte further each time, and
      one more for every 32 bytes scanned already. None of them agreed with the entry it found. */
  ghost predicate Scanned(input: seq<byte>, table: seq<nat>, hash: nat -> nat, from: nat, probes: seq<nat>, ip: nat)
    requires InTable(hash, |table|) && Inside(input, probes)
  {
    if probes == [] then ip == from
    else
      var before, p := probes[..|probes| - 1], probes[|probes| - 1];
      && ip == p + 1 + (p - from) / 32
      && Scanned(input, table, hash, from, before, p)
      && var t := Storing(input, table, hash, before);
         !Agrees(input, t, hash, p, t[hash(Load32(input, p))])
  }

  lemma ProbeAgain(input: seq<byte>, table: seq<nat>, hash: nat -> nat, from: nat, probes: seq<nat>, ip: nat)
    requires InTable(hash, |table|) && Inside(input, probes)
    requires from <= ip && ip + 4 <= |input|
    ensures Inside(input, probes + [ip])
    ensures var t := Storing(input, table, hash, probes);
      && Storing(input, table, hash, probes + [ip]) == t[hash(Load32(input, ip)) := ip]
      && (Scanned(input, table, hash, from, probes, ip) && !Agrees(input, t, hash, ip, t[hash(Load32(input, ip))]) ==>
            Scanned(input, table, hash, from, probes + [ip], ip + 1 + (ip - from) / 32))
  {
    assert (probes + [ip])[..|probes|] == probes;
  }

  /** Positions before `ip` have been stored, so entries are before `ip`. */
  lemma {:induction false} ScannedBehind(input: seq<byte>, table: seq<nat>, hash: nat -> nat, from: nat,
                                         probes: seq<nat>, ip: nat)
    requires InTable(hash, |table|) && Inside(input, probes) && Scanned(input, table, hash, from, probes, ip)
    requires Behind(table, from)
    ensures from <= ip && Behind(Storing(input, table, hash, probes), ip)
    decreases |probes|
  {
    if probes != [] {
      ScannedBehind(input, table, hash, from, probes[..|probes| - 1], probes[|probes| - 1]);
    }
  }

  lemma ScanOnce(input: seq<byte>, table: seq<nat>, hash: nat -> nat, from: nat, ip: nat, ipLimit: nat)
    requires ipLimit + INPUT_MARGIN == |input| && InTable(hash, |table|) && from <= ip && Behind(table, ip)
    requires ip + 1 + (ip - from) / 32 <= ipLimit
    requires !Agrees(input, table, hash, ip, table[hash(Load32(input, ip))])
    ensures var next := ip + 1 + (ip - from) / 32;
      ScanFrom(input, table, hash, ip, 32 + ip - from, ipLimit) ==
      ScanFrom(input, table[hash(Load32(input, ip)) := ip], hash, next, 32 + next - from, ipLimit)
  {
    ScanUnfold(input, table, hash, ip, 32 + ip - from, ipLimit);
    assert (32 + ip - from) / 32 == 1 + (ip - from) / 32;
  }

  /** The scan as a function goes on from where these probes have led. */
  lemma {:induction false} ScannedSoFar(input: seq<byte>, table: seq<nat>, hash: nat -> nat, from: nat,
                                        probes: seq<nat>, ip: nat, ipLimit: nat)
    requires InTable(hash, |table|) && Inside(input, probes) && Scanned(input, table, hash, from, probes, ip)
    requires Behind(table, from) && ipLimit + INPUT_MARGIN == |input| && ip <= ipLimit + 1
    requires probes != [] ==> ip <= ipLimit
    ensures from <= ip && Behind(Storing(input, table, hash, probes), ip)
    ensures ScanFrom(input, table, hash, from, 32, ipLimit) ==
            ScanFrom(input, Storing(input, table, hash, probes), hash, ip, 32 + ip - from, ipLimit)
    decreases |probes|
  {
    ScannedBehind(input, table, hash, from, probes, ip);
    if probes != [] {
      var before, p := probes[..|probes| - 1], probes[|probes| - 1];
      ScannedSoFar(input, table, hash, from, before, p, ipLimit);
      ScanOnce(input, Storing(input, table, hash, before), hash, from, p, ipLimit);
    }
  }

  /** How a scan from `from` ends after these probes: at `ip`, with a match there, or with nothing
      because the probe after `ip` would pass the limit. Every probe that was compared is stored. */
  ghost predicate Ends(input: seq<byte>, table: seq<nat>, hash: nat -> nat, from: nat, ipLimit: nat, probes: seq<nat>,
                       found: bool, ip: nat, candidate: nat, after: seq<nat>)
    requires InTable(hash, |table|) && ipLimit + INPUT_MARGIN == |input|
  {
    && from <= ip <= ipLimit + 1 && (probes != [] ==> ip <= ipLimit)
    && Inside(input, probes) && Scanned(input, table, hash, from, probes, ip)
    && (found <==> ip + 1 + (ip - from) / 32 <= ipLimit)
    && var t := Storing(input, table, hash, probes);
       if found then Agrees(input, t, hash, ip, candidate) && after == t[hash(Load32(input, ip)) := ip] else after == t
  }

  /** What the function gives where the scan ends, and that one probe is enough if the first agrees. */
  lemma ScanEnds(input: seq<byte>, table: seq<nat>, hash: nat -> nat, from: nat, ipLimit: nat, probes: seq<nat>,
                 found: bool, ip: nat, candidate: nat, after: seq<nat>)
    requires InTable(hash, |table|) && Behind(table, from) && ipLimit + INPUT_MARGIN == |input|
    requires Ends(input, table, hash, from, ipLimit, probes, found, ip, candidate, after)
    ensures ScanFrom(input, table, hash, from, 32, ipLimit) == if found then Match(ip, candidate, after) else NoMatch
    ensures from < ipLimit && Agrees(input, table, hash, from, table[hash(Load32(input, from))]) ==>
      found && ip == from && candidate == table[hash(Load32(input, from))]
  {
    ScannedSoFar(input, table, hash, from, probes, ip, ipLimit);
    ScanUnfold(input, Storing(input, table, hash, probes), hash, ip, 32 + ip - from, ipLimit);
    assert (32 + ip - from) / 32 == 1 + (ip - from) / 32;
    if from < ipLimit && Agrees(input, table, hash, from, table[hash(Load32(input, from))]) {
      FoundAtOnce(input, table, hash, from, probes, ip);
    }
  }

  lemma {:induction false} FoundAtOnce(input: seq<byte>, table: seq<nat>, hash: nat -> nat, from: nat,
                                       probes: seq<nat>, ip: nat)
    requires InTable(hash, |table|) && Inside(input, probes) && Scanned(input, table, hash, from, probes, ip)
    requires from + 4 <= |input| && Agrees(input, table, hash, from, table[hash(Load32(input, from))])
    ensures probes == [] && ip == from
    decreases |probes|
  {
    if probes != [] {
      FoundAtOnce(input, table, hash, from, probes[..|probes| - 1], probes[|probes| - 1]);
      assert false;
    }
  }

  /** The scan of Step 1, for any hash function: look for four bytes seen before, skipping faster
      the longer nothing is found. It stops at the first probe that agrees with the entry last stored
      for its hash value, or where the next one would pass the limit. */
  method ScanForMatch(input: seq<byte>, table: array<nat>, hash: nat -> nat, from: nat, firstHash: nat, ipLimit: nat)
    returns (found: bool, ip: nat, candidate: nat, ghost probes: seq<nat>)
    requires ipLimit + INPUT_MARGIN == |input| <= BLOCK_SIZE
    requires InTable(hash, table.Length)
    requires from <= ipLimit + 1 && firstHash == hash(Load32(input, from))
    requires Behind(table[..], from)
    modifies table
    ensures Ends(input, old(table[..]), hash, from, ipLimit, probes, found, ip, candidate, table[..])
    ensures from < ipLimit && Load32(input, from) == Load32(input, old(table[firstHash])) ==>
      found && ip == from && candidate == old(table[firstHash])
    ensures found ==> ip < ipLimit && candidate < ip && Behind(table[..], ip + 1)
    ensures ScanFrom(input, old(table[..]), hash, from, 32, ipLimit) == if found then Match(ip, candidate, table[..])
            else NoMatch
  {
    ghost var was := table[..];
    found, ip, candidate, probes := ScanLoop(input, table, hash, from, firstHash, ipLimit);
    ScanEnds(input, was, hash, from, ipLimit, probes, found, ip, candidate, table[..]);
  }

  method ScanLoop(input: seq<byte>, table: array<nat>, hash: nat -> nat, from: nat, firstHash: nat, ipLimit: nat)
    returns (found: bool, ip: nat, candidate: nat, ghost probes: seq<nat>)
    requires ipLimit + INPUT_MARGIN == |input| <= BLOCK_SIZE
    requires InTable(hash, table.Length)
    requires from <= ipLimit + 1 && firstHash == hash(Load32(input, from))
    requires Behind(table[..], from)
    modifies table
    ensures Ends(input, old(table[..]), hash, from, ipLimit, probes, found, ip, candidate, table[..])
    ensures found ==> ip < ipLimit && candidate < ip && Behind(table[..], ip + 1)
  {
    ghost var was := table[..];
    var skip := 32;
    var nextIp, nextHash := from, firstHash;
    ip, candidate, probes := from, 0, [];
    while true
      invariant from <= nextIp <= ipLimit + 1 && skip == 32 + nextIp - from
      invariant nextHash == hash(Load32(input, nextIp))
      invariant Behind(table[..], nextIp)
      invariant Inside(input, probes) && (probes != [] ==> nextIp <= ipLimit)
      invariant table[..] == Storing(input, was, hash, probes)
      invariant Scanned(input, was, hash, from, probes, nextIp)
      decreases ipLimit + 1 - nextIp
    {
      ghost var entries := table[..];
      ip := nextIp;
      var h := nextHash;
      var bytesBetweenHashLookups := skip / 32;
      skip := skip + bytesBetweenHashLookups;
      nextIp := ip + bytesBetweenHashLookups;
      if nextIp > ipLimit {
        return false, ip, candidate, probes;
      }
      nextHash := hash(Load32(input, nextIp));
      candidate := table[h];
      assert candidate < ip;
      table[h] := ip;
      assert table[..] == entries[h := ip];
      if Load32(input, ip) == Load32(input, candidate) {
        return true, ip, candidate, probes;
      }
      ProbeAgain(input, was, hash, from, probes, ip);
      probes := probes + [ip];
    }
  }

  /** A match in the input is a self-copy of the output: also when it overlaps itself. */
  lemma MatchIsCopy(pre: seq<byte>, input: seq<byte>, candidate: nat, base: nat, n: nat)
    requires candidate < base && AgreeFor(input, candidate, base, n)
    ensures CopyFromSelf(pre + input[..base], base - candidate, n) == pre + input[..base + n]
  {
    var out, r, offset := pre + input[..base], pre + input[..base + n], base - candidate;
    assert r[..|out|] == out;
    forall k | |out| <= k < |r|
      ensures EchoAt(r, offset, k)
    {
      AgreeAt(input, candidate, base, n, k - |out|);
      assert r[k] == input[k - |pre|] && r[k - offset] == input[k - offset - |pre|];
    }
    CopyUnique(out, offset, r);
  }

  lemma MatchFourMore(input: seq<byte>, candidate: nat, ip: nat, n: nat)
    requires candidate < ip && ip + 4 <= |input|
    requires Load32(input, ip) == Load32(input, candidate)
    requires LongestMatch(input, candidate + 4, ip + 4, |input|, n)
    ensures AgreeFor(input, candidate, ip, 4 + n)
  {
    Load32Bytes(input, ip, input, candidate);
    FourBytes(input, candidate, ip);
    AgreeExtend(input, candidate, ip, 4, n);
  }

  // ---- What the bytes mean ----

  /** Decoded after `input[..from]`, the bytes give `input[..to]`. */
  ghost predicate Stands(pre: seq<byte>, input: seq<byte>, bytes: seq<byte>, from: nat, to: nat) {
    from <= to <= |input| && Expand(bytes, pre + input[..from]) == Some(pre + input[..to])
  }

  lemma CopyStands(pre: seq<byte>, input: seq<byte>, candidate: nat, ip: nat, n: nat)
    requires |input| <= BLOCK_SIZE && candidate < ip && 4 <= n && AgreeFor(input, candidate, ip, n)
    ensures var bytes := CopyBytes(ip - candidate, n); 0 < |bytes| < n && Stands(pre, input, bytes, ip, ip + n)
  {
    MatchIsCopy(pre, input, candidate, ip, n);
    CopyBytesDecode(ip - candidate, n, pre + input[..ip]);
  }

  /** A match, extended as far as it goes, stands for the bytes it covers. */
  lemma MatchDecodes(pre: seq<byte>, input: seq<byte>, candidate: nat, ip: nat)
    requires |input| <= BLOCK_SIZE && candidate < ip && ip + 4 <= |input|
    requires Load32(input, ip) == Load32(input, candidate)
    ensures var n := 4 + Longest(input, candidate + 4, ip + 4);
      var bytes := CopyBytes(ip - candidate, n);
      0 < |bytes| < n && Stands(pre, input, bytes, ip, ip + n)
  {
    var n := Longest(input, candidate + 4, ip + 4);
    LongestMatches(input, candidate + 4, ip + 4);
    MatchFourMore(input, candidate, ip, n);
    CopyStands(pre, input, candidate, ip, 4 + n);
  }

  lemma RoundDecodes(pre: seq<byte>, input: seq<byte>, table: seq<nat>, hash: nat -> nat, candidate: nat, ip: nat,
                     ipLimit: nat)
    requires ipLimit + INPUT_MARGIN == |input| <= BLOCK_SIZE && InTable(hash, |table|)
    requires candidate < ip < ipLimit && Behind(table, ip + 1)
    requires Load32(input, ip) == Load32(input, candidate)
    ensures var r := CopyRound(input, table, hash, candidate, ip, ipLimit);
      Stands(pre, input, r.bytes, ip, r.next) && |r.bytes| < r.next - ip
  {
    MatchDecodes(pre, input, candidate, ip);
  }

  lemma StandTogether(pre: seq<byte>, input: seq<byte>, a: seq<byte>, b: seq<byte>, from: nat, mid: nat, to: nat)
    requires Stands(pre, input, a, from, mid) && Stands(pre, input, b, mid, to)
    ensures Stands(pre, input, a + b, from, to)
  {
    ExpandTwo(a, b, pre + input[..from], pre + input[..mid], pre + input[..to]);
  }

  lemma {:induction false} CopiesDecode(pre: seq<byte>, input: seq<byte>, table: seq<nat>, hash: nat -> nat,
                                        candidate: nat, ip: nat, ipLimit: nat)
    requires ipLimit + INPUT_MARGIN == |input| <= BLOCK_SIZE && InTable(hash, |table|)
    requires candidate < ip < ipLimit && Behind(table, ip + 1)
    requires Load32(input, ip) == Load32(input, candidate)
    ensures var r := Copies(input, table, hash, candidate, ip, ipLimit);
      Stands(pre, input, r.bytes, ip, r.next) && |r.bytes| < r.next - ip
    decreases |input| - ip
  {
    CopiesUnfold(input, table, hash, candidate, ip, ipLimit);
    RoundDecodes(pre, input, table, hash, candidate, ip, ipLimit);
    var r := CopyRound(input, table, hash, candidate, ip, ipLimit);
    if r.again {
      CopiesDecode(pre, input, r.table, hash, r.candidate, r.next, ipLimit);
      var rest := Copies(input, r.table, hash, r.candidate, r.next, ipLimit);
      StandTogether(pre, input, r.bytes, rest.bytes, ip, r.next, rest.next);
    }
  }

  lemma LiteralStands(pre: seq<byte>, input: seq<byte>, from: nat, to: nat)
    requires |input| <= BLOCK_SIZE && from < to <= |input|
    ensures Stands(pre, input, LiteralBytes(input[from..to]), from, to)
    ensures 30 * |LiteralBytes(input[from..to])| <= 31 * (to - from) + 30
  {
    LiteralDecodes(input[from..to], pre + input[..from]);
    assert pre + input[..from] + input[from..to] == pre + input[..to];
  }

  /** The scan goes on where it has not found anything; a match is one. */
  lemma {:induction false} ScanFinds(input: seq<byte>, table: seq<nat>, hash: nat -> nat, ip: nat, skip: nat,
                                     ipLimit: nat)
    requires ipLimit + INPUT_MARGIN == |input| && InTable(hash, |table|)
    requires ip <= ipLimit + 1 && Behind(table, ip) && skip >= 32
    ensures var r := ScanFrom(input, table, hash, ip, skip, ipLimit);
      r.Match? ==> Load32(input, r.at) == Load32(input, r.candidate)
    decreases ipLimit + 1 - ip
  {
    ScanUnfold(input, table, hash, ip, skip, ipLimit);
    if ip + skip / 32 <= ipLimit {
      var h := hash(Load32(input, ip));
      ScanFinds(input, table[h := ip], hash, ip + skip / 32, skip + skip / 32, ipLimit);
    }
  }

  /** A literal and the copies that follow it. The first copy has the literal's header to pay for. */
  lemma StretchDecodes(pre: seq<byte>, input: seq<byte>, table: seq<nat>, hash: nat -> nat, ip: nat, from: nat,
                       ipLimit: nat)
    requires ipLimit + INPUT_MARGIN == |input| <= BLOCK_SIZE && InTable(hash, |table|)
    requires from < ip <= ipLimit + 1 && Behind(table, ip)
    ensures var r := Stretch(input, table, hash, ip, from, ipLimit);
      Covers(pre, input, (r.bytes, r.next), from)
  {
    ScanFinds(input, table, hash, ip, 32, ipLimit);
    match ScanFrom(input, table, hash, ip, 32, ipLimit)
    case NoMatch =>
    case Match(at, candidate, t) =>
      LiteralStands(pre, input, from, at);
      CopiesDecode(pre, input, t, hash, candidate, at, ipLimit);
      var r := Copies(input, t, hash, candidate, at, ipLimit);
      StandTogether(pre, input, LiteralBytes(input[from..at]), r.bytes, from, at, r.next);
  }

  lemma {:induction false} MatchesDecode(pre: seq<byte>, input: seq<byte>, table: seq<nat>, hash: nat -> nat,
                                         ip: nat, from: nat, ipLimit: nat)
    requires ipLimit + INPUT_MARGIN == |input| <= BLOCK_SIZE && InTable(hash, |table|)
    requires from < ip <= ipLimit + 1 && Behind(table, ip)
    ensures Covers(pre, input, Matches(input, table, hash, ip, from, ipLimit), from)
    decreases |input| - ip
  {
    MatchesUnfold(input, table, hash, ip, from, ipLimit);
    StretchDecodes(pre, input, table, hash, ip, from, ipLimit);
    var s := Stretch(input, table, hash, ip, from, ipLimit);
    if s.more {
      MatchesDecode(pre, input, s.table, hash, s.next + 1, s.next, ipLimit);
      CoverTogether(pre, input, s.bytes, Matches(input, s.table, hash, s.next + 1, s.next, ipLimit), from, s.next);
    }
  }

  /** Decoded after `input[..from]`, the bytes give the input up to where they end, and are hardly longer. */
  ghost predicate Covers(pre: seq<byte>, input: seq<byte>, r: (seq<byte>, nat), from: nat) {
    Stands(pre, input, r.0, from, r.1) && 30 * |r.0| <= 31 * (r.1 - from)
  }

  lemma CoverTogether(pre: seq<byte>, input: seq<byte>, bytes: seq<byte>, r: (seq<byte>, nat), from: nat, mid: nat)
    requires Covers(pre, input, (bytes, mid), from) && Covers(pre, input, r, mid)
    ensures Covers(pre, input, AndThen(bytes, r), from)
  {
    StandTogether(pre, input, bytes, r.0, from, mid, r.1);
  }

  /** What a block is compressed to decodes to the block, after whatever came before it, for any hash
      function, and is hardly longer. */
  lemma FragmentDecodes(pre: seq<byte>, input: seq<byte>, size: nat, hash: nat -> nat)
    requires |input| <= BLOCK_SIZE && InTable(hash, size)
    ensures Expand(Fragment(input, size, hash), pre) == Some(pre + input)
    ensures |Fragment(input, size, hash)| <= FragmentBound(|input|)
  {
    assert pre + input[..0] == pre && pre + input[..|input|] == pre + input;
    if |input| < INPUT_MARGIN {
      RemainderDecodes(pre, input, ([], 0));
      assert [] + Remainder(input, 0) == Remainder(input, 0);
    } else {
      var zeros := seq(size, _ => 0);
      MatchesDecode(pre, input, zeros, hash, 1, 0, |input| - INPUT_MARGIN);
      RemainderDecodes(pre, input, Matches(input, zeros, hash, 1, 0, |input| - INPUT_MARGIN));
    }
  }

  lemma RemainderDecodes(pre: seq<byte>, input: seq<byte>, r: (seq<byte>, nat))
    requires |input| <= BLOCK_SIZE && Covers(pre, input, r, 0)
    ensures Stands(pre, input, r.0 + Remainder(input, r.1), 0, |input|)
    ensures |r.0 + Remainder(input, r.1)| <= FragmentBound(|input|)
  {
    if r.1 < |input| {
      LiteralStands(pre, input, r.1, |input|);
      assert input[r.1..] == input[r.1..|input|];
      StandTogether(pre, input, r.0, Remainder(input, r.1), 0, r.1, |input|);
    } else {
      assert r.0 + [] == r.0;
    }
  }

  // ---- Emitting ----

  /** One iteration of Step 3: extend the match and emit it. */
  method EmitMatch(input: seq<byte>, buf: array<byte>, start: nat, op: nat, candidate: nat, ip: nat)
    returns (end: nat, next: nat)
    requires |input| <= BLOCK_SIZE && candidate < ip && ip + 4 <= |input|
    requires start <= op && op + |input| - ip <= buf.Length
    modifies buf
    ensures ip + 4 <= next <= |input| && LongestMatch(input, candidate + 4, ip + 4, |input|, next - ip - 4)
    ensures op < end < op + next - ip && buf[start..end] == old(buf[start..op]) + CopyBytes(ip - candidate, next - ip)
    ensures buf[..start] == old(buf[..start])
    ensures KeptFrom(buf, op + |input| - ip)
  {
    var n, short := FindMatchLength(input, candidate + 4, ip + 4, |input|);
    var matched := 4 + n;
    next := ip + matched;
    ghost var before := buf[..op];
    end := EmitCopy(buf, op, ip - candidate, matched, short);
    assert buf[start..op] == before[start..] && buf[..start] == before[..start];
    ArrayCut(buf, start, op, end);
  }

  lemma StoringTwo(input: seq<byte>, table: seq<nat>, hash: nat -> nat, next: nat)
    requires InTable(hash, |table|) && 0 < next && next + 4 <= |input|
    ensures var t := table[hash(Load32(input, next - 1)) := next - 1];
      && Storing(input, table, hash, [next - 1]) == t
      && Storing(input, table, hash, [next - 1, next]) == t[hash(Load32(input, next)) := next]
  {
    ProbeAgain(input, table, hash, 0, [], next - 1);
    ProbeAgain(input, table, hash, 0, [next - 1], next);
    assert [] + [next - 1] == [next - 1] && [next - 1] + [next] == [next - 1, next];
  }

  /** After a match that ends at `next`: remember the positions `next - 1` and `next`, and see whether
      the four bytes at `next` are those at the position remembered before for their hash. */
  method PrimeTable(input: seq<byte>, table: array<nat>, hash: nat -> nat, next: nat)
    returns (again: bool, candidate: nat)
    requires InTable(hash, table.Length) && 0 < next && next + 4 <= |input| && Behind(table[..], next)
    modifies table
    ensures table[..] == Storing(input, old(table[..]), hash, [next - 1, next])
    ensures candidate < next && Behind(table[..], next + 1)
    ensures var t := Storing(input, old(table[..]), hash, [next - 1]);
      candidate == t[hash(Load32(input, next))] && (again <==> Agrees(input, t, hash, next, candidate))
  {
    ghost var entries: seq<nat>, last: nat := table[..], next - 1;
    StoringTwo(input, entries, hash, next);
    var prevHash := hash(Load32(input, next - 1));
    table[prevHash] := next - 1;
    assert table[..] == entries[prevHash := last];
    var curHash := hash(Load32(input, next));
    candidate := table[curHash];
    table[curHash] := next;
    assert table[..] == entries[prevHash := last][curHash := next];
    again := Load32(input, next) == Load32(input, candidate);
  }

  /** What one iteration of Step 3 amounts to: the match at `ip` is extended as far as it goes, to
      `next`; then, unless the input is nearly used up, the table is primed and looked into. */
  ghost predicate Extends(input: seq<byte>, table: seq<nat>, hash: nat -> nat, candidate: nat, ip: nat, ipLimit: nat,
                          next: nat, more: bool, again: bool, candidate': nat, after: seq<nat>)
    requires InTable(hash, |table|) && ipLimit + INPUT_MARGIN == |input|
  {
    && ip + 4 <= next <= |input| && LongestMatch(input, candidate + 4, ip + 4, |input|, next - ip - 4)
    && (more <==> next < ipLimit)
    && if more then
         var t := Storing(input, table, hash, [next - 1]);
         && candidate' == t[hash(Load32(input, next))] && (again <==> Agrees(input, t, hash, next, candidate'))
         && after == Storing(input, table, hash, [next - 1, next])
       else !again && candidate' == 0 && after == table
  }

  lemma ExtendsIsRound(input: seq<byte>, table: seq<nat>, hash: nat -> nat, candidate: nat, ip: nat, ipLimit: nat,
                       next: nat, more: bool, again: bool, candidate': nat, after: seq<nat>)
    requires ipLimit + INPUT_MARGIN == |input| <= BLOCK_SIZE && InTable(hash, |table|)
    requires candidate < ip < ipLimit && Behind(table, ip + 1)
    requires Extends(input, table, hash, candidate, ip, ipLimit, next, more, again, candidate', after)
    ensures CopyRound(input, table, hash, candidate, ip, ipLimit) ==
            Round(CopyBytes(ip - candidate, next - ip), next, more, again, candidate', after)
  {
    LongestIs(input, candidate + 4, ip + 4, next - ip - 4);
    if more {
      StoringTwo(input, table, hash, next);
    }
  }

  /** One iteration of Step 3: extend the match, emit it, and prime the table. */
  method EmitRound(input: seq<byte>, buf: array<byte>, start: nat, op: nat, table: array<nat>, hash: nat -> nat,
                   candidate: nat, ip: nat, ipLimit: nat)
    returns (end: nat, next: nat, more: bool, again: bool, candidate': nat)
    requires ipLimit + INPUT_MARGIN == |input| <= BLOCK_SIZE && InTable(hash, table.Length)
    requires candidate < ip < ipLimit && Behind(table[..], ip + 1)
    requires start <= op && op + |input| - ip <= buf.Length
    modifies buf, table
    ensures Extends(input, old(table[..]), hash, candidate, ip, ipLimit, next, more, again, candidate', table[..])
    ensures op < end < op + next - ip <= buf.Length
    ensures buf[start..end] == old(buf[start..op]) + CopyBytes(ip - candidate, next - ip)
    ensures more ==> candidate' < next && Behind(table[..], next + 1)
    ensures buf[..start] == old(buf[..start])
    ensures KeptFrom(buf, op + |input| - ip)
  {
    end, next := EmitMatch(input, buf, start, op, candidate, ip);
    if next >= ipLimit {
      return end, next, false, false, 0;
    }
    again, candidate' := PrimeTable(input, table, hash, next);
    more := true;
  }

  /** The same, against the bytes of the whole of Step 3. */
  method EmitNextCopy(input: seq<byte>, buf: array<byte>, start: nat, op: nat, table: array<nat>, hash: nat -> nat,
                      candidate: nat, ip: nat, ipLimit: nat)
    returns (end: nat, next: nat, more: bool, again: bool, candidate': nat, ghost bytes: seq<byte>)
    requires ipLimit + INPUT_MARGIN == |input| <= BLOCK_SIZE && InTable(hash, table.Length)
    requires candidate < ip < ipLimit && Behind(table[..], ip + 1)
    requires start <= op && op + |input| - ip <= buf.Length
    modifies buf, table
    ensures op < end < op + next - ip <= buf.Length && ip + 4 <= next <= |input|
    ensures buf[start..end] == old(buf[start..op]) + bytes
    ensures (more <==> next < ipLimit) && (again ==> more)
    ensures more ==> candidate' < next && Behind(table[..], next + 1)
    ensures Copies(input, old(table[..]), hash, candidate, ip, ipLimit) ==
      if again then Prepend(bytes, Copies(input, table[..], hash, candidate', next, ipLimit))
      else Run(bytes, next, more, table[..])
    ensures buf[..start] == old(buf[..start])
    ensures KeptFrom(buf, op + |input| - ip)
  {
    ghost var entries := table[..];
    CopiesUnfold(input, entries, hash, candidate, ip, ipLimit);
    end, next, more, again, candidate' := EmitRound(input, buf, start, op, table, hash, candidate, ip, ipLimit);
    ExtendsIsRound(input, entries, hash, candidate, ip, ipLimit, next, more, again, candidate', table[..]);
    bytes := CopyBytes(ip - candidate, next - ip);
  }

  /** Step 3: copies for as long as the next four bytes have been seen before. Returns the hash to
      go on with, or that the input is nearly used up. */
  method EmitCopies(input: seq<byte>, buf: array<byte>, start: nat, op: nat, table: array<nat>, hash: nat -> nat,
                    candidate: nat, ip: nat, ipLimit: nat)
    returns (end: nat, next: nat, more: bool, nextHash: nat)
    requires ipLimit + INPUT_MARGIN == |input| <= BLOCK_SIZE && InTable(hash, table.Length)
    requires candidate < ip < ipLimit && Behind(table[..], ip + 1)
    requires start <= op && op + |input| - ip <= buf.Length
    modifies buf, table
    ensures op <= end < op + next - ip <= buf.Length
    ensures Emitted(Copies(input, old(table[..]), hash, candidate, ip, ipLimit), old(buf[start..op]), buf[start..end],
            next, more, table[..])
    ensures (more <==> next < ipLimit) && (more ==> nextHash == hash(Load32(input, next + 1)))
    ensures buf[..start] == old(buf[..start])
    ensures KeptFrom(buf, op + |input| - ip)
  {
    end, next, nextHash := op, ip, 0;
    var c: nat := candidate;
    var again := true;
    ghost var all, done: seq<byte> := Copies(input, table[..], hash, candidate, ip, ipLimit), [];
    assert buf[start..op] + [] == buf[start..op] && [] + all.bytes == all.bytes;
    while true
      invariant ip <= next < ipLimit && c < next && start <= end <= op + next - ip
      invariant Behind(table[..], next + 1) && buf[..start] == old(buf[..start])
      invariant KeptFrom(buf, op + |input| - ip)
      invariant buf[start..end] == old(buf[start..op]) + done
      invariant all == Prepend(done, Copies(input, table[..], hash, c, next, ipLimit))
      decreases |input| - next
    {
      ghost var emitted, bytes := done, [];
      end, next, more, again, c, bytes := EmitNextCopy(input, buf, start, end, table, hash, c, next, ipLimit);
      AppendedTwice(old(buf[start..op]), emitted, bytes);
      done := done + bytes;
      if !more {
        return end, next, false, 0;
      }
      if !again {
        return end, next, true, hash(Load32(input, next + 1));
      }
      Together(emitted, bytes, Copies(input, table[..], hash, c, next, ipLimit));
    }
  }

  lemma Together(a: seq<byte>, b: seq<byte>, r: Run)
    ensures Prepend(a, Prepend(b, r)) == Prepend(a + b, r)
  {
    assert a + (b + r.bytes) == a + b + r.bytes;
  }

  /** All of a run has been emitted. */
  ghost predicate Emitted(r: Run, before: seq<byte>, after: seq<byte>, next: nat, more: bool, table: seq<nat>) {
    after == before + r.bytes && next == r.next && more == r.more && (more ==> table == r.table)
  }

  /** A literal for the input bytes not yet covered. */
  method EmitPending(input: seq<byte>, buf: array<byte>, start: nat, op: nat, from: nat, len: nat, fast: bool)
    returns (end: nat)
    requires |input| <= BLOCK_SIZE && 0 < len && from + len <= |input|
    requires fast ==> from + 16 <= |input|
    requires start <= op && 30 * (op - start) <= 31 * from
    requires start + FragmentBound(|input|) <= buf.Length
    modifies buf
    ensures op < end && 30 * (end - start) <= 31 * (from + len) + 30
    ensures buf[start..end] == old(buf[start..op]) + LiteralBytes(input[from..from + len])
    ensures buf[..start] == old(buf[..start])
    ensures KeptFrom(buf, start + FragmentBound(|input|))
  {
    ghost var before := buf[..op];
    assert 30 * |LiteralHeader(len)| <= len + 30;
    end := EmitLiteral(buf, op, input, from, len, fast);
    assert buf[start..op] == before[start..] && buf[..start] == before[..start];
    ArrayCut(buf, start, op, end);
  }

  lemma AppendedTwice(a: seq<byte>, b: seq<byte>, c: seq<byte>)
    ensures a + b + c == a + (b + c)
  {
  }

  /** A literal and the copies that follow it. */
  method EmitStretch(input: seq<byte>, buf: array<byte>, start: nat, op: nat, table: array<nat>, hash: nat -> nat,
                     from: nat, candidate: nat, at: nat, ipLimit: nat)
    returns (end: nat, next: nat, more: bool, nextHash: nat)
    requires ipLimit + INPUT_MARGIN == |input| <= BLOCK_SIZE && InTable(hash, table.Length)
    requires from < at < ipLimit && candidate < at && Behind(table[..], at + 1)
    requires start <= op && 30 * (op - start) <= 31 * from
    requires start + FragmentBound(|input|) <= buf.Length
    modifies buf, table
    ensures start <= end <= buf.Length && next <= |input| && 30 * (end - start) <= 31 * next
    ensures Emitted(Prepend(LiteralBytes(input[from..at]), Copies(input, old(table[..]), hash, candidate, at, ipLimit)),
                    old(buf[start..op]), buf[start..end], next, more, table[..])
    ensures (more <==> next < ipLimit) && (more ==> nextHash == hash(Load32(input, next + 1)))
    ensures buf[..start] == old(buf[..start])
    ensures KeptFrom(buf, start + FragmentBound(|input|))
  {
    ghost var done, literal := buf[start..op], LiteralBytes(input[from..at]);
    ghost var r := Copies(input, table[..], hash, candidate, at, ipLimit);
    end := EmitPending(input, buf, start, op, from, at - from, true);
    end, next, more, nextHash := EmitCopies(input, buf, start, end, table, hash, candidate, at, ipLimit);
    AppendedTwice(done, literal, r.bytes);
  }

  /** One iteration of the main loop: scan, and emit what has been found. */
  method EmitFound(input: seq<byte>, buf: array<byte>, start: nat, op: nat, table: array<nat>, hash: nat -> nat,
                   ip: nat, firstHash: nat, from: nat, ipLimit: nat)
    returns (end: nat, next: nat, more: bool, nextHash: nat)
    requires ipLimit + INPUT_MARGIN == |input| <= BLOCK_SIZE && InTable(hash, table.Length)
    requires from < ip <= ipLimit + 1 && Behind(table[..], ip) && firstHash == hash(Load32(input, ip))
    requires start <= op && 30 * (op - start) <= 31 * from
    requires start + FragmentBound(|input|) <= buf.Length
    modifies buf, table
    ensures start <= end <= buf.Length && next <= |input| && 30 * (end - start) <= 31 * next
    ensures Emitted(Stretch(input, old(table[..]), hash, ip, from, ipLimit), old(buf[start..op]), buf[start..end],
                    next, more, table[..])
    ensures buf[..start] == old(buf[..start])
    ensures KeptFrom(buf, start + FragmentBound(|input|))
    ensures more ==> next < ipLimit && nextHash == hash(Load32(input, next + 1))
  {
    var found, at, candidate, _ := ScanForMatch(input, table, hash, ip, firstHash, ipLimit);
    if found {
      end, next, more, nextHash := EmitStretch(input, buf, start, op, table, hash, from, candidate, at, ipLimit);
    } else {
      end, next, more, nextHash := op, from, false, 0;
      NothingMore(buf[start..op]);
    }
  }

  lemma NothingMore(s: seq<byte>)
    ensures s + [] == s
  {
  }

  /** The same, against the bytes of the whole main loop. */
  method EmitNext(input: seq<byte>, buf: array<byte>, start: nat, op: nat, table: array<nat>, hash: nat -> nat,
                  ip: nat, firstHash: nat, from: nat, ipLimit: nat)
    returns (end: nat, next: nat, more: bool, nextHash: nat, ghost bytes: seq<byte>)
    requires ipLimit + INPUT_MARGIN == |input| <= BLOCK_SIZE && InTable(hash, table.Length)
    requires from < ip <= ipLimit + 1 && Behind(table[..], ip) && firstHash == hash(Load32(input, ip))
    requires start <= op && 30 * (op - start) <= 31 * from
    requires start + FragmentBound(|input|) <= buf.Length
    modifies buf, table
    ensures more ==> ip < next < ipLimit && Behind(table[..], next + 1) && nextHash == hash(Load32(input, next + 1))
    ensures Matches(input, old(table[..]), hash, ip, from, ipLimit) ==
      if more then AndThen(bytes, Matches(input, table[..], hash, next + 1, next, ipLimit)) else (bytes, next)
    ensures buf[..start] == old(buf[..start])
    ensures KeptFrom(buf, start + FragmentBound(|input|))
    ensures start <= end <= buf.Length && next <= |input| && 30 * (end - start) <= 31 * next
    ensures buf[start..end] == old(buf[start..op]) + bytes
  {
    MatchesUnfold(input, table[..], hash, ip, from, ipLimit);
    bytes := Stretch(input, table[..], hash, ip, from, ipLimit).bytes;
    end, next, more, nextHash := EmitFound(input, buf, start, op, table, hash, ip, firstHash, from, ipLimit);
  }

  /** The main loop, up to emit_remainder. */
  method EmitMatches(input: seq<byte>, buf: array<byte>, start: nat, table: array<nat>, hash: nat -> nat)
    returns (end: nat, nextEmit: nat)
    requires INPUT_MARGIN <= |input| <= BLOCK_SIZE && InTable(hash, table.Length)
    requires Behind(table[..], 1)
    requires start + FragmentBound(|input|) <= buf.Length
    modifies buf, table
    ensures start <= end <= buf.Length && nextEmit <= |input| && 30 * (end - start) <= 31 * nextEmit
    ensures Matches(input, old(table[..]), hash, 1, 0, |input| - INPUT_MARGIN) == (buf[start..end], nextEmit)
    ensures buf[..start] == old(buf[..start])
    ensures KeptFrom(buf, start + FragmentBound(|input|))
  {
    end, nextEmit := start, 0;
    var ipLimit := |input| - INPUT_MARGIN;
    var ip, more := 1, true;
    var nextHash := hash(Load32(input, ip));
    ghost var all := Matches(input, table[..], hash, 1, 0, ipLimit);
    ghost var done: seq<byte> := [];
    assert [] + all.0 == all.0;
    while true
      invariant ip == nextEmit + 1 <= ipLimit + 1 && nextHash == hash(Load32(input, ip))
      invariant Behind(table[..], ip)
      invariant start <= end <= buf.Length && 30 * (end - start) <= 31 * nextEmit
      invariant buf[start..end] == done
      invariant all == AndThen(done, Matches(input, table[..], hash, ip, nextEmit, ipLimit))
      invariant buf[..start] == old(buf[..start]) && KeptFrom(buf, start + FragmentBound(|input|))
      decreases |input| - ip
    {
      ghost var emitted, bytes := done, [];
      end, nextEmit, more, nextHash,
        bytes := EmitNext(input, buf, start, end, table, hash, ip, nextHash, nextEmit, ipLimit);
      done := done + bytes;
      if !more {
        return;
      }
      ip := nextEmit + 1;
      FurtherOn(emitted, bytes, Matches(input, table[..], hash, ip, nextEmit, ipLimit));
    }
  }

  lemma FurtherOn(a: seq<byte>, b: seq<byte>, r: (seq<byte>, nat))
    ensures AndThen(a, AndThen(b, r)) == AndThen(a + b, r)
  {
    assert a + (b + r.0) == a + b + r.0;
  }

  /** emit_remainder, after the main loop. */
  method EmitRemainder(input: seq<byte>, buf: array<byte>, start: nat, op: nat, nextEmit: nat) returns (end: nat)
    requires nextEmit <= |input| <= BLOCK_SIZE
    requires start <= op && 30 * (op - start) <= 31 * nextEmit
    requires start + FragmentBound(|input|) <= buf.Length
    modifies buf
    ensures start <= end <= start + FragmentBound(|input|)
    ensures buf[start..end] == old(buf[start..op]) + Remainder(input, nextEmit)
    ensures buf[..start] == old(buf[..start])
    ensures KeptFrom(buf, start + FragmentBound(|input|))
  {
    end := op;
    if nextEmit < |input| {
      assert input[nextEmit..nextEmit + (|input| - nextEmit)] == input[nextEmit..];
      end := EmitPending(input, buf, start, op, nextEmit, |input| - nextEmit, false);
    } else {
      assert buf[start..op] + [] == buf[start..op];
    }
  }

  /** internal::CompressFragment for an arbitrary hash function: the bytes are a function of the block,
      the table size and the hash function. They decode to the block, after whatever came before it,
      and every store lies in the part of the buffer that `FragmentBound` allows. */
  method CompressFragment(input: seq<byte>, buf: array<byte>, start: nat, table: array<nat>, hash: nat -> nat,
                          ghost pre: seq<byte>) returns (end: nat)
    requires |input| <= BLOCK_SIZE && InTable(hash, table.Length)
    requires forall h :: 0 <= h < table.Length ==> table[h] == 0
    requires start + FragmentBound(|input|) <= buf.Length
    modifies buf, table
    ensures start <= end <= start + FragmentBound(|input|)
    ensures buf[start..end] == Fragment(input, table.Length, hash)
    ensures Expand(buf[start..end], pre) == Some(pre + input)
    ensures buf[..start] == old(buf[..start])
    ensures KeptFrom(buf, start + FragmentBound(|input|))
  {
    FragmentDecodes(pre, input, table.Length, hash);
    end := EmitFragment(input, buf, start, table, hash);
  }

  method EmitFragment(input: seq<byte>, buf: array<byte>, start: nat, table: array<nat>, hash: nat -> nat)
    returns (end: nat)
    requires |input| <= BLOCK_SIZE && InTable(hash, table.Length)
    requires forall h :: 0 <= h < table.Length ==> table[h] == 0
    requires start + FragmentBound(|input|) <= buf.Length
    modifies buf, table
    ensures start <= end <= start + FragmentBound(|input|)
    ensures buf[start..end] == Fragment(input, table.Length, hash)
    ensures buf[..start] == old(buf[..start])
    ensures KeptFrom(buf, start + FragmentBound(|input|))
  {
    assert table[..] == seq(table.Length, _ => 0);
    var nextEmit := 0;
    end := start;
    assert buf[start..start] + Remainder(input, 0) == Remainder(input, 0);
    if |input| >= INPUT_MARGIN {
      end, nextEmit := EmitMatches(input, buf, start, table, hash);
    }
    end := EmitRemainder(input, buf, start, end, nextEmit);
  }
}
