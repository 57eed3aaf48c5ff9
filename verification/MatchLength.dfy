/** FindMatchLength: both versions, down to the machine words they compare. */
module MatchLength {
  import opened Bytes

  // ---- Words ----

  /** The eight bits of a byte. */
  function Bits(b: byte): bv8 {
    Nibble(b % 16) | (Nibble(b / 16) << 4)
  }

  function Nibble(n: nat): bv8
    requires n < 16
  {
    (if n >= 8 then 8 else 0) | (if n % 8 >= 4 then 4 else 0) |
    (if n % 4 >= 2 then 2 else 0) | (if n % 2 >= 1 then 1 else 0)
  }

  lemma NibbleInjective(m: nat, n: nat)
    requires m < 16 && n < 16 && Nibble(m) == Nibble(n)
    ensures m == n
  {
    assert m >= 8 <==> Nibble(m) & 8 != 0;
    assert m % 8 >= 4 <==> Nibble(m) & 4 != 0;
    assert m % 4 >= 2 <==> Nibble(m) & 2 != 0;
    assert m % 2 >= 1 <==> Nibble(m) & 1 != 0;
    assert n >= 8 <==> Nibble(n) & 8 != 0;
    assert n % 8 >= 4 <==> Nibble(n) & 4 != 0;
    assert n % 4 >= 2 <==> Nibble(n) & 2 != 0;
    assert n % 2 >= 1 <==> Nibble(n) & 1 != 0;
  }

  lemma NibbleRange(n: nat)
    requires n < 16
    ensures Nibble(n) & 15 == Nibble(n)
  {
  }

  lemma HalvesApart(lo: bv8, hi: bv8, lo': bv8, hi': bv8)
    requires lo & 15 == lo && hi & 15 == hi && lo' & 15 == lo' && hi' & 15 == hi'
    requires lo | (hi << 4) == lo' | (hi' << 4)
    ensures lo == lo' && hi == hi'
  {
  }

  lemma BitsInjective(a: byte, b: byte)
    requires Bits(a) == Bits(b)
    ensures a == b
  {
    NibbleRange(a % 16);
    NibbleRange(a / 16);
    NibbleRange(b % 16);
    NibbleRange(b / 16);
    HalvesApart(Nibble(a % 16), Nibble(a / 16), Nibble(b % 16), Nibble(b / 16));
    NibbleInjective(a % 16, b % 16);
    NibbleInjective(a / 16, b / 16);
  }

  function Word32(a: bv8, b: bv8, c: bv8, d: bv8): bv32 {
    (a as bv32) | (b as bv32 << 8) | (c as bv32 << 16) | (d as bv32 << 24)
  }

  function Word64(lo: bv32, hi: bv32): bv64 {
    (lo as bv64) | (hi as bv64 << 32)
  }

  // ---- Lowest set bit ----

  /** The index of the lowest byte of `x` that is not zero; 4 if there is none. */
  function LowestByte(x: bv32): (k: nat)
    ensures k <= 4
    ensures k == 4 <==> x == 0
  {
    if x & 0xff != 0 then 0
    else if x & 0xffff != 0 then 1
    else if x & 0xff_ffff != 0 then 2
    else if x != 0 then 3
    else 4
  }

  /** The portable Bits::FindLSBSetNonZero: shift left while something remains, halving the step. */
  method FindLSBSetNonZero(m: bv32) returns (rc: int)
    requires m != 0
    ensures 0 <= rc < 32
    ensures m << (31 - rc) == 0x8000_0000
    ensures LowestByte(m) == rc / 8
  {
    var n := m;
    rc := 31;
    if n << 16 != 0 { n := n << 16; rc := rc - 16; }
    if n << 8 != 0 { n := n << 8; rc := rc - 8; }
    if n << 4 != 0 { n := n << 4; rc := rc - 4; }
    if n << 2 != 0 { n := n << 2; rc := rc - 2; }
    if n << 1 != 0 { n := n << 1; rc := rc - 1; }
  }

  function LowHalf(n: bv64): bv32 {
    (n & 0xffff_ffff) as bv32
  }

  function HighHalf(n: bv64): bv32 {
    (n >> 32) as bv32
  }

  function LowestByte64(x: bv64): nat {
    if LowHalf(x) != 0 then LowestByte(LowHalf(x)) else 4 + LowestByte(HighHalf(x))
  }

  lemma ZeroHalves(x: bv64)
    ensures x == 0 <==> LowHalf(x) == 0 && HighHalf(x) == 0
  {
  }

  /** Bits::FindLSBSetNonZero64, from the two halves. */
  method FindLSBSetNonZero64(n: bv64) returns (rc: int)
    requires n != 0
    ensures 0 <= rc < 64
    ensures LowHalf(n) != 0 ==> rc < 32 && LowHalf(n) << (31 - rc) == 0x8000_0000
    ensures LowHalf(n) == 0 ==> rc >= 32 && HighHalf(n) << (63 - rc) == 0x8000_0000
    ensures rc / 8 == LowestByte64(n)
  {
    ZeroHalves(n);
    var bottombits := LowHalf(n);
    if bottombits == 0 {
      rc := FindLSBSetNonZero(HighHalf(n));
      rc := 32 + rc;
    } else {
      rc := FindLSBSetNonZero(bottombits);
    }
  }

  lemma HalvesOfWord(lo: bv32, hi: bv32)
    ensures LowHalf(Word64(lo, hi)) == lo && HighHalf(Word64(lo, hi)) == hi
  {
  }

  lemma XorOfLongs(lo: bv32, hi: bv32, lo': bv32, hi': bv32)
    ensures Word64(lo, hi) ^ Word64(lo', hi') == Word64(lo ^ lo', hi ^ hi')
  {
  }

  lemma XorOfWords(a: bv8, b: bv8, c: bv8, d: bv8, a': bv8, b': bv8, c': bv8, d': bv8)
    ensures Word32(a, b, c, d) ^ Word32(a', b', c', d') == Word32(a ^ a', b ^ b', c ^ c', d ^ d')
  {
  }

  lemma Mask1OfWord(a: bv8, b: bv8, c: bv8, d: bv8)
    ensures Word32(a, b, c, d) & 0xff == Word32(a, 0, 0, 0)
  {
  }

  lemma Mask2OfWord(a: bv8, b: bv8, c: bv8, d: bv8)
    ensures Word32(a, b, c, d) & 0xffff == Word32(a, b, 0, 0)
  {
  }

  lemma Mask3OfWord(a: bv8, b: bv8, c: bv8, d: bv8)
    ensures Word32(a, b, c, d) & 0xff_ffff == Word32(a, b, c, 0)
  {
  }

  lemma ZeroWord(a: bv8, b: bv8, c: bv8, d: bv8)
    ensures Word32(a, b, c, d) == 0 <==> a == 0 && b == 0 && c == 0 && d == 0
  {
  }

  lemma LowBytesOfWord(a: bv8, b: bv8, c: bv8, d: bv8)
    ensures Word32(a, b, c, d) & 0xff == 0 <==> a == 0
    ensures Word32(a, b, c, d) & 0xffff == 0 <==> a == 0 && b == 0
    ensures Word32(a, b, c, d) & 0xff_ffff == 0 <==> a == 0 && b == 0 && c == 0
    ensures Word32(a, b, c, d) == 0 <==> a == 0 && b == 0 && c == 0 && d == 0
  {
    Mask1OfWord(a, b, c, d);
    Mask2OfWord(a, b, c, d);
    Mask3OfWord(a, b, c, d);
    ZeroWord(a, 0, 0, 0);
    ZeroWord(a, b, 0, 0);
    ZeroWord(a, b, c, 0);
    ZeroWord(a, b, c, d);
  }

  // ---- Words against bytes ----

  lemma XorZero(x: bv8, y: bv8)
    ensures x ^ y == 0 <==> x == y
  {
  }

  /** The lowest byte that is not zero in a word given by its bytes. */
  lemma LowestOfWord(p: bv8, q: bv8, r: bv8, u: bv8)
    ensures LowestByte(Word32(p, q, r, u)) ==
            if p != 0 then 0 else if q != 0 then 1 else if r != 0 then 2 else if u != 0 then 3 else 4
  {
    LowBytesOfWord(p, q, r, u);
  }

  /** The `n` bytes at `i` and at `j` are the same. */
  ghost predicate AgreeFor(s: seq<byte>, i: nat, j: nat, n: nat) {
    i + n <= |s| && j + n <= |s| && (n == 0 || (AgreeFor(s, i, j, n - 1) && s[i + n - 1] == s[j + n - 1]))
  }

  lemma {:induction false} AgreeSlices(s: seq<byte>, i: nat, j: nat, n: nat)
    requires AgreeFor(s, i, j, n)
    ensures s[i..i + n] == s[j..j + n]
  {
    if n > 0 {
      AgreeSlices(s, i, j, n - 1);
      assert s[i..i + n] == s[i..i + n - 1] + [s[i + n - 1]];
      assert s[j..j + n] == s[j..j + n - 1] + [s[j + n - 1]];
    }
  }

  lemma {:induction false} AgreeExtend(s: seq<byte>, i: nat, j: nat, n: nat, m: nat)
    requires AgreeFor(s, i, j, n) && AgreeFor(s, i + n, j + n, m)
    ensures AgreeFor(s, i, j, n + m)
    decreases m
  {
    if m > 0 {
      AgreeExtend(s, i, j, n, m - 1);
    }
  }

  lemma {:induction false} AgreeAt(s: seq<byte>, i: nat, j: nat, m: nat, n: nat)
    requires AgreeFor(s, i, j, m) && n < m
    ensures s[i + n] == s[j + n]
    decreases m
  {
    if n < m - 1 {
      AgreeAt(s, i, j, m - 1, n);
    }
  }

  /** The bytes at `i` and at `j` differ first `k` bytes on. */
  ghost predicate DifferAt(s: seq<byte>, i: nat, j: nat, k: nat) {
    AgreeFor(s, i, j, k) && i + k < |s| && j + k < |s| && s[i + k] != s[j + k]
  }

  lemma FourBytes(s: seq<byte>, i: nat, j: nat)
    requires i + 4 <= |s| && j + 4 <= |s|
    ensures if s[i] != s[j] then DifferAt(s, i, j, 0)
            else if s[i + 1] != s[j + 1] then DifferAt(s, i, j, 1)
            else if s[i + 2] != s[j + 2] then DifferAt(s, i, j, 2)
            else if s[i + 3] != s[j + 3] then DifferAt(s, i, j, 3)
            else AgreeFor(s, i, j, 4)
  {
    assert AgreeFor(s, i, j, 0);
    assert s[i] == s[j] ==> AgreeFor(s, i, j, 1);
    assert AgreeFor(s, i, j, 1) && s[i + 1] == s[j + 1] ==> AgreeFor(s, i, j, 2);
    assert AgreeFor(s, i, j, 2) && s[i + 2] == s[j + 2] ==> AgreeFor(s, i, j, 3);
  }

  // ---- Loads ----

  /** Two bytes as eight bits each. */
  method LoadBytes(a: byte, b: byte) returns (va: bv8, vb: bv8)
    ensures va ^ vb == 0 <==> a == b
  {
    va, vb := Bits(a), Bits(b);
    XorZero(va, vb);
    if va == vb {
      BitsInjective(a, b);
    }
  }

  /** UNALIGNED_LOAD32 at `i` and at `j`; the sequence ends where the loads must stop. */
  method LoadWords(s: seq<byte>, i: nat, j: nat) returns (v: bv32, w: bv32)
    requires i + 4 <= |s| && j + 4 <= |s|
    ensures v ^ w == 0 ==> AgreeFor(s, i, j, 4)
    ensures v ^ w != 0 ==> DifferAt(s, i, j, LowestByte(v ^ w))
  {
    var a, a' := LoadBytes(s[i], s[j]);
    var b, b' := LoadBytes(s[i + 1], s[j + 1]);
    var c, c' := LoadBytes(s[i + 2], s[j + 2]);
    var d, d' := LoadBytes(s[i + 3], s[j + 3]);
    v, w := Word32(a, b, c, d), Word32(a', b', c', d');
    XorOfWords(a, b, c, d, a', b', c', d');
    LowestOfWord(a ^ a', b ^ b', c ^ c', d ^ d');
    FourBytes(s, i, j);
  }

  /** Two words of eight bytes from their halves. */
  method JoinLongs(a: bv32, b: bv32, c: bv32, d: bv32) returns (v: bv64, w: bv64)
    ensures v ^ w == 0 <==> a ^ c == 0 && b ^ d == 0
    ensures LowestByte64(v ^ w) == if a ^ c != 0 then LowestByte(a ^ c) else 4 + LowestByte(b ^ d)
  {
    v, w := Word64(a, b), Word64(c, d);
    XorOfLongs(a, b, c, d);
    HalvesOfWord(a ^ c, b ^ d);
    ZeroHalves(Word64(a ^ c, b ^ d));
  }

  /** UNALIGNED_LOAD64 at `i` and at `j`. */
  method LoadLongs(s: seq<byte>, i: nat, j: nat) returns (v: bv64, w: bv64)
    requires i + 8 <= |s| && j + 8 <= |s|
    ensures v ^ w == 0 ==> AgreeFor(s, i, j, 8)
    ensures v ^ w != 0 ==> DifferAt(s, i, j, LowestByte64(v ^ w))
  {
    var a, c := LoadWords(s, i, j);
    var b, d := LoadWords(s, i + 4, j + 4);
    v, w := JoinLongs(a, b, c, d);
    if a ^ c == 0 {
      AgreeExtend(s, i, j, 4, if b ^ d == 0 then 4 else LowestByte(b ^ d));
    }
  }

  // ---- Matches ----

  /** `n` is the largest number of bytes, up to `limit`, on which `i` and `j` agree. */
  ghost predicate LongestMatch(s: seq<byte>, i: nat, j: nat, limit: nat, n: nat) {
    i <= j <= limit <= |s| && j + n <= limit && AgreeFor(s, i, j, n) && (j + n < limit ==> s[i + n] != s[j + n])
  }

  /** There is only one such number, and no longer agreement fits below the limit. */
  lemma LongestIsLongest(s: seq<byte>, i: nat, j: nat, limit: nat, n: nat, m: nat)
    requires LongestMatch(s, i, j, limit, n)
    requires j + m <= limit && AgreeFor(s, i, j, m)
    ensures m <= n
  {
    if n < m {
      AgreeAt(s, i, j, m, n);
    }
  }

  lemma {:induction false} AgreeInWindow(s: seq<byte>, limit: nat, i: nat, j: nat, n: nat)
    requires limit <= |s| && AgreeFor(s[..limit], i, j, n)
    ensures AgreeFor(s, i, j, n)
  {
    if n > 0 {
      AgreeInWindow(s, limit, i, j, n - 1);
    }
  }

  /** One comparison of eight bytes: none differ, or the first that does is found by its lowest bit. */
  method CompareLongs(s: seq<byte>, i: nat, j: nat) returns (equal: bool, k: nat)
    requires i + 8 <= |s| && j + 8 <= |s|
    ensures equal ==> AgreeFor(s, i, j, 8)
    ensures !equal ==> k < 8 && DifferAt(s, i, j, k)
  {
    var a1, a2 := LoadLongs(s, i, j);
    if a1 ^ a2 == 0 { return true, 0; }
    var matchingBits := FindLSBSetNonZero64(a1 ^ a2);
    return false, matchingBits / 8;
  }

  /** The same for four bytes. */
  method CompareWords(s: seq<byte>, i: nat, j: nat) returns (equal: bool, k: nat)
    requires i + 4 <= |s| && j + 4 <= |s|
    ensures equal ==> AgreeFor(s, i, j, 4)
    ensures !equal ==> k < 4 && DifferAt(s, i, j, k)
  {
    var a1, a2 := LoadWords(s, i, j);
    if a1 ^ a2 == 0 { return true, 0; }
    var matchingBits := FindLSBSetNonZero(a1 ^ a2);
    return false, matchingBits / 8;
  }

  /** The 64-bit little-endian FindMatchLength. No load reaches `limit`. */
  method FindMatchLength(s: seq<byte>, s1: nat, start: nat, limit: nat) returns (n: nat, short: bool)
    requires s1 <= start <= limit <= |s|
    ensures LongestMatch(s, s1, start, limit, n)
    ensures short == (n < 8)
  {
    n, short := FindMatchLengthInWindow(s[..limit], s1, start, limit);
    AgreeInWindow(s, limit, s1, start, n);
  }

  method FindMatchLengthInWindow(s: seq<byte>, s1: nat, start: nat, limit: nat) returns (n: nat, short: bool)
    requires s1 <= start <= limit == |s|
    ensures LongestMatch(s, s1, start, limit, n)
    ensures short == (n < 8)
  {
    var matched, s2 := 0, start;
    if s2 + 8 <= limit {
      var equal, k := CompareLongs(s, s1, s2);
      if !equal {
        return k, true;
      }
      matched, s2 := 8, s2 + 8;
    }
    while s2 + 8 <= limit
      invariant s2 == start + matched <= limit && AgreeFor(s, s1, start, matched)
      invariant matched < 8 ==> limit < start + 8
    {
      var equal, k := CompareLongs(s, s1 + matched, s2);
      if equal {
        AgreeExtend(s, s1, start, matched, 8);
        matched, s2 := matched + 8, s2 + 8;
      } else {
        AgreeExtend(s, s1, start, matched, k);
        matched := matched + k;
        assert matched >= 8;
        return matched, false;
      }
    }
    while s2 < limit
      invariant s2 == start + matched <= limit && AgreeFor(s, s1, start, matched)
    {
      if s[s1 + matched] == s[s2] {
        matched, s2 := matched + 1, s2 + 1;
      } else {
        return matched, matched < 8;
      }
    }
    return matched, matched < 8;
  }

  /** The 32-bit FindMatchLength computes the same thing. */
  method FindMatchLength32(s: seq<byte>, s1: nat, start: nat, limit: nat) returns (n: nat, short: bool)
    requires s1 <= start <= limit <= |s|
    ensures LongestMatch(s, s1, start, limit, n)
    ensures short == (n < 8)
  {
    n, short := FindMatchLength32InWindow(s[..limit], s1, start, limit);
    AgreeInWindow(s, limit, s1, start, n);
  }

  method FindMatchLength32InWindow(s: seq<byte>, s1: nat, start: nat, limit: nat) returns (n: nat, short: bool)
    requires s1 <= start <= limit == |s|
    ensures LongestMatch(s, s1, start, limit, n)
    ensures short == (n < 8)
  {
    var matched, s2 := 0, start;
    while s2 + 4 <= limit
      invariant s2 == start + matched <= limit && AgreeFor(s, s1, start, matched)
    {
      var equal, k := CompareWords(s, s1 + matched, s2);
      if !equal {
        AgreeExtend(s, s1, start, matched, k);
        matched := matched + k;
        return matched, matched < 8;
      }
      AgreeExtend(s, s1, start, matched, 4);
      s2, matched := s2 + 4, matched + 4;
    }
    while s2 < limit && s[s1 + matched] == s[s2]
      invariant s2 == start + matched <= limit && AgreeFor(s, s1, start, matched)
    {
      s2, matched := s2 + 1, matched + 1;
    }
    return matched, matched < 8;
  }
}
