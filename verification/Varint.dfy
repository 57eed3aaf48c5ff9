/** The length preamble: the unrolled encoder and the unrolled parser, against the format. */
module Varint {
  import opened Wrappers
  import opened Bytes
  import opened Format

  /** Seven bits to a byte, least significant first, all but the last with the top bit set. */
  function VarintBytes(v: nat): (s: seq<byte>)
    ensures s != []
  {
    if v < 128 then [v] else [v % 128 + 128] + VarintBytes(v / 128)
  }

  /** The five sizes, written out. */
  lemma {:induction false} VarintUnrolled(v: nat)
    requires v < TWO32
    ensures VarintBytes(v) ==
            if v < 0x80 then [v]
            else if v < 0x4000 then [v % 128 + 128, v / 0x80]
            else if v < 0x20_0000 then [v % 128 + 128, v / 0x80 % 128 + 128, v / 0x4000]
            else if v < 0x1000_0000 then
              [v % 128 + 128, v / 0x80 % 128 + 128, v / 0x4000 % 128 + 128, v / 0x20_0000]
            else
              [v % 128 + 128, v / 0x80 % 128 + 128, v / 0x4000 % 128 + 128, v / 0x20_0000 % 128 + 128,
               v / 0x1000_0000]
  {
    if v >= 128 {
      var w := v / 0x80;
      assert w / 0x80 == v / 0x4000 && w / 0x4000 == v / 0x20_0000 && w / 0x20_0000 == v / 0x1000_0000;
      VarintUnrolled(w);
    }
  }

  lemma VarintSize(v: nat)
    requires v < TWO32
    ensures |VarintBytes(v)| <= 5
  {
    VarintUnrolled(v);
  }

  lemma {:induction false} PrefixOfBytes(v: nat, rest: seq<byte>, groups: nat)
    requires |VarintBytes(v)| <= groups
    ensures VarintPrefix(VarintBytes(v) + rest, groups) == Some((v, |VarintBytes(v)|))
    decreases v
  {
    var s := VarintBytes(v) + rest;
    if v >= 128 {
      PrefixOfBytes(v / 128, rest, groups - 1);
      assert s[1..] == VarintBytes(v / 128) + rest;
      assert s[0] == v % 128 + 128;
    }
  }

  /** Reading back what was written, whatever follows it. */
  lemma PreambleOfVarint(v: nat, rest: seq<byte>)
    requires v < TWO32
    ensures Preamble(VarintBytes(v) + rest) == Some((v, |VarintBytes(v)|))
  {
    VarintUnrolled(v);
    PrefixOfBytes(v, rest, 5);
  }

  /** `*(ptr++) = b`, as seen from the start of the field being written. */
  method Put(buf: array<byte>, ghost start: nat, ptr: nat, b: byte) returns (next: nat)
    requires start <= ptr < buf.Length
    modifies buf
    ensures next == ptr + 1
    ensures buf[start..next] == old(buf[start..ptr]) + [b]
    ensures forall i :: 0 <= i < buf.Length && i != ptr ==> buf[i] == old(buf[i])
  {
    buf[ptr] := b;
    return ptr + 1;
  }

  /** Varint::Encode32: five straight-line cases. */
  method Encode32(buf: array<byte>, at: nat, v: nat) returns (end: nat)
    requires v < TWO32
    requires at + |VarintBytes(v)| <= buf.Length
    modifies buf
    ensures end == at + |VarintBytes(v)|
    ensures buf[at..end] == VarintBytes(v)
    ensures forall i :: 0 <= i < buf.Length && !(at <= i < end) ==> buf[i] == old(buf[i])
  {
    VarintUnrolled(v);
    var ptr := at;
    if v < 0x80 {
      ptr := Put(buf, at, ptr, v);
    } else if v < 0x4000 {
      ptr := Put(buf, at, ptr, v % 128 + 128);
      ptr := Put(buf, at, ptr, v / 0x80);
    } else if v < 0x20_0000 {
      ptr := Put(buf, at, ptr, v % 128 + 128);
      ptr := Put(buf, at, ptr, v / 0x80 % 128 + 128);
      ptr := Put(buf, at, ptr, v / 0x4000);
    } else {
      ptr := EncodeLong(buf, at, v);
    }
    return ptr;
  }

  /** The two longest cases. */
  method EncodeLong(buf: array<byte>, at: nat, v: nat) returns (end: nat)
    requires 0x20_0000 <= v < TWO32
    requires at + |VarintBytes(v)| <= buf.Length
    modifies buf
    ensures end == at + |VarintBytes(v)|
    ensures buf[at..end] == VarintBytes(v)
    ensures forall i :: 0 <= i < buf.Length && !(at <= i < end) ==> buf[i] == old(buf[i])
  {
    VarintUnrolled(v);
    var ptr := at;
    if v < 0x1000_0000 {
      ptr := Put(buf, at, ptr, v % 128 + 128);
      ptr := Put(buf, at, ptr, v / 0x80 % 128 + 128);
      ptr := Put(buf, at, ptr, v / 0x4000 % 128 + 128);
      ptr := Put(buf, at, ptr, v / 0x20_0000);
    } else {
      ptr := Put(buf, at, ptr, v % 128 + 128);
      ptr := Put(buf, at, ptr, v / 0x80 % 128 + 128);
      ptr := Put(buf, at, ptr, v / 0x4000 % 128 + 128);
      ptr := Put(buf, at, ptr, v / 0x20_0000 % 128 + 128);
      ptr := Put(buf, at, ptr, v / 0x1000_0000);
    }
    return ptr;
  }

  // ---- Reading ----

  /** Seven-bit groups 0..k of `c`, weighted. */
  function GroupSum(c: seq<byte>, k: nat): nat
    requires k < |c|
  {
    c[0] % 128 + if k == 0 then 0 else 128 * GroupSum(c[1..], k - 1)
  }

  lemma {:induction false} GroupSumUnrolled(c: seq<byte>, k: nat)
    requires k < 5 && k < |c|
    ensures GroupSum(c, k) ==
            (c[0] as int) % 128 + (if k > 0 then (c[1] as int) % 128 * 0x80 else 0) +
            (if k > 1 then (c[2] as int) % 128 * 0x4000 else 0) +
            (if k > 2 then (c[3] as int) % 128 * 0x20_0000 else 0) +
            (if k > 3 then (c[4] as int) % 128 * 0x1000_0000 else 0)
  {
    if k > 0 {
      GroupSumUnrolled(c[1..], k - 1);
    }
  }

  lemma {:induction false} PrefixEndsAt(c: seq<byte>, groups: nat, k: nat)
    requires k < groups && k < |c| && c[k] < 128
    requires forall j :: 0 <= j < k ==> c[j] >= 128
    ensures VarintPrefix(c, groups) == Some((GroupSum(c, k), k + 1))
  {
    if k > 0 {
      PrefixEndsAt(c[1..], groups - 1, k - 1);
    }
  }

  lemma {:induction false} PrefixNeverEnds(c: seq<byte>, groups: nat)
    requires forall j :: 0 <= j < groups && j < |c| ==> c[j] >= 128
    ensures VarintPrefix(c, groups) == None
  {
    if groups > 0 && |c| > 0 {
      PrefixNeverEnds(c[1..], groups - 1);
    }
  }

  /** Where the preamble of `c` ends, and what it says. */
  lemma PreambleEndsAt(c: seq<byte>, k: nat)
    requires k < 5 && k < |c| && c[k] < 128
    requires forall j :: 0 <= j < k ==> c[j] >= 128
    ensures Preamble(c) == if GroupSum(c, k) < TWO32 then Some((GroupSum(c, k), k + 1)) else None
  {
    PrefixEndsAt(c, 5, k);
  }

  /** Groups before the fifth always fit. */
  lemma EarlyGroup(c: seq<byte>, k: nat)
    requires k < 4 && k < |c| && c[k] < 128
    requires forall j :: 0 <= j < k ==> c[j] >= 128
    ensures Preamble(c) ==
            Some(((c[0] as int) % 128 + (if k > 0 then (c[1] as int) % 128 * 0x80 else 0) +
                  (if k > 1 then (c[2] as int) % 128 * 0x4000 else 0) +
                  (if k > 2 then (c[3] as int) % 128 * 0x20_0000 else 0), k + 1))
  {
    PreambleEndsAt(c, k);
    GroupSumUnrolled(c, k);
  }

  lemma CutShort(c: seq<byte>)
    requires |c| < 5 && forall j :: 0 <= j < |c| ==> c[j] >= 128
    ensures Preamble(c) == None
  {
    PrefixNeverEnds(c, 5);
  }

  /** The fifth group may hold four bits: what overflows 32 bits is refused, not truncated. */
  lemma FifthGroup(c: seq<byte>)
    requires |c| > 4 && c[0] >= 128 && c[1] >= 128 && c[2] >= 128 && c[3] >= 128
    ensures Preamble(c) ==
            if c[4] < 16 then
              Some(((c[0] as int) % 128 + (c[1] as int) % 128 * 0x80 + (c[2] as int) % 128 * 0x4000 +
                    (c[3] as int) % 128 * 0x20_0000 + c[4] as int * 0x1000_0000, 5))
            else None
  {
    if c[4] < 128 {
      PreambleEndsAt(c, 4);
      GroupSumUnrolled(c, 4);
    } else {
      PrefixNeverEnds(c, 5);
    }
  }

  /** Varint::Parse32WithLimit on the bytes `c`: the value and the number of bytes read. */
  method Parse32WithLimit(c: seq<byte>) returns (r: Option<(nat, nat)>)
    ensures r == Preamble(c)
  {
    var result: nat := 0;
    if 0 >= |c| { CutShort(c); return None; }
    var b: nat := c[0]; result := b % 128;
    if b < 128 { EarlyGroup(c, 0); return Some((result, 1)); }
    if 1 >= |c| { CutShort(c); return None; }
    b := c[1]; result := result + b % 128 * 0x80;
    if b < 128 { EarlyGroup(c, 1); return Some((result, 2)); }
    if 2 >= |c| { CutShort(c); return None; }
    b := c[2]; result := result + b % 128 * 0x4000;
    if b < 128 { EarlyGroup(c, 2); return Some((result, 3)); }
    if 3 >= |c| { CutShort(c); return None; }
    b := c[3]; result := result + b % 128 * 0x20_0000;
    if b < 128 { EarlyGroup(c, 3); return Some((result, 4)); }
    if 4 >= |c| { CutShort(c); return None; }
    FifthGroup(c);
    b := c[4]; result := result + b % 128 * 0x1000_0000 % TWO32;
    if b < 16 { return Some((result, 5)); }
    return None;
  }
}
