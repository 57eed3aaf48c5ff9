/** The compressed stream as a value: a varint preamble, then literal and copy elements.
    Compressor, decompressor and validator are all related to `Decode` below. */
module Format {
  import opened Wrappers
  import opened Bytes

  // ---- Preamble ----

  /** The value and the number of bytes of the varint at the front of `c`: low seven bits of each
      byte, least significant group first, a byte below 128 ends it, at most `groups` bytes. */
  function VarintPrefix(c: seq<byte>, groups: nat): Option<(nat, nat)> {
    if groups == 0 || c == [] then None
    else if c[0] < 128 then Some((c[0], 1))
    else
      match VarintPrefix(c[1..], groups - 1)
      case None => None
      case Some((v, k)) => Some((c[0] % 128 + 128 * v, k + 1))
  }

  /** A preamble is a varint of at most five bytes whose value fits a uint32. */
  function Preamble(c: seq<byte>): (r: Option<(nat, nat)>)
    ensures r.Some? ==> r.value.0 < TWO32 && 1 <= r.value.1 <= |c|
  {
    match VarintPrefix(c, 5)
    case None => None
    case Some((v, k)) =>
      PrefixConsumes(c, 5);
      if v < TWO32 then Some((v, k)) else None
  }

  lemma PrefixConsumes(c: seq<byte>, groups: nat)
    ensures VarintPrefix(c, groups).Some? ==> 1 <= VarintPrefix(c, groups).value.1 <= |c|
  {
  }

  // ---- Elements ----

  /** The head of an element: how many bytes its tag and trailer take and what it asks for. */
  datatype Head = LiteralHead(size: nat, len: nat) | CopyHead(size: nat, offset: nat, len: nat)

  /** Bytes after the tag byte that belong to the head. */
  function TrailerSize(tag: byte): (n: nat)
    ensures n <= 4
  {
    if tag % 4 == 0 then if tag / 4 < 60 then 0 else tag / 4 - 59
    else if tag % 4 == 3 then 4
    else tag % 4
  }

  /** A literal whose length field is 2^32 - 1 has length 2^32; the decompressor computes the
      length in 32 bits and gets 0, and so does this function. */
  function HeadAt(c: seq<byte>): (h: Option<Head>)
    ensures h.Some? ==> 1 <= h.value.size <= 5 && h.value.size <= |c|
    ensures h.Some? <==> c != [] && 1 + TrailerSize(c[0]) <= |c|
  {
    if c == [] || |c| < 1 + TrailerSize(c[0]) then None
    else
      var tag := c[0];
      var size := 1 + TrailerSize(tag);
      var trailer := LeValue(c[1..size]);
      match tag % 4
      case 0 => if tag / 4 < 60 then Some(LiteralHead(1, tag / 4 + 1))
                else Some(LiteralHead(size, (trailer + 1) % TWO32))
      case 1 => Some(CopyHead(size, tag / 32 * 256 + trailer, 4 + tag / 4 % 8))
      case _ => Some(CopyHead(size, trailer, 1 + tag / 4))
  }

  /** The output after all elements of `c` have been applied to the output `out`; None when an
      element is cut short or a copy reaches back past the start of the output. */
  function Expand(c: seq<byte>, out: seq<byte>): Option<seq<byte>>
    decreases |c|, 2
  {
    if c == [] then Some(out) else ExpandFirst(c, out)
  }

  function ExpandFirst(c: seq<byte>, out: seq<byte>): Option<seq<byte>>
    requires c != []
    decreases |c|, 1
  {
    ExpandElement(c, out)
  }

  function ExpandElement(c: seq<byte>, out: seq<byte>): Option<seq<byte>>
    requires c != []
    decreases |c|, 0
  {
    match HeadAt(c)
    case None => None
    case Some(LiteralHead(size, len)) =>
      if |c| < size + len then None
      else Expand(c[size + len..], out + c[size..size + len])
    case Some(CopyHead(size, offset, len)) =>
      if offset == 0 || |out| < offset then None
      else Expand(c[size..], CopyFromSelf(out, offset, len))
  }

  /** One element off the front. The three layers of `Expand` let the verifier treat it as a black
      box wherever this lemma is not called. */
  lemma ExpandStep(c: seq<byte>, out: seq<byte>)
    requires c != []
    ensures Expand(c, out) == ExpandElement(c, out)
  {
    assert Expand(c, out) == ExpandFirst(c, out);
  }

  lemma {:induction false} ExpandKeepsPrefix(c: seq<byte>, out: seq<byte>)
    requires Expand(c, out).Some?
    ensures |out| <= |Expand(c, out).value| && Expand(c, out).value[..|out|] == out
    decreases |c|
  {
    if c != [] {
      ExpandStep(c, out);
      var r := Expand(c, out).value;
      match HeadAt(c).value
      case LiteralHead(size, len) =>
        var next := out + c[size..size + len];
        ExpandKeepsPrefix(c[size + len..], next);
        assert r[..|out|] == r[..|next|][..|out|] == out;
      case CopyHead(size, offset, len) =>
        var next := CopyFromSelf(out, offset, len);
        CopyKeepsPrefix(out, offset, len);
        ExpandKeepsPrefix(c[size..], next);
        assert r[..|out|] == r[..|next|][..|out|] == out;
    }
  }

  /** A stream that is a single element. */
  lemma ExpandOne(c: seq<byte>, out: seq<byte>, h: Head)
    requires HeadAt(c) == Some(h)
    requires h.LiteralHead? ==> |c| == h.size + h.len
    requires h.CopyHead? ==> |c| == h.size && 0 < h.offset <= |out|
    ensures Expand(c, out) ==
            Some(if h.LiteralHead? then out + c[h.size..] else CopyFromSelf(out, h.offset, h.len))
  {
    ExpandStep(c, out);
    if h.LiteralHead? {
      assert c[h.size..h.size + h.len] == c[h.size..];
      assert c[h.size + h.len..] == [];
    } else {
      assert c[h.size..] == [];
    }
  }

  /** The plain text of a whole compressed buffer. */
  function Decode(c: seq<byte>): Option<seq<byte>> {
    match Preamble(c)
    case None => None
    case Some((n, k)) =>
      match Expand(c[k..], [])
      case None => None
      case Some(r) => if |r| == n then Some(r) else None
  }

  // ---- Composition ----

  /** Elements can be appended to a stream that decodes: decoding continues where it stopped. */
  lemma {:induction false} ExpandAppend(a: seq<byte>, b: seq<byte>, out: seq<byte>)
    requires Expand(a, out).Some?
    ensures Expand(a + b, out) == Expand(b, Expand(a, out).value)
    decreases |a|
  {
    if a == [] {
      assert a + b == b;
    } else {
      ExpandStep(a, out);
      ExpandStep(a + b, out);
      var h := HeadAt(a).value;
      HeadOfAppend(a, b);
      match h
      case LiteralHead(size, len) =>
        assert (a + b)[size..size + len] == a[size..size + len];
        assert (a + b)[size + len..] == a[size + len..] + b;
        ExpandAppend(a[size + len..], b, out + a[size..size + len]);
      case CopyHead(size, offset, len) =>
        assert (a + b)[size..] == a[size..] + b;
        ExpandAppend(a[size..], b, CopyFromSelf(out, offset, len));
    }
  }

  /** Two streams decoded one after the other. */
  lemma ExpandTwo(a: seq<byte>, b: seq<byte>, out: seq<byte>, mid: seq<byte>, end: seq<byte>)
    requires Expand(a, out) == Some(mid) && Expand(b, mid) == Some(end)
    ensures Expand(a + b, out) == Some(end)
  {
    ExpandAppend(a, b, out);
  }

  lemma HeadOfAppend(a: seq<byte>, b: seq<byte>)
    requires HeadAt(a).Some?
    ensures HeadAt(a + b) == HeadAt(a)
  {
    var size := 1 + TrailerSize(a[0]);
    assert (a + b)[0] == a[0];
    assert (a + b)[1..size] == a[1..size];
  }
}
