/** The decompressor's lookup table for tag bytes. */
module TagTable {
  import opened Bytes
  import opened Format

  /** The table, eight entries to a row as the source prints them.
      Bits 0..7: length in the tag byte; bits 8..10: copy offset / 256 in the tag byte;
      bits 11..13: bytes that follow the tag byte. */
  function CharTable(tag: byte): nat {
    match tag / 8
    case 0 => Column(tag % 8, 0x0001, 0x0804, 0x1001, 0x2001, 0x0002, 0x0805, 0x1002, 0x2002)
    case 1 => Column(tag % 8, 0x0003, 0x0806, 0x1003, 0x2003, 0x0004, 0x0807, 0x1004, 0x2004)
    case 2 => Column(tag % 8, 0x0005, 0x0808, 0x1005, 0x2005, 0x0006, 0x0809, 0x1006, 0x2006)
    case 3 => Column(tag % 8, 0x0007, 0x080a, 0x1007, 0x2007, 0x0008, 0x080b, 0x1008, 0x2008)
    case 4 => Column(tag % 8, 0x0009, 0x0904, 0x1009, 0x2009, 0x000a, 0x0905, 0x100a, 0x200a)
    case 5 => Column(tag % 8, 0x000b, 0x0906, 0x100b, 0x200b, 0x000c, 0x0907, 0x100c, 0x200c)
    case 6 => Column(tag % 8, 0x000d, 0x0908, 0x100d, 0x200d, 0x000e, 0x0909, 0x100e, 0x200e)
    case 7 => Column(tag % 8, 0x000f, 0x090a, 0x100f, 0x200f, 0x0010, 0x090b, 0x1010, 0x2010)
    case 8 => Column(tag % 8, 0x0011, 0x0a04, 0x1011, 0x2011, 0x0012, 0x0a05, 0x1012, 0x2012)
    case 9 => Column(tag % 8, 0x0013, 0x0a06, 0x1013, 0x2013, 0x0014, 0x0a07, 0x1014, 0x2014)
    case 10 => Column(tag % 8, 0x0015, 0x0a08, 0x1015, 0x2015, 0x0016, 0x0a09, 0x1016, 0x2016)
    case 11 => Column(tag % 8, 0x0017, 0x0a0a, 0x1017, 0x2017, 0x0018, 0x0a0b, 0x1018, 0x2018)
    case 12 => Column(tag % 8, 0x0019, 0x0b04, 0x1019, 0x2019, 0x001a, 0x0b05, 0x101a, 0x201a)
    case 13 => Column(tag % 8, 0x001b, 0x0b06, 0x101b, 0x201b, 0x001c, 0x0b07, 0x101c, 0x201c)
    case 14 => Column(tag % 8, 0x001d, 0x0b08, 0x101d, 0x201d, 0x001e, 0x0b09, 0x101e, 0x201e)
    case 15 => Column(tag % 8, 0x001f, 0x0b0a, 0x101f, 0x201f, 0x0020, 0x0b0b, 0x1020, 0x2020)
    case 16 => Column(tag % 8, 0x0021, 0x0c04, 0x1021, 0x2021, 0x0022, 0x0c05, 0x1022, 0x2022)
    case 17 => Column(tag % 8, 0x0023, 0x0c06, 0x1023, 0x2023, 0x0024, 0x0c07, 0x1024, 0x2024)
    case 18 => Column(tag % 8, 0x0025, 0x0c08, 0x1025, 0x2025, 0x0026, 0x0c09, 0x1026, 0x2026)
    case 19 => Column(tag % 8, 0x0027, 0x0c0a, 0x1027, 0x2027, 0x0028, 0x0c0b, 0x1028, 0x2028)
    case 20 => Column(tag % 8, 0x0029, 0x0d04, 0x1029, 0x2029, 0x002a, 0x0d05, 0x102a, 0x202a)
    case 21 => Column(tag % 8, 0x002b, 0x0d06, 0x102b, 0x202b, 0x002c, 0x0d07, 0x102c, 0x202c)
    case 22 => Column(tag % 8, 0x002d, 0x0d08, 0x102d, 0x202d, 0x002e, 0x0d09, 0x102e, 0x202e)
    case 23 => Column(tag % 8, 0x002f, 0x0d0a, 0x102f, 0x202f, 0x0030, 0x0d0b, 0x1030, 0x2030)
    case 24 => Column(tag % 8, 0x0031, 0x0e04, 0x1031, 0x2031, 0x0032, 0x0e05, 0x1032, 0x2032)
    case 25 => Column(tag % 8, 0x0033, 0x0e06, 0x1033, 0x2033, 0x0034, 0x0e07, 0x1034, 0x2034)
    case 26 => Column(tag % 8, 0x0035, 0x0e08, 0x1035, 0x2035, 0x0036, 0x0e09, 0x1036, 0x2036)
    case 27 => Column(tag % 8, 0x0037, 0x0e0a, 0x1037, 0x2037, 0x0038, 0x0e0b, 0x1038, 0x2038)
    case 28 => Column(tag % 8, 0x0039, 0x0f04, 0x1039, 0x2039, 0x003a, 0x0f05, 0x103a, 0x203a)
    case 29 => Column(tag % 8, 0x003b, 0x0f06, 0x103b, 0x203b, 0x003c, 0x0f07, 0x103c, 0x203c)
    case 30 => Column(tag % 8, 0x0801, 0x0f08, 0x103d, 0x203d, 0x1001, 0x0f09, 0x103e, 0x203e)
    case _ => Column(tag % 8, 0x1801, 0x0f0a, 0x103f, 0x203f, 0x2001, 0x0f0b, 0x1040, 0x2040)
  }

  function Column(k: nat, a: nat, b: nat, c: nat, d: nat, e: nat, f: nat, g: nat, h: nat): nat {
    if k == 0 then a else if k == 1 then b else if k == 2 then c else if k == 3 then d
    else if k == 4 then e else if k == 5 then f else if k == 6 then g else h
  }

  /** The entry the format asks for. */
  function EntryFor(tag: byte): nat {
    2048 * TrailerSize(tag) +
    match tag % 4
    case 0 => if tag / 4 < 60 then tag / 4 + 1 else 1
    case 1 => 256 * (tag / 32) + 4 + tag / 4 % 8
    case _ => 1 + tag / 4
  }

  lemma LiteralEntries(tag: byte)
    requires tag % 4 == 0
    ensures CharTable(tag) == EntryFor(tag)
  {
    assert tag == 4 * (tag / 4);
  }

  lemma Copy1Entries(tag: byte)
    requires tag % 4 == 1
    ensures CharTable(tag) == EntryFor(tag)
  {
    if tag / 4 < 32 { Copy1LowRow(tag / 4); } else { Copy1HighRow(tag / 4); }
    Copy1Entry(tag, CharTable(4 * (tag / 4) + 1));
  }

  lemma Copy1LowRow(m: nat)
    requires m < 32
    ensures CharTable(4 * m + 1) == 2048 + 256 * (m / 8) + 4 + m % 8
  {
  }

  lemma Copy1HighRow(m: nat)
    requires 32 <= m < 64
    ensures CharTable(4 * m + 1) == 2048 + 256 * (m / 8) + 4 + m % 8
  {
  }

  lemma Copy1Entry(tag: byte, e: nat)
    requires tag % 4 == 1 && e == 2048 + 256 * (tag / 4 / 8) + 4 + tag / 4 % 8
    ensures e == EntryFor(tag) && 4 * (tag / 4) + 1 == tag
  {
  }

  lemma Copy2Entries(tag: byte)
    requires tag % 4 == 2
    ensures CharTable(tag) == EntryFor(tag)
  {
    assert tag == 4 * (tag / 4) + 2;
  }

  lemma Copy4Entries(tag: byte)
    requires tag % 4 == 3
    ensures CharTable(tag) == EntryFor(tag)
  {
    assert tag == 4 * (tag / 4) + 3;
  }

  lemma Entries(tag: byte)
    ensures CharTable(tag) == EntryFor(tag)
  {
    if tag % 4 == 0 {
      LiteralEntries(tag);
    } else if tag % 4 == 1 {
      Copy1Entries(tag);
    } else if tag % 4 == 2 {
      Copy2Entries(tag);
    } else {
      Copy4Entries(tag);
    }
  }

  /** `char_table[c]`. */
  method Lookup(c: byte) returns (entry: nat)
    ensures entry == EntryFor(c)
    ensures entry / 2048 == TrailerSize(c)
    ensures c % 4 == 1 ==> entry % 256 == 4 + c / 4 % 8 && entry / 256 % 8 == c / 32
    ensures c % 4 >= 2 ==> entry % 256 == 1 + c / 4 && entry / 256 % 8 == 0
  {
    Entries(c);
    entry := CharTable(c);
    EntryFields(c);
  }

  /** What each of the 256 entries says of its tag byte: the bytes that follow it (none, one, two or
      four after a copy's, and as many as a long literal's length takes), the high bits of a one-byte
      offset, and the length. */
  lemma TableIsFormat(tag: byte)
    ensures CharTable(tag) / 2048 ==
      if tag % 4 == 0 then if tag < 240 then 0 else tag / 4 - 59
      else if tag % 4 == 1 then 1 else if tag % 4 == 2 then 2 else 4
    ensures CharTable(tag) / 256 % 8 == if tag % 4 == 1 then tag / 32 else 0
    ensures CharTable(tag) % 256 ==
      if tag % 4 == 0 then if tag < 240 then tag / 4 + 1 else 1
      else if tag % 4 == 1 then 4 + tag / 4 % 8 else 1 + tag / 4
  {
    Entries(tag);
    EntryFields(tag);
  }

  lemma EntryFields(c: byte)
    ensures EntryFor(c) / 2048 == TrailerSize(c)
    ensures c % 4 == 0 ==> EntryFor(c) % 256 == (if c < 240 then c / 4 + 1 else 1) && EntryFor(c) / 256 % 8 == 0
    ensures c % 4 == 1 ==> EntryFor(c) % 256 == 4 + c / 4 % 8 && EntryFor(c) / 256 % 8 == c / 32
    ensures c % 4 >= 2 ==> EntryFor(c) % 256 == 1 + c / 4 && EntryFor(c) / 256 % 8 == 0
  {
    if c % 4 == 0 {
      Fields(TrailerSize(c), 0, if c / 4 < 60 then c / 4 + 1 else 1);
    } else if c % 4 == 1 {
      Fields(1, c / 32, 4 + c / 4 % 8);
    } else {
      Fields(TrailerSize(c), 0, 1 + c / 4);
    }
  }

  lemma Fields(extra: nat, high: nat, len: nat)
    requires extra <= 4 && high < 8 && len < 256
    ensures var e := 2048 * extra + 256 * high + len;
            e / 2048 == extra && e / 256 % 8 == high && e % 256 == len
  {
    var e := 2048 * extra + 256 * high + len;
    assert e == 256 * (8 * extra + high) + len;
    assert e / 256 == 8 * extra + high;
  }
}
