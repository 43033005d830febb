/** Five bytes are forty bits, which `encode` cuts into eight 5-bit groups
    and `decode` reassembles from them; the last two bytes are sixteen bits,
    cut into four groups with four zero bits of padding at the end. The
    source repeats the five-byte pattern for bytes 0-4 and 5-9; here each
    pattern is written once, with the source's shifts, masks and ors, and
    its arithmetic meaning is proved. */
module Chunks {
  import opened Bytes

  /** The eight groups `encode` cuts from five bytes (dst[0..7] from
      id[0..4], and again dst[8..15] from id[5..9]). */
  function EncodeChunk(b0: u8, b1: u8, b2: u8, b3: u8, b4: u8): (g: seq<u8>)
    ensures |g| == 8
  {
    [ Shr(b0, 3),
      Or(Low5(Shr(b1, 6)), Low5(Shl(b0, 2))),
      Low5(Shr(b1, 1)),
      Or(Low5(Shr(b2, 4)), Low5(Shl(b1, 4))),
      Or(Shr(b3, 7), Low5(Shl(b2, 1))),
      Low5(Shr(b3, 2)),
      Or(Shr(b4, 5), Low5(Shl(b3, 3))),
      Low5(b4) ]
  }

  /** The four groups `encode` cuts from the last two bytes (dst[16..19]);
      the last group carries four zero bits of padding. */
  function EncodeTail(b10: u8, b11: u8): (g: seq<u8>)
    ensures |g| == 4
  {
    [ Shr(b10, 3),
      Or(Low5(Shr(b11, 6)), Low5(Shl(b10, 2))),
      Low5(Shr(b11, 1)),
      Low5(Shl(b11, 4)) ]
  }

  /** The five bytes `decode` assembles from eight values (id[0..4] from
      dec[0..7], and again id[5..9] from dec[8..15]). */
  function DecodeChunk(d0: u8, d1: u8, d2: u8, d3: u8, d4: u8, d5: u8, d6: u8, d7: u8): (b: seq<u8>)
    ensures |b| == 5
  {
    [ Or(Shl(d0, 3), Shr(d1, 2)),
      Or(Or(Shl(d1, 6), Shl(d2, 1)), Shr(d3, 4)),
      Or(Shl(d3, 4), Shr(d4, 1)),
      Or(Or(Shl(d4, 7), Shl(d5, 2)), Shr(d6, 3)),
      Or(Shl(d6, 5), d7) ]
  }

  /** The last two bytes `decode` assembles from the last four values; the
      four low bits of the last value are not read. */
  function DecodeTail(d16: u8, d17: u8, d18: u8, d19: u8): (b: seq<u8>)
    ensures |b| == 2
  {
    [ Or(Shl(d16, 3), Shr(d17, 2)),
      Or(Or(Shl(d17, 6), Shl(d18, 1)), Shr(d19, 4)) ]
  }

  // ---------------------------------------------------------------------
  // The bits of one group or byte, as integer arithmetic

  /** (n mod 256) mod 32 == n mod 32. */
  lemma ModMod256(n: nat)
    ensures (n % 256) % 32 == n % 32
  {
    var a, b := n / 256, n % 256;
    var c, e := b / 32, b % 32;
    assert n == 32 * (8 * a + c) + e;
    ModUnique(n, 32, 8 * a + c, e);
  }

  lemma SmallPowers()
    ensures Pow(2, 1) == 2 && Pow(2, 2) == 4 && Pow(2, 3) == 8 && Pow(2, 4) == 16
    ensures Pow(2, 5) == 32 && Pow(2, 6) == 64 && Pow(2, 7) == 128
  {
    assert Pow(2, 3) == 8;
  }

  /** The low five bits of a left shift of a byte. */
  lemma Low5Shl(h: u8)
    ensures Low5(Shl(h, 1)) == (h % 16) * 2
    ensures Low5(Shl(h, 2)) == (h % 8) * 4
    ensures Low5(Shl(h, 3)) == (h % 4) * 8
    ensures Low5(Shl(h, 4)) == (h % 2) * 16
  {
    SmallPowers();
    assert ((h * 2) % 256) % 32 == (h % 16) * 2 by {
      ModMod256(h * 2);
      ModUnique(h * 2, 32, h / 16, (h % 16) * 2);
    }
    assert ((h * 4) % 256) % 32 == (h % 8) * 4 by {
      ModMod256(h * 4);
      ModUnique(h * 4, 32, h / 8, (h % 8) * 4);
    }
    assert ((h * 8) % 256) % 32 == (h % 4) * 8 by {
      ModMod256(h * 8);
      ModUnique(h * 8, 32, h / 4, (h % 4) * 8);
    }
    assert ((h * 16) % 256) % 32 == (h % 2) * 16 by {
      ModMod256(h * 16);
      ModUnique(h * 16, 32, h / 2, (h % 2) * 16);
    }
  }

  /** Left shifts of a 5-bit value by up to four bits; the fourth drops
      the top bit. */
  lemma ShlValue(d: u8)
    requires d < 32
    ensures Shl(d, 1) == d * 2 && Shl(d, 2) == d * 4 && Shl(d, 3) == d * 8
    ensures Shl(d, 4) == (d % 16) * 16
  {
    ModUnique(d * 16, 256, d / 16, (d % 16) * 16);
  }

  /** Left shifts of a 5-bit value by five to seven bits, with the bits
      past bit 7 dropped. */
  lemma ShlHigh(d: u8)
    requires d < 32
    ensures Shl(d, 5) == (d % 8) * 32
    ensures Shl(d, 6) == (d % 4) * 64
    ensures Shl(d, 7) == (d % 2) * 128
  {
    ModUnique(d * 32, 256, d / 8, (d % 8) * 32);
    ModUnique(d * 64, 256, d / 4, (d % 4) * 64);
    ModUnique(d * 128, 256, d / 2, (d % 2) * 128);
  }

  /** Right shifts of a byte. */
  lemma ShrValue(x: u8)
    ensures Shr(x, 1) == x / 2 && Shr(x, 2) == x / 4 && Shr(x, 3) == x / 8
    ensures Shr(x, 4) == x / 16 && Shr(x, 5) == x / 32 && Shr(x, 6) == x / 64
    ensures Shr(x, 7) == x / 128
  {
    SmallPowers();
  }

  /** `(lo >> 8-k) | (hi << k) & 0x1F`: the low 5-k bits of `hi` followed
      by the high k bits of `lo`, for each k the source uses. */
  lemma Splice1(hi: u8, lo: u8)
    ensures Or(Shr(lo, 7), Low5(Shl(hi, 1))) == (hi % 16) * 2 + lo / 128
  {
    var x, y := Low5(Shl(hi, 1)), Shr(lo, 7);
    assert x == (hi % 16) * 2 by {
      Low5Shl(hi);
    }
    assert y == lo / 128 by {
      ShrValue(lo);
    }
    OrDisjoint(x, y, hi % 16, 2, 1);
  }

  lemma Splice2(hi: u8, lo: u8)
    ensures Or(Low5(Shr(lo, 6)), Low5(Shl(hi, 2))) == (hi % 8) * 4 + lo / 64
  {
    var x, y := Low5(Shl(hi, 2)), Low5(Shr(lo, 6));
    assert x == (hi % 8) * 4 by {
      Low5Shl(hi);
    }
    assert y == lo / 64 by {
      ShrValue(lo);
    }
    OrDisjoint(x, y, hi % 8, 4, 2);
  }

  lemma Splice3(hi: u8, lo: u8)
    ensures Or(Shr(lo, 5), Low5(Shl(hi, 3))) == (hi % 4) * 8 + lo / 32
  {
    var x, y := Low5(Shl(hi, 3)), Shr(lo, 5);
    assert x == (hi % 4) * 8 by {
      Low5Shl(hi);
    }
    assert y == lo / 32 by {
      ShrValue(lo);
    }
    OrDisjoint(x, y, hi % 4, 8, 3);
  }

  lemma Splice4(hi: u8, lo: u8)
    ensures Or(Low5(Shr(lo, 4)), Low5(Shl(hi, 4))) == (hi % 2) * 16 + lo / 16
  {
    var x, y := Low5(Shl(hi, 4)), Low5(Shr(lo, 4));
    assert x == (hi % 2) * 16 by {
      Low5Shl(hi);
    }
    assert y == lo / 16 by {
      ShrValue(lo);
    }
    OrDisjoint(x, y, hi % 2, 16, 4);
  }

  /** The eight groups `encode` cuts from five bytes. */
  lemma EncodeChunkBits(b0: u8, b1: u8, b2: u8, b3: u8, b4: u8)
    ensures Shr(b0, 3) == b0 / 8
    ensures Or(Low5(Shr(b1, 6)), Low5(Shl(b0, 2))) == (b0 % 8) * 4 + b1 / 64
    ensures Low5(Shr(b1, 1)) == (b1 / 2) % 32
    ensures Or(Low5(Shr(b2, 4)), Low5(Shl(b1, 4))) == (b1 % 2) * 16 + b2 / 16
    ensures Or(Shr(b3, 7), Low5(Shl(b2, 1))) == (b2 % 16) * 2 + b3 / 128
    ensures Low5(Shr(b3, 2)) == (b3 / 4) % 32
    ensures Or(Shr(b4, 5), Low5(Shl(b3, 3))) == (b3 % 4) * 8 + b4 / 32
    ensures Low5(b4) == b4 % 32
  {
    ShrValue(b0);
    ShrValue(b1);
    ShrValue(b3);
    Splice2(b0, b1);
    Splice4(b1, b2);
    Splice1(b2, b3);
    Splice3(b3, b4);
  }

  /** The four groups `encode` cuts from the last two bytes; the last group
      is padded with four zero bits. */
  lemma EncodeTailBits(b10: u8, b11: u8)
    ensures Shr(b10, 3) == b10 / 8
    ensures Or(Low5(Shr(b11, 6)), Low5(Shl(b10, 2))) == (b10 % 8) * 4 + b11 / 64
    ensures Low5(Shr(b11, 1)) == (b11 / 2) % 32
    ensures Low5(Shl(b11, 4)) == (b11 % 2) * 16
  {
    ShrValue(b10);
    ShrValue(b11);
    Splice2(b10, b11);
    Low5Shl(b11);
  }

  /** The eight groups of five bytes, as plain arithmetic on the bytes. */
  lemma EncodeChunkList(b0: u8, b1: u8, b2: u8, b3: u8, b4: u8)
    ensures EncodeChunk(b0, b1, b2, b3, b4)
        == [b0 / 8, (b0 % 8) * 4 + b1 / 64, (b1 / 2) % 32, (b1 % 2) * 16 + b2 / 16,
            (b2 % 16) * 2 + b3 / 128, (b3 / 4) % 32, (b3 % 4) * 8 + b4 / 32, b4 % 32]
  {
    EncodeChunkBits(b0, b1, b2, b3, b4);
  }

  /** The four groups of the last two bytes, as plain arithmetic. */
  lemma EncodeTailList(b10: u8, b11: u8)
    ensures EncodeTail(b10, b11) == [b10 / 8, (b10 % 8) * 4 + b11 / 64, (b11 / 2) % 32, (b11 % 2) * 16]
  {
    EncodeTailBits(b10, b11);
  }

  /** `(d0 << 3) | (d1 >> 2)` for 5-bit values. */
  lemma Join3(d0: u8, d1: u8)
    requires d0 < 32 && d1 < 32
    ensures Or(Shl(d0, 3), Shr(d1, 2)) == d0 * 8 + d1 / 4
  {
    ShlValue(d0);
    ShrValue(d1);
    SmallPowers();
    OrDisjoint(d0 * 8, d1 / 4, d0, 8, 3);
  }

  /** `(d1 << 6) | (d2 << 1) | (d3 >> 4)` for 5-bit values. */
  lemma Join61(d1: u8, d2: u8, d3: u8)
    requires d1 < 32 && d2 < 32 && d3 < 32
    ensures Or(Or(Shl(d1, 6), Shl(d2, 1)), Shr(d3, 4)) == (d1 % 4) * 64 + d2 * 2 + d3 / 16
  {
    ShlHigh(d1);
    ShlValue(d2);
    ShrValue(d3);
    SmallPowers();
    OrDisjoint((d1 % 4) * 64, d2 * 2, d1 % 4, 64, 6);
    OrDisjoint((d1 % 4) * 64 + d2 * 2, d3 / 16, (d1 % 4) * 32 + d2, 2, 1);
  }

  /** `(d3 << 4) | (d4 >> 1)` for 5-bit values. */
  lemma Join4(d3: u8, d4: u8)
    requires d3 < 32 && d4 < 32
    ensures Or(Shl(d3, 4), Shr(d4, 1)) == (d3 % 16) * 16 + d4 / 2
  {
    ShlValue(d3);
    ShrValue(d4);
    SmallPowers();
    OrDisjoint((d3 % 16) * 16, d4 / 2, d3 % 16, 16, 4);
  }

  /** `(d4 << 7) | (d5 << 2) | (d6 >> 3)` for 5-bit values. */
  lemma Join72(d4: u8, d5: u8, d6: u8)
    requires d4 < 32 && d5 < 32 && d6 < 32
    ensures Or(Or(Shl(d4, 7), Shl(d5, 2)), Shr(d6, 3)) == (d4 % 2) * 128 + d5 * 4 + d6 / 8
  {
    ShlHigh(d4);
    ShlValue(d5);
    ShrValue(d6);
    SmallPowers();
    OrDisjoint((d4 % 2) * 128, d5 * 4, d4 % 2, 128, 7);
    OrDisjoint((d4 % 2) * 128 + d5 * 4, d6 / 8, (d4 % 2) * 32 + d5, 4, 2);
  }

  /** `(d6 << 5) | d7` for 5-bit values. */
  lemma Join5(d6: u8, d7: u8)
    requires d6 < 32 && d7 < 32
    ensures Or(Shl(d6, 5), d7) == (d6 % 8) * 32 + d7
  {
    ShlHigh(d6);
    SmallPowers();
    OrDisjoint((d6 % 8) * 32, d7, d6 % 8, 32, 5);
  }

  /** The five bytes `decode` assembles from eight 5-bit values. */
  lemma DecodeChunkBits(d0: u8, d1: u8, d2: u8, d3: u8, d4: u8, d5: u8, d6: u8, d7: u8)
    requires d0 < 32 && d1 < 32 && d2 < 32 && d3 < 32
    requires d4 < 32 && d5 < 32 && d6 < 32 && d7 < 32
    ensures Or(Shl(d0, 3), Shr(d1, 2)) == d0 * 8 + d1 / 4
    ensures Or(Or(Shl(d1, 6), Shl(d2, 1)), Shr(d3, 4)) == (d1 % 4) * 64 + d2 * 2 + d3 / 16
    ensures Or(Shl(d3, 4), Shr(d4, 1)) == (d3 % 16) * 16 + d4 / 2
    ensures Or(Or(Shl(d4, 7), Shl(d5, 2)), Shr(d6, 3)) == (d4 % 2) * 128 + d5 * 4 + d6 / 8
    ensures Or(Shl(d6, 5), d7) == (d6 % 8) * 32 + d7
  {
    Join3(d0, d1);
    Join61(d1, d2, d3);
    Join4(d3, d4);
    Join72(d4, d5, d6);
    Join5(d6, d7);
  }

  // ---------------------------------------------------------------------
  // Values of the short strings the codec works on, written out

  lemma Value32Of8(s: seq<u8>)
    requires |s| == 8
    ensures Value(s, 32) == (s[0] as int) * 0x8_0000_0000 + (s[1] as int) * 0x4000_0000 + (s[2] as int) * 0x200_0000
                          + (s[3] as int) * 0x10_0000 + (s[4] as int) * 0x8000 + (s[5] as int) * 0x400 + (s[6] as int) * 32 + s[7]
  {
    assert s[..0] == [] && s[..8] == s;
    ValuePrefix(s, 1, 32);
    ValuePrefix(s, 2, 32);
    ValuePrefix(s, 3, 32);
    ValuePrefix(s, 4, 32);
    ValuePrefix(s, 5, 32);
    ValuePrefix(s, 6, 32);
    ValuePrefix(s, 7, 32);
    ValuePrefix(s, 8, 32);
  }

  lemma Value32Of4(s: seq<u8>)
    requires |s| == 4
    ensures Value(s, 32) == (s[0] as int) * 0x8000 + (s[1] as int) * 0x400 + (s[2] as int) * 32 + s[3]
  {
    assert s[..0] == [] && s[..4] == s;
    ValuePrefix(s, 1, 32);
    ValuePrefix(s, 2, 32);
    ValuePrefix(s, 3, 32);
    ValuePrefix(s, 4, 32);
  }

  lemma Value256Of5(s: seq<u8>)
    requires |s| == 5
    ensures Value(s, 256) == (s[0] as int) * 0x1_0000_0000 + (s[1] as int) * 0x100_0000 + (s[2] as int) * 0x1_0000 + (s[3] as int) * 0x100 + s[4]
  {
    assert s[..0] == [] && s[..5] == s;
    ValuePrefix(s, 1, 256);
    ValuePrefix(s, 2, 256);
    ValuePrefix(s, 3, 256);
    ValuePrefix(s, 4, 256);
    ValuePrefix(s, 5, 256);
  }

  lemma Value256Of2(s: seq<u8>)
    requires |s| == 2
    ensures Value(s, 256) == (s[0] as int) * 0x100 + s[1]
  {
    assert s[..0] == [] && s[..2] == s;
    ValuePrefix(s, 1, 256);
    ValuePrefix(s, 2, 256);
  }

  // ---------------------------------------------------------------------
  // The 40 bits of five bytes are the 40 bits of eight groups

  /** Eight 5-bit groups cut from five bytes spell the same 40-bit number. */
  lemma EncodeChunkValue(b0: nat, b1: nat, b2: nat, b3: nat, b4: nat)
    requires b0 < 256 && b1 < 256 && b2 < 256 && b3 < 256 && b4 < 256
    ensures (b0 / 8) * 0x8_0000_0000 + ((b0 % 8) * 4 + b1 / 64) * 0x4000_0000
          + ((b1 / 2) % 32) * 0x200_0000 + ((b1 % 2) * 16 + b2 / 16) * 0x10_0000
          + ((b2 % 16) * 2 + b3 / 128) * 0x8000 + ((b3 / 4) % 32) * 0x400
          + ((b3 % 4) * 8 + b4 / 32) * 32 + b4 % 32
         == b0 * 0x1_0000_0000 + b1 * 0x100_0000 + b2 * 0x1_0000 + b3 * 0x100 + b4
  {
    assert b0 == (b0 / 8) * 8 + b0 % 8;
    assert b1 == (b1 / 64) * 64 + ((b1 / 2) % 32) * 2 + b1 % 2;
    assert b2 == (b2 / 16) * 16 + b2 % 16;
    assert b3 == (b3 / 128) * 128 + ((b3 / 4) % 32) * 4 + b3 % 4;
    assert b4 == (b4 / 32) * 32 + b4 % 32;
  }

  /** The last four groups spell the last two bytes followed by four zero
      bits. */
  lemma EncodeTailValue(b10: nat, b11: nat)
    requires b10 < 256 && b11 < 256
    ensures (b10 / 8) * 0x8000 + ((b10 % 8) * 4 + b11 / 64) * 0x400 + ((b11 / 2) % 32) * 32 + (b11 % 2) * 16
         == 16 * (b10 * 0x100 + b11)
  {
    assert b10 == (b10 / 8) * 8 + b10 % 8;
    assert b11 == (b11 / 64) * 64 + ((b11 / 2) % 32) * 2 + b11 % 2;
  }

  /** Five bytes assembled from eight 5-bit values spell the same 40-bit
      number. */
  lemma DecodeChunkValue(d0: nat, d1: nat, d2: nat, d3: nat, d4: nat, d5: nat, d6: nat, d7: nat)
    requires d0 < 32 && d1 < 32 && d2 < 32 && d3 < 32
    requires d4 < 32 && d5 < 32 && d6 < 32 && d7 < 32
    ensures (d0 * 8 + d1 / 4) * 0x1_0000_0000 + ((d1 % 4) * 64 + d2 * 2 + d3 / 16) * 0x100_0000
          + ((d3 % 16) * 16 + d4 / 2) * 0x1_0000 + ((d4 % 2) * 128 + d5 * 4 + d6 / 8) * 0x100
          + (d6 % 8) * 32 + d7
         == d0 * 0x8_0000_0000 + d1 * 0x4000_0000 + d2 * 0x200_0000 + d3 * 0x10_0000
          + d4 * 0x8000 + d5 * 0x400 + d6 * 32 + d7
  {
    assert d1 == (d1 / 4) * 4 + d1 % 4;
    assert d3 == (d3 / 16) * 16 + d3 % 16;
    assert d4 == (d4 / 2) * 2 + d4 % 2;
    assert d6 == (d6 / 8) * 8 + d6 % 8;
  }

  /** The last two bytes assembled from the last four values, with the four
      low bits of the last value dropped. */
  lemma DecodeTailValue(d16: nat, d17: nat, d18: nat, d19: nat)
    requires d16 < 32 && d17 < 32 && d18 < 32 && d19 < 32
    ensures ((d16 * 8 + d17 / 4) * 0x100 + ((d17 % 4) * 64 + d18 * 2 + d19 / 16)) * 16 + d19 % 16
         == d16 * 0x8000 + d17 * 0x400 + d18 * 32 + d19
  {
    assert d17 == (d17 / 4) * 4 + d17 % 4;
    assert d19 == (d19 / 16) * 16 + d19 % 16;
  }

  // ---------------------------------------------------------------------
  // What the chunks mean

  /** Eight groups cut from five bytes are 5-bit values spelling, most
      significant first, the same 40-bit number as the bytes. */
  lemma EncodeChunkSpec(b0: u8, b1: u8, b2: u8, b3: u8, b4: u8)
    ensures Digits(EncodeChunk(b0, b1, b2, b3, b4), 32)
    ensures Value(EncodeChunk(b0, b1, b2, b3, b4), 32) == Value([b0, b1, b2, b3, b4], 256)
  {
    var g := EncodeChunk(b0, b1, b2, b3, b4);
    EncodeChunkBits(b0, b1, b2, b3, b4);
    Value32Of8(g);
    Value256Of5([b0, b1, b2, b3, b4]);
    EncodeChunkValue(b0, b1, b2, b3, b4);
  }

  /** The four tail groups are 5-bit values spelling the last two bytes
      followed by four zero bits. */
  lemma EncodeTailSpec(b10: u8, b11: u8)
    ensures Digits(EncodeTail(b10, b11), 32)
    ensures EncodeTail(b10, b11)[3] % 16 == 0
    ensures Value(EncodeTail(b10, b11), 32) == 16 * Value([b10, b11], 256)
  {
    var g := EncodeTail(b10, b11);
    EncodeTailBits(b10, b11);
    Value32Of4(g);
    Value256Of2([b10, b11]);
    EncodeTailValue(b10, b11);
  }

  /** Five bytes assembled from eight 5-bit values spell the number the
      values spell. */
  lemma DecodeChunkSpec(d0: u8, d1: u8, d2: u8, d3: u8, d4: u8, d5: u8, d6: u8, d7: u8)
    requires d0 < 32 && d1 < 32 && d2 < 32 && d3 < 32
    requires d4 < 32 && d5 < 32 && d6 < 32 && d7 < 32
    ensures Value(DecodeChunk(d0, d1, d2, d3, d4, d5, d6, d7), 256) == Value([d0, d1, d2, d3, d4, d5, d6, d7], 32)
  {
    var b := DecodeChunk(d0, d1, d2, d3, d4, d5, d6, d7);
    DecodeChunkBits(d0, d1, d2, d3, d4, d5, d6, d7);
    Value256Of5(b);
    Value32Of8([d0, d1, d2, d3, d4, d5, d6, d7]);
    DecodeChunkValue(d0, d1, d2, d3, d4, d5, d6, d7);
  }

  /** The last two bytes assembled from four 5-bit values are the number
      the values spell with its four lowest bits dropped. */
  lemma DecodeTailSpec(d16: u8, d17: u8, d18: u8, d19: u8)
    requires d16 < 32 && d17 < 32 && d18 < 32 && d19 < 32
    ensures Value(DecodeTail(d16, d17, d18, d19), 256) * 16 + d19 % 16 == Value([d16, d17, d18, d19], 32)
  {
    var b := DecodeTail(d16, d17, d18, d19);
    Join3(d16, d17);
    Join61(d17, d18, d19);
    Value256Of2(b);
    Value32Of4([d16, d17, d18, d19]);
    DecodeTailValue(d16, d17, d18, d19);
  }
}
