/** The 20-symbol text form of an identifier. `encode` cuts the 96 bits,
    most significant first, into twenty 5-bit groups (the last one padded
    with four zero bits) and spells each through `Encoding`; `decode` maps
    each of twenty bytes through `Decoding` and reassembles the bits. */
module Codec {
  import opened Bytes
  import opened Alphabet
  import opened Ids
  import opened Chunks

  /** SIZEOF_STR: the length of the text form. */
  const TextLen := 20

  /** The twenty 5-bit groups `encode` looks up in ENCODING: eight from
      bytes 0-4, eight from bytes 5-9, four from bytes 10-11. */
  function Groups(b: Raw): (g: seq<u8>)
    ensures |g| == TextLen
    ensures Digits(g, 32)
    ensures g[19] % 16 == 0
  {
    EncodeChunkSpec(b[0], b[1], b[2], b[3], b[4]);
    EncodeChunkSpec(b[5], b[6], b[7], b[8], b[9]);
    EncodeTailSpec(b[10], b[11]);
    EncodeChunk(b[0], b[1], b[2], b[3], b[4])
    + EncodeChunk(b[5], b[6], b[7], b[8], b[9])
    + EncodeTail(b[10], b[11])
  }

  /** The twelve bytes `decode` assembles from twenty values. Values outside
      0..31 (the 0xFF of an invalid symbol) are combined just the same. */
  function Unpack(d: seq<u8>): (b: Raw)
    requires |d| == TextLen
  {
    DecodeChunk(d[0], d[1], d[2], d[3], d[4], d[5], d[6], d[7])
    + DecodeChunk(d[8], d[9], d[10], d[11], d[12], d[13], d[14], d[15])
    + DecodeTail(d[16], d[17], d[18], d[19])
  }

  /** Spells 5-bit values with the alphabet. */
  function Spell(g: seq<u8>): (s: seq<u8>)
    requires Digits(g, 32)
    ensures |s| == |g|
    ensures forall i :: 0 <= i < |s| ==> s[i] in Encoding && Decoding(s[i]) == g[i]
  {
    DecodingInvertsAll();
    seq(|g|, i requires 0 <= i < |g| => Encoding[g[i]])
  }

  /** `encode` into a fresh 20-byte buffer: the text form of `x`. */
  function Encode(x: Xid): (s: seq<u8>)
    ensures |s| == TextLen
    ensures forall i :: 0 <= i < |s| ==> s[i] in Encoding
  {
    Spell(Groups(x.bytes))
  }

  /** `encode(&self, dst)`: writes the text form into the first twenty
      bytes of `dst` and leaves the rest of `dst` as it was. */
  function EncodeInto(x: Xid, dst: seq<u8>): (r: seq<u8>)
    requires |dst| >= TextLen
    ensures |r| == |dst|
    ensures r[..TextLen] == Encode(x)
    ensures r[TextLen..] == dst[TextLen..]
  {
    Encode(x) + dst[TextLen..]
  }

  /** The values `decode` reads: DECODING of each of the first twenty bytes. */
  function Values(src: seq<u8>): (d: seq<u8>)
    requires |src| >= TextLen
    ensures |d| == TextLen
    ensures forall i :: 0 <= i < TextLen ==> d[i] == Decoding(src[i])
  {
    seq(TextLen, i requires 0 <= i < TextLen => Decoding(src[i]))
  }

  /** `decode(&mut self, src)`: overwrites all twelve bytes, so the result
      does not depend on the identifier decoded into. It never fails; on a
      canonical text it recovers the identifier that text is the form of. */
  function Decode(src: seq<u8>): (x: Xid)
    requires |src| >= TextLen
    ensures Canonical(src[..TextLen]) ==> Encode(x) == src[..TextLen]
  {
    assert Values(src[..TextLen]) == Values(src);
    CanonicalUnpack(src[..TextLen]);
    Xid(Unpack(Values(src)))
  }

  /** The ASCII bytes of a string literal. */
  function Text(s: string): (t: seq<u8>)
    requires forall i :: 0 <= i < |s| ==> s[i] as int < 256
    ensures |t| == |s|
  {
    seq(|s|, i requires 0 <= i < |s| => s[i] as int)
  }

  /** The text forms `encode` can produce: twenty alphabet symbols whose
      last one has its four padding bits clear. */
  predicate Canonical(s: seq<u8>)
  {
    && |s| == TextLen
    && (forall i :: 0 <= i < TextLen ==> s[i] in Encoding)
    && Decoding(s[19]) % 16 == 0
  }

  // ---------------------------------------------------------------------
  // The text spells the 96 bits followed by four zero bits

  lemma PowersOf32()
    ensures Pow(32, 4) == 0x10_0000 && Pow(32, 8) == 0x100_0000_0000
    ensures Pow(256, 2) == 0x1_0000 && Pow(256, 5) == 0x100_0000_0000
  {
    assert Pow(32, 2) == 0x400;
    assert Pow(256, 3) == 0x100_0000;
  }

  /** Splits the value of a 12- or 20-element string at two points. */
  lemma ValueSplit3(s: seq<u8>, i: nat, j: nat, base: nat, p: nat, q: nat)
    requires i <= j <= |s|
    requires p == Pow(base, j - i) && q == Pow(base, |s| - j)
    ensures Value(s, base) == (Value(s[..i], base) * p + Value(s[i..j], base)) * q + Value(s[j..], base)
  {
    var s1, s2, s3 := s[..i], s[i..j], s[j..];
    assert s[..j] == s1 + s2;
    assert s == s[..j] + s3;
    ValueAppend(s[..j], s3, base);
    ValueAppend(s1, s2, base);
    var v12 := Value(s[..j], base);
    assert Value(s, base) == v12 * q + Value(s3, base);
    assert v12 == Value(s1, base) * p + Value(s2, base);
  }

  /** The base-32 number the twenty groups spell is the 96-bit big-endian
      number of the bytes, times 16: the groups are the bits of the bytes,
      most significant first, padded with four zero bits at the end. */
  lemma GroupsValue(b: Raw)
    ensures Value(Groups(b), 32) == 16 * Value(b, 256)
  {
    var g := Groups(b);
    PowersOf32();
    ValueSplit3(g, 8, 16, 32, 0x100_0000_0000, 0x10_0000);
    ValueSplit3(b, 5, 10, 256, 0x100_0000_0000, 0x1_0000);
    assert g[..8] == EncodeChunk(b[0], b[1], b[2], b[3], b[4]);
    assert g[8..16] == EncodeChunk(b[5], b[6], b[7], b[8], b[9]);
    assert g[16..] == EncodeTail(b[10], b[11]);
    assert b[..5] == [b[0], b[1], b[2], b[3], b[4]];
    assert b[5..10] == [b[5], b[6], b[7], b[8], b[9]];
    assert b[10..] == [b[10], b[11]];
    EncodeChunkSpec(b[0], b[1], b[2], b[3], b[4]);
    EncodeChunkSpec(b[5], b[6], b[7], b[8], b[9]);
    EncodeTailSpec(b[10], b[11]);
  }

  /** The three pieces of `Unpack`: each chunk of bytes spells the number
      its chunk of values spells. */
  lemma UnpackPieces(d: seq<u8>)
    requires |d| == TextLen && Digits(d, 32)
    ensures Value(Unpack(d)[..5], 256) == Value(d[..8], 32)
    ensures Value(Unpack(d)[5..10], 256) == Value(d[8..16], 32)
    ensures Value(Unpack(d)[10..], 256) * 16 + d[19] % 16 == Value(d[16..], 32)
  {
    var u := Unpack(d);
    assert u[..5] == DecodeChunk(d[0], d[1], d[2], d[3], d[4], d[5], d[6], d[7]);
    assert u[5..10] == DecodeChunk(d[8], d[9], d[10], d[11], d[12], d[13], d[14], d[15]);
    assert u[10..] == DecodeTail(d[16], d[17], d[18], d[19]);
    assert d[..8] == [d[0], d[1], d[2], d[3], d[4], d[5], d[6], d[7]];
    assert d[8..16] == [d[8], d[9], d[10], d[11], d[12], d[13], d[14], d[15]];
    assert d[16..] == [d[16], d[17], d[18], d[19]];
    DecodeChunkSpec(d[0], d[1], d[2], d[3], d[4], d[5], d[6], d[7]);
    DecodeChunkSpec(d[8], d[9], d[10], d[11], d[12], d[13], d[14], d[15]);
    DecodeTailSpec(d[16], d[17], d[18], d[19]);
  }

  /** For twenty 5-bit values, the bytes `decode` assembles are the number
      they spell with its four lowest bits dropped. */
  lemma UnpackValue(d: seq<u8>)
    requires |d| == TextLen && Digits(d, 32)
    ensures Value(Unpack(d), 256) * 16 + d[19] % 16 == Value(d, 32)
  {
    var u := Unpack(d);
    PowersOf32();
    ValueSplit3(d, 8, 16, 32, 0x100_0000_0000, 0x10_0000);
    ValueSplit3(u, 5, 10, 256, 0x100_0000_0000, 0x1_0000);
    UnpackPieces(d);
    var v0, v1, vt := Value(u[..5], 256), Value(u[5..10], 256), Value(u[10..], 256);
    assert Value(u, 256) == (v0 * 0x100_0000_0000 + v1) * 0x1_0000 + vt;
    assert Value(d, 32) == (v0 * 0x100_0000_0000 + v1) * 0x10_0000 + vt * 16 + d[19] % 16;
  }

  // ---------------------------------------------------------------------
  // Round trips, canonical texts and order

  /** Unpacking the groups of any twelve bytes gives those bytes back. */
  lemma UnpackGroups(b: Raw)
    ensures Unpack(Groups(b)) == b
  {
    var g := Groups(b);
    UnpackValue(g);
    GroupsValue(b);
    BytesAreDigits(Unpack(g));
    BytesAreDigits(b);
    ValueInjective(Unpack(g), b, 256);
  }

  /** Twenty values are the groups of the bytes they unpack to exactly when
      each is a 5-bit value and the four padding bits of the last are clear. */
  lemma GroupsUnpack(d: seq<u8>)
    requires |d| == TextLen
    ensures Groups(Unpack(d)) == d <==> Digits(d, 32) && d[19] % 16 == 0
  {
    if Digits(d, 32) && d[19] % 16 == 0 {
      var u := Unpack(d);
      GroupsValue(u);
      UnpackValue(d);
      ValueInjective(Groups(u), d, 32);
    }
  }

  /** `decode` inverts `encode`: every identifier survives the round trip
      through its text form. */
  lemma DecodeEncode(x: Xid)
    ensures Decode(Encode(x)) == x
  {
    var g := Groups(x.bytes);
    assert Values(Encode(x)) == g;
    UnpackGroups(x.bytes);
  }

  /** Writing into a longer buffer and decoding from it also round-trips:
      `decode` reads only the twenty bytes `encode` wrote. */
  lemma DecodeEncodeInto(x: Xid, dst: seq<u8>)
    requires |dst| >= TextLen
    ensures Decode(EncodeInto(x, dst)) == x
  {
    assert Values(EncodeInto(x, dst)) == Values(Encode(x));
    DecodeEncode(x);
  }

  /** A canonical text is the spelling of its values, which are 5-bit
      values with the four padding bits of the last clear. */
  lemma CanonicalValues(s: seq<u8>)
    requires Canonical(s)
    ensures Digits(Values(s), 32) && Values(s)[19] % 16 == 0
    ensures Spell(Values(s)) == s
  {
    var d := Values(s);
    forall i | 0 <= i < TextLen
      ensures d[i] < 32 && Encoding[d[i]] == s[i]
    {
      DecodingInAlphabet(s[i]);
    }
  }

  /** A canonical text is the text form of the bytes `decode` unpacks. */
  lemma CanonicalUnpack(s: seq<u8>)
    requires |s| == TextLen
    ensures Canonical(s) ==> Encode(Xid(Unpack(Values(s)))) == s
  {
    if Canonical(s) {
      CanonicalValues(s);
      GroupsUnpack(Values(s));
    }
  }

  /** `encode` inverts `decode` on exactly the canonical texts: on any other
      text (an invalid symbol, or padding bits set) decoding loses
      information. */
  lemma EncodeDecode(s: seq<u8>)
    requires |s| == TextLen
    ensures Encode(Decode(s)) == s <==> Canonical(s)
  {
    var d := Values(s);
    if Canonical(s) {
      CanonicalValues(s);
      GroupsUnpack(d);
    }
    if Encode(Decode(s)) == s {
      var g := Groups(Decode(s).bytes);
      assert Decoding(s[19]) == g[19];
    }
  }

  /** Spelling with the increasing alphabet keeps lexicographic order. */
  lemma {:induction false} SpellOrder(g: seq<u8>, h: seq<u8>)
    requires |g| == |h| && Digits(g, 32) && Digits(h, 32)
    ensures LexLess(Spell(g), Spell(h)) <==> LexLess(g, h)
    decreases |g|
  {
    if |g| > 0 {
      DigitsSuffix(g);
      DigitsSuffix(h);
      assert Spell(g)[1..] == Spell(g[1..]);
      assert Spell(h)[1..] == Spell(h[1..]);
      SpellOrder(g[1..], h[1..]);
      EncodingIncreasing(g[0], h[0]);
    }
  }

  lemma DigitsSuffix(g: seq<u8>)
    requires |g| > 0 && Digits(g, 32)
    ensures Digits(g[1..], 32)
  {
    assert forall i :: 0 <= i < |g| - 1 ==> g[1..][i] == g[i + 1];
  }

  /** `encode` is strictly order-preserving: one identifier sorts before
      another exactly when its text form does. */
  lemma EncodeOrder(a: Xid, b: Xid)
    ensures Less(a, b) <==> LexLess(Encode(a), Encode(b))
  {
    var ga, gb := Groups(a.bytes), Groups(b.bytes);
    BytesAreDigits(a.bytes);
    BytesAreDigits(b.bytes);
    LexLessIffValue(a.bytes, b.bytes, 256);
    GroupsValue(a.bytes);
    GroupsValue(b.bytes);
    LexLessIffValue(ga, gb, 32);
    SpellOrder(ga, gb);
  }

  /** Distinct identifiers have distinct text forms. */
  lemma EncodeInjective(a: Xid, b: Xid)
    ensures a == b <==> Encode(a) == Encode(b)
  {
    if Encode(a) == Encode(b) {
      DecodeEncode(a);
      DecodeEncode(b);
    }
  }

  /** On canonical texts `decode` is order-preserving as well. */
  lemma DecodeOrder(s: seq<u8>, t: seq<u8>)
    requires Canonical(s) && Canonical(t)
    ensures LexLess(s, t) <==> Less(Decode(s), Decode(t))
  {
    EncodeDecode(s);
    EncodeDecode(t);
    EncodeOrder(Decode(s), Decode(t));
  }

  // ---------------------------------------------------------------------
  // Concrete texts

  /** The default identifier displays as twenty '0' symbols. */
  lemma EncodeDefault()
    ensures Encode(Default()) == Text("00000000000000000000")
  {
    EncodeChunkBits(0, 0, 0, 0, 0);
    EncodeTailBits(0, 0);
    assert Groups(Default().bytes) == seq(20, _ => 0);
  }

  /** ... and twenty '0' symbols decode to the default identifier. */
  lemma DecodeDefault()
    ensures Decode(Text("00000000000000000000")) == Default()
  {
    EncodeDefault();
    DecodeEncode(Default());
  }

  /** The groups of all-ones bytes: every group is 31, except that the last
      holds a single one bit followed by the four padding bits. */
  lemma OnesArith(b: nat)
    requires b == 0xFF
    ensures [b / 8, (b % 8) * 4 + b / 64, (b / 2) % 32, (b % 2) * 16 + b / 16,
            (b % 16) * 2 + b / 128, (b / 4) % 32, (b % 4) * 8 + b / 32, b % 32]
         == [31, 31, 31, 31, 31, 31, 31, 31]
    ensures [b / 8, (b % 8) * 4 + b / 64, (b / 2) % 32, (b % 2) * 16] == [31, 31, 31, 16]
  {
  }

  /** Five all-ones bytes cut into eight groups of 31. */
  lemma ChunkOnes(x: u8)
    requires x == 0xFF
    ensures EncodeChunk(x, x, x, x, x) == [31, 31, 31, 31, 31, 31, 31, 31]
  {
    var g := EncodeChunk(x, x, x, x, x);
    EncodeChunkList(x, x, x, x, x);
    assert g == [x / 8, (x % 8) * 4 + x / 64, (x / 2) % 32, (x % 2) * 16 + x / 16,
                 (x % 16) * 2 + x / 128, (x / 4) % 32, (x % 4) * 8 + x / 32, x % 32];
    OnesArith(x);
  }

  lemma ChunkOnesSeq(x: u8)
    requires x == 0xFF
    ensures EncodeChunk(x, x, x, x, x) == seq(8, _ => 31)
  {
    ChunkOnes(x);
    OnesLists();
  }

  /** Two all-ones bytes cut into three groups of 31 and a padded 16. */
  lemma TailOnes(x: u8)
    requires x == 0xFF
    ensures EncodeTail(x, x) == [31, 31, 31, 16]
  {
    EncodeTailList(x, x);
    OnesArith(x);
  }

  /** The groups of twelve all-ones bytes. */
  lemma GroupsOnes(x: u8)
    requires x == 0xFF
    ensures Groups([x, x, x, x, x, x, x, x, x, x, x, x]) == seq(19, _ => 31) + [16]
  {
    var b: Raw := [x, x, x, x, x, x, x, x, x, x, x, x];
    assert Groups(b) == EncodeChunk(x, x, x, x, x) + EncodeChunk(x, x, x, x, x) + EncodeTail(x, x);
    ChunkOnesSeq(x);
    TailOnes(x);
    OnesLists();
  }

  /** The constant group lists, written out and as comprehensions. */
  lemma OnesLists()
    ensures [31, 31, 31, 31, 31, 31, 31, 31] == seq(8, _ => 31)
    ensures seq(8, _ => 31) + seq(8, _ => 31) + [31, 31, 31, 16] == seq(19, _ => 31) + [16]
  {
  }

  /** Nineteen groups of 31 and a last group of 16 spell nineteen 'v'
      symbols and a 'g'. */
  lemma SpellOnes()
    ensures Spell(seq(19, _ => 31) + [16]) == Text("vvvvvvvvvvvvvvvvvvvg")
  {
    assert Encoding[31] == 'v' as int && Encoding[16] == 'g' as int;
  }

  /** The largest identifier displays as nineteen 'v' symbols and a 'g':
      the four padding bits sit at the end of the last symbol. */
  lemma EncodeMax()
    ensures Encode(Xid(seq(12, _ => 0xFF))) == Text("vvvvvvvvvvvvvvvvvvvg")
  {
    var x: u8 := 0xFF;
    assert seq(12, _ => 0xFF) == [x, x, x, x, x, x, x, x, x, x, x, x];
    GroupsOnes(x);
    SpellOnes();
  }

  /** ... and that text decodes to the largest identifier. */
  lemma DecodeMax()
    ensures Decode(Text("vvvvvvvvvvvvvvvvvvvg")) == Xid(seq(12, _ => 0xFF))
  {
    EncodeMax();
    DecodeEncode(Xid(seq(12, _ => 0xFF)));
  }

  /** `decode` reads only the top bit of the last value: texts that agree on
      the first nineteen values and on that bit decode alike, whatever
      their four padding bits. */
  lemma DecodeIgnoresPadding(s: seq<u8>, t: seq<u8>)
    requires |s| >= TextLen && |t| >= TextLen
    requires forall i :: 0 <= i < 19 ==> Decoding(s[i]) == Decoding(t[i])
    requires Decoding(s[19]) / 16 == Decoding(t[19]) / 16
    ensures Decode(s) == Decode(t)
  {
    var d, e := Values(s), Values(t);
    assert d[..19] == e[..19];
    assert Shr(d[19], 4) == Shr(e[19], 4);
  }
}
