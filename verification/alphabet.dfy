/** The 32-symbol alphabet of the text form and its inverse table.
    `Encoding` is the byte string "0123456789abcdefghijklmnopqrstuv" (the
    lower-case "base32hex" alphabet of section 7 of RFC 4648); `Decoding` is
    the 256-entry inverse, with 0xFF for every byte outside the alphabet. */
module Alphabet {
  import opened Bytes

  /** Marks a byte that is not a symbol of the alphabet. */
  const Invalid: u8 := 0xFF

  /** ENCODING: the i-th byte is the ASCII symbol for value i, '0'..'9'
      then 'a'..'v'. */
  const Encoding: seq<u8> :=
    [0x30, 0x31, 0x32, 0x33, 0x34, 0x35, 0x36, 0x37,
     0x38, 0x39, 0x61, 0x62, 0x63, 0x64, 0x65, 0x66,
     0x67, 0x68, 0x69, 0x6a, 0x6b, 0x6c, 0x6d, 0x6e,
     0x6f, 0x70, 0x71, 0x72, 0x73, 0x74, 0x75, 0x76]

  /** DECODING[c]: the value of symbol `c`, or `Invalid`. */
  function Decoding(c: u8): u8
  {
    if 0x30 <= c <= 0x39 then c - 0x30
    else if 0x61 <= c <= 0x76 then c - 0x57
    else Invalid
  }

  /** The alphabet is the literal text of the source, byte for byte. */
  lemma EncodingIsText()
    ensures |Encoding| == 32
    ensures forall i :: 0 <= i < 32 ==> Encoding[i] == "0123456789abcdefghijklmnopqrstuv"[i] as int
  {
  }

  /** Symbols are ASCII and strictly increasing, so comparing symbols
      compares the values they stand for. */
  lemma EncodingIncreasing(i: nat, j: nat)
    requires i < 32 && j < 32
    ensures Encoding[i] < 0x80
    ensures i < j <==> Encoding[i] < Encoding[j]
    ensures i == j <==> Encoding[i] == Encoding[j]
  {
    EncodingDigit(i);
    EncodingDigit(j);
  }

  /** Symbol i is '0' + i for the ten digits and 'a' + (i - 10) after. */
  lemma EncodingDigit(i: nat)
    requires i < 32
    ensures Encoding[i] == if i < 10 then 0x30 + i else 0x57 + i
  {
  }

  /** DECODING[ENCODING[v]] == v for every 5-bit value v. */
  lemma DecodingInvertsEncoding(v: nat)
    requires v < 32
    ensures Decoding(Encoding[v]) == v
  {
  }

  lemma DecodingInvertsAll()
    ensures forall v :: 0 <= v < 32 ==> Decoding(Encoding[v]) == v
  {
    forall v | 0 <= v < 32 {
      DecodingInvertsEncoding(v);
    }
  }

  /** A byte decodes to a value exactly when it is in the alphabet, and then
      it is the symbol for that value. */
  lemma DecodingInAlphabet(c: u8)
    ensures c in Encoding <==> Decoding(c) != Invalid
    ensures Decoding(c) != Invalid ==> Decoding(c) < 32 && Encoding[Decoding(c)] == c
  {
    if c in Encoding {
      var i :| 0 <= i < 32 && Encoding[i] == c;
      DecodingInvertsEncoding(i);
    }
    if Decoding(c) != Invalid {
      assert Encoding[Decoding(c)] == c;
    }
  }

  /** The table after values 0..n have been written: each byte whose value
      is below `n` maps to it, every other byte to `Invalid`. */
  predicate FilledUpTo(table: seq<u8>, n: nat)
  {
    && |table| == 256
    && forall c :: 0 <= c < 256 ==> table[c] == if Decoding(c) != Invalid && Decoding(c) < n then Decoding(c) else Invalid
  }

  /** The source fills a 256-byte table with 0xFF, then writes `i` at
      `ENCODING[i]` for each i in 0..32. The table it builds is `Decoding`. */
  method BuildDecodingTable() returns (table: seq<u8>)
    ensures |table| == 256
    ensures forall c :: 0 <= c < 256 ==> table[c] == Decoding(c)
  {
    table := [];
    while |table| < 256
      invariant |table| <= 256
      invariant forall k :: 0 <= k < |table| ==> table[k] == Invalid
    {
      table := table + [Invalid];
    }
    var i := 0;
    while i < 32
      invariant 0 <= i <= 32
      invariant FilledUpTo(table, i)
    {
      FillStep(table, i);
      table := table[Encoding[i] := i];
      i := i + 1;
    }
    forall c | 0 <= c < 256
      ensures table[c] == Decoding(c)
    {
      DecodingInAlphabet(c);
    }
  }

  /** One pass of the filling loop: writing `i` at `ENCODING[i]` extends the
      filled range by one. */
  lemma FillStep(table: seq<u8>, i: nat)
    requires i < 32
    requires FilledUpTo(table, i)
    ensures FilledUpTo(table[Encoding[i] := i], i + 1)
  {
    DecodingInvertsEncoding(i);
    forall c | 0 <= c < 256
      ensures Decoding(c) == i ==> c == Encoding[i]
    {
      DecodingInAlphabet(c);
    }
  }
}
