# xid identifiers in Dafny

A model of the `Xid` type of the `guid` crate (`src/xid.rs`). An `Xid` is 12
bytes, compared as a byte array:

- a 32-bit big-endian timestamp in seconds;
- a 3-byte machine id;
- the low 16 bits of the process id;
- the low 24 bits of a process-wide counter.

Its text form is 20 symbols from the alphabet
`0123456789abcdefghijklmnopqrstuv`. `encode` cuts the 96 bits, most
significant first, into twenty 5-bit groups and looks each group up in
ENCODING. `decode` maps each of 20 bytes through the 256-entry DECODING table
and reassembles the bytes with the same shifts.

The model is split into modules:

- `Bytes` (bytes.dfy): Rust `u8`/`u32` values as bounded integers, and the
  `u8` operations the codec uses. Shifts drop the bits pushed past bit 7, and
  `|` is a real bitwise or. It also holds lexicographic order and the number
  a digit string spells.
- `Alphabet` (alphabet.dfy): ENCODING, DECODING, and the loop that builds
  DECODING.
- `Ids` (ids.dfy): the identifier, `from_parts`, `From`, `Default`, the
  accessors, and the derived order.
- `Chunks` (chunks.dfy): the source's shift/mask/or expressions, grouped as
  the source repeats them. There is one five-byte pattern (bytes 0-4 and
  again bytes 5-9) and one two-byte tail, in each direction. For each pattern
  the model proves what number it computes.
- `Codec` (codec.dfy): `encode`, `decode`, their round trips, and order
  preservation.
- `Generator` (generator.dfy): `Xid::new` as a step on explicit state, and
  the ordering of successive identifiers.

The central fact is `Codec.GroupsValue`: read as a base-32 number, the 20
groups equal the 96-bit big-endian number of the bytes times 16. The four
spare bits are the four low bits of the last symbol. `Codec.UnpackValue` is
the matching fact for `decode`. Both round trips and both order results
follow from these two facts, together with the correspondence between
lexicographic order and numeric order (`Bytes.LexLessIffValue`).

## Model

| member | source | states |
|---|---|---|
| Alphabet.EncodingIsText | src/xid.rs:19-24 | ENCODING holds the 32 ASCII bytes of "0123456789abcdefghijklmnopqrstuv", in order |
| Alphabet.EncodingIncreasing | src/xid.rs:21 | symbols are ASCII and strictly increase with the value they stand for, so comparing symbols compares values |
| Alphabet.Decoding | src/xid.rs:26-35 | the DECODING table as a function of the byte; it has no contract of its own, its meaning is given by `Alphabet.DecodingInAlphabet` and `Alphabet.BuildDecodingTable` |
| Alphabet.DecodingInvertsAll | src/xid.rs:31-33 | DECODING[ENCODING[v]] == v for every 5-bit value v |
| Alphabet.DecodingInAlphabet | src/xid.rs:26-35 | a byte decodes to a value (not 0xFF) exactly when it is an alphabet symbol, and that symbol is ENCODING of the value |
| Alphabet.BuildDecodingTable | src/xid.rs:26-35 | filling 256 entries with 0xFF and then writing i at ENCODING[i] for i in 0..32 yields exactly DECODING, entry by entry |
| Ids.Default | src/xid.rs:84-89 | the default identifier has timestamp 0, machine id 00 00 00, process 0 and counter 0 |
| Ids.From | src/xid.rs:105-114 | the identifier holds the first twelve bytes of the input; inputs shorter than twelve bytes are excluded, as the slice panics on them |
| Ids.FromIgnoresTail | src/xid.rs:105-114 | bytes after the twelfth do not affect the result |
| Ids.FromParts | src/xid.rs:123-140 | the accessors return ts, the machine id, pid mod 2^16 and obj mod 2^24 |
| Ids.FromPartsBytes | src/xid.rs:123-140 | `from_parts` writes ts as 4 big-endian bytes, then mid, then pid as 2 bytes and obj as 3 bytes, each cut to its width |
| Ids.FromPartsLayout | src/xid.rs:123-140 | the bytes are ts as 4 big-endian bytes, then mid, then pid as 2 bytes, then obj as 3 bytes (high bits dropped) |
| Ids.Timestamp | src/xid.rs:201-205 | the timestamp accessor reads bytes 0-3 big-endian: writing the result back as 4 big-endian bytes gives those bytes |
| Ids.Machine | src/xid.rs:207-209 | bytes 4-6; no contract of its own, `Ids.FromParts` and `Ids.PartsRoundTrip` show it is the mid field |
| Ids.Process | src/xid.rs:211-215 | the process accessor is below 2^16 |
| Ids.Counter | src/xid.rs:217-220 | the counter accessor is below 2^24 |
| Ids.PartsRoundTrip | src/xid.rs:200-220 | every identifier is from_parts of its own accessors, so packing and the accessors are mutually inverse |
| Ids.Less | src/xid.rs:10-13 | the derived `Ord`: lexicographic order of the bytes; no contract of its own, its properties are `Ids.LessIsStrictTotal`, `Ids.FromPartsOrder` and `Codec.EncodeOrder` |
| Ids.LessIsStrictTotal | src/xid.rs:10-13 | the derived byte order is irreflexive, total and transitive |
| Ids.FieldOrder | src/xid.rs:10-13 | byte order of two packed layouts compares timestamp bytes, then machine, then process, then counter |
| Ids.FromPartsOrder | src/xid.rs:123-140 | packed identifiers compare as the tuple (ts, mid, pid mod 2^16, obj mod 2^24), in both directions |
| Ids.FromPartsVectorA | src/xid.rs:275-283 | the first test vector: the given fields pack to 4d 88 e1 5b 60 f4 86 e4 28 41 2d c9 |
| Ids.FromPartsVectorB | src/xid.rs:284-292 | all-zero fields pack to the default identifier |
| Ids.FromPartsVectorC | src/xid.rs:293-301 | the third test vector packs to 00 00 00 00 aa bb cc dd ee 00 00 01 |
| Chunks.EncodeChunk | src/xid.rs:156-171 | the eight group expressions of five bytes; beyond the length it has no contract, its meaning is `Chunks.EncodeChunkSpec` |
| Chunks.EncodeTail | src/xid.rs:172-175 | the four group expressions of the last two bytes; its meaning is `Chunks.EncodeTailSpec` |
| Chunks.DecodeChunk | src/xid.rs:184-193 | the five byte expressions of eight values; its meaning is `Chunks.DecodeChunkSpec` |
| Chunks.DecodeTail | src/xid.rs:194-195 | the two byte expressions of the last four values; its meaning is `Chunks.DecodeTailSpec` |
| Chunks.EncodeChunkBits | src/xid.rs:156-163 | each of the eight group expressions is the corresponding 5-bit slice of the 40 bits of five bytes |
| Chunks.EncodeChunkList | src/xid.rs:156-163 | the eight groups of five bytes are the bytes' 5-bit slices, as plain division and remainder |
| Chunks.EncodeTailList | src/xid.rs:172-175 | the four groups of the last two bytes are their 5-bit slices, the last padded with four zero bits |
| Chunks.EncodeChunkSpec | src/xid.rs:156-171 | the eight groups cut from five bytes are 5-bit values spelling the same 40-bit number as the bytes |
| Chunks.EncodeTailSpec | src/xid.rs:172-175 | the last four groups are 5-bit values spelling the last two bytes followed by four zero bits |
| Chunks.DecodeChunkBits | src/xid.rs:184-188 | for 5-bit inputs, each byte expression of decode is the corresponding 8-bit slice of the 40 bits of eight values |
| Chunks.DecodeChunkSpec | src/xid.rs:184-193 | five bytes assembled from eight 5-bit values spell the number those values spell |
| Chunks.DecodeTailSpec | src/xid.rs:194-195 | the last two bytes are the number the last four values spell, with its four lowest bits dropped |
| Codec.Groups | src/xid.rs:156-175 | encode's twenty table indices are 5-bit values, and the last has its four low bits clear |
| Codec.GroupsValue | src/xid.rs:156-175 | the twenty groups, read as base 32, equal the 96-bit big-endian value of the bytes times 16: bits most significant first, padding at the end |
| Codec.Unpack | src/xid.rs:184-195 | the twelve byte expressions of decode, applied to any values; no contract of its own, its meaning is `Codec.UnpackValue` and `Codec.UnpackGroups` |
| Codec.UnpackValue | src/xid.rs:184-195 | for 5-bit values, decode's bytes are the number the twenty values spell, without its four lowest bits |
| Codec.Spell | src/xid.rs:152-154 | each looked-up symbol is in the alphabet and DECODING gives back the group it spells |
| Codec.Encode | src/xid.rs:150-176 | the text form is twenty alphabet symbols |
| Codec.EncodeInto | src/xid.rs:150-176 | encode writes the text form into the first 20 bytes of dst and leaves the rest; shorter buffers are excluded, as indexing dst[19] panics |
| Codec.Values | src/xid.rs:180-182 | decode reads DECODING of each of the first twenty bytes |
| Codec.Decode | src/xid.rs:178-196 | decode never fails, and on a canonical text it returns the identifier whose text form that is |
| Codec.UnpackGroups | src/xid.rs:150-196 | decode's bit assembly inverts encode's bit cutting for every twelve bytes |
| Codec.GroupsUnpack | src/xid.rs:178-196 | twenty values are the groups of the bytes they decode to exactly when all are 5-bit values and the last has its four low bits clear |
| Codec.DecodeEncode | src/xid.rs:239-250 | decode(encode(id)) == id for every identifier |
| Codec.DecodeEncodeInto | src/xid.rs:239-250 | the round trip also holds through a longer buffer |
| Codec.CanonicalValues | src/xid.rs:178-196 | a canonical text is the spelling of the values decode reads from it |
| Codec.CanonicalUnpack | src/xid.rs:178-196 | a canonical text is the text form of the bytes decode assembles from it |
| Codec.EncodeDecode | src/xid.rs:178-196 | encode(decode(s)) == s exactly when s is canonical: every byte is an alphabet symbol and the last symbol's padding bits are clear |
| Codec.SpellOrder | src/xid.rs:19-24 | spelling equal-length value strings through the increasing alphabet preserves lexicographic order, in both directions |
| Codec.EncodeOrder | src/xid.rs:228-236 | one identifier sorts before another exactly when its text form does |
| Codec.EncodeInjective | src/xid.rs:150-176 | distinct identifiers have distinct text forms |
| Codec.DecodeOrder | src/xid.rs:178-196 | on canonical texts, decode preserves and reflects order |
| Codec.EncodeDefault | src/xid.rs:84-89 | the default identifier displays as twenty '0' symbols |
| Codec.DecodeDefault | src/xid.rs:84-89 | twenty '0' symbols decode to the default identifier |
| Codec.GroupsOnes | src/xid.rs:156-175 | twelve 0xFF bytes give nineteen groups of 31 and a last group of 16: one data bit, then the four zero padding bits |
| Codec.EncodeMax | src/xid.rs:150-176 | the all-0xFF identifier displays as "vvvvvvvvvvvvvvvvvvvg", so the padding is at the end of the last symbol |
| Codec.DecodeMax | src/xid.rs:178-196 | "vvvvvvvvvvvvvvvvvvvg" decodes to the all-0xFF identifier |
| Codec.DecodeIgnoresPadding | src/xid.rs:195 | decode reads only the top bit of the last value, so texts that differ only in the last symbol's four padding bits decode alike |
| Generator.Bump | src/xid.rs:119-120 | the stamped counter value is old + 1 wrapping at 2^32, and its low 24 bits are (old + 1) mod 2^24 |
| Generator.New | src/xid.rs:117-121 | new stamps now, MACHINE, the low 16 bits of PROCESS and the incremented counter's low 24 bits, and advances only the counter |
| Generator.StampOrder | src/xid.rs:123-140 | identifiers with the same machine and process compare by timestamp, then by the low 24 bits of the counter |
| Generator.Successive | src/xid.rs:228-233 | of two successive ids, the second no earlier, the second sorts after the first exactly when it is later or the 24-bit counter does not wrap to zero |
| Generator.SuccessiveText | src/xid.rs:234-235 | the same condition decides the order of their text forms |
| Generator.NewMany | src/xid.rs:117-121 | n calls within one second advance the counter by n; each id carries the timestamp, MACHINE, PROCESS mod 2^16 and counter (c + i + 1) mod 2^24; for n <= 2^24 the ids are pairwise distinct, even across a 24-bit wrap; without a wrap they are strictly increasing |
| Generator.DistinctIds | src/xid.rs:117-121 | two calls within one second, fewer than 2^24 calls apart, stamp different identifiers |
| Generator.CounterDistinct | src/xid.rs:117-121 | counter values fewer than 2^24 steps apart differ in their low 24 bits, even when those bits wrap in between |
| Generator.NoWrapOrder | src/xid.rs:117-121 | within one second and without a 24-bit wrap, a later counter value gives a later identifier |

## Left out

- The start-up derivation of PROCESS, MACHINE and the counter seed (src/xid.rs:38-82) is not modelled. It reads the host name, hashes it with MD5, reads a cgroup file and takes its CRC-32, and draws random bytes. Those values are fields of `Generator.State`.
- The clock (`now`, src/lib.rs:17-20) and the `as u32` truncation of seconds are not modelled: `now` is a `u32` parameter of `Generator.New`.
- Atomicity and the `SeqCst` ordering of `fetch_add` are not modelled. `Generator.State` is passed from call to call, which models a single sequential history of calls.
- Generator.Bump: follows the release build, where `old + 1` wraps at 2^32. A debug build panics when the counter is `u32::MAX`; that panic is not modelled.
- Panics on short buffers become preconditions: `From` needs 12 bytes, and `encode` and `decode` need 20.
- The `Debug` and `Display` plumbing (src/xid.rs:91-102) is not modelled. `Display` is `encode` into a 20-byte buffer, which `Codec.Encode` models. `Clone`, `Hash` and `Eq` are datatype equality. `bytes`/`bytes_mut` (src/xid.rs:142-148) are field access.
- src/ksuid.rs is not part of this model; src/lib.rs does not compile it in.
- Ids.Counter: the test accessor builds the value with `u32` shifts and ors of the three bytes. The model states it as the big-endian value of those bytes, which is the same number for bytes below 256. `Ids.Timestamp` and `Ids.Process` likewise stand for `read_u32`/`read_u16` in big-endian order.
- Padding position: the four spare bits are the low four bits of the last symbol. `dst[19]` is `(bytes[11] << 4) & 0x1F`, and `bytes[11]` takes only `dec!(19) >> 4`, so the first symbol holds the top five bits of byte 0 (`Codec.GroupsValue`, `Codec.EncodeMax`).
- Invalid symbols: an invalid symbol's 0xFF marker is shifted and ored whole, so its set bits can spill into neighbouring bit positions. `Codec.Unpack` does the same. The model proves only that decoding loses information off the canonical texts (`Codec.EncodeDecode`); no separate lemma describes the spilled bits.
- Generator: the 24-bit counter can wrap to zero within one second, and then the next identifier sorts first (`Generator.Successive` gives the exact condition). For the `test_ord` test: if its three calls of `new` take consecutive counter values within one second, its assertions fail exactly when the counter before `id1` is 2^24 - 2 or 2^24 - 3 modulo 2^24. Tests run on parallel threads and `test_encode_decode` also calls `new`, so the counter `test_ord` starts from is not simply the random seed.
