/** The 12-byte identifier: its layout, constructors, field accessors and
    order. Bytes 0-3 hold a 32-bit timestamp, 4-6 the machine id, 7-8 the
    low 16 bits of the process id, 9-11 the low 24 bits of the counter, all
    big-endian. */
module Ids {
  import opened Bytes

  /** The raw identifier bytes, `[u8; 12]`. */
  type Raw = s: seq<u8> | |s| == 12 witness [0, 0, 0, 0, 0, 0, 0, 0, 0, 0, 0, 0]

  /** The machine id, `[u8; 3]`. */
  type MachineId = s: seq<u8> | |s| == 3 witness [0, 0, 0]

  datatype Xid = Xid(bytes: Raw)

  /** `Xid::default()`: twelve zero bytes. */
  function Default(): (x: Xid)
    ensures Timestamp(x) == 0 && Machine(x) == [0, 0, 0] && Process(x) == 0 && Counter(x) == 0
  {
    var x := Xid(seq(12, _ => 0));
    assert x.bytes[..4] == [0, 0, 0, 0] && x.bytes[7..9] == [0, 0] && x.bytes[9..] == [0, 0, 0];
    assert Value([0, 0], 256) == 0 && Value([0, 0, 0], 256) == 0;
    assert Value([0, 0, 0, 0], 256) == 0 by {
      assert [0, 0, 0, 0][..3] == [0, 0, 0];
    }
    x
  }

  /** `Xid::from(data)`: copies the first twelve bytes of `data`. */
  function From(data: seq<u8>): (x: Xid)
    requires |data| >= 12
    ensures x.bytes == data[..12]
  {
    Xid(data[..12])
  }

  /** `Xid::from_parts`: packs the fields, keeping only the low 16 bits of
      `pid` and the low 24 bits of `obj`. */
  function FromParts(ts: u32, mid: MachineId, pid: u32, obj: u32): (x: Xid)
    ensures Timestamp(x) == ts
    ensures Machine(x) == mid
    ensures Process(x) == pid % 0x1_0000
    ensures Counter(x) == obj % 0x100_0000
  {
    var x := Xid(BigEndian(ts, 4) + mid
                 + [Byte(pid / 0x100), Byte(pid)]
                 + [Byte(obj / 0x1_0000), Byte(obj / 0x100), Byte(obj)]);
    FromPartsLayout(ts, mid, pid, obj, x);
    PowersOf256();
    assert Timestamp(x) == ts by {
      ValueBigEndian(ts, 4);
      ModSmall(ts, 0x1_0000_0000);
    }
    assert Process(x) == pid % 0x1_0000 by {
      ValueBigEndian(pid, 2);
    }
    assert Counter(x) == obj % 0x100_0000 by {
      ValueBigEndian(obj, 3);
    }
    x
  }

  /** The bytes `from_parts` writes, field by field, as big-endian numbers. */
  lemma FromPartsLayout(ts: u32, mid: MachineId, pid: u32, obj: u32, x: Xid)
    requires x.bytes == BigEndian(ts, 4) + mid
                        + [Byte(pid / 0x100), Byte(pid)]
                        + [Byte(obj / 0x1_0000), Byte(obj / 0x100), Byte(obj)]
    ensures x.bytes == BigEndian(ts, 4) + mid + BigEndian(pid, 2) + BigEndian(obj, 3)
    ensures x.bytes[..4] == BigEndian(ts, 4)
    ensures x.bytes[4..7] == mid
    ensures x.bytes[7..9] == BigEndian(pid, 2)
    ensures x.bytes[9..] == BigEndian(obj, 3)
  {
    BigEndian2(pid);
    BigEndian3(obj);
    var T, P, O := BigEndian(ts, 4), BigEndian(pid, 2), BigEndian(obj, 3);
    FieldSlices(T, mid, P, O);
  }

  /** `from_parts` writes ts as four big-endian bytes, then the machine id,
      then pid as two bytes and obj as three, each cut to its width. */
  lemma FromPartsBytes(ts: u32, mid: MachineId, pid: u32, obj: u32)
    ensures FromParts(ts, mid, pid, obj).bytes == BigEndian(ts, 4) + mid + BigEndian(pid, 2) + BigEndian(obj, 3)
  {
    FromPartsLayout(ts, mid, pid, obj, FromParts(ts, mid, pid, obj));
  }

  /** The four fields of a 4 + 3 + 2 + 3 byte layout are its slices. */
  lemma FieldSlices(t: seq<u8>, m: seq<u8>, p: seq<u8>, o: seq<u8>)
    requires |t| == 4 && |m| == 3 && |p| == 2 && |o| == 3
    ensures (t + m + p + o)[..4] == t
    ensures (t + m + p + o)[4..7] == m
    ensures (t + m + p + o)[7..9] == p
    ensures (t + m + p + o)[9..] == o
  {
  }

  /** The test accessor `timestamp`: bytes 0-3 read big-endian. */
  function Timestamp(x: Xid): (t: u32)
    ensures BigEndian(t, 4) == x.bytes[..4]
  {
    BigEndianValue(x.bytes[..4]);
    ValueBound(x.bytes[..4], 256);
    PowersOf256();
    Value(x.bytes[..4], 256)
  }

  /** The test accessor `machine`: bytes 4-6. */
  function Machine(x: Xid): (m: MachineId)
  {
    x.bytes[4..7]
  }

  /** The test accessor `process`: bytes 7-8 read big-endian. */
  function Process(x: Xid): (p: u32)
    ensures p < 0x1_0000
  {
    ValueBound(x.bytes[7..9], 256);
    PowersOf256();
    Value(x.bytes[7..9], 256)
  }

  /** The test accessor `counter`: bytes 9-11 read big-endian. */
  function Counter(x: Xid): (c: u32)
    ensures c < 0x100_0000
  {
    ValueBound(x.bytes[9..], 256);
    PowersOf256();
    Value(x.bytes[9..], 256)
  }

  /** Every identifier is the packing of its own fields, so `from_parts`
      and the accessors are mutually inverse. */
  lemma PartsRoundTrip(x: Xid)
    ensures FromParts(Timestamp(x), Machine(x), Process(x), Counter(x)) == x
  {
    var y := FromParts(Timestamp(x), Machine(x), Process(x), Counter(x));
    FromPartsLayout(Timestamp(x), Machine(x), Process(x), Counter(x), y);
    BigEndianValue(x.bytes[..4]);
    BigEndianValue(x.bytes[7..9]);
    BigEndianValue(x.bytes[9..]);
    assert y.bytes == x.bytes[..4] + x.bytes[4..7] + x.bytes[7..9] + x.bytes[9..];
    assert x.bytes == x.bytes[..4] + x.bytes[4..7] + x.bytes[7..9] + x.bytes[9..];
  }

  /** `From` reads only the first twelve bytes: an identifier's own bytes,
      followed by anything, give that identifier back. */
  lemma FromIgnoresTail(x: Xid, tail: seq<u8>)
    ensures From(x.bytes + tail) == x
  {
    assert (x.bytes + tail)[..12] == x.bytes;
  }

  /** The derived `Ord` of `Xid`: lexicographic order of the bytes. */
  predicate Less(a: Xid, b: Xid)
  {
    LexLess(a.bytes, b.bytes)
  }

  /** `Xid` order is a strict total order. */
  lemma LessIsStrictTotal(a: Xid, b: Xid, c: Xid)
    ensures !Less(a, a)
    ensures Less(a, b) || a == b || Less(b, a)
    ensures Less(a, b) && Less(b, c) ==> Less(a, c)
  {
    LexLessTrichotomy(a.bytes, b.bytes);
    LexLessTrichotomy(a.bytes, a.bytes);
    LexLessIffValue(a.bytes, b.bytes, 256);
    LexLessIffValue(b.bytes, c.bytes, 256);
    LexLessIffValue(a.bytes, c.bytes, 256);
  }

  /** Order of the (timestamp, machine, process, counter) tuple, with
      process and counter already reduced to their stored widths. */
  predicate PartsLess(t1: u32, m1: MachineId, p1: nat, o1: nat, t2: u32, m2: MachineId, p2: nat, o2: nat)
  {
    || t1 < t2
    || (t1 == t2 && LexLess(m1, m2))
    || (t1 == t2 && m1 == m2 && p1 < p2)
    || (t1 == t2 && m1 == m2 && p1 == p2 && o1 < o2)
  }

  /** Byte order of two 4 + 3 + 2 + 3 byte layouts compares field by field. */
  lemma FieldOrder(t1: seq<u8>, m1: seq<u8>, p1: seq<u8>, o1: seq<u8>, t2: seq<u8>, m2: seq<u8>, p2: seq<u8>, o2: seq<u8>)
    requires |t1| == |t2| == 4 && |m1| == |m2| == 3 && |p1| == |p2| == 2 && |o1| == |o2| == 3
    ensures LexLess(t1 + m1 + p1 + o1, t2 + m2 + p2 + o2) <==>
      || LexLess(t1, t2)
      || (t1 == t2 && LexLess(m1, m2))
      || (t1 == t2 && m1 == m2 && LexLess(p1, p2))
      || (t1 == t2 && m1 == m2 && p1 == p2 && LexLess(o1, o2))
  {
    var r1, r2 := p1 + o1, p2 + o2;
    var q1, q2 := m1 + r1, m2 + r2;
    assert LexLess(r1, r2) <==> LexLess(p1, p2) || (p1 == p2 && LexLess(o1, o2)) by {
      LexLessAppend(p1, o1, p2, o2);
    }
    assert LexLess(q1, q2) <==> LexLess(m1, m2) || (m1 == m2 && LexLess(r1, r2)) by {
      LexLessAppend(m1, r1, m2, r2);
    }
    assert q1 == q2 <==> m1 == m2 && r1 == r2 by {
      assert q1[..3] == m1 && q1[3..] == r1 && q2[..3] == m2 && q2[3..] == r2;
    }
    assert r1 == r2 <==> p1 == p2 && o1 == o2 by {
      assert r1[..2] == p1 && r1[2..] == o1 && r2[..2] == p2 && r2[2..] == o2;
    }
    assert LexLess(t1 + m1 + p1 + o1, t2 + m2 + p2 + o2) <==> LexLess(t1, t2) || (t1 == t2 && LexLess(q1, q2)) by {
      Assoc4(t1, m1, p1, o1);
      Assoc4(t2, m2, p2, o2);
      LexLessAppend(t1, q1, t2, q2);
    }
  }

  /** Concatenation regrouped to the right. */
  lemma Assoc4(t: seq<u8>, m: seq<u8>, p: seq<u8>, o: seq<u8>)
    ensures t + m + p + o == t + (m + (p + o))
  {
  }

  /** For packed identifiers, byte order is tuple order on the stored fields. */
  lemma FromPartsOrder(t1: u32, m1: MachineId, p1: u32, o1: u32, t2: u32, m2: MachineId, p2: u32, o2: u32)
    ensures Less(FromParts(t1, m1, p1, o1), FromParts(t2, m2, p2, o2))
        <==> PartsLess(t1, m1, p1 % 0x1_0000, o1 % 0x100_0000, t2, m2, p2 % 0x1_0000, o2 % 0x100_0000)
  {
    var x, y := FromParts(t1, m1, p1, o1), FromParts(t2, m2, p2, o2);
    FromPartsLayout(t1, m1, p1, o1, x);
    FromPartsLayout(t2, m2, p2, o2, y);
    var T1, T2 := BigEndian(t1, 4), BigEndian(t2, 4);
    var P1, P2 := BigEndian(p1, 2), BigEndian(p2, 2);
    var O1, O2 := BigEndian(o1, 3), BigEndian(o2, 3);
    FieldOrder(T1, m1, P1, O1, T2, m2, P2, O2);
    PowersOf256();
    BigEndianOrder(t1, t2, 4);
    assert (LexLess(P1, P2) <==> p1 % 0x1_0000 < p2 % 0x1_0000) && (P1 == P2 <==> p1 % 0x1_0000 == p2 % 0x1_0000) by {
      BigEndianMod(p1, 2);
      BigEndianMod(p2, 2);
      BigEndianOrder(p1 % 0x1_0000, p2 % 0x1_0000, 2);
    }
    assert LexLess(O1, O2) <==> o1 % 0x100_0000 < o2 % 0x100_0000 by {
      BigEndianMod(o1, 3);
      BigEndianMod(o2, 3);
      BigEndianOrder(o1 % 0x100_0000, o2 % 0x100_0000, 3);
    }
  }

  /** The three `PartsTest` vectors of the source. */
  lemma FromPartsVectorA()
    ensures FromParts(1300816219, [0x60, 0xf4, 0x86], 0xe428, 4271561)
            == From([0x4d, 0x88, 0xe1, 0x5b, 0x60, 0xf4, 0x86, 0xe4, 0x28, 0x41, 0x2d, 0xc9])
  {
    assert BigEndian(1300816219, 4) == [0x4d, 0x88, 0xe1, 0x5b];
  }

  lemma FromPartsVectorB()
    ensures FromParts(0, [0x00, 0x00, 0x00], 0x0000, 0) == Default()
  {
    assert BigEndian(0, 4) == [0, 0, 0, 0];
  }

  lemma FromPartsVectorC()
    ensures FromParts(0, [0xaa, 0xbb, 0xcc], 0xddee, 1)
            == From([0x00, 0x00, 0x00, 0x00, 0xaa, 0xbb, 0xcc, 0xdd, 0xee, 0x00, 0x00, 0x01])
  {
    assert BigEndian(0, 4) == [0, 0, 0, 0];
  }
}
