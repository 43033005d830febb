/** Rust's fixed-width integers and the byte-level operations the identifier
    is built from: truncating casts, shifts that drop the bits pushed past
    bit 7, masks, bitwise or, the lexicographic order `#[derive(Ord)]` gives
    a byte array, and the big-endian value of a digit string. */
module Bytes {

  /** A Rust `u8`. */
  type u8 = n: int | 0 <= n < 256

  /** A Rust `u32`. */
  type u32 = n: int | 0 <= n < 0x1_0000_0000

  function Pow(base: nat, k: nat): (p: nat)
    ensures base > 0 ==> p > 0
  {
    if k == 0 then 1 else base * Pow(base, k - 1)
  }

  /** `n as u8`: keep the low eight bits. */
  function Byte(n: nat): (r: u8)
  {
    n % 256
  }

  /** 2^k for the shift amounts of a `u8`. */
  function Bit(k: nat): (r: nat)
    requires k < 8
  {
    [1, 2, 4, 8, 16, 32, 64, 128][k]
  }

  /** `x << k` on a `u8`: bits pushed past bit 7 are dropped. */
  function Shl(x: u8, k: nat): (r: u8)
    requires k < 8
  {
    (x * Bit(k)) % 256
  }

  /** `x >> k` on a `u8`. */
  function Shr(x: u8, k: nat): (r: u8)
    requires k < 8
  {
    x / Bit(k)
  }

  /** `x & 0x1F`: the low five bits. */
  function Low5(x: u8): (r: u8)
  {
    x % 32
  }

  /** Bitwise or of the low `width` bits of `a` and `b`, least significant
      bit first. */
  function OrBits(a: nat, b: nat, width: nat): (r: nat)
    ensures r < Pow(2, width)
  {
    if width == 0 then 0
    else OrBits(a / 2, b / 2, width - 1) * 2 + (if a % 2 == 1 || b % 2 == 1 then 1 else 0)
  }

  /** `a | b` on `u8`. */
  function Or(a: u8, b: u8): (r: u8)
  {
    assert Pow(2, 8) == 256 by {
      assert Pow(2, 4) == 16;
    }
    OrBits(a, b, 8)
  }

  /** With no bits of its own, `0 | x` keeps the low `width` bits of `x`. */
  lemma {:induction false} OrBitsZero(x: nat, width: nat)
    ensures OrBits(x, 0, width) == x % Pow(2, width)
    decreases width
  {
    if width > 0 {
      OrBitsZero(x / 2, width - 1);
      DivModNest(x, 2, Pow(2, width - 1));
    }
  }

  /** Or of a multiple of 2^k with a value below 2^k, whose set bits cannot
      overlap, is their sum (modulo the width). */
  lemma {:induction false} OrBitsShifted(a: nat, y: nat, k: nat, width: nat)
    requires y < Pow(2, k)
    ensures OrBits(a * Pow(2, k), y, width) == (a * Pow(2, k) + y) % Pow(2, width)
    decreases width
  {
    if k == 0 {
      OrBitsZero(a, width);
    } else if width > 0 {
      var p' := Pow(2, k - 1);
      var x, x' := a * Pow(2, k), a * p';
      assert x == 2 * x' by {
        MulTwice(a, p');
      }
      assert y / 2 < p';
      OrBitsShifted(a, y / 2, k - 1, width - 1);
      assert x / 2 == x' && x % 2 == 0;
      assert OrBits(x, y, width) == OrBits(x', y / 2, width - 1) * 2 + y % 2;
      assert (x + y) / 2 == x' + y / 2 && (x + y) % 2 == y % 2;
      DivModNest(x + y, 2, Pow(2, width - 1));
    }
  }

  lemma {:induction false} OrBitsCommute(a: nat, b: nat, width: nat)
    ensures OrBits(a, b, width) == OrBits(b, a, width)
    decreases width
  {
    if width > 0 {
      OrBitsCommute(a / 2, b / 2, width - 1);
    }
  }

  lemma MulTwice(a: nat, p: nat)
    ensures a * (2 * p) == 2 * (a * p)
  {
  }

  /** (n / d mod p) * d + n mod d == n mod (d p). */
  lemma DivModNest(n: nat, d: nat, p: nat)
    requires d > 0 && p > 0
    ensures (n / d % p) * d + n % d == n % (d * p)
  {
    var q, r := n / d, n % d;
    var k, m := q / p, q % p;
    var dp, low := d * p, d * m + r;
    assert n == dp * k + low by {
      assert n == d * q + r;
      assert q == p * k + m;
      Distribute(d, p, k, m, r);
    }
    assert low < dp by {
      MulMonotone(m + 1, p, d);
    }
    ModUnique(n, dp, k, low);
  }

  lemma Distribute(d: int, p: int, k: int, m: int, r: int)
    ensures d * (p * k + m) + r == (d * p) * k + (d * m + r)
  {
  }

  lemma ModSmall(n: nat, d: nat)
    requires n < d
    ensures n % d == n
  {
  }

  lemma ModUnique(n: nat, d: nat, k: nat, r: nat)
    requires 0 <= r < d && n == d * k + r
    ensures n % d == r
  {
    var k', r' := n / d, n % d;
    assert n == d * k' + r';
    if k' < k {
      MulMonotone(k' + 1, k, d);
    } else if k < k' {
      MulMonotone(k + 1, k', d);
    }
  }

  lemma MulMonotone(x: nat, y: nat, k: nat)
    requires x <= y
    ensures x * k <= y * k
  {
  }

  /** `(a << k) | y` is a sum when `y < 2^k` and nothing is shifted out. */
  lemma OrDisjoint(x: u8, y: u8, a: nat, p: nat, k: nat)
    requires p == Pow(2, k)
    requires x == a * p && y < p && x + y < 256
    ensures Or(x, y) == x + y && Or(y, x) == x + y
  {
    OrBitsCommute(x, y, 8);
    OrBitsShifted(a, y, k, 8);
    assert Pow(2, 8) == 256 by {
      assert Pow(2, 4) == 16;
    }
    ModSmall(x + y, 256);
  }

  /** Lexicographic order on byte strings, as Rust compares slices and
      arrays: the first differing byte decides, and a proper prefix sorts
      first. */
  predicate LexLess(a: seq<u8>, b: seq<u8>)
  {
    if |a| == 0 then |b| > 0
    else if |b| == 0 then false
    else a[0] < b[0] || (a[0] == b[0] && LexLess(a[1..], b[1..]))
  }

  /** Every element of `s` is a digit in the given base. */
  predicate Digits(s: seq<u8>, base: nat)
  {
    forall i :: 0 <= i < |s| ==> s[i] < base
  }

  /** Every byte string is a string of base-256 digits. */
  lemma BytesAreDigits(s: seq<u8>)
    ensures Digits(s, 256)
  {
  }

  /** The number `s` spells in the given base, most significant digit first. */
  function Value(s: seq<u8>, base: nat): (v: nat)
  {
    if |s| == 0 then 0 else Value(s[..|s| - 1], base) * base + s[|s| - 1]
  }

  /** `width` bytes holding `n` big-endian; higher bits of `n` are dropped,
      as a chain of truncating `(n >> 8k) as u8` casts drops them. */
  function BigEndian(n: nat, width: nat): (s: seq<u8>)
    ensures |s| == width
  {
    if width == 0 then [] else BigEndian(n / 256, width - 1) + [Byte(n)]
  }

  /** Lexicographic comparison of equal-length strings splits at any point. */
  lemma {:induction false} LexLessAppend(a1: seq<u8>, a2: seq<u8>, b1: seq<u8>, b2: seq<u8>)
    requires |a1| == |b1|
    ensures LexLess(a1 + a2, b1 + b2) <==> LexLess(a1, b1) || (a1 == b1 && LexLess(a2, b2))
    decreases |a1|
  {
    if |a1| > 0 {
      assert (a1 + a2)[1..] == a1[1..] + a2;
      assert (b1 + b2)[1..] == b1[1..] + b2;
      LexLessAppend(a1[1..], a2, b1[1..], b2);
      if a1[0] == b1[0] && a1[1..] == b1[1..] {
        assert a1 == [a1[0]] + a1[1..] && b1 == [b1[0]] + b1[1..];
      }
    } else {
      assert a1 + a2 == a2 && b1 + b2 == b2;
    }
  }

  /** The order is total on strings of one length: exactly one of `a < b`,
      `a == b`, `b < a` holds. */
  lemma {:induction false} LexLessTrichotomy(a: seq<u8>, b: seq<u8>)
    requires |a| == |b|
    ensures LexLess(a, b) || a == b || LexLess(b, a)
    ensures !(LexLess(a, b) && LexLess(b, a))
    ensures !LexLess(a, a)
    decreases |a|
  {
    if |a| > 0 {
      LexLessTrichotomy(a[1..], b[1..]);
      LexLessTrichotomy(a[1..], a[1..]);
      if a[0] == b[0] && a[1..] == b[1..] {
        assert a == [a[0]] + a[1..] && b == [b[0]] + b[1..];
      }
    }
  }

  /** Lexicographic order of equal-length strings, decided from the back. */
  lemma {:induction false} LexLessLast(a: seq<u8>, b: seq<u8>)
    requires |a| == |b| > 0
    ensures LexLess(a, b) <==>
              || LexLess(a[..|a| - 1], b[..|a| - 1])
              || (a[..|a| - 1] == b[..|a| - 1] && a[|a| - 1] < b[|a| - 1])
  {
    var n := |a| - 1;
    assert a == a[..n] + [a[n]] && b == b[..n] + [b[n]];
    LexLessAppend(a[..n], [a[n]], b[..n], [b[n]]);
    assert LexLess([a[n]], [b[n]]) <==> a[n] < b[n];
  }

  lemma {:induction false} ValueAppend(a: seq<u8>, b: seq<u8>, base: nat)
    ensures Value(a + b, base) == Value(a, base) * Pow(base, |b|) + Value(b, base)
    decreases |b|
  {
    if |b| == 0 {
      assert a + b == a;
    } else {
      var b' := b[..|b| - 1];
      assert (a + b)[..|a + b| - 1] == a + b';
      ValueAppend(a, b', base);
      var A, P, V, d := Value(a, base), Pow(base, |b'|), Value(b', base), b[|b| - 1];
      assert Value(a + b, base) == Value(a + b', base) * base + d;
      assert Value(b, base) == V * base + d;
      assert Pow(base, |b|) == base * P;
      HornerStep(A, P, V, d, base);
    }
  }

  /** One Horner step on a prefix. */
  lemma ValuePrefix(s: seq<u8>, k: nat, base: nat)
    requires 0 < k <= |s|
    ensures Value(s[..k], base) == Value(s[..k - 1], base) * base + s[k - 1]
  {
    assert s[..k][..k - 1] == s[..k - 1];
  }

  lemma HornerStep(A: int, P: int, V: int, d: int, base: int)
    ensures (A * P + V) * base + d == A * (base * P) + (V * base + d)
  {
  }

  lemma DigitsPrefix(s: seq<u8>, base: nat, n: nat)
    requires n <= |s| && Digits(s, base)
    ensures Digits(s[..n], base)
  {
    assert forall i :: 0 <= i < n ==> s[..n][i] == s[i];
  }

  /** A string of `n` digits spells a number below base^n. */
  lemma {:induction false} ValueBound(s: seq<u8>, base: nat)
    requires Digits(s, base)
    ensures Value(s, base) < Pow(base, |s|)
    decreases |s|
  {
    if |s| > 0 {
      var s' := s[..|s| - 1];
      DigitsPrefix(s, base, |s| - 1);
      ValueBound(s', base);
      DigitStep(Value(s', base), Pow(base, |s'|), s[|s| - 1], base);
    }
  }

  lemma DigitStep(v: nat, p: nat, d: nat, base: nat)
    requires v < p && d < base
    ensures v * base + d < base * p
  {
    MulMonotone(v + 1, p, base);
  }

  /** Comparing `u * base + x` with `v * base + y` for digits `x`, `y`
      compares `u` with `v` first. */
  lemma HornerCompare(u: nat, v: nat, x: nat, y: nat, base: nat)
    requires x < base && y < base
    ensures u * base + x < v * base + y <==> u < v || (u == v && x < y)
  {
    if u < v {
      MulMonotone(u + 1, v, base);
    } else if v < u {
      MulMonotone(v + 1, u, base);
    }
  }

  /** For strings of one length over one base, lexicographic order is
      numeric order of the values they spell. */
  lemma {:induction false} LexLessIffValue(a: seq<u8>, b: seq<u8>, base: nat)
    requires |a| == |b|
    requires Digits(a, base) && Digits(b, base)
    ensures LexLess(a, b) <==> Value(a, base) < Value(b, base)
    decreases |a|
  {
    if |a| > 0 {
      var n := |a| - 1;
      var a', b' := a[..n], b[..n];
      DigitsPrefix(a, base, n);
      DigitsPrefix(b, base, n);
      var va, vb := Value(a', base), Value(b', base);
      assert LexLess(a, b) <==> va < vb || (va == vb && a[n] < b[n]) by {
        LexLessLast(a, b);
        LexLessIffValue(a', b', base);
        LexLessIffValue(b', a', base);
        LexLessTrichotomy(a', b');
      }
      HornerCompare(va, vb, a[n], b[n], base);
    }
  }

  /** Strings of one length over one base are equal exactly when their
      values are. */
  lemma ValueInjective(a: seq<u8>, b: seq<u8>, base: nat)
    requires |a| == |b|
    requires Digits(a, base) && Digits(b, base)
    ensures a == b <==> Value(a, base) == Value(b, base)
  {
    LexLessIffValue(a, b, base);
    LexLessIffValue(b, a, base);
    LexLessTrichotomy(a, b);
  }

  /** Reading `BigEndian(n, width)` back gives `n` modulo 256^width. */
  lemma {:induction false} ValueBigEndian(n: nat, width: nat)
    ensures Value(BigEndian(n, width), 256) == n % Pow(256, width)
    decreases width
  {
    if width > 0 {
      var s := BigEndian(n, width);
      assert s[..width - 1] == BigEndian(n / 256, width - 1);
      ValueBigEndian(n / 256, width - 1);
      DivModNest(n, 256, Pow(256, width - 1));
    }
  }

  /** Big-endian bytes are recovered from their value. */
  lemma {:induction false} BigEndianValue(s: seq<u8>)
    ensures BigEndian(Value(s, 256), |s|) == s
    decreases |s|
  {
    if |s| > 0 {
      var s' := s[..|s| - 1];
      var v := Value(s, 256);
      assert v == Value(s', 256) * 256 + s[|s| - 1];
      assert v / 256 == Value(s', 256) && v % 256 == s[|s| - 1];
      BigEndianValue(s');
      assert s == s' + [s[|s| - 1]];
    }
  }

  /** Numbers that fit in `width` bytes compare as their renderings do. */
  lemma BigEndianOrder(m: nat, n: nat, width: nat)
    requires m < Pow(256, width) && n < Pow(256, width)
    ensures BigEndian(m, width) == BigEndian(n, width) <==> m == n
    ensures LexLess(BigEndian(m, width), BigEndian(n, width)) <==> m < n
  {
    var a, b := BigEndian(m, width), BigEndian(n, width);
    var p := Pow(256, width);
    ValueBigEndian(m, width);
    ValueBigEndian(n, width);
    ModUnique(m, p, 0, m);
    ModUnique(n, p, 0, n);
    assert Value(a, 256) == m && Value(b, 256) == n;
    LexLessIffValue(a, b, 256);
    ValueInjective(a, b, 256);
  }

  /** Only `n` modulo 256^width shows in its `width`-byte rendering. */
  lemma BigEndianMod(n: nat, width: nat)
    ensures BigEndian(n, width) == BigEndian(n % Pow(256, width), width)
  {
    ValueBigEndian(n, width);
    BigEndianValue(BigEndian(n, width));
  }

  /** Two big-endian bytes: `(n >> 8) as u8, n as u8`. */
  lemma BigEndian2(n: nat)
    ensures BigEndian(n, 2) == [Byte(n / 0x100), Byte(n)]
  {
    assert BigEndian(n / 0x100, 1) == [Byte(n / 0x100)];
  }

  /** Three big-endian bytes: `(n >> 16) as u8, (n >> 8) as u8, n as u8`. */
  lemma BigEndian3(n: nat)
    ensures BigEndian(n, 3) == [Byte(n / 0x1_0000), Byte(n / 0x100), Byte(n)]
  {
    BigEndian2(n / 0x100);
    assert n / 0x100 / 0x100 == n / 0x1_0000;
  }

  lemma PowersOf256()
    ensures Pow(256, 2) == 0x1_0000
    ensures Pow(256, 3) == 0x100_0000
    ensures Pow(256, 4) == 0x1_0000_0000
  {
    assert Pow(256, 1) == 256;
  }
}
