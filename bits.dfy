/**
 * Fixed-width unsigned integers and the bit-level operations the library
 * applies to them, stated on mathematical integers: a shift right by `k` is a
 * division by 2^k, a mask of the low `k` bits is a remainder modulo 2^k, and
 * `&`, `|`, `^`, `!` are defined bit by bit over an explicit width.
 */
module Bits {

  type u8 = x: int | 0 <= x < 0x100
  type u16 = x: int | 0 <= x < 0x1_0000
  type u32 = x: int | 0 <= x < 0x1_0000_0000
  type u64 = x: int | 0 <= x < 0x1_0000_0000_0000_0000

  const U16_MAX: int := 0xFFFF
  const U32_MAX: int := 0xFFFF_FFFF
  const U64_MAX: int := 0xFFFF_FFFF_FFFF_FFFF

  function Pow2(n: nat): (r: nat)
    ensures r >= 1
  {
    if n == 0 then 1 else 2 * Pow2(n - 1)
  }

  lemma {:induction false} Pow2Add(a: nat, b: nat)
    ensures Pow2(a + b) == Pow2(a) * Pow2(b)
  {
    if a > 0 {
      Pow2Add(a - 1, b);
    }
  }

  lemma {:induction false} Pow2Monotone(a: nat, b: nat)
    requires a <= b
    ensures Pow2(a) <= Pow2(b)
  {
    if a < b {
      Pow2Monotone(a, b - 1);
    }
  }

  lemma Pow2Values()
    ensures Pow2(8) == 0x100 && Pow2(16) == 0x1_0000 && Pow2(24) == 0x100_0000
    ensures Pow2(32) == 0x1_0000_0000 && Pow2(48) == 0x1_0000_0000_0000
    ensures Pow2(64) == 0x1_0000_0000_0000_0000
  {
    Pow2Of8();
    Pow2Of16();
    Pow2Of24();
    Pow2Of32();
    Pow2Of48();
    Pow2Of64();
  }

  lemma Pow2Of8()
    ensures Pow2(8) == 0x100
  {
  }

  lemma Pow2Of16()
    ensures Pow2(16) == 0x1_0000
  {
    Pow2Of8();
    Pow2Add(8, 8);
  }

  lemma Pow2Of24()
    ensures Pow2(24) == 0x100_0000
  {
    Pow2Of8();
    Pow2Of16();
    Pow2Add(16, 8);
  }

  lemma Pow2Of32()
    ensures Pow2(32) == 0x1_0000_0000
  {
    Pow2Of16();
    Pow2Add(16, 16);
  }

  lemma Pow2Of48()
    ensures Pow2(48) == 0x1_0000_0000_0000
  {
    Pow2Of16();
    Pow2Of32();
    Pow2Add(32, 16);
  }

  lemma Pow2Of64()
    ensures Pow2(64) == 0x1_0000_0000_0000_0000
  {
    Pow2Of32();
    Pow2Add(32, 32);
  }

  /** Division and remainder by a product, one factor at a time. */
  lemma DivModNested(a: nat, p: nat, q: nat)
    requires p > 0 && q > 0
    ensures a / (p * q) == (a / p) / q
    ensures a % (p * q) == p * ((a / p) % q) + a % p
  {
    var x, y := a / p, a % p;
    var u, v := x / q, x % q;
    assert a == p * x + y;
    assert x == q * u + v;
    calc {
      a;
      p * (q * u + v) + y;
      { MulDistributes(p, q * u, v); }
      p * (q * u) + p * v + y;
      { MulAssociates(p, q, u); }
      (p * q) * u + (p * v + y);
    }
    MulMonotone(p, v, q - 1);
    MulDistributes(p, q - 1, 1);
    DivModUnique(a, p * q, u, p * v + y);
  }

  lemma MulDistributes(p: int, a: int, b: int)
    ensures p * (a + b) == p * a + p * b
  {
  }

  lemma MulAssociates(p: int, q: int, u: int)
    ensures p * (q * u) == (p * q) * u
  {
  }

  lemma MulMonotone(p: nat, a: int, b: int)
    requires a <= b
    ensures p * a <= p * b
  {
  }

  lemma DivModUnique(a: int, d: int, q: int, r: int)
    requires d > 0 && 0 <= r < d && a == d * q + r
    ensures a / d == q && a % d == r
  {
    var q', r' := a / d, a % d;
    var k := q' - q;
    assert d * q' + r' == d * q + r;
    MulDistributes(d, q, k);
    assert d * k == r - r';
    if k > 0 {
      MulMonotone(d, 1, k);
      assert false;
    } else if k < 0 {
      MulMonotone(d, k, -1);
      assert false;
    }
  }

  lemma ModBelow(a: int, d: int)
    requires 0 <= a < d
    ensures a % d == a
  {
    DivModUnique(a, d, 0, a);
  }

  lemma ModAbove(a: int, d: int)
    requires 0 < d <= a < 2 * d
    ensures a % d == a - d
  {
    DivModUnique(a, d, 1, a - d);
  }

  lemma ModNegative(a: int, d: int)
    requires 0 < d && -d <= a < 0
    ensures a % d == a + d
  {
    DivModUnique(a, d, -1, a + d);
  }

  /** `a >> k`. */
  function Shr(a: nat, k: nat): (r: nat)
    ensures r <= a
  {
    DivAtMost(a, Pow2(k));
    a / Pow2(k)
  }

  lemma QuotientBelow(a: nat, d: nat, m: nat)
    requires d > 0 && a < d * m
    ensures 0 <= a / d < m
  {
    DivAtMost(a, d);
    var q := a / d;
    assert d * q + a % d == a;
    if q >= m {
      MulMonotone(d, m, q);
      assert false;
    }
  }

  lemma DivAtMost(a: nat, d: nat)
    requires d > 0
    ensures 0 <= a / d <= a
  {
    var q := a / d;
    assert d * q + a % d == a;
    MulMonotone(q, 1, d);
  }

  /** `a << k`, in a type wide enough not to lose bits. */
  function Shl(a: nat, k: nat): nat
  {
    a * Pow2(k)
  }

  /** Bitwise AND of the low `w` bits. */
  function And(a: nat, b: nat, w: nat): (r: nat)
    decreases w
  {
    if w == 0 then 0
    else 2 * And(a / 2, b / 2, w - 1) + (if a % 2 == 1 && b % 2 == 1 then 1 else 0)
  }

  /** Bitwise OR of the low `w` bits. */
  function Or(a: nat, b: nat, w: nat): (r: nat)
    decreases w
  {
    if w == 0 then 0
    else 2 * Or(a / 2, b / 2, w - 1) + (if a % 2 == 1 || b % 2 == 1 then 1 else 0)
  }

  /** Bitwise exclusive OR of the low `w` bits. */
  function Xor(a: nat, b: nat, w: nat): (r: nat)
    decreases w
  {
    if w == 0 then 0
    else 2 * Xor(a / 2, b / 2, w - 1) + (if a % 2 != b % 2 then 1 else 0)
  }

  /** Bitwise complement within `w` bits. */
  function Not(a: nat, w: nat): (r: nat)
    requires a < Pow2(w)
    ensures r < Pow2(w) && a + r == Pow2(w) - 1
  {
    Pow2(w) - 1 - a
  }

  /** The value with the top `w - k` of `w` bits set. */
  function HighMask(w: nat, k: nat): (m: nat)
    requires k <= w
    ensures m + Pow2(k) == Pow2(w)
  {
    Pow2Monotone(k, w);
    Pow2(w) - Pow2(k)
  }

  /** The value with the low `k` bits set: a mask such as `u8::MAX` when k = 8. */
  function LowOnes(k: nat): (r: nat)
    ensures r + 1 == Pow2(k)
  {
    Pow2(k) - 1
  }

  lemma {:induction false} AndBound(a: nat, b: nat, w: nat)
    ensures And(a, b, w) < Pow2(w)
  {
    if w > 0 {
      AndBound(a / 2, b / 2, w - 1);
    }
  }

  lemma {:induction false} OrBound(a: nat, b: nat, w: nat)
    ensures Or(a, b, w) < Pow2(w)
  {
    if w > 0 {
      OrBound(a / 2, b / 2, w - 1);
    }
  }

  lemma {:induction false} XorBound(a: nat, b: nat, w: nat)
    ensures Xor(a, b, w) < Pow2(w)
  {
    if w > 0 {
      XorBound(a / 2, b / 2, w - 1);
    }
  }

  lemma {:induction false} AndCommutes(a: nat, b: nat, w: nat)
    ensures And(a, b, w) == And(b, a, w)
  {
    if w > 0 {
      AndCommutes(a / 2, b / 2, w - 1);
    }
  }

  lemma {:induction false} OrCommutes(a: nat, b: nat, w: nat)
    ensures Or(a, b, w) == Or(b, a, w)
  {
    if w > 0 {
      OrCommutes(a / 2, b / 2, w - 1);
    }
  }

  /** Halving a power of two below 2^w and the remainder it leaves. */
  lemma HalfMod(a: nat, k: nat)
    requires k > 0
    ensures a % Pow2(k) == 2 * ((a / 2) % Pow2(k - 1)) + a % 2
    ensures a / Pow2(k) == (a / 2) / Pow2(k - 1)
  {
    DivModNested(a, 2, Pow2(k - 1));
  }

  /**
   * AND with a mask whose top `w - k` bits are set clears exactly the low `k`
   * bits: the address-and-prefix-mask operation.
   */
  lemma {:induction false} AndHighMask(a: nat, w: nat, k: nat)
    requires k <= w && a < Pow2(w)
    ensures And(a, HighMask(w, k), w) == a - a % Pow2(k)
  {
    if w == 0 {
    } else if k == 0 {
      AndHighMask(a / 2, w - 1, 0);
      assert (a / 2) % 1 == 0;
    } else {
      var m := HighMask(w, k);
      assert m / 2 == HighMask(w - 1, k - 1) && m % 2 == 0;
      AndHighMask(a / 2, w - 1, k - 1);
      HalfMod(a, k);
    }
  }

  /** The low `k` bits of `a`, taken one bit at a time. */
  function LowBits(a: nat, k: nat): nat
  {
    if k == 0 then 0 else 2 * LowBits(a / 2, k - 1) + a % 2
  }

  /** Taking the low `k` bits one at a time is the remainder modulo 2^k. */
  lemma {:induction false} LowBitsIsMod(a: nat, k: nat)
    ensures LowBits(a, k) == a % Pow2(k)
  {
    if k == 0 {
      assert Pow2(0) == 1;
    } else {
      LowBitsIsMod(a / 2, k - 1);
      HalfMod(a, k);
    }
  }

  /** OR with the low `k` bits set fills exactly those bits. */
  lemma OrLowOnes(a: nat, w: nat, k: nat)
    requires k <= w && a < Pow2(w)
    ensures Or(a, Pow2(k) - 1, w) == a - a % Pow2(k) + Pow2(k) - 1
  {
    OrLowOnesBits(a, w, k);
    LowBitsIsMod(a, k);
  }

  lemma {:induction false} OrLowOnesBits(a: nat, w: nat, k: nat)
    requires k <= w && a < Pow2(w)
    ensures Or(a, Pow2(k) - 1, w) == a - LowBits(a, k) + Pow2(k) - 1
  {
    if w == 0 {
    } else if k == 0 {
      OrZero(a, w);
    } else {
      var h := Pow2(k - 1);
      DivModUnique(Pow2(k) - 1, 2, h - 1, 1);
      assert a / 2 < Pow2(w - 1);
      OrLowOnesBits(a / 2, w - 1, k - 1);
    }
  }

  lemma {:induction false} AndZero(w: nat)
    ensures And(0, 0, w) == 0
  {
    if w > 0 {
      AndZero(w - 1);
    }
  }

  lemma {:induction false} AndSelf(a: nat, w: nat)
    ensures And(a, a, w) == a % Pow2(w)
  {
    if w == 0 {
      assert Pow2(0) == 1;
    } else {
      AndSelf(a / 2, w - 1);
      HalfMod(a, w);
    }
  }

  lemma {:induction false} XorSelf(a: nat, w: nat)
    ensures Xor(a, a, w) == 0
  {
    if w > 0 {
      XorSelf(a / 2, w - 1);
    }
  }

  /** Exclusive OR with the same operand twice gives the low `w` bits back. */
  lemma {:induction false} XorInvolution(a: nat, b: nat, w: nat)
    ensures Xor(Xor(a, b, w), b, w) == a % Pow2(w)
  {
    if w == 0 {
      assert Pow2(0) == 1;
    } else {
      var c := Xor(a, b, w);
      var bit := if a % 2 != b % 2 then 1 else 0;
      DivModUnique(c, 2, Xor(a / 2, b / 2, w - 1), bit);
      XorInvolution(a / 2, b / 2, w - 1);
      HalfMod(a, w);
    }
  }

  lemma {:induction false} OrZero(a: nat, w: nat)
    requires a < Pow2(w)
    ensures Or(a, 0, w) == a
  {
    if w > 0 {
      OrZero(a / 2, w - 1);
    }
  }

  /** Shift right of the all-ones value: (2^w - 1) >> p == 2^(w-p) - 1. */
  lemma OnesShiftRight(w: nat, p: nat)
    requires p <= w
    ensures (Pow2(w) - 1) / Pow2(p) == Pow2(w - p) - 1
  {
    Pow2Add(p, w - p);
    DivModUnique(Pow2(w) - 1, Pow2(p), Pow2(w - p) - 1, Pow2(p) - 1);
  }

  // ---------------------------------------------------------------------
  // Byte strings as big- and little-endian numbers (`from_be_bytes`,
  // `to_be_bytes`, `from_le_bytes`, `to_le_bytes`).
  // ---------------------------------------------------------------------

  function BeValue(s: seq<u8>): (v: nat)
  {
    if s == [] then 0 else BeValue(s[..|s| - 1]) * 256 + s[|s| - 1]
  }

  function BeBytes(v: nat, n: nat): (s: seq<u8>)
    ensures |s| == n
  {
    if n == 0 then [] else BeBytes(v / 256, n - 1) + [v % 256]
  }

  function LeValue(s: seq<u8>): (v: nat)
  {
    if s == [] then 0 else s[0] + 256 * LeValue(s[1..])
  }

  function LeBytes(v: nat, n: nat): (s: seq<u8>)
    ensures |s| == n
  {
    if n == 0 then [] else [v % 256] + LeBytes(v / 256, n - 1)
  }

  lemma {:induction false} BeValueBound(s: seq<u8>)
    ensures BeValue(s) < Pow2(8 * |s|)
  {
    if s != [] {
      BeValueBound(s[..|s| - 1]);
      Pow2Add(8 * (|s| - 1), 8);
      Pow2Values();
    }
  }

  lemma {:induction false} LeValueBound(s: seq<u8>)
    ensures LeValue(s) < Pow2(8 * |s|)
  {
    if s != [] {
      LeValueBound(s[1..]);
      Pow2Add(8, 8 * (|s| - 1));
      Pow2Values();
    }
  }

  /** Dropping the low byte of an `n`-byte value leaves an `n - 1`-byte value. */
  lemma ByteBelow(v: nat, n: nat)
    requires n > 0 && v < Pow2(8 * n)
    ensures v / 256 < Pow2(8 * (n - 1))
  {
    var P := Pow2(8 * (n - 1));
    Pow2Add(8 * (n - 1), 8);
    Pow2Of8();
    assert v < P * 256;
  }

  /** Reading back the bytes of a value gives the value (to_be_bytes then from_be_bytes). */
  lemma {:induction false} BeValueOfBytes(v: nat, n: nat)
    requires v < Pow2(8 * n)
    ensures BeValue(BeBytes(v, n)) == v
  {
    if n > 0 {
      ByteBelow(v, n);
      BeValueOfBytes(v / 256, n - 1);
      var s := BeBytes(v, n);
      assert s[..n - 1] == BeBytes(v / 256, n - 1);
    }
  }

  /** Writing out the value of a byte string gives the byte string back. */
  lemma {:induction false} BeBytesOfValue(s: seq<u8>)
    ensures BeBytes(BeValue(s), |s|) == s
  {
    if s != [] {
      var init := s[..|s| - 1];
      BeBytesOfValue(init);
      assert BeValue(s) / 256 == BeValue(init);
      assert s == init + [s[|s| - 1]];
    }
  }

  lemma {:induction false} LeValueOfBytes(v: nat, n: nat)
    requires v < Pow2(8 * n)
    ensures LeValue(LeBytes(v, n)) == v
  {
    if n > 0 {
      ByteBelow(v, n);
      LeValueOfBytes(v / 256, n - 1);
      var s := LeBytes(v, n);
      assert s[1..] == LeBytes(v / 256, n - 1);
    }
  }

  lemma {:induction false} LeBytesOfValue(s: seq<u8>)
    ensures LeBytes(LeValue(s), |s|) == s
  {
    if s != [] {
      LeBytesOfValue(s[1..]);
      assert LeValue(s) / 256 == LeValue(s[1..]);
      assert s == [s[0]] + s[1..];
    }
  }

  /** Big-endian values of equal-length strings are injective. */
  lemma BeValueInjective(s: seq<u8>, t: seq<u8>)
    requires |s| == |t| && BeValue(s) == BeValue(t)
    ensures s == t
  {
    BeBytesOfValue(s);
    BeBytesOfValue(t);
  }

  /** A big-endian value splits at any byte boundary. */
  lemma {:induction false} BeValueAppend(s: seq<u8>, t: seq<u8>)
    ensures BeValue(s + t) == BeValue(s) * Pow2(8 * |t|) + BeValue(t)
  {
    if t != [] {
      var t' := t[..|t| - 1];
      assert (s + t)[..|s + t| - 1] == s + t';
      assert BeValue(s + t) == BeValue(s + t') * 256 + t[|t| - 1];
      assert BeValue(t) == BeValue(t') * 256 + t[|t| - 1];
      BeValueAppend(s, t');
      Pow2Add(8 * |t'|, 8);
      Pow2Values();
      var P := Pow2(8 * |t'|);
      calc {
        BeValue(s + t);
        (BeValue(s) * P + BeValue(t')) * 256 + t[|t| - 1];
        { MulDistributes(256, BeValue(s) * P, BeValue(t')); }
        { MulAssociates(BeValue(s), P, 256); }
        BeValue(s) * (P * 256) + (BeValue(t') * 256 + t[|t| - 1]);
        { assert 8 * |t| == 8 * |t'| + 8; }
        BeValue(s) * Pow2(8 * |t|) + BeValue(t);
      }
    } else {
      assert s + t == s;
    }
  }

  lemma BeValue2(b: seq<u8>)
    requires |b| == 2
    ensures BeValue(b) == 0x100 * b[0] as int + b[1] as int
  {
    assert b[..1][..0] == [];
    assert BeValue(b[..1]) == b[0];
    assert b[..|b| - 1] == b[..1];
  }

  lemma BeValue4(b: seq<u8>)
    requires |b| == 4
    ensures BeValue(b) == 0x100_0000 * b[0] as int + 0x1_0000 * b[1] as int + 0x100 * b[2] as int + b[3] as int
  {
    var b3 := b[..3];
    BeValue2(b3[..2]);
    assert b3[..2] == b[..2];
  }

  predicate ZeroBytes(z: seq<u8>)
  {
    forall i :: 0 <= i < |z| ==> z[i] == 0
  }

  /** Leading zero bytes do not change a big-endian value. */
  lemma ZeroPrefixBe(z: seq<u8>, b: seq<u8>)
    requires ZeroBytes(z)
    ensures BeValue(z + b) == BeValue(b)
  {
    BeValueAppend(z, b);
    ZerosBe(z);
  }

  lemma {:induction false} ZerosBe(z: seq<u8>)
    requires ZeroBytes(z)
    ensures BeValue(z) == 0
  {
    if z != [] {
      ZerosBe(z[..|z| - 1]);
    }
  }

  /** Lexicographic order of byte strings, first byte most significant. */
  predicate LexLess(s: seq<u8>, t: seq<u8>)
    requires |s| == |t|
  {
    |s| > 0 && (s[0] < t[0] || (s[0] == t[0] && LexLess(s[1..], t[1..])))
  }

  /** A big-endian value is its first byte scaled above the rest. */
  lemma BeValueCons(s: seq<u8>)
    requires |s| > 0
    ensures BeValue(s) == s[0] * Pow2(8 * (|s| - 1)) + BeValue(s[1..])
  {
    BeValueAppend([s[0]], s[1..]);
    assert [s[0]] + s[1..] == s;
    assert BeValue([s[0]]) == s[0] by {
      assert [s[0]][..0] == [];
    }
  }

  /** Numbers written as a digit `x` or `y` above a remainder below `P` compare digit first. */
  lemma ScaledOrder(x: nat, y: nat, u: nat, v: nat, P: nat)
    requires u < P && v < P
    ensures x * P + u < y * P + v <==> x < y || (x == y && u < v)
  {
    if x < y {
      MulMonotone(P, x + 1, y);
      MulDistributes(P, x, 1);
    } else if x > y {
      MulMonotone(P, y + 1, x);
      MulDistributes(P, y, 1);
    }
  }

  /** Comparing big-endian values is comparing the bytes lexicographically. */
  lemma {:induction false} BeValueOrder(s: seq<u8>, t: seq<u8>)
    requires |s| == |t|
    ensures BeValue(s) < BeValue(t) <==> LexLess(s, t)
  {
    if |s| > 0 {
      BeValueCons(s);
      BeValueCons(t);
      BeValueBound(s[1..]);
      BeValueBound(t[1..]);
      assert |s[1..]| == |s| - 1;
      ScaledOrder(s[0], t[0], BeValue(s[1..]), BeValue(t[1..]), Pow2(8 * (|s| - 1)));
      BeValueOrder(s[1..], t[1..]);
    }
  }
}
