/**
 * `ts_calc` of the pcapng file sniffer: a packet timestamp in units given by
 * the interface's `if_tsresol` option, shifted by its `if_tsoffset` option,
 * becomes seconds and nanoseconds since the epoch (section 4.2 of the pcapng
 * draft, draft-ietf-opsawg-pcapng). A resolution byte with the top bit clear
 * counts in units of 10^-r seconds, one with it set in units of 2^-r with r
 * its low seven bits. The source computes in `u64`; where an operation
 * overflows (a debug-build panic) the result here is None.
 */
module PcapngTime {
  import opened Bits
  import opened Wrappers

  type i64 = x: int | -0x8000_0000_0000_0000 <= x < 0x8000_0000_0000_0000

  const I64_MIN: int := -0x8000_0000_0000_0000
  const NANOS_PER_SEC: nat := 1_000_000_000

  function Pow10(r: nat): (p: nat)
    ensures p >= 1
  {
    if r == 0 then 1 else 10 * Pow10(r - 1)
  }

  lemma {:induction false} Pow10Monotone(a: nat, b: nat)
    requires a <= b
    ensures Pow10(a) <= Pow10(b)
    decreases b
  {
    if a < b {
      Pow10Monotone(a, b - 1);
    }
  }

  /** 10^r fits a `u64` exactly for r up to 19. */
  lemma Pow10Fits(r: nat)
    ensures Pow10(r) <= U64_MAX <==> r <= 19
  {
    Pow10Values();
    if r <= 19 {
      Pow10Monotone(r, 19);
    } else {
      Pow10Monotone(20, r);
    }
  }

  lemma Pow10Values()
    ensures Pow10(6) == 1_000_000 && Pow10(10) == 10_000_000_000 && Pow10(11) == 100_000_000_000
    ensures Pow10(19) == 10_000_000_000_000_000_000 && Pow10(20) == 100_000_000_000_000_000_000
  {
    assert Pow10(3) == 1_000;
    assert Pow10(6) == 1_000_000;
    assert Pow10(9) == 1_000_000_000;
    assert Pow10(10) == 10_000_000_000;
    assert Pow10(11) == 100_000_000_000;
    assert Pow10(14) == 100_000_000_000_000;
    assert Pow10(17) == 100_000_000_000_000_000;
    assert Pow10(19) == 10_000_000_000_000_000_000;
  }

  /** How many units make a second: 10^r or 2^r by the top bit of `tsresol`. */
  function UnitsPerSec(tsresol: u8): (d: nat)
    ensures d >= 1
  {
    if tsresol < 0x80 then Pow10(tsresol) else Pow2(tsresol - 0x80)
  }

  // ---------------------------------------------------------------------
  // The offset
  // ---------------------------------------------------------------------

  /** A value held to the range of a `u64`. */
  function Clamp(x: int): (c: u64)
  {
    if x < 0 then 0 else if x > U64_MAX then U64_MAX else x
  }

  /**
   * The offset applied to the seconds: a negative offset is negated
   * (`checked_neg`, which fails only for `i64::MIN`, giving 0) and
   * subtracted saturating at 0; a non-negative one is added saturating at
   * `u64::MAX`.
   */
  function ApplyOffset(secs: u64, offset: i64): (s: u64)
    ensures offset != I64_MIN ==> s == Clamp(secs + offset)
    ensures offset == I64_MIN ==> s == 0
    ensures offset <= 0 ==> s <= secs
    ensures offset >= 0 ==> s >= secs
  {
    if offset < 0 then
      if offset == I64_MIN then 0
      else if secs < -offset then 0 else secs - (-offset)
    else
      if secs + offset > U64_MAX then U64_MAX else secs + offset
  }

  // ---------------------------------------------------------------------
  // The conversion
  // ---------------------------------------------------------------------

  /** Whole seconds: the timestamp divided by the units per second. */
  function Seconds(ts: u64, d: nat): (q: u64)
    requires d >= 1
    ensures q * d <= ts < (q + 1) * d
  {
    DivAtMost(ts, d);
    ts / d
  }

  /** The units left over, scaled to nanoseconds and truncated. */
  function Nanos(frac: nat, d: nat): (n: nat)
    requires frac < d
    ensures n < NANOS_PER_SEC && n * d <= frac * NANOS_PER_SEC < (n + 1) * d
  {
    NanosBelow(frac, d);
    frac * NANOS_PER_SEC / d
  }

  /**
   * The conversion carried out without overflow: whole seconds, then the
   * remaining units scaled to nanoseconds and truncated.
   */
  function Timestamp(ts: u64, tsresol: u8, offset: i64): (t: (u64, nat))
    ensures t.1 < NANOS_PER_SEC
  {
    var d := UnitsPerSec(tsresol);
    (ApplyOffset(Seconds(ts, d), offset), Nanos(ts % d, d))
  }

  /**
   * `ts_calc` as written, in `u64`: None where `mag *= 10` overflows
   * (decimal resolutions from 20 on), where the shift amount reaches 64
   * (binary resolutions from 64 on), or where the remaining units times 10^9
   * overflow.
   */
  function TsCalcAsWritten(ts: u64, tsresol: u8, offset: i64): (r: Option<(u64, nat)>)
    ensures r.None? <==> UnitsPerSec(tsresol) > U64_MAX || (ts % UnitsPerSec(tsresol)) * NANOS_PER_SEC > U64_MAX
    ensures r.Some? ==> r.value == Timestamp(ts, tsresol, offset)
  {
    var d := UnitsPerSec(tsresol);
    if d > U64_MAX || (ts % d) * NANOS_PER_SEC > U64_MAX then None
    else Some(Timestamp(ts, tsresol, offset))
  }

  /** The nanoseconds stay below a second whenever the units left over are fewer than a second's. */
  lemma NanosBelow(frac: nat, d: nat)
    requires frac < d
    ensures 0 <= frac * NANOS_PER_SEC / d < NANOS_PER_SEC
    ensures var n := frac * NANOS_PER_SEC / d; n * d <= frac * NANOS_PER_SEC < (n + 1) * d
  {
    MulMonotone(NANOS_PER_SEC, frac, d - 1);
    QuotientBelow(frac * NANOS_PER_SEC, d, NANOS_PER_SEC);
  }

  /**
   * Without an offset, seconds and nanoseconds together are the timestamp
   * in nanoseconds, truncated: `secs * 10^9 + nanos == ts * 10^9 / units`.
   */
  lemma TimestampIsTruncatedNanos(ts: u64, tsresol: u8)
    ensures var t := Timestamp(ts, tsresol, 0);
      t.0 * NANOS_PER_SEC + t.1 == ts * NANOS_PER_SEC / UnitsPerSec(tsresol)
  {
    var d := UnitsPerSec(tsresol);
    assert ApplyOffset(Seconds(ts, d), 0) == Seconds(ts, d);
    NanosSplit(ts, d);
  }

  lemma NanosSplit(ts: nat, d: nat)
    requires d >= 1
    ensures ts / d * NANOS_PER_SEC + (ts % d) * NANOS_PER_SEC / d == ts * NANOS_PER_SEC / d
  {
    var N := NANOS_PER_SEC;
    var q, f := ts / d, ts % d;
    DivAtMost(ts, d);
    var g, h := f * N / d, (f * N) % d;
    DivAtMost(f * N, d);
    assert ts == d * q + f;
    assert f * N == d * g + h;
    assert ts * N == d * (q * N + g) + h by {
      MulDistributes(N, d * q, f);
      MulAssociates(d, q, N);
      MulDistributes(d, q * N, g);
    }
    DivModUnique(ts * N, d, q * N + g, h);
  }

  /**
   * For the usual resolutions (decimal up to 10 digits, binary up to 2^-34)
   * no step overflows, and the written conversion is the exact one.
   */
  lemma UsualResolutionsFit(ts: u64, tsresol: u8, offset: i64)
    requires tsresol <= 10 || 0x80 <= tsresol <= 0x80 + 34
    ensures TsCalcAsWritten(ts, tsresol, offset) == Some(Timestamp(ts, tsresol, offset))
  {
    var d := UnitsPerSec(tsresol);
    if tsresol <= 10 {
      Pow10Monotone(tsresol, 10);
      Pow10Values();
    } else {
      Pow2Monotone(tsresol - 0x80, 34);
      assert Pow2(34) == 0x4_0000_0000 by {
        Pow2Of32();
        Pow2Add(32, 2);
      }
    }
    MulMonotone(NANOS_PER_SEC, ts % d, d);
  }

  /**
   * Microseconds (`tsresol` 6, the pcapng default) split into seconds and
   * nanoseconds.
   */
  lemma MicrosecondsExample()
    ensures TsCalcAsWritten(1_500_000, 6, 0) == Some((1, 500_000_000))
    ensures TsCalcAsWritten(1_500_000, 6, -2) == Some((0, 500_000_000))
  {
    Pow10Values();
  }

  /**
   * At 11 decimal digits, 99 999 999 999 units are just under a second, but
   * `(ts - ts_secs * mag) * 1_000_000_000` overflows a `u64`.
   */
  lemma DecimalOverflowExample()
    ensures TsCalcAsWritten(99_999_999_999, 11, 0).None?
    ensures Timestamp(99_999_999_999, 11, 0) == (0, 999_999_999)
  {
    Pow10Values();
  }

  // ---------------------------------------------------------------------
  // The loop
  // ---------------------------------------------------------------------

  /** `u64::MAX << r` keeps the top `64 - r` bits, and its complement is the low `r` bits. */
  lemma LowMask(r: nat)
    requires r < 64
    ensures Shl(U64_MAX, r) % Pow2(64) == HighMask(64, r)
    ensures Not(HighMask(64, r), 64) == Pow2(r) - 1
  {
    Pow2Of64();
    Pow2Monotone(r, 64);
    var p := Pow2(r);
    assert Shl(U64_MAX, r) == Pow2(64) * (p - 1) + (Pow2(64) - p) by {
      MulDistributes(p, Pow2(64), -1);
    }
    DivModUnique(Shl(U64_MAX, r), Pow2(64), p - 1, Pow2(64) - p);
  }

  /** AND with the low `k` bits set keeps exactly those bits. */
  lemma {:induction false} AndLowOnes(a: nat, w: nat, k: nat)
    requires k <= w
    ensures And(a, Pow2(k) - 1, w) == LowBits(a, k)
    decreases w
  {
    if w == 0 {
    } else if k == 0 {
      AndLowOnes(a / 2, w - 1, 0);
    } else {
      DivModUnique(Pow2(k) - 1, 2, Pow2(k - 1) - 1, 1);
      AndLowOnes(a / 2, w - 1, k - 1);
    }
  }

  /** The resolution byte's top bit, and its low seven bits. */
  lemma ResolutionBits(tsresol: u8)
    ensures And(tsresol, 0x80, 8) == 0 <==> tsresol < 0x80
    ensures And(tsresol, 0x7F, 8) == tsresol % 0x80
  {
    Pow2Of8();
    assert Pow2(7) == 0x80;
    assert HighMask(8, 7) == 0x80;
    AndHighMask(tsresol, 8, 7);
    AndLowOnes(tsresol, 8, 7);
    LowBitsIsMod(tsresol, 7);
  }

  /** `ts & !(u64::MAX << r)` is the timestamp modulo 2^r, and `1u64 << r` is 2^r. */
  lemma BinaryFraction(ts: u64, r: nat)
    requires r < 64
    ensures And(ts, Not(Shl(U64_MAX, r) % Pow2(64), 64), 64) == ts % Pow2(r)
    ensures Shl(1, r) == Pow2(r)
  {
    LowMask(r);
    AndLowOnes(ts, 64, r);
    LowBitsIsMod(ts, r);
  }

  /** `ts - ts_secs * mag` is what the division leaves. */
  lemma LeftOver(ts: u64, d: nat)
    requires d >= 1
    ensures 0 <= Seconds(ts, d) * d <= ts
    ensures ts - Seconds(ts, d) * d == ts % d < d
  {
    DivAtMost(ts, d);
    MulMonotone(d, 0, ts / d);
  }

  /** With a decimal resolution whose magnitude fits, the written conversion fails only when the scaling overflows. */
  lemma DecimalCase(ts: u64, tsresol: u8, offset: i64, m: nat)
    requires tsresol < 0x80 && m == Pow10(tsresol) && m <= U64_MAX
    ensures TsCalcAsWritten(ts, tsresol, offset) ==
      if (ts % m) * NANOS_PER_SEC > U64_MAX then None
      else Some((ApplyOffset(Seconds(ts, m), offset), Nanos(ts % m, m)))
  {
  }

  /** The same with a binary resolution of fewer than 64 bits. */
  lemma BinaryCase(ts: u64, tsresol: u8, offset: i64, res: nat)
    requires tsresol >= 0x80 && res == tsresol % 0x80 && res < 64
    ensures TsCalcAsWritten(ts, tsresol, offset) ==
      if (ts % Pow2(res)) * NANOS_PER_SEC > U64_MAX then None
      else Some((ApplyOffset(Seconds(ts, Pow2(res)), offset), Nanos(ts % Pow2(res), Pow2(res))))
  {
    DivModUnique(tsresol, 0x80, 1, tsresol - 0x80);
    assert UnitsPerSec(tsresol) == Pow2(res);
    Pow2Monotone(res, 63);
    Pow2Of64();
    assert Pow2(64) == 2 * Pow2(63);
  }

  /** The decimal case of `ts_calc` in terms of the seconds and the units left over. */
  lemma DecimalParts(ts: u64, tsresol: u8, offset: i64, m: nat, tsSecs: u64, frac: int)
    requires tsresol < 0x80 && m == Pow10(tsresol) && m <= U64_MAX
    requires tsSecs == Seconds(ts, m) && frac == ts - tsSecs * m
    ensures 0 <= frac < m
    ensures frac * NANOS_PER_SEC > U64_MAX ==> TsCalcAsWritten(ts, tsresol, offset) == None
    ensures frac * NANOS_PER_SEC <= U64_MAX ==>
      TsCalcAsWritten(ts, tsresol, offset) == Some((ApplyOffset(tsSecs, offset), Nanos(frac, m)))
  {
    DecimalCase(ts, tsresol, offset, m);
    LeftOver(ts, m);
  }

  /** The binary case of `ts_calc` in terms of the seconds and the masked fraction. */
  lemma BinaryParts(ts: u64, tsresol: u8, offset: i64, res: nat, tsSecs: u64, frac: nat)
    requires tsresol >= 0x80 && res == tsresol % 0x80 && res < 64
    requires tsSecs == Seconds(ts, Pow2(res)) && frac == And(ts, Not(Shl(U64_MAX, res) % Pow2(64), 64), 64)
    ensures Shl(1, res) == Pow2(res) && frac < Pow2(res)
    ensures frac * NANOS_PER_SEC > U64_MAX ==> TsCalcAsWritten(ts, tsresol, offset) == None
    ensures frac * NANOS_PER_SEC <= U64_MAX ==>
      TsCalcAsWritten(ts, tsresol, offset) == Some((ApplyOffset(tsSecs, offset), Nanos(frac, Shl(1, res))))
  {
    BinaryCase(ts, tsresol, offset, res);
    BinaryFraction(ts, res);
  }

  /** Binary resolutions of 64 bits or more cannot be shifted by. */
  lemma BinaryTooFine(ts: u64, tsresol: u8, offset: i64)
    requires tsresol >= 0x80 && tsresol % 0x80 >= 64
    ensures TsCalcAsWritten(ts, tsresol, offset) == None
  {
    DivModUnique(tsresol, 0x80, 1, tsresol - 0x80);
    Pow2Monotone(64, tsresol - 0x80);
    Pow2Of64();
  }

  /** The `for` loop of `ts_calc`: `mag` multiplied by ten `r` times; None where it overflows. */
  method Magnitude(r: nat) returns (mag: Option<u64>)
    ensures mag.Some? <==> Pow10(r) <= U64_MAX
    ensures mag.Some? ==> mag.value == Pow10(r)
  {
    var m: u64 := 1;
    for i := 0 to r
      invariant m == Pow10(i)
    {
      if m * 10 > U64_MAX {
        Pow10Monotone(i + 1, r);
        return None;
      }
      m := m * 10;
    }
    return Some(m);
  }

  /**
   * `ts_calc`: the decimal or the binary branch, chosen by the top bit of
   * `tsresol`.
   */
  method TsCalc(ts: u64, tsresol: u8, offset: i64) returns (r: Option<(u64, nat)>)
    ensures r == TsCalcAsWritten(ts, tsresol, offset)
  {
    ResolutionBits(tsresol);
    if And(tsresol, 0x80, 8) == 0 {
      r := TsCalcDecimal(ts, tsresol, offset);
    } else {
      r := TsCalcBinary(ts, tsresol, offset);
    }
  }

  /** The decimal branch of `ts_calc`: `mag` built up by the loop, then the offset. */
  method TsCalcDecimal(ts: u64, tsresol: u8, offset: i64) returns (r: Option<(u64, nat)>)
    requires tsresol < 0x80
    ensures r == TsCalcAsWritten(ts, tsresol, offset)
  {
    var mag := Magnitude(tsresol);
    if mag.None? {
      return None;
    }
    var m := mag.value;
    var tsSecs := Seconds(ts, m);
    var frac := ts - tsSecs * m;
    DecimalParts(ts, tsresol, offset, m, tsSecs, frac);
    if frac * NANOS_PER_SEC > U64_MAX {
      return None;
    }
    return Some((ApplyOffset(tsSecs, offset), Nanos(frac, m)));
  }

  /** The binary branch of `ts_calc`: the shifts and mask, then the offset. */
  method TsCalcBinary(ts: u64, tsresol: u8, offset: i64) returns (r: Option<(u64, nat)>)
    requires tsresol >= 0x80
    ensures r == TsCalcAsWritten(ts, tsresol, offset)
  {
    ResolutionBits(tsresol);
    var res := And(tsresol, 0x7F, 8);
    if res >= 64 {
      BinaryTooFine(ts, tsresol, offset);
      return None;
    }
    var tsSecs := Seconds(ts, Pow2(res));
    var frac := And(ts, Not(Shl(U64_MAX, res) % Pow2(64), 64), 64);
    BinaryParts(ts, tsresol, offset, res, tsSecs, frac);
    if frac * NANOS_PER_SEC > U64_MAX {
      return None;
    }
    return Some((ApplyOffset(tsSecs, offset), Nanos(frac, Shl(1, res))));
  }
}
