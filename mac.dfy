/**
 * `MacAddress`: six octets, with the modified EUI-64 conversion of
 * Appendix A of RFC 4291 (insert ff:fe in the middle and flip the
 * universal/local bit) and the 48-bit integer conversions.
 */
module Mac {
  import opened Bits
  import opened Wrappers
  import Hw

  type MacAddress = s: seq<u8> | |s| == 6 witness [0, 0, 0, 0, 0, 0]

  /** `HwAddress<8>` as an EUI-64 identifier. */
  type Eui64 = s: seq<u8> | |s| == 8 witness [0, 0, 0, 0, 0, 0, 0, 0]

  /** `to_eui`: byte 0 with bit 1 flipped, bytes 1-2, ff:fe, bytes 3-5. */
  function ToEui(m: MacAddress): (e: Eui64)
  {
    [Hw.ByteXor(m[0], 2), m[1], m[2], 0xff, 0xfe, m[3], m[4], m[5]]
  }

  /** `from_eui`: the input back as the error unless bytes 3 and 4 are ff:fe. */
  function FromEui(e: Eui64): (r: Result<MacAddress, Eui64>)
    ensures r.Err? <==> !(e[3] == 0xff && e[4] == 0xfe)
    ensures r.Err? ==> r.error == e
  {
    if e[3] != 0xff || e[4] != 0xfe then Err(e)
    else Ok([Hw.ByteXor(e[0], 2), e[1], e[2], e[5], e[6], e[7]])
  }

  lemma FlipTwice(x: u8)
    ensures Hw.ByteXor(Hw.ByteXor(x, 2), 2) == x
  {
    Pow2Values();
    XorInvolution(x, 2, 8);
    ModBelow(x, 256);
  }

  /** `from_eui(to_eui(m)) == Ok(m)`. */
  lemma FromEuiToEui(m: MacAddress)
    ensures FromEui(ToEui(m)) == Ok(m)
  {
    var e := ToEui(m);
    var x := Hw.ByteXor(m[0], 2);
    assert e == [x, m[1], m[2], 0xff, 0xfe, m[3], m[4], m[5]];
    FlipTwice(m[0]);
    assert [Hw.ByteXor(x, 2), m[1], m[2], m[3], m[4], m[5]] == m;
  }

  /** Every EUI-64 that `from_eui` accepts is `to_eui` of the result. */
  lemma ToEuiFromEui(e: Eui64)
    requires FromEui(e).Ok?
    ensures ToEui(FromEui(e).value) == e
  {
    FlipTwice(e[0]);
  }

  lemma ToEuiExample()
    ensures ToEui([0x12, 0x34, 0x56, 0x78, 0x9a, 0xbc]) == [0x10, 0x34, 0x56, 0xff, 0xfe, 0x78, 0x9a, 0xbc]
    ensures FromEui([0x12, 0x34, 0x56, 0x78, 0x9a, 0xbc, 0xde, 0xf0]).Err?
  {
    assert Hw.ByteXor(0x12, 2) == 0x10;
  }

  /** `From<U48>`: the last six of the eight big-endian octets of the u64. */
  function FromU48(v: nat): (m: MacAddress)
    requires v < Pow2(48)
  {
    BeBytes(v, 8)[2..]
  }

  /** `From<MacAddress> for U48`: `u64::from_be_bytes([0, 0, b0..b5]).into_masked()`. */
  function ToU48(m: MacAddress): (v: nat)
  {
    BeValue([0, 0] + m) % Pow2(48)
  }

  /** The 48-bit value is the big-endian value of the six octets. */
  lemma ToU48Value(m: MacAddress)
    ensures ToU48(m) == BeValue(m) && ToU48(m) < Pow2(48)
  {
    ZeroPrefixBe([0, 0], m);
    BeValueBound(m);
    ModBelow(BeValue(m), Pow2(48));
  }

  lemma MacRoundTrip(m: MacAddress)
    ensures FromU48(ToU48(m)) == m
  {
    ToU48Value(m);
    ZeroPrefixBe([0, 0], m);
    BeBytesOfValue([0, 0] + m);
  }

  lemma U48RoundTrip(v: nat)
    requires v < Pow2(48)
    ensures ToU48(FromU48(v)) == v
  {
    var b := BeBytes(v, 8);
    var m := FromU48(v);
    assert v == BeValue(b) by {
      Pow2Monotone(48, 64);
      BeValueOfBytes(v, 8);
    }
    assert BeValue(b) == BeValue(b[..2]) * Pow2(48) + BeValue(m) by {
      assert b == b[..2] + m;
      BeValueAppend(b[..2], m);
    }
    HighPartZero(v, BeValue(b[..2]), BeValue(m), Pow2(48));
    ToU48Value(m);
  }

  /** A value below `p` written as `hi * p + lo` has no high part. */
  lemma HighPartZero(v: nat, hi: nat, lo: nat, p: nat)
    requires v == hi * p + lo && v < p
    ensures lo == v
  {
    if hi > 0 {
      MulMonotone(p, 1, hi);
    }
  }
}
