/**
 * `Ipv4Address`: four octets whose arithmetic, masks, ordering and equality
 * all go through the big-endian 32-bit `value()`.
 */
module Ipv4Addr {
  import opened Bits
  import Address
  import Text

  type Ipv4Address = s: seq<u8> | |s| == 4 witness [0, 0, 0, 0]

  /** `value()`: `u32::from_be_bytes`. */
  function Value(a: Ipv4Address): (v: nat)
    ensures v < Pow2(32)
  {
    BeValueBound(a);
    BeValue(a)
  }

  /** `from_value(v)`: `u32::to_be_bytes`. */
  function FromValue(v: nat): (a: Ipv4Address)
  {
    BeBytes(v, 4)
  }

  lemma ValueRoundTrip(a: Ipv4Address, v: nat)
    requires v < Pow2(32)
    ensures FromValue(Value(a)) == a
    ensures Value(FromValue(v)) == v
  {
    BeBytesOfValue(a);
    BeValueOfBytes(v, 4);
  }

  /** `from_prefix_len` as written: `!0` for 32 and above, else `!(!0u32 >> p)`. */
  function FromPrefixLen(p: nat): Ipv4Address
  {
    Pow2Values();
    FromValue(if p >= 32 then U32_MAX else Not(Shr(U32_MAX, p), 32))
  }

  /** `as_prefix_len`: `leading_ones()` of the value. */
  function AsPrefixLen(a: Ipv4Address): nat
  {
    Address.LeadingOnes(Value(a), 32)
  }

  function NextAddr(a: Ipv4Address): Ipv4Address
  {
    FromValue(Address.NextAddr(32, Value(a)))
  }

  function PrevAddr(a: Ipv4Address): Ipv4Address
  {
    FromValue(Address.PrevAddr(32, Value(a)))
  }

  /** The shift-and-complement mask is the generic prefix mask of 32 bits. */
  lemma FromPrefixLenIsMask(p: nat)
    ensures Value(FromPrefixLen(p)) == Address.PrefixMask(32, p)
  {
    Pow2Values();
    Address.ShiftComplementIsMask(32, p);
    ValueRoundTrip(FromPrefixLen(p), Address.PrefixMask(32, p));
  }

  /** `as_prefix_len(from_prefix_len(p)) == min(p, 32)`. */
  lemma PrefixLenRoundTrip(p: nat)
    ensures AsPrefixLen(FromPrefixLen(p)) == Address.Min(p, 32)
  {
    FromPrefixLenIsMask(p);
    Address.LeadingOnesOfMask(32, p);
  }

  lemma FromPrefixLenExamples()
    ensures FromPrefixLen(4) == [0xF0, 0, 0, 0]
    ensures FromPrefixLen(12) == [0xFF, 0xF0, 0, 0]
    ensures FromPrefixLen(36) == [0xFF, 0xFF, 0xFF, 0xFF]
  {
    PrefixLen4();
    PrefixLen12();
    PrefixLen36();
  }

  lemma PrefixLen4()
    ensures FromPrefixLen(4) == [0xF0, 0, 0, 0]
  {
    Pow2Of32();
    Pow2Add(28, 4);
    assert Pow2(4) == 16;
    BeValue4([0xF0, 0, 0, 0]);
    MaskBytes(4, [0xF0, 0, 0, 0]);
  }

  lemma PrefixLen12()
    ensures FromPrefixLen(12) == [0xFF, 0xF0, 0, 0]
  {
    Pow2Of32();
    Pow2Add(20, 12);
    assert Pow2(12) == 0x1000 by {
      Pow2Of8();
      Pow2Add(8, 4);
    }
    BeValue4([0xFF, 0xF0, 0, 0]);
    MaskBytes(12, [0xFF, 0xF0, 0, 0]);
  }

  lemma PrefixLen36()
    ensures FromPrefixLen(36) == [0xFF, 0xFF, 0xFF, 0xFF]
  {
    Pow2Of32();
    BeValue4([0xFF, 0xFF, 0xFF, 0xFF]);
    MaskBytes(36, [0xFF, 0xFF, 0xFF, 0xFF]);
  }

  lemma MaskBytes(p: nat, a: Ipv4Address)
    requires BeValue(a) == Address.PrefixMask(32, p)
    ensures FromPrefixLen(p) == a
  {
    FromPrefixLenIsMask(p);
    ValueRoundTrip(a, 0);
    ValueRoundTrip(FromPrefixLen(p), 0);
  }

  /** `next_addr` and `prev_addr` undo each other, wrapping at both ends. */
  lemma NextPrevInverse(a: Ipv4Address)
    ensures PrevAddr(NextAddr(a)) == a && NextAddr(PrevAddr(a)) == a
  {
    var v := Value(a);
    Address.NextPrevInverse(32, v);
    ValueRoundTrip(a, Address.NextAddr(32, v));
    ValueRoundTrip(a, Address.PrevAddr(32, v));
  }

  lemma NextAddrWrapsToZero()
    ensures NextAddr([0xFF, 0xFF, 0xFF, 0xFF]) == [0, 0, 0, 0]
  {
    Pow2Values();
    BeValue4([0xFF, 0xFF, 0xFF, 0xFF]);
    BeValue4([0, 0, 0, 0]);
    ValueRoundTrip([0, 0, 0, 0], 0);
    Address.NextAddrWraps(32, U32_MAX);
  }

  /** Successive addresses ascend in the `Ord` order until the all-ones address. */
  lemma NextAddrAscends(a: Ipv4Address)
    requires a != [0xFF, 0xFF, 0xFF, 0xFF]
    ensures Lt(a, NextAddr(a))
  {
    Pow2Of32();
    ValueRoundTrip([0xFF, 0xFF, 0xFF, 0xFF], 0);
    if Value(a) == U32_MAX {
      BeValueInjective(a, [0xFF, 0xFF, 0xFF, 0xFF]);
    }
    Address.NextAddrWraps(32, Value(a));
    ValueRoundTrip(a, Value(a) + 1);
  }

  /** `PartialEq`: equal values. */
  predicate Eq(a: Ipv4Address, b: Ipv4Address)
  {
    Value(a) == Value(b)
  }

  /** `PartialOrd::lt` (and through it `cmp`): the values compared. */
  predicate Lt(a: Ipv4Address, b: Ipv4Address)
  {
    Value(a) < Value(b)
  }

  /** Equality of values is equality of octets, and order is octet-wise lexicographic. */
  lemma OrderIsLexicographic(a: Ipv4Address, b: Ipv4Address)
    ensures Eq(a, b) <==> a == b
    ensures Lt(a, b) <==> LexLess(a, b)
  {
    if Eq(a, b) {
      BeValueInjective(a, b);
    }
    BeValueOrder(a, b);
  }

  /** `is_broadcast(subnet)`: the address equals `base_addr() | !mask()`. */
  predicate IsBroadcast(a: Ipv4Address, s: Address.Subnet)
  {
    Value(a) == Or(Address.BaseAddr(32, s), Not(Address.Mask(32, s), 32), 32)
  }

  /** The broadcast address of a subnet is its `last()` address. */
  lemma IsBroadcastIsLast(a: Ipv4Address, s: Address.Subnet)
    requires s.base < Pow2(32)
    ensures IsBroadcast(a, s) <==> Value(a) == Address.Last(32, s)
  {
    Address.LastFromBaseAddr(32, s);
  }

  /** `Display`: the four octets in decimal, joined by '.'. */
  function Display(a: Ipv4Address): string
  {
    Text.Join([Text.Format(a[0], 10), Text.Format(a[1], 10), Text.Format(a[2], 10),
               Text.Format(a[3], 10)], '.')
  }

  lemma DisplayExample()
    ensures Display([192, 168, 0, 1]) == "192.168.0.1"
  {
    assert Text.Format(1, 10) == "1";
    assert Text.Format(19, 10) == "19";
    assert Text.Format(192, 10) == "192";
    assert Text.Format(16, 10) == "16";
    assert Text.Format(168, 10) == "168";
    assert Text.Format(0, 10) == "0";
    var parts := ["192", "168", "0", "1"];
    assert parts[1..][1..][1..] == ["1"];
    assert Text.Join(parts[1..][1..], '.') == "0.1";
    assert Text.Join(parts[1..], '.') == "168.0.1";
    assert Text.Join(parts, '.') == "192.168.0.1";
  }
}
