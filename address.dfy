/**
 * What the `Address` trait promises, stated on the big-endian value of an
 * address of `w` bits (IPv4: 32, IPv6: 128, a hardware address of LEN bytes:
 * 8 * LEN): prefix-length masks, the count of leading one bits, and the
 * wrapping successor and predecessor. On top of it, the generic `Subnet`
 * (a base address and a prefix length) and `AddressIter`.
 */
module Address {
  import opened Bits
  import opened Wrappers

  function Min(a: nat, b: nat): nat
  {
    if a <= b then a else b
  }

  /** `from_prefix_len(p)`: the leading `p` of `w` bits set; `p >= w` sets them all. */
  function PrefixMask(w: nat, p: nat): (m: nat)
    ensures m < Pow2(w)
  {
    HighMask(w, w - Min(p, w))
  }

  /** `as_prefix_len()`: the number of leading one bits of a `w`-bit value. */
  function LeadingOnes(v: nat, w: nat): (n: nat)
    ensures n <= w
  {
    if w == 0 then 0
    else if v >= Pow2(w - 1) then 1 + LeadingOnes(v - Pow2(w - 1), w - 1)
    else 0
  }

  /** `next_addr()`: `wrapping_add(1)` on the value. */
  function NextAddr(w: nat, v: nat): (r: nat)
    ensures r < Pow2(w)
  {
    (v + 1) % Pow2(w)
  }

  /** `prev_addr()`: `wrapping_sub(1)` on the value. */
  function PrevAddr(w: nat, v: nat): (r: nat)
    requires v < Pow2(w)
    ensures r < Pow2(w)
  {
    (v + Pow2(w) - 1) % Pow2(w)
  }

  lemma PrefixMaskStep(w: nat, p: nat)
    requires w > 0
    ensures PrefixMask(w, p + 1) == Pow2(w - 1) + PrefixMask(w - 1, p)
  {
  }

  /**
   * A mask for `p` bits has exactly `min(p, w)` leading ones, so
   * `from_prefix_len` and `as_prefix_len` are inverse on `0..=w`.
   */
  lemma {:induction false} LeadingOnesOfMask(w: nat, p: nat)
    ensures LeadingOnes(PrefixMask(w, p), w) == Min(p, w)
  {
    if w > 0 && p > 0 {
      var m := PrefixMask(w, p);
      PrefixMaskStep(w, p - 1);
      assert LeadingOnes(m, w) == 1 + LeadingOnes(PrefixMask(w - 1, p - 1), w - 1);
      LeadingOnesOfMask(w - 1, p - 1);
    } else if w > 0 {
      assert PrefixMask(w, p) == 0;
    }
  }

  /**
   * `LeadingOnes` counts leading one bits: the top `n` bits of `v` are set,
   * and when `n < w` the bit after them is clear.
   */
  lemma {:induction false} LeadingOnesMeaning(v: nat, w: nat)
    requires v < Pow2(w)
    ensures v >= PrefixMask(w, LeadingOnes(v, w))
    ensures LeadingOnes(v, w) < w ==> v < PrefixMask(w, LeadingOnes(v, w) + 1)
  {
    if w > 0 {
      var n := LeadingOnes(v, w);
      if v >= Pow2(w - 1) {
        LeadingOnesMeaning(v - Pow2(w - 1), w - 1);
        PrefixMaskStep(w, n - 1);
        PrefixMaskStep(w, n);
      } else {
        PrefixMaskStep(w, 0);
      }
    }
  }

  /** `!(!0 >> p)` below the width, `!0` from the width on: the prefix mask. */
  lemma ShiftComplementIsMask(w: nat, p: nat)
    ensures (if p >= w then LowOnes(w) else Not(Shr(LowOnes(w), p), w)) == PrefixMask(w, p)
  {
    if p < w {
      OnesShiftRight(w, p);
      assert Shr(LowOnes(w), p) == Pow2(w - p) - 1;
    }
  }

  /** The successor wraps from the all-ones value to zero and adds one otherwise. */
  lemma NextAddrWraps(w: nat, v: nat)
    requires v < Pow2(w)
    ensures v + 1 < Pow2(w) ==> NextAddr(w, v) == v + 1
    ensures v + 1 == Pow2(w) ==> NextAddr(w, v) == 0
  {
    if v + 1 < Pow2(w) {
      ModBelow(v + 1, Pow2(w));
    } else {
      ModAbove(v + 1, Pow2(w));
    }
  }

  /** The predecessor wraps from zero to the all-ones value and subtracts one otherwise. */
  lemma PrevAddrWraps(w: nat, v: nat)
    requires v < Pow2(w)
    ensures v > 0 ==> PrevAddr(w, v) == v - 1
    ensures v == 0 ==> PrevAddr(w, v) == Pow2(w) - 1
  {
    var P := Pow2(w);
    var x := v + P - 1;
    assert PrevAddr(w, v) == x % P;
    if v > 0 {
      ModAbove(x, P);
    } else {
      ModBelow(x, P);
    }
  }

  /** `prev_addr` undoes `next_addr` and the other way round. */
  lemma NextPrevInverse(w: nat, v: nat)
    requires v < Pow2(w)
    ensures PrevAddr(w, NextAddr(w, v)) == v
    ensures NextAddr(w, PrevAddr(w, v)) == v
  {
    NextAddrWraps(w, v);
    PrevAddrWraps(w, v);
    NextAddrWraps(w, PrevAddr(w, v));
    PrevAddrWraps(w, NextAddr(w, v));
  }

  // ---------------------------------------------------------------------
  // Subnet<A>
  // ---------------------------------------------------------------------

  /** `Subnet { base, prefix_len }`: the base is stored as given, host bits included. */
  datatype Subnet = Subnet(base: nat, prefixLen: nat)

  /** The number of host bits: those below the prefix. */
  function HostBits(w: nat, s: Subnet): nat
  {
    w - Min(s.prefixLen, w)
  }

  /** `Subnet::mask`. */
  function Mask(w: nat, s: Subnet): (m: nat)
    ensures m < Pow2(w)
  {
    PrefixMask(w, s.prefixLen)
  }

  /** `Subnet::base_addr`: the stored base ANDed with the mask. */
  function BaseAddr(w: nat, s: Subnet): (b: nat)
    ensures b < Pow2(w)
  {
    AndBound(s.base, Mask(w, s), w);
    And(s.base, Mask(w, s), w)
  }

  /** `Subnet::contains` as written: the masked address against the stored base. */
  predicate Contains(w: nat, s: Subnet, a: nat)
  {
    And(a, Mask(w, s), w) == s.base
  }

  /** Subnet membership as intended: the masked address against `base_addr()`. */
  predicate ContainsAddr(w: nat, s: Subnet, a: nat)
  {
    And(a, Mask(w, s), w) == BaseAddr(w, s)
  }

  /** `Subnet::first`: the address after `base_addr()`. */
  function First(w: nat, s: Subnet): (a: nat)
    ensures a < Pow2(w)
  {
    NextAddr(w, BaseAddr(w, s))
  }

  /** `Subnet::last`: the base with every host bit set. */
  function Last(w: nat, s: Subnet): (a: nat)
    requires s.base < Pow2(w)
    ensures a < Pow2(w)
  {
    OrBound(s.base, Not(Mask(w, s), w), w);
    Or(s.base, Not(Mask(w, s), w), w)
  }

  /** Masking clears exactly the host bits. */
  lemma MaskClearsHostBits(w: nat, s: Subnet, a: nat)
    requires a < Pow2(w)
    ensures And(a, Mask(w, s), w) == a - a % Pow2(HostBits(w, s))
  {
    AndHighMask(a, w, HostBits(w, s));
  }

  lemma BaseAddrValue(w: nat, s: Subnet)
    requires s.base < Pow2(w)
    ensures BaseAddr(w, s) == s.base - s.base % Pow2(HostBits(w, s))
  {
    MaskClearsHostBits(w, s, s.base);
  }

  /** The last address is the base address plus all host bits. */
  lemma LastValue(w: nat, s: Subnet)
    requires s.base < Pow2(w)
    ensures Last(w, s) == BaseAddr(w, s) + Pow2(HostBits(w, s)) - 1
  {
    var k := HostBits(w, s);
    HostMask(w, s);
    OrLowOnes(s.base, w, k);
    BaseAddrValue(w, s);
  }

  /** OR-ing the host bits into `base_addr()` instead of the stored base changes nothing. */
  lemma LastFromBaseAddr(w: nat, s: Subnet)
    requires s.base < Pow2(w)
    ensures Or(BaseAddr(w, s), Not(Mask(w, s), w), w) == Last(w, s)
  {
    BaseAddrAligned(w, s);
    HostMask(w, s);
    LastValue(w, s);
    OrAlignedIs(w, HostBits(w, s), BaseAddr(w, s), Not(Mask(w, s), w), Last(w, s));
  }

  lemma OrAlignedIs(w: nat, k: nat, b: nat, n: nat, l: nat)
    requires k <= w && b < Pow2(w) && b % Pow2(k) == 0
    requires n == Pow2(k) - 1 && l == b + Pow2(k) - 1
    ensures Or(b, n, w) == l
  {
    OrLowOnes(b, w, k);
  }

  /** The complement of the mask is the host bits. */
  lemma HostMask(w: nat, s: Subnet)
    ensures Not(Mask(w, s), w) == Pow2(HostBits(w, s)) - 1
  {
  }

  lemma BaseAddrAligned(w: nat, s: Subnet)
    requires s.base < Pow2(w)
    ensures BaseAddr(w, s) % Pow2(HostBits(w, s)) == 0
  {
    BaseAddrValue(w, s);
    ClearedIsMultiple(s.base, Pow2(HostBits(w, s)));
  }

  /** Values agree above the low `k` bits exactly when one lies in the other's block. */
  lemma AlignedRange(a: nat, b: nat, P: nat)
    requires P > 0
    ensures a - a % P == b - b % P <==> b - b % P <= a <= b - b % P + P - 1
  {
    if b - b % P <= a <= b - b % P + P - 1 {
      DivModUnique(a, P, b / P, a - (b - b % P));
    }
  }

  /** Membership as intended is exactly the range `base_addr()..=last()`. */
  lemma ContainsAddrIsRange(w: nat, s: Subnet, a: nat)
    requires s.base < Pow2(w) && a < Pow2(w)
    ensures ContainsAddr(w, s, a) <==> BaseAddr(w, s) <= a <= Last(w, s)
  {
    MaskClearsHostBits(w, s, a);
    BaseAddrValue(w, s);
    LastValue(w, s);
    AlignedRange(a, s.base, Pow2(HostBits(w, s)));
  }

  /** A value with its low bits cleared is a multiple of the block size. */
  lemma ClearedIsMultiple(a: nat, P: nat)
    requires P > 0
    ensures (a - a % P) % P == 0
  {
    DivModUnique(a - a % P, P, a / P, 0);
  }

  /**
   * `contains` as written compares against the stored base; when that base
   * has a host bit set, no address at all is contained.
   */
  lemma ContainsWithHostBitsIsEmpty(w: nat, s: Subnet, a: nat)
    requires s.base < Pow2(w) && a < Pow2(w)
    requires s.base % Pow2(HostBits(w, s)) != 0
    ensures !Contains(w, s, a)
  {
    MaskClearsHostBits(w, s, a);
    ClearedIsMultiple(a, Pow2(HostBits(w, s)));
  }

  /** For a base without host bits the two agree. */
  lemma ContainsCanonical(w: nat, s: Subnet, a: nat)
    requires s.base < Pow2(w) && s.base % Pow2(HostBits(w, s)) == 0
    ensures Contains(w, s, a) <==> ContainsAddr(w, s, a)
  {
    BaseAddrValue(w, s);
  }

  /**
   * The subnet 1.1.1.1/16 as `"1.1.1.1/16".parse()` builds it: 1.1.0.5 lies
   * between `base_addr()` and `last()`, yet `contains` says no.
   */
  lemma ContainsExample()
    ensures var s := Subnet(0x0101_0101, 16);
      !Contains(32, s, 0x0101_0005) && ContainsAddr(32, s, 0x0101_0005)
  {
    var s := Subnet(0x0101_0101, 16);
    Pow2Values();
    assert HostBits(32, s) == 16;
    ContainsWithHostBitsIsEmpty(32, s, 0x0101_0005);
    BaseAddrValue(32, s);
    LastValue(32, s);
    ContainsAddrIsRange(32, s, 0x0101_0005);
  }

  /** A subnet with host bits: `first()` follows `base_addr()` and does not pass `last()`. */
  lemma FirstLast(w: nat, s: Subnet)
    requires s.base < Pow2(w) && s.prefixLen < w
    ensures First(w, s) == BaseAddr(w, s) + 1 <= Last(w, s)
  {
    var k := HostBits(w, s);
    LastValue(w, s);
    Pow2Monotone(1, k);
    NextAddrWraps(w, BaseAddr(w, s));
  }

  // ---------------------------------------------------------------------
  // AddressIter<A>
  // ---------------------------------------------------------------------

  /** `std::ops::Bound` of a range of addresses. */
  datatype Bound = Unbounded | Included(addr: nat) | Excluded(addr: nat)

  predicate BoundFits(w: nat, b: Bound)
  {
    b.Unbounded? || b.addr < Pow2(w)
  }

  /** The number of successor steps from `c` to `last`, wrapping. */
  function Distance(w: nat, c: nat, last: nat): nat
  {
    (last - c) % Pow2(w)
  }

  /** The addresses from `c` to `last` inclusive, in successor order. */
  function Walk(w: nat, c: nat, last: nat): (r: seq<nat>)
    ensures |r| == Distance(w, c, last) + 1
  {
    seq(Distance(w, c, last) + 1, i => (c + i) % Pow2(w))
  }

  /** The number of steps left drops by one with each successor. */
  lemma DistanceStep(P: nat, c: nat, last: nat)
    requires c < P && last < P && c != last
    ensures (last - c) % P > 0
    ensures (last - (c + 1) % P) % P == (last - c) % P - 1
  {
    if last > c {
      ModBelow(last - c, P);
    } else {
      ModNegative(last - c, P);
    }
    if c + 1 < P {
      ModBelow(c + 1, P);
      if last >= c + 1 {
        ModBelow(last - (c + 1), P);
      } else {
        ModNegative(last - (c + 1), P);
      }
    } else {
      ModAbove(c + 1, P);
      ModBelow(last, P);
    }
  }

  lemma ModAddMod(x: nat, i: nat, P: nat)
    requires P > 0
    ensures (x % P + i) % P == (x + i) % P
  {
    var y := x % P + i;
    var q := y / P;
    MulDistributes(P, x / P, q);
    DivModUnique(x + i, P, x / P + q, y % P);
  }

  /** A walk is its first address followed by the walk from the successor. */
  lemma WalkStep(w: nat, c: nat, last: nat)
    requires c < Pow2(w) && last < Pow2(w)
    ensures c == last ==> Walk(w, c, last) == [c]
    ensures c != last ==> Walk(w, c, last) == [c] + Walk(w, NextAddr(w, c), last)
  {
    ModBelow(c, Pow2(w));
    if c == last {
      assert Distance(w, c, last) == 0;
    } else {
      DistanceStep(Pow2(w), c, last);
      var r := Walk(w, c, last);
      var t := Walk(w, NextAddr(w, c), last);
      assert |r| == |t| + 1;
      forall i | 0 <= i < |t|
        ensures r[i + 1] == t[i]
      {
        ModAddMod(c + 1, i, Pow2(w));
      }
      assert r == [c] + t;
    }
  }

  /** Without wrap-around the walk is the ascending run `c, c+1, ..., last`. */
  lemma WalkAscending(w: nat, c: nat, last: nat)
    requires c <= last < Pow2(w)
    ensures |Walk(w, c, last)| == last - c + 1
    ensures forall i :: 0 <= i < |Walk(w, c, last)| ==> Walk(w, c, last)[i] == c + i
  {
    var r := Walk(w, c, last);
    ModBelow(last - c, Pow2(w));
    forall i | 0 <= i < |r|
      ensures r[i] == c + i
    {
      ModBelow(c + i, Pow2(w));
    }
  }

  /**
   * Iterating a subnet with host bits yields every address strictly after
   * `base_addr()` up to and including `last()`, in ascending order.
   */
  lemma SubnetWalk(w: nat, s: Subnet)
    requires s.base < Pow2(w) && s.prefixLen < w
    ensures |Walk(w, First(w, s), Last(w, s))| == Pow2(HostBits(w, s)) - 1
    ensures forall i :: 0 <= i < |Walk(w, First(w, s), Last(w, s))| ==>
      Walk(w, First(w, s), Last(w, s))[i] == BaseAddr(w, s) + 1 + i
  {
    FirstLast(w, s);
    LastValue(w, s);
    WalkAscending(w, First(w, s), Last(w, s));
  }

  /** `AddressIter`: the next address to yield, if any, and the last one. */
  class AddressIter {
    const width: nat
    var curr: Option<nat>
    var last: nat

    ghost predicate Valid()
      reads this
    {
      last < Pow2(width) && (curr.Some? ==> curr.value < Pow2(width))
    }

    /** The addresses still to be yielded, in order. */
    ghost function Remaining(): seq<nat>
      reads this
      requires Valid()
    {
      match curr
      case None => []
      case Some(c) => Walk(width, c, last)
    }

    /** `Subnet::iter`: from `first()` to `last()`. */
    constructor OfSubnet(w: nat, s: Subnet)
      requires s.base < Pow2(w)
      ensures Valid() && width == w
      ensures curr == Some(First(w, s)) && last == Last(w, s)
    {
      width := w;
      curr := Some(First(w, s));
      last := Last(w, s);
    }

    /**
     * `AddressIter::new(range)`: an unbounded start is the all-zero address,
     * an unbounded end the all-ones one; excluded bounds step inwards.
     */
    constructor (w: nat, start: Bound, end: Bound)
      requires BoundFits(w, start) && BoundFits(w, end)
      ensures Valid() && width == w
      ensures curr == Some(match start
                           case Unbounded => 0
                           case Included(a) => a
                           case Excluded(a) => NextAddr(w, a))
      ensures last == match end
                      case Unbounded => Pow2(w) - 1
                      case Included(a) => a
                      case Excluded(a) => PrevAddr(w, a)
    {
      width := w;
      curr := Some(match start
                   case Unbounded => PrefixMask(w, 0)
                   case Included(a) => a
                   case Excluded(a) => NextAddr(w, a));
      last := match end
              case Unbounded => PrefixMask(w, w)
              case Included(a) => a
              case Excluded(a) => PrevAddr(w, a);
    }

    /**
     * `Iterator::next`: yields the current address and moves to its
     * successor, or ends after yielding `last`; an ended iterator stays ended.
     */
    method Next() returns (r: Option<nat>)
      requires Valid()
      modifies this
      ensures Valid()
      ensures old(Remaining()) == [] ==> r == None && Remaining() == []
      ensures old(Remaining()) != [] ==>
        r == Some(old(Remaining())[0]) && Remaining() == old(Remaining())[1..]
    {
      r := curr;
      match curr {
        case None =>
        case Some(a) =>
          WalkStep(width, a, last);
          if a == last {
            curr := None;
          } else {
            curr := Some(NextAddr(width, a));
          }
      }
    }
  }
}
