/**
 * The IPv4 header (`IPv4`): its fields, the lengths derived from its options
 * and padding, its wire form, its header checksum, and `make_canonical`,
 * which fills in the version, the header length, the total length and the
 * checksum before the packet is written out.
 */
module Ipv4Hdr {
  import opened Bits
  import opened Wrappers
  import BitPack
  import C = Ipv4Codes
  import O = Ipv4Opts
  import Ipv4Addr
  import Checksum

  type Ipv4Address = Ipv4Addr.Ipv4Address
  type u3 = x: int | 0 <= x < 8
  type u6 = x: int | 0 <= x < 64
  type u13 = x: int | 0 <= x < 0x2000

  /** The padding after the options: derived from `ihl`, or octets the user set. */
  datatype Padding = Auto | Manual(bytes: seq<u8>)

  datatype Header = Header(
    version: C.u4, ihl: C.u4, dscp: u6, ecn: C.u2, totlen: u16, ident: u16,
    flags: u3, fragOffset: u13, ttl: u8, proto: u8, chksum: u16,
    src: Ipv4Address, dst: Ipv4Address, opts: seq<O.Opt>, padding: Padding)

  /** `IPProto::RESERVED`, the protocol a new header starts with. */
  const PROTO_RESERVED: u8 := 255

  /** The three zero octets automatic padding is sliced from. */
  const PADDING: seq<u8> := [0, 0, 0]

  const UNSPECIFIED: Ipv4Address := [0, 0, 0, 0]

  lemma SmallPow2()
    ensures Pow2(2) == 4 && Pow2(3) == 8 && Pow2(4) == 16 && Pow2(6) == 64 && Pow2(13) == 0x2000
  {
    Pow2Add(6, 7);
    Pow2Add(3, 3);
  }

  function Zeros(n: nat): (z: seq<u8>)
    ensures |z| == n && forall i :: 0 <= i < n ==> z[i] == 0
  {
    seq(n, _ => 0)
  }

  function Max(a: nat, b: nat): nat
  {
    if a >= b then a else b
  }

  function Min(a: nat, b: nat): nat
  {
    if a <= b then a else b
  }

  // ---------------------------------------------------------------------
  // Lengths
  // ---------------------------------------------------------------------

  /** The octets the options occupy, by their `actual_length`. */
  function OptsLength(opts: seq<O.Opt>): nat
  {
    if opts == [] then 0 else O.ActualLength(opts[0]) + OptsLength(opts[1..])
  }

  lemma {:induction false} OptsLengthAppend(opts: seq<O.Opt>, opt: O.Opt)
    ensures OptsLength(opts + [opt]) == OptsLength(opts) + O.ActualLength(opt)
    decreases |opts|
  {
    if opts == [] {
      assert [] + [opt] == [opt];
      assert [opt][1..] == [];
    } else {
      assert (opts + [opt])[1..] == opts[1..] + [opt];
      OptsLengthAppend(opts[1..], opt);
    }
  }

  /** `auto_padding_len`: what remains of the reported length `ihl * 4` after the fixed part and the options. */
  function AutoPaddingLen(h: Header): (n: nat)
    ensures 20 + OptsLength(h.opts) + n == Max(4 * h.ihl, 20 + OptsLength(h.opts))
  {
    var ol := OptsLength(h.opts);
    if 4 * h.ihl < 20 + ol then 0 else 4 * h.ihl - 20 - ol
  }

  /**
   * `padding()`: the octets written after the options. Automatic padding is
   * a slice of the three-octet `PADDING`; where it would need more, the
   * slice panics, and the result is None.
   */
  function PaddingOf(h: Header): (r: Option<seq<u8>>)
    ensures h.padding.Manual? ==> r == Some(h.padding.bytes)
    ensures h.padding.Auto? ==> (r.Some? <==> AutoPaddingLen(h) <= 3)
    ensures h.padding.Auto? && r.Some? ==> r.value == Zeros(AutoPaddingLen(h))
  {
    match h.padding
    case Manual(bytes) => Some(bytes)
    case Auto =>
      var n := AutoPaddingLen(h);
      if n <= |PADDING| then Some(PADDING[..n]) else None
  }

  /** `header_len`: the fixed part, the options and the padding; None where `padding()` panics. */
  function HeaderLen(h: Header): Option<nat>
  {
    match PaddingOf(h)
    case None => None
    case Some(pad) => Some(20 + OptsLength(h.opts) + |pad|)
  }

  // ---------------------------------------------------------------------
  // Wire form
  // ---------------------------------------------------------------------

  /** The first ten octets `serialize_header` writes: everything before the checksum. */
  function FixedPre(h: Header): (b: seq<u8>)
    ensures |b| == 10
  {
    SmallPow2();
    [BitPack.PackPair(h.version, h.ihl, 4, 4), BitPack.PackPair(h.dscp, h.ecn, 6, 2)]
      + BeBytes(h.totlen, 2) + BeBytes(h.ident, 2) + BeBytes(BitPack.PackPair(h.flags, h.fragOffset, 3, 13), 2)
      + [h.ttl, h.proto]
  }

  /** The fixed twenty octets: the first ten, the checksum, and the two addresses. */
  function FixedBytes(h: Header): (b: seq<u8>)
    ensures |b| == 20
  {
    FixedPre(h) + BeBytes(h.chksum, 2) + h.src + h.dst
  }

  /** The options, each as `Opt::serialize` writes it. */
  function OptionsBytes(opts: seq<O.Opt>): seq<u8>
  {
    if opts == [] then [] else O.Serialize(opts[0]) + OptionsBytes(opts[1..])
  }

  /** `serialize_header`; None where `padding()` panics. */
  function HeaderBytes(h: Header): (r: Option<seq<u8>>)
    ensures r.Some? <==> PaddingOf(h).Some?
  {
    match PaddingOf(h)
    case None => None
    case Some(pad) => Some(FixedBytes(h) + OptionsBytes(h.opts) + pad)
  }

  /** The serialized header is its fixed twenty octets followed by the options and the padding. */
  lemma HeaderBytesParts(h: Header)
    requires PaddingOf(h).Some?
    ensures HeaderBytes(h).value[..20] == FixedBytes(h)
    ensures HeaderBytes(h).value[20..] == OptionsBytes(h.opts) + PaddingOf(h).value
  {
    var b := HeaderBytes(h).value;
    assert b == FixedBytes(h) + (OptionsBytes(h.opts) + PaddingOf(h).value);
  }

  /** Options whose `actual_length` is the number of octets they write. */
  predicate SizedOptions(opts: seq<O.Opt>)
  {
    forall i :: 0 <= i < |opts| ==> !O.RouteCountQuirk(opts[i]) && !O.RawWithoutLength(opts[i])
  }

  lemma {:induction false} OptionsBytesLength(opts: seq<O.Opt>)
    requires SizedOptions(opts)
    ensures |OptionsBytes(opts)| == OptsLength(opts)
    decreases |opts|
  {
    if opts != [] {
      O.ActualLengthIsWireLength(opts[0]);
      assert SizedOptions(opts[1..]) by {
        forall i | 0 <= i < |opts[1..]|
          ensures !O.RouteCountQuirk(opts[1..][i]) && !O.RawWithoutLength(opts[1..][i])
        {
          assert opts[1..][i] == opts[i + 1];
        }
      }
      OptionsBytesLength(opts[1..]);
    }
  }

  /** `header_len` is the number of octets `serialize_header` writes. */
  lemma HeaderBytesLength(h: Header)
    requires SizedOptions(h.opts)
    ensures HeaderBytes(h).Some? <==> HeaderLen(h).Some?
    ensures HeaderBytes(h).Some? ==> |HeaderBytes(h).value| == HeaderLen(h).value
  {
    OptionsBytesLength(h.opts);
  }

  // ---------------------------------------------------------------------
  // Header checksum (`update_checksum`)
  // ---------------------------------------------------------------------

  /** The checksum of the header as serialized with the checksum field zero; None where that panics. */
  function HeaderChecksum(h: Header): (r: Option<u16>)
    ensures r.Some? <==> PaddingOf(h).Some?
  {
    assert PaddingOf(h.(chksum := 0)) == PaddingOf(h);
    match HeaderBytes(h.(chksum := 0))
    case None => None
    case Some(b) => Some(Checksum.OfBytes(b))
  }

  /** The serialized header around its checksum field. */
  lemma HeaderBytesAround(h: Header)
    requires PaddingOf(h).Some?
    ensures HeaderBytes(h).value == FixedPre(h) + BeBytes(h.chksum, 2) + (h.src + h.dst + OptionsBytes(h.opts) + PaddingOf(h).value)
  {
  }

  /** Storing the computed checksum makes the serialized header check out: its checksum is zero. */
  lemma ChecksumVerifies(h: Header)
    requires HeaderChecksum(h).Some?
    ensures HeaderBytes(h.(chksum := HeaderChecksum(h).value)).Some?
    ensures Checksum.OfBytes(HeaderBytes(h.(chksum := HeaderChecksum(h).value)).value) == 0
  {
    var c := HeaderChecksum(h).value;
    var h0, h1 := h.(chksum := 0), h.(chksum := c);
    assert PaddingOf(h0) == PaddingOf(h) == PaddingOf(h1);
    assert FixedPre(h0) == FixedPre(h) && FixedPre(h1) == FixedPre(h);
    HeaderBytesAround(h0);
    HeaderBytesAround(h1);
    Checksum.ChecksumFieldCompletes(FixedPre(h), h.src + h.dst + OptionsBytes(h.opts) + PaddingOf(h).value);
  }

  // ---------------------------------------------------------------------
  // make_canonical
  // ---------------------------------------------------------------------

  /** The fewest 32-bit words holding the fixed part and `ol` octets of options, at most 15. */
  function CanonicalIhl(ol: nat): (ihl: C.u4)
    ensures ol <= 40 ==> 20 + ol <= 4 * ihl < 24 + ol
    ensures ol > 40 ==> ihl == 15
  {
    if (23 + ol) / 4 <= 15 then (23 + ol) / 4 else 15
  }

  /**
   * `make_canonical` with the header length taken from the options before
   * the automatic padding is derived from it: version 4, automatic padding,
   * `ihl` the words the header takes, `totlen` the header and the inner
   * packet saturated at 0xFFFF, and the checksum recomputed.
   */
  function Canonical(h: Header, innerLen: nat): (r: Header)
    ensures r.version == 4 && r.padding == Auto && r.ihl == CanonicalIhl(OptsLength(h.opts))
    ensures HeaderLen(r).Some? && HeaderBytes(r).Some?
    ensures r.totlen == Min(HeaderLen(r).value + innerLen, 0xFFFF)
    ensures r.chksum == HeaderChecksum(r).value
    ensures r.(version := h.version, ihl := h.ihl, totlen := h.totlen, chksum := h.chksum, padding := h.padding) == h
  {
    var ol := OptsLength(h.opts);
    var h1 := h.(padding := Auto, version := 4, ihl := CanonicalIhl(ol));
    assert AutoPaddingLen(h1) <= 3;
    var hl := 20 + ol + AutoPaddingLen(h1);
    var h2 := h1.(totlen := Min(hl + innerLen, 0xFFFF));
    assert PaddingOf(h2) == PaddingOf(h1);
    var c := HeaderChecksum(h2).value;
    assert HeaderChecksum(h2.(chksum := c)) == HeaderChecksum(h2) by {
      assert h2.(chksum := c).(chksum := 0) == h2.(chksum := 0);
    }
    h2.(chksum := c)
  }

  /** After `make_canonical`, `ihl * 4` is the header length whenever the options fit in 40 octets. */
  lemma CanonicalLengths(h: Header, innerLen: nat)
    ensures OptsLength(h.opts) <= 40 ==> 4 * Canonical(h, innerLen).ihl == HeaderLen(Canonical(h, innerLen)).value
    ensures OptsLength(h.opts) > 40 ==> HeaderLen(Canonical(h, innerLen)).value == 20 + OptsLength(h.opts)
    ensures HeaderLen(Canonical(h, innerLen)).value <= 20 + OptsLength(h.opts) + 3
  {
  }

  /** The canonical header checks out. */
  lemma CanonicalChecksum(h: Header, innerLen: nat)
    ensures Checksum.OfBytes(HeaderBytes(Canonical(h, innerLen)).value) == 0
  {
    var r := Canonical(h, innerLen);
    ChecksumVerifies(r);
    assert r.(chksum := HeaderChecksum(r).value) == r;
  }

  /** Making a header canonical twice changes nothing the second time. */
  lemma CanonicalIdempotent(h: Header, innerLen: nat)
    ensures Canonical(Canonical(h, innerLen), innerLen) == Canonical(h, innerLen)
  {
    var r := Canonical(h, innerLen);
    var s := Canonical(r, innerLen);
    assert s.(chksum := 0) == r.(chksum := 0);
  }

  /**
   * `make_canonical` as written: the padding is set to automatic and
   * `header_len` is taken while `ihl` still holds its old value, so the
   * padding is derived from the stale `ihl`. None where `padding()` panics.
   */
  function MakeCanonicalAsWritten(h: Header, innerLen: nat): (r: Option<Header>)
    ensures r.None? <==> 4 * h.ihl > 23 + OptsLength(h.opts)
    ensures r.Some? ==> r.value.version == 4 && r.value.padding == Auto && r.value.opts == h.opts
    ensures r.Some? ==> r.value.ihl == Min(HeaderLen(h.(padding := Auto, version := 4)).value / 4, 15)
  {
    var h1 := h.(padding := Auto, version := 4);
    match HeaderLen(h1)
    case None => None
    case Some(hl) =>
      var h2 := h1.(ihl := Min(hl / 4, 15), totlen := Min(hl + innerLen, 0xFFFF));
      assert AutoPaddingLen(h2) <= 3;
      match HeaderChecksum(h2)
      case None => None
      case Some(c) => Some(h2.(chksum := c))
  }

  /** As written, a header whose old `ihl` reports more than three octets of padding panics. */
  lemma MakeCanonicalAsWrittenPanics(h: Header)
    requires h.ihl == 6 && h.opts == []
    ensures MakeCanonicalAsWritten(h, 0).None?
    ensures HeaderLen(Canonical(h, 0)) == Some(20) && Canonical(h, 0).ihl == 5
  {
  }

  /**
   * As written, options whose length is not a multiple of four get no
   * padding when the old `ihl` was small, and `ihl` is rounded down: the
   * header then reports fewer octets than it has. A new header (`ihl` 0)
   * with a single NOP is one such case: 21 octets reported as 20.
   */
  lemma MakeCanonicalAsWrittenMisreports(h: Header, innerLen: nat)
    requires OptsLength(h.opts) <= 40 && OptsLength(h.opts) % 4 != 0
    requires 4 * h.ihl <= 20 + OptsLength(h.opts)
    ensures MakeCanonicalAsWritten(h, innerLen).Some?
    ensures 4 * MakeCanonicalAsWritten(h, innerLen).value.ihl < HeaderLen(MakeCanonicalAsWritten(h, innerLen).value).value
  {
    var ol := OptsLength(h.opts);
    var h1 := h.(padding := Auto, version := 4);
    assert AutoPaddingLen(h1) == 0;
    assert PaddingOf(h1) == Some([]);
    var hl := 20 + ol;
    assert HeaderLen(h1) == Some(hl);
    assert hl / 4 <= 15 && 4 * (hl / 4) < hl;
    var r := MakeCanonicalAsWritten(h, innerLen).value;
    assert r.ihl == hl / 4;
    assert AutoPaddingLen(r) == 0;
    assert PaddingOf(r) == Some([]);
  }

  /** The smallest case: a new header with one NOP option is 21 octets and reports 20. */
  lemma MakeCanonicalAsWrittenNopExample()
    ensures var h := Header(0, 0, 0, 0, 0, 0, 0, 0, 0, PROTO_RESERVED, 0, UNSPECIFIED, UNSPECIFIED, [O.Nop], Auto);
      MakeCanonicalAsWritten(h, 0).Some? && MakeCanonicalAsWritten(h, 0).value.ihl == 5 &&
      HeaderLen(MakeCanonicalAsWritten(h, 0).value) == Some(21) && HeaderLen(Canonical(h, 0)) == Some(24)
  {
    assert [O.Nop][1..] == [];
    assert OptsLength([O.Nop]) == 1;
  }

  // ---------------------------------------------------------------------
  // The header object
  // ---------------------------------------------------------------------

  class Ipv4 {
    var version: C.u4
    var ihl: C.u4
    var dscp: u6
    var ecn: C.u2
    var totlen: u16
    var ident: u16
    var flags: u3
    var fragOffset: u13
    var ttl: u8
    var proto: u8
    var chksum: u16
    var src: Ipv4Address
    var dst: Ipv4Address
    var opts: seq<O.Opt>
    var padding: Padding

    function Value(): Header
      reads this
    {
      Header(version, ihl, dscp, ecn, totlen, ident, flags, fragOffset, ttl, proto, chksum, src, dst, opts, padding)
    }

    /** `IPv4::new`: every field zero except the reserved protocol, no options, automatic padding. */
    constructor ()
      ensures Value() == Header(0, 0, 0, 0, 0, 0, 0, 0, 0, PROTO_RESERVED, 0, UNSPECIFIED, UNSPECIFIED, [], Auto)
    {
      version, ihl, dscp, ecn := 0, 0, 0, 0;
      totlen, ident, flags, fragOffset := 0, 0, 0, 0;
      ttl, proto, chksum := 0, PROTO_RESERVED, 0;
      src, dst := UNSPECIFIED, UNSPECIFIED;
      opts, padding := [], Auto;
    }

    /** `IPv4::with_addresses`: as `new`, with the two addresses given. */
    constructor WithAddresses(srcAddr: Ipv4Address, dstAddr: Ipv4Address)
      ensures Value() == Header(0, 0, 0, 0, 0, 0, 0, 0, 0, PROTO_RESERVED, 0, srcAddr, dstAddr, [], Auto)
    {
      version, ihl, dscp, ecn := 0, 0, 0, 0;
      totlen, ident, flags, fragOffset := 0, 0, 0, 0;
      ttl, proto, chksum := 0, PROTO_RESERVED, 0;
      src, dst := srcAddr, dstAddr;
      opts, padding := [], Auto;
    }

    /** `opts_len`: the options' `actual_length`s added up one by one. */
    method OptsLen() returns (n: nat)
      ensures n == OptsLength(opts)
    {
      n := 0;
      for i := 0 to |opts|
        invariant n == OptsLength(opts[..i])
      {
        OptsLengthAppend(opts[..i], opts[i]);
        assert opts[..i + 1] == opts[..i] + [opts[i]];
        n := n + O.ActualLength(opts[i]);
      }
      assert opts[..|opts|] == opts;
    }

    /**
     * `padding_mut`: the padding becomes manual, holding the octets
     * `padding()` returned (zeros of the automatic length, which here never
     * panics), so the header length is unchanged.
     */
    method PaddingMut() returns (p: seq<u8>)
      modifies this
      ensures Value() == old(Value()).(padding := Manual(p))
      ensures old(padding).Auto? ==> p == Zeros(AutoPaddingLen(old(Value())))
      ensures old(padding).Manual? ==> p == old(padding).bytes
      ensures old(PaddingOf(Value())).Some? ==> Some(p) == old(PaddingOf(Value())) && HeaderLen(Value()) == old(HeaderLen(Value()))
    {
      if padding.Auto? {
        var n := OptsLen();
        p := if 4 * ihl < 20 + n then [] else Zeros(4 * ihl - 20 - n);
      } else {
        p := padding.bytes;
      }
      padding := Manual(p);
    }

    /**
     * `update_checksum`: the checksum field is zeroed, the header is written
     * to a new accumulator, and the accumulator's checksum is stored and
     * returned. Where writing the header panics, the field is left zero and
     * the result is None.
     */
    method UpdateChecksum() returns (c: Option<u16>)
      modifies this
      ensures c == HeaderChecksum(old(Value()))
      ensures Value() == old(Value()).(chksum := if c.Some? then c.value else 0)
      ensures c.Some? ==> Checksum.OfBytes(HeaderBytes(Value()).value) == 0
    {
      ghost var h := Value();
      chksum := 0;
      var bytes := HeaderBytes(Value());
      if bytes.None? {
        return None;
      }
      var acc := new Checksum.U16OnesComplement();
      var _ := acc.Write(bytes.value);
      var v := acc.Checksum();
      chksum := v;
      c := Some(v);
      ChecksumVerifies(h);
    }

    /** `make_canonical`, with the header length derived from the options (see `Canonical`). */
    method MakeCanonical(innerLen: nat)
      modifies this
      ensures Value() == Canonical(old(Value()), innerLen)
    {
      ghost var h := Value();
      var n := OptsLen();
      padding := Auto;
      version := 4;
      ihl := CanonicalIhl(n);
      ghost var h1 := h.(padding := Auto, version := 4, ihl := CanonicalIhl(n));
      assert Value() == h1;
      assert AutoPaddingLen(h1) <= 3;
      var hl := HeaderLen(Value()).value;
      totlen := Min(hl + innerLen, 0xFFFF);
      ghost var h2 := h1.(totlen := Min(hl + innerLen, 0xFFFF));
      assert Value() == h2;
      var c := UpdateChecksum();
      assert c == HeaderChecksum(h2);
    }
  }
}
