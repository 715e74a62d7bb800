/**
 * The Ethernet II frame (`EthernetII`): two MAC addresses and an ethertype,
 * then the payload, then a trailer that pads the payload to the 46-octet
 * minimum. The trailer is derived from the payload length (`Auto`), a run of
 * zeros of a given length (`Zeros`), or octets the user set (`Manual`).
 */
module EthernetII {
  import opened Bits
  import opened Wrappers
  import Mac

  type MacAddress = Mac.MacAddress

  datatype Trailer = Auto | Zeros(len: nat) | Manual(bytes: seq<u8>)

  /**
   * What the frame sees of its inner PDU: the inner PDU's `total_len`, and
   * the ethertype `Ethertype::from_pdu` finds for it, if any.
   */
  datatype Inner = Inner(totalLen: nat, ethertype: Option<u16>)

  datatype Frame = Frame(dst: MacAddress, src: MacAddress, ethertype: u16, trailer: Trailer, inner: Option<Inner>)

  /** The payload length below which the trailer pads. */
  const MIN_PAYLOAD: nat := 46

  /** `header_len`: two addresses and the ethertype. */
  const HEADER_LEN: nat := 14

  const ZERO_MAC: MacAddress := [0, 0, 0, 0, 0, 0]

  function ZeroRun(n: nat): (z: seq<u8>)
    ensures |z| == n && forall i :: 0 <= i < n ==> z[i] == 0
  {
    seq(n, _ => 0)
  }

  /** The 46 zero octets trailers are sliced from. */
  const PADDING: seq<u8> := ZeroRun(MIN_PAYLOAD)

  function Max(a: nat, b: nat): nat
  {
    if a >= b then a else b
  }

  /** The inner PDU's `total_len`, or 0 without one. */
  function InnerLen(f: Frame): nat
  {
    if f.inner.Some? then f.inner.value.totalLen else 0
  }

  // ---------------------------------------------------------------------
  // Lengths
  // ---------------------------------------------------------------------

  /** `auto_trailer_len`: what the payload lacks of the 46-octet minimum. */
  function AutoTrailerLen(f: Frame): (n: nat)
    ensures InnerLen(f) + n == Max(MIN_PAYLOAD, InnerLen(f))
    ensures n <= MIN_PAYLOAD
  {
    if InnerLen(f) < MIN_PAYLOAD then MIN_PAYLOAD - InnerLen(f) else 0
  }

  /**
   * `trailer()`: a slice of `PADDING` for `Auto` and `Zeros`, the stored
   * octets for `Manual`. Slicing `Zeros(len)` past the 46 octets panics, and
   * the result is None.
   */
  function TrailerOf(f: Frame): (r: Option<seq<u8>>)
    ensures f.trailer.Auto? ==> r == Some(ZeroRun(AutoTrailerLen(f)))
    ensures f.trailer.Zeros? ==> (r.Some? <==> f.trailer.len <= MIN_PAYLOAD)
    ensures f.trailer.Zeros? && r.Some? ==> r.value == ZeroRun(f.trailer.len)
    ensures f.trailer.Manual? ==> r == Some(f.trailer.bytes)
  {
    match f.trailer
    case Auto => PaddingPrefix(AutoTrailerLen(f)); Some(PADDING[..AutoTrailerLen(f)])
    case Zeros(len) => if len <= |PADDING| then PaddingPrefix(len); Some(PADDING[..len]) else None
    case Manual(bytes) => Some(bytes)
  }

  lemma PaddingPrefix(n: nat)
    requires n <= MIN_PAYLOAD
    ensures PADDING[..n] == ZeroRun(n)
  {
  }

  /** `total_len`: header, payload and the trailer's length by its kind. */
  function TotalLen(f: Frame): nat
  {
    HEADER_LEN + InnerLen(f) +
      match f.trailer
      case Auto => if InnerLen(f) < MIN_PAYLOAD then MIN_PAYLOAD - InnerLen(f) else 0
      case Zeros(len) => len
      case Manual(bytes) => |bytes|
  }

  /**
   * `total_len` counts the octets `trailer()` returns, and an automatic
   * trailer makes a frame of at least 60 octets, exactly 60 when the payload
   * is short.
   */
  lemma TotalLenCountsTrailer(f: Frame)
    ensures TrailerOf(f).Some? ==> TotalLen(f) == HEADER_LEN + InnerLen(f) + |TrailerOf(f).value|
    ensures f.trailer.Auto? ==> TotalLen(f) == HEADER_LEN + Max(MIN_PAYLOAD, InnerLen(f)) && TotalLen(f) >= 60
  {
  }

  // ---------------------------------------------------------------------
  // Wire form
  // ---------------------------------------------------------------------

  /** `serialize_header`: destination, source, then the ethertype big-endian. */
  function HeaderBytes(f: Frame): (b: seq<u8>)
    ensures |b| == HEADER_LEN
  {
    f.dst + f.src + BeBytes(f.ethertype, 2)
  }

  /**
   * The header the dissector reads first: two addresses and a big-endian
   * ethertype, or None when fewer than 14 octets are left.
   */
  function HeaderFields(b: seq<u8>): (r: Option<(MacAddress, MacAddress, u16)>)
    ensures r.Some? <==> |b| >= HEADER_LEN
  {
    if |b| < HEADER_LEN then None
    else
      BeValueBound(b[12..14]);
      Pow2Of16();
      Some((b[..6], b[6..12], BeValue(b[12..14])))
  }

  /** The dissector reads back what `serialize_header` writes, whatever follows. */
  lemma HeaderRoundTrip(f: Frame, rest: seq<u8>)
    ensures HeaderFields(HeaderBytes(f) + rest) == Some((f.dst, f.src, f.ethertype))
  {
    var b := HeaderBytes(f) + rest;
    assert b[..6] == f.dst && b[6..12] == f.src && b[12..14] == BeBytes(f.ethertype, 2);
    Pow2Of16();
    BeValueOfBytes(f.ethertype, 2);
  }

  /**
   * `serialize` as written: header, payload, then for an automatic trailer
   * `PADDING[..46 - inner_len]`, with `inner_len` the octets the payload
   * wrote. The subtraction underflows, and the call panics (None), whenever
   * the payload is longer than 46 octets.
   */
  function SerializeAsWritten(f: Frame, payload: seq<u8>): (r: Option<seq<u8>>)
    ensures f.trailer.Auto? ==> (r.Some? <==> |payload| <= MIN_PAYLOAD)
    ensures r.Some? ==> |r.value| >= HEADER_LEN + |payload| && r.value[..HEADER_LEN] == HeaderBytes(f)
  {
    var tail: Option<seq<u8>> :=
      match f.trailer
      case Auto => if |payload| <= MIN_PAYLOAD then Some(PADDING[..MIN_PAYLOAD - |payload|]) else None
      case Zeros(len) => if len <= |PADDING| then Some(PADDING[..len]) else None
      case Manual(bytes) => Some(bytes);
    if tail.None? then None
    else
      var b := HeaderBytes(f) + payload + tail.value;
      assert b[..HEADER_LEN] == HeaderBytes(f);
      Some(b)
  }

  /** `serialize` with the automatic trailer taken from `trailer()`, as `total_len` counts it. */
  function Serialize(f: Frame, payload: seq<u8>): (r: Option<seq<u8>>)
    ensures r.Some? <==> TrailerOf(f).Some?
    ensures r.Some? ==> r.value == HeaderBytes(f) + payload + TrailerOf(f).value
  {
    match TrailerOf(f)
    case None => None
    case Some(t) => Some(HeaderBytes(f) + payload + t)
  }

  /**
   * A frame of 47 payload octets with an automatic trailer: the written
   * `serialize` panics, while the corrected one writes the 61 octets
   * `total_len` promises.
   */
  lemma SerializeLongPayload(f: Frame, payload: seq<u8>)
    requires f.trailer.Auto? && f.inner == Some(Inner(47, None)) && |payload| == 47
    ensures SerializeAsWritten(f, payload).None?
    ensures Serialize(f, payload).Some? && |Serialize(f, payload).value| == TotalLen(f) == 61
  {
  }

  /**
   * When the payload writes the inner PDU's `total_len` octets, the
   * corrected `serialize` writes exactly `total_len` octets, and it agrees
   * with the written one wherever that one does not panic.
   */
  lemma SerializeLength(f: Frame, payload: seq<u8>)
    requires |payload| == InnerLen(f)
    ensures Serialize(f, payload).Some? ==> |Serialize(f, payload).value| == TotalLen(f)
    ensures SerializeAsWritten(f, payload).Some? ==> SerializeAsWritten(f, payload) == Serialize(f, payload)
  {
    TotalLenCountsTrailer(f);
  }

  // ---------------------------------------------------------------------
  // make_canonical
  // ---------------------------------------------------------------------

  /** The ethertype `make_canonical` settles on: the inner PDU's, if it has one. */
  function CanonicalEthertype(f: Frame): (t: u16)
    ensures f.inner.Some? && f.inner.value.ethertype.Some? ==> t == f.inner.value.ethertype.value
    ensures !(f.inner.Some? && f.inner.value.ethertype.Some?) ==> t == f.ethertype
  {
    match f.inner
    case None => f.ethertype
    case Some(i) => if i.ethertype.Some? then i.ethertype.value else f.ethertype
  }

  /** The frame `make_canonical` leaves. */
  function Canonical(f: Frame): (g: Frame)
  {
    f.(ethertype := CanonicalEthertype(f), trailer := Auto)
  }

  /**
   * After `make_canonical` the trailer is automatic, so the frame is at
   * least 60 octets long; the addresses and payload are unchanged, and a
   * second call changes nothing.
   */
  lemma CanonicalProperties(f: Frame)
    ensures Canonical(f).trailer == Auto && TotalLen(Canonical(f)) >= 60
    ensures Canonical(f).dst == f.dst && Canonical(f).src == f.src && Canonical(f).inner == f.inner
    ensures Canonical(Canonical(f)) == Canonical(f)
  {
    TotalLenCountsTrailer(Canonical(f));
  }

  // ---------------------------------------------------------------------
  // The frame object
  // ---------------------------------------------------------------------

  class EthernetII {
    var dst: MacAddress
    var src: MacAddress
    var ethertype: u16
    var trailer: Trailer
    /** The inner PDU, as far as the frame sees it. */
    var inner: Option<Inner>

    function Value(): Frame
      reads this
    {
      Frame(dst, src, ethertype, trailer, inner)
    }

    /** `EthernetII::new`: zero addresses, ethertype 0, automatic trailer, no inner PDU. */
    constructor ()
      ensures Value() == Frame(ZERO_MAC, ZERO_MAC, 0, Auto, None)
    {
      dst, src, ethertype, trailer, inner := ZERO_MAC, ZERO_MAC, 0, Auto, None;
    }

    /** `EthernetII::with_addresses`: as `new`, with the two addresses given. */
    constructor WithAddresses(dstAddr: MacAddress, srcAddr: MacAddress)
      ensures Value() == Frame(dstAddr, srcAddr, 0, Auto, None)
    {
      dst, src, ethertype, trailer, inner := dstAddr, srcAddr, 0, Auto, None;
    }

    /**
     * `trailer_mut`: the trailer becomes manual, holding zeros of the
     * automatic or stored length, or the octets already stored. Unlike
     * `trailer()`, this never panics, and `total_len` does not change.
     */
    method TrailerMut() returns (t: seq<u8>)
      modifies this
      ensures Value() == old(Value()).(trailer := Manual(t))
      ensures old(trailer).Auto? ==> t == ZeroRun(AutoTrailerLen(old(Value())))
      ensures old(trailer).Zeros? ==> t == ZeroRun(old(trailer).len)
      ensures old(trailer).Manual? ==> t == old(trailer).bytes
      ensures old(TrailerOf(Value())).Some? ==> TrailerOf(Value()) == old(TrailerOf(Value()))
      ensures TotalLen(Value()) == old(TotalLen(Value()))
    {
      if trailer.Auto? {
        var innerLen := if inner.Some? then inner.value.totalLen else 0;
        t := ZeroRun(if innerLen < MIN_PAYLOAD then MIN_PAYLOAD - innerLen else 0);
      } else if trailer.Zeros? {
        t := ZeroRun(trailer.len);
      } else {
        t := trailer.bytes;
      }
      trailer := Manual(t);
    }

    /** `make_canonical`: the ethertype from the inner PDU where it has one, and an automatic trailer. */
    method MakeCanonical()
      modifies this
      ensures Value() == Canonical(old(Value()))
    {
      if inner.Some? && inner.value.ethertype.Some? {
        ethertype := inner.value.ethertype.value;
      }
      trailer := Auto;
    }
  }
}
